/** Splitting a URL path at a separator, and joining segments back. */
module Segments {

  /** The pieces of `s` between occurrences of `sep` (always at least one). */
  function Split(s: string, sep: char): (r: seq<string>)
    ensures 0 < |r|
  {
    if |s| == 0 then [[]]
    else
      var rest := Split(s[1..], sep);
      if s[0] == sep then [[]] + rest else [[s[0]] + rest[0]] + rest[1..]
  }

  lemma {:induction false} SplitWithoutSep(a: string, sep: char)
    requires sep !in a
    ensures Split(a, sep) == [a]
  {
    if |a| > 0 {
      SplitWithoutSep(a[1..], sep);
      assert [a[0]] + a[1..] == a;
    }
  }

  lemma {:induction false} SplitAtFirstSep(a: string, sep: char, b: string)
    requires sep !in a
    ensures Split(a + [sep] + b, sep) == [a] + Split(b, sep)
  {
    var s := a + [sep] + b;
    if |a| == 0 {
      assert s[0] == sep && s[1..] == b;
    } else {
      assert s[0] == a[0] && s[1..] == a[1..] + [sep] + b;
      SplitAtFirstSep(a[1..], sep, b);
      assert [a[0]] + a[1..] == a;
    }
  }

  /** A path of four segments splits into those segments. */
  lemma SplitFour(a: string, b: string, c: string, d: string)
    requires '/' !in a && '/' !in b && '/' !in c && '/' !in d
    ensures Split(a + "/" + (b + "/" + (c + "/" + d)), '/') == [a, b, c, d]
  {
    SplitWithoutSep(d, '/');
    SplitAtFirstSep(c, '/', d);
    SplitAtFirstSep(b, '/', c + "/" + d);
    SplitAtFirstSep(a, '/', b + "/" + (c + "/" + d));
  }

  /** A path of five segments splits into those segments. */
  lemma SplitFive(a: string, b: string, c: string, d: string, e: string)
    requires '/' !in a && '/' !in b && '/' !in c && '/' !in d && '/' !in e
    ensures Split(a + "/" + (b + "/" + (c + "/" + (d + "/" + e))), '/') == [a, b, c, d, e]
  {
    SplitFour(b, c, d, e);
    SplitAtFirstSep(a, '/', b + "/" + (c + "/" + (d + "/" + e)));
  }
}
