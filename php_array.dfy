/**
 * PHP arrays with string keys, as used for query options: an ordered list
 * of key/value pairs in which no key occurs twice. Order matters because
 * the query string is serialised in array order.
 */
module PhpArray {
  import opened Wrappers

  /** The values a query option can hold; `Null` is PHP's `null`, which
      `array_key_exists` still counts as present. */
  datatype Value = Null | Str(s: string) | Int(i: int) | Bool(b: bool) | Arr(entries: seq<(string, Value)>)

  type Query = seq<(string, Value)>

  /** The keys in array order. */
  function Keys(q: Query): (ks: seq<string>)
    ensures |ks| == |q| && forall i :: 0 <= i < |q| ==> ks[i] == q[i].0
  {
    if |q| == 0 then [] else [q[0].0] + Keys(q[1..])
  }

  /** No key occurs twice: the shape of every PHP array. */
  ghost predicate UniqueKeys(q: Query) {
    forall i, j :: 0 <= i < j < |q| ==> q[i].0 != q[j].0
  }

  /** `array_key_exists`. */
  predicate HasKey(q: Query, k: string) {
    exists i :: 0 <= i < |q| && q[i].0 == k
  }

  /** `$q[$k]` when the key exists. */
  function Lookup(q: Query, k: string): (r: Option<Value>)
    ensures r.Some? <==> HasKey(q, k)
    ensures r.Some? ==> exists i :: 0 <= i < |q| && q[i] == (k, r.value)
  {
    if |q| == 0 then None
    else if q[0].0 == k then Some(q[0].1)
    else
      var r := Lookup(q[1..], k);
      assert HasKey(q, k) ==> HasKey(q[1..], k) by {
        if HasKey(q, k) { var i :| 0 <= i < |q| && q[i].0 == k; assert q[1..][i - 1] == q[i]; }
      }
      assert r.Some? ==> HasKey(q, k) && exists i :: 0 <= i < |q| && q[i] == (k, r.value) by {
        if r.Some? { var i :| 0 <= i < |q[1..]| && q[1..][i] == (k, r.value); assert q[i + 1] == q[1..][i]; }
      }
      r
  }

  /** Looking up in an array with one more entry in front. */
  lemma LookupCons(e: (string, Value), t: Query)
    ensures forall k :: Lookup([e] + t, k) == if e.0 == k then Some(e.1) else Lookup(t, k)
  {
    assert ([e] + t)[1..] == t;
  }

  /** `$q[$k] = $v`: an existing key keeps its position, a new key goes last. */
  function Assign(q: Query, k: string, v: Value): (r: Query)
    ensures Lookup(r, k) == Some(v)
    ensures forall k' :: k' != k ==> Lookup(r, k') == Lookup(q, k')
    ensures !HasKey(q, k) ==> r == q + [(k, v)]
  {
    if HasKey(q, k) then Replace(q, k, v)
    else
      LookupAppend(q, k, v);
      q + [(k, v)]
  }

  /** Assignment to a key that is present: its value changes where it stands. */
  function Replace(q: Query, k: string, v: Value): (r: Query)
    requires HasKey(q, k)
    ensures |r| == |q| && forall i :: 0 <= i < |q| ==> r[i].0 == q[i].0
    ensures Lookup(r, k) == Some(v)
    ensures forall k' :: k' != k ==> Lookup(r, k') == Lookup(q, k')
  {
    if q[0].0 == k then
      LookupCons((k, v), q[1..]);
      LookupCons(q[0], q[1..]);
      assert q == [q[0]] + q[1..];
      [(k, v)] + q[1..]
    else
      KeyInTail(q, k);
      var t := Replace(q[1..], k, v);
      LookupCons(q[0], t);
      LookupCons(q[0], q[1..]);
      assert q == [q[0]] + q[1..];
      [q[0]] + t
  }

  /** A key that is not at the head is in the tail. */
  lemma KeyInTail(q: Query, k: string)
    requires HasKey(q, k) && q[0].0 != k
    ensures HasKey(q[1..], k)
  {
    var i :| 0 <= i < |q| && q[i].0 == k;
    assert q[1..][i - 1] == q[i];
  }

  /** A key of the tail is a key of the array. */
  lemma TailKey(q: Query, k: string)
    requires 0 < |q|
    ensures HasKey(q[1..], k) ==> HasKey(q, k)
  {
    if HasKey(q[1..], k) { var i :| 0 <= i < |q[1..]| && q[1..][i].0 == k; assert q[i + 1] == q[1..][i]; }
  }

  /** Looking up after a new key was appended. */
  lemma {:induction false} LookupAppend(q: Query, k: string, v: Value)
    requires !HasKey(q, k)
    ensures forall k' :: Lookup(q + [(k, v)], k') == if k' == k then Some(v) else Lookup(q, k')
  {
    if q == [] {
      assert [] + [(k, v)] == [(k, v)] == [(k, v)] + [];
      LookupCons((k, v), []);
    } else {
      TailKey(q, k);
      LookupAppend(q[1..], k, v);
      assert q + [(k, v)] == [q[0]] + (q[1..] + [(k, v)]);
      LookupCons(q[0], q[1..] + [(k, v)]);
      LookupCons(q[0], q[1..]);
      assert q == [q[0]] + q[1..];
    }
  }

  /** `unset($q[$k])`: the entry goes, every other entry keeps its place. */
  function Unset(q: Query, k: string): (r: Query)
    ensures Lookup(r, k) == None
    ensures forall k' :: k' != k ==> Lookup(r, k') == Lookup(q, k')
    ensures !HasKey(q, k) ==> r == q
  {
    if |q| == 0 then []
    else if q[0].0 == k then Unset(q[1..], k)
    else
      TailKey(q, k);
      [q[0]] + Unset(q[1..], k)
  }

  /** In a proper array, unset removes exactly the one entry of that key. */
  lemma {:induction false} UnsetRemovesEntry(q: Query, i: nat)
    requires UniqueKeys(q) && i < |q|
    ensures Unset(q, q[i].0) == q[..i] + q[i + 1..]
  {
    var k, t := q[i].0, q[1..];
    TailUnique(q);
    if i == 0 {
      assert Unset(q, k) == Unset(t, k) == t;
    } else {
      assert q[0].0 != k;
      assert t[i - 1] == q[i];
      UnsetRemovesEntry(t, i - 1);
      assert Unset(q, k) == [q[0]] + Unset(t, k);
      DropFromTail(q, i);
    }
  }

  /** Dropping entry `i - 1` of the tail and putting the head back drops entry `i`. */
  lemma DropFromTail(q: Query, i: nat)
    requires 0 < i < |q|
    ensures [q[0]] + (q[1..][..i - 1] + q[1..][i..]) == q[..i] + q[i + 1..]
  {
    var t := q[1..];
    assert t[..i - 1] == q[1..i] && t[i..] == q[i + 1..];
    assert [q[0]] + q[1..i] == q[..i];
  }

  /** The tail of a proper array is proper and lacks the head's key. */
  lemma TailUnique(q: Query)
    requires UniqueKeys(q) && 0 < |q|
    ensures UniqueKeys(q[1..]) && !HasKey(q[1..], q[0].0)
  {
    var t := q[1..];
    forall a, b | 0 <= a < b < |t| ensures t[a].0 != t[b].0 { assert t[a] == q[a + 1] && t[b] == q[b + 1]; }
    assert forall j :: 0 <= j < |t| ==> t[j] == q[j + 1];
  }

  /** Assigning and unsetting keep an array's keys unique. */
  lemma AssignUnsetKeepUnique(q: Query, k: string, v: Value)
    requires UniqueKeys(q)
    ensures UniqueKeys(Assign(q, k, v)) && UniqueKeys(Unset(q, k))
  {
    UnsetKeepsUnique(q, k);
    if HasKey(q, k) {
      var r := Replace(q, k, v);
      forall a, b | 0 <= a < b < |r| ensures r[a].0 != r[b].0 { assert r[a].0 == q[a].0 && r[b].0 == q[b].0; }
    } else {
      var r := q + [(k, v)];
      forall a, b | 0 <= a < b < |r| ensures r[a].0 != r[b].0 {
        assert r[a] == q[a];
        if b < |q| { assert r[b] == q[b]; }
      }
    }
  }

  lemma {:induction false} UnsetKeepsUnique(q: Query, k: string)
    requires UniqueKeys(q)
    ensures UniqueKeys(Unset(q, k))
  {
    if |q| > 0 {
      var t := q[1..];
      TailUnique(q);
      UnsetKeepsUnique(t, k);
      if q[0].0 != k {
        assert Lookup(Unset(t, k), q[0].0) == None;
        ExtendUnique(q[0], Unset(t, k));
      }
    }
  }

  lemma ExtendUnique(e: (string, Value), t: Query)
    requires UniqueKeys(t) && !HasKey(t, e.0)
    ensures UniqueKeys([e] + t)
  {
    var q := [e] + t;
    forall a, b | 0 <= a < b < |q| ensures q[a].0 != q[b].0 {
      assert q[b] == t[b - 1];
      if a > 0 { assert q[a] == t[a - 1]; }
    }
  }

  /** Unsetting a key that was just appended gives the array back. */
  lemma {:induction false} UnsetAppended(q: Query, k: string, v: Value)
    requires !HasKey(q, k)
    ensures Unset(q + [(k, v)], k) == q
  {
    if |q| == 0 {
      assert [] + [(k, v)] == [(k, v)];
    } else {
      assert (q + [(k, v)])[1..] == q[1..] + [(k, v)];
      assert forall i :: 0 <= i < |q[1..]| ==> q[1..][i] == q[i + 1];
      UnsetAppended(q[1..], k, v);
      assert [q[0]] + q[1..] == q;
    }
  }
}
