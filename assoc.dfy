/** PHP's ordered arrays with string keys, as association lists: assignment to a
    key keeps the key's position when it is present and appends it otherwise. */
module Assoc {
  import opened Wrappers

  type Assoc<V> = seq<(string, V)>

  function Keys<V>(m: Assoc<V>): (ks: seq<string>)
    ensures |ks| == |m|
  {
    if m == [] then [] else [m[0].0] + Keys(m[1..])
  }

  lemma {:induction false} KeysAt<V>(m: Assoc<V>, i: nat)
    requires i < |m|
    ensures Keys(m)[i] == m[i].0
  {
    if i > 0 {
      KeysAt(m[1..], i - 1);
    }
  }

  /** No key occurs twice, as in every PHP array. */
  predicate DistinctKeys<V>(m: Assoc<V>) {
    m == [] || (m[0].0 !in Keys(m[1..]) && DistinctKeys(m[1..]))
  }

  /** `$m[$k] ?? null`. */
  function Get<V>(m: Assoc<V>, k: string): (r: Option<V>)
    ensures r.Some? <==> k in Keys(m)
  {
    if m == [] then None
    else if m[0].0 == k then Some(m[0].1)
    else Get(m[1..], k)
  }

  /** `$m[$k] = $v`. */
  function Put<V>(m: Assoc<V>, k: string, v: V): (r: Assoc<V>)
    ensures Get(r, k) == Some(v)
    ensures forall k' :: k' != k ==> Get(r, k') == Get(m, k')
    ensures Keys(r) == if k in Keys(m) then Keys(m) else Keys(m) + [k]
  {
    if m == [] then [(k, v)]
    else if m[0].0 == k then [(k, v)] + m[1..]
    else [m[0]] + Put(m[1..], k, v)
  }

  /** The keys of `ks` other than `k`, in their order. */
  function Without(ks: seq<string>, k: string): (r: seq<string>)
    ensures forall x :: x in r <==> x in ks && x != k
  {
    if ks == [] then []
    else if ks[0] == k then Without(ks[1..], k)
    else [ks[0]] + Without(ks[1..], k)
  }

  /** `unset($m[$k])`: the key is gone and the remaining keys keep their order
      and their values. */
  function Remove<V>(m: Assoc<V>, k: string): (r: Assoc<V>)
    ensures Get(r, k) == None
    ensures forall k' :: k' != k ==> Get(r, k') == Get(m, k')
    ensures Keys(r) == Without(Keys(m), k)
  {
    if m == [] then []
    else if m[0].0 == k then Remove(m[1..], k)
    else [m[0]] + Remove(m[1..], k)
  }

  /** The value the last entry with key `k` gives, as an array literal or a run
      of assignments keeps it. */
  function GetLast<V>(o: Assoc<V>, k: string): (r: Option<V>)
    ensures r.Some? <==> k in Keys(o)
  {
    if o == [] then None
    else
      var later := GetLast(o[1..], k);
      if later.Some? then later
      else if o[0].0 == k then Some(o[0].1)
      else None
  }

  /** The keys of `os` that are not in `ks`, each at its first occurrence, in
      the order of `os`: the keys a run of assignments appends. */
  function NewKeys(ks: seq<string>, os: seq<string>): (r: seq<string>)
    ensures forall x :: x in r <==> x in os && x !in ks
    decreases os
  {
    if os == [] then []
    else if os[0] in ks then NewKeys(ks, os[1..])
    else [os[0]] + NewKeys(ks + [os[0]], os[1..])
  }

  /** `NewKeys` depends on the keys already present only as a set. */
  lemma {:induction false} NewKeysSameSet(ks: seq<string>, ks': seq<string>, os: seq<string>)
    requires forall x :: x in ks <==> x in ks'
    ensures NewKeys(ks, os) == NewKeys(ks', os)
    decreases os
  {
    if os != [] {
      if os[0] in ks {
        NewKeysSameSet(ks, ks', os[1..]);
      } else {
        NewKeysSameSet(ks + [os[0]], ks' + [os[0]], os[1..]);
      }
    }
  }

  /** The new keys hold no key twice. */
  lemma {:induction false} NewKeysDistinct(ks: seq<string>, os: seq<string>)
    ensures forall i, j :: 0 <= i < j < |NewKeys(ks, os)| ==> NewKeys(ks, os)[i] != NewKeys(ks, os)[j]
    decreases os
  {
    if os != [] {
      if os[0] in ks {
        NewKeysDistinct(ks, os[1..]);
      } else {
        var rest := NewKeys(ks + [os[0]], os[1..]);
        NewKeysDistinct(ks + [os[0]], os[1..]);
        assert NewKeys(ks, os) == [os[0]] + rest;
        assert os[0] !in rest;
      }
    }
  }

  /** The new keys of a concatenation: those of the first part, then those of
      the second part that are new after the first. */
  lemma {:induction false} NewKeysAppend(ks: seq<string>, a: seq<string>, b: seq<string>)
    ensures NewKeys(ks, a + b) == NewKeys(ks, a) + NewKeys(ks + NewKeys(ks, a), b)
    decreases a
  {
    if a == [] {
      assert a + b == b && ks + [] == ks;
    } else {
      var x := a[0];
      assert (a + b)[0] == x && (a + b)[1..] == a[1..] + b;
      if x in ks {
        NewKeysAppend(ks, a[1..], b);
      } else {
        NewKeysAppend(ks + [x], a[1..], b);
        assert ks + [x] + NewKeys(ks + [x], a[1..]) == ks + ([x] + NewKeys(ks + [x], a[1..]));
      }
    }
  }

  /** Appending new keys in two steps is appending those of the concatenation. */
  lemma AppendNewKeysTwice(ks: seq<string>, mid: seq<string>, last: seq<string>, a: seq<string>, b: seq<string>)
    requires mid == ks + NewKeys(ks, a)
    requires last == mid + NewKeys(mid, b)
    ensures last == ks + NewKeys(ks, a + b)
  {
    NewKeysAppend(ks, a, b);
  }

  /** Taking the new keys twice is taking them once against both lists. */
  lemma {:induction false} NewKeysTwice(ks: seq<string>, js: seq<string>, os: seq<string>)
    ensures NewKeys(ks, NewKeys(js, os)) == NewKeys(ks + js, os)
    decreases os
  {
    if os != [] {
      var o := os[0];
      if o in js {
        NewKeysTwice(ks, js, os[1..]);
      } else {
        var rest := NewKeys(js + [o], os[1..]);
        assert ([o] + rest)[0] == o && ([o] + rest)[1..] == rest;
        if o in ks {
          NewKeysTwice(ks, js + [o], os[1..]);
          assert ks + (js + [o]) == ks + js + [o];
          NewKeysSameSet(ks + js + [o], ks + js, os[1..]);
        } else {
          NewKeysTwice(ks + [o], js + [o], os[1..]);
          NewKeysSameSet(ks + [o] + (js + [o]), ks + js + [o], os[1..]);
        }
      }
    }
  }

  /** `$m[$k] = $v` for every entry of `o`, in order (PHP's `array_replace($m, $o)`);
      `PutAll([], o)` is the array an array literal with the entries `o` builds. */
  function PutAll<V>(m: Assoc<V>, o: Assoc<V>): Assoc<V>
    decreases o
  {
    if o == [] then m else PutAll(Put(m, o[0].0, o[0].1), o[1..])
  }

  lemma {:induction false} PutKeepsDistinct<V>(m: Assoc<V>, k: string, v: V)
    requires DistinctKeys(m)
    ensures DistinctKeys(Put(m, k, v))
  {
    if m != [] && m[0].0 != k {
      PutKeepsDistinct(m[1..], k, v);
      assert Put(m, k, v)[1..] == Put(m[1..], k, v);
    } else if m != [] {
      assert Put(m, k, v)[1..] == m[1..];
    }
  }

  lemma {:induction false} PutAllKeys<V>(m: Assoc<V>, o: Assoc<V>)
    ensures Keys(PutAll(m, o)) == Keys(m) + NewKeys(Keys(m), Keys(o))
    decreases o
  {
    if o != [] {
      var m' := Put(m, o[0].0, o[0].1);
      PutAllKeys(m', o[1..]);
      assert Keys(o) == [o[0].0] + Keys(o[1..]);
    }
  }

  lemma {:induction false} PutAllValues<V>(m: Assoc<V>, o: Assoc<V>, k: string)
    ensures Get(PutAll(m, o), k) == if k in Keys(o) then GetLast(o, k) else Get(m, k)
    decreases o
  {
    if o != [] {
      PutAllValues(Put(m, o[0].0, o[0].1), o[1..], k);
    }
  }

  lemma {:induction false} PutAllDistinct<V>(m: Assoc<V>, o: Assoc<V>)
    requires DistinctKeys(m)
    ensures DistinctKeys(PutAll(m, o))
    decreases o
  {
    if o != [] {
      PutKeepsDistinct(m, o[0].0, o[0].1);
      PutAllDistinct(Put(m, o[0].0, o[0].1), o[1..]);
    }
  }

  /** Replacing by the entries of `o` (PHP's `array_replace`): the keys already
      present keep their positions, the new ones come after them in the order
      of their first occurrence in `o`, every key of `o` takes the last value
      `o` gives it and every other key keeps its value. */
  lemma PutAllSpec<V>(m: Assoc<V>, o: Assoc<V>)
    ensures Keys(PutAll(m, o)) == Keys(m) + NewKeys(Keys(m), Keys(o))
    ensures forall k :: k in Keys(PutAll(m, o)) <==> k in Keys(m) || k in Keys(o)
    ensures forall k :: Get(PutAll(m, o), k) == if k in Keys(o) then GetLast(o, k) else Get(m, k)
    ensures DistinctKeys(m) ==> DistinctKeys(PutAll(m, o))
  {
    PutAllKeys(m, o);
    forall k
      ensures Get(PutAll(m, o), k) == if k in Keys(o) then GetLast(o, k) else Get(m, k)
    {
      PutAllValues(m, o, k);
    }
    if DistinctKeys(m) {
      PutAllDistinct(m, o);
    }
  }
}
