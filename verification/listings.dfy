/** Dictionaries, and iterating over them in an arbitrary order. */
module Listings {
  predicate NoRepeats<T(==)>(s: seq<T>) {
    s != [] ==> s[|s| - 1] !in s[..|s| - 1] && NoRepeats(s[..|s| - 1])
  }

  /** The dictionary of parallel keys and values; a later value replaces an earlier one. */
  function Dict<K, V>(keys: seq<K>, values: seq<V>): (m: map<K, V>)
    requires |keys| == |values|
  {
    if keys == [] then map[]
    else
      var last := |keys| - 1;
      Dict(keys[..last], values[..last])[keys[last] := values[last]]
  }

  /** One iteration over a dictionary: each key once. */
  ghost predicate Lists<K(!new), V>(order: seq<K>, m: map<K, V>) {
    NoRepeats(order) && forall k :: k in order <==> k in m
  }

  function Filter<T>(p: T -> bool, s: seq<T>): seq<T> {
    if s == [] then [] else Filter(p, s[..|s| - 1]) + if p(s[|s| - 1]) then [s[|s| - 1]] else []
  }

  /** The values under the keys with property `p`, in the order listed. */
  function Pick<K, V>(p: K -> bool, order: seq<K>, m: map<K, V>): (s: seq<V>)
    requires forall k :: k in order ==> k in m
    ensures |s| == |Filter(p, order)|
  {
    if order == [] then []
    else
      var k := order[|order| - 1];
      Pick(p, order[..|order| - 1], m) + if p(k) then [m[k]] else []
  }

  /** How often `x` occurs in `s`. */
  function Times<T(==)>(s: seq<T>, x: T): nat {
    if s == [] then 0 else Times(s[..|s| - 1], x) + if s[|s| - 1] == x then 1 else 0
  }

  lemma TimesSnoc<T>(s: seq<T>, y: T, x: T)
    ensures Times(s + [y], x) == Times(s, x) + if y == x then 1 else 0
  {
    assert (s + [y])[..|s|] == s;
  }

  lemma {:induction false} TimesConcat<T>(a: seq<T>, b: seq<T>, x: T)
    ensures Times(a + b, x) == Times(a, x) + Times(b, x)
    decreases |b|
  {
    if b == [] {
      assert a + b == a;
    } else {
      TimesConcat(a, b[..|b| - 1], x);
      assert (a + b)[..|a + b| - 1] == a + b[..|b| - 1];
    }
  }

  lemma {:induction false} NoRepeatsIndices<T(!new)>(s: seq<T>, i: nat, j: nat)
    requires NoRepeats(s) && i < j < |s|
    ensures s[i] != s[j]
    decreases |s|
  {
    if j < |s| - 1 {
      NoRepeatsIndices(s[..|s| - 1], i, j);
    } else {
      assert s[i] == s[..j][i];
    }
  }

  lemma {:induction false} IndicesNoRepeats<T(!new)>(s: seq<T>)
    requires forall i, j :: 0 <= i < j < |s| ==> s[i] != s[j]
    ensures NoRepeats(s)
  {
    if s != [] {
      IndicesNoRepeats(s[..|s| - 1]);
    }
  }

  /** Without repeated keys nothing is replaced. */
  lemma {:induction false} DictAt<K(!new), V>(keys: seq<K>, values: seq<V>, i: nat)
    requires |keys| == |values| && NoRepeats(keys) && i < |keys|
    ensures keys[i] in Dict(keys, values) && Dict(keys, values)[keys[i]] == values[i]
    decreases |keys|
  {
    var last := |keys| - 1;
    if i < last {
      DictAt(keys[..last], values[..last], i);
      NoRepeatsIndices(keys, i, last);
    }
  }

  lemma {:induction false} DictKey<K(!new), V>(keys: seq<K>, values: seq<V>, k: K) returns (i: nat)
    requires |keys| == |values| && k in Dict(keys, values)
    ensures i < |keys| && keys[i] == k && Dict(keys, values)[k] == values[i]
    decreases |keys|
  {
    var last := |keys| - 1;
    if k == keys[last] {
      i := last;
    } else {
      i := DictKey(keys[..last], values[..last], k);
    }
  }

  /** The elements with property `p`. */
  function Having<T(!new)>(p: T -> bool, s: seq<T>): set<T> {
    set x | x in s && p(x)
  }

  lemma {:induction false} FilterSize<T(!new)>(p: T -> bool, s: seq<T>)
    requires NoRepeats(s)
    ensures |Filter(p, s)| == |Having(p, s)|
  {
    if s != [] {
      var front, x := s[..|s| - 1], s[|s| - 1];
      FilterSize(p, front);
      assert s == front + [x];
      assert Having(p, s) == Having(p, front) + if p(x) then {x} else {};
    }
  }

  /** Two orders of the same elements have equally many with a property. */
  lemma SameCount<T(!new)>(p: T -> bool, s: seq<T>, t: seq<T>)
    requires NoRepeats(s) && NoRepeats(t) && forall x :: x in s <==> x in t
    ensures |Filter(p, s)| == |Filter(p, t)|
  {
    FilterSize(p, s);
    FilterSize(p, t);
    assert Having(p, s) == Having(p, t);
  }

  lemma {:induction false} Picked<K(!new), V>(p: K -> bool, order: seq<K>, m: map<K, V>, k: K)
    requires (forall n :: n in order ==> n in m) && k in order && p(k)
    ensures m[k] in Pick(p, order, m)
    decreases |order|
  {
    var last := |order| - 1;
    if k != order[last] {
      assert order == order[..last] + [order[last]];
      Picked(p, order[..last], m, k);
    }
  }

  lemma {:induction false} PickedFrom<K(!new), V>(p: K -> bool, order: seq<K>, m: map<K, V>, v: V) returns (k: K)
    requires (forall n :: n in order ==> n in m) && v in Pick(p, order, m)
    ensures k in order && p(k) && m[k] == v
    decreases |order|
  {
    var last := |order| - 1;
    if v in Pick(p, order[..last], m) {
      k := PickedFrom(p, order[..last], m, v);
    } else {
      k := order[last];
    }
  }

  /** What any iteration picks from a dictionary without repeated keys: as many values as there are
      keys with the property. */
  lemma PickCount<K(!new), V>(p: K -> bool, keys: seq<K>, values: seq<V>, order: seq<K>)
    requires |keys| == |values| && NoRepeats(keys) && Lists(order, Dict(keys, values))
    ensures |Pick(p, order, Dict(keys, values))| == |Filter(p, keys)|
  {
    var m := Dict(keys, values);
    forall k ensures k in order <==> k in keys {
      if k in keys {
        var i :| 0 <= i < |keys| && keys[i] == k;
        DictAt(keys, values, i);
      }
      if k in m {
        var i := DictKey(keys, values, k);
      }
    }
    SameCount(p, order, keys);
  }

  /** A value is picked exactly if it stands under a key with the property. */
  lemma PickExactly<K(!new), V>(p: K -> bool, keys: seq<K>, values: seq<V>, order: seq<K>, v: V)
    requires |keys| == |values| && NoRepeats(keys) && Lists(order, Dict(keys, values))
    ensures v in Pick(p, order, Dict(keys, values)) <==> exists i :: 0 <= i < |keys| && p(keys[i]) && values[i] == v
  {
    var m := Dict(keys, values);
    if v in Pick(p, order, m) {
      var k := PickedFrom(p, order, m, v);
      var i := DictKey(keys, values, k);
      assert p(keys[i]) && values[i] == v;
    }
    if i :| 0 <= i < |keys| && p(keys[i]) && values[i] == v {
      DictAt(keys, values, i);
      Picked(p, order, m, keys[i]);
    }
  }

  /** The key has one property, and the value under it the other. */
  function Both<K, V>(p: K -> bool, q: V -> bool, m: map<K, V>): K -> bool {
    k => k in m && p(k) && q(m[k])
  }

  /** How many keys have one property and their values the other. */
  function CountPairs<K, V>(p: K -> bool, q: V -> bool, keys: seq<K>, values: seq<V>): nat
    requires |keys| == |values|
  {
    if keys == [] then 0
    else
      var last := |keys| - 1;
      CountPairs(p, q, keys[..last], values[..last]) + if p(keys[last]) && q(values[last]) then 1 else 0
  }

  lemma FilterSnoc<T>(p: T -> bool, s: seq<T>, x: T)
    ensures Filter(p, s + [x]) == Filter(p, s) + if p(x) then [x] else []
  {
    assert (s + [x])[..|s|] == s;
  }

  lemma {:induction false} FilterOfPick<K, V>(p: K -> bool, q: V -> bool, order: seq<K>, m: map<K, V>)
    requires forall k :: k in order ==> k in m
    ensures |Filter(q, Pick(p, order, m))| == |Filter(Both(p, q, m), order)|
  {
    if order != [] {
      var front, k := order[..|order| - 1], order[|order| - 1];
      FilterOfPick(p, q, front, m);
      if p(k) {
        FilterSnoc(q, Pick(p, front, m), m[k]);
      } else {
        assert Pick(p, front, m) + [] == Pick(p, front, m);
      }
    }
  }

  lemma {:induction false} FilterOfKeys<K, V>(p: K -> bool, q: V -> bool, keys: seq<K>, values: seq<V>, m: map<K, V>)
    requires |keys| == |values| && forall i :: 0 <= i < |keys| ==> keys[i] in m && m[keys[i]] == values[i]
    ensures |Filter(Both(p, q, m), keys)| == CountPairs(p, q, keys, values)
  {
    if keys != [] {
      FilterOfKeys(p, q, keys[..|keys| - 1], values[..|keys| - 1], m);
    }
  }

  /** What any iteration picks has as many values of a kind as stand under keys with the property. */
  lemma PickCountPairs<K(!new), V>(p: K -> bool, q: V -> bool, keys: seq<K>, values: seq<V>, order: seq<K>)
    requires |keys| == |values| && NoRepeats(keys) && Lists(order, Dict(keys, values))
    ensures |Filter(q, Pick(p, order, Dict(keys, values)))| == CountPairs(p, q, keys, values)
  {
    var m := Dict(keys, values);
    forall i | 0 <= i < |keys| ensures keys[i] in m && m[keys[i]] == values[i] {
      DictAt(keys, values, i);
    }
    forall k ensures k in order <==> k in keys {
      if k in m {
        var i := DictKey(keys, values, k);
      }
    }
    FilterOfPick(p, q, order, m);
    SameCount(Both(p, q, m), order, keys);
    FilterOfKeys(p, q, keys, values, m);
  }

  /** What is picked stands in the order listed: a value stands behind exactly those picked before it. */
  lemma {:induction false} PickPosition<K, V>(p: K -> bool, order: seq<K>, m: map<K, V>, i: nat)
    requires (forall k :: k in order ==> k in m) && i < |order| && p(order[i])
    ensures |Pick(p, order[..i], m)| < |Pick(p, order, m)|
    ensures Pick(p, order, m)[|Pick(p, order[..i], m)|] == m[order[i]]
    decreases |order|
  {
    if i < |order| - 1 {
      assert order[..|order| - 1][..i] == order[..i];
      PickPosition(p, order[..|order| - 1], m, i);
    }
  }
}
