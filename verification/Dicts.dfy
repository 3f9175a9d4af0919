/** Python dictionaries. The client relies on their insertion order (the order of resubmission, of
    results and of eviction), so a dictionary is the sequence of its entries, oldest first.
 */
module Dicts {

  datatype Option<+T> = None | Some(value: T)

  type Dict<K, V> = seq<(K, V)>

  function Lookup<K(==), V>(d: Dict<K, V>, key: K): Option<V> {
    if d == [] then None
    else if d[0].0 == key then Some(d[0].1)
    else Lookup(d[1..], key)
  }

  function Keys<K, V>(d: Dict<K, V>): (keys: set<K>) {
    if d == [] then {} else {d[0].0} + Keys(d[1..])
  }

  predicate Unique<K(==), V>(d: Dict<K, V>) {
    d == [] || (d[0].0 !in Keys(d[1..]) && Unique(d[1..]))
  }

  /** Removes the entry of `key`, if any: `d.pop(key, None)`. */
  function Without<K(==), V>(d: Dict<K, V>, key: K): Dict<K, V> {
    if d == [] then []
    else if d[0].0 == key then Without(d[1..], key)
    else [d[0]] + Without(d[1..], key)
  }

  /** Assignment `d[key] = value`: an existing key keeps its position. */
  function Put<K(==), V>(d: Dict<K, V>, key: K, value: V): Dict<K, V> {
    if d == [] then [(key, value)]
    else if d[0].0 == key then [(key, value)] + d[1..]
    else [d[0]] + Put(d[1..], key, value)
  }

  /** The last `n` entries. */
  function Suffix<T>(s: seq<T>, n: nat): seq<T> {
    if |s| <= n then s else s[|s| - n..]
  }

  lemma {:induction false} LookupInKeys<K, V>(d: Dict<K, V>, key: K)
    ensures Lookup(d, key).Some? <==> key in Keys(d)
    ensures Lookup(d, key).Some? ==> (key, Lookup(d, key).value) in d
  {
    if d != [] {
      LookupInKeys(d[1..], key);
    }
  }

  lemma {:induction false} KeyAt<K, V>(d: Dict<K, V>, i: nat)
    requires i < |d|
    ensures d[i].0 in Keys(d)
  {
    if i > 0 {
      KeyAt(d[1..], i - 1);
    }
  }

  lemma {:induction false} NotAKey<K, V>(d: Dict<K, V>, key: K)
    requires forall i :: 0 <= i < |d| ==> d[i].0 != key
    ensures key !in Keys(d)
  {
    if d != [] {
      NotAKey(d[1..], key);
    }
  }

  lemma {:induction false} IndexOfKey<K, V>(d: Dict<K, V>, key: K) returns (i: nat)
    requires key in Keys(d)
    ensures i < |d| && d[i].0 == key
  {
    if d[0].0 == key {
      i := 0;
    } else {
      i := IndexOfKey(d[1..], key);
      i := i + 1;
    }
  }

  lemma {:induction false} LookupUnique<K, V>(d: Dict<K, V>, i: nat)
    requires Unique(d) && i < |d|
    ensures Lookup(d, d[i].0) == Some(d[i].1)
  {
    if i > 0 {
      KeyAt(d[1..], i - 1);
      LookupUnique(d[1..], i - 1);
    }
  }

  lemma UniqueMember<K, V>(d: Dict<K, V>, e: (K, V), f: (K, V))
    requires Unique(d) && e in d && f in d && e.0 == f.0
    ensures e == f
  {
    var i :| 0 <= i < |d| && d[i] == e;
    var j :| 0 <= j < |d| && d[j] == f;
    if i < j {
      UniqueAt(d, i, j);
    } else if j < i {
      UniqueAt(d, j, i);
    }
  }

  lemma MemberKey<K, V>(d: Dict<K, V>, e: (K, V))
    requires e in d
    ensures e.0 in Keys(d)
  {
    var i :| 0 <= i < |d| && d[i] == e;
    KeyAt(d, i);
  }

  lemma {:induction false} UniqueAt<K, V>(d: Dict<K, V>, i: nat, j: nat)
    requires Unique(d) && i < j < |d|
    ensures d[i].0 != d[j].0
  {
    if i == 0 {
      KeyAt(d[1..], j - 1);
    } else {
      UniqueAt(d[1..], i - 1, j - 1);
    }
  }

  lemma {:induction false} LookupConcat<K, V>(a: Dict<K, V>, b: Dict<K, V>, key: K)
    ensures Lookup(a + b, key) == if Lookup(a, key).Some? then Lookup(a, key) else Lookup(b, key)
  {
    if a == [] {
      assert a + b == b;
    } else {
      assert (a + b)[1..] == a[1..] + b;
      LookupConcat(a[1..], b, key);
    }
  }

  lemma {:induction false} KeysConcat<K, V>(a: Dict<K, V>, b: Dict<K, V>)
    ensures Keys(a + b) == Keys(a) + Keys(b)
  {
    if a == [] {
      assert a + b == b;
    } else {
      assert (a + b)[1..] == a[1..] + b;
      KeysConcat(a[1..], b);
    }
  }

  lemma {:induction false} UniqueConcat<K, V>(a: Dict<K, V>, b: Dict<K, V>)
    ensures Unique(a + b) <==> Unique(a) && Unique(b) && Keys(a) !! Keys(b)
  {
    if a == [] {
      assert a + b == b;
    } else {
      assert (a + b)[1..] == a[1..] + b;
      KeysConcat(a[1..], b);
      UniqueConcat(a[1..], b);
    }
  }

  lemma SingleKey<K, V>(e: (K, V))
    ensures Keys([e]) == {e.0} && Unique([e])
  {
    assert [e][1..] == [];
  }

  lemma SingleLookup<K, V>(e: (K, V), key: K)
    ensures Lookup([e], key) == if key == e.0 then Some(e.1) else None
  {
    assert [e][1..] == [];
  }

  lemma UniqueTail<K, V>(d: Dict<K, V>)
    requires Unique(d) && d != []
    ensures Unique(d[1..])
  {
  }

  lemma {:induction false} WithoutAbsent<K, V>(d: Dict<K, V>, key: K)
    requires key !in Keys(d)
    ensures Without(d, key) == d
  {
    if d != [] {
      WithoutAbsent(d[1..], key);
    }
  }

  lemma {:induction false} WithoutConcat<K, V>(a: Dict<K, V>, b: Dict<K, V>, key: K)
    ensures Without(a + b, key) == Without(a, key) + Without(b, key)
  {
    if a == [] {
      assert a + b == b;
    } else {
      assert (a + b)[1..] == a[1..] + b;
      WithoutConcat(a[1..], b, key);
    }
  }

  lemma {:induction false} WithoutMembers<K, V>(d: Dict<K, V>, key: K)
    ensures forall i :: 0 <= i < |Without(d, key)| ==> Without(d, key)[i] in d && Without(d, key)[i].0 != key
    ensures Keys(Without(d, key)) == Keys(d) - {key}
  {
    if d != [] {
      WithoutMembers(d[1..], key);
      if d[0].0 != key {
        assert ([d[0]] + Without(d[1..], key))[1..] == Without(d[1..], key);
      }
    }
  }

  lemma {:induction false} WithoutKeeps<K, V>(d: Dict<K, V>, key: K, e: (K, V))
    requires e in d && e.0 != key
    ensures e in Without(d, key)
  {
    if d[0] == e {
      assert Without(d, key)[0] == e;
    } else {
      assert e in d[1..];
      WithoutKeeps(d[1..], key, e);
    }
  }

  lemma {:induction false} WithoutUnique<K, V>(d: Dict<K, V>, key: K)
    requires Unique(d)
    ensures Unique(Without(d, key))
    ensures |Without(d, key)| == if key in Keys(d) then |d| - 1 else |d|
  {
    if d != [] {
      WithoutUnique(d[1..], key);
      WithoutMembers(d[1..], key);
      if d[0].0 != key {
        assert ([d[0]] + Without(d[1..], key))[1..] == Without(d[1..], key);
      }
    }
  }

  lemma {:induction false} LookupWithout<K, V>(d: Dict<K, V>, key: K, other: K)
    ensures Lookup(Without(d, key), other) == if other == key then None else Lookup(d, other)
  {
    if d != [] {
      LookupWithout(d[1..], key, other);
    }
  }

  lemma {:induction false} PutAbsent<K, V>(d: Dict<K, V>, key: K, value: V)
    requires key !in Keys(d)
    ensures Put(d, key, value) == d + [(key, value)]
  {
    if d != [] {
      PutAbsent(d[1..], key, value);
      assert d == [d[0]] + d[1..];
    }
  }

  lemma {:induction false} PutInPlace<K, V>(d: Dict<K, V>, key: K, value: V)
    requires key in Keys(d)
    ensures |Put(d, key, value)| == |d|
    ensures forall i :: 0 <= i < |d| ==> Put(d, key, value)[i].0 == d[i].0
  {
    if d[0].0 != key {
      PutInPlace(d[1..], key, value);
    }
  }

  lemma {:induction false} PutLookup<K, V>(d: Dict<K, V>, key: K, value: V, other: K)
    ensures Lookup(Put(d, key, value), other) == if other == key then Some(value) else Lookup(d, other)
  {
    if d != [] {
      if d[0].0 == key {
        assert ([(key, value)] + d[1..])[1..] == d[1..];
      } else {
        PutLookup(d[1..], key, value, other);
        assert Put(d, key, value)[1..] == Put(d[1..], key, value);
      }
    }
  }

  lemma {:induction false} PutKeys<K, V>(d: Dict<K, V>, key: K, value: V)
    ensures Keys(Put(d, key, value)) == Keys(d) + {key}
    ensures Unique(d) ==> Unique(Put(d, key, value))
  {
    if d == [] {
      SingleKey((key, value));
    } else if d[0].0 == key {
      assert ([(key, value)] + d[1..])[1..] == d[1..];
    } else {
      PutKeys(d[1..], key, value);
      assert Put(d, key, value)[1..] == Put(d[1..], key, value);
    }
  }

  lemma {:induction false} KeysAtMost<K, V>(d: Dict<K, V>)
    ensures |Keys(d)| <= |d|
  {
    if d != [] {
      KeysAtMost(d[1..]);
    }
  }

  /** A dictionary has as many entries as keys. */
  lemma {:induction false} UniqueCount<K, V>(d: Dict<K, V>)
    requires Unique(d)
    ensures |Keys(d)| == |d|
  {
    if d != [] {
      UniqueCount(d[1..]);
    }
  }
}
