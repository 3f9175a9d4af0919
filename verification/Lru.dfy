/** The least-recently-used cache. Its whole behaviour is pinned down twice: against the history of
    effective touches (what a cache of one size holds) and between two sizes (inclusion).
 */
module Lru {
  import opened Dicts

  /** Entries of a cache of capacity `cap` after `set(key, value)`. */
  function SetEntry<K(==), V>(cap: nat, d: Dict<K, V>, key: K, value: V): Dict<K, V> {
    var touched := Without(d, key) + [(key, value)];
    if |touched| > cap then touched[1..] else touched
  }

  /** Entries after `get(key)`: a hit becomes the most recent entry, a miss changes nothing. */
  function GetEntry<K(==), V>(d: Dict<K, V>, key: K): Dict<K, V> {
    match Lookup(d, key)
    case None => d
    case Some(value) => Without(d, key) + [(key, value)]
  }

  class LRUCache<K(==), V> {
    const maxSize: nat
    var cache: Dict<K, V>

    constructor (maxSize: nat)
      ensures this.maxSize == maxSize && cache == []
    {
      this.maxSize := maxSize;
      cache := [];
    }

    ghost predicate Valid()
      reads this
    {
      Unique(cache) && |cache| <= maxSize
    }

    method Set(key: K, value: V)
      requires Valid()
      modifies this
      ensures Valid()
      ensures cache == SetEntry(maxSize, old(cache), key, value)
    {
      SetKeepsValid(maxSize, cache, key, value);
      WithoutMembers(cache, key);
      WithoutAbsent(Without(cache, key), key);
      if Lookup(cache, key).Some? {
        // move_to_end, then the assignment overwrites the entry where it now is
        var entry := (key, Lookup(cache, key).value);
        cache := Without(cache, key) + [entry];
        PutLast(Without(old(cache), key), key, entry.1, value);
        cache := Put(cache, key, value);
      } else {
        LookupInKeys(cache, key);
        WithoutAbsent(cache, key);
        PutAbsent(cache, key, value);
        cache := Put(cache, key, value);
      }
      if |cache| > maxSize {
        cache := cache[1..];
      }
    }

    method Get(key: K) returns (value: Option<V>)
      requires Valid()
      modifies this
      ensures Valid()
      ensures value == Lookup(old(cache), key)
      ensures cache == GetEntry(old(cache), key)
    {
      value := None;
      GetKeepsValid(maxSize, cache, key);
      if Lookup(cache, key).Some? {
        value := Lookup(cache, key);
        cache := Without(cache, key) + [(key, value.value)];
      }
    }
  }

  lemma {:induction false} PutLast<K, V>(d: Dict<K, V>, key: K, old': V, value: V)
    requires d == Without(d, key)
    ensures Put(d + [(key, old')], key, value) == d + [(key, value)]
    decreases |d|
  {
    if d != [] {
      WithoutMembers(d, key);
      assert Without(d, key)[0].0 != key;
      assert (d + [(key, old')])[1..] == d[1..] + [(key, old')];
      WithoutMembers(d[1..], key);
      WithoutAbsent(d[1..], key);
      PutLast(d[1..], key, old', value);
      assert d == [d[0]] + d[1..];
    }
  }

  lemma SetKeepsValid<K, V>(cap: nat, d: Dict<K, V>, key: K, value: V)
    requires Unique(d) && |d| <= cap
    ensures Unique(SetEntry(cap, d, key, value)) && |SetEntry(cap, d, key, value)| <= cap
  {
    WithoutUnique(d, key);
    WithoutMembers(d, key);
    var rest, entry := Without(d, key), [(key, value)];
    SingleKey((key, value));
    UniqueConcat(rest, entry);
    UniqueTail(rest + entry);
    hide Unique, Keys, Without;
  }

  /** What was just set is found, unless the cache cannot hold anything. */
  lemma SetThenLookup<K, V>(cap: nat, d: Dict<K, V>, key: K, value: V)
    requires Unique(d) && |d| <= cap && cap > 0
    ensures Lookup(SetEntry(cap, d, key, value), key) == Some(value)
  {
    var d' := SetEntry(cap, d, key, value);
    SetKeepsValid(cap, d, key, value);
    WithoutUnique(d, key);
    assert d' != [] && d'[|d'| - 1] == (key, value);
    LookupUnique(d', |d'| - 1);
  }

  /** A hit leaves every lookup as it was. */
  lemma GetKeepsLookups<K, V>(d: Dict<K, V>, key: K, other: K)
    ensures Lookup(GetEntry(d, key), other) == Lookup(d, other)
  {
    if Lookup(d, key).Some? {
      hide Lookup, Without;
      var value := Lookup(d, key).value;
      var rest, hit := Without(d, key), [(key, value)];
      LookupConcat(rest, hit, other);
      LookupWithout(d, key, other);
      SingleLookup((key, value), other);
    }
  }

  lemma GetKeepsValid<K, V>(cap: nat, d: Dict<K, V>, key: K)
    requires Unique(d) && |d| <= cap
    ensures Unique(GetEntry(d, key)) && |GetEntry(d, key)| <= cap
  {
    hide Unique, Keys, Without, Lookup;
    LookupInKeys(d, key);
    if Lookup(d, key).Some? {
      var rest, hit := Without(d, key), (key, Lookup(d, key).value);
      WithoutUnique(d, key);
      WithoutMembers(d, key);
      SingleKey(hit);
      UniqueConcat(rest, [hit]);
    }
  }

  /* ---------- Histories ---------- */

  datatype Op<K, V> = Set(key: K, value: V) | Get(key: K)

  function Step<K(==), V>(cap: nat, d: Dict<K, V>, op: Op<K, V>): Dict<K, V> {
    match op
    case Set(key, value) => SetEntry(cap, d, key, value)
    case Get(key) => GetEntry(d, key)
  }

  /** Entries of an initially empty cache after a history of calls. */
  function Run<K(==), V>(cap: nat, ops: seq<Op<K, V>>): Dict<K, V> {
    if ops == [] then []
    else Step(cap, Run(cap, ops[..|ops| - 1]), ops[|ops| - 1])
  }

  lemma {:induction false} RunIsValid<K, V>(cap: nat, ops: seq<Op<K, V>>)
    ensures Unique(Run(cap, ops)) && |Run(cap, ops)| <= cap
  {
    if ops != [] {
      var d, op := Run(cap, ops[..|ops| - 1]), ops[|ops| - 1];
      RunIsValid(cap, ops[..|ops| - 1]);
      match op {
        case Set(key, value) => SetKeepsValid(cap, d, key, value);
        case Get(key) => GetKeepsValid(cap, d, key);
      }
    }
  }

  /** The touches that take effect in a cache of capacity `cap`: every `set` and every `get` that hits. */
  function Touches<K(==), V>(cap: nat, ops: seq<Op<K, V>>): seq<(K, V)> {
    if ops == [] then []
    else
      var before := Touches(cap, ops[..|ops| - 1]);
      match ops[|ops| - 1]
      case Set(key, value) => before + [(key, value)]
      case Get(key) =>
        match Lookup(Run(cap, ops[..|ops| - 1]), key)
        case None => before
        case Some(value) => before + [(key, value)]
  }

  /** Reference for recency: of each key only its last touch counts. */
  predicate TouchedAgain<K(==), V>(log: seq<(K, V)>, i: nat)
    requires i < |log|
  {
    exists j :: i < j < |log| && log[j].0 == log[i].0
  }

  function Recency<K(==), V>(log: seq<(K, V)>): Dict<K, V> {
    if log == [] then []
    else if TouchedAgain(log, 0) then Recency(log[1..])
    else [log[0]] + Recency(log[1..])
  }

  lemma {:induction false} RecencyKeys<K, V>(log: seq<(K, V)>)
    ensures Keys(Recency(log)) == Keys(log)
    ensures Unique(Recency(log))
  {
    if log != [] {
      RecencyKeys(log[1..]);
      assert log == [log[0]] + log[1..];
      KeysConcat([log[0]], log[1..]);
      assert Keys([log[0]]) == {log[0].0};
      assert TouchedAgain(log, 0) <==> log[0].0 in Keys(log[1..]) by {
        if TouchedAgain(log, 0) {
          var j :| 0 < j < |log| && log[j].0 == log[0].0;
          KeyAt(log[1..], j - 1);
        }
        if log[0].0 in Keys(log[1..]) {
          var j := IndexOfKey(log[1..], log[0].0);
          assert log[j + 1].0 == log[0].0;
        }
      }
      KeysConcat([log[0]], Recency(log[1..]));
      UniqueConcat([log[0]], Recency(log[1..]));
    }
  }

  /** One more touch moves its key to the end. */
  lemma {:induction false} RecencySnoc<K, V>(log: seq<(K, V)>, e: (K, V))
    ensures Recency(log + [e]) == Without(Recency(log), e.0) + [e]
  {
    if log == [] {
      assert log + [e] == [e];
      assert Recency([e][1..]) == [];
    } else {
      var longer := log + [e];
      assert longer[1..] == log[1..] + [e];
      RecencySnoc(log[1..], e);
      if log[0].0 == e.0 {
        assert longer[|log|].0 == longer[0].0;
        assert TouchedAgain(longer, 0);
      } else if TouchedAgain(log, 0) {
        var j :| 0 < j < |log| && log[j].0 == log[0].0;
        assert longer[j].0 == longer[0].0;
        assert TouchedAgain(longer, 0);
      } else {
        assert !TouchedAgain(longer, 0) by {
          assert forall j :: 0 < j < |log| ==> longer[j] == log[j];
        }
        assert Recency(log)[1..] == Recency(log[1..]);
      }
    }
  }

  /** Touching a key of a suffix and cutting back to capacity commutes with cutting first. */
  lemma TouchSuffix<K, V>(cap: nat, r: Dict<K, V>, key: K, value: V)
    requires Unique(r)
    ensures SetEntry(cap, Suffix(r, cap), key, value) == Suffix(Without(r, key) + [(key, value)], cap)
  {
    var s := Suffix(r, cap);
    var a := r[..|r| - |s|];
    assert r == a + s;
    UniqueConcat(a, s);
    WithoutConcat(a, s, key);
    hide Keys, Unique, Without;
    if key in Keys(s) {
      WithoutUnique(s, key);
      WithoutAbsent(a, key);
      TouchInside(cap, a, Without(s, key), (key, value));
    } else {
      WithoutAbsent(s, key);
      TouchOutside(cap, Without(a, key), s, (key, value), a == []);
    }
  }

  lemma TouchInside<T>(cap: nat, a: seq<T>, s: seq<T>, e: T)
    requires |s| + 1 == cap || (|s| + 1 < cap && a == [])
    ensures Suffix(a + s + [e], cap) == s + [e]
  {
  }

  lemma TouchOutside<T>(cap: nat, a: seq<T>, s: seq<T>, e: T, fits: bool)
    requires |s| <= cap && (|s| == cap || fits)
    requires fits ==> a == []
    ensures Suffix(a + s + [e], cap) == if |s| + 1 > cap then (s + [e])[1..] else s + [e]
  {
  }

  /** What a cache holds: exactly the most recently touched keys, as many as fit, oldest first, each
      with the value of its last touch. */
  lemma {:induction false} HoldsMostRecent<K, V>(cap: nat, ops: seq<Op<K, V>>)
    ensures Run(cap, ops) == Suffix(Recency(Touches(cap, ops)), cap)
  {
    if ops != [] {
      var init, op := ops[..|ops| - 1], ops[|ops| - 1];
      HoldsMostRecent(cap, init);
      RunIsValid(cap, init);
      var log := Touches(cap, init);
      RecencyKeys(log);
      match op {
        case Set(key, value) =>
          RecencySnoc(log, (key, value));
          TouchSuffix(cap, Recency(log), key, value);
        case Get(key) =>
          var d := Run(cap, init);
          if Lookup(d, key).Some? {
            var value := Lookup(d, key).value;
            RecencySnoc(log, (key, value));
            TouchSuffix(cap, Recency(log), key, value);
            LookupInKeys(d, key);
            WithoutUnique(d, key);
          }
      }
    }
  }

  /* ---------- Two sizes ---------- */

  /** `a` can be obtained from `b` by leaving entries out. */
  predicate Embeds<T(==)>(a: seq<T>, b: seq<T>) {
    if a == [] then true
    else if b == [] then false
    else if a[0] == b[0] then Embeds(a[1..], b[1..])
    else Embeds(a, b[1..])
  }

  lemma {:induction false} EmbedsTail<T>(a: seq<T>, b: seq<T>)
    requires Embeds(a, b) && a != []
    ensures Embeds(a[1..], b)
    decreases |b|, 0
  {
    if a[0] != b[0] {
      EmbedsTail(a, b[1..]);
    }
    EmbedsWeaken(a[1..], b[0], b[1..]);
    assert [b[0]] + b[1..] == b;
  }

  lemma {:induction false} EmbedsWeaken<T>(a: seq<T>, e: T, b: seq<T>)
    requires Embeds(a, b)
    ensures Embeds(a, [e] + b)
    decreases |b|, 1
  {
    assert ([e] + b)[1..] == b;
    if a != [] && a[0] == e {
      EmbedsTail(a, b);
    }
  }

  lemma {:induction false} EmbedsSnoc<T>(a: seq<T>, b: seq<T>, e: T)
    requires Embeds(a, b)
    ensures Embeds(a + [e], b + [e])
    decreases |b|
  {
    if b == [] {
      assert a + [e] == [e] && b + [e] == [e];
      assert Embeds([e][1..], [e][1..]);
    } else {
      assert (b + [e])[1..] == b[1..] + [e];
      if a != [] && a[0] == b[0] {
        assert (a + [e])[1..] == a[1..] + [e];
        EmbedsSnoc(a[1..], b[1..], e);
      } else {
        EmbedsSnoc(a, b[1..], e);
        EmbedsWeaken(a + [e], b[0], b[1..] + [e]);
        assert [b[0]] + (b[1..] + [e]) == b + [e];
      }
    }
  }

  lemma {:induction false} EmbedsWithout<K, V>(a: Dict<K, V>, b: Dict<K, V>, key: K)
    requires Embeds(a, b)
    ensures Embeds(Without(a, key), Without(b, key))
    decreases |b|
  {
    if a != [] {
      if a[0] == b[0] {
        EmbedsWithout(a[1..], b[1..], key);
        if a[0].0 != key {
          assert Without(a, key)[1..] == Without(a[1..], key);
          assert Without(b, key)[1..] == Without(b[1..], key);
        }
      } else {
        EmbedsWithout(a, b[1..], key);
        if b[0].0 != key {
          EmbedsWeaken(Without(a, key), b[0], Without(b[1..], key));
        }
      }
    }
  }

  lemma {:induction false} EmbedsMembers<T>(a: seq<T>, b: seq<T>)
    requires Embeds(a, b)
    ensures |a| <= |b|
    ensures forall e :: e in a ==> e in b
    decreases |b|
  {
    if a != [] {
      assert b == [b[0]] + b[1..];
      if a[0] == b[0] {
        assert a == [a[0]] + a[1..];
        EmbedsMembers(a[1..], b[1..]);
      } else {
        EmbedsMembers(a, b[1..]);
      }
    }
  }

  /** Dropping both heads keeps the embedding. */
  lemma EmbedsDropBoth<T>(a: seq<T>, b: seq<T>)
    requires Embeds(a, b) && a != []
    ensures Embeds(a[1..], b[1..])
  {
    if a[0] != b[0] {
      EmbedsTail(a, b[1..]);
    }
  }

  /** A cache that is not full has never evicted, so the larger one is its twin. */
  ghost predicate Included<K, V>(n: nat, a: Dict<K, V>, m: nat, b: Dict<K, V>) {
    && Unique(a) && |a| <= n
    && Unique(b) && |b| <= m
    && Embeds(a, b)
    && (|a| < n ==> a == b)
  }

  lemma SharedLookup<K, V>(a: Dict<K, V>, b: Dict<K, V>, key: K)
    requires Embeds(a, b) && Unique(b) && Lookup(a, key).Some?
    ensures Lookup(b, key) == Lookup(a, key)
  {
    LookupInKeys(a, key);
    EmbedsMembers(a, b);
    var i :| 0 <= i < |b| && b[i] == (key, Lookup(a, key).value);
    LookupUnique(b, i);
  }

  lemma {:induction false} EmbedsSelf<T>(a: seq<T>)
    ensures Embeds(a, a)
  {
    if a != [] {
      EmbedsSelf(a[1..]);
    }
  }

  lemma SetKeepsIncluded<K, V>(n: nat, a: Dict<K, V>, m: nat, b: Dict<K, V>, key: K, value: V)
    requires n <= m && Included(n, a, m, b)
    ensures Included(n, SetEntry(n, a, key, value), m, SetEntry(m, b, key, value))
  {
    SetKeepsValid(n, a, key, value);
    SetKeepsValid(m, b, key, value);
    WithoutUnique(a, key);
    WithoutUnique(b, key);
    EmbedsWithout(a, b, key);
    var a', b' := Without(a, key) + [(key, value)], Without(b, key) + [(key, value)];
    EmbedsSnoc(Without(a, key), Without(b, key), (key, value));
    EmbedsMembers(a, b);
    if key in Keys(a) {
      LookupInKeys(a, key);
      SharedLookup(a, b, key);
      LookupInKeys(b, key);
    } else if |a'| > n {
      if |b'| > m {
        EmbedsDropBoth(a', b');
      } else {
        EmbedsTail(a', b');
      }
    }
  }

  lemma GetKeepsIncluded<K, V>(n: nat, a: Dict<K, V>, m: nat, b: Dict<K, V>, key: K)
    requires n <= m && Included(n, a, m, b)
    ensures Included(n, GetEntry(a, key), m, GetEntry(b, key))
  {
    GetKeepsValid(n, a, key);
    GetKeepsValid(m, b, key);
    WithoutUnique(a, key);
    WithoutUnique(b, key);
    LookupInKeys(a, key);
    LookupInKeys(b, key);
    if Lookup(a, key).Some? {
      SharedLookup(a, b, key);
      EmbedsWithout(a, b, key);
      EmbedsSnoc(Without(a, key), Without(b, key), (key, Lookup(a, key).value));
    } else if Lookup(b, key).Some? {
      // only the larger cache hits: the smaller one has no such entry to move
      WithoutAbsent(a, key);
      EmbedsWithout(a, b, key);
      EmbedsPrefix(a, Without(b, key), (key, Lookup(b, key).value));
    }
  }

  lemma {:induction false} EmbedsPrefix<T>(a: seq<T>, b: seq<T>, e: T)
    requires Embeds(a, b)
    ensures Embeds(a, b + [e])
    decreases |b|
  {
    if b != [] {
      assert (b + [e])[1..] == b[1..] + [e];
      if a != [] && a[0] == b[0] {
        EmbedsPrefix(a[1..], b[1..], e);
      } else {
        EmbedsPrefix(a, b[1..], e);
      }
    }
  }

  /** Inclusion: after the same calls, the smaller cache's entries are the larger one's with some left
      out, in the same order and with the same values. */
  lemma {:induction false} Inclusion<K, V>(n: nat, m: nat, ops: seq<Op<K, V>>)
    requires n <= m
    ensures Included(n, Run(n, ops), m, Run(m, ops))
  {
    if ops != [] {
      var init, op := ops[..|ops| - 1], ops[|ops| - 1];
      Inclusion(n, m, init);
      match op {
        case Set(key, value) => SetKeepsIncluded(n, Run(n, init), m, Run(m, init), key, value);
        case Get(key) => GetKeepsIncluded(n, Run(n, init), m, Run(m, init), key);
      }
    }
  }

  /* ---------- What every entry satisfies ---------- */

  ghost predicate AllEntries<K, V>(d: Dict<K, V>, p: (K, V) -> bool) {
    forall i :: 0 <= i < |d| ==> p(d[i].0, d[i].1)
  }

  lemma SetKeepsEntries<K, V>(cap: nat, d: Dict<K, V>, key: K, value: V, p: (K, V) -> bool)
    requires AllEntries(d, p) && p(key, value)
    ensures AllEntries(SetEntry(cap, d, key, value), p)
  {
    WithoutMembers(d, key);
  }

  lemma GetKeepsEntries<K, V>(d: Dict<K, V>, key: K, p: (K, V) -> bool)
    requires AllEntries(d, p)
    ensures AllEntries(GetEntry(d, key), p)
    ensures Lookup(d, key).Some? ==> p(key, Lookup(d, key).value)
  {
    WithoutMembers(d, key);
    LookupInKeys(d, key);
  }

  lemma LookedUpEntry<K, V>(d: Dict<K, V>, key: K, p: (K, V) -> bool)
    requires AllEntries(d, p) && Lookup(d, key).Some?
    ensures p(key, Lookup(d, key).value)
  {
    LookupInKeys(d, key);
  }

  /** Setting a key mends its entry: the others suffice. */
  lemma SetMendsEntries<K, V>(cap: nat, d: Dict<K, V>, key: K, value: V, p: (K, V) -> bool)
    requires p(key, value) && forall i :: 0 <= i < |d| && d[i].0 != key ==> p(d[i].0, d[i].1)
    ensures AllEntries(SetEntry(cap, d, key, value), p)
  {
    WithoutMembers(d, key);
  }

  /** Whatever is set for a key, the entries of the other keys were there before. */
  lemma SetKeepsOthers<K, V>(cap: nat, d: Dict<K, V>, key: K, value: V)
    ensures forall i :: 0 <= i < |SetEntry(cap, d, key, value)| && SetEntry(cap, d, key, value)[i].0 != key ==>
              SetEntry(cap, d, key, value)[i] in d
  {
    WithoutMembers(d, key);
  }

  lemma GetKeepsMembers<K, V>(d: Dict<K, V>, key: K)
    ensures forall i :: 0 <= i < |GetEntry(d, key)| ==> GetEntry(d, key)[i] in d
  {
    WithoutMembers(d, key);
    LookupInKeys(d, key);
  }
}
