/** Sequences (pieces of them, concatenations, reorderings) and sizes of finite sets. */
module Collections {

  function Take<T>(s: seq<T>, n: nat): seq<T> {
    if |s| <= n then s else s[..n]
  }

  ghost predicate Distinct<T>(s: seq<T>) {
    forall i, j :: 0 <= i < j < |s| ==> s[i] != s[j]
  }

  function Concat<T>(parts: seq<seq<T>>): seq<T> {
    if parts == [] then [] else parts[0] + Concat(parts[1..])
  }

  lemma {:induction false} ConcatSnoc<T>(parts: seq<seq<T>>, last: seq<T>)
    ensures Concat(parts + [last]) == Concat(parts) + last
  {
    if parts == [] {
      assert parts + [last] == [last];
    } else {
      assert (parts + [last])[1..] == parts[1..] + [last];
      ConcatSnoc(parts[1..], last);
    }
  }

  lemma {:induction false} HeadInConcat<T>(parts: seq<seq<T>>, i: nat) returns (k: nat)
    requires i < |parts| && parts[i] != []
    ensures k < |Concat(parts)| && Concat(parts)[k] == parts[i][0]
  {
    if i == 0 {
      k := 0;
    } else {
      k := HeadInConcat(parts[1..], i - 1);
      k := k + |parts[0]|;
    }
  }

  function FlatMap<A, T>(f: A -> seq<T>, s: seq<A>): seq<T> {
    if s == [] then [] else f(s[0]) + FlatMap(f, s[1..])
  }

  lemma {:induction false} FlatMapConcat<A, T>(f: A -> seq<T>, s: seq<A>, t: seq<A>)
    ensures FlatMap(f, s + t) == FlatMap(f, s) + FlatMap(f, t)
  {
    if s == [] {
      assert s + t == t;
    } else {
      assert (s + t)[1..] == s[1..] + t;
      FlatMapConcat(f, s[1..], t);
    }
  }

  lemma TakeOut<T>(s: seq<T>, j: nat)
    requires j < |s|
    ensures s == s[..j] + ([s[j]] + s[j + 1..])
    ensures multiset(s[..j] + s[j + 1..]) == multiset(s) - multiset{s[j]}
  {
    assert s == s[..j] + ([s[j]] + s[j + 1..]);
  }

  lemma FlatMapTakeOut<A, T>(f: A -> seq<T>, s: seq<A>, j: nat)
    requires j < |s|
    ensures multiset(FlatMap(f, s)) == multiset(f(s[j])) + multiset(FlatMap(f, s[..j] + s[j + 1..]))
  {
    TakeOut(s, j);
    FlatMapConcat(f, s[..j], s[j + 1..]);
    FlatMapConcat(f, s[..j], [s[j]] + s[j + 1..]);
    assert ([s[j]] + s[j + 1..])[1..] == s[j + 1..];
  }

  /** Another order of the same pieces has the same contents. */
  lemma {:induction false} FlatMapPermuted<A, T>(f: A -> seq<T>, s: seq<A>, t: seq<A>)
    requires multiset(s) == multiset(t)
    ensures multiset(FlatMap(f, s)) == multiset(FlatMap(f, t))
  {
    if s == [] {
      assert |multiset(t)| == 0;
    } else {
      assert s[0] in multiset(t);
      var j :| 0 <= j < |t| && t[j] == s[0];
      hide FlatMap;
      var s', t' := s[1..], t[..j] + t[j + 1..];
      assert s[..0] + s[1..] == s';
      TakeOut(s, 0);
      TakeOut(t, j);
      FlatMapTakeOut(f, s, 0);
      FlatMapTakeOut(f, t, j);
      FlatMapPermuted(f, s', t');
    }
  }

  /** Pieces that are not empty and known by their first element determine their order. */
  lemma {:induction false} FlatMapOrder<A, T>(f: A -> seq<T>, s: seq<A>, t: seq<A>)
    requires forall a :: a in s || a in t ==> f(a) != []
    requires forall a, b :: a in s && b in t && f(a)[0] == f(b)[0] ==> a == b
    ensures FlatMap(f, s) == FlatMap(f, t) <==> s == t
  {
    assert s != [] ==> s[0] in s && f(s[0]) != [];
    assert t != [] ==> t[0] in t && f(t[0]) != [];
    if s != [] && t != [] {
      if FlatMap(f, s) == FlatMap(f, t) {
        assert f(s[0])[0] == FlatMap(f, s)[0] == FlatMap(f, t)[0] == f(t[0])[0];
        assert FlatMap(f, s[1..]) == FlatMap(f, s)[|f(s[0])|..] == FlatMap(f, t[1..]);
        FlatMapOrder(f, s[1..], t[1..]);
        assert s == [s[0]] + s[1..] && t == [t[0]] + t[1..];
      }
    }
  }

  lemma {:induction false} FlatMapZip<A, T>(f: A -> seq<T>, s: seq<A>, parts: seq<seq<T>>)
    requires |s| == |parts| && forall i :: 0 <= i < |s| ==> f(s[i]) == parts[i]
    ensures FlatMap(f, s) == Concat(parts)
  {
    if s != [] {
      FlatMapZip(f, s[1..], parts[1..]);
    }
  }

  lemma SameMembers<T>(s: seq<T>, t: seq<T>)
    requires multiset(s) == multiset(t)
    ensures forall x :: x in s <==> x in t
  {
    forall x ensures x in s <==> x in t {
      assert x in s <==> x in multiset(s);
      assert x in t <==> x in multiset(t);
    }
  }

  ghost predicate KnownByHeads<T>(parts: seq<seq<T>>) {
    && (forall i :: 0 <= i < |parts| ==> parts[i] != [])
    && forall i, j :: 0 <= i < j < |parts| ==> parts[i][0] != parts[j][0]
  }

  lemma OrderShows<A, T>(f: A -> seq<T>, s: seq<A>, t: seq<A>, parts: seq<seq<T>>)
    requires multiset(s) == multiset(t)
    requires |t| == |parts| && KnownByHeads(parts) && forall i :: 0 <= i < |t| ==> f(t[i]) == parts[i]
    ensures FlatMap(f, s) == FlatMap(f, t) <==> s == t
  {
    SameMembers(s, t);
    forall a | a in s || a in t ensures f(a) != [] {
      var i :| 0 <= i < |t| && t[i] == a;
    }
    forall a, b | a in s && b in t && f(a)[0] == f(b)[0] ensures a == b {
      var i :| 0 <= i < |t| && t[i] == a;
      var j :| 0 <= j < |t| && t[j] == b;
    }
    FlatMapOrder(f, s, t);
  }

  lemma {:induction false} DistinctCount<T>(s: seq<T>, x: T)
    requires Distinct(s)
    ensures multiset(s)[x] == if x in s then 1 else 0
  {
    if s != [] {
      assert s == [s[0]] + s[1..];
      DistinctCount(s[1..], x);
    }
  }

  lemma DistinctSnoc<T>(s: seq<T>, x: T)
    ensures Distinct(s + [x]) <==> Distinct(s) && x !in s
  {
    if Distinct(s + [x]) {
      forall i, j | 0 <= i < j < |s| ensures s[i] != s[j] {
        assert (s + [x])[i] != (s + [x])[j];
      }
      forall i | 0 <= i < |s| ensures s[i] != x {
        assert (s + [x])[i] != (s + [x])[|s|];
      }
    }
  }

  lemma {:induction false} SubsetCount<T>(a: set<T>, b: set<T>)
    requires a <= b
    ensures |a| <= |b|
  {
    if a != {} {
      var x :| x in a;
      SubsetCount(a - {x}, b - {x});
    }
  }

  lemma ProperSubset<T>(a: set<T>, b: set<T>)
    requires a < b
    ensures |a| < |b|
  {
    var x := Member(b - a);
    SubsetCount(a, b - {x});
  }

  lemma Member<T>(s: set<T>) returns (x: T)
    requires s != {}
    ensures x in s
  {
    x :| x in s;
  }

  lemma FullSubset<T>(a: set<T>, b: set<T>)
    requires a <= b && |a| == |b|
    ensures a == b
  {
    assert |b - a| == |b| - |a|;
    assert b - a == {};
  }
}
