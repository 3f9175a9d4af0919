/** How the calls of the caching fetcher end, by the events of a run alone: a call that is served from the cache, one
    that executes the method, and one that joins an execution in flight.
 */
module Flights {
  import opened Dicts
  import opened Lru
  import opened SingleFlight

  /** Behind position `from` the execution of `d` has returned `v`, or has raised. */
  ghost predicate Finished<K, V>(es: seq<Event<K, V>>, d: CallId, from: nat, v: V) {
    exists x :: from < x < |es| && es[x] == Finish(d, v)
  }

  ghost predicate Raised<K, V>(es: seq<Event<K, V>>, d: CallId, from: nat) {
    exists x :: from < x < |es| && es[x] == Fail(d)
  }

  ghost predicate Resumed<K, V>(es: seq<Event<K, V>>, c: CallId, from: nat) {
    exists x :: from < x < |es| && es[x] == Resume(c)
  }

  /** The end of an execution, if it has come. */
  function EndOf<K, V>(es: seq<Event<K, V>>, d: CallId, from: nat): Option<Outcome<V>> {
    if |es| <= from + 1 then None
    else
      match es[|es| - 1]
      case Finish(c, v) => if c == d then Some(Result(v)) else EndOf(es[..|es| - 1], d, from)
      case Fail(c) => if c == d then Some(Cancelled) else EndOf(es[..|es| - 1], d, from)
      case _ => EndOf(es[..|es| - 1], d, from)
  }

  lemma RunStep<K(!new), V(!new)>(cap: nat, truthy: V -> bool, es: seq<Event<K, V>>)
    requires ValidRun(cap, truthy, es) && es != []
    ensures var init, e := es[..|es| - 1], es[|es| - 1];
            && ValidRun(cap, truthy, init) && Enabled(After(cap, truthy, init), e)
            && After(cap, truthy, es) == Next(cap, truthy, After(cap, truthy, init), e)
  {
  }

  /* ---------- One step ---------- */

  /** A waiting call in step with the execution it joined. */
  ghost predicate InStep<K, V>(s: State<K, V>, c: CallId, d: CallId, key: K, f: nat, end: Option<Outcome<V>>, resumed: bool) {
    && c in s.calls && d in s.calls && c != d
    && f < |s.futures| && s.futures[f].key == key
    && match end
       case None =>
         !resumed && s.calls[d] == Leading(key, f) && s.calls[c] == Call.Waiting(key, f) && s.futures[f].outcome.Pending?
       case Some(outcome) =>
         && !outcome.Pending? && s.futures[f].outcome == outcome
         && !s.calls[d].Leading?
         && s.calls[c] == if !resumed then Call.Waiting(key, f)
                          else if outcome.Result? then Returned(key, outcome.value) else Failed(key)
  }

  lemma OtherFuture<K(!new), V(!new)>(s: State<K, V>, c: CallId, f: nat)
    requires Sound(s) && c in s.calls && s.calls[c].Leading? && f < |s.futures|
    requires s.futures[f].outcome.Pending? ==> s.futures[f].key != s.calls[c].key
    ensures s.calls[c].future < |s.futures| && s.calls[c].future != f
  {
    hide Genuine, WaitersJoined;
  }

  lemma StepsTogether<K(!new), V(!new)>(cap: nat, truthy: V -> bool, s: State<K, V>, e: Event<K, V>, c: CallId, d: CallId,
                                        key: K, f: nat, end: Option<Outcome<V>>, resumed: bool)
    requires Sound(s) && Enabled(s, e) && InStep(s, c, d, key, f, end, resumed)
    ensures var end' := match e
                        case Finish(x, v) => if x == d then Some(Result(v)) else end
                        case Fail(x) => if x == d then Some(Cancelled) else end
                        case _ => end;
            InStep(Next(cap, truthy, s, e), c, d, key, f, end', resumed || e == Resume(c))
    ensures end.Some? ==> !(e.Finish? && e.call == d) && !(e.Fail? && e.call == d)
  {
    hide Sound;
    if (e.Finish? || e.Fail?) && e.call != d {
      if end.None? {
        OneOfKey(s, e.call, d);
      }
      OtherFuture(s, e.call, f);
    }
  }

  lemma OneOfKey<K(!new), V(!new)>(s: State<K, V>, c: CallId, d: CallId)
    requires Sound(s) && c in s.calls && d in s.calls && c != d && s.calls[c].Leading? && s.calls[d].Leading?
    ensures s.calls[c].key != s.calls[d].key
  {
    hide Genuine, WaitersJoined, FuturesInFlight;
  }

  /* ---------- A call that joins ---------- */

  /** The call is not served from the cache. */
  predicate Missed<K(==), V>(truthy: V -> bool, s: State<K, V>, key: K) {
    var hit := Lookup(s.cache, key);
    hit.None? || !truthy(hit.value)
  }

  lemma JoinStarts<K(!new), V(!new)>(cap: nat, truthy: V -> bool, s: State<K, V>, c: CallId, d: CallId, key: K)
    requires Sound(s) && c !in s.calls && Missed(truthy, s, key)
    requires d in s.calls && s.calls[d].Leading? && s.calls[d].key == key
    ensures InStep(Next(cap, truthy, s, Begin(c, key)), c, d, key, s.calls[d].future, None, false)
  {
    hide Genuine, WaitersJoined, GetEntry;
  }

  lemma {:induction false} StaysInStep<K(!new), V(!new)>(cap: nat, truthy: V -> bool, es: seq<Event<K, V>>, b: nat, c: CallId,
                                                         d: CallId, key: K) returns (f: nat)
    requires ValidRun(cap, truthy, es) && b < |es| && es[b] == Begin(c, key) && ValidRun(cap, truthy, es[..b])
    requires var s := After(cap, truthy, es[..b]);
             Missed(truthy, s, key) && d in s.calls && s.calls[d].Leading? && s.calls[d].key == key
    ensures InStep(After(cap, truthy, es), c, d, key, f, EndOf(es, d, b), Resumed(es, c, b))
    ensures forall v :: Finished(es, d, b, v) <==> EndOf(es, d, b) == Some(Result(v))
    ensures Raised(es, d, b) <==> EndOf(es, d, b) == Some(Cancelled)
    decreases |es|
  {
    var init, e := es[..|es| - 1], es[|es| - 1];
    RunStep(cap, truthy, es);
    RunSound(cap, truthy, init);
    if b == |es| - 1 {
      f := After(cap, truthy, init).calls[d].future;
      JoinStarts(cap, truthy, After(cap, truthy, init), c, d, key);
    } else {
      assert init[..b] == es[..b];
      f := StaysInStep(cap, truthy, init, b, c, d, key);
      var end := EndOf(init, d, b);
      hide ValidRun, After, Sound, InStep;
      StepsTogether(cap, truthy, After(cap, truthy, init), e, c, d, key, f, end, Resumed(init, c, b));
      ResumedSnoc(es, c, b);
      EndsSnoc(es, d, b);
    }
  }

  lemma ResumedSnoc<K(!new), V(!new)>(es: seq<Event<K, V>>, c: CallId, b: nat)
    requires b < |es| - 1
    ensures Resumed(es, c, b) <==> Resumed(es[..|es| - 1], c, b) || es[|es| - 1] == Resume(c)
  {
    var init := es[..|es| - 1];
    if x :| b < x < |init| && init[x] == Resume(c) {
      assert es[x] == Resume(c);
    }
    if x :| b < x < |es| && es[x] == Resume(c) {
      assert x < |init| ==> init[x] == Resume(c);
    }
  }

  lemma EndsSnoc<K(!new), V(!new)>(es: seq<Event<K, V>>, d: CallId, b: nat)
    requires b < |es| - 1
    ensures forall v :: Finished(es, d, b, v) <==> Finished(es[..|es| - 1], d, b, v) || es[|es| - 1] == Finish(d, v)
    ensures Raised(es, d, b) <==> Raised(es[..|es| - 1], d, b) || es[|es| - 1] == Fail(d)
  {
    var init := es[..|es| - 1];
    assert forall x :: 0 <= x < |init| ==> init[x] == es[x];
    forall v ensures Finished(es, d, b, v) <==> Finished(init, d, b, v) || es[|es| - 1] == Finish(d, v) {
      if x :| b < x < |es| && es[x] == Finish(d, v) {
        assert x < |init| ==> init[x] == Finish(d, v);
      }
      if x :| b < x < |init| && init[x] == Finish(d, v) {
        assert es[x] == Finish(d, v);
      }
    }
    if x :| b < x < |es| && es[x] == Event<K, V>.Fail(d) {
      assert x < |init| ==> init[x] == Fail(d);
    }
    if x :| b < x < |init| && init[x] == Event<K, V>.Fail(d) {
      assert es[x] == Fail(d);
    }
  }

  /** A call that finds an execution for its key in flight ends as that execution ends: once resumed it has returned
      `v` exactly when the execution returned `v`, and has failed exactly when the execution raised. */
  lemma JoinedEnds<K(!new), V(!new)>(cap: nat, truthy: V -> bool, es: seq<Event<K, V>>, b: nat, c: CallId, d: CallId, key: K)
    requires ValidRun(cap, truthy, es) && b < |es| && es[b] == Begin(c, key) && ValidRun(cap, truthy, es[..b])
    requires var s := After(cap, truthy, es[..b]);
             Missed(truthy, s, key) && d in s.calls && s.calls[d].Leading? && s.calls[d].key == key
    ensures c in After(cap, truthy, es).calls
    ensures forall v :: After(cap, truthy, es).calls[c] == Returned(key, v) <==> Resumed(es, c, b) && Finished(es, d, b, v)
    ensures After(cap, truthy, es).calls[c] == Failed(key) <==> Resumed(es, c, b) && Raised(es, d, b)
  {
    hide ValidRun, After, Finished, Raised, Resumed, EndOf;
    var f := StaysInStep(cap, truthy, es, b, c, d, key);
  }

  /* ---------- A call that leads, and one that hits ---------- */

  lemma LeadStarts<K(!new), V(!new)>(cap: nat, truthy: V -> bool, s: State<K, V>, d: CallId, key: K)
    requires Sound(s) && d !in s.calls && Missed(truthy, s, key)
    requires forall e :: e in s.calls && s.calls[e].Leading? ==> s.calls[e].key != key
    ensures Next(cap, truthy, s, Begin(d, key)).calls[d] == Leading(key, |s.futures|)
  {
    hide Genuine, WaitersJoined, FuturesInFlight, GetEntry;
    assert key in s.inflight ==> HasLeader(s.calls, key);
  }

  /** The state of a call whose execution ended so. */
  ghost predicate Leads<K, V>(s: State<K, V>, d: CallId, key: K, end: Option<Outcome<V>>) {
    && d in s.calls
    && match end
       case None => s.calls[d].Leading? && s.calls[d].key == key
       case Some(Result(v)) => s.calls[d] == Returned(key, v)
       case Some(Cancelled) => s.calls[d] == Failed(key)
       case Some(Pending) => false
  }

  lemma LeadStep<K(!new), V(!new)>(cap: nat, truthy: V -> bool, s: State<K, V>, e: Event<K, V>, d: CallId, key: K,
                                   end: Option<Outcome<V>>)
    requires Enabled(s, e) && Leads(s, d, key, end)
    ensures var end' := match e
                        case Finish(x, v) => if x == d then Some(Result(v)) else end
                        case Fail(x) => if x == d then Some(Cancelled) else end
                        case _ => end;
            Leads(Next(cap, truthy, s, e), d, key, end')
    ensures end.Some? ==> !(e.Finish? && e.call == d) && !(e.Fail? && e.call == d)
  {
  }

  lemma {:induction false} StaysLeading<K(!new), V(!new)>(cap: nat, truthy: V -> bool, es: seq<Event<K, V>>, b: nat, d: CallId,
                                                          key: K)
    requires ValidRun(cap, truthy, es) && b < |es| && es[b] == Begin(d, key) && ValidRun(cap, truthy, es[..b])
    requires var s := After(cap, truthy, es[..b]);
             Missed(truthy, s, key) && forall e :: e in s.calls && s.calls[e].Leading? ==> s.calls[e].key != key
    ensures Leads(After(cap, truthy, es), d, key, EndOf(es, d, b))
    ensures forall v :: Finished(es, d, b, v) <==> EndOf(es, d, b) == Some(Result(v))
    ensures Raised(es, d, b) <==> EndOf(es, d, b) == Some(Cancelled)
    decreases |es|
  {
    var init, e := es[..|es| - 1], es[|es| - 1];
    RunStep(cap, truthy, es);
    if b == |es| - 1 {
      RunSound(cap, truthy, init);
      LeadStarts(cap, truthy, After(cap, truthy, init), d, key);
    } else {
      assert init[..b] == es[..b];
      StaysLeading(cap, truthy, init, b, d, key);
      var end := EndOf(init, d, b);
      hide ValidRun, After, Leads;
      LeadStep(cap, truthy, After(cap, truthy, init), e, d, key, end);
      EndsSnoc(es, d, b);
    }
  }

  /** A call that finds nothing in the cache and no execution for its key in flight executes the method itself: it has
      returned `v` exactly when its execution returned `v`, and failed exactly when that raised. */
  lemma LeaderEnds<K(!new), V(!new)>(cap: nat, truthy: V -> bool, es: seq<Event<K, V>>, b: nat, d: CallId, key: K)
    requires ValidRun(cap, truthy, es) && b < |es| && es[b] == Begin(d, key) && ValidRun(cap, truthy, es[..b])
    requires var s := After(cap, truthy, es[..b]);
             Missed(truthy, s, key) && forall e :: e in s.calls && s.calls[e].Leading? ==> s.calls[e].key != key
    ensures d in After(cap, truthy, es).calls
    ensures forall v :: After(cap, truthy, es).calls[d] == Returned(key, v) <==> Finished(es, d, b, v)
    ensures After(cap, truthy, es).calls[d] == Failed(key) <==> Raised(es, d, b)
  {
    hide ValidRun, After, Finished, Raised, EndOf;
    StaysLeading(cap, truthy, es, b, d, key);
  }

  /** A call that is served from the cache has returned the cached value, at once and for good. */
  lemma {:induction false} HitEnds<K(!new), V(!new)>(cap: nat, truthy: V -> bool, es: seq<Event<K, V>>, b: nat, c: CallId, key: K)
    requires ValidRun(cap, truthy, es) && b < |es| && es[b] == Begin(c, key) && ValidRun(cap, truthy, es[..b])
    requires !Missed(truthy, After(cap, truthy, es[..b]), key)
    ensures c in After(cap, truthy, es).calls
    ensures After(cap, truthy, es).calls[c] == Returned(key, Lookup(After(cap, truthy, es[..b]).cache, key).value)
    decreases |es|
  {
    hide ValidRun, After, Lookup, GetEntry, SetEntry;
    var init := es[..|es| - 1];
    RunStep(cap, truthy, es);
    if b < |es| - 1 {
      assert init[..b] == es[..b];
      HitEnds(cap, truthy, init, b, c, key);
    }
  }

  /* ---------- What is in the cache ---------- */

  /** The calls of the cache that the events make: each call looks its key up, and each execution that returns sets it. */
  ghost function CacheCalls<K(!new), V(!new)>(cap: nat, truthy: V -> bool, es: seq<Event<K, V>>): seq<Op<K, V>>
    requires ValidRun(cap, truthy, es)
    decreases |es|
  {
    if es == [] then []
    else
      var init, e := es[..|es| - 1], es[|es| - 1];
      RunStep(cap, truthy, es);
      CacheCalls(cap, truthy, init) + match e
                                      case Begin(_, key) => [Get(key)]
                                      case Finish(c, value) => [Set(After(cap, truthy, init).calls[c].key, value)]
                                      case _ => []
  }

  lemma LruSnoc<K(!new), V(!new)>(cap: nat, ops: seq<Op<K, V>>, op: Op<K, V>)
    ensures Lru.Run(cap, ops + [op]) == Step(cap, Lru.Run(cap, ops), op)
  {
    assert (ops + [op])[..|ops|] == ops;
  }

  /** The cache is that of these calls, order and evictions included. Failures leave no trace in it. */
  lemma {:induction false} CacheIsLru<K(!new), V(!new)>(cap: nat, truthy: V -> bool, es: seq<Event<K, V>>)
    requires ValidRun(cap, truthy, es)
    ensures After(cap, truthy, es).cache == Lru.Run(cap, CacheCalls(cap, truthy, es))
    decreases |es|
  {
    if es != [] {
      var init, e := es[..|es| - 1], es[|es| - 1];
      RunStep(cap, truthy, es);
      CacheIsLru(cap, truthy, init);
      hide ValidRun, After, GetEntry, SetEntry;
      var before, calls := CacheCalls(cap, truthy, init), CacheCalls(cap, truthy, es);
      match e {
        case Begin(_, key) => LruSnoc(cap, before, Get(key));
        case Finish(c, value) => LruSnoc(cap, before, Set(After(cap, truthy, init).calls[c].key, value));
        case _ => assert calls == before;
      }
    }
  }

  /** What the last execution for the key returned. */
  ghost function LastResult<K(!new), V(!new)>(cap: nat, truthy: V -> bool, es: seq<Event<K, V>>, key: K): Option<V>
    requires ValidRun(cap, truthy, es)
    decreases |es|
  {
    if es == [] then None
    else
      var init, e := es[..|es| - 1], es[|es| - 1];
      RunStep(cap, truthy, es);
      if e.Finish? && After(cap, truthy, init).calls[e.call].key == key then Some(e.value)
      else LastResult(cap, truthy, init, key)
  }

  lemma SetLookups<K(!new), V(!new)>(cap: nat, d: Dict<K, V>, key: K, value: V, other: K)
    requires Unique(d)
    ensures Lookup(SetEntry(cap, d, key, value), other).Some? ==>
              Lookup(SetEntry(cap, d, key, value), other) == if other == key then Some(value) else Lookup(d, other)
  {
    var rest, hit := Without(d, key), [(key, value)];
    LookupConcat(rest, hit, other);
    LookupWithout(d, key, other);
    SingleLookup((key, value), other);
    WithoutUnique(d, key);
    WithoutMembers(d, key);
    SingleKey((key, value));
    UniqueConcat(rest, hit);
    hide Keys, Without;
    TailLookup(rest + hit, other);
  }

  lemma TailLookup<K(!new), V(!new)>(d: Dict<K, V>, other: K)
    requires Unique(d) && d != []
    ensures Lookup(d[1..], other).Some? ==> Lookup(d[1..], other) == Lookup(d, other)
  {
    LookupInKeys(d[1..], other);
  }

  lemma {:induction false} CacheUnique<K(!new), V(!new)>(cap: nat, truthy: V -> bool, es: seq<Event<K, V>>)
    requires ValidRun(cap, truthy, es)
    ensures Unique(After(cap, truthy, es).cache) && |After(cap, truthy, es).cache| <= cap
    decreases |es|
  {
    if es != [] {
      var init, e := es[..|es| - 1], es[|es| - 1];
      RunStep(cap, truthy, es);
      CacheUnique(cap, truthy, init);
      var s := After(cap, truthy, init);
      match e {
        case Begin(_, key) => GetKeepsValid(cap, s.cache, key);
        case Finish(c, value) => SetKeepsValid(cap, s.cache, s.calls[c].key, value);
        case _ =>
      }
      hide ValidRun, After, Unique, GetEntry, SetEntry;
    }
  }

  /** The cache never has anything for a key but what the last execution for it returned. */
  lemma {:induction false} CachedIsLastResult<K(!new), V(!new)>(cap: nat, truthy: V -> bool, es: seq<Event<K, V>>, key: K)
    requires ValidRun(cap, truthy, es)
    ensures Lookup(After(cap, truthy, es).cache, key).Some? ==>
              Lookup(After(cap, truthy, es).cache, key) == LastResult(cap, truthy, es, key)
    decreases |es|
  {
    if es != [] {
      var init, e := es[..|es| - 1], es[|es| - 1];
      RunStep(cap, truthy, es);
      CachedIsLastResult(cap, truthy, init, key);
      CacheUnique(cap, truthy, init);
      var s := After(cap, truthy, init);
      match e {
        case Begin(_, k) => GetKeepsLookups(s.cache, k, key);
        case Finish(c, value) => SetLookups(cap, s.cache, s.calls[c].key, value, key);
        case _ =>
      }
      hide ValidRun, After, Lookup, GetEntry, SetEntry, Unique;
    }
  }
}
