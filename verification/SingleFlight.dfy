/** The caching fetcher: concurrent calls for one key share one execution of the fetched method. A step is
    the stretch of a call's coroutine up to its next suspension; a run interleaves the calls in any way.
 */
module SingleFlight {
  import opened Dicts
  import opened Lru

  datatype Outcome<V> = Pending | Result(value: V) | Cancelled

  /** A future, with the key of the call that created it. */
  datatype Future<K, V> = Future(key: K, outcome: Outcome<V>)

  datatype CallId = CallId(n: nat)

  /** Where a call is: executing the method, awaiting another call's future, or finished. */
  datatype Call<K, V> =
    | Leading(key: K, future: nat)
    | Waiting(key: K, future: nat)
    | Returned(key: K, value: V)
    | Failed(key: K)

  datatype State<K, V> = State(
    cache: Dict<K, V>,
    inflight: map<K, nat>,
    futures: seq<Future<K, V>>,
    calls: map<CallId, Call<K, V>>,
    produced: seq<(K, V)>)         // what executions have returned so far

  datatype Event<K, V> =
    | Begin(call: CallId, key: K)
    | Finish(call: CallId, value: V)
    | Fail(call: CallId)
    | Resume(call: CallId)

  function Init<K(==), V>(): State<K, V> {
    State([], map[], [], map[], [])
  }

  predicate Enabled<K(==), V>(s: State<K, V>, e: Event<K, V>) {
    match e
    case Begin(c, _) => c !in s.calls
    case Finish(c, _) => c in s.calls && s.calls[c].Leading? && s.calls[c].future < |s.futures|
    case Fail(c) => c in s.calls && s.calls[c].Leading? && s.calls[c].future < |s.futures|
    case Resume(c) =>
      c in s.calls && s.calls[c].Waiting? && s.calls[c].future < |s.futures|
      && !s.futures[s.calls[c].future].outcome.Pending?
  }

  /** A call begins: a truthy cached value is returned, an execution in flight is joined, and otherwise
      the call starts one. */
  function Started<K(==), V>(s: State<K, V>, c: CallId, key: K, truthy: V -> bool): State<K, V> {
    var hit := Lookup(s.cache, key);
    var t := s.(cache := GetEntry(s.cache, key));
    if hit.Some? && truthy(hit.value) then t.(calls := s.calls[c := Returned(key, hit.value)])
    else if key in s.inflight then t.(calls := s.calls[c := Waiting(key, s.inflight[key])])
    else t.(
      futures := s.futures + [Future(key, Pending)],
      inflight := s.inflight[key := |s.futures|],
      calls := s.calls[c := Leading(key, |s.futures|)])
  }

  function Settled<K, V>(s: State<K, V>, f: nat, outcome: Outcome<V>): seq<Future<K, V>>
    requires f < |s.futures|
  {
    s.futures[f := Future(s.futures[f].key, outcome)]
  }

  function Next<K(==), V>(cap: nat, truthy: V -> bool, s: State<K, V>, e: Event<K, V>): State<K, V>
    requires Enabled(s, e)
  {
    match e
    case Begin(c, key) => Started(s, c, key, truthy)
    case Finish(c, value) =>
      var key := s.calls[c].key;
      s.(cache := SetEntry(cap, s.cache, key, value),
         futures := Settled(s, s.calls[c].future, Result(value)),
         inflight := s.inflight - {key},
         calls := s.calls[c := Returned(key, value)],
         produced := s.produced + [(key, value)])
    case Fail(c) =>
      var key := s.calls[c].key;
      s.(futures := Settled(s, s.calls[c].future, Cancelled),
         inflight := s.inflight - {key},
         calls := s.calls[c := Failed(key)])
    case Resume(c) =>
      var call := s.calls[c];
      match s.futures[call.future].outcome
      case Result(value) => s.(calls := s.calls[c := Returned(call.key, value)])
      case _ => s.(calls := s.calls[c := Failed(call.key)])
  }

  /* ---------- Invariant ---------- */

  /** The in-flight table holds exactly the keys with a running leader, and each has one leader. */
  ghost predicate OneLeader<K, V>(calls: map<CallId, Call<K, V>>, inflight: map<K, nat>) {
    && (forall c :: c in calls && calls[c].Leading? ==>
          calls[c].key in inflight && inflight[calls[c].key] == calls[c].future)
    && (forall key :: key in inflight ==> HasLeader(calls, key))
    && (forall c, d :: c in calls && d in calls && calls[c].Leading? && calls[d].Leading? && calls[c].key == calls[d].key
          ==> c == d)
  }

  ghost predicate HasLeader<K, V>(calls: map<CallId, Call<K, V>>, key: K) {
    exists c :: c in calls && calls[c].Leading? && calls[c].key == key
  }

  /** A future is unfinished exactly while it is in flight. */
  ghost predicate FuturesInFlight<K, V>(inflight: map<K, nat>, futures: seq<Future<K, V>>) {
    && (forall key :: key in inflight ==> inflight[key] < |futures| && futures[inflight[key]] == Future(key, Pending))
    && (forall f :: 0 <= f < |futures| && futures[f].outcome.Pending? ==>
          futures[f].key in inflight && inflight[futures[f].key] == f)
  }

  /** A waiting call waits on a future of its own key. */
  ghost predicate WaitersJoined<K, V>(calls: map<CallId, Call<K, V>>, futures: seq<Future<K, V>>) {
    forall c :: c in calls && calls[c].Waiting? ==>
      calls[c].future < |futures| && futures[calls[c].future].key == calls[c].key
  }

  ghost predicate Genuine<K, V>(s: State<K, V>) {
    && (forall i :: 0 <= i < |s.cache| ==> s.cache[i] in s.produced)
    && (forall f :: 0 <= f < |s.futures| && s.futures[f].outcome.Result? ==>
          (s.futures[f].key, s.futures[f].outcome.value) in s.produced)
    && (forall c :: c in s.calls && s.calls[c].Returned? ==> (s.calls[c].key, s.calls[c].value) in s.produced)
  }

  ghost predicate Sound<K, V>(s: State<K, V>) {
    && OneLeader(s.calls, s.inflight)
    && FuturesInFlight(s.inflight, s.futures)
    && WaitersJoined(s.calls, s.futures)
    && Genuine(s)
  }

  /** A new call that does not lead changes no leader. */
  lemma SameLeaders<K(!new), V>(calls: map<CallId, Call<K, V>>, inflight: map<K, nat>, c: CallId, done: Call<K, V>)
    requires OneLeader(calls, inflight) && !done.Leading? && (c in calls ==> !calls[c].Leading?)
    ensures OneLeader(calls[c := done], inflight)
  {
    forall k | k in inflight ensures HasLeader(calls[c := done], k) {
      assert HasLeader(calls, k);
      var d :| d in calls && calls[d].Leading? && calls[d].key == k;
      assert calls[c := done][d] == calls[d];
    }
  }

  lemma NewLeader<K(!new), V>(calls: map<CallId, Call<K, V>>, inflight: map<K, nat>, c: CallId, key: K, f: nat)
    requires OneLeader(calls, inflight) && c !in calls && key !in inflight
    ensures OneLeader(calls[c := Leading(key, f)], inflight[key := f])
  {
    var calls', inflight' := calls[c := Leading(key, f)], inflight[key := f];
    forall k | k in inflight' ensures HasLeader(calls', k) {
      if k != key {
        assert HasLeader(calls, k);
        var d :| d in calls && calls[d].Leading? && calls[d].key == k;
        assert calls'[d] == calls[d];
      } else {
        assert calls'[c].Leading? && calls'[c].key == k;
      }
    }
  }

  lemma BeginGenuine<K(!new), V>(truthy: V -> bool, s: State<K, V>, c: CallId, key: K)
    requires Genuine(s) && c !in s.calls
    ensures Genuine(Started(s, c, key, truthy))
  {
    var hit, t := Lookup(s.cache, key), Started(s, c, key, truthy);
    LookupInKeys(s.cache, key);
    WithoutMembers(s.cache, key);
    hide Lookup, Without, Keys;
    forall i | 0 <= i < |t.cache| ensures t.cache[i] in s.produced {
      assert hit.Some? ==> t.cache[i] in s.cache;
    }
  }

  lemma BeginSound<K(!new), V>(truthy: V -> bool, s: State<K, V>, c: CallId, key: K)
    requires Sound(s) && c !in s.calls
    ensures Sound(Started(s, c, key, truthy))
  {
    BeginGenuine(truthy, s, c, key);
    var hit := Lookup(s.cache, key);
    hide Lookup, Without, Keys, Genuine;
    if hit.Some? && truthy(hit.value) {
      SameLeaders(s.calls, s.inflight, c, Returned(key, hit.value));
      hide OneLeader, FuturesInFlight;
    } else if key in s.inflight {
      SameLeaders(s.calls, s.inflight, c, Waiting(key, s.inflight[key]));
      hide OneLeader;
    } else {
      NewLeader(s.calls, s.inflight, c, key, |s.futures|);
      NewFuture(s, c, key);
      hide OneLeader, FuturesInFlight, WaitersJoined;
    }
  }

  lemma NewFuture<K(!new), V>(s: State<K, V>, c: CallId, key: K)
    requires FuturesInFlight(s.inflight, s.futures) && WaitersJoined(s.calls, s.futures)
    requires c !in s.calls && key !in s.inflight
    ensures var futures := s.futures + [Future(key, Pending)];
            && FuturesInFlight(s.inflight[key := |s.futures|], futures)
            && WaitersJoined(s.calls[c := Leading(key, |s.futures|)], futures)
  {
  }

  /** What both ends of an execution share. */
  lemma SettleSound<K(!new), V>(s: State<K, V>, c: CallId, outcome: Outcome<V>, done: Call<K, V>)
    requires Sound(s) && c in s.calls && s.calls[c].Leading?
    requires !outcome.Pending? && !done.Leading? && !done.Waiting?
    ensures s.calls[c].future < |s.futures|
    ensures s.futures[s.calls[c].future].key == s.calls[c].key
    ensures var key, futures := s.calls[c].key, Settled(s, s.calls[c].future, outcome);
            && OneLeader(s.calls[c := done], s.inflight - {key})
            && FuturesInFlight(s.inflight - {key}, futures)
            && WaitersJoined(s.calls[c := done], futures)
  {
    var key := s.calls[c].key;
    var calls, inflight := s.calls[c := done], s.inflight - {key};
    forall k | k in inflight ensures HasLeader(calls, k) {
      var d :| d in s.calls && s.calls[d].Leading? && s.calls[d].key == k;
      assert calls[d] == s.calls[d];
    }
  }

  lemma FinishSound<K(!new), V>(cap: nat, truthy: V -> bool, s: State<K, V>, c: CallId, value: V)
    requires Sound(s) && Enabled(s, Finish(c, value))
    ensures Sound(Next(cap, truthy, s, Finish(c, value)))
  {
    var key := s.calls[c].key;
    hide OneLeader, FuturesInFlight, WaitersJoined, Without, Keys;
    SettleSound(s, c, Result(value), Returned(key, value));
    WithoutMembers(s.cache, key);
  }

  lemma ResumeSound<K(!new), V>(cap: nat, truthy: V -> bool, s: State<K, V>, c: CallId)
    requires Sound(s) && Enabled(s, Resume(c))
    ensures Sound(Next(cap, truthy, s, Resume(c)))
  {
    var t := Next(cap, truthy, s, Resume(c));
    SameLeaders(s.calls, s.inflight, c, t.calls[c]);
    hide OneLeader, FuturesInFlight;
  }

  lemma StepSound<K(!new), V>(cap: nat, truthy: V -> bool, s: State<K, V>, e: Event<K, V>)
    requires Sound(s) && Enabled(s, e)
    ensures Sound(Next(cap, truthy, s, e))
  {
    match e {
      case Begin(c, key) => BeginSound(truthy, s, c, key);
      case Finish(c, value) => FinishSound(cap, truthy, s, c, value);
      case Fail(c) =>
        SettleSound(s, c, Cancelled, Failed(s.calls[c].key));
        hide OneLeader, FuturesInFlight, WaitersJoined;
      case Resume(c) => ResumeSound(cap, truthy, s, c);
    }
  }

  /* ---------- Runs ---------- */

  ghost predicate ValidRun<K(!new), V>(cap: nat, truthy: V -> bool, es: seq<Event<K, V>>)
    decreases |es|, 0
  {
    es == [] ||
    (var init := es[..|es| - 1];
     ValidRun(cap, truthy, init) && Enabled(After(cap, truthy, init), es[|es| - 1]))
  }

  ghost function After<K(!new), V>(cap: nat, truthy: V -> bool, es: seq<Event<K, V>>): State<K, V>
    requires ValidRun(cap, truthy, es)
    decreases |es|, 1
  {
    if es == [] then Init() else Next(cap, truthy, After(cap, truthy, es[..|es| - 1]), es[|es| - 1])
  }

  /** Safety of every interleaving: one execution per key at a time, the in-flight table exact, and every
      returned or cached value produced, by then, by an execution for its own key. */
  lemma {:induction false} RunSound<K(!new), V>(cap: nat, truthy: V -> bool, es: seq<Event<K, V>>)
    requires ValidRun(cap, truthy, es)
    ensures Sound(After(cap, truthy, es))
  {
    if es != [] {
      RunSound(cap, truthy, es[..|es| - 1]);
      StepSound(cap, truthy, After(cap, truthy, es[..|es| - 1]), es[|es| - 1]);
    }
  }

  /** No waiter is forgotten: either it can resume, or an execution for its key is still running. */
  lemma WaiterIsServed<K(!new), V>(cap: nat, truthy: V -> bool, es: seq<Event<K, V>>, c: CallId)
    requires ValidRun(cap, truthy, es)
    requires c in After(cap, truthy, es).calls && After(cap, truthy, es).calls[c].Waiting?
    ensures var s := After(cap, truthy, es);
            Enabled(s, Resume(c)) || exists d :: d in s.calls && s.calls[d] == Leading(s.calls[c].key, s.calls[c].future)
  {
    RunSound(cap, truthy, es);
    var s := After(cap, truthy, es);
    if !Enabled(s, Resume(c)) {
      assert HasLeader(s.calls, s.calls[c].key);
      var d :| d in s.calls && s.calls[d].Leading? && s.calls[d].key == s.calls[c].key;
      assert s.calls[d] == Leading(s.calls[c].key, s.calls[c].future);
    }
  }

  /** Executions return what the plain function gives for the key of the call that executes. */
  ghost predicate Plain<K(!new), V>(cap: nat, truthy: V -> bool, es: seq<Event<K, V>>, f: K -> V)
    requires ValidRun(cap, truthy, es)
  {
    es == [] ||
    (var init, e := es[..|es| - 1], es[|es| - 1];
     Plain(cap, truthy, init, f)
     && (e.Finish? ==> e.value == f(After(cap, truthy, init).calls[e.call].key)))
  }

  /** The cached fetcher agrees with the plain function, for every interleaving, capacity and eviction. */
  lemma AgreesWithPlainFunction<K(!new), V>(cap: nat, truthy: V -> bool, es: seq<Event<K, V>>, f: K -> V, c: CallId)
    requires ValidRun(cap, truthy, es) && Plain(cap, truthy, es, f)
    requires c in After(cap, truthy, es).calls && After(cap, truthy, es).calls[c].Returned?
    ensures After(cap, truthy, es).calls[c].value == f(After(cap, truthy, es).calls[c].key)
  {
    RunSound(cap, truthy, es);
    ProducedPlain(cap, truthy, es, f);
  }

  lemma {:induction false} ProducedPlain<K(!new), V>(cap: nat, truthy: V -> bool, es: seq<Event<K, V>>, f: K -> V)
    requires ValidRun(cap, truthy, es) && Plain(cap, truthy, es, f)
    ensures forall i :: 0 <= i < |After(cap, truthy, es).produced| ==>
              After(cap, truthy, es).produced[i].1 == f(After(cap, truthy, es).produced[i].0)
  {
    if es != [] {
      ProducedPlain(cap, truthy, es[..|es| - 1], f);
    }
  }

  /** A result saves the next call its execution exactly when it is truthy and the cache can hold it. */
  lemma RefetchedIff<K(!new), V>(cap: nat, truthy: V -> bool, s: State<K, V>, c: CallId, value: V, d: CallId)
    requires Sound(s) && Unique(s.cache) && |s.cache| <= cap && Enabled(s, Finish(c, value))
    requires d !in s.calls
    ensures var t := Next(cap, truthy, s, Finish(c, value));
            var u := Started(t, d, s.calls[c].key, truthy);
            && (u.calls[d].Leading? <==> !(truthy(value) && cap > 0))
            && (truthy(value) && cap > 0 ==> u.calls[d] == Returned(s.calls[c].key, value))
  {
    var key := s.calls[c].key;
    var t := Next(cap, truthy, s, Finish(c, value));
    if cap > 0 {
      SetThenLookup(cap, s.cache, key, value);
    } else {
      SetKeepsValid(cap, s.cache, key, value);
      LookupInKeys(t.cache, key);
    }
  }

  /* ---------- The fetcher ---------- */

  class CachedFetcher<K(==), V> {
    const cache: LRUCache<K, V>
    const truthy: V -> bool
    var inflight: map<K, nat>
    var futures: seq<Future<K, V>>
    var calls: map<CallId, Call<K, V>>   // the suspended and finished coroutines
    ghost var produced: seq<(K, V)>

    ghost predicate Valid()
      reads this, cache
    {
      cache.Valid()
    }

    ghost function View(): State<K, V>
      reads this, cache
    {
      State(cache.cache, inflight, futures, calls, produced)
    }

    constructor (maxSize: nat, truthy: V -> bool)
      ensures Valid() && fresh(cache) && cache.maxSize == maxSize && this.truthy == truthy
      ensures View() == Init()
    {
      cache := new LRUCache(maxSize);
      this.truthy := truthy;
      inflight, futures, calls, produced := map[], [], map[], [];
    }

    /** A call, up to its first suspension or its return. */
    method Begin(c: CallId, key: K)
      requires Valid() && c !in calls
      modifies this, cache
      ensures Valid()
      ensures View() == Next(cache.maxSize, truthy, old(View()), Event.Begin(c, key))
    {
      var item := cache.Get(key);
      if item.Some? && truthy(item.value) {
        calls := calls[c := Returned(key, item.value)];
        return;
      }
      if key in inflight {
        calls := calls[c := Waiting(key, inflight[key])];
        return;
      }
      inflight := inflight[key := |futures|];
      calls := calls[c := Leading(key, |futures|)];
      futures := futures + [Future(key, Pending)];
    }

    /** The method returned to the leader. */
    method Finish(c: CallId, value: V)
      requires Valid() && Enabled(View(), Event.Finish(c, value))
      modifies this, cache
      ensures Valid()
      ensures View() == Next(cache.maxSize, truthy, old(View()), Event.Finish(c, value))
    {
      var Leading(key, f) := calls[c];
      cache.Set(key, value);
      futures := futures[f := Future(futures[f].key, Result(value))];
      calls := calls[c := Returned(key, value)];
      inflight := inflight - {key};
      produced := produced + [(key, value)];
    }

    /** The method raised in the leader. */
    method Fail(c: CallId)
      requires Valid() && Enabled(View(), Event.Fail(c))
      modifies this
      ensures Valid()
      ensures View() == Next(cache.maxSize, truthy, old(View()), Event.Fail(c))
    {
      var Leading(key, f) := calls[c];
      inflight := inflight - {key};
      futures := futures[f := Future(futures[f].key, Cancelled)];
      calls := calls[c := Failed(key)];
    }

    /** A waiter whose future is done. */
    method Resume(c: CallId)
      requires Valid() && Enabled(View(), Event.Resume(c))
      modifies this
      ensures Valid()
      ensures View() == Next(cache.maxSize, truthy, old(View()), Event.Resume(c))
    {
      var Waiting(key, f) := calls[c];
      var outcome := futures[f].outcome;
      calls := calls[c := if outcome.Result? then Returned(key, outcome.value) else Failed(key)];
    }
  }
}
