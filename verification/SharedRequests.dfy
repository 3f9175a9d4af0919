/** Requests over the shared websocket: many calls of `_make_rpc_request`, each sending its own payloads and
    retrieving only what it sent, interleaved in any way with each other, the node and lost connections.
 */
module SharedRequests {
  import opened Collections
  import opened Dicts
  import opened Requests
  import M = Multiplexer

  type Events = seq<M.Event>

  /** One request in progress. Labels say which request an event of the run belongs to; those of the sender,
      the receiver and the node are not looked at. */
  datatype Caller = Caller(number: nat)
  type Labels = seq<Caller>

  predicate Opens(e: M.Event, id: M.Id) {
    e.Open? && e.id == id
  }

  predicate Takes(e: M.Event, id: M.Id) {
    e.Take? && e.id == id
  }

  ghost predicate NotTakenBy(es: Events, who: Labels, c: Caller, id: M.Id, from: nat, to: nat)
    requires |who| == |es|
  {
    forall x :: from < x < to && x < |es| ==> !(Takes(es[x], id) && who[x] == c)
  }

  /** The caller has sent a request under the id before `k` and has not collected its answer since. */
  ghost predicate Holds(es: Events, who: Labels, k: nat, c: Caller, id: M.Id)
    requires |who| == |es|
  {
    exists o :: 0 <= o < k && o < |es| && Opens(es[o], id) && who[o] == c && NotTakenBy(es, who, c, id, o, k)
  }

  /** All that is asked of a caller: it retrieves only ids that it got from `send` and has not collected yet. */
  ghost predicate OnlyOwn(es: Events, who: Labels) {
    |who| == |es| && forall k :: 0 <= k < |es| && es[k].Take? ==> Holds(es, who, k, who[k], es[k].id)
  }

  /* ---------- An id between two sends ---------- */

  /** An id is not free before it is collected. */
  lemma {:induction false} Occupied(es: Events, id: M.Id, o: nat, x: nat)
    requires o < x <= |es| && Opens(es[o], id)
    requires M.ValidLedgerRun(es[..x])
    requires forall y :: o < y < x ==> !Takes(es[y], id)
    ensures id in M.LedgerAfter(es[..x])
    decreases x
  {
    assert es[..x][..x - 1] == es[..x - 1];
    if o < x - 1 {
      Occupied(es, id, o, x - 1);
    }
  }

  /** And it is free when it is sent under. */
  lemma FreeBefore(es: Events, id: M.Id, o: nat)
    requires M.ValidLedgerRun(es) && o < |es| && Opens(es[o], id)
    ensures M.ValidLedgerRun(es[..o]) && id !in M.LedgerAfter(es[..o])
  {
    M.LedgerRunPrefix(es, o + 1);
    assert es[..o + 1][..o] == es[..o];
  }

  /** So between two sends under one id there is a first retrieval of it. */
  lemma FirstTake(max: nat, es: Events, id: M.Id, o: nat, again: nat) returns (y: nat)
    requires M.ValidRun(max, es) && o < again < |es| && Opens(es[o], id) && Opens(es[again], id)
    ensures o < y < again && Takes(es[y], id)
    ensures forall x :: o < x < y ==> !Takes(es[x], id)
  {
    hide M.Sound, M.Represents, M.ValidRun, M.LedgerAfter;
    M.RunRefines(max, es);
    FreeBefore(es, id, again);
    y := o + 1;
    while y < again && !Takes(es[y], id)
      invariant o < y <= again
      invariant forall x :: o < x < y ==> !Takes(es[x], id)
    {
      y := y + 1;
    }
    if y == again {
      Occupied(es, id, o, again);
    }
  }

  /** Whoever collects an id is the caller that last sent under it. */
  lemma {:induction false} CollectedBySender(max: nat, es: Events, who: Labels, k: nat, last: nat, id: M.Id)
    requires M.ValidRun(max, es) && OnlyOwn(es, who)
    requires last < k < |es| && Opens(es[last], id) && Takes(es[k], id)
    requires forall x :: last < x < k ==> !Opens(es[x], id)
    ensures who[last] == who[k]
    decreases k
  {
    var o :| 0 <= o < k && Opens(es[o], id) && who[o] == who[k] && NotTakenBy(es, who, who[k], id, o, k);
    if o < last {
      var y := FirstTake(max, es, id, o, last);
      forall x | o < x < y ensures !Opens(es[x], id) {
        if Opens(es[x], id) {
          var z := FirstTake(max, es, id, o, x);
        }
      }
      CollectedBySender(max, es, who, y, o, id);
    }
  }

  /** The node has given this answer. */
  ghost predicate Answered(es: Events, r: M.Response) {
    exists j :: 0 <= j < |es| && es[j] == M.Reply(r)
  }

  /** Whatever a caller collects answers the payload that it itself last sent under the id. */
  lemma OwnAnswer(max: nat, es: Events, who: Labels, k: nat) returns (o: nat)
    requires M.ValidRun(max, es) && OnlyOwn(es, who) && k < |es| && es[k].Take?
    ensures o < k && who[o] == who[k] && es[o] == M.Open(es[k].id, es[k].taken.request)
    ensures es[k].taken.id == es[k].id && Answered(es, es[k].taken)
  {
    M.EachCallerTakesItsOwnAnswer(max, es, k);
    var id := es[k].id;
    var i, j :| 0 <= i < j < k && es[i] == M.Open(id, es[k].taken.request) && es[j] == M.Reply(es[k].taken)
                && M.Quiet(es, id, i, k, j);
    forall x | i < x < k ensures !Opens(es[x], id) {
      assert x != j ==> !M.Concerns(es[x], id);
    }
    CollectedBySender(max, es, who, k, i, id);
    o := i;
  }

  /* ---------- One request ---------- */

  /** What one request sends: all its payloads, one after the other, and nothing else; then it retrieves. */
  datatype Sending = Sending(caller: Caller, items: seq<ItemId>, jsons: seq<M.Payload>, at: seq<nat>)

  function IdOf(item: ItemId): M.Id {
    M.Id(item.text)
  }

  ghost predicate Sent(es: Events, who: Labels, s: Sending) {
    && |who| == |es|
    && |s.items| == |s.jsons| == |s.at|
    && (forall i, j :: 0 <= i < j < |s.at| ==> s.at[i] < s.at[j])
    && (forall i :: 0 <= i < |s.at| ==>
          s.at[i] < |es| && who[s.at[i]] == s.caller && es[s.at[i]] == M.Open(IdOf(s.items[i]), s.jsons[i]))
    && (forall x :: 0 <= x < |es| && who[x] == s.caller && es[x].Open? ==> x in s.at)
    && (forall x, i :: 0 <= x < |es| && who[x] == s.caller && es[x].Take? && 0 <= i < |s.at| ==> s.at[i] < x)
  }

  /** What its rounds of polling yield was taken from the websocket by this request. */
  ghost predicate Collected<R(!new)>(es: Events, who: Labels, s: Sending, polls: seq<Dict<ItemId, R>>, decode: M.Response -> R)
    requires |who| == |es|
  {
    forall k, item, response :: 0 <= k < |polls| && Lookup(polls[k], item) == Some(response) ==>
      exists t :: 0 <= t < |es| && who[t] == s.caller && Takes(es[t], IdOf(item)) && response == decode(es[t].taken)
  }

  /** The ids of one request are all different, although an id is free again as soon as it is answered. */
  lemma SentDistinct(max: nat, es: Events, who: Labels, s: Sending)
    requires M.ValidRun(max, es) && OnlyOwn(es, who) && Sent(es, who, s)
    ensures Distinct(s.items)
  {
    forall i, j | 0 <= i < j < |s.items| ensures s.items[i] != s.items[j] {
      if s.items[i] == s.items[j] {
        var id, o, again := IdOf(s.items[i]), s.at[i], s.at[j];
        var y := FirstTake(max, es, id, o, again);
        forall x | o < x < y ensures !Opens(es[x], id) {
          if Opens(es[x], id) {
            var z := FirstTake(max, es, id, o, x);
          }
        }
        CollectedBySender(max, es, who, y, o, id);
      }
    }
  }

  /** What this request takes answers its own payload under that item. */
  lemma OwnItem(max: nat, es: Events, who: Labels, s: Sending, i: nat, t: nat)
    requires M.ValidRun(max, es) && OnlyOwn(es, who) && Sent(es, who, s)
    requires i < |s.items| && t < |es| && who[t] == s.caller && Takes(es[t], IdOf(s.items[i]))
    ensures es[t].taken.id == IdOf(s.items[i]) && es[t].taken.request == s.jsons[i] && Answered(es, es[t].taken)
  {
    SentDistinct(max, es, who, s);
    var o := OwnAnswer(max, es, who, t);
    var j :| 0 <= j < |s.at| && s.at[j] == o;
    assert s.items[j] == s.items[i];
  }

  /** The result recorded for a payload is the reply that arrived for its item. */
  lemma {:induction false} AttributedLookup<R>(mapping: Dict<ItemId, PayloadId>, arrivals: seq<(ItemId, R)>, k: nat)
    requires OneToOne(mapping) && ArrivesOnce(mapping, arrivals) && k < |arrivals|
    ensures Lookup(mapping, arrivals[k].0).Some?
    ensures Lookup(Attributed(mapping, arrivals), Lookup(mapping, arrivals[k].0).value)
            == Some(Info(true, [arrivals[k].1]))
    decreases |arrivals|
  {
    hide Keys, Lookup, Unique, Swap, Attributed;
    var init, last := arrivals[..|arrivals| - 1], arrivals[|arrivals| - 1];
    ArrivalsLast(mapping, arrivals);
    var payload := Lookup(mapping, last.0).value;
    var entry := (payload, Info(true, [last.1]));
    AttributedKeys(mapping, init, last.0);
    LookupInKeys(Attributed(mapping, init), payload);
    if k < |init| {
      AttributedLookup(mapping, init, k);
      LookupConcat(Attributed(mapping, init), [entry], Lookup(mapping, init[k].0).value);
    } else {
      LookupConcat(Attributed(mapping, init), [entry], payload);
      SingleLookup(entry, payload);
    }
  }

  lemma SubmittedOneToOne(items: seq<ItemId>, payloads: seq<PayloadId>)
    requires |items| == |payloads| && Distinct(items) && Distinct(payloads)
    ensures OneToOne(Submitted(items, payloads)) && Unique(Submitted(items, payloads))
  {
    DistinctUnique(Submitted(items, payloads));
    DistinctUnique(Swap(Submitted(items, payloads)));
  }

  lemma AllArrived<R>(items: seq<ItemId>, payloads: seq<PayloadId>, arrivals: seq<(ItemId, R)>)
    requires |items| == |payloads| && Distinct(items) && Distinct(payloads)
    requires ArrivesOnce(Submitted(items, payloads), arrivals) && Keys(arrivals) == Keys(Submitted(items, payloads))
    ensures |Attributed(Submitted(items, payloads), arrivals)| == |payloads|
    ensures forall i :: 0 <= i < |items| ==> items[i] in Keys(arrivals)
  {
    hide Keys, Unique, Swap, Attributed, Submitted, Distinct;
    SubmittedKeys(items, payloads);
    SubmittedOneToOne(items, payloads);
    AttributedAll(Submitted(items, payloads), arrivals);
    UniqueCount(arrivals);
    UniqueCount(Submitted(items, payloads));
    forall i | 0 <= i < |items| ensures items[i] in Keys(arrivals) {
      assert items[i] in items;
    }
  }

  /** The result of a payload, if there is one, is the node's answer to this very payload. */
  ghost predicate AnswersOwn<R(!new)>(results: Dict<PayloadId, Info<R>>, s: Sending, payload: PayloadId, i: nat,
                                decode: M.Response -> R)
    requires i < |s.items| && i < |s.jsons|
  {
    match Lookup(results, payload)
    case None => false
    case Some(info) =>
      exists r: M.Response :: r.id == IdOf(s.items[i]) && r.request == s.jsons[i] && info == Info(true, [decode(r)])
  }

  lemma PolledAnswersOwn<R(!new)>(max: nat, es: Events, who: Labels, s: Sending, polls: seq<Dict<ItemId, R>>,
                                  decode: M.Response -> R, arrivals: seq<(ItemId, R)>, k: nat, i: nat)
      returns (r: M.Response)
    requires M.ValidRun(max, es) && OnlyOwn(es, who) && Sent(es, who, s) && Collected(es, who, s, polls, decode)
    requires Polled(polls, arrivals) && k < |arrivals| && i < |s.items| && arrivals[k].0 == s.items[i]
    ensures |s.items| == |s.jsons|
    ensures r.id == IdOf(s.items[i]) && r.request == s.jsons[i] && arrivals[k].1 == decode(r) && Answered(es, r)
  {
    assert |who| == |es| && |s.items| == |s.jsons|;
    hide Lookup, OnlyOwn, Sent, Takes, Answered;
    var poll :| 0 <= poll < |polls| && Lookup(polls[poll], arrivals[k].0) == Some(arrivals[k].1);
    var t :| 0 <= t < |es| && who[t] == s.caller && Takes(es[t], IdOf(s.items[i])) && arrivals[k].1 == decode(es[t].taken);
    OwnItem(max, es, who, s, i, t);
    r := es[t].taken;
  }

  /** Over any run that interleaves any number of requests and loses the connection any number of times:
      whatever has arrived for a request is, under each payload, the node's answer to that payload. */
  lemma ArrivedAnswersOwn<R(!new)>(max: nat, es: Events, who: Labels, s: Sending, payloads: seq<PayloadId>,
                             polls: seq<Dict<ItemId, R>>, decode: M.Response -> R, arrivals: seq<(ItemId, R)>, i: nat)
    requires M.ValidRun(max, es) && OnlyOwn(es, who) && Sent(es, who, s) && Collected(es, who, s, polls, decode)
    requires |payloads| == |s.items| && Distinct(payloads)
    requires ArrivesOnce(Submitted(s.items, payloads), arrivals) && Polled(polls, arrivals)
    requires i < |s.items| && s.items[i] in Keys(arrivals)
    ensures AnswersOwn(Attributed(Submitted(s.items, payloads), arrivals), s, payloads[i], i, decode)
  {
    var mapping := Submitted(s.items, payloads);
    assert mapping[i] == (s.items[i], payloads[i]);
    hide Keys, Lookup, Unique, Swap, Attributed, Submitted, OnlyOwn, Sent, Collected, Polled, Distinct, ArrivesOnce;
    SentDistinct(max, es, who, s);
    SubmittedOneToOne(s.items, payloads);
    LookupUnique(mapping, i);
    var k := IndexOfKey(arrivals, s.items[i]);
    AttributedLookup(mapping, arrivals, k);
    var r := PolledAnswersOwn(max, es, who, s, polls, decode, arrivals, k, i);
  }

  /** A request made over the shared websocket. When it finishes, each payload has exactly one result, and it is
      the node's answer to that payload. */
  method MakeSharedRequest<R(!new)>(ghost max: nat, ghost es: Events, ghost who: Labels, ghost s: Sending,
                              ghost decode: M.Response -> R, payloads: seq<PayloadId>, items: seq<ItemId>,
                              polls: seq<Dict<ItemId, R>>)
      returns (outcome: Outcome<R>)
    requires M.ValidRun(max, es) && OnlyOwn(es, who) && Sent(es, who, s) && Collected(es, who, s, polls, decode)
    requires items == s.items && |items| == |payloads|
    ensures outcome.DuplicateIds? <==> !Distinct(payloads)
    ensures outcome.Finished? ==>
              && |outcome.results| == |payloads|
              && forall i :: 0 <= i < |payloads| ==> AnswersOwn(outcome.results, s, payloads[i], i, decode)
    ensures Distinct(payloads) && NoClash(items, payloads) ==>
              (outcome.Finished? <==> forall i :: 0 <= i < |items| ==> AnsweredInPolls(polls, items[i]))
  {
    assert |s.items| == |s.jsons|;
    hide *;
    SentDistinct(max, es, who, s);
    ghost var arrivals;
    outcome, arrivals := MakeRpcRequest(payloads, items, polls);
    if outcome.Finished? {
      AllArrived(items, payloads, arrivals);
      forall i | 0 <= i < |payloads| ensures AnswersOwn(outcome.results, s, payloads[i], i, decode) {
        ArrivedAnswersOwn(max, es, who, s, payloads, polls, decode, arrivals, i);
      }
    }
  }
}
