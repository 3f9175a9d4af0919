/** What passes through the multiplexer in a run, counted and put in order by the events alone: permits, requests
    on their way to the node, notifications on their way to their callers, and what `retrieve` answers at any point.
 */
module Traffic {
  import opened Dicts
  import opened Multiplexer

  lemma RunStep(max: nat, es: seq<Event>)
    requires ValidRun(max, es) && es != []
    ensures var init, e := es[..|es| - 1], es[|es| - 1];
            && ValidRun(max, init) && Enabled(After(max, init), e)
            && After(max, es) == Next(After(max, init), e)
  {
  }

  /* ---------- Permits ---------- */

  function Acquired(es: seq<Event>): nat {
    if es == [] then 0 else Acquired(es[..|es| - 1]) + if es[|es| - 1].Acquire? then 1 else 0
  }

  function Opened(es: seq<Event>): nat {
    if es == [] then 0 else Opened(es[..|es| - 1]) + if es[|es| - 1].Open? then 1 else 0
  }

  function Collected(es: seq<Event>): nat {
    if es == [] then 0 else Collected(es[..|es| - 1]) + if es[|es| - 1].Take? then 1 else 0
  }

  /** A permit is taken by each caller that passes the semaphore, and given back by each answer collected. */
  lemma {:induction false} PermitsCounted(max: nat, es: seq<Event>)
    requires ValidRun(max, es)
    ensures After(max, es).permits == max - Acquired(es) + Collected(es)
    ensures After(max, es).granted == Acquired(es) - Opened(es)
  {
    hide ValidRun, After;
    if es != [] {
      RunStep(max, es);
      PermitsCounted(max, es[..|es| - 1]);
    } else {
      FirstState(max);
    }
  }

  lemma FirstState(max: nat)
    ensures ValidRun(max, []) && After(max, []) == Init(max)
  {
  }

  /* ---------- Requests on their way ---------- */

  /** The requests queued in a run, in order: those sent by callers, and at each lost connection everything that is
      in flight, in the order of its registration. */
  ghost function Queued(max: nat, es: seq<Event>): seq<Request>
    requires ValidRun(max, es)
    decreases |es|
  {
    if es == [] then []
    else
      var init := es[..|es| - 1];
      Queued(max, init) + match es[|es| - 1]
                          case Open(id, payload) => [(id, payload)]
                          case Lose => After(max, init).inflight
                          case _ => []
  }

  /** The requests that the sender took, in order. */
  ghost function TakenUp(max: nat, es: seq<Event>): seq<Request>
    requires ValidRun(max, es)
    decreases |es|
  {
    if es == [] then []
    else
      var init := es[..|es| - 1];
      RunStep(max, es);
      TakenUp(max, init) + if es[|es| - 1].Dequeue? then [After(max, es).hand.request] else []
  }

  lemma QueueStep(s: State, e: Event)
    requires Enabled(s, e)
    ensures match e
            case Open(id, payload) => Next(s, e).sending == s.sending + [(id, payload)]
            case Lose => Next(s, e).sending == s.sending + s.inflight
            case Dequeue => Next(s, e).hand.Taken? && [Next(s, e).hand.request] + Next(s, e).sending == s.sending
            case _ => Next(s, e).sending == s.sending
  {
  }

  /** First come, first sent: what the sender took and what is queued is, in order, what was queued. */
  lemma {:induction false} SentInOrder(max: nat, es: seq<Event>)
    requires ValidRun(max, es)
    ensures TakenUp(max, es) + After(max, es).sending == Queued(max, es)
    decreases |es|
  {
    if es != [] {
      var init := es[..|es| - 1];
      hide ValidRun, After;
      RunStep(max, es);
      SentInOrder(max, init);
      QueueStep(After(max, init), es[|es| - 1]);
      hide Next, Enabled;
    }
  }

  /** At position `k` the request was written to the connection that is still open at the end, and not answered since. */
  ghost predicate WrittenAt(max: nat, es: seq<Event>, k: nat, q: Request)
    requires k < |es| && ValidRun(max, es[..k])
  {
    && es[k].Transmit? && After(max, es[..k]).hand == Writing(q)
    && forall x :: k < x < |es| ==>
         !es[x].Lose? && !es[x].Reopen? && !(es[x].Reply? && (es[x].response.id, es[x].response.request) == q)
  }

  lemma {:induction false} RunPrefix(max: nat, es: seq<Event>, k: nat)
    requires k <= |es| && ValidRun(max, es)
    ensures ValidRun(max, es[..k])
    decreases |es|
  {
    if k < |es| {
      RunPrefix(max, es[..|es| - 1], k);
      assert es[..|es| - 1][..k] == es[..k];
    } else {
      assert es[..k] == es;
    }
  }

  lemma WireStep(s: State, e: Event, q: Request)
    requires Enabled(s, e)
    ensures q in Next(s, e).wire <==>
              || (e.Transmit? && s.hand == Writing(q))
              || (q in s.wire && !e.Lose? && !e.Reopen? && !(e.Reply? && (e.response.id, e.response.request) == q))
  {
  }

  /** Something was written and is still open after one more event exactly when it was before and the event leaves it,
      or the event writes it. */
  lemma WrittenSnoc(max: nat, es: seq<Event>, q: Request)
    requires ValidRun(max, es) && es != [] && ValidRun(max, es[..|es| - 1])
    ensures var init, e := es[..|es| - 1], es[|es| - 1];
            (exists k :: 0 <= k < |es| && ValidRun(max, es[..k]) && WrittenAt(max, es, k, q)) <==>
              || (e.Transmit? && After(max, init).hand == Writing(q))
              || ((exists k :: 0 <= k < |init| && ValidRun(max, init[..k]) && WrittenAt(max, init, k, q))
                  && !e.Lose? && !e.Reopen? && !(e.Reply? && (e.response.id, e.response.request) == q))
  {
    hide ValidRun, After;
    var init, e := es[..|es| - 1], es[|es| - 1];
    assert forall k :: 0 <= k < |init| ==> init[..k] == es[..k] && init[k] == es[k];
    if k :| 0 <= k < |es| && ValidRun(max, es[..k]) && WrittenAt(max, es, k, q) {
      if k < |init| {
        assert WrittenAt(max, init, k, q);
      }
    }
    if e.Transmit? && After(max, init).hand == Writing(q) {
      assert WrittenAt(max, es, |init|, q);
    }
    if k :| 0 <= k < |init| && ValidRun(max, init[..k]) && WrittenAt(max, init, k, q) {
      if !e.Lose? && !e.Reopen? && !(e.Reply? && (e.response.id, e.response.request) == q) {
        assert WrittenAt(max, es, k, q);
      }
    }
  }

  /** The node holds exactly the requests written over the present connection and not answered. */
  lemma {:induction false} OnTheWireIff(max: nat, es: seq<Event>, q: Request)
    requires ValidRun(max, es)
    ensures q in After(max, es).wire
            <==> exists k :: 0 <= k < |es| && ValidRun(max, es[..k]) && WrittenAt(max, es, k, q)
    decreases |es|
  {
    hide ValidRun, After, Next, Enabled, WrittenAt;
    if es != [] {
      var init := es[..|es| - 1];
      RunStep(max, es);
      OnTheWireIff(max, init, q);
      WireStep(After(max, init), es[|es| - 1], q);
      WrittenSnoc(max, es, q);
    } else {
      FirstState(max);
    }
  }

  /* ---------- Notifications ---------- */

  function Notified(es: seq<Event>, sub: Id): seq<Payload> {
    if es == [] then []
    else
      Notified(es[..|es| - 1], sub) + match es[|es| - 1]
                                      case Notify(s, note) => if s == sub then [note] else []
                                      case _ => []
  }

  function Waiting(s: State, sub: Id): seq<Payload> {
    if sub in s.subscriptions then s.subscriptions[sub] else []
  }

  /** The notifications of a subscription that were collected: what `retrieve` gave out at each collection. */
  ghost function NotesCollected(max: nat, es: seq<Event>, sub: Id): seq<Payload>
    requires ValidRun(max, es)
    decreases |es|
  {
    if es == [] then []
    else
      var init := es[..|es| - 1];
      RunStep(max, es);
      NotesCollected(max, init, sub) + match es[|es| - 1]
                                       case TakeNote(s) => if s == sub then [Waiting(After(max, init), sub)[0]] else []
                                       case _ => []
  }

  lemma WaitingStep(s: State, e: Event, sub: Id)
    requires Enabled(s, e)
    ensures match e
            case Notify(other, note) => Waiting(Next(s, e), sub) == Waiting(s, sub) + (if other == sub then [note] else [])
            case TakeNote(other) =>
              if other == sub then Waiting(s, sub) != [] && [Waiting(s, sub)[0]] + Waiting(Next(s, e), sub) == Waiting(s, sub)
              else Waiting(Next(s, e), sub) == Waiting(s, sub)
            case _ => Waiting(Next(s, e), sub) == Waiting(s, sub)
  {
  }

  /** Notifications of a subscription are collected in the order in which they came, each once, and those of other
      subscriptions do not get in between. */
  lemma {:induction false} NotesInOrder(max: nat, es: seq<Event>, sub: Id)
    requires ValidRun(max, es)
    ensures NotesCollected(max, es, sub) + Waiting(After(max, es), sub) == Notified(es, sub)
    decreases |es|
  {
    if es != [] {
      var init := es[..|es| - 1];
      RunStep(max, es);
      NotesInOrder(max, init, sub);
      hide ValidRun, After;
      var s, e := After(max, init), es[|es| - 1];
      WaitingStep(s, e, sub);
      hide Next, Enabled, Waiting;
    }
  }

  /* ---------- Retrieving at any point of a run ---------- */

  /** What is not concerned stays as it is in the ledger. */
  lemma {:induction false} QuietKeeps(es: seq<Event>, id: Id, m: nat, n: nat)
    requires m <= n <= |es| && ValidLedgerRun(es[..m]) && ValidLedgerRun(es[..n])
    requires forall x :: m <= x < n ==> !Concerns(es[x], id)
    ensures id in LedgerAfter(es[..m]) <==> id in LedgerAfter(es[..n])
    ensures id in LedgerAfter(es[..m]) ==> LedgerAfter(es[..n])[id] == LedgerAfter(es[..m])[id]
    decreases n
  {
    if m < n {
      assert es[..n][..n - 1] == es[..n - 1];
      QuietKeeps(es, id, m, n - 1);
    }
  }

  lemma LedgerStep(es: seq<Event>, k: nat)
    requires ValidLedgerRun(es) && k < |es|
    ensures ValidLedgerRun(es[..k]) && ValidLedgerRun(es[..k + 1]) && LedgerEnabled(LedgerAfter(es[..k]), es[k])
    ensures LedgerAfter(es[..k + 1]) == LedgerNext(LedgerAfter(es[..k]), es[k])
  {
    LedgerRunPrefix(es, k + 1);
    assert es[..k + 1][..k] == es[..k];
    hide LedgerEnabled, LedgerNext;
  }

  /** The events explain an entry of the ledger exactly when it is there. */
  lemma ExplainedIff(es: seq<Event>, id: Id, entry: Entry)
    requires ValidLedgerRun(es)
    ensures id in LedgerAfter(es) && LedgerAfter(es)[id] == entry <==> Explained(es, id, entry, |es|) && Fitting(id, entry)
  {
    hide ValidLedgerRun, LedgerAfter, Explained;
    assert es[..|es|] == es;
    if id in LedgerAfter(es) {
      LedgerExplained(es, |es|, id);
      EntryFitting(es, id);
    }
    if Explained(es, id, entry, |es|) && Fitting(id, entry) {
      match entry {
        case Waiting(payload) => WaitingHolds(es, id, payload);
        case Answered(payload, r) => AnsweredHolds(es, id, payload, r);
      }
    }
  }

  lemma WaitingHolds(es: seq<Event>, id: Id, payload: Payload)
    requires ValidLedgerRun(es) && Explained(es, id, Entry.Waiting(payload), |es|)
    ensures id in LedgerAfter(es) && LedgerAfter(es)[id] == Entry.Waiting(payload)
  {
    hide ValidLedgerRun, LedgerAfter;
    var i :| 0 <= i < |es| && es[i] == Open(id, payload) && Quiet(es, id, i, |es|, i);
    LedgerStep(es, i);
    assert es[..|es|] == es;
    QuietKeeps(es, id, i + 1, |es|);
  }

  lemma AnsweredHolds(es: seq<Event>, id: Id, payload: Payload, r: Response)
    requires ValidLedgerRun(es) && Explained(es, id, Answered(payload, r), |es|) && payload == r.request
    ensures id in LedgerAfter(es) && LedgerAfter(es)[id] == Answered(payload, r)
  {
    hide ValidLedgerRun, LedgerAfter;
    ExplainedAnswer(es, id, r, |es|);
    var i, j :| 0 <= i < j < |es| && es[i] == Open(id, r.request) && es[j] == Reply(r) && Quiet(es, id, i, |es|, j);
    LedgerStep(es, j);
    assert es[..|es|] == es;
    QuietKeeps(es, id, j + 1, |es|);
  }

  /** An answer stands under its own id, beside the payload it answers. */
  predicate Fitting(id: Id, entry: Entry) {
    entry.Answered? ==> entry.response.id == id && entry.response.request == entry.payload
  }

  lemma {:induction false} EntryFitting(es: seq<Event>, id: Id)
    requires ValidLedgerRun(es) && id in LedgerAfter(es)
    ensures Fitting(id, LedgerAfter(es)[id])
    decreases |es|
  {
    if es != [] {
      var init := es[..|es| - 1];
      if id in LedgerAfter(init) {
        EntryFitting(init, id);
      }
    }
  }

  /** The last send under the id has been answered by `r`, and nobody has collected the answer. */
  ghost predicate AnswerOutstanding(es: seq<Event>, id: Id, r: Response) {
    exists i, j ::
      && 0 <= i < j < |es| && es[i] == Open(id, r.request) && es[j] == Reply(r) && r.id == id
      && forall x :: i < x < |es| && x != j ==> !Concerns(es[x], id)
  }

  /** The last send under the id has not been answered. */
  ghost predicate SendOutstanding(es: seq<Event>, id: Id) {
    exists i :: 0 <= i < |es| && es[i].Open? && es[i].id == id && forall x :: i < x < |es| ==> !Concerns(es[x], id)
  }

  /** At any point of any run, `retrieve` gives a caller `r` exactly when the node has answered the last request
      under the id by `r` and nobody has collected it; it gives nothing for a request that has not been answered; and
      it never raises. */
  lemma RetrieveAnswersIff(max: nat, es: seq<Event>, id: Id, r: Response)
    requires ValidRun(max, es)
    ensures Retrieve(After(max, es), id).0 == Item(r) <==> AnswerOutstanding(es, id, r)
    ensures SendOutstanding(es, id) ==> Retrieve(After(max, es), id).0 == Nothing
    ensures Retrieve(After(max, es), id).0 != Raised
  {
    RunRefines(max, es);
    var s, l := After(max, es), LedgerAfter(es);
    RetrieveIff(s, id);
    hide *;
    FutureIsEntry(s, l, max, id, r);
    ExplainedIff(es, id, Answered(r.request, r));
    AnsweredIffOutstanding(es, id, r);
    if SendOutstanding(es, id) {
      var payload := WaitingIsOutstanding(es, id);
      ExplainedIff(es, id, Entry.Waiting(payload));
      PendingIsWaiting(s, l, max, id);
    }
  }

  lemma FutureIsEntry(s: State, l: Ledger, max: nat, id: Id, r: Response)
    requires Sound(s, max) && Represents(s, l)
    ensures id in s.received && s.received[id] == Done(r) <==> id in l && l[id] == Answered(r.request, r) && r.id == id
    ensures !(id in s.received && s.received[id] == Failed)
  {
    hide Placed, OnTheWire, AllCarried, Accounted;
  }

  lemma PendingIsWaiting(s: State, l: Ledger, max: nat, id: Id)
    requires Sound(s, max) && Represents(s, l) && id in l && l[id].Waiting?
    ensures id in s.received && s.received[id] == Pending
  {
    hide Placed, OnTheWire, AllCarried, Accounted;
  }

  lemma AnsweredIffOutstanding(es: seq<Event>, id: Id, r: Response)
    ensures Explained(es, id, Answered(r.request, r), |es|) && Fitting(id, Answered(r.request, r)) <==> AnswerOutstanding(es, id, r)
  {
    hide Concerns;
    if Explained(es, id, Answered(r.request, r), |es|) {
      ExplainedAnswer(es, id, r, |es|);
      var i, j :| 0 <= i < j < |es| && es[i] == Open(id, r.request) && es[j] == Reply(r) && Quiet(es, id, i, |es|, j);
    }
    if AnswerOutstanding(es, id, r) {
      var i, j :| 0 <= i < j < |es| && es[i] == Open(id, r.request) && es[j] == Reply(r) && r.id == id
                  && forall x :: i < x < |es| && x != j ==> !Concerns(es[x], id);
      assert Quiet(es, id, i, |es|, j);
    }
  }

  lemma WaitingIsOutstanding(es: seq<Event>, id: Id) returns (payload: Payload)
    requires SendOutstanding(es, id)
    ensures Explained(es, id, Entry.Waiting(payload), |es|) && Fitting(id, Entry.Waiting(payload))
  {
    hide Concerns;
    var i :| 0 <= i < |es| && es[i].Open? && es[i].id == id && forall x :: i < x < |es| ==> !Concerns(es[x], id);
    payload := es[i].payload;
    assert Quiet(es, id, i, |es|, i);
  }
}
