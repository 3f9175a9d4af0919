/** One websocket shared by many callers: a send queue, an in-flight table, futures by request id, a
    set of reserved ids and a semaphore, with reconnection. The atomic steps are the stretches between
    two suspension points of the coroutines; a run is any interleaving of them.
 */
module Multiplexer {
  import opened Dicts

  datatype Id = Id(text: string)
  datatype Payload = Payload(json: string)
  type Request = (Id, Payload)

  /** A reply of the node. `request` records which payload the node was answering. */
  datatype Response = Response(id: Id, request: Payload, result: Payload)

  datatype Future = Pending | Done(response: Response) | Failed

  /** What the sending coroutine holds: an item taken off the queue but not yet registered, or one
      registered in flight and being written to the socket. */
  datatype Hand = Idle | Taken(request: Request) | Writing(request: Request)

  datatype State = State(
    permits: nat,                 // free permits of the semaphore
    granted: nat,                 // callers past `acquire` that have not drawn an id yet
    inUse: set<Id>,
    received: map<Id, Future>,
    sending: Dict<Id, Payload>,   // the queue, head first
    hand: Hand,
    inflight: Dict<Id, Payload>,
    wire: set<Request>,           // what the node got over the current connection and did not answer
    subscriptions: map<Id, seq<Payload>>)

  function Init(max: nat): State {
    State(max, 0, {}, map[], [], Idle, [], {}, map[])
  }

  datatype Event =
    | Acquire
    | Open(id: Id, payload: Payload)
    | Dequeue
    | Register
    | Transmit
    | Reply(response: Response)
    | Lose
    | Reopen
    | Take(id: Id, taken: Response)
    | Notify(subscription: Id, note: Payload)
    | TakeNote(subscription: Id)

  /* ---------- Steps ---------- */

  /** What the code itself waits for or checks before a step. */
  predicate Enabled(s: State, e: Event) {
    match e
    case Acquire => s.permits > 0
    case Open(id, _) => s.granted > 0 && id !in s.inUse
    case Dequeue => s.hand.Idle? && s.sending != []
    case Register => s.hand.Taken?
    case Transmit => s.hand.Writing?
    case Reply(_) => true
    case Lose => s.subscriptions == map[]
    case Reopen => true
    case Take(id, r) => id in s.received && s.received[id] == Done(r)
    case Notify(_, _) => true
    case TakeNote(sub) => sub in s.subscriptions && s.subscriptions[sub] != []
  }

  /** Completing a future twice raises, and every unfinished future is failed. */
  predicate CompletedAlready(s: State, id: Id) {
    id in s.received && !s.received[id].Pending?
  }

  function FailPending(received: map<Id, Future>): map<Id, Future> {
    map id | id in received :: if received[id].Pending? then Failed else received[id]
  }

  function Receive(s: State, r: Response): State {
    var popped := s.(inflight := Without(s.inflight, r.id), wire := s.wire - {(r.id, r.request)});
    if CompletedAlready(s, r.id) then popped.(received := FailPending(s.received))
    else popped.(
      received := if r.id in s.received then s.received[r.id := Done(r)] else s.received,
      inUse := s.inUse - {r.id})
  }

  function Refreshed(received: map<Id, Future>, ids: set<Id>): map<Id, Future> {
    map id | id in received.Keys + ids :: if id in ids then Pending else received[id]
  }

  /** The handler's reconnection: everything in flight goes back to the queue with a new future. An item
      that the sender has taken but not registered is gone with the cancelled sender. */
  function Reconnect(s: State): State {
    s.(received := Refreshed(s.received, Keys(s.inflight)),
       sending := s.sending + s.inflight,
       inflight := [],
       hand := Idle,
       wire := {})
  }

  /** A caller that finds the connection closed opens another one: sender and receiver are cancelled and started
      anew, and what is in flight stays where it is. Open subscriptions do not matter. */
  function Reopened(s: State): State {
    s.(hand := Idle, wire := {})
  }

  function Next(s: State, e: Event): State
    requires Enabled(s, e)
  {
    match e
    case Acquire => s.(permits := s.permits - 1, granted := s.granted + 1)
    case Open(id, payload) =>
      s.(granted := s.granted - 1,
         inUse := s.inUse + {id},
         received := s.received[id := Pending],
         sending := s.sending + [(id, payload)])
    case Dequeue => s.(hand := Taken(s.sending[0]), sending := s.sending[1..])
    case Register =>
      s.(hand := Writing(s.hand.request), inflight := Put(s.inflight, s.hand.request.0, s.hand.request.1))
    case Transmit => s.(hand := Idle, wire := s.wire + {s.hand.request})
    case Reply(r) => Receive(s, r)
    case Lose => Reconnect(s)
    case Reopen => Reopened(s)
    case Take(id, _) => s.(permits := s.permits + 1, received := s.received - {id})
    case Notify(sub, note) =>
      var queue := if sub in s.subscriptions then s.subscriptions[sub] else [];
      s.(subscriptions := s.subscriptions[sub := queue + [note]])
    case TakeNote(sub) => s.(subscriptions := s.subscriptions[sub := s.subscriptions[sub][1..]])
  }

  /** What the environment is trusted with: ids are not drawn while an old answer under that id is still
      to be collected, the node answers what it was asked over this connection and at most once, and the
      sender is not cancelled between taking an item and registering it. */
  predicate Trusted(s: State, e: Event) {
    match e
    case Open(id, _) => id !in s.received
    case Reply(r) => (r.id, r.request) in s.wire
    case Lose => !s.hand.Taken?
    case Reopen => !s.hand.Taken?
    case _ => true
  }

  /* ---------- Invariant ---------- */

  function Held(hand: Hand): set<Id> {
    if hand.Taken? then {hand.request.0} else {}
  }

  /** Each reserved id is in exactly one of the queue, the sender's hand and the in-flight table, exactly
      once, and nothing else is there. */
  ghost predicate Placed(sending: Dict<Id, Payload>, inflight: Dict<Id, Payload>, held: set<Id>, inUse: set<Id>) {
    && Unique(sending)
    && Unique(inflight)
    && Keys(sending) !! Keys(inflight)
    && Keys(sending) !! held
    && Keys(inflight) !! held
    && inUse == Keys(sending) + Keys(inflight) + held
  }

  ghost predicate OnTheWire(inflight: Dict<Id, Payload>, hand: Hand, wire: set<Request>) {
    && (forall q :: q in wire ==> q in inflight)
    && (hand.Writing? ==> hand.request in inflight && hand.request !in wire)
  }

  /** The reserved ids are exactly those with an unfinished future. */
  ghost predicate Futures(received: map<Id, Future>, inUse: set<Id>) {
    && inUse == (set id | id in received && received[id].Pending?)
    && (forall id :: id in received ==> !received[id].Failed?)
  }

  ghost predicate Accounted(s: State, max: nat) {
    s.permits + s.granted + |s.received| == max
  }

  ghost predicate Sound(s: State, max: nat) {
    && Placed(s.sending, s.inflight, Held(s.hand), s.inUse)
    && OnTheWire(s.inflight, s.hand, s.wire)
    && Futures(s.received, s.inUse)
    && Accounted(s, max)
  }

  /* ---------- The simple specification ---------- */

  datatype Entry = Waiting(payload: Payload) | Answered(payload: Payload, response: Response)

  /** One answer per id: ids not in the ledger are free or already collected. */
  type Ledger = map<Id, Entry>

  predicate LedgerEnabled(l: Ledger, e: Event) {
    match e
    case Open(id, _) => id !in l
    case Reply(r) => r.id in l && l[r.id] == Waiting(r.request)
    case Take(id, r) => id in l && l[id] == Answered(r.request, r)
    case _ => true
  }

  /** Queueing, sending and reconnecting do not exist here. */
  function LedgerNext(l: Ledger, e: Event): Ledger {
    match e
    case Open(id, payload) => l[id := Waiting(payload)]
    case Reply(r) => l[r.id := Answered(r.request, r)]
    case Take(id, _) => l - {id}
    case _ => l
  }

  predicate Agrees(f: Future, e: Entry, id: Id) {
    match f
    case Pending => e.Waiting?
    case Done(r) => e == Answered(r.request, r) && r.id == id
    case Failed => false
  }

  ghost predicate FuturesAgree(received: map<Id, Future>, l: Ledger) {
    && l.Keys == received.Keys
    && (forall id :: id in l ==> Agrees(received[id], l[id], id))
  }

  /** A queued request is the one its caller is waiting on, payload included. */
  predicate Carries(l: Ledger, q: Request) {
    q.0 in l && l[q.0] == Waiting(q.1)
  }

  ghost predicate AllCarried(l: Ledger, d: Dict<Id, Payload>) {
    forall q :: q in d ==> Carries(l, q)
  }

  /** The ledger a state of the multiplexer stands for: its futures, and the payloads on their way. */
  ghost predicate Represents(s: State, l: Ledger) {
    && FuturesAgree(s.received, l)
    && AllCarried(l, s.sending)
    && AllCarried(l, s.inflight)
    && (s.hand.Taken? ==> Carries(l, s.hand.request))
  }

  /* ---------- One step ---------- */

  lemma OpenPlaced(s: State, id: Id, payload: Payload)
    requires Placed(s.sending, s.inflight, Held(s.hand), s.inUse) && id !in s.inUse
    ensures Placed(s.sending + [(id, payload)], s.inflight, Held(s.hand), s.inUse + {id})
  {
    hide Keys, Unique;
    UniqueConcat(s.sending, [(id, payload)]);
    KeysConcat(s.sending, [(id, payload)]);
    SingleKey((id, payload));
  }

  lemma OpenRepresents(s: State, l: Ledger, id: Id, payload: Payload)
    requires Represents(s, l) && id !in s.received && s.granted > 0 && id !in s.inUse
    ensures Represents(Next(s, Open(id, payload)), l[id := Waiting(payload)])
  {
  }

  lemma OpenFutures(s: State, id: Id)
    requires Futures(s.received, s.inUse) && id !in s.inUse
    ensures Futures(s.received[id := Pending], s.inUse + {id})
    ensures |s.received[id := Pending]| == if id in s.received then |s.received| else |s.received| + 1
  {
    AddedCount(s.received, id, Pending);
  }

  lemma AddedCount<K, V>(d: map<K, V>, key: K, value: V)
    ensures |d[key := value]| == if key in d then |d| else |d| + 1
  {
    assert d[key := value].Keys == d.Keys + {key};
    if key in d {
      assert d[key := value].Keys == d.Keys;
    }
  }

  lemma OpenStep(s: State, l: Ledger, max: nat, id: Id, payload: Payload)
    requires Sound(s, max) && Represents(s, l)
    requires Enabled(s, Open(id, payload)) && id !in s.received
    ensures Sound(Next(s, Open(id, payload)), max)
    ensures Represents(Next(s, Open(id, payload)), l[id := Waiting(payload)])
  {
    OpenPlaced(s, id, payload);
    OpenFutures(s, id);
    OpenRepresents(s, l, id, payload);
    hide Placed, OnTheWire, Futures, Represents;
  }

  lemma DequeuePlaced(s: State, head: Request, rest: Dict<Id, Payload>)
    requires Placed([head] + rest, s.inflight, {}, s.inUse)
    ensures Placed(rest, s.inflight, {head.0}, s.inUse)
  {
    hide Keys, Unique;
    UniqueConcat([head], rest);
    KeysConcat([head], rest);
    SingleKey(head);
  }

  lemma CarriedSplit(l: Ledger, head: Request, rest: Dict<Id, Payload>)
    requires AllCarried(l, [head] + rest)
    ensures Carries(l, head) && AllCarried(l, rest)
  {
    assert head in [head] + rest;
    assert forall q :: q in rest ==> q in [head] + rest;
  }

  lemma DequeueRest(s: State, l: Ledger, max: nat, head: Request, rest: Dict<Id, Payload>)
    requires Sound(s, max) && Represents(s, l) && s.hand.Idle? && s.sending == [head] + rest
    ensures Sound(s.(hand := Taken(head), sending := rest), max)
    ensures Represents(s.(hand := Taken(head), sending := rest), l)
  {
    DequeuePlaced(s, head, rest);
    CarriedSplit(l, head, rest);
    hide Placed, Futures, FuturesAgree, AllCarried, Carries, Keys, Unique;
  }

  lemma DequeueStep(s: State, l: Ledger, max: nat)
    requires Sound(s, max) && Represents(s, l) && Enabled(s, Dequeue)
    ensures Sound(Next(s, Dequeue), max) && Represents(Next(s, Dequeue), l)
  {
    hide Sound, Represents;
    var head, rest := s.sending[0], s.sending[1..];
    assert s.sending == [head] + rest;
    DequeueRest(s, l, max, head, rest);
  }

  lemma RegisterPlaced(s: State, q: Request)
    requires Placed(s.sending, s.inflight, {q.0}, s.inUse)
    ensures Put(s.inflight, q.0, q.1) == s.inflight + [q]
    ensures Placed(s.sending, s.inflight + [q], {}, s.inUse)
  {
    hide Keys, Unique, Put;
    PutKeys(s.inflight, q.0, q.1);
    PutAbsent(s.inflight, q.0, q.1);
  }

  lemma RegisterOnTheWire(s: State, q: Request)
    requires OnTheWire(s.inflight, s.hand, s.wire) && q.0 !in Keys(s.inflight)
    ensures OnTheWire(s.inflight + [q], Writing(q), s.wire)
  {
    hide Keys;
    forall other | other in s.wire ensures other != q {
      MemberKey(s.inflight, other);
    }
  }

  lemma RegisterStep(s: State, l: Ledger, max: nat)
    requires Sound(s, max) && Represents(s, l) && Enabled(s, Register)
    ensures Sound(Next(s, Register), max) && Represents(Next(s, Register), l)
  {
    var q := s.hand.request;
    RegisterPlaced(s, q);
    RegisterOnTheWire(s, q);
    hide Placed, OnTheWire, Futures, FuturesAgree;
  }

  lemma ReplyPlaced(s: State, r: Response)
    requires Placed(s.sending, s.inflight, Held(s.hand), s.inUse) && (r.id, r.request) in s.inflight
    ensures r.id in s.inUse
    ensures forall q :: q in s.sending ==> q.0 != r.id
    ensures s.hand.Taken? ==> s.hand.request.0 != r.id
    ensures Placed(s.sending, Without(s.inflight, r.id), Held(s.hand), s.inUse - {r.id})
  {
    hide Keys, Unique, Without;
    MemberKey(s.inflight, (r.id, r.request));
    WithoutUnique(s.inflight, r.id);
    WithoutMembers(s.inflight, r.id);
    forall q | q in s.sending ensures q.0 != r.id {
      MemberKey(s.sending, q);
    }
  }

  lemma ReplyOnTheWire(s: State, r: Response)
    requires OnTheWire(s.inflight, s.hand, s.wire) && Unique(s.inflight) && (r.id, r.request) in s.wire
    ensures OnTheWire(Without(s.inflight, r.id), s.hand, s.wire - {(r.id, r.request)})
  {
    hide Keys, Unique, Without;
    forall q | q in s.inflight && q != (r.id, r.request) ensures q in Without(s.inflight, r.id) {
      if q.0 == r.id {
        UniqueMember(s.inflight, q, (r.id, r.request));
        assert false;
      }
      WithoutKeeps(s.inflight, r.id, q);
    }
  }

  lemma ReplyCarried(l: Ledger, d: Dict<Id, Payload>, r: Response)
    requires AllCarried(l, d)
    ensures AllCarried(l[r.id := Answered(r.request, r)], Without(d, r.id))
    ensures (forall q :: q in d ==> q.0 != r.id) ==> AllCarried(l[r.id := Answered(r.request, r)], d)
  {
    hide Keys, Unique, Without;
    WithoutMembers(d, r.id);
  }

  lemma ReplyFutures(s: State, l: Ledger, r: Response)
    requires Futures(s.received, s.inUse) && FuturesAgree(s.received, l) && r.id in s.inUse
    ensures !CompletedAlready(s, r.id)
    ensures Futures(s.received[r.id := Done(r)], s.inUse - {r.id})
    ensures FuturesAgree(s.received[r.id := Done(r)], l[r.id := Answered(r.request, r)])
    ensures |s.received[r.id := Done(r)]| == |s.received|
  {
    assert s.received[r.id := Done(r)].Keys == s.received.Keys;
  }

  lemma ReplyStep(s: State, l: Ledger, max: nat, r: Response)
    requires Sound(s, max) && Represents(s, l) && (r.id, r.request) in s.wire
    ensures LedgerEnabled(l, Reply(r))
    ensures !CompletedAlready(s, r.id)
    ensures Sound(Receive(s, r), max)
    ensures Represents(Receive(s, r), LedgerNext(l, Reply(r)))
  {
    ReplyPlaced(s, r);
    ReplyOnTheWire(s, r);
    ReplyFutures(s, l, r);
    ReplyCarried(l, s.sending, r);
    ReplyCarried(l, s.inflight, r);
    assert Carries(l, (r.id, r.request));
    hide Placed, OnTheWire, Futures, FuturesAgree, AllCarried, Without;
  }

  lemma ReconnectPlaced(s: State)
    requires Placed(s.sending, s.inflight, {}, s.inUse)
    ensures Placed(s.sending + s.inflight, [], {}, s.inUse)
  {
    UniqueConcat(s.sending, s.inflight);
    KeysConcat(s.sending, s.inflight);
  }

  /** Replacing the futures of everything in flight replaces unfinished futures by unfinished futures. */
  lemma ReconnectFutures(s: State)
    requires Placed(s.sending, s.inflight, Held(s.hand), s.inUse) && Futures(s.received, s.inUse)
    ensures Reconnect(s).received == s.received
  {
    hide Keys, Unique;
    forall id | id in Keys(s.inflight) ensures id in s.received && s.received[id].Pending? {
      assert id in s.inUse;
    }
  }

  lemma LoseStep(s: State, l: Ledger, max: nat)
    requires Sound(s, max) && Represents(s, l) && !s.hand.Taken?
    ensures Sound(Reconnect(s), max) && Represents(Reconnect(s), l)
  {
    hide Placed, Futures, FuturesAgree, AllCarried, Carries, Keys, Refreshed;
    ReconnectPlaced(s);
    ReconnectFutures(s);
    CarriedConcat(l, s.sending, s.inflight);
  }

  lemma ReopenStep(s: State, l: Ledger, max: nat)
    requires Sound(s, max) && Represents(s, l) && !s.hand.Taken?
    ensures Sound(Reopened(s), max) && Represents(Reopened(s), l)
  {
    hide Placed, Futures, FuturesAgree, AllCarried, Carries, Keys;
  }

  lemma CarriedConcat(l: Ledger, a: Dict<Id, Payload>, b: Dict<Id, Payload>)
    requires AllCarried(l, a) && AllCarried(l, b)
    ensures AllCarried(l, a + b) && AllCarried(l, [])
  {
  }

  lemma TakeFutures(s: State, l: Ledger, id: Id, r: Response)
    requires Futures(s.received, s.inUse) && FuturesAgree(s.received, l)
    requires id in s.received && s.received[id] == Done(r)
    ensures id in l && l[id] == Answered(r.request, r)
    ensures Futures(s.received - {id}, s.inUse)
    ensures FuturesAgree(s.received - {id}, l - {id})
    ensures |s.received - {id}| == |s.received| - 1
  {
    assert (s.received - {id}).Keys == s.received.Keys - {id};
    assert |(s.received - {id}).Keys| == |s.received.Keys| - 1;
  }

  lemma TakeCarried(l: Ledger, d: Dict<Id, Payload>, id: Id)
    requires AllCarried(l, d) && id in l && l[id].Answered?
    ensures AllCarried(l - {id}, d)
  {
    forall q | q in d ensures Carries(l - {id}, q) {
      assert Carries(l, q);
    }
  }

  lemma TakeStep(s: State, l: Ledger, max: nat, id: Id, r: Response)
    requires Sound(s, max) && Represents(s, l) && Enabled(s, Take(id, r))
    ensures LedgerEnabled(l, Take(id, r))
    ensures Sound(Next(s, Take(id, r)), max)
    ensures Represents(Next(s, Take(id, r)), l - {id})
  {
    hide Placed, OnTheWire, Futures, FuturesAgree, AllCarried;
    TakeFutures(s, l, id, r);
    TakeCarried(l, s.sending, id);
    TakeCarried(l, s.inflight, id);
  }

  /** Steps that touch neither the futures nor the places. */
  lemma QuietStep(s: State, l: Ledger, max: nat, e: Event)
    requires Sound(s, max) && Represents(s, l) && Enabled(s, e)
    requires e.Acquire? || e.Transmit? || e.Notify? || e.TakeNote?
    ensures Sound(Next(s, e), max) && Represents(Next(s, e), l)
  {
    hide Placed, Futures, FuturesAgree, AllCarried;
  }

  /** Every step of the multiplexer keeps the invariant and is a step of the ledger, or no step of it. */
  lemma StepRefines(s: State, l: Ledger, max: nat, e: Event)
    requires Sound(s, max) && Represents(s, l)
    requires Enabled(s, e) && Trusted(s, e)
    ensures LedgerEnabled(l, e)
    ensures Sound(Next(s, e), max)
    ensures Represents(Next(s, e), LedgerNext(l, e))
  {
    match e {
      case Acquire => QuietStep(s, l, max, e);
      case Open(id, payload) => OpenStep(s, l, max, id, payload);
      case Dequeue => DequeueStep(s, l, max);
      case Register => RegisterStep(s, l, max);
      case Transmit => QuietStep(s, l, max, e);
      case Reply(r) => ReplyStep(s, l, max, r);
      case Lose => LoseStep(s, l, max);
      case Reopen => ReopenStep(s, l, max);
      case Take(id, r) => TakeStep(s, l, max, id, r);
      case Notify(_, _) => QuietStep(s, l, max, e);
      case TakeNote(_) => QuietStep(s, l, max, e);
    }
  }

  /* ---------- Runs ---------- */

  ghost predicate ValidRun(max: nat, es: seq<Event>)
    decreases |es|, 0
  {
    es == [] ||
    (var init, last := es[..|es| - 1], es[|es| - 1];
     ValidRun(max, init) && Enabled(After(max, init), last) && Trusted(After(max, init), last))
  }

  ghost function After(max: nat, es: seq<Event>): State
    requires ValidRun(max, es)
    decreases |es|, 1
  {
    if es == [] then Init(max) else Next(After(max, es[..|es| - 1]), es[|es| - 1])
  }

  ghost predicate ValidLedgerRun(es: seq<Event>)
    decreases |es|, 0
  {
    es == [] ||
    (ValidLedgerRun(es[..|es| - 1]) && LedgerEnabled(LedgerAfter(es[..|es| - 1]), es[|es| - 1]))
  }

  ghost function LedgerAfter(es: seq<Event>): Ledger
    requires ValidLedgerRun(es)
    decreases |es|, 1
  {
    if es == [] then map[] else LedgerNext(LedgerAfter(es[..|es| - 1]), es[|es| - 1])
  }

  /** Refinement: seen through its calls, every run, with any number of reconnections, is a run of the
      ledger, and its state stays sound. */
  lemma {:induction false} RunRefines(max: nat, es: seq<Event>)
    requires ValidRun(max, es)
    ensures ValidLedgerRun(es)
    ensures Sound(After(max, es), max)
    ensures Represents(After(max, es), LedgerAfter(es))
  {
    if es != [] {
      var init := es[..|es| - 1];
      RunRefines(max, init);
      StepRefines(After(max, init), LedgerAfter(init), max, es[|es| - 1]);
    }
  }

  predicate Concerns(e: Event, id: Id) {
    match e
    case Open(i, _) => i == id
    case Reply(r) => r.id == id
    case Take(i, _) => i == id
    case _ => false
  }

  /** Between positions `from` and `to` nothing concerns `id`, except position `skip`. */
  ghost predicate Quiet(es: seq<Event>, id: Id, from: nat, to: nat, skip: nat) {
    forall x :: from < x < to && x < |es| && x != skip ==> !Concerns(es[x], id)
  }

  /** The last `Open` of an id, and its answer if there is one, with nothing about the id in between. */
  ghost predicate Explained(es: seq<Event>, id: Id, entry: Entry, n: nat)
    requires n <= |es|
  {
    exists i ::
      && 0 <= i < n
      && es[i] == Open(id, entry.payload)
      && match entry
         case Waiting(_) => Quiet(es, id, i, n, i)
         case Answered(_, r) => exists j :: i < j < n && es[j] == Reply(r) && r.id == id && Quiet(es, id, i, n, j)
  }

  lemma {:induction false} LedgerExplained(es: seq<Event>, n: nat, id: Id)
    requires n <= |es| && ValidLedgerRun(es[..n])
    requires id in LedgerAfter(es[..n])
    ensures Explained(es, id, LedgerAfter(es[..n])[id], n)
  {
    if n > 0 {
      assert es[..n][..n - 1] == es[..n - 1];
      var before, e := LedgerAfter(es[..n - 1]), es[n - 1];
      if id in before {
        LedgerExplained(es, n - 1, id);
        if Concerns(e, id) {
          // only the reply can concern an id in the ledger and leave it there
          assert e.Reply? && before[id] == Waiting(e.response.request);
          var i :| 0 <= i < n - 1 && es[i] == Open(id, e.response.request) && Quiet(es, id, i, n - 1, i);
          assert es[n - 1] == Reply(e.response) && Quiet(es, id, i, n, n - 1);
        } else {
          StillExplained(es, id, before[id], n - 1);
        }
      } else {
        assert es[n - 1] == Open(id, e.payload) && Quiet(es, id, n - 1, n, n - 1);
      }
    }
  }

  lemma StillExplained(es: seq<Event>, id: Id, entry: Entry, n: nat)
    requires n < |es| && Explained(es, id, entry, n) && !Concerns(es[n], id)
    ensures Explained(es, id, entry, n + 1)
  {
    match entry {
      case Waiting(p) =>
        var i :| 0 <= i < n && es[i] == Open(id, p) && Quiet(es, id, i, n, i);
        assert Quiet(es, id, i, n + 1, i);
      case Answered(p, r) =>
        var i :| 0 <= i < n && es[i] == Open(id, p)
                 && exists j :: i < j < n && es[j] == Reply(r) && r.id == id && Quiet(es, id, i, n, j);
        var j :| i < j < n && es[j] == Reply(r) && r.id == id && Quiet(es, id, i, n, j);
        assert Quiet(es, id, i, n + 1, j);
    }
  }

  lemma TakenIsAnswered(es: seq<Event>, k: nat)
    requires ValidLedgerRun(es) && k < |es| && es[k].Take?
    ensures ValidLedgerRun(es[..k])
    ensures var l := LedgerAfter(es[..k]); es[k].id in l && l[es[k].id] == Answered(es[k].taken.request, es[k].taken)
  {
    LedgerRunPrefix(es, k + 1);
    assert es[..k + 1][..k] == es[..k];
    hide LedgerAfter, LedgerNext;
  }

  lemma ExplainedAnswer(es: seq<Event>, id: Id, r: Response, k: nat)
    requires k <= |es| && Explained(es, id, Answered(r.request, r), k)
    ensures r.id == id
    ensures exists i, j :: 0 <= i < j < k && es[i] == Open(id, r.request) && es[j] == Reply(r) && Quiet(es, id, i, k, j)
  {
    hide Quiet;
    var i :| 0 <= i < k && es[i] == Open(id, r.request)
             && exists j :: i < j < k && es[j] == Reply(r) && r.id == id && Quiet(es, id, i, k, j);
    var j :| i < j < k && es[j] == Reply(r) && r.id == id && Quiet(es, id, i, k, j);
  }

  /** Whatever a caller collects is the one answer, under its own id, to the very payload it sent under
      that id, and nobody collected or answered that call before: however the connection was lost. */
  lemma EachCallerTakesItsOwnAnswer(max: nat, es: seq<Event>, k: nat)
    requires ValidRun(max, es) && k < |es| && es[k].Take?
    ensures es[k].taken.id == es[k].id
    ensures exists i, j ::
              && 0 <= i < j < k
              && es[i] == Open(es[k].id, es[k].taken.request)
              && es[j] == Reply(es[k].taken)
              && Quiet(es, es[k].id, i, k, j)
  {
    hide *;
    RunRefines(max, es);
    TakenIsAnswered(es, k);
    var id := es[k].id;
    LedgerExplained(es, k, id);
    ExplainedAnswer(es, id, es[k].taken, k);
  }

  lemma {:induction false} LedgerRunPrefix(es: seq<Event>, n: nat)
    requires n <= |es| && ValidLedgerRun(es)
    ensures ValidLedgerRun(es[..n])
    decreases |es|
  {
    if n < |es| {
      LedgerRunPrefix(es[..|es| - 1], n);
      assert es[..|es| - 1][..n] == es[..n];
    } else {
      assert es[..n] == es;
    }
  }

  /** No request is lost or duplicated: at every point of every run an unanswered call's id, with its own
      payload, is in exactly one of the three places, exactly once, and under no other payload. */
  lemma UnansweredIsInOnePlace(max: nat, es: seq<Event>, id: Id, q: Request)
    requires ValidRun(max, es) && ValidLedgerRun(es)
    requires id in LedgerAfter(es) && LedgerAfter(es)[id].Waiting? && q.0 == id
    ensures var s := After(max, es);
            multiset(s.sending)[q] + multiset(s.inflight)[q] + (if s.hand == Taken(q) then 1 else 0)
            == if q.1 == LedgerAfter(es)[id].payload then 1 else 0
  {
    hide Keys, Unique;
    RunRefines(max, es);
    var s, l := After(max, es), LedgerAfter(es);
    assert id in s.inUse;
    OccursOnce(s.sending, id, l);
    OccursOnce(s.inflight, id, l);
  }

  lemma {:induction false} OccursOnce(d: Dict<Id, Payload>, id: Id, l: Ledger)
    requires Unique(d) && id in l && l[id].Waiting?
    requires AllCarried(l, d)
    ensures forall q: Request :: q.0 == id ==>
              multiset(d)[q] == if id in Keys(d) && q.1 == l[id].payload then 1 else 0
  {
    if d == [] {
    } else {
      assert d == [d[0]] + d[1..];
      assert Carries(l, d[0]);
      OccursOnce(d[1..], id, l);
    }
  }

  /* ---------- What is in flight when a caller opens the connection anew ---------- */

  /** In flight, but not with the node, nor on its way to it. */
  ghost predicate Stranded(s: State, q: Request) {
    q in s.inflight && q !in s.wire && s.hand != Writing(q)
  }

  lemma StrandedStep(s: State, max: nat, e: Event, q: Request)
    requires Sound(s, max) && Stranded(s, q) && Enabled(s, e) && Trusted(s, e) && !e.Lose?
    ensures Stranded(Next(s, e), q) && (e.Reply? ==> e.response.id != q.0)
  {
    hide Keys, Unique, Futures, Accounted, Put, Without;
    match e {
      case Register =>
        RegisterPlaced(s, s.hand.request);
        MemberKey(s.inflight, q);
      case Reply(r) =>
        if r.id == q.0 {
          UniqueMember(s.inflight, q, (r.id, r.request));
        }
        WithoutKeeps(s.inflight, r.id, q);
      case _ =>
    }
  }

  lemma ReopenStrands(s: State, q: Request)
    requires q in s.inflight
    ensures Stranded(Next(s, Reopen), q)
  {
  }

  ghost predicate NoneLost(es: seq<Event>, from: nat, to: nat) {
    forall x :: from < x < to && x < |es| ==> !es[x].Lose?
  }

  /** A request that was in flight when a caller opened the connection anew stays in flight, and is not answered,
      for as long as no lost connection is handled: nothing sends it again. */
  lemma {:induction false} StrandedUntilLost(max: nat, es: seq<Event>, k: nat, n: nat, q: Request)
    requires k < n <= |es| && ValidRun(max, es[..k]) && ValidRun(max, es[..n])
    requires es[k].Reopen? && q in After(max, es[..k]).inflight && NoneLost(es, k, n)
    ensures Stranded(After(max, es[..n]), q)
    ensures forall x :: k < x < n ==> !(es[x].Reply? && es[x].response.id == q.0)
    decreases n
  {
    hide Sound, Represents, Stranded, Enabled, Trusted, Next, ValidLedgerRun, LedgerAfter;
    assert es[..n][..n - 1] == es[..n - 1];
    var before, e := After(max, es[..n - 1]), es[n - 1];
    if k < n - 1 {
      StrandedUntilLost(max, es, k, n - 1, q);
      RunRefines(max, es[..n - 1]);
      StrandedStep(before, max, e, q);
    } else {
      ReopenStrands(before, q);
    }
  }

  /* ---------- Where the trust is needed ---------- */

  /** Drawing looks only at the reserved ids. The step keeps the invariant exactly when the drawn id has
      no uncollected answer either: such an answer would be overwritten and its permit lost. */
  lemma OpenSoundIff(s: State, max: nat, id: Id, payload: Payload)
    requires Sound(s, max) && Enabled(s, Open(id, payload))
    ensures Sound(Next(s, Open(id, payload)), max) <==> id !in s.received
  {
    OpenPlaced(s, id, payload);
    OpenFutures(s, id);
    hide Placed, OnTheWire, Futures;
  }

  /** A lost connection keeps the invariant exactly when the sender was not caught with an item in hand. */
  lemma ReconnectSoundIff(s: State, max: nat)
    requires Sound(s, max)
    ensures Sound(Reconnect(s), max) <==> !s.hand.Taken?
  {
    ReconnectFutures(s);
    if s.hand.Taken? {
      KeysConcat(s.sending, s.inflight);
      assert s.hand.request.0 in s.inUse;
      assert s.hand.request.0 !in Keys(s.sending + s.inflight);
    } else {
      ReconnectPlaced(s);
    }
  }

  /** So does a connection opened anew by a caller. */
  lemma ReopenSoundIff(s: State, max: nat)
    requires Sound(s, max)
    ensures Sound(Reopened(s), max) <==> !s.hand.Taken?
  {
    hide Keys, Unique, Futures;
    if s.hand.Taken? {
      assert s.hand.request.0 in s.inUse;
    }
  }

  /** A reply completes a future a second time exactly when its id is registered but no longer reserved. Then
      every call that is still waiting fails. */
  lemma CompletedAlreadyIff(s: State, max: nat, r: Response)
    requires Sound(s, max)
    ensures CompletedAlready(s, r.id) <==> r.id in s.received && r.id !in s.inUse
    ensures CompletedAlready(s, r.id) ==>
              forall id :: id in s.inUse ==> id in Receive(s, r).received && Receive(s, r).received[id].Failed?
  {
  }

  /** Nothing that is in flight or on the wire has an id that is not reserved. */
  lemma NotReserved(s: State, q: Request)
    requires Placed(s.sending, s.inflight, Held(s.hand), s.inUse) && OnTheWire(s.inflight, s.hand, s.wire)
    requires q.0 !in s.inUse
    ensures Without(s.inflight, q.0) == s.inflight && s.wire - {q} == s.wire
  {
    hide Keys, Unique, Without;
    WithoutAbsent(s.inflight, q.0);
    if q in s.wire {
      MemberKey(s.inflight, q);
    }
  }

  /** A reply to an id without a future changes nothing. */
  lemma UnknownReply(s: State, max: nat, r: Response)
    requires Sound(s, max) && r.id !in s.received
    ensures Receive(s, r) == s
  {
    hide Placed, OnTheWire, Without;
    assert s.inUse - {r.id} == s.inUse;
    NotReserved(s, (r.id, r.request));
  }

  /** A second reply to an id fails whatever is unfinished. */
  lemma SecondReply(s: State, max: nat, r: Response)
    requires Sound(s, max) && r.id in s.received && r.id !in s.inUse
    ensures Sound(Receive(s, r), max) <==> s.inUse == {}
  {
    hide Placed, OnTheWire, Without;
    NotReserved(s, (r.id, r.request));
    var received := FailPending(s.received);
    assert received == Receive(s, r).received;
    if id :| id in s.inUse {
      assert received[id].Failed?;
      assert !Futures(received, s.inUse);
    } else {
      forall id | id in s.received ensures received[id] == s.received[id] {
        assert id !in s.inUse;
      }
      assert received == s.received;
    }
  }

  /** The only place of a reserved id that a reply frees is the in-flight table. */
  lemma ReservedReplyPlaced(s: State, r: Response)
    requires Placed(s.sending, s.inflight, Held(s.hand), s.inUse) && r.id in s.inUse
    ensures Placed(s.sending, Without(s.inflight, r.id), Held(s.hand), s.inUse - {r.id}) <==> r.id in Keys(s.inflight)
  {
    hide Keys, Unique, Without;
    WithoutUnique(s.inflight, r.id);
    WithoutMembers(s.inflight, r.id);
  }

  lemma ReservedReplyOnTheWire(s: State, r: Response)
    requires OnTheWire(s.inflight, s.hand, s.wire)
    ensures OnTheWire(Without(s.inflight, r.id), s.hand, s.wire - {(r.id, r.request)})
            <==> !(s.hand.Writing? && s.hand.request.0 == r.id)
                 && (forall q :: q in s.wire && q.0 == r.id ==> q.1 == r.request)
  {
    hide Without;
    var rest, wire := Without(s.inflight, r.id), s.wire - {(r.id, r.request)};
    WithoutMembers(s.inflight, r.id);
    forall q | q in s.inflight && q.0 != r.id ensures q in rest {
      WithoutKeeps(s.inflight, r.id, q);
    }
    if OnTheWire(rest, s.hand, wire) {
      forall q | q in s.wire && q.0 == r.id ensures q.1 == r.request {
        assert q in wire || q.1 == r.request;
      }
    }
  }

  /** The first reply to a reserved id is sound exactly when the request is in flight, nothing of that id is
      still being written, and the node holds nothing under that id but what it answers. */
  lemma ReservedReply(s: State, max: nat, r: Response)
    requires Sound(s, max) && r.id in s.inUse
    ensures Sound(Receive(s, r), max) <==>
              && r.id in Keys(s.inflight)
              && !(s.hand.Writing? && s.hand.request.0 == r.id)
              && (forall q :: q in s.wire && q.0 == r.id ==> q.1 == r.request)
  {
    ReservedReplyPlaced(s, r);
    ReservedReplyOnTheWire(s, r);
    assert s.received[r.id := Done(r)].Keys == s.received.Keys;
    hide Placed, OnTheWire, Keys, Without;
  }

  /** A reply, to whatever id and payload, keeps the invariant exactly when it is
      - to an id without a future, which changes nothing, or
      - to an id already answered, and no caller is waiting, or
      - to an id in flight and fully written, under which the node holds nothing but what it answers. */
  lemma ReplySoundIff(s: State, max: nat, r: Response)
    requires Sound(s, max)
    ensures Sound(Receive(s, r), max) <==>
              if r.id !in s.received then true
              else if r.id !in s.inUse then s.inUse == {}
              else
                && r.id in Keys(s.inflight)
                && !(s.hand.Writing? && s.hand.request.0 == r.id)
                && (forall q :: q in s.wire && q.0 == r.id ==> q.1 == r.request)
  {
    if r.id !in s.received {
      UnknownReply(s, max, r);
    } else if r.id !in s.inUse {
      SecondReply(s, max, r);
    } else {
      ReservedReply(s, max, r);
    }
  }

  /** A reply that nothing is in the way of is also the ledger's reply exactly when the payload it answers is
      the one in flight under its id. */
  lemma ReplyRefinesIff(s: State, l: Ledger, max: nat, r: Response)
    requires Sound(s, max) && Represents(s, l) && r.id in s.inUse
    ensures LedgerEnabled(l, Reply(r)) && Sound(Receive(s, r), max) && Represents(Receive(s, r), LedgerNext(l, Reply(r)))
            <==> && (r.id, r.request) in s.inflight
                 && !(s.hand.Writing? && s.hand.request.0 == r.id)
                 && (forall q :: q in s.wire && q.0 == r.id ==> q.1 == r.request)
  {
    ReservedReply(s, max, r);
    if (r.id, r.request) in s.inflight {
      MemberKey(s.inflight, (r.id, r.request));
      assert Carries(l, (r.id, r.request));
      ReplyPlaced(s, r);
      ReplyFutures(s, l, r);
      ReplyCarried(l, s.sending, r);
      ReplyCarried(l, s.inflight, r);
    } else if r.id in Keys(s.inflight) {
      var i := IndexOfKey(s.inflight, r.id);
      assert Carries(l, s.inflight[i]);
    }
    hide Sound, FuturesAgree, AllCarried, Keys, Without;
  }

  datatype Retrieved = Item(response: Response) | Note(note: Payload) | Raised | Nothing

  /** `retrieve`, for any id and any state. A failed future gives its permit back but stays. */
  function Retrieve(s: State, id: Id): (Retrieved, State) {
    if id in s.received then
      match s.received[id]
      case Done(r) => (Item(r), s.(permits := s.permits + 1, received := s.received - {id}))
      case Failed => (Raised, s.(permits := s.permits + 1))
      case Pending => (Nothing, s)
    else if id in s.subscriptions && s.subscriptions[id] != [] then
      (Note(s.subscriptions[id][0]), s.(subscriptions := s.subscriptions[id := s.subscriptions[id][1..]]))
    else (Nothing, s)
  }

  /** What `retrieve` answers, for any id and any state. */
  lemma RetrieveIff(s: State, id: Id)
    ensures forall r :: Retrieve(s, id).0 == Item(r) <==> id in s.received && s.received[id] == Done(r)
    ensures Retrieve(s, id).0 == Raised <==> id in s.received && s.received[id] == Failed
    ensures forall note :: Retrieve(s, id).0 == Note(note) <==>
              id !in s.received && id in s.subscriptions && s.subscriptions[id] != [] && s.subscriptions[id][0] == note
    ensures Retrieve(s, id).0 == Nothing <==>
              if id in s.received then s.received[id] == Pending
              else id !in s.subscriptions || s.subscriptions[id] == []
  {
  }

  /** And what it leaves: an answer is handed out once and gives its permit back, the oldest notification is handed
      out once, and nothing else changes. */
  lemma RetrieveLeaves(s: State, id: Id)
    ensures var (item, t) := Retrieve(s, id);
            && t.received == (if item.Item? then s.received - {id} else s.received)
            && t.permits == (if item.Item? || item.Raised? then s.permits + 1 else s.permits)
            && (item.Note? ==> [item.note] + t.subscriptions[id] == s.subscriptions[id])
            && t.subscriptions.Keys == s.subscriptions.Keys
            && (forall sub :: sub in s.subscriptions && !(item.Note? && sub == id) ==> t.subscriptions[sub] == s.subscriptions[sub])
            && t.sending == s.sending && t.inflight == s.inflight && t.hand == s.hand && t.inUse == s.inUse
  {
  }

  /** Permits stay accounted for exactly when the retrieved future has not failed. */
  lemma RetrieveAccountedIff(s: State, max: nat, id: Id)
    requires Accounted(s, max)
    ensures Accounted(Retrieve(s, id).1, max) <==> !(id in s.received && s.received[id].Failed?)
  {
    if id in s.received && s.received[id].Done? {
      assert (s.received - {id}).Keys == s.received.Keys - {id};
      assert |(s.received - {id}).Keys| == |s.received.Keys| - 1;
    }
  }

  /** `retrieve` is the step `Take` or `TakeNote`, or changes nothing, once no future has failed. */
  lemma RetrieveIsAStep(s: State, id: Id)
    requires id in s.received ==> !s.received[id].Failed?
    ensures match Retrieve(s, id).0
            case Item(r) => Enabled(s, Take(id, r)) && Retrieve(s, id).1 == Next(s, Take(id, r))
            case Note(n) => Enabled(s, TakeNote(id)) && n == s.subscriptions[id][0]
                            && Retrieve(s, id).1 == Next(s, TakeNote(id))
            case Raised => false
            case Nothing => Retrieve(s, id).1 == s
  {
  }
}
