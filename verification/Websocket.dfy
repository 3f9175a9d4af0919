/** The websocket manager itself: its fields and, for each stretch of its coroutines between two
    suspension points, a method that performs the corresponding step of the multiplexer.
 */
module WebsocketManager {
  import opened Dicts
  import opened Multiplexer

  lemma RefreshedOne(received: map<Id, Future>, done: Dict<Id, Payload>, q: Request)
    ensures Refreshed(received, Keys(done))[q.0 := Pending] == Refreshed(received, Keys(done + [q]))
  {
    KeysConcat(done, [q]);
    SingleKey(q);
  }

  lemma NoneRefreshed(received: map<Id, Future>)
    ensures Refreshed(received, Keys<Id, Payload>([])) == received
  {
  }

  lemma RefreshedIs(received: map<Id, Future>, ids: set<Id>)
    ensures Refreshed(received, ids).Keys == received.Keys + ids
    ensures forall id :: id in received.Keys + ids ==>
              Refreshed(received, ids)[id] == if id in ids then Pending else received[id]
  {
  }

  class Websocket {
    var permits: nat
    var granted: nat
    var inUseIds: set<Id>
    var received: map<Id, Future>
    var sending: Dict<Id, Payload>
    var hand: Hand
    var inflight: Dict<Id, Payload>
    var receivedSubscriptions: map<Id, seq<Payload>>
    ghost var wire: set<Request>

    ghost function View(): State
      reads this
    {
      State(permits, granted, inUseIds, received, sending, hand, inflight, wire, receivedSubscriptions)
    }

    constructor (maxSubscriptions: nat)
      ensures View() == Init(maxSubscriptions)
    {
      permits, granted := maxSubscriptions, 0;
      inUseIds, received := {}, map[];
      sending, hand, inflight := [], Idle, [];
      receivedSubscriptions := map[];
      wire := {};
    }

    /** `send`, up to the semaphore. Answers false where the coroutine stays suspended. */
    method Acquire() returns (acquired: bool)
      modifies this
      ensures acquired == Enabled(old(View()), Event.Acquire)
      ensures acquired <==> old(permits) > 0
      ensures View() == if acquired then Next(old(View()), Event.Acquire) else old(View())
    {
      acquired := permits > 0;
      if acquired {
        permits := permits - 1;
        granted := granted + 1;
      }
    }

    /** `send`, past the semaphore: draws ids until one is not reserved, and queues the request. */
    method Send(draws: seq<Id>, payload: Payload) returns (id: Id)
      requires granted > 0
      requires exists i :: 0 <= i < |draws| && draws[i] !in inUseIds
      modifies this
      ensures Enabled(old(View()), Open(id, payload))
      ensures View() == Next(old(View()), Open(id, payload))
      ensures exists n :: 0 <= n < |draws| && draws[n] == id && forall i :: 0 <= i < n ==> draws[i] in old(inUseIds)
    {
      var n := 0;
      id := draws[0];
      while id in inUseIds
        invariant n < |draws| && id == draws[n]
        invariant forall i :: 0 <= i < n ==> draws[i] in inUseIds
        decreases |draws| - n
      {
        n := n + 1;
        id := draws[n];
      }
      granted := granted - 1;
      inUseIds := inUseIds + {id};
      received := received[id := Pending];
      sending := sending + [(id, payload)];
    }

    /** The sender takes the head of the queue. */
    method Dequeue()
      requires Enabled(View(), Event.Dequeue)
      modifies this
      ensures View() == Next(old(View()), Event.Dequeue)
    {
      var item := sending[0];
      sending := sending[1..];
      hand := Taken(item);
    }

    /** The sender registers what it took. */
    method Register()
      requires Enabled(View(), Event.Register)
      modifies this
      ensures View() == Next(old(View()), Event.Register)
    {
      inflight := Put(inflight, hand.request.0, hand.request.1);
      hand := Writing(hand.request);
    }

    /** The node has the message. */
    method Transmit()
      requires Enabled(View(), Event.Transmit)
      modifies this
      ensures View() == Next(old(View()), Event.Transmit)
    {
      wire := wire + {hand.request};
      hand := Idle;
    }

    /** `_recv` of a reply, with the receive loop's handling of a future completed twice. */
    method Recv(r: Response) returns (raised: bool)
      modifies this
      ensures raised == CompletedAlready(old(View()), r.id)
      ensures raised <==> r.id in old(received) && !old(received)[r.id].Pending?
      ensures r.id in old(received) && old(received)[r.id].Pending? ==> received == old(received)[r.id := Done(r)]
      ensures View() == Next(old(View()), Reply(r))
    {
      inflight := Without(inflight, r.id);
      wire := wire - {(r.id, r.request)};
      raised := false;
      if r.id in received {
        if received[r.id].Pending? {
          received := received[r.id := Done(r)];
        } else {
          raised := true;
          received := FailPending(received);
          return;
        }
      }
      inUseIds := inUseIds - {r.id};
    }

    /** `_recv` of a notification. */
    method RecvNotification(subscription: Id, note: Payload)
      modifies this
      ensures View() == Next(old(View()), Notify(subscription, note))
    {
      if subscription !in receivedSubscriptions {
        receivedSubscriptions := receivedSubscriptions[subscription := []];
      }
      receivedSubscriptions := receivedSubscriptions[subscription := receivedSubscriptions[subscription] + [note]];
    }

    /** `_handler` on a lost connection: refuses while subscriptions are open, otherwise resubmits. */
    method HandleLostConnection() returns (reconnected: bool)
      modifies this
      ensures reconnected == Enabled(old(View()), Lose)
      ensures reconnected <==> old(receivedSubscriptions) == map[]
      ensures reconnected ==>
                && sending == old(sending) + old(inflight) && inflight == []
                && received.Keys == old(received).Keys + Keys(old(inflight))
                && forall id :: id in received ==>
                     received[id] == if id in Keys(old(inflight)) then Pending else old(received)[id]
      ensures View() == if reconnected then Next(old(View()), Lose) else Reopened(old(View()))
    {
      hide Keys, Refreshed;
      hand := Idle;
      wire := {};
      if receivedSubscriptions != map[] {
        return false;
      }
      NoneRefreshed(received);
      ghost var n := 0;
      ghost var queued, flying := sending, inflight;
      while inflight != []
        invariant n <= |flying| && inflight == flying[n..]
        invariant sending == queued + flying[..n]
        invariant received == Refreshed(old(received), Keys(flying[..n]))
        invariant permits == old(permits) && granted == old(granted) && inUseIds == old(inUseIds)
        invariant hand == Idle && wire == {} && receivedSubscriptions == map[] == old(receivedSubscriptions)
        decreases |inflight|
      {
        var (id, payload) := inflight[0];
        inflight := inflight[1..];
        received := received[id := Pending];
        sending := sending + [(id, payload)];
        RefreshedOne(old(received), flying[..n], flying[n]);
        assert flying[..n + 1] == flying[..n] + [flying[n]];
        n := n + 1;
      }
      assert flying[..n] == flying;
      RefreshedIs(old(received), Keys(flying));
      reconnected := true;
    }

    /** `connect` by a caller that finds the connection closed: nothing is resubmitted. */
    method Connect()
      modifies this
      ensures View() == Next(old(View()), Reopen)
    {
      hand := Idle;
      wire := {};
    }

    method Retrieve(id: Id) returns (item: Retrieved)
      modifies this
      ensures (item, View()) == Multiplexer.Retrieve(old(View()), id)
    {
      item := Nothing;
      if id in received {
        match received[id] {
          case Done(r) =>
            permits := permits + 1;
            received := received - {id};
            item := Item(r);
          case Failed =>
            permits := permits + 1;
            item := Raised;
          case Pending =>
        }
      } else if id in receivedSubscriptions && receivedSubscriptions[id] != [] {
        item := Note(receivedSubscriptions[id][0]);
        receivedSubscriptions := receivedSubscriptions[id := receivedSubscriptions[id][1..]];
      }
    }
  }
}
