/** Requests over the blocking connection: the ids they draw, and the attempts they are repeated in. */
module SyncRequests {
  import opened Collections
  import opened Dicts
  import opened Requests
  import opened Text

  /* ---------- Ids ---------- */

  const CYCLE: nat := 998

  predicate IsLetter(c: char) {
    'a' <= c <= 'z' || 'A' <= c <= 'Z'
  }

  type Letters = s: string | |s| == 2 && IsLetter(s[0]) && IsLetter(s[1]) witness "aa"

  /** The number in the k-th id drawn: 1 to 998, over and over. */
  function NumberAt(k: nat): (n: nat)
    ensures 1 <= n <= CYCLE
  {
    1 + k % CYCLE
  }

  lemma NumberAfter(k: nat)
    ensures NumberAt(k + 1) == if NumberAt(k) == CYCLE then 1 else NumberAt(k) + 1
  {
    assert k == CYCLE * (k / CYCLE) + k % CYCLE;
  }

  lemma NumberAgain(k: nat)
    ensures (k + CYCLE) % CYCLE == k % CYCLE
  {
  }

  function IdAt(k: nat, letters: Letters): ItemId {
    ItemId(letters + Decimal(NumberAt(k)))
  }

  /** A run of consecutive ids, with the letters drawn for each. */
  function IdsFrom(start: nat, letters: seq<Letters>): (ids: seq<ItemId>)
    ensures |ids| == |letters|
  {
    seq(|letters|, i requires 0 <= i < |letters| => IdAt(start + i, letters[i]))
  }

  class IdSource {
    var next: nat
    ghost var drawn: nat

    ghost predicate Valid()
      reads this
    {
      next == NumberAt(drawn)
    }

    constructor ()
      ensures Valid() && drawn == 0
    {
      next, drawn := 1, 0;
    }

    /** `get_next_id`, with the letters it happens to draw. */
    method GetNextId(letters: Letters) returns (id: ItemId)
      requires Valid()
      modifies this
      ensures Valid() && drawn == old(drawn) + 1
      ensures id == IdAt(old(drawn), letters)
    {
      NumberAfter(drawn);
      hide NumberAt, Decimal;
      id := ItemId(letters + Decimal(next));
      next := if next == CYCLE then 1 else next + 1;
      drawn := drawn + 1;
    }
  }

  lemma IdsEqualIff(j: nat, k: nat, a: Letters, b: Letters)
    ensures IdAt(j, a) == IdAt(k, b) <==> a == b && j % CYCLE == k % CYCLE
  {
    var s, t := a + Decimal(NumberAt(j)), b + Decimal(NumberAt(k));
    assert s[..2] == a && t[..2] == b;
    assert s[2..] == Decimal(NumberAt(j)) && t[2..] == Decimal(NumberAt(k));
    DecimalInjective(NumberAt(j), NumberAt(k));
  }

  /** The text of an id: two letters and a number that counts from 1 to 998 and then starts over. */
  lemma IdText(k: nat, letters: Letters)
    ensures exists number: string ::
              && IdAt(k, letters).text == letters + number
              && NumberOf(number) == 1 + k % 998
              && number != "" && number[0] != '0'
    ensures IdAt(k + 998, letters) == IdAt(k, letters)
    ensures ('a' <= letters[0] <= 'z' || 'A' <= letters[0] <= 'Z') && ('a' <= letters[1] <= 'z' || 'A' <= letters[1] <= 'Z')
  {
    var n := NumberAt(k);
    DecimalReads(n);
    assert IdAt(k, letters).text == letters + Decimal(n);
    IdsEqualIff(k, k + CYCLE, letters, letters);
    NumberAgain(k);
  }

  /** Any two letters, small or capital, can stand in front. */
  lemma AnyLetters(a: char, b: char) returns (letters: Letters)
    requires 'a' <= a <= 'z' || 'A' <= a <= 'Z'
    requires 'a' <= b <= 'z' || 'A' <= b <= 'Z'
    ensures letters == [a, b]
  {
    letters := [a, b];
  }

  lemma FewDistinct(start: nat, letters: seq<Letters>)
    requires |letters| <= CYCLE
    ensures Distinct(IdsFrom(start, letters))
  {
    var ids := IdsFrom(start, letters);
    forall i, j | 0 <= i < j < |letters| ensures ids[i] != ids[j] {
      IdsEqualIff(start + i, start + j, letters[i], letters[j]);
      Apart(start, i, j);
      hide IdAt;
    }
  }

  lemma RepeatedElement<T>(s: seq<T>, i: nat, j: nat)
    requires i < j < |s| && s[i] == s[j]
    ensures !Distinct(s)
  {
  }

  lemma ManyRepeat(start: nat, n: nat) returns (letters: seq<Letters>)
    requires n > CYCLE
    ensures |letters| == n && !Distinct(IdsFrom(start, letters))
  {
    var pair: Letters := "aa";
    letters := seq<Letters>(n, i => pair);
    NumberAgain(start);
    IdsEqualIff(start, start + CYCLE, pair, pair);
    hide IdAt;
    var ids := IdsFrom(start, letters);
    assert ids[0] == IdAt(start, pair) && ids[CYCLE] == IdAt(start + CYCLE, pair);
    RepeatedElement(ids, 0, CYCLE);
  }

  /** Consecutive ids differ whatever letters are drawn exactly when there are at most 998 of them. */
  lemma ConsecutiveDistinctIff(start: nat, n: nat)
    ensures (forall letters: seq<Letters> :: |letters| == n ==> Distinct(IdsFrom(start, letters))) <==> n <= 998
  {
    hide IdsFrom, Distinct;
    if n <= CYCLE {
      forall letters: seq<Letters> | |letters| == n ensures Distinct(IdsFrom(start, letters)) {
        FewDistinct(start, letters);
      }
    } else {
      var letters := ManyRepeat(start, n);
    }
  }

  lemma Apart(start: nat, i: nat, j: nat)
    requires i < j < i + CYCLE
    ensures (start + i) % CYCLE != (start + j) % CYCLE
  {
    var p, q := (start + i) / CYCLE, (start + j) / CYCLE;
    assert j - i == (q - p) * CYCLE + ((start + j) % CYCLE - (start + i) % CYCLE);
  }

  /* ---------- One attempt ---------- */

  /** What comes over the connection. A notification is kept under its subscription's id. */
  datatype Message<R> = Reply(id: ItemId, response: R) | Notification(id: ItemId, response: R) | Malformed

  datatype Attempted<R> = TimedOut | Rejected | Done(results: Dict<PayloadId, Info<R>>)

  predicate Carries<R>(message: Message<R>, item: ItemId) {
    !message.Malformed? && message.id == item
  }

  predicate AnsweredIn<R>(messages: seq<Message<R>>, item: ItemId) {
    exists k :: 0 <= k < |messages| && Carries(messages[k], item)
  }

  ghost predicate Heard<R>(messages: seq<Message<R>>, item: ItemId, response: R) {
    exists k :: 0 <= k < |messages| && Carries(messages[k], item) && messages[k].response == response
  }

  ghost predicate HeldHeard<R>(messages: seq<Message<R>>, received: Dict<ItemId, R>) {
    forall item :: Lookup(received, item).Some? ==> Heard(messages, item, Lookup(received, item).value)
  }

  ghost predicate TakenHeard<R>(messages: seq<Message<R>>, arrivals: seq<(ItemId, R)>) {
    forall i :: 0 <= i < |arrivals| ==> Heard(messages, arrivals[i].0, arrivals[i].1)
  }

  /** The items as they are registered one by one; an id drawn twice keeps the later payload. */
  function Enrolled(items: seq<ItemId>, payloads: seq<PayloadId>): Dict<ItemId, PayloadId>
    requires |items| == |payloads|
  {
    if items == [] then []
    else
      var n := |items| - 1;
      Put(Enrolled(items[..n], payloads[..n]), items[n], payloads[n])
  }

  ghost predicate WellFormed<R>(messages: seq<Message<R>>) {
    forall k :: 0 <= k < |messages| ==> !messages[k].Malformed?
  }

  /** What an attempt needs to be completed. */
  ghost predicate Completes<R>(items: seq<ItemId>, messages: seq<Message<R>>) {
    messages != [] && Distinct(items) && forall i :: 0 <= i < |items| ==> AnsweredIn(messages, items[i])
  }

  lemma {:induction false} SwapPut(d: Dict<ItemId, PayloadId>, item: ItemId, payload: PayloadId)
    requires Unique(Swap(d)) && payload !in Keys(Swap(d))
    ensures Unique(Swap(Put(d, item, payload)))
    ensures Keys(Swap(Put(d, item, payload))) <= Keys(Swap(d)) + {payload}
  {
    if d == [] {
      SwapOne(item, payload);
      SingleKey((payload, item));
    } else {
      assert Swap(d)[1..] == Swap(d[1..]);
      if d[0].0 == item {
        assert Swap([(item, payload)] + d[1..])[1..] == Swap(d[1..]);
      } else {
        SwapPut(d[1..], item, payload);
        assert Swap(Put(d, item, payload))[1..] == Swap(Put(d[1..], item, payload));
      }
    }
  }

  /** Each payload is registered at most once; all of them are exactly when no id was drawn twice. */
  lemma {:induction false} EnrolledOnce(items: seq<ItemId>, payloads: seq<PayloadId>)
    requires |items| == |payloads| && Distinct(payloads)
    ensures Unique(Enrolled(items, payloads)) && Unique(Swap(Enrolled(items, payloads)))
    ensures forall payload :: payload in Keys(Swap(Enrolled(items, payloads))) ==> payload in payloads
    ensures forall item :: item in Keys(Enrolled(items, payloads)) <==> item in items
    ensures |Enrolled(items, payloads)| <= |items|
    ensures |Enrolled(items, payloads)| == |items| <==> Distinct(items)
  {
    if items != [] {
      var n := |items| - 1;
      var before := Enrolled(items[..n], payloads[..n]);
      assert items == items[..n] + [items[n]] && payloads == payloads[..n] + [payloads[n]];
      DistinctSnoc(items[..n], items[n]);
      DistinctSnoc(payloads[..n], payloads[n]);
      hide Keys, Unique, Swap, Put, Distinct;
      EnrolledOnce(items[..n], payloads[..n]);
      SwapPut(before, items[n], payloads[n]);
      PutKeys(before, items[n], payloads[n]);
      if items[n] in Keys(before) {
        PutCount(before, items[n], payloads[n]);
      } else {
        PutAbsent(before, items[n], payloads[n]);
      }
    }
  }

  /** An item stands for the payload with which its id was drawn last. */
  lemma {:induction false} EnrolledLast(items: seq<ItemId>, payloads: seq<PayloadId>, i: nat)
    requires |items| == |payloads| && i < |items| && forall j :: i < j < |items| ==> items[j] != items[i]
    ensures Lookup(Enrolled(items, payloads), items[i]) == Some(payloads[i])
  {
    var n := |items| - 1;
    var before := Enrolled(items[..n], payloads[..n]);
    hide Lookup, Put;
    PutLookup(before, items[n], payloads[n], items[i]);
    if i < n {
      assert items[..n][i] == items[i] && forall j :: i < j < n ==> items[..n][j] == items[j];
      EnrolledLast(items[..n], payloads[..n], i);
    }
  }

  method Enroll<R>(manager: RequestManager<R>, items: seq<ItemId>, payloads: seq<PayloadId>)
    requires |items| == |payloads| && manager.responseMap == []
    modifies manager
    ensures manager.View() == old(manager.View()).(responseMap := Enrolled(items, payloads))
  {
    for i := 0 to |items|
      invariant manager.View() == old(manager.View()).(responseMap := Enrolled(items[..i], payloads[..i]))
    {
      assert items[..i + 1][..i] == items[..i] && payloads[..i + 1][..i] == payloads[..i];
      manager.Add(items[i], payloads[i]);
    }
    assert items[..|items|] == items && payloads[..|items|] == payloads;
  }

  /** The manager holds exactly the replies that arrived, and everything held or taken came in a message. */
  ghost predicate Tracks<R>(view: Manager<R>, mapping: Dict<ItemId, PayloadId>, messages: seq<Message<R>>,
                            received: Dict<ItemId, R>, arrivals: seq<(ItemId, R)>) {
    && ArrivesOnce(mapping, arrivals)
    && view.responseMap == mapping
    && view.responses == Attributed(mapping, arrivals)
    && HeldHeard(messages, received)
    && TakenHeard(messages, arrivals)
  }

  /** What was heard is still held, or taken. */
  ghost predicate Keeps<R>(messages: seq<Message<R>>, received: Dict<ItemId, R>, arrivals: seq<(ItemId, R)>) {
    forall item :: AnsweredIn(messages, item) ==> item in Keys(received) || item in Keys(arrivals)
  }

  /** An open item is handled unless its id reads like a payload that has been answered. */
  lemma TakeOne<R>(view: Manager<R>, mapping: Dict<ItemId, PayloadId>, messages: seq<Message<R>>, received: Dict<ItemId, R>,
                   arrivals: seq<(ItemId, R)>, item: ItemId)
    requires OneToOne(mapping) && Tracks(view, mapping, messages, received, arrivals)
    requires item in Keys(mapping) && item !in Keys(arrivals) && Lookup(received, item).Some?
    ensures var response := Lookup(received, item).value;
            && Lookup(view.responseMap, item).Some?
            && Tracks(AddResponse(view, item, response, true), mapping, messages, Without(received, item),
                      arrivals + [(item, response)])
            && Keys(arrivals + [(item, response)]) == Keys(arrivals) + {item}
            && Keys(Without(received, item)) == Keys(received) - {item}
  {
    var response := Lookup(received, item).value;
    hide Attributed, Keys, Unique, Swap, Lookup, Without, Heard;
    LookupInKeys(mapping, item);
    AttributedKeys(mapping, arrivals, item);
    OneMoreReply(view, item, response);
    ArrivesNext(mapping, arrivals, item, response);
    WithoutMembers(received, item);
    forall other | Lookup(Without(received, item), other).Some?
      ensures Heard(messages, other, Lookup(Without(received, item), other).value)
    {
      LookupWithout(received, item, other);
    }
  }

  method TakeReplies<R>(manager: RequestManager<R>, ghost mapping: Dict<ItemId, PayloadId>,
                        ghost messages: seq<Message<R>>, received: Dict<ItemId, R>, ghost before: seq<(ItemId, R)>)
      returns (left: Dict<ItemId, R>, ghost arrivals: seq<(ItemId, R)>)
    requires OneToOne(mapping) && Tracks(manager.View(), mapping, messages, received, before)
    modifies manager
    ensures Tracks(manager.View(), mapping, messages, left, arrivals)
    ensures Keeps(messages, received, before) ==> Keeps(messages, left, arrivals)
    ensures (forall item :: item in Keys(mapping) ==> PayloadId(item.text) !in Keys(Swap(mapping))) ==>
              forall item :: item in Keys(mapping) && item in Keys(left) ==> item in Keys(arrivals)
  {
    left, arrivals := received, before;
    var open := manager.ListUnresponded();
    UnrespondedItems(mapping, manager.responses);
    forall j | 0 <= j < |open| ensures open[j] in Keys(mapping) && open[j] !in Keys(arrivals) {
      AttributedNotOpen(mapping, arrivals, open[j]);
    }
    forall item | item in Keys(mapping) && item !in open ensures item in Keys(arrivals) {
      LookupInKeys(mapping, item);
      NotListed(mapping, arrivals, item);
    }
    hide Attributed, Keys, Unique, Swap, Lookup, Unresponded, Without, HeldHeard, TakenHeard;
    for j := 0 to |open|
      invariant Tracks(manager.View(), mapping, messages, left, arrivals)
      invariant Keeps(messages, received, before) ==> Keeps(messages, left, arrivals)
      invariant Keys(before) <= Keys(arrivals)
      invariant forall i :: j <= i < |open| ==> open[i] in Keys(mapping) && open[i] !in Keys(arrivals)
      invariant (forall item :: item in Keys(mapping) ==> PayloadId(item.text) !in Keys(Swap(mapping))) ==>
                  forall i :: 0 <= i < j ==> open[i] !in Keys(left)
    {
      var item := open[j];
      ResponsesOfPayloads(mapping, arrivals);
      LookupInKeys(manager.responses, PayloadId(item.text));
      LookupInKeys(left, item);
      if Lookup(manager.responses, PayloadId(item.text)).None? {
        var response := Lookup(left, item);
        if response.Some? {
          TakeOne(manager.View(), mapping, messages, left, arrivals, item);
          arrivals := arrivals + [(item, response.value)];
          left := Without(left, item);
          manager.Record(item, response.value, true);
        }
      }
    }
  }

  lemma HearMore<R>(messages: seq<Message<R>>, k: nat, received: Dict<ItemId, R>, arrivals: seq<(ItemId, R)>)
    requires k < |messages| && !messages[k].Malformed?
    requires HeldHeard(messages[..k], received) && TakenHeard(messages[..k], arrivals) && Keeps(messages[..k], received, arrivals)
    ensures var held := Put(received, messages[k].id, messages[k].response);
            HeldHeard(messages[..k + 1], held) && TakenHeard(messages[..k + 1], arrivals) && Keeps(messages[..k + 1], held, arrivals)
  {
    var held := Put(received, messages[k].id, messages[k].response);
    hide Put, Lookup, Keys;
    PutKeys(received, messages[k].id, messages[k].response);
    forall item, response | Heard(messages[..k], item, response) ensures Heard(messages[..k + 1], item, response) {
      var i :| 0 <= i < k && Carries(messages[..k][i], item) && messages[..k][i].response == response;
      assert messages[..k + 1][i] == messages[..k][i];
    }
    assert messages[..k + 1][k] == messages[k];
    assert Heard(messages[..k + 1], messages[k].id, messages[k].response);
    forall item | Lookup(held, item).Some? ensures Heard(messages[..k + 1], item, Lookup(held, item).value) {
      PutLookup(received, messages[k].id, messages[k].response, item);
    }
    forall item | AnsweredIn(messages[..k + 1], item) ensures item in Keys(held) || item in Keys(arrivals) {
      var i :| 0 <= i <= k && Carries(messages[..k + 1][i], item);
      if i < k {
        assert Carries(messages[..k][i], item);
      }
    }
  }

  /** A batch is complete when as many replies have arrived as there are payloads; then every item has one,
      and no id was drawn twice. */
  lemma CompleteMeansAll<R>(items: seq<ItemId>, payloads: seq<PayloadId>, arrivals: seq<(ItemId, R)>)
    requires |items| == |payloads| && Distinct(payloads) && ArrivesOnce(Enrolled(items, payloads), arrivals)
    ensures var mapping := Enrolled(items, payloads);
            && (IsComplete(Manager(mapping, Attributed(mapping, arrivals), |payloads|)) <==> |arrivals| == |payloads|)
            && (|arrivals| == |payloads| ==> Distinct(items) && Keys(arrivals) == Keys(mapping))
            && (Distinct(items) && Keys(arrivals) == Keys(mapping) ==> |arrivals| == |payloads|)
  {
    var mapping := Enrolled(items, payloads);
    EnrolledOnce(items, payloads);
    AttributedAll(mapping, arrivals);
    UniqueCount(arrivals);
    UniqueCount(mapping);
    hide Keys, Unique, Swap, Enrolled, Attributed, AllComplete, Distinct;
    SubsetCount(Keys(arrivals), Keys(mapping));
    if |arrivals| == |payloads| {
      FullSubset(Keys(arrivals), Keys(mapping));
    }
  }

  lemma NothingClashes(items: seq<ItemId>, payloads: seq<PayloadId>)
    requires |items| == |payloads| && Distinct(payloads) && NoClash(items, payloads)
    ensures forall item :: item in Keys(Enrolled(items, payloads)) ==>
              PayloadId(item.text) !in Keys(Swap(Enrolled(items, payloads)))
  {
    EnrolledOnce(items, payloads);
    forall item | item in Keys(Enrolled(items, payloads))
      ensures PayloadId(item.text) !in Keys(Swap(Enrolled(items, payloads)))
    {
      var i :| 0 <= i < |items| && items[i] == item;
    }
  }

  lemma NothingYet<R>(mapping: Dict<ItemId, PayloadId>)
    ensures ArrivesOnce<R>(mapping, []) && HeldHeard<R>([], []) && TakenHeard<R>([], []) && Keeps<R>([], [], []) && Attributed<R>(mapping, []) == []
  {
  }

  lemma TakenLater<R>(messages: seq<Message<R>>, k: nat, arrivals: seq<(ItemId, R)>)
    requires k <= |messages| && TakenHeard(messages[..k], arrivals)
    ensures TakenHeard(messages, arrivals)
  {
    forall i | 0 <= i < |arrivals| ensures Heard(messages, arrivals[i].0, arrivals[i].1) {
      var j :| 0 <= j < k && Carries(messages[..k][j], arrivals[i].0) && messages[..k][j].response == arrivals[i].1;
      assert messages[j] == messages[..k][j];
    }
  }

  lemma AllAnswered<R>(items: seq<ItemId>, mapping: Dict<ItemId, PayloadId>, messages: seq<Message<R>>,
                       arrivals: seq<(ItemId, R)>)
    requires forall item :: item in items ==> item in Keys(mapping)
    requires Keys(arrivals) == Keys(mapping) && TakenHeard(messages, arrivals)
    ensures forall i :: 0 <= i < |items| ==> AnsweredIn(messages, items[i])
  {
    forall i | 0 <= i < |items| ensures AnsweredIn(messages, items[i]) {
      assert items[i] in items;
      var j := IndexOfKey(arrivals, items[i]);
      assert Heard(messages, arrivals[j].0, arrivals[j].1);
    }
  }

  lemma AllTaken<R>(items: seq<ItemId>, payloads: seq<PayloadId>, messages: seq<Message<R>>, received: Dict<ItemId, R>,
                    arrivals: seq<(ItemId, R)>)
    requires |items| == |payloads| && Distinct(payloads) && ArrivesOnce(Enrolled(items, payloads), arrivals)
    requires Completes(items, messages) && Keeps(messages, received, arrivals)
    requires forall item :: item in Keys(Enrolled(items, payloads)) && item in Keys(received) ==> item in Keys(arrivals)
    ensures |arrivals| == |payloads|
  {
    EnrolledOnce(items, payloads);
    forall item | item in Keys(Enrolled(items, payloads)) ensures item in Keys(arrivals) {
      var i :| 0 <= i < |items| && items[i] == item;
      assert AnsweredIn(messages, items[i]);
    }
    assert Keys(arrivals) == Keys(Enrolled(items, payloads));
    CompleteMeansAll(items, payloads, arrivals);
  }

  /** One attempt with the messages that come before the connection times out or closes. The results are each
      payload's own reply, in order of arrival. It is done exactly when every item is answered and no id was
      drawn twice. */
  method Attempt<R>(payloads: seq<PayloadId>, items: seq<ItemId>, messages: seq<Message<R>>)
      returns (attempted: Attempted<R>, ghost arrivals: seq<(ItemId, R)>)
    requires |items| == |payloads| && Distinct(payloads)
    ensures ArrivesOnce(Enrolled(items, payloads), arrivals) && TakenHeard(messages, arrivals)
    ensures attempted.Done? ==>
              && Distinct(items) && Keys(arrivals) == Keys(Enrolled(items, payloads))
              && attempted.results == Attributed(Enrolled(items, payloads), arrivals)
    ensures attempted.Rejected? ==> !WellFormed(messages)
    ensures NoClash(items, payloads) && WellFormed(messages) ==> (attempted.Done? <==> Completes(items, messages))
  {
    hide Attributed, Keys, Unique, Swap, Lookup, Put, Enrolled, Distinct, NoClash, AllComplete, HeldHeard, TakenHeard,
         Keeps, IsComplete, AnsweredIn;
    var manager := new RequestManager<R>(|payloads|);
    Enroll(manager, items, payloads);
    ghost var mapping := Enrolled(items, payloads);
    EnrolledOnce(items, payloads);
    var received: Dict<ItemId, R> := [];
    arrivals := [];
    if NoClash(items, payloads) {
      NothingClashes(items, payloads);
    }
    NothingYet<R>(mapping);
    for k := 0 to |messages|
      invariant Tracks(manager.View(), mapping, messages[..k], received, arrivals)
      invariant Keeps(messages[..k], received, arrivals)
      invariant manager.View() == Manager(mapping, Attributed(mapping, arrivals), |payloads|)
      invariant k > 0 ==> |arrivals| != |payloads|
      invariant NoClash(items, payloads) && k > 0 ==>
                  forall item :: item in Keys(mapping) && item in Keys(received) ==> item in Keys(arrivals)
    {
      if messages[k].Malformed? {
        TakenLater(messages, k, arrivals);
        return Rejected, arrivals;
      }
      HearMore(messages, k, received, arrivals);
      received := Put(received, messages[k].id, messages[k].response);
      received, arrivals := TakeReplies(manager, mapping, messages[..k + 1], received, arrivals);
      CompleteMeansAll(items, payloads, arrivals);
      if IsComplete(Manager(manager.responseMap, manager.responses, manager.payloadsCount)) {
        TakenLater(messages, k + 1, arrivals);
        AllAnswered(items, mapping, messages, arrivals);
        return Done(manager.responses), arrivals;
      }
    }
    assert messages[..|messages|] == messages;
    if NoClash(items, payloads) && Completes(items, messages) {
      AllTaken(items, payloads, messages, received, arrivals);
    }
    attempted := TimedOut;
  }

  /* ---------- Attempts ---------- */

  datatype SyncOutcome<R> = DuplicateIds | MaxRetriesExceeded | BadResponse | Finished(results: Dict<PayloadId, Info<R>>)

  /** A request's surroundings: how many ids were drawn before it, the letters each of its ids gets, and the
      messages each attempt receives before its connection times out or closes. Attempts count from one. */
  datatype World<R> = World(base: nat, letters: (nat, nat) -> Letters, script: nat -> seq<Message<R>>)

  function LettersOf<R>(w: World<R>, n: nat, a: nat): (letters: seq<Letters>)
    ensures |letters| == n
  {
    seq<Letters>(n, i requires 0 <= i < n => w.letters(a, i))
  }

  /** The ids of an attempt at n payloads. */
  function ItemsOf<R>(w: World<R>, n: nat, a: nat): (items: seq<ItemId>)
    requires a >= 1
    ensures |items| == n
  {
    IdsFrom(w.base + (a - 1) * n, LettersOf(w, n, a))
  }

  ghost predicate Clean<R>(w: World<R>, payloads: seq<PayloadId>, a: nat)
    requires a >= 1
  {
    WellFormed(w.script(a)) && NoClash(ItemsOf(w, |payloads|, a), payloads)
  }

  ghost predicate Succeeds<R>(w: World<R>, payloads: seq<PayloadId>, a: nat)
    requires a >= 1
  {
    Completes(ItemsOf(w, |payloads|, a), w.script(a))
  }

  ghost predicate AllClean<R>(w: World<R>, payloads: seq<PayloadId>, from: nat, last: nat)
    requires from >= 1
  {
    forall a :: from <= a <= last ==> Clean(w, payloads, a)
  }

  ghost predicate NoneSucceeds<R>(w: World<R>, payloads: seq<PayloadId>, from: nat, to: nat)
    requires from >= 1
  {
    forall a :: from <= a < to ==> !Succeeds(w, payloads, a)
  }

  /** What arrived came in the messages of the given attempt, and is what a finished request returns. */
  ghost predicate OwnReplies<R>(w: World<R>, payloads: seq<PayloadId>, a: nat, arrivals: seq<(ItemId, R)>,
                                outcome: SyncOutcome<R>)
    requires a >= 1
  {
    var items := ItemsOf(w, |payloads|, a);
    var mapping := Enrolled(items, payloads);
    && ArrivesOnce(mapping, arrivals)
    && TakenHeard(w.script(a), arrivals)
    && (outcome.Finished? ==>
          Distinct(items) && Keys(arrivals) == Keys(mapping) && outcome.results == Attributed(mapping, arrivals))
  }

  /** A batch of at most 998 payloads succeeds exactly when each of its items is answered. A larger one also
      needs luck with its letters. */
  lemma SmallBatchSucceedsIff<R>(w: World<R>, payloads: seq<PayloadId>, a: nat)
    requires a >= 1 && |payloads| <= CYCLE
    ensures Succeeds(w, payloads, a)
            <==> w.script(a) != []
                 && forall i :: 0 <= i < |payloads| ==> AnsweredIn(w.script(a), ItemsOf(w, |payloads|, a)[i])
  {
    FewDistinct(w.base + (a - 1) * |payloads|, LettersOf(w, |payloads|, a));
    hide IdsFrom, LettersOf, Distinct, AnsweredIn;
  }

  lemma NoneYet<R>(w: World<R>, payloads: seq<PayloadId>, attempt: nat)
    requires attempt >= 1
    ensures NoneSucceeds(w, payloads, attempt, attempt)
  {
  }

  lemma Unfinished<R>(w: World<R>, payloads: seq<PayloadId>, a: nat, arrivals: seq<(ItemId, R)>)
    requires a >= 1 && OwnReplies(w, payloads, a, arrivals, BadResponse)
    ensures OwnReplies(w, payloads, a, arrivals, MaxRetriesExceeded)
  {
  }

  lemma FirstFails<R>(w: World<R>, payloads: seq<PayloadId>, attempt: nat, tries: nat)
    requires attempt >= 1 && !Succeeds(w, payloads, attempt) && NoneSucceeds(w, payloads, attempt + 1, tries)
    ensures NoneSucceeds(w, payloads, attempt, tries)
  {
  }

  function Max(a: int, b: int): int {
    if a < b then b else a
  }

  method DrawIds<R>(source: IdSource, w: World<R>, n: nat, attempt: nat) returns (items: seq<ItemId>)
    requires source.Valid() && attempt >= 1 && source.drawn == w.base + (attempt - 1) * n
    modifies source
    ensures source.Valid() && source.drawn == w.base + attempt * n
    ensures items == ItemsOf(w, n, attempt)
  {
    items := [];
    for i := 0 to n
      invariant source.Valid() && source.drawn == w.base + (attempt - 1) * n + i
      invariant items == ItemsOf(w, n, attempt)[..i]
    {
      var id := source.GetNextId(w.letters(attempt, i));
      items := items + [id];
    }
    assert attempt * n == (attempt - 1) * n + n;
  }

  method RunAttempt<R>(source: IdSource, w: World<R>, payloads: seq<PayloadId>, attempt: nat)
      returns (attempted: Attempted<R>, ghost arrivals: seq<(ItemId, R)>)
    requires source.Valid() && attempt >= 1 && source.drawn == w.base + (attempt - 1) * |payloads|
    requires Distinct(payloads)
    modifies source
    ensures source.Valid() && source.drawn == w.base + attempt * |payloads|
    ensures OwnReplies(w, payloads, attempt, arrivals,
                       if attempted.Done? then SyncOutcome.Finished(attempted.results) else BadResponse)
    ensures Clean(w, payloads, attempt) ==> !attempted.Rejected? && (attempted.Done? <==> Succeeds(w, payloads, attempt))
  {
    var items := DrawIds(source, w, |payloads|, attempt);
    hide Enrolled, Attributed, ArrivesOnce, TakenHeard, Keys, ItemsOf, Completes, WellFormed, NoClash, Distinct;
    attempted, arrivals := Attempt(payloads, items, w.script(attempt));
  }

  /** `_make_rpc_request` without a result handler, from the given attempt on. It makes at most the larger of
      one and the allowed number of attempts. What it returns comes from its last attempt alone: each payload
      with its own reply. It succeeds exactly when one of the attempts does, with the first that does. */
  method MakeSyncRequest<R>(source: IdSource, w: World<R>, payloads: seq<PayloadId>, maxRetries: int, attempt: nat)
      returns (outcome: SyncOutcome<R>, tries: nat, ghost arrivals: seq<(ItemId, R)>)
    requires source.Valid() && attempt >= 1 && source.drawn == w.base + (attempt - 1) * |payloads|
    modifies source
    ensures outcome.DuplicateIds? <==> !Distinct(payloads)
    ensures attempt <= tries <= Max(attempt, maxRetries)
    ensures !outcome.DuplicateIds? ==> OwnReplies(w, payloads, tries, arrivals, outcome)
    ensures Distinct(payloads) && AllClean(w, payloads, attempt, Max(attempt, maxRetries)) ==>
              && !outcome.BadResponse?
              && (outcome.Finished? <==> Succeeds(w, payloads, tries))
              && (outcome.MaxRetriesExceeded? ==> tries == Max(attempt, maxRetries))
              && NoneSucceeds(w, payloads, attempt, tries)
    decreases maxRetries - attempt
  {
    tries, arrivals := attempt, [];
    if HasDuplicates(payloads) {
      return SyncOutcome.DuplicateIds, tries, arrivals;
    }
    assert Distinct(payloads);
    hide OwnReplies, Clean, Succeeds, NoneSucceeds, Distinct;
    var attempted: Attempted<R>;
    attempted, arrivals := RunAttempt(source, w, payloads, attempt);
    match attempted {
      case Done(results) =>
        outcome := SyncOutcome.Finished(results);
        NoneYet(w, payloads, attempt);
      case Rejected =>
        outcome := BadResponse;
      case TimedOut =>
        if attempt >= maxRetries {
          Unfinished(w, payloads, attempt, arrivals);
          NoneYet(w, payloads, attempt);
          return MaxRetriesExceeded, tries, arrivals;
        }
        outcome, tries, arrivals := MakeSyncRequest(source, w, payloads, maxRetries, attempt + 1);
        if Distinct(payloads) && AllClean(w, payloads, attempt, Max(attempt, maxRetries)) {
          FirstFails(w, payloads, attempt, tries);
        }
    }
  }
}
