/** The bookkeeping of one batch of requests: which item id stands for which payload, what each payload has
    received, and when the batch is complete.
 */
module Requests {
  import opened Collections
  import opened Dicts

  datatype ItemId = ItemId(text: string)
  datatype PayloadId = PayloadId(text: string)

  /** What a payload has received: the last replies, and whether the latest one completed it. */
  datatype Info<R> = Info(complete: bool, results: seq<R>)

  datatype Manager<R> = Manager(
    responseMap: Dict<ItemId, PayloadId>,
    responses: Dict<PayloadId, Info<R>>,
    payloadsCount: nat)

  const MAX_RESULTS: nat := 100

  function Fresh<R>(payloads: nat): Manager<R> {
    Manager([], [], payloads)
  }

  function AddRequest<R>(m: Manager<R>, item: ItemId, payload: PayloadId): Manager<R> {
    m.(responseMap := Put(m.responseMap, item, payload))
  }

  /** A payload's replies will come under a new item id from now on. */
  function Overwrite<R>(m: Manager<R>, item: ItemId, renamed: ItemId): Manager<R>
    requires Lookup(m.responseMap, item).Some?
  {
    m.(responseMap := Put(Without(m.responseMap, item), renamed, Lookup(m.responseMap, item).value))
  }

  function Received<R>(m: Manager<R>, payload: PayloadId): seq<R> {
    match Lookup(m.responses, payload) case None => [] case Some(info) => info.results
  }

  function AddResponse<R>(m: Manager<R>, item: ItemId, response: R, complete: bool): Manager<R>
    requires Lookup(m.responseMap, item).Some?
  {
    var payload := Lookup(m.responseMap, item).value;
    m.(responses := Put(m.responses, payload, Info(complete, Suffix(Received(m, payload) + [response], MAX_RESULTS))))
  }

  predicate AllComplete<R>(responses: Dict<PayloadId, Info<R>>) {
    forall i :: 0 <= i < |responses| ==> responses[i].1.complete
  }

  predicate IsComplete<R>(m: Manager<R>) {
    AllComplete(m.responses) && |m.responses| == m.payloadsCount
  }

  predicate Open<R>(responses: Dict<PayloadId, Info<R>>, payload: PayloadId) {
    match Lookup(responses, payload) case None => true case Some(info) => !info.complete
  }

  /** The items whose payload is still to be completed, in the order of registration. */
  function Unresponded<R>(mapping: Dict<ItemId, PayloadId>, responses: Dict<PayloadId, Info<R>>): seq<ItemId> {
    if mapping == [] then []
    else (if Open(responses, mapping[0].1) then [mapping[0].0] else []) + Unresponded(mapping[1..], responses)
  }

  /** Listed are the items of payloads without a reply, or whose latest reply does not complete them, in the order of
      registration. */
  lemma {:induction false} UnrespondedIs<R>(mapping: Dict<ItemId, PayloadId>, more: Dict<ItemId, PayloadId>,
                                            responses: Dict<PayloadId, Info<R>>, item: ItemId, payload: PayloadId)
    ensures Unresponded(mapping + more, responses) == Unresponded(mapping, responses) + Unresponded(more, responses)
    ensures Unresponded([(item, payload)], responses)
            == if Lookup(responses, payload).None? || !Lookup(responses, payload).value.complete then [item] else []
  {
    assert [(item, payload)][1..] == [];
    if mapping == [] {
      assert mapping + more == more;
    } else {
      assert (mapping + more)[1..] == mapping[1..] + more;
      UnrespondedIs(mapping[1..], more, responses, item, payload);
    }
  }

  /** What the three operations make of the items and of the payloads' replies. */
  lemma ManagerLookups<R>(m: Manager<R>, item: ItemId, payload: PayloadId, renamed: ItemId, other: ItemId, response: R,
                          complete: bool, another: PayloadId)
    ensures Lookup(AddRequest(m, item, payload).responseMap, other) == if other == item then Some(payload) else Lookup(m.responseMap, other)
    ensures Lookup(m.responseMap, item).Some? ==>
              Lookup(Overwrite(m, item, renamed).responseMap, other)
              == if other == renamed then Lookup(m.responseMap, item)
                 else if other == item then None else Lookup(m.responseMap, other)
    ensures Lookup(m.responseMap, item) == Some(payload) ==>
              Lookup(AddResponse(m, item, response, complete).responses, another)
              == if another != payload then Lookup(m.responses, another)
                 else
                   var before := if Lookup(m.responses, payload).Some? then Lookup(m.responses, payload).value.results else [];
                   var all := before + [response];
                   Some(Info(complete, if |all| > 100 then all[|all| - 100..] else all))
  {
    PutLookup(m.responseMap, item, payload, other);
    if Lookup(m.responseMap, item).Some? {
      PutLookup(Without(m.responseMap, item), renamed, Lookup(m.responseMap, item).value, other);
      LookupWithout(m.responseMap, item, other);
    }
    PutLookup(m.responses, payload, Info(complete, Suffix(Received(m, payload) + [response], MAX_RESULTS)), another);
    hide Lookup, Put, Without;
  }

  /** Items stand in the order of their registration: a new one comes last, and a known one keeps its place. */
  lemma ManagerOrder<R>(m: Manager<R>, item: ItemId, payload: PayloadId, renamed: ItemId)
    ensures item !in Keys(m.responseMap) ==> AddRequest(m, item, payload).responseMap == m.responseMap + [(item, payload)]
    ensures item in Keys(m.responseMap) ==>
              && |AddRequest(m, item, payload).responseMap| == |m.responseMap|
              && forall i :: 0 <= i < |m.responseMap| ==> AddRequest(m, item, payload).responseMap[i].0 == m.responseMap[i].0
    ensures Lookup(m.responseMap, item) == Some(payload) && renamed !in Keys(m.responseMap) ==>
              Overwrite(m, item, renamed).responseMap == Without(m.responseMap, item) + [(renamed, payload)]
  {
    hide Lookup, Put, Keys, Without;
    if item in Keys(m.responseMap) {
      PutInPlace(m.responseMap, item, payload);
    } else {
      PutAbsent(m.responseMap, item, payload);
    }
    if Lookup(m.responseMap, item) == Some(payload) && renamed !in Keys(m.responseMap) {
      WithoutMembers(m.responseMap, item);
      PutAbsent(Without(m.responseMap, item), renamed, payload);
    }
  }

  /* ---------- The replies as they came ---------- */

  datatype Reply<R> = Reply(payload: PayloadId, response: R, complete: bool)

  function Own<R>(log: seq<Reply<R>>, payload: PayloadId): seq<Reply<R>> {
    if log == [] then []
    else
      var before, last := Own(log[..|log| - 1], payload), log[|log| - 1];
      if last.payload == payload then before + [last] else before
  }

  function Responses<R>(own: seq<Reply<R>>): (s: seq<R>)
    ensures |s| == |own|
  {
    seq(|own|, i requires 0 <= i < |own| => own[i].response)
  }

  /** What the replies of one payload amount to. */
  function Summary<R>(own: seq<Reply<R>>): Option<Info<R>> {
    if own == [] then None
    else Some(Info(own[|own| - 1].complete, Suffix(Responses(own), MAX_RESULTS)))
  }

  function Swap<A, B>(d: Dict<A, B>): (s: Dict<B, A>)
    ensures |s| == |d|
  {
    seq(|d|, i requires 0 <= i < |d| => (d[i].1, d[i].0))
  }

  /** Each payload stands under exactly one item id, and only payloads do. */
  ghost predicate Registered(mapping: Dict<ItemId, PayloadId>, payloads: set<PayloadId>) {
    Unique(mapping) && Unique(Swap(mapping)) && Keys(Swap(mapping)) == payloads
  }

  /** Each payload's entry sums up its own replies, and only replies make entries. */
  ghost predicate SumsUp<R>(responses: Dict<PayloadId, Info<R>>, log: seq<Reply<R>>) {
    Unique(responses) && forall payload :: Lookup(responses, payload) == Summary(Own(log, payload))
  }

  ghost predicate Valid<R>(m: Manager<R>, payloads: set<PayloadId>, log: seq<Reply<R>>) {
    && Registered(m.responseMap, payloads)
    && |payloads| == m.payloadsCount
    && SumsUp(m.responses, log)
    && Keys(m.responses) <= payloads
  }

  lemma {:induction false} UnrespondedIff<R>(mapping: Dict<ItemId, PayloadId>, responses: Dict<PayloadId, Info<R>>)
    ensures Unresponded(mapping, responses) == [] <==> forall payload :: payload in Keys(Swap(mapping)) ==> !Open(responses, payload)
  {
    if mapping != [] {
      assert Swap(mapping)[1..] == Swap(mapping[1..]);
      UnrespondedIff(mapping[1..], responses);
    }
  }

  lemma {:induction false} AllCompleteIff<R>(responses: Dict<PayloadId, Info<R>>)
    requires Unique(responses)
    ensures AllComplete(responses) <==> forall payload :: payload in Keys(responses) ==> !Open(responses, payload)
  {
    if AllComplete(responses) {
      forall payload | payload in Keys(responses) ensures !Open(responses, payload) {
        LookupInKeys(responses, payload);
      }
    }
    if !AllComplete(responses) {
      var i :| 0 <= i < |responses| && !responses[i].1.complete;
      KeyAt(responses, i);
      LookupUnique(responses, i);
      assert Open(responses, responses[i].0);
    }
  }

  /** A batch counts as complete exactly when no registered item is still to be responded to. */
  lemma CompleteIffNothingOpen<R>(m: Manager<R>, payloads: set<PayloadId>, log: seq<Reply<R>>)
    requires Valid(m, payloads, log)
    ensures IsComplete(m) <==> Unresponded(m.responseMap, m.responses) == []
  {
    hide Keys, Lookup, Unique, Swap, Unresponded, AllComplete;
    UnrespondedIff(m.responseMap, m.responses);
    AllCompleteIff(m.responses);
    UniqueCount(m.responses);
    if IsComplete(m) {
      FullSubset(Keys(m.responses), payloads);
    }
    if Unresponded(m.responseMap, m.responses) == [] {
      forall payload | payload in payloads ensures payload in Keys(m.responses) {
        LookupInKeys(m.responses, payload);
        assert !Open(m.responses, payload);
      }
      assert Keys(m.responses) == payloads;
    }
  }

  /* ---------- Steps ---------- */

  lemma {:induction false} SwapConcat<A, B>(a: Dict<A, B>, b: Dict<A, B>)
    ensures Swap(a + b) == Swap(a) + Swap(b)
  {
  }

  lemma AddRequestKeeps(mapping: Dict<ItemId, PayloadId>, payloads: set<PayloadId>, item: ItemId, payload: PayloadId)
    requires Registered(mapping, payloads) && item !in Keys(mapping) && payload !in payloads
    ensures Registered(Put(mapping, item, payload), payloads + {payload})
  {
    hide Keys, Unique, Swap, Put;
    PutAbsent(mapping, item, payload);
    PutKeys(mapping, item, payload);
    SwapConcat(mapping, [(item, payload)]);
    SwapOne(item, payload);
    SingleKey((payload, item));
    UniqueConcat(Swap(mapping), [(payload, item)]);
    KeysConcat(Swap(mapping), [(payload, item)]);
  }

  lemma SwapOne<A, B>(a: A, b: B)
    ensures Swap([(a, b)]) == [(b, a)]
  {
  }

  lemma {:induction false} SwapWithout(mapping: Dict<ItemId, PayloadId>, item: ItemId)
    requires Unique(mapping) && Unique(Swap(mapping)) && Lookup(mapping, item).Some?
    ensures Unique(Swap(Without(mapping, item)))
    ensures Keys(Swap(Without(mapping, item))) == Keys(Swap(mapping)) - {Lookup(mapping, item).value}
    ensures Lookup(mapping, item).value in Keys(Swap(mapping))
  {
    var swapped := Swap(mapping);
    assert swapped[1..] == Swap(mapping[1..]) && swapped[0] == (mapping[0].1, mapping[0].0);
    if mapping[0].0 == item {
      WithoutAbsent(mapping[1..], item);
    } else {
      SwapWithout(mapping[1..], item);
      var rest := Without(mapping[1..], item);
      assert Swap([mapping[0]] + rest)[0] == (mapping[0].1, mapping[0].0);
      assert Swap([mapping[0]] + rest)[1..] == Swap(rest);
    }
  }

  /** Renaming an item keeps one item per payload exactly when the new id does not stand for another item. */
  lemma OverwriteKeepsIff<R>(m: Manager<R>, payloads: set<PayloadId>, item: ItemId, renamed: ItemId)
    requires Registered(m.responseMap, payloads) && Lookup(m.responseMap, item).Some?
    ensures Registered(Overwrite(m, item, renamed).responseMap, payloads)
            <==> renamed !in Keys(m.responseMap) || renamed == item
  {
    var payload := Lookup(m.responseMap, item).value;
    WithoutMembers(m.responseMap, item);
    if renamed !in Keys(m.responseMap) || renamed == item {
      RenameKeeps(m.responseMap, payloads, item, renamed);
    } else {
      RenameClobbers(m.responseMap, payloads, item, renamed);
    }
  }

  lemma RenameKeeps(mapping: Dict<ItemId, PayloadId>, payloads: set<PayloadId>, item: ItemId, renamed: ItemId)
    requires Registered(mapping, payloads) && Lookup(mapping, item).Some?
    requires renamed !in Keys(Without(mapping, item))
    ensures Registered(Put(Without(mapping, item), renamed, Lookup(mapping, item).value), payloads)
  {
    hide Keys, Unique, Swap, Put, Without, Lookup;
    var payload := Lookup(mapping, item).value;
    SwapWithout(mapping, item);
    WithoutUnique(mapping, item);
    AddRequestKeeps(Without(mapping, item), payloads - {payload}, renamed, payload);
    assert payloads - {payload} + {payload} == payloads;
  }

  /** The other item's payload is lost: fewer entries remain than there are payloads. */
  lemma RenameClobbers(mapping: Dict<ItemId, PayloadId>, payloads: set<PayloadId>, item: ItemId, renamed: ItemId)
    requires Registered(mapping, payloads) && Lookup(mapping, item).Some?
    requires renamed in Keys(Without(mapping, item))
    ensures !Registered(Put(Without(mapping, item), renamed, Lookup(mapping, item).value), payloads)
  {
    hide Keys, Unique, Swap, Put, Without, Lookup;
    var payload := Lookup(mapping, item).value;
    LookupInKeys(mapping, item);
    WithoutUnique(mapping, item);
    PutCount(Without(mapping, item), renamed, payload);
    UniqueCount(Swap(mapping));
    KeysAtMost(Swap(Put(Without(mapping, item), renamed, payload)));
  }

  lemma {:induction false} PutCount<K, V>(d: Dict<K, V>, key: K, value: V)
    requires key in Keys(d)
    ensures |Put(d, key, value)| == |d|
  {
    if d[0].0 != key {
      PutCount(d[1..], key, value);
    }
  }

  lemma OwnSnoc<R>(log: seq<Reply<R>>, r: Reply<R>, payload: PayloadId)
    ensures Own(log + [r], payload) == if r.payload == payload then Own(log, payload) + [r] else Own(log, payload)
  {
    assert (log + [r])[..|log|] == log;
  }

  /** Keeping the last replies one by one keeps the last replies. */
  lemma SuffixSnoc<T>(s: seq<T>, e: T, n: nat)
    requires n > 0
    ensures Suffix(Suffix(s, n) + [e], n) == Suffix(s + [e], n)
  {
  }

  lemma SummarySnoc<R>(own: seq<Reply<R>>, r: Reply<R>)
    ensures var results := match Summary(own) case None => [] case Some(info) => info.results;
            Summary(own + [r]) == Some(Info(r.complete, Suffix(results + [r.response], MAX_RESULTS)))
  {
    SuffixSnoc(Responses(own), r.response, MAX_RESULTS);
    assert Responses(own + [r]) == Responses(own) + [r.response];
    if own == [] {
      SuffixShort<R>([], MAX_RESULTS);
    }
    hide Suffix;
  }

  lemma SumsUpAfter<R>(m: Manager<R>, log: seq<Reply<R>>, r: Reply<R>)
    requires SumsUp(m.responses, log)
    ensures SumsUp(Put(m.responses, r.payload, Info(r.complete, Suffix(Received(m, r.payload) + [r.response], MAX_RESULTS))),
                   log + [r])
  {
    var info := Info(r.complete, Suffix(Received(m, r.payload) + [r.response], MAX_RESULTS));
    hide Keys, Unique, Put, Lookup, Own, Suffix, Summary;
    PutKeys(m.responses, r.payload, info);
    SummarySnoc(Own(log, r.payload), r);
    forall other ensures Lookup(Put(m.responses, r.payload, info), other) == Summary(Own(log + [r], other)) {
      PutLookup(m.responses, r.payload, info, other);
      OwnSnoc(log, r, other);
    }
  }

  lemma AddResponseKeeps<R>(m: Manager<R>, payloads: set<PayloadId>, log: seq<Reply<R>>, item: ItemId, response: R,
                            complete: bool)
    requires Valid(m, payloads, log) && Lookup(m.responseMap, item).Some?
    ensures var payload := Lookup(m.responseMap, item).value;
            payload in payloads
            && Valid(AddResponse(m, item, response, complete), payloads, log + [Reply(payload, response, complete)])
  {
    var payload := Lookup(m.responseMap, item).value;
    SwapWithout(m.responseMap, item);
    hide Keys, Unique, Swap, Put, Lookup, Own, Suffix, SumsUp;
    SumsUpAfter(m, log, Reply(payload, response, complete));
    PutKeys(m.responses, payload, Info(complete, Suffix(Received(m, payload) + [response], MAX_RESULTS)));
  }

  lemma SuffixShort<T>(s: seq<T>, n: nat)
    requires |s| <= n
    ensures Suffix(s, n) == s
  {
  }

  /* ---------- Driving a batch ---------- */

  datatype Op<R> = Rename(item: ItemId, renamed: ItemId) | Respond(item: ItemId, response: R, complete: bool)

  predicate OpEnabled<R>(m: Manager<R>, op: Op<R>) {
    Lookup(m.responseMap, op.item).Some?
    && match op
       case Rename(_, renamed) => renamed !in Keys(m.responseMap)
       case Respond(item, _, _) => Open(m.responses, Lookup(m.responseMap, item).value)
  }

  function Apply<R>(m: Manager<R>, op: Op<R>): Manager<R>
    requires OpEnabled(m, op)
  {
    match op
    case Rename(item, renamed) => Overwrite(m, item, renamed)
    case Respond(item, response, complete) => AddResponse(m, item, response, complete)
  }

  /** Responses are only taken for open items, and subscription ids are new. */
  ghost predicate ValidDrive<R>(m: Manager<R>, ops: seq<Op<R>>)
    decreases |ops|, 0
  {
    ops == [] || (ValidDrive(m, ops[..|ops| - 1]) && OpEnabled(Drive(m, ops[..|ops| - 1]), ops[|ops| - 1]))
  }

  ghost function Drive<R>(m: Manager<R>, ops: seq<Op<R>>): Manager<R>
    requires ValidDrive(m, ops)
    decreases |ops|, 1
  {
    if ops == [] then m else Apply(Drive(m, ops[..|ops| - 1]), ops[|ops| - 1])
  }

  /** The replies of a drive, attributed to payloads. */
  ghost function Log<R>(m: Manager<R>, ops: seq<Op<R>>): seq<Reply<R>>
    requires ValidDrive(m, ops)
    decreases |ops|
  {
    if ops == [] then []
    else
      var before, op := Log(m, ops[..|ops| - 1]), ops[|ops| - 1];
      match op
      case Rename(_, _) => before
      case Respond(item, response, complete) =>
        before + [Reply(Lookup(Drive(m, ops[..|ops| - 1]).responseMap, item).value, response, complete)]
  }

  /** Of each payload's replies only the last can complete it. */
  ghost predicate OnlyLastCompletes<R>(own: seq<Reply<R>>) {
    forall i :: 0 <= i < |own| - 1 ==> !own[i].complete
  }

  lemma {:induction false} DriveValid<R>(m: Manager<R>, payloads: set<PayloadId>, ops: seq<Op<R>>)
    requires Valid(m, payloads, []) && ValidDrive(m, ops)
    ensures Valid(Drive(m, ops), payloads, Log(m, ops))
    ensures forall payload :: OnlyLastCompletes(Own(Log(m, ops), payload))
    decreases |ops|
  {
    hide Lookup, Keys, Own, Registered, SumsUp;
    if ops == [] {
      forall payload ensures OnlyLastCompletes(Own(Log(m, ops), payload)) {
        NoReplies<R>(payload);
      }
    } else {
      var init, op := ops[..|ops| - 1], ops[|ops| - 1];
      DriveValid(m, payloads, init);
      var s, log := Drive(m, init), Log(m, init);
      match op {
        case Rename(item, renamed) =>
          OverwriteKeepsIff(s, payloads, item, renamed);
        case Respond(item, response, complete) =>
          AddResponseKeeps(s, payloads, log, item, response, complete);
          var r := Reply(Lookup(s.responseMap, item).value, response, complete);
          OpenNotCompleted(s, payloads, log, r.payload);
          forall payload ensures OnlyLastCompletes(Own(log + [r], payload)) {
            OwnSnoc(log, r, payload);
            assert OnlyLastCompletes(Own(log, payload));
          }
      }
    }
  }

  lemma NoReplies<R>(payload: PayloadId)
    ensures Own<R>([], payload) == []
  {
  }

  lemma OpenNotCompleted<R>(m: Manager<R>, payloads: set<PayloadId>, log: seq<Reply<R>>, payload: PayloadId)
    requires Valid(m, payloads, log) && Open(m.responses, payload)
    ensures var own := Own(log, payload); own != [] ==> !own[|own| - 1].complete
  {
    assert Lookup(m.responses, payload) == Summary(Own(log, payload));
  }

  /** The responses of the last hundred replies, or of all if they are fewer, in order. */
  ghost predicate LastHundred<R>(own: seq<Reply<R>>, results: seq<R>) {
    && |results| == (if |own| < 100 then |own| else 100)
    && forall j :: 0 <= j < |results| ==> results[j] == own[|own| - |results| + j].response
  }

  lemma SuffixIsLast<R>(own: seq<Reply<R>>)
    ensures LastHundred(own, Suffix(Responses(own), MAX_RESULTS))
  {
  }

  /** At exit: each payload maps to its own replies, the last hundred of them in order of arrival, of which
      exactly the last one completed it. Nothing of one payload reaches another. */
  lemma ResultsAtExit<R>(m: Manager<R>, payloads: set<PayloadId>, ops: seq<Op<R>>, payload: PayloadId)
    requires Valid(m, payloads, []) && ValidDrive(m, ops) && IsComplete(Drive(m, ops))
    requires payload in payloads
    ensures var own := Own(Log(m, ops), payload);
            && own != []
            && own[|own| - 1].complete && OnlyLastCompletes(own)
            && Lookup(Drive(m, ops).responses, payload) == Some(Info(true, Suffix(Responses(own), MAX_RESULTS)))
            && LastHundred(own, Lookup(Drive(m, ops).responses, payload).value.results)
  {
    hide Own, Suffix, Responses, LastHundred, Drive, ValidDrive, Log, Lookup, Unresponded;
    DriveValid(m, payloads, ops);
    SuffixIsLast(Own(Log(m, ops), payload));
    var end := Drive(m, ops);
    CompleteIffNothingOpen(end, payloads, Log(m, ops));
    UnrespondedIff(end.responseMap, end.responses);
    assert !Open(end.responses, payload);
    assert Lookup(end.responses, payload) == Summary(Own(Log(m, ops), payload));
  }

  /* ---------- A batch of single replies ---------- */

  /** One completing reply per item, in order of arrival. */
  function Batch<R>(arrivals: seq<(ItemId, R)>): (ops: seq<Op<R>>)
    ensures |ops| == |arrivals|
  {
    seq(|arrivals|, i requires 0 <= i < |arrivals| => Respond(arrivals[i].0, arrivals[i].1, true))
  }

  ghost predicate ArrivesOnce<R>(mapping: Dict<ItemId, PayloadId>, arrivals: seq<(ItemId, R)>) {
    Unique(arrivals) && Keys(arrivals) <= Keys(mapping)
  }

  function Attributed<R>(mapping: Dict<ItemId, PayloadId>, arrivals: seq<(ItemId, R)>): Dict<PayloadId, Info<R>>
    requires Keys(arrivals) <= Keys(mapping)
  {
    if arrivals == [] then []
    else
      var last := arrivals[|arrivals| - 1];
      KeyAt(arrivals, |arrivals| - 1);
      LookupInKeys(mapping, last.0);
      PrefixKeys(arrivals);
      Attributed(mapping, arrivals[..|arrivals| - 1]) + [(Lookup(mapping, last.0).value, Info(true, [last.1]))]
  }

  lemma PrefixKeys<K, V>(d: Dict<K, V>)
    requires d != []
    ensures Keys(d) == Keys(d[..|d| - 1]) + {d[|d| - 1].0}
    ensures Unique(d) ==> Unique(d[..|d| - 1]) && d[|d| - 1].0 !in Keys(d[..|d| - 1])
  {
    assert d == d[..|d| - 1] + [d[|d| - 1]];
    KeysConcat(d[..|d| - 1], [d[|d| - 1]]);
    UniqueConcat(d[..|d| - 1], [d[|d| - 1]]);
    SingleKey(d[|d| - 1]);
  }

  lemma {:induction false} AttributedKeys<R>(mapping: Dict<ItemId, PayloadId>, arrivals: seq<(ItemId, R)>, item: ItemId)
    requires Unique(mapping) && Unique(Swap(mapping)) && Keys(arrivals) <= Keys(mapping)
    requires Lookup(mapping, item).Some?
    ensures Lookup(mapping, item).value in Keys(Attributed(mapping, arrivals)) <==> item in Keys(arrivals)
    decreases |arrivals|
  {
    if arrivals != [] {
      var init, last := arrivals[..|arrivals| - 1], arrivals[|arrivals| - 1];
      PrefixKeys(arrivals);
      LookupInKeys(mapping, last.0);
      LookupInKeys(mapping, item);
      hide Keys, Lookup, Unique, Swap;
      AttributedKeys(mapping, init, item);
      OneItemPerPayload(mapping, item, last.0);
      var e := (Lookup(mapping, last.0).value, Info(true, [last.1]));
      KeysConcat(Attributed(mapping, init), [e]);
      SingleKey(e);
    }
  }

  lemma BatchSnoc<R>(arrivals: seq<(ItemId, R)>, last: (ItemId, R))
    ensures Batch(arrivals + [last]) == Batch(arrivals) + [Respond(last.0, last.1, true)]
  {
  }

  lemma DriveOneMore<R>(m: Manager<R>, ops: seq<Op<R>>, op: Op<R>)
    requires ValidDrive(m, ops) && OpEnabled(Drive(m, ops), op)
    ensures ValidDrive(m, ops + [op]) && Drive(m, ops + [op]) == Apply(Drive(m, ops), op)
  {
    assert (ops + [op])[..|ops|] == ops;
    hide Lookup, OpEnabled, Apply;
  }

  lemma ArrivalsLast<R>(mapping: Dict<ItemId, PayloadId>, arrivals: seq<(ItemId, R)>)
    requires arrivals != [] && ArrivesOnce(mapping, arrivals)
    ensures ArrivesOnce(mapping, arrivals[..|arrivals| - 1])
    ensures var init, (item, response) := arrivals[..|arrivals| - 1], arrivals[|arrivals| - 1];
            && Keys(init) <= Keys(mapping) && item !in Keys(init)
            && Lookup(mapping, item).Some?
            && Attributed(mapping, arrivals)
               == Attributed(mapping, init) + [(Lookup(mapping, item).value, Info(true, [response]))]
  {
    hide Keys, Lookup, Unique;
    PrefixKeys(arrivals);
    LookupInKeys(mapping, arrivals[|arrivals| - 1].0);
  }

  /** In a batch without subscriptions the results are listed in the order in which the replies arrived,
      each payload with the one reply to its own item; nothing is lost, whatever that order is. */
  lemma {:induction false} BatchInArrivalOrder<R>(m: Manager<R>, payloads: set<PayloadId>, arrivals: seq<(ItemId, R)>)
    requires Valid(m, payloads, []) && m.responses == []
    requires ArrivesOnce(m.responseMap, arrivals)
    ensures ValidDrive(m, Batch(arrivals))
    ensures Drive(m, Batch(arrivals)) == m.(responses := Attributed(m.responseMap, arrivals))
    decreases |arrivals|
  {
    hide Unique, Swap, Keys, SumsUp, Batch, Drive, ValidDrive, Lookup, Attributed;
    if arrivals == [] {
      NoBatch(m);
    } else {
      var init, last := arrivals[..|arrivals| - 1], arrivals[|arrivals| - 1];
      assert arrivals == init + [last];
      BatchSnoc(init, last);
      ArrivalsLast(m.responseMap, arrivals);
      BatchInArrivalOrder(m, payloads, init);
      BatchOneMore(m, init, last.0, last.1);
    }
  }

  lemma NoBatch<R>(m: Manager<R>)
    requires m.responses == []
    ensures ValidDrive(m, Batch([])) && Drive(m, Batch([])) == m.(responses := Attributed(m.responseMap, []))
  {
  }

  lemma BatchOneMore<R>(m: Manager<R>, arrivals: seq<(ItemId, R)>, item: ItemId, response: R)
    requires Unique(m.responseMap) && Unique(Swap(m.responseMap)) && Keys(arrivals) <= Keys(m.responseMap)
    requires Lookup(m.responseMap, item).Some? && item !in Keys(arrivals)
    requires ValidDrive(m, Batch(arrivals))
    requires Drive(m, Batch(arrivals)) == m.(responses := Attributed(m.responseMap, arrivals))
    ensures var ops := Batch(arrivals) + [Respond(item, response, true)];
            && ValidDrive(m, ops)
            && Drive(m, ops) == m.(responses := Attributed(m.responseMap, arrivals)
                                                + [(Lookup(m.responseMap, item).value, Info(true, [response]))])
  {
    hide Keys, Lookup, Unique, Put, Swap, Attributed, Batch, Drive, ValidDrive;
    AttributedKeys(m.responseMap, arrivals, item);
    OneMoreReply(Drive(m, Batch(arrivals)), item, response);
    DriveOneMore(m, Batch(arrivals), Respond(item, response, true));
  }

  lemma OneMoreReply<R>(s: Manager<R>, item: ItemId, response: R)
    requires Lookup(s.responseMap, item).Some? && Lookup(s.responseMap, item).value !in Keys(s.responses)
    ensures Open(s.responses, Lookup(s.responseMap, item).value)
    ensures AddResponse(s, item, response, true).responses
            == s.responses + [(Lookup(s.responseMap, item).value, Info(true, [response]))]
  {
    var payload := Lookup(s.responseMap, item).value;
    LookupInKeys(s.responses, payload);
    assert [] + [response] == [response];
    PutAbsent(s.responses, payload, Info(true, [response]));
  }

  /** Such a batch is complete exactly when every item has been replied to. */
  lemma BatchCompleteIff<R>(m: Manager<R>, payloads: set<PayloadId>, arrivals: seq<(ItemId, R)>)
    requires Valid(m, payloads, []) && m.responses == []
    requires ArrivesOnce(m.responseMap, arrivals)
    ensures ValidDrive(m, Batch(arrivals))
    ensures IsComplete(Drive(m, Batch(arrivals))) <==> Keys(arrivals) == Keys(m.responseMap)
  {
    BatchInArrivalOrder(m, payloads, arrivals);
    AttributedAll(m.responseMap, arrivals);
    UniqueCount(arrivals);
    UniqueCount(m.responseMap);
    UniqueCount(Swap(m.responseMap));
    hide Keys, Lookup, Unique, Swap, Attributed;
    if |arrivals| == |m.responseMap| {
      FullSubset(Keys(arrivals), Keys(m.responseMap));
    }
  }

  lemma {:induction false} AttributedAll<R>(mapping: Dict<ItemId, PayloadId>, arrivals: seq<(ItemId, R)>)
    requires Keys(arrivals) <= Keys(mapping)
    ensures |Attributed(mapping, arrivals)| == |arrivals|
    ensures AllComplete(Attributed(mapping, arrivals))
    decreases |arrivals|
  {
    if arrivals != [] {
      PrefixKeys(arrivals);
      AttributedAll(mapping, arrivals[..|arrivals| - 1]);
    }
  }

  lemma {:induction false} OneItemPerPayload(mapping: Dict<ItemId, PayloadId>, a: ItemId, b: ItemId)
    requires Unique(mapping) && Unique(Swap(mapping)) && a in Keys(mapping) && b in Keys(mapping)
    ensures Lookup(mapping, a).Some? && Lookup(mapping, b).Some?
    ensures Lookup(mapping, a) == Lookup(mapping, b) ==> a == b
  {
    LookupInKeys(mapping, a);
    LookupInKeys(mapping, b);
    var i :| 0 <= i < |mapping| && mapping[i] == (a, Lookup(mapping, a).value);
    var j :| 0 <= j < |mapping| && mapping[j] == (b, Lookup(mapping, b).value);
    if i < j {
      UniqueAt(Swap(mapping), i, j);
    } else if j < i {
      UniqueAt(Swap(mapping), j, i);
    }
  }

  /* ---------- The manager ---------- */

  class RequestManager<R> {
    var responseMap: Dict<ItemId, PayloadId>
    var responses: Dict<PayloadId, Info<R>>
    const payloadsCount: nat

    ghost function View(): Manager<R>
      reads this
    {
      Manager(responseMap, responses, payloadsCount)
    }

    constructor (payloads: nat)
      ensures View() == Fresh(payloads)
    {
      responseMap, responses, payloadsCount := [], [], payloads;
    }

    method Add(item: ItemId, payload: PayloadId)
      modifies this
      ensures View() == AddRequest(old(View()), item, payload)
    {
      responseMap := Put(responseMap, item, payload);
    }

    method OverwriteRequest(item: ItemId, renamed: ItemId)
      requires Lookup(responseMap, item).Some?
      modifies this
      ensures View() == Overwrite(old(View()), item, renamed)
    {
      var payload := Lookup(responseMap, item).value;
      responseMap := Without(responseMap, item);
      responseMap := Put(responseMap, renamed, payload);
    }

    method Record(item: ItemId, response: R, complete: bool)
      requires Lookup(responseMap, item).Some?
      modifies this
      ensures View() == AddResponse(old(View()), item, response, complete)
    {
      var payload := Lookup(responseMap, item).value;
      var info := Lookup(responses, payload);
      var results := if info.Some? then info.value.results else [];
      results := results + [response];
      if |results| > MAX_RESULTS {
        results := results[|results| - MAX_RESULTS..];
      }
      responses := Put(responses, payload, Info(complete, results));
    }

    method ListUnresponded() returns (items: seq<ItemId>)
      ensures items == Unresponded(responseMap, responses)
    {
      items := [];
      for i := 0 to |responseMap|
        invariant items + Unresponded(responseMap[i..], responses) == Unresponded(responseMap, responses)
      {
        assert responseMap[i..][1..] == responseMap[i + 1..];
        if Open(responses, responseMap[i].1) {
          items := items + [responseMap[i].0];
        }
      }
    }
  }

  /* ---------- Making a request ---------- */

  /** What was submitted, under the ids that the websocket gave. */
  function Submitted<P>(items: seq<ItemId>, payloads: seq<P>): (mapping: Dict<ItemId, P>)
    requires |items| == |payloads|
    ensures |mapping| == |items|
  {
    seq(|items|, i requires 0 <= i < |items| => (items[i], payloads[i]))
  }

  lemma {:induction false} DistinctUnique<K, V>(d: Dict<K, V>)
    requires forall i, j :: 0 <= i < j < |d| ==> d[i].0 != d[j].0
    ensures Unique(d)
  {
    if d != [] {
      DistinctUnique(d[1..]);
      NotAKey(d[1..], d[0].0);
    }
  }

  lemma {:induction false} SubmittedRegistered<R>(items: seq<ItemId>, payloads: seq<PayloadId>)
    requires |items| == |payloads| && Distinct(items) && Distinct(payloads)
    ensures Valid(Fresh<R>(|payloads|).(responseMap := Submitted(items, payloads)), Keys(Swap(Submitted(items, payloads))), [])
  {
    var mapping := Submitted(items, payloads);
    DistinctUnique(mapping);
    DistinctUnique(Swap(mapping));
    UniqueCount(Swap(mapping));
  }

  /** The listed items are registered, different from each other, and open. */
  lemma {:induction false} UnrespondedItems<R>(mapping: Dict<ItemId, PayloadId>, responses: Dict<PayloadId, Info<R>>)
    requires Unique(mapping)
    ensures forall i :: 0 <= i < |Unresponded(mapping, responses)| ==>
              var item := Unresponded(mapping, responses)[i];
              item in Keys(mapping) && Lookup(mapping, item).Some? && Open(responses, Lookup(mapping, item).value)
    ensures Distinct(Unresponded(mapping, responses))
  {
    if mapping != [] {
      UnrespondedItems(mapping[1..], responses);
    }
  }

  lemma {:induction false} AttributedNotOpen<R>(mapping: Dict<ItemId, PayloadId>, arrivals: seq<(ItemId, R)>, item: ItemId)
    requires Unique(mapping) && Unique(Swap(mapping)) && Keys(arrivals) <= Keys(mapping) && Lookup(mapping, item).Some?
    requires Open(Attributed(mapping, arrivals), Lookup(mapping, item).value)
    ensures item !in Keys(arrivals)
  {
    var responses, payload := Attributed(mapping, arrivals), Lookup(mapping, item).value;
    AttributedKeys(mapping, arrivals, item);
    AttributedAll(mapping, arrivals);
    LookupInKeys(responses, payload);
    hide Attributed, Keys, Unique, Swap;
  }

  ghost predicate OneToOne(mapping: Dict<ItemId, PayloadId>) {
    Unique(mapping) && Unique(Swap(mapping))
  }

  lemma {:induction false} OpenIsListed<R>(mapping: Dict<ItemId, PayloadId>, responses: Dict<PayloadId, Info<R>>, item: ItemId)
    requires item in Keys(mapping) && Lookup(mapping, item).Some? && Open(responses, Lookup(mapping, item).value)
    ensures item in Unresponded(mapping, responses)
  {
    if mapping[0].0 != item {
      OpenIsListed(mapping[1..], responses, item);
    }
  }

  lemma NotListed<R>(mapping: Dict<ItemId, PayloadId>, arrivals: seq<(ItemId, R)>, item: ItemId)
    requires OneToOne(mapping) && Keys(arrivals) <= Keys(mapping) && Lookup(mapping, item).Some?
    requires item !in Unresponded(mapping, Attributed(mapping, arrivals))
    ensures item in Keys(arrivals)
  {
    var responses := Attributed(mapping, arrivals);
    LookupInKeys(mapping, item);
    LookupInKeys(responses, Lookup(mapping, item).value);
    AttributedKeys(mapping, arrivals, item);
    hide Attributed, Keys, Unique, Swap, Unresponded;
    if Open(responses, Lookup(mapping, item).value) {
      OpenIsListed(mapping, responses, item);
    }
  }

  lemma {:induction false} ResponsesOfPayloads<R>(mapping: Dict<ItemId, PayloadId>, arrivals: seq<(ItemId, R)>)
    requires OneToOne(mapping) && Keys(arrivals) <= Keys(mapping)
    ensures Keys(Attributed(mapping, arrivals)) <= Keys(Swap(mapping))
    decreases |arrivals|
  {
    if arrivals != [] {
      var init, last := arrivals[..|arrivals| - 1], arrivals[|arrivals| - 1];
      PrefixKeys(arrivals);
      LookupInKeys(mapping, last.0);
      SwapWithout(mapping, last.0);
      hide Keys, Lookup, Unique, Swap;
      ResponsesOfPayloads(mapping, init);
      var e := (Lookup(mapping, last.0).value, Info(true, [last.1]));
      KeysConcat(Attributed(mapping, init), [e]);
      SingleKey(e);
    }
  }

  /** No item's id reads like a payload's. */
  ghost predicate NoClash(items: seq<ItemId>, payloads: seq<PayloadId>) {
    forall i :: 0 <= i < |items| ==> PayloadId(items[i].text) !in payloads
  }

  /** What polling the websocket yields, round by round. */
  ghost predicate Polled<R>(polls: seq<Dict<ItemId, R>>, arrivals: seq<(ItemId, R)>) {
    forall i :: 0 <= i < |arrivals| ==>
      exists k :: 0 <= k < |polls| && Lookup(polls[k], arrivals[i].0) == Some(arrivals[i].1)
  }

  /** One more reply for an item still open. */
  lemma ArrivesNext<R>(mapping: Dict<ItemId, PayloadId>, arrivals: seq<(ItemId, R)>, item: ItemId, response: R)
    requires ArrivesOnce(mapping, arrivals) && item in Keys(mapping) && item !in Keys(arrivals)
    requires Lookup(mapping, item).Some?
    ensures ArrivesOnce(mapping, arrivals + [(item, response)])
    ensures Keys(arrivals + [(item, response)]) == Keys(arrivals) + {item}
    ensures Attributed(mapping, arrivals + [(item, response)])
            == Attributed(mapping, arrivals) + [(Lookup(mapping, item).value, Info(true, [response]))]
  {
    KeysConcat(arrivals, [(item, response)]);
    UniqueConcat(arrivals, [(item, response)]);
    SingleKey((item, response));
    assert (arrivals + [(item, response)])[..|arrivals|] == arrivals;
  }

  datatype Outcome<R> = DuplicateIds | Unfinished | Finished(results: Dict<PayloadId, Info<R>>)

  predicate HasDuplicates(payloads: seq<PayloadId>) {
    exists i, j :: 0 <= i < j < |payloads| && payloads[i] == payloads[j]
  }

  predicate AnsweredInPolls<R>(polls: seq<Dict<ItemId, R>>, item: ItemId) {
    exists k :: 0 <= k < |polls| && Lookup(polls[k], item).Some?
  }

  /** `_make_rpc_request` without a result handler, over as many rounds of polling as are given. The results
      are each payload's own reply, in the order in which they arrived. It finishes exactly when every item
      has its reply, and so, unless an item's id reads like a payload's, exactly when the polls answer all. */
  method MakeRpcRequest<R>(payloads: seq<PayloadId>, items: seq<ItemId>, polls: seq<Dict<ItemId, R>>)
      returns (outcome: Outcome<R>, ghost arrivals: seq<(ItemId, R)>)
    requires |items| == |payloads| && Distinct(items)
    ensures outcome.DuplicateIds? <==> !Distinct(payloads)
    ensures Distinct(payloads) ==>
              && ArrivesOnce(Submitted(items, payloads), arrivals)
              && Polled(polls, arrivals)
              && (outcome.Finished? <==> Keys(arrivals) == Keys(Submitted(items, payloads)))
    ensures outcome.Finished? ==>
              outcome.results == Attributed(Submitted(items, payloads), arrivals)
    ensures Distinct(payloads) && NoClash(items, payloads) ==>
              (outcome.Finished? <==> forall i :: 0 <= i < |items| ==> AnsweredInPolls(polls, items[i]))
  {
    arrivals := [];
    if HasDuplicates(payloads) {
      return DuplicateIds, arrivals;
    }
    assert Distinct(payloads);
    var manager := new RequestManager<R>(|payloads|);
    ghost var mapping := Submitted(items, payloads);
    SubmittedRegistered<R>(items, payloads);
    Submit(manager, items, payloads);
    ghost var base := manager.View();
    ghost var all := Keys(Swap(mapping));
    BatchCompleteIff(base, all, arrivals);
    BatchInArrivalOrder(base, all, arrivals);
    if NoClash(items, payloads) {
      SubmittedUnlike(items, payloads);
    }
    if IsComplete(Manager(manager.responseMap, manager.responses, manager.payloadsCount)) {
      NothingSubmitted(items, payloads);
      return Finished(manager.responses), arrivals;
    }
    hide Attributed, Keys, Unique, Swap, Lookup, Unresponded, Submitted, Distinct, NoClash, Polled, AllComplete,
         Unlike;
    for k := 0 to |polls|
      invariant Recorded(manager.View(), base, polls, arrivals)
      invariant Keys(arrivals) != Keys(mapping)
      invariant Unlike(mapping, all) ==> TakenUpTo(mapping, polls[..k], arrivals)
    {
      ghost var before := arrivals;
      arrivals := Round(manager, base, all, polls, k, arrivals);
      BatchInArrivalOrder(base, all, arrivals);
      BatchCompleteIff(base, all, arrivals);
      if Unlike(mapping, all) {
        TakenOneMore(mapping, polls, k, before, arrivals);
      }
      if IsComplete(Manager(manager.responseMap, manager.responses, manager.payloadsCount)) {
        AllPolled(items, payloads, polls, arrivals);
        return Finished(manager.responses), arrivals;
      }
    }
    assert polls[..|polls|] == polls;
    if Unlike(mapping, all) && forall i :: 0 <= i < |items| ==> AnsweredInPolls(polls, items[i]) {
      NoneLeft(items, payloads, polls, arrivals);
    }
    outcome := Unfinished;
  }

  /** What the polls have answered so far has arrived. */
  ghost predicate TakenUpTo<R>(mapping: Dict<ItemId, PayloadId>, polls: seq<Dict<ItemId, R>>, arrivals: seq<(ItemId, R)>) {
    forall item :: item in Keys(mapping) && AnsweredInPolls(polls, item) ==> item in Keys(arrivals)
  }

  lemma TakenOneMore<R>(mapping: Dict<ItemId, PayloadId>, polls: seq<Dict<ItemId, R>>, k: nat,
                        before: seq<(ItemId, R)>, arrivals: seq<(ItemId, R)>)
    requires k < |polls| && TakenUpTo(mapping, polls[..k], before) && Keys(before) <= Keys(arrivals)
    requires forall item :: item in Keys(mapping) && Lookup(polls[k], item).Some? ==> item in Keys(arrivals)
    ensures TakenUpTo(mapping, polls[..k + 1], arrivals)
  {
    hide Keys, Lookup;
    forall item | item in Keys(mapping) && AnsweredInPolls(polls[..k + 1], item) ensures item in Keys(arrivals) {
      var i :| 0 <= i <= k && Lookup(polls[..k + 1][i], item).Some?;
      if i < k {
        assert Lookup(polls[..k][i], item).Some?;
      }
    }
  }

  lemma SubmittedKeys(items: seq<ItemId>, payloads: seq<PayloadId>)
    requires |items| == |payloads|
    ensures forall item :: item in Keys(Submitted(items, payloads)) <==> item in items
    ensures forall payload :: payload in Keys(Swap(Submitted(items, payloads))) <==> payload in payloads
  {
    var mapping := Submitted(items, payloads);
    forall i | 0 <= i < |items| ensures items[i] in Keys(mapping) && payloads[i] in Keys(Swap(mapping)) {
      KeyAt(mapping, i);
      KeyAt(Swap(mapping), i);
    }
    forall item | item in Keys(mapping) ensures item in items {
      var i := IndexOfKey(mapping, item);
    }
    forall payload | payload in Keys(Swap(mapping)) ensures payload in payloads {
      var i := IndexOfKey(Swap(mapping), payload);
    }
  }

  lemma SubmittedUnlike(items: seq<ItemId>, payloads: seq<PayloadId>)
    requires |items| == |payloads| && NoClash(items, payloads)
    ensures Unlike(Submitted(items, payloads), Keys(Swap(Submitted(items, payloads))))
  {
    SubmittedKeys(items, payloads);
    hide Keys, Swap, Submitted;
  }

  lemma NothingSubmitted(items: seq<ItemId>, payloads: seq<PayloadId>)
    requires |items| == |payloads| && Keys(Submitted(items, payloads)) == {}
    ensures items == []
  {
  }

  lemma AllPolled<R>(items: seq<ItemId>, payloads: seq<PayloadId>, polls: seq<Dict<ItemId, R>>, arrivals: seq<(ItemId, R)>)
    requires |items| == |payloads| && Keys(arrivals) == Keys(Submitted(items, payloads)) && Polled(polls, arrivals)
    ensures forall i :: 0 <= i < |items| ==> AnsweredInPolls(polls, items[i])
  {
    SubmittedKeys(items, payloads);
    forall i | 0 <= i < |items| ensures AnsweredInPolls(polls, items[i]) {
      assert items[i] in items;
      var j := IndexOfKey(arrivals, items[i]);
      var k :| 0 <= k < |polls| && Lookup(polls[k], arrivals[j].0) == Some(arrivals[j].1);
    }
  }

  lemma NoneLeft<R>(items: seq<ItemId>, payloads: seq<PayloadId>, polls: seq<Dict<ItemId, R>>, arrivals: seq<(ItemId, R)>)
    requires |items| == |payloads| && ArrivesOnce(Submitted(items, payloads), arrivals)
    requires TakenUpTo(Submitted(items, payloads), polls, arrivals)
    requires forall i :: 0 <= i < |items| ==> AnsweredInPolls(polls, items[i])
    ensures Keys(arrivals) == Keys(Submitted(items, payloads))
  {
    SubmittedKeys(items, payloads);
    hide Submitted, AnsweredInPolls;
    forall item | item in Keys(Submitted(items, payloads)) ensures item in Keys(arrivals) {
      var i :| 0 <= i < |items| && items[i] == item;
    }
  }

  method Submit<R>(manager: RequestManager<R>, items: seq<ItemId>, payloads: seq<PayloadId>)
    requires |items| == |payloads| && Distinct(items)
    requires manager.responseMap == []
    modifies manager
    ensures manager.View() == old(manager.View()).(responseMap := Submitted(items, payloads))
  {
    for i := 0 to |items|
      invariant manager.View() == old(manager.View()).(responseMap := Submitted(items, payloads)[..i])
    {
      forall j | 0 <= j < i ensures Submitted(items, payloads)[..i][j].0 != items[i] {
      }
      DistinctUnique(Submitted(items, payloads)[..i + 1]);
      assert Submitted(items, payloads)[..i + 1] == Submitted(items, payloads)[..i] + [(items[i], payloads[i])];
      UniqueConcat(Submitted(items, payloads)[..i], [(items[i], payloads[i])]);
      SingleKey((items[i], payloads[i]));
      PutAbsent(Submitted(items, payloads)[..i], items[i], payloads[i]);
      manager.Add(items[i], payloads[i]);
    }
  }

  /** The manager holds exactly the replies that arrived, and these came from the polls. */
  ghost predicate Recorded<R>(view: Manager<R>, base: Manager<R>, polls: seq<Dict<ItemId, R>>, arrivals: seq<(ItemId, R)>) {
    && ArrivesOnce(base.responseMap, arrivals)
    && Polled(polls, arrivals)
    && view == base.(responses := Attributed(base.responseMap, arrivals))
  }

  ghost predicate Unlike(mapping: Dict<ItemId, PayloadId>, payloads: set<PayloadId>) {
    forall item :: item in Keys(mapping) ==> PayloadId(item.text) !in payloads
  }

  lemma TakePolled<R>(view: Manager<R>, base: Manager<R>, polls: seq<Dict<ItemId, R>>, k: nat,
                      arrivals: seq<(ItemId, R)>, item: ItemId)
    requires OneToOne(base.responseMap) && Recorded(view, base, polls, arrivals)
    requires item in Keys(base.responseMap) && item !in Keys(arrivals)
    requires k < |polls| && Lookup(polls[k], item).Some?
    ensures var response := Lookup(polls[k], item).value;
            && Lookup(view.responseMap, item).Some?
            && Recorded(AddResponse(view, item, response, true), base, polls, arrivals + [(item, response)])
            && Keys(arrivals + [(item, response)]) == Keys(arrivals) + {item}
  {
    var response := Lookup(polls[k], item).value;
    hide Attributed, Keys, Unique, Swap, Lookup;
    LookupInKeys(base.responseMap, item);
    AttributedKeys(base.responseMap, arrivals, item);
    OneMoreReply(view, item, response);
    ArrivesNext(base.responseMap, arrivals, item, response);
  }

  /** The listed items are registered, different from each other and not replied to; all others are replied to. */
  lemma OpenItems<R>(mapping: Dict<ItemId, PayloadId>, arrivals: seq<(ItemId, R)>)
    requires OneToOne(mapping) && ArrivesOnce(mapping, arrivals)
    ensures var open := Unresponded(mapping, Attributed(mapping, arrivals));
            && Distinct(open)
            && (forall j :: 0 <= j < |open| ==> open[j] in Keys(mapping) && open[j] !in Keys(arrivals))
            && (forall item :: item in Keys(mapping) && item !in open ==> item in Keys(arrivals))
  {
    var open := Unresponded(mapping, Attributed(mapping, arrivals));
    UnrespondedItems(mapping, Attributed(mapping, arrivals));
    hide Attributed, Keys, Unique, Swap, Lookup, Unresponded, Distinct;
    forall j | 0 <= j < |open| ensures open[j] !in Keys(arrivals) {
      AttributedNotOpen(mapping, arrivals, open[j]);
    }
    forall item | item in Keys(mapping) && item !in open ensures item in Keys(arrivals) {
      LookupInKeys(mapping, item);
      NotListed(mapping, arrivals, item);
    }
  }

  /** An item is taken for answered without a reply only when its id reads like a payload's. */
  lemma PassedOverClashes<R>(mapping: Dict<ItemId, PayloadId>, arrivals: seq<(ItemId, R)>, item: ItemId)
    requires OneToOne(mapping) && Keys(arrivals) <= Keys(mapping) && item in Keys(mapping)
    requires Lookup(Attributed(mapping, arrivals), PayloadId(item.text)).Some?
    ensures !Unlike(mapping, Keys(Swap(mapping)))
  {
    ResponsesOfPayloads(mapping, arrivals);
    LookupInKeys(Attributed(mapping, arrivals), PayloadId(item.text));
    hide Attributed, Keys, Unique, Swap, Lookup;
  }

  /** One round: every open item is asked for once, unless its id reads like that of an answered payload. */
  method Round<R>(manager: RequestManager<R>, ghost base: Manager<R>, ghost all: set<PayloadId>,
                  polls: seq<Dict<ItemId, R>>, k: nat, ghost before: seq<(ItemId, R)>)
      returns (ghost arrivals: seq<(ItemId, R)>)
    requires k < |polls| && Valid(base, all, []) && Recorded(manager.View(), base, polls, before)
    modifies manager
    ensures Recorded(manager.View(), base, polls, arrivals)
    ensures Keys(before) <= Keys(arrivals)
    ensures Unlike(base.responseMap, all) ==>
              forall item :: item in Keys(base.responseMap) && Lookup(polls[k], item).Some? ==> item in Keys(arrivals)
  {
    hide Attributed, Keys, Unique, Swap, Lookup, Unresponded, Polled, Unlike, SumsUp;
    arrivals := before;
    var open := manager.ListUnresponded();
    OpenItems(base.responseMap, arrivals);
    for j := 0 to |open|
      invariant Recorded(manager.View(), base, polls, arrivals)
      invariant Keys(before) <= Keys(arrivals)
      invariant Unlike(base.responseMap, all) ==>
                  forall i :: 0 <= i < j && Lookup(polls[k], open[i]).Some? ==> open[i] in Keys(arrivals)
      invariant forall i :: j <= i < |open| ==> open[i] in Keys(base.responseMap) && open[i] !in Keys(arrivals)
    {
      var item := open[j];
      var response := Lookup(polls[k], item);
      if Lookup(manager.responses, PayloadId(item.text)).Some? {
        PassedOverClashes(base.responseMap, arrivals, item);
      } else if response.Some? {
        TakePolled(manager.View(), base, polls, k, arrivals, item);
        arrivals := arrivals + [(item, response.value)];
        manager.Record(item, response.value, true);
      }
    }
  }
}
