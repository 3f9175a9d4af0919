/** Reading a whole storage map at once over the shared websocket: its batches are sent between the requests of
    other callers, and their replies come in any order and over any number of connections.
 */
module SharedExhaust {
  import opened Collections
  import opened Dicts
  import opened QueryMapBatches
  import opened QueryMaps
  import opened Requests
  import opened SharedRequests
  import M = Multiplexer

  type Decode = M.Response -> QueryMapBatches.Response

  /** The node answers the payload of each batch with the storage under its keys, in groups of any size. */
  ghost predicate AnswersBatches(es: Events, s: Sending, decode: Decode, store: Store, batches: seq<seq<Key>>) {
    && |s.jsons| == |batches|
    && forall r: M.Response, i :: Answered(es, r) && 0 <= i < |batches| && r.request == s.jsons[i] ==>
         decode(r).Groups? && Concat(decode(r).groups) == QueryStorage(store, batches[i])
  }

  lemma ItemIndex(items: seq<ItemId>, batches: seq<seq<Key>>, arrivals: seq<(ItemId, QueryMapBatches.Response)>, k: nat)
      returns (i: nat)
    requires |items| == |batches| && Keys(arrivals) <= Keys(Submitted(items, batches)) && k < |arrivals|
    ensures i < |items| && arrivals[k].0 == items[i]
  {
    KeyAt(arrivals, k);
    i := IndexOfKey(Submitted(items, batches), arrivals[k].0);
  }

  lemma SameItems(items: seq<ItemId>, payloads: seq<PayloadId>, batches: seq<seq<Key>>)
    requires |items| == |payloads| == |batches|
    ensures Keys(Submitted(items, payloads)) == Keys(Submitted(items, batches))
  {
    var a, b := Submitted(items, payloads), Submitted(items, batches);
    forall item | item in Keys(a) ensures item in Keys(b) {
      var i := IndexOfKey(a, item);
      KeyAt(b, i);
    }
    forall item | item in Keys(b) ensures item in Keys(a) {
      var i := IndexOfKey(b, item);
      KeyAt(a, i);
    }
  }

  /** Whatever has arrived for the batches is the storage under the keys of the batch whose item it came for. */
  lemma ArrivalsAnswer(max: nat, es: Events, who: Labels, s: Sending, polls: seq<Dict<ItemId, QueryMapBatches.Response>>,
                       decode: Decode, store: Store, batches: seq<seq<Key>>,
                       arrivals: seq<(ItemId, QueryMapBatches.Response)>)
    requires M.ValidRun(max, es) && OnlyOwn(es, who) && Sent(es, who, s) && Collected(es, who, s, polls, decode)
    requires |s.items| == |batches| && AnswersBatches(es, s, decode, store, batches)
    requires Polled(polls, arrivals) && Keys(arrivals) <= Keys(Submitted(s.items, batches))
    ensures Answers(store, Submitted(s.items, batches), arrivals)
  {
    hide M.ValidRun, OnlyOwn, Sent, Collected, Polled, Keys, Submitted, Distinct, Answered, BatchOf, QueryStorage, Concat;
    SentDistinct(max, es, who, s);
    forall k | 0 <= k < |arrivals|
      ensures arrivals[k].1.Groups?
              && Concat(arrivals[k].1.groups) == QueryStorage(store, BatchOf(Submitted(s.items, batches), arrivals[k].0))
    {
      var i := ItemIndex(s.items, batches, arrivals, k);
      var r := PolledAnswersOwn(max, es, who, s, polls, decode, arrivals, k, i);
      BatchAt(s.items, batches, i);
    }
  }

  /** `query_map` with `fully_exhaust` over the shared websocket, in any run that interleaves it with any number of
      requests and loses the connection any number of times. It finishes exactly when the polls answer every batch,
      and then it has every record of the map as often as it should; that is a permutation of what paging returns
      exactly when the prefix itself is not a key. */
  method ExhaustShared<K, V>(ghost max: nat, ghost es: Events, ghost who: Labels, ghost s: Sending, ghost decode: Decode,
                             codec: Codec<K, V>, store: Store, pageSize: nat, maxResults: Option<nat>,
                             items: seq<ItemId>, polls: seq<Dict<ItemId, QueryMapBatches.Response>>)
      returns (outcome: Exhausted<K, V>)
    requires M.ValidRun(max, es) && OnlyOwn(es, who) && Sent(es, who, s) && Collected(es, who, s, polls, decode)
    requires ValidStore(store) && PageSize(pageSize, maxResults) > 0 && items == s.items && Drawn(items)
    requires |items| == |Batches(store.keys, PageSize(pageSize, maxResults))|
    requires AnswersBatches(es, s, decode, store, Batches(store.keys, PageSize(pageSize, maxResults)))
    ensures outcome.Fetched? || outcome.Pending?
    ensures outcome.Fetched? <==> forall i :: 0 <= i < |items| ==> AnsweredInPolls(polls, items[i])
    ensures outcome.Fetched? ==>
              && multiset(outcome.records) == multiset(RecordsOf(codec, store, store.keys))
              && (multiset(outcome.records) == multiset(RecordsOf(codec, store, After(store.keys, store.prefix)))
                  <==> store.prefix !in store.keys)
  {
    hide *;
    SentDistinct(max, es, who, s);
    ghost var arrivals;
    outcome, arrivals := FullyExhaust(codec, store, pageSize, maxResults, items, polls);
    if store.keys == [] {
      NothingToFetch(codec, store, PageSize(pageSize, maxResults));
    } else {
      ghost var size := PageSize(pageSize, maxResults);
      ghost var batches := Batches(store.keys, size);
      SameItems(items, Numbered(|items|), batches);
      FinishedArrivals(Submitted(items, Numbered(|items|)), arrivals);
      ArrivalsAnswer(max, es, who, s, polls, decode, store, batches, arrivals);
      if !outcome.Pending? {
        FetchedRecords(codec, store, size, items, arrivals);
      }
    }
  }

  lemma NothingToFetch<K, V>(codec: Codec<K, V>, store: Store, size: nat)
    requires store.keys == [] && size > 0
    ensures Batches(store.keys, size) == [] && RecordsOf(codec, store, store.keys) == []
    ensures RecordsOf(codec, store, After(store.keys, store.prefix)) == []
  {
  }

  lemma FetchedRecords<K, V>(codec: Codec<K, V>, store: Store, size: nat, items: seq<ItemId>,
                             arrivals: seq<(ItemId, QueryMapBatches.Response)>)
    requires ValidStore(store) && size > 0
    requires |items| == |Batches(store.keys, size)| && Distinct(items)
    requires var mapping := Submitted(items, Numbered(|items|));
             ArrivesOnce(mapping, arrivals) && Keys(arrivals) == Keys(mapping)
    requires Answers(store, Submitted(items, Batches(store.keys, size)), arrivals)
    ensures Gather(Seconds(arrivals)).Changes?
    ensures var records := Records(codec, store.prefix, Gather(Seconds(arrivals)).changes);
            && multiset(records) == multiset(RecordsOf(codec, store, store.keys))
            && (multiset(records) == multiset(RecordsOf(codec, store, After(store.keys, store.prefix)))
                <==> store.prefix !in store.keys)
  {
    hide Gather, Records, QueryStorage, ArrivedKeys, Submitted, Keys, After, Firsts, Seconds, Batches, ValidStore, Answers,
         Numbered, ArrivesOnce, Distinct;
    ExhaustedPermutesPagedIff(codec, store, size, items, arrivals);
    ArrivalsPermute(items, Numbered(|items|), arrivals);
    ArrivedKeysPermute(codec, store, size, items, arrivals);
  }
}
