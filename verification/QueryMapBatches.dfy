/** Reading a whole storage map at once: all its keys, then the values in batches whose replies come in any
    order, against reading it page by page.
 */
module QueryMapBatches {
  import opened Collections
  import opened Dicts
  import opened QueryMaps
  import opened Requests
  import opened SyncRequests
  import opened Text

  /* ---------- Batches ---------- */

  /** The keys in pieces of the batch size, the last one possibly shorter. */
  function Batches(keys: seq<Key>, size: nat): seq<seq<Key>>
    requires size > 0
  {
    if keys == [] then [] else [Take(keys, size)] + Batches(keys[|Take(keys, size)|..], size)
  }

  /** The batches of the keys from `i` on; a slice may end behind the last key. */
  function BatchesFrom(keys: seq<Key>, size: nat, i: nat): seq<seq<Key>>
    requires size > 0
  {
    if i < |keys| then Batches(keys[i..], size) else []
  }

  lemma BatchesNext(keys: seq<Key>, size: nat, i: nat)
    requires size > 0 && i < |keys|
    ensures BatchesFrom(keys, size, i)
            == [if i + size <= |keys| then keys[i..i + size] else keys[i..]] + BatchesFrom(keys, size, i + size)
  {
    var batch := Take(keys[i..], size);
    assert batch == if i + size <= |keys| then keys[i..i + size] else keys[i..];
    var rest := keys[i..][|batch|..];
    assert Batches(keys[i..], size) == [batch] + Batches(rest, size);
    if i + size < |keys| {
      assert rest == keys[i + size..];
    } else {
      assert rest == [];
    }
  }

  lemma NoneBehind(keys: seq<Key>, size: nat, i: nat)
    requires size > 0 && i >= |keys|
    ensures BatchesFrom(keys, size, i) == []
  {
  }

  lemma BatchesFromStart(keys: seq<Key>, size: nat)
    requires size > 0
    ensures BatchesFrom(keys, size, 0) == Batches(keys, size)
  {
    assert keys[0..] == keys;
  }

  method SliceKeys(keys: seq<Key>, size: nat) returns (batches: seq<seq<Key>>)
    requires size > 0
    ensures batches == Batches(keys, size)
  {
    hide Batches, BatchesFrom;
    batches := [];
    var i := 0;
    BatchesFromStart(keys, size);
    while i < |keys|
      invariant 0 <= i
      invariant batches + BatchesFrom(keys, size, i) == Batches(keys, size)
      decreases |keys| - i
    {
      BatchesNext(keys, size, i);
      batches := batches + [if i + size <= |keys| then keys[i..i + size] else keys[i..]];
      i := i + size;
    }
    NoneBehind(keys, size, i);
  }

  /** The batches partition the keys, and none of them is empty or larger than asked for. */
  lemma {:induction false} BatchesPartition(keys: seq<Key>, size: nat)
    requires size > 0
    ensures Concat(Batches(keys, size)) == keys
    ensures forall i :: 0 <= i < |Batches(keys, size)| ==> 0 < |Batches(keys, size)[i]| <= size
    ensures forall i :: 0 <= i < |Batches(keys, size)| - 1 ==> |Batches(keys, size)[i]| == size
  {
    if keys != [] {
      var first := Take(keys, size);
      var rest := keys[|first|..];
      BatchesPartition(rest, size);
      assert first + rest == keys;
      assert rest != [] ==> |first| == size;
      var all, more := Batches(keys, size), Batches(rest, size);
      assert all == [first] + more && all[1..] == more;
      assert rest == [] ==> more == [];
      hide Batches, Take;
      forall i | 0 <= i < |all| ensures 0 < |all[i]| <= size && (i < |all| - 1 ==> |all[i]| == size) {
        assert i > 0 ==> all[i] == more[i - 1];
      }
    }
  }

  /** A batch is known by its first key. */
  lemma {:induction false} HeadsDistinct(keys: seq<Key>, size: nat, i: nat, j: nat)
    requires size > 0 && Distinct(keys) && i < j < |Batches(keys, size)|
    ensures Batches(keys, size)[i] != [] && Batches(keys, size)[j] != []
    ensures Batches(keys, size)[i][0] != Batches(keys, size)[j][0]
  {
    BatchesPartition(keys, size);
    var first := Take(keys, size);
    var rest := keys[|first|..];
    assert Batches(keys, size)[1..] == Batches(rest, size);
    if i == 0 {
      BatchesPartition(rest, size);
      var k := HeadInConcat(Batches(rest, size), j - 1);
      assert Batches(keys, size)[j][0] == rest[k] == keys[|first| + k];
    } else {
      HeadsDistinct(rest, size, i - 1, j - 1);
    }
  }

  /** The payloads are numbered from zero. */
  function Numbered(n: nat): (payloads: seq<PayloadId>)
    ensures |payloads| == n
  {
    seq(n, i requires 0 <= i < n => PayloadId(Decimal(i)))
  }

  lemma NumberedDistinct(n: nat)
    ensures Distinct(Numbered(n))
  {
    forall i, j | 0 <= i < j < n ensures Numbered(n)[i] != Numbered(n)[j] {
      DecimalInjective(i, j);
    }
  }

  /** They are called after their positions. */
  lemma NumberedAt(n: nat, i: nat)
    requires i < n
    ensures NumberOf(Numbered(n)[i].text) == i && (i > 0 ==> Numbered(n)[i].text[..1] != "0")
  {
    DecimalReads(i);
  }

  /** The ids were drawn by `get_next_id`. */
  ghost predicate Drawn(items: seq<ItemId>) {
    forall i :: 0 <= i < |items| ==> exists k: nat, letters: Letters :: items[i] == IdAt(k, letters)
  }

  /** A drawn id begins with a letter, and so never reads like a number. */
  lemma DrawnNoClash(items: seq<ItemId>, n: nat)
    requires Drawn(items)
    ensures NoClash(items, Numbered(n))
  {
    forall i | 0 <= i < |items| ensures PayloadId(items[i].text) !in Numbered(n) {
      var k: nat, letters: Letters :| items[i] == IdAt(k, letters);
      assert items[i].text[0] == letters[0];
      forall j: nat | j < n ensures Numbered(n)[j].text != items[i].text {
        DecimalDigits(j);
      }
    }
  }

  /* ---------- Orders of arrival ---------- */

  function Firsts<A, B>(d: seq<(A, B)>): (s: seq<A>)
    ensures |s| == |d|
  {
    seq(|d|, i requires 0 <= i < |d| => d[i].0)
  }

  lemma {:induction false} FirstsKeys<A, B>(d: Dict<A, B>, key: A)
    ensures key in Firsts(d) <==> key in Keys(d)
  {
    if d != [] {
      assert Firsts(d) == [d[0].0] + Firsts(d[1..]);
      FirstsKeys(d[1..], key);
    }
  }

  lemma UniqueFirsts<A, B>(d: Dict<A, B>)
    requires Unique(d)
    ensures Distinct(Firsts(d))
  {
    forall i, j | 0 <= i < j < |d| ensures Firsts(d)[i] != Firsts(d)[j] {
      UniqueAt(d, i, j);
    }
  }

  /** Once every item has been replied to, the order of the replies is an order of the items. */
  lemma ArrivalsPermute<R>(items: seq<ItemId>, payloads: seq<PayloadId>, arrivals: seq<(ItemId, R)>)
    requires |items| == |payloads| && Distinct(items)
    requires ArrivesOnce(Submitted(items, payloads), arrivals) && Keys(arrivals) == Keys(Submitted(items, payloads))
    ensures multiset(Firsts(arrivals)) == multiset(items)
  {
    UniqueFirsts(arrivals);
    var mapping := Submitted(items, payloads);
    assert Firsts(mapping) == items;
    forall x: ItemId ensures multiset(Firsts(arrivals))[x] == multiset(items)[x] {
      DistinctCount(Firsts(arrivals), x);
      DistinctCount(items, x);
      FirstsKeys(arrivals, x);
      FirstsKeys(mapping, x);
    }
  }

  /* ---------- Gathering the replies ---------- */

  datatype Response = Groups(groups: seq<seq<Change>>) | RpcError(message: string) | NoResult

  /** The changes of the replies in the order in which they came, or the first reply without any. */
  datatype Gathered = Changes(changes: seq<Change>) | Failed(response: Response)

  function Gather(responses: seq<Response>): Gathered {
    if responses == [] then Changes([])
    else
      var last := responses[|responses| - 1];
      match Gather(responses[..|responses| - 1])
      case Failed(r) => Failed(r)
      case Changes(before) => if last.Groups? then Changes(before + Concat(last.groups)) else Failed(last)
  }

  function Seconds<A, B>(d: seq<(A, B)>): (s: seq<B>)
    ensures |s| == |d|
  {
    seq(|d|, i requires 0 <= i < |d| => d[i].1)
  }

  lemma {:induction false} AttributedAt<R>(mapping: Dict<ItemId, PayloadId>, arrivals: seq<(ItemId, R)>, k: nat)
    requires Keys(arrivals) <= Keys(mapping) && k < |arrivals|
    ensures |Attributed(mapping, arrivals)| == |arrivals|
    ensures Attributed(mapping, arrivals)[k].1 == Info(true, [arrivals[k].1])
    decreases |arrivals|
  {
    AttributedAll(mapping, arrivals);
    PrefixKeys(arrivals);
    if k < |arrivals| - 1 {
      AttributedAt(mapping, arrivals[..|arrivals| - 1], k);
    } else {
      AttributedAll(mapping, arrivals[..k]);
    }
  }

  method GatherResults(mapping: Dict<ItemId, PayloadId>, results: Dict<PayloadId, Info<Response>>,
                       ghost arrivals: seq<(ItemId, Response)>)
      returns (gathered: Gathered)
    requires Keys(arrivals) <= Keys(mapping) && results == Attributed(mapping, arrivals)
    ensures gathered == Gather(Seconds(arrivals))
  {
    var changes := [];
    AttributedAll(mapping, arrivals);
    for k := 0 to |results|
      invariant Gather(Seconds(arrivals)[..k]) == Changes(changes)
    {
      AttributedAt(mapping, arrivals, k);
      var response := results[k].1.results[0];
      GatherNext(Seconds(arrivals), k);
      if !response.Groups? {
        GatherFails(Seconds(arrivals), k + 1);
        return Failed(response);
      }
      var group := 0;
      ghost var before := changes;
      while group < |response.groups|
        invariant 0 <= group <= |response.groups|
        invariant changes + Concat(response.groups[group..]) == before + Concat(response.groups)
      {
        ConcatNext(response.groups, group);
        changes := changes + response.groups[group];
        group := group + 1;
      }
    }
    assert Seconds(arrivals)[..|arrivals|] == Seconds(arrivals);
    gathered := Changes(changes);
  }

  /** What one more reply does. */
  lemma GatherNext(responses: seq<Response>, k: nat)
    requires k < |responses|
    ensures Gather(responses[..k + 1]) ==
            match Gather(responses[..k])
            case Failed(r) => Failed(r)
            case Changes(before) =>
              if responses[k].Groups? then Changes(before + Concat(responses[k].groups)) else Failed(responses[k])
  {
    assert responses[..k + 1][..k] == responses[..k];
    hide Concat;
  }

  lemma ConcatNext<T>(parts: seq<seq<T>>, i: nat)
    requires i < |parts|
    ensures Concat(parts[i..]) == parts[i] + Concat(parts[i + 1..])
  {
    assert parts[i..][1..] == parts[i + 1..];
  }

  lemma {:induction false} GatherFails(responses: seq<Response>, k: nat)
    requires k <= |responses| && Gather(responses[..k]).Failed?
    ensures Gather(responses) == Gather(responses[..k])
    decreases |responses|
  {
    if k < |responses| {
      var init := responses[..|responses| - 1];
      assert init[..k] == responses[..k];
      GatherFails(init, k);
    } else {
      assert responses[..k] == responses;
    }
  }

  /** Whatever comes behind the first reply without a result, that reply is what is reported. */
  lemma FirstBadReply(responses: seq<Response>, k: nat)
    requires k < |responses| && !responses[k].Groups?
    requires forall i :: 0 <= i < k ==> responses[i].Groups?
    ensures Gather(responses) == Failed(responses[k])
  {
    GoodReplies(responses[..k]);
    GatherNext(responses, k);
    GatherFails(responses, k + 1);
  }

  /** Without one, the changes are those of all replies, one after the other. */
  lemma {:induction false} GoodReplies(responses: seq<Response>)
    requires forall i :: 0 <= i < |responses| ==> responses[i].Groups?
    ensures Gather(responses) == Changes(FlatMap(ChangesOf, responses))
    decreases |responses|
  {
    if responses != [] {
      var init, last := responses[..|responses| - 1], responses[|responses| - 1];
      GoodReplies(init);
      assert responses == init + [last];
      FlatMapConcat(ChangesOf, init, [last]);
      assert FlatMap(ChangesOf, [last]) == ChangesOf(last);
    }
  }

  function ChangesOf(response: Response): seq<Change> {
    if response.Groups? then Concat(response.groups) else []
  }

  /* ---------- Against paging ---------- */

  function BatchOf(assignment: Dict<ItemId, seq<Key>>, item: ItemId): seq<Key> {
    match Lookup(assignment, item) case None => [] case Some(batch) => batch
  }

  function Batcher(assignment: Dict<ItemId, seq<Key>>): ItemId -> seq<Key> {
    item => BatchOf(assignment, item)
  }

  /** The node answers each item with the storage under the keys of its batch, in groups of any size. */
  ghost predicate Answers(store: Store, assignment: Dict<ItemId, seq<Key>>, arrivals: seq<(ItemId, Response)>) {
    forall k :: 0 <= k < |arrivals| ==>
      && arrivals[k].1.Groups?
      && Concat(arrivals[k].1.groups) == QueryStorage(store, BatchOf(assignment, arrivals[k].0))
  }

  /** The keys whose values came, in the order in which they came. */
  ghost function ArrivedKeys(assignment: Dict<ItemId, seq<Key>>, arrivals: seq<(ItemId, Response)>): seq<Key> {
    FlatMap(Batcher(assignment), Firsts(arrivals))
  }

  lemma {:induction false} GatherAnswers(store: Store, assignment: Dict<ItemId, seq<Key>>, arrivals: seq<(ItemId, Response)>)
    requires Answers(store, assignment, arrivals)
    ensures Gather(Seconds(arrivals)) == Changes(QueryStorage(store, ArrivedKeys(assignment, arrivals)))
    decreases |arrivals|
  {
    var f := Batcher(assignment);
    if arrivals != [] {
      var init, last := arrivals[..|arrivals| - 1], arrivals[|arrivals| - 1];
      GatherAnswers(store, assignment, init);
      assert Seconds(arrivals)[..|arrivals| - 1] == Seconds(init);
      assert Firsts(arrivals) == Firsts(init) + [last.0];
      FlatMapConcat(f, Firsts(init), [last.0]);
      assert FlatMap(f, [last.0]) == BatchOf(assignment, last.0);
      hide FlatMap, BatchOf, QueryStorage, Concat, Firsts;
      QueryConcat(store, ArrivedKeys(assignment, init), BatchOf(assignment, last.0));
    }
  }

  lemma BatchAt(items: seq<ItemId>, batches: seq<seq<Key>>, i: nat)
    requires |items| == |batches| && Distinct(items) && i < |items|
    ensures BatchOf(Submitted(items, batches), items[i]) == batches[i]
  {
    DistinctUnique(Submitted(items, batches));
    LookupUnique(Submitted(items, batches), i);
  }

  function Decoder<A, K, V>(codec: Codec<K, V>, store: Store, f: A -> seq<Key>): A -> seq<(K, V)> {
    a => RecordsOf(codec, store, f(a))
  }

  lemma {:induction false} RecordsOfFlatMap<A, K, V>(codec: Codec<K, V>, store: Store, f: A -> seq<Key>, s: seq<A>)
    ensures RecordsOf(codec, store, FlatMap(f, s)) == FlatMap(Decoder(codec, store, f), s)
  {
    if s != [] {
      RecordsOfFlatMap(codec, store, f, s[1..]);
      RecordsOfConcat(codec, store, f(s[0]), FlatMap(f, s[1..]));
    }
  }

  lemma AscendingDistinct(keys: seq<Key>)
    requires Ascending(keys)
    ensures Distinct(keys)
  {
    forall i, j | 0 <= i < j < |keys| ensures keys[i] != keys[j] {
      BeforeAsymmetric(keys[i], keys[j]);
    }
  }

  lemma BatchesKnownByHeads(keys: seq<Key>, size: nat)
    requires size > 0 && Distinct(keys)
    ensures KnownByHeads(Batches(keys, size))
  {
    BatchesPartition(keys, size);
    forall i, j | 0 <= i < j < |Batches(keys, size)| ensures Batches(keys, size)[i][0] != Batches(keys, size)[j][0] {
      HeadsDistinct(keys, size, i, j);
    }
  }

  /** Whatever the order of the replies, every record of the map is there as often as it should be; the list
      is in key order exactly when the replies come in the order in which the batches were sent. */
  lemma ArrivedKeysPermute<K, V>(codec: Codec<K, V>, store: Store, size: nat, items: seq<ItemId>,
                                 arrivals: seq<(ItemId, Response)>)
    requires ValidStore(store) && size > 0
    requires |items| == |Batches(store.keys, size)| && Distinct(items)
    requires multiset(Firsts(arrivals)) == multiset(items)
    ensures var arrived := ArrivedKeys(Submitted(items, Batches(store.keys, size)), arrivals);
            && multiset(RecordsOf(codec, store, arrived)) == multiset(RecordsOf(codec, store, store.keys))
            && (arrived == store.keys <==> Firsts(arrivals) == items)
  {
    var batches := Batches(store.keys, size);
    var assignment := Submitted(items, batches);
    var f := Batcher(assignment);
    var order := Firsts(arrivals);
    forall i | 0 <= i < |items| ensures f(items[i]) == batches[i] {
      BatchAt(items, batches, i);
    }
    AscendingDistinct(store.keys);
    hide Submitted, BatchOf, Batcher, Decoder, Batches, RecordsOf, Firsts, ValidStore, Distinct, KnownByHeads, FlatMap, Concat;
    BatchesKnownByHeads(store.keys, size);
    BatchesPartition(store.keys, size);
    FlatMapZip(f, items, batches);
    RecordsOfFlatMap(codec, store, f, order);
    RecordsOfFlatMap(codec, store, f, items);
    FlatMapPermuted(Decoder(codec, store, f), order, items);
    OrderShows(f, order, items, batches);
  }

  /** The listing of all keys has the prefix itself when that is a key; paging starts behind it. */
  lemma PagingMissesIff<K, V>(codec: Codec<K, V>, store: Store)
    requires ValidStore(store)
    ensures multiset(RecordsOf(codec, store, store.keys))
            == multiset(RecordsOf(codec, store, After(store.keys, store.prefix)))
            <==> store.prefix !in store.keys
  {
    if store.prefix in store.keys {
      var i :| 0 <= i < |store.keys| && store.keys[i] == store.prefix;
      AfterKey(store.keys, i);
      assert |multiset(RecordsOf(codec, store, store.keys))| == |store.keys|;
      assert |multiset(RecordsOf(codec, store, After(store.keys, store.prefix)))| < |store.keys|;
    } else {
      forall i | 0 <= i < |store.keys| ensures Before(store.prefix, store.keys[i]) {
        PrefixBefore(store.prefix, store.keys[i]);
      }
      AfterAll(store.keys, store.prefix);
    }
  }

  datatype Exhausted<K, V> =
    | Fetched(records: seq<(K, V)>)
    | InvalidPageSize
    | Refused(response: Response)
    | Pending

  /** `query_map` with `fully_exhaust`, with the ids the websocket gives the batches and what polling it
      yields. */
  method FullyExhaust<K, V>(codec: Codec<K, V>, store: Store, pageSize: nat, maxResults: Option<nat>,
                            items: seq<ItemId>, polls: seq<Dict<ItemId, Response>>)
      returns (outcome: Exhausted<K, V>, ghost arrivals: seq<(ItemId, Response)>)
    requires Distinct(items)
    requires PageSize(pageSize, maxResults) > 0 ==> |items| == |Batches(store.keys, PageSize(pageSize, maxResults))|
    ensures store.keys == [] ==> outcome == Fetched([])
    ensures outcome.InvalidPageSize? <==> store.keys != [] && PageSize(pageSize, maxResults) == 0
    ensures store.keys != [] && !outcome.InvalidPageSize? ==>
              var mapping := Submitted(items, Numbered(|items|));
              && ArrivesOnce(mapping, arrivals) && Polled(polls, arrivals)
              && (outcome.Pending? <==> Keys(arrivals) != Keys(mapping))
              && (NoClash(items, Numbered(|items|)) || Drawn(items) ==>
                    (outcome.Pending? <==> exists i :: 0 <= i < |items| && !AnsweredInPolls(polls, items[i])))
              && (!outcome.Pending? ==> outcome == match Gather(Seconds(arrivals))
                                                   case Failed(response) => Refused(response)
                                                   case Changes(changes) => Fetched(Records(codec, store.prefix, changes)))
  {
    arrivals := [];
    var size := PageSize(pageSize, maxResults);
    if store.keys == [] {
      return Fetched([]), arrivals;
    }
    if size == 0 {
      return InvalidPageSize, arrivals;
    }
    var batches := SliceKeys(store.keys, size);
    var payloads := Numbered(|batches|);
    NumberedDistinct(|batches|);
    if Drawn(items) {
      DrawnNoClash(items, |batches|);
    }
    hide Drawn, Attributed, Gather, Submitted, Numbered, Keys, Records, ArrivesOnce, NoClash;
    var result: Outcome<Response>;
    result, arrivals := MakeRpcRequest(payloads, items, polls);
    if !result.Finished? {
      return Pending, arrivals;
    }
    FinishedArrivals(Submitted(items, payloads), arrivals);
    var gathered := GatherResults(Submitted(items, payloads), result.results, arrivals);
    if gathered.Failed? {
      return Refused(gathered.response), arrivals;
    }
    var records := DecodeQueryMap(codec, store.prefix, gathered.changes);
    outcome := Fetched(records);
  }

  lemma FinishedArrivals<R>(mapping: Dict<ItemId, PayloadId>, arrivals: seq<(ItemId, R)>)
    requires ArrivesOnce(mapping, arrivals)
    ensures Keys(arrivals) <= Keys(mapping)
  {
  }

  /** Once all the replies are there, in whatever order, fetching everything at once returns a permutation of
      what paging returns exactly when the prefix itself is not a key; the list is in key order exactly when
      the replies come in the order in which the batches were sent. */
  lemma ExhaustedPermutesPagedIff<K, V>(codec: Codec<K, V>, store: Store, size: nat, items: seq<ItemId>,
                                        arrivals: seq<(ItemId, Response)>)
    requires ValidStore(store) && size > 0
    requires |items| == |Batches(store.keys, size)| && Distinct(items)
    requires var mapping := Submitted(items, Numbered(|items|));
             ArrivesOnce(mapping, arrivals) && Keys(arrivals) == Keys(mapping)
    requires Answers(store, Submitted(items, Batches(store.keys, size)), arrivals)
    ensures var arrived := ArrivedKeys(Submitted(items, Batches(store.keys, size)), arrivals);
            && Gather(Seconds(arrivals)) == Changes(QueryStorage(store, arrived))
            && (multiset(Records(codec, store.prefix, QueryStorage(store, arrived)))
                == multiset(RecordsOf(codec, store, After(store.keys, store.prefix)))
                <==> store.prefix !in store.keys)
            && (arrived == store.keys <==> Firsts(arrivals) == items)
  {
    hide Gather, Records, QueryStorage, ArrivedKeys, Submitted, Keys, After, Firsts, Seconds, Batches, ValidStore;
    GatherAnswers(store, Submitted(items, Batches(store.keys, size)), arrivals);
    ArrivalsPermute(items, Numbered(|items|), arrivals);
    ArrivedKeysPermute(codec, store, size, items, arrivals);
    PagingMissesIff(codec, store);
  }

  /** Iterating over what was fetched at once yields exactly that, and asks for no more. */
  method IterateExhausted<K, V>(codec: Codec<K, V>, store: Store, pageSize: nat, records: seq<(K, V)>)
      returns (all: seq<(K, V)>)
    requires ValidStore(store)
    ensures all == records
  {
    var result := new QueryMapResult<K, V>.Exhausted(codec, store, pageSize, records);
    all := result.RetrieveAllRecords();
  }
}
