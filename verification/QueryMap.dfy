/** Reading a whole storage map: page by page through an iterator, or at once in batches that are answered
    in any order. Keys are compared as the node orders them.
 */
module QueryMaps {
  import opened Collections
  import opened Dicts

  type Key = string
  type Change = (Key, Option<string>)

  /* ---------- The node ---------- */

  /** Strict lexicographic order. */
  predicate Before(a: Key, b: Key) {
    b != "" && (a == "" || a[0] < b[0] || (a[0] == b[0] && Before(a[1..], b[1..])))
  }

  ghost predicate Ascending(keys: seq<Key>) {
    forall i, j :: 0 <= i < j < |keys| ==> Before(keys[i], keys[j])
  }

  function After(keys: seq<Key>, start: Key): seq<Key> {
    if keys == [] then []
    else (if Before(start, keys[0]) then [keys[0]] else []) + After(keys[1..], start)
  }

  /** The storage at one block: the keys under the prefix of a map, in order, and their values. */
  datatype Store = Store(prefix: Key, keys: seq<Key>, values: Key -> Option<string>)

  ghost predicate ValidStore(store: Store) {
    && Ascending(store.keys)
    && store.prefix != ""
    && forall i :: 0 <= i < |store.keys| ==> store.prefix <= store.keys[i]
  }

  /** `state_getKeysPaged`. */
  function KeysPaged(store: Store, count: nat, start: Key): seq<Key> {
    Take(After(store.keys, start), count)
  }

  /** `state_queryStorageAt`. */
  function QueryStorage(store: Store, keys: seq<Key>): (changes: seq<Change>)
    ensures |changes| == |keys|
  {
    seq(|keys|, i requires 0 <= i < |keys| => (keys[i], store.values(keys[i])))
  }

  /** The second key has more from position `n` on, or the greater character there; up to there they are the same. */
  ghost predicate SmallerAt(a: Key, b: Key, n: nat) {
    n <= |a| && n < |b| && a[..n] == b[..n] && (n == |a| || a[n] < b[n])
  }

  /** One key comes before another when it is the beginning of it, or has the smaller character where they first
      differ. */
  lemma BeforeIff(a: Key, b: Key)
    ensures Before(a, b) <==> exists n :: 0 <= n <= |a| && SmallerAt(a, b, n)
  {
    hide SmallerAt;
    if Before(a, b) {
      var n := SmallerSomewhere(a, b);
    }
    if n :| 0 <= n <= |a| && SmallerAt(a, b, n) {
      SmallerIsBefore(a, b, n);
    }
  }

  lemma {:induction false} SmallerSomewhere(a: Key, b: Key) returns (n: nat)
    requires Before(a, b)
    ensures n <= |a| && SmallerAt(a, b, n)
  {
    if a == "" || a[0] < b[0] {
      n := 0;
    } else {
      n := SmallerSomewhere(a[1..], b[1..]);
      n := n + 1;
      assert a[..n] == [a[0]] + a[1..][..n - 1] && b[..n] == [b[0]] + b[1..][..n - 1];
    }
  }

  lemma {:induction false} SmallerIsBefore(a: Key, b: Key, n: nat)
    requires SmallerAt(a, b, n)
    ensures Before(a, b)
  {
    if n > 0 {
      assert a[0] == a[..n][0] == b[..n][0] == b[0];
      assert a[1..][..n - 1] == a[..n][1..] && b[1..][..n - 1] == b[..n][1..];
      SmallerIsBefore(a[1..], b[1..], n - 1);
    }
  }

  /** The keys behind a start are those of the list that come after it. */
  lemma {:induction false} AfterIff(keys: seq<Key>, start: Key, key: Key)
    ensures key in After(keys, start) <==> key in keys && Before(start, key)
  {
    if keys != [] {
      AfterIff(keys[1..], start, key);
      assert keys == [keys[0]] + keys[1..];
    }
  }

  lemma {:induction false} BeforeAsymmetric(a: Key, b: Key)
    ensures !(Before(a, b) && Before(b, a))
  {
    if a != "" && b != "" {
      BeforeAsymmetric(a[1..], b[1..]);
    }
  }

  lemma {:induction false} BeforeTransitive(a: Key, b: Key, c: Key)
    requires Before(a, b) && Before(b, c)
    ensures Before(a, c)
  {
    if a != "" && a[0] == b[0] && b[0] == c[0] {
      BeforeTransitive(a[1..], b[1..], c[1..]);
    }
  }

  lemma {:induction false} PrefixBefore(p: Key, k: Key)
    requires p <= k
    ensures Before(p, k) <==> p != k
  {
    if p != "" {
      PrefixBefore(p[1..], k[1..]);
    } else {
    }
  }

  lemma {:induction false} AfterAll(keys: seq<Key>, start: Key)
    requires forall i :: 0 <= i < |keys| ==> Before(start, keys[i])
    ensures After(keys, start) == keys
  {
    if keys != [] {
      AfterAll(keys[1..], start);
    }
  }

  /** The keys after one of the keys are the rest of the list. */
  lemma {:induction false} AfterKey(keys: seq<Key>, i: nat)
    requires Ascending(keys) && i < |keys|
    ensures After(keys, keys[i]) == keys[i + 1..]
  {
    if i == 0 {
      BeforeAsymmetric(keys[0], keys[0]);
      AfterAll(keys[1..], keys[0]);
    } else {
      assert Before(keys[0], keys[i]);
      BeforeAsymmetric(keys[0], keys[i]);
      assert keys[1..][i - 1] == keys[i];
      AfterKey(keys[1..], i - 1);
    }
  }

  /** The keys after a start are a tail of the list. */
  lemma {:induction false} AfterIsTail(keys: seq<Key>, start: Key) returns (n: nat)
    requires Ascending(keys)
    ensures n <= |keys| && After(keys, start) == keys[n..]
  {
    if keys == [] {
      n := 0;
    } else if Before(start, keys[0]) {
      forall i | 0 <= i < |keys| ensures Before(start, keys[i]) {
        if i > 0 {
          BeforeTransitive(start, keys[0], keys[i]);
        }
      }
      AfterAll(keys, start);
      n := 0;
    } else {
      n := AfterIsTail(keys[1..], start);
      n := n + 1;
    }
  }

  /** Paging on from the last key of a page gives what the page left. */
  lemma AfterPage(store: Store, start: Key, count: nat)
    requires Ascending(store.keys) && KeysPaged(store, count, start) != []
    ensures var page := KeysPaged(store, count, start);
            After(store.keys, start) == page + After(store.keys, page[|page| - 1])
  {
    var keys := store.keys;
    var n := AfterIsTail(keys, start);
    var page := KeysPaged(store, count, start);
    hide After, Ascending, Before;
    var last := n + |page| - 1;
    assert page == keys[n..last + 1];
    assert keys[n..] == keys[n..last + 1] + keys[last + 1..];
    AfterKey(keys, last);
  }

  /* ---------- Decoding ---------- */

  /** The decoders of the part of a key behind the prefix, and of a value. */
  datatype Codec<K, V> = Codec(key: string -> K, value: string -> V)

  datatype Decoded<K, V> = DecodedKey(key: K) | DecodedValue(value: V)

  function StripPrefix(key: Key, prefix: Key): string {
    if |prefix| <= |key| then key[|prefix|..] else ""
  }

  /** A missing value is decoded from no bytes. */
  function ValueBytes(value: Option<string>): string {
    match value case None => "" case Some(v) => v
  }

  function Record<K, V>(codec: Codec<K, V>, prefix: Key, change: Change): (K, V) {
    (codec.key(StripPrefix(change.0, prefix)), codec.value(ValueBytes(change.1)))
  }

  function Records<K, V>(codec: Codec<K, V>, prefix: Key, changes: seq<Change>): (records: seq<(K, V)>)
    ensures |records| == |changes|
  {
    seq(|changes|, i requires 0 <= i < |changes| => Record(codec, prefix, changes[i]))
  }

  /** `_decode_query_map_pre`: the bytes of the keys behind the prefix, and of the values. */
  method DecodePre(prefix: Key, changes: seq<Change>) returns (keys: seq<string>, values: seq<string>)
    ensures |keys| == |values| == |changes|
    ensures forall j :: 0 <= j < |changes| ==> keys[j] == StripPrefix(changes[j].0, prefix)
    ensures forall j :: 0 <= j < |changes| ==> values[j] == ValueBytes(changes[j].1)
  {
    keys, values := [], [];
    for i := 0 to |changes|
      invariant |keys| == |values| == i
      invariant forall j :: 0 <= j < i ==> keys[j] == StripPrefix(changes[j].0, prefix)
      invariant forall j :: 0 <= j < i ==> values[j] == ValueBytes(changes[j].1)
    {
      keys := keys + [StripPrefix(changes[i].0, prefix)];
      values := values + [ValueBytes(changes[i].1)];
    }
  }

  /** The library's decoding of a list: the keys first, then the values. */
  function DecodeList<K, V>(codec: Codec<K, V>, keys: seq<string>, values: seq<string>): (all: seq<Decoded<K, V>>)
    ensures |all| == |keys| + |values|
  {
    seq(|keys| + |values|, i requires 0 <= i < |keys| + |values| =>
      if i < |keys| then DecodedKey(codec.key(keys[i])) else DecodedValue(codec.value(values[i - |keys|])))
  }

  /** `_decode_query_map_post`: the halves of the decoded list are paired up. */
  method DecodePost<K, V>(all: seq<Decoded<K, V>>) returns (result: seq<(K, V)>)
    requires |all| % 2 == 0
    requires forall i :: 0 <= i < |all| / 2 ==> all[i].DecodedKey?
    requires forall i :: |all| / 2 <= i < |all| ==> all[i].DecodedValue?
    ensures |result| == |all| / 2
    ensures forall i :: 0 <= i < |all| / 2 ==> result[i] == (all[i].key, all[|all| / 2 + i].value)
  {
    var middle := |all| / 2;
    var decodedKeys, decodedValues := all[..middle], all[middle..];
    result := [];
    for i := 0 to |decodedKeys|
      invariant |result| == i
      invariant forall j :: 0 <= j < i ==> result[j] == (all[j].key, all[middle + j].value)
    {
      result := result + [(decodedKeys[i].key, decodedValues[i].value)];
    }
  }

  /** Keys and values are decoded in one list, and paired up again from its halves: each record is decoded
      from its own change alone. */
  method DecodeQueryMap<K, V>(codec: Codec<K, V>, prefix: Key, changes: seq<Change>) returns (result: seq<(K, V)>)
    ensures result == Records(codec, prefix, changes)
    ensures |result| == |changes|
    ensures forall i, rest :: 0 <= i < |changes| && changes[i].0 == prefix + rest ==> result[i].0 == codec.key(rest)
    ensures forall i :: 0 <= i < |changes| ==>
              result[i].1 == match changes[i].1 case None => codec.value("") case Some(v) => codec.value(v)
  {
    var keys, values := DecodePre(prefix, changes);
    var all := DecodeList(codec, keys, values);
    result := DecodePost(all);
    forall i | 0 <= i < |changes| ensures result[i] == Record(codec, prefix, changes[i]) {
      assert result[i] == (all[i].key, all[|all| / 2 + i].value);
      assert all[i] == DecodedKey(codec.key(keys[i]));
      assert all[|changes| + i] == DecodedValue(codec.value(values[i]));
    }
  }

  /** A record is decoded from what stands behind the prefix in its key, and from its value, or from nothing. */
  lemma RecordDecoded<K, V>(codec: Codec<K, V>, prefix: Key, rest: string, v: string)
    ensures Records(codec, prefix, [(prefix + rest, Some(v))]) == [(codec.key(rest), codec.value(v))]
    ensures Records(codec, prefix, [(prefix + rest, None)]) == [(codec.key(rest), codec.value(""))]
  {
    assert (prefix + rest)[|prefix|..] == rest;
  }

  /** So is each record of the map. */
  lemma RecordOfKey<K, V>(codec: Codec<K, V>, store: Store, keys: seq<Key>, i: nat, rest: string)
    requires i < |keys| && keys[i] == store.prefix + rest
    ensures RecordsOf(codec, store, keys)[i].0 == codec.key(rest)
    ensures store.values(keys[i]) == None ==> RecordsOf(codec, store, keys)[i].1 == codec.value("")
    ensures forall v :: store.values(keys[i]) == Some(v) ==> RecordsOf(codec, store, keys)[i].1 == codec.value(v)
  {
    assert keys[i][|store.prefix|..] == rest;
  }

  method DecodePage<K, V>(codec: Codec<K, V>, store: Store, keys: seq<Key>) returns (page: seq<(K, V)>)
    ensures page == RecordsOf(codec, store, keys)
  {
    page := DecodeQueryMap(codec, store.prefix, QueryStorage(store, keys));
  }

  lemma QueryConcat(store: Store, a: seq<Key>, b: seq<Key>)
    ensures QueryStorage(store, a + b) == QueryStorage(store, a) + QueryStorage(store, b)
  {
  }

  lemma RecordsConcat<K, V>(codec: Codec<K, V>, prefix: Key, a: seq<Change>, b: seq<Change>)
    ensures Records(codec, prefix, a + b) == Records(codec, prefix, a) + Records(codec, prefix, b)
  {
  }

  /** The records of some keys of the map. */
  function RecordsOf<K, V>(codec: Codec<K, V>, store: Store, keys: seq<Key>): (records: seq<(K, V)>)
    ensures |records| == |keys|
  {
    Records(codec, store.prefix, QueryStorage(store, keys))
  }

  lemma RecordsOfConcat<K, V>(codec: Codec<K, V>, store: Store, a: seq<Key>, b: seq<Key>)
    ensures RecordsOf(codec, store, a + b) == RecordsOf(codec, store, a) + RecordsOf(codec, store, b)
  {
    QueryConcat(store, a, b);
    RecordsConcat(codec, store.prefix, QueryStorage(store, a), QueryStorage(store, b));
  }

  /* ---------- Paging ---------- */

  /** A number of results below the page size only makes the pages smaller. */
  function PageSize(pageSize: nat, maxResults: Option<nat>): nat {
    if maxResults.Some? && maxResults.value < pageSize then maxResults.value else pageSize
  }

  function StartKey(store: Store, start: Option<Key>): Key {
    if start.None? || start.value == "" then store.prefix else start.value
  }

  /** The smaller of the two numbers, and where a query starts: behind the given key, or behind the prefix. */
  lemma PageAndStart(store: Store, pageSize: nat, n: nat, key: Key)
    ensures PageSize(pageSize, None) == pageSize
    ensures n <= pageSize ==> PageSize(pageSize, Some(n)) == n
    ensures n >= pageSize ==> PageSize(pageSize, Some(n)) == pageSize
    ensures StartKey(store, None) == StartKey(store, Some("")) == store.prefix
    ensures key != "" ==> StartKey(store, Some(key)) == key
  {
  }

  /** The keys of one page, and where the next page starts. */
  function Page(store: Store, pageSize: nat, start: Option<Key>): (seq<Key>, Option<Key>) {
    var keys := KeysPaged(store, pageSize, StartKey(store, start));
    (keys, LastKey(keys))
  }

  function LastKey(keys: seq<Key>): Option<Key> {
    if keys == [] then None else Some(keys[|keys| - 1])
  }

  class QueryMapResult<K, V> {
    const codec: Codec<K, V>
    const store: Store
    const pageSize: nat
    var records: seq<(K, V)>
    var buffer: seq<(K, V)>
    var lastKey: Option<Key>
    var loadingComplete: bool
    ghost var yielded: seq<(K, V)>

    ghost predicate Valid()
      reads this
    {
      && ValidStore(store)
      && records == yielded + buffer
      && (lastKey.Some? ==> lastKey.value != "")
    }

    /** Everything the iterator has still to yield. */
    ghost function Remaining(): seq<(K, V)>
      reads this
    {
      buffer + if loadingComplete || pageSize == 0 then []
               else RecordsOf(codec, store, After(store.keys, StartKey(store, lastKey)))
    }

    /** The result of `query_map`, with its first page. */
    constructor (codec: Codec<K, V>, store: Store, pageSize: nat, maxResults: Option<nat>, start: Option<Key>)
      requires ValidStore(store)
      ensures Valid() && yielded == []
      ensures this.codec == codec && this.store == store && this.pageSize == PageSize(pageSize, maxResults)
      ensures var (page, last) := Page(store, PageSize(pageSize, maxResults), start);
              records == buffer == RecordsOf(codec, store, page) && lastKey == last && !loadingComplete
    {
      var size := PageSize(pageSize, maxResults);
      var (page, last) := Page(store, size, start);
      var rs := DecodePage(codec, store, page);
      this.codec, this.store, this.pageSize := codec, store, size;
      records, buffer, lastKey, loadingComplete := rs, rs, last, false;
      yielded := [];
      new;
      LastIsKey(store, size, start);
    }

    /** The result of a query that fetched everything at once. */
    constructor Exhausted(codec: Codec<K, V>, store: Store, pageSize: nat, records: seq<(K, V)>)
      requires ValidStore(store)
      ensures Valid() && yielded == []
      ensures this.records == buffer == records && Remaining() == records
    {
      this.codec, this.store, this.pageSize := codec, store, pageSize;
      this.records, buffer, loadingComplete := records, records, false;
      lastKey := LastKey(store.keys);
      yielded := [];
      new;
      NothingAfterLast(store);
    }

    /** Fetches from a start; from the last key, with nothing buffered, that is the head of what remains. */
    method RetrieveNextPage(start: Option<Key>) returns (page: seq<(K, V)>)
      requires Valid()
      modifies this`lastKey, this`loadingComplete
      ensures Valid()
      ensures var (keys, last) := Page(store, pageSize, start);
              && page == RecordsOf(codec, store, keys)
              && lastKey == last
              && loadingComplete == (old(loadingComplete) || |keys| < pageSize)
      ensures start == old(lastKey) && buffer == [] && !old(loadingComplete) ==>
                (if page == [] then old(Remaining()) == [] else old(Remaining()) == page + Remaining())
    {
      hide RecordsOf, After, Page, KeysPaged, ValidStore, Before, StartKey;
      PageThenRest(codec, store, pageSize, start);
      var (keys, last) := Page(store, pageSize, start);
      LastIsKey(store, pageSize, start);
      page := DecodePage(codec, store, keys);
      if |page| < pageSize {
        loadingComplete := true;
      }
      lastKey := last;
    }

    /** `__anext__`: yields the first of what remains, for as long as something remains. What has been
        yielded is always a prefix of the records. */
    method Next() returns (record: Option<(K, V)>)
      requires Valid()
      modifies this
      ensures Valid()
      ensures old(Remaining()) == [] ==> record == None && Remaining() == [] && yielded == old(yielded)
      ensures old(Remaining()) != [] ==>
                record == Some(old(Remaining())[0]) && Remaining() == old(Remaining())[1..]
                && yielded == old(yielded) + [old(Remaining())[0]]
      ensures old(records) <= records && yielded <= records <= yielded + Remaining()
    {
      hide RecordsOf, After, Page, KeysPaged, ValidStore, Before, StartKey;
      if buffer != [] {
        HeadThenTail(yielded, buffer, Remaining()[|buffer|..]);
        record := Some(buffer[0]);
        yielded := yielded + [buffer[0]];
        buffer := buffer[1..];
        return;
      }
      if loadingComplete {
        return None;
      }
      var page := RetrieveNextPage(lastKey);
      if page == [] {
        loadingComplete := true;
        return None;
      }
      HeadThenTail(yielded, page, Remaining());
      records := records + page;
      buffer := page[1..];
      yielded := yielded + [page[0]];
      record := Some(page[0]);
    }

    /** `retrieve_all_records`: ends, and leaves in the records what was yielded and what remained. */
    method RetrieveAllRecords() returns (all: seq<(K, V)>)
      requires Valid()
      modifies this
      ensures Valid()
      ensures all == records == yielded == old(yielded) + old(Remaining())
      ensures Remaining() == []
    {
      hide RecordsOf, After, StartKey, ValidStore, Before;
      ghost var before, expected := yielded, Remaining();
      var record := Next();
      while record.Some?
        invariant Valid()
        invariant yielded + Remaining() == before + expected
        invariant record.None? ==> Remaining() == []
        decreases |Remaining()|, record.Some?
      {
        record := Next();
      }
      assert buffer == [];
      all := records;
    }
  }

  lemma HeadThenTail<T>(before: seq<T>, page: seq<T>, rest: seq<T>)
    requires page != []
    ensures (page + rest)[0] == page[0] && (page + rest)[1..] == page[1..] + rest
    ensures before + page == before + [page[0]] + page[1..]
  {
  }

  lemma LastIsKey(store: Store, pageSize: nat, start: Option<Key>)
    requires ValidStore(store)
    ensures Page(store, pageSize, start).1.Some? ==> Page(store, pageSize, start).1.value != ""
  {
    var n := AfterIsTail(store.keys, StartKey(store, start));
    var page := KeysPaged(store, pageSize, StartKey(store, start));
    if page != [] {
      AfterMembers(store.keys, StartKey(store, start), |page| - 1);
    }
  }

  lemma {:induction false} AfterMembers(keys: seq<Key>, start: Key, i: nat)
    requires i < |After(keys, start)|
    ensures Before(start, After(keys, start)[i])
  {
    if Before(start, keys[0]) {
      if i > 0 {
        AfterMembers(keys[1..], start, i - 1);
      }
    } else {
      AfterMembers(keys[1..], start, i);
    }
  }

  /** What is behind a start is its page and what is behind the page; a short page is the last one. */
  lemma PageThenRest<K, V>(codec: Codec<K, V>, store: Store, pageSize: nat, start: Option<Key>)
    requires ValidStore(store)
    ensures var (page, last) := Page(store, pageSize, start);
            var all := RecordsOf(codec, store, After(store.keys, StartKey(store, start)));
            && |page| <= pageSize
            && (|page| < pageSize ==> all == RecordsOf(codec, store, page))
            && (page != [] ==>
                  all == RecordsOf(codec, store, page) + RecordsOf(codec, store, After(store.keys, StartKey(store, last))))
  {
    var (page, last) := Page(store, pageSize, start);
    LastIsKey(store, pageSize, start);
    if page != [] {
      AfterPage(store, StartKey(store, start), pageSize);
      RecordsOfConcat(codec, store, page, After(store.keys, page[|page| - 1]));
    }
  }

  /** Before the first step the iterator has to yield everything behind the start, whatever the page size,
      exactly when that is not nothing, or the start is the beginning: an empty first page makes it start
      over from the prefix. */
  lemma FirstPageIff<K, V>(codec: Codec<K, V>, store: Store, pageSize: nat, start: Option<Key>)
    requires ValidStore(store) && pageSize > 0
    ensures var (page, last) := Page(store, pageSize, start);
            RecordsOf(codec, store, page) + RecordsOf(codec, store, After(store.keys, StartKey(store, last)))
            == RecordsOf(codec, store, After(store.keys, StartKey(store, start)))
            <==> After(store.keys, StartKey(store, start)) != [] || After(store.keys, store.prefix) == []
  {
    var (page, last) := Page(store, pageSize, start);
    PageThenRest(codec, store, pageSize, start);
    assert RecordsOf(codec, store, []) == [];
    if page == [] {
      var all := RecordsOf(codec, store, After(store.keys, store.prefix));
      assert [] + all == all;
    }
  }

  lemma NothingAfterLast(store: Store)
    requires ValidStore(store)
    ensures After(store.keys, StartKey(store, LastKey(store.keys))) == []
    ensures LastKey(store.keys).Some? ==> LastKey(store.keys).value != ""
  {
    if store.keys != [] {
      AfterKey(store.keys, |store.keys| - 1);
    }
  }

  /** Iterating from the beginning yields every record of the map once, in key order, for every page size. The
      maximum of results bounds what is yielded exactly when the map is no larger, or nothing is asked for. */
  method IterateAll<K, V>(codec: Codec<K, V>, store: Store, pageSize: nat, maxResults: Option<nat>)
      returns (all: seq<(K, V)>)
    requires ValidStore(store)
    ensures all == if PageSize(pageSize, maxResults) == 0 then []
                   else RecordsOf(codec, store, After(store.keys, store.prefix))
    ensures maxResults.Some? ==>
              (|all| <= maxResults.value <==>
               pageSize == 0 || maxResults.value == 0 || |After(store.keys, store.prefix)| <= maxResults.value)
  {
    var result := new QueryMapResult(codec, store, pageSize, maxResults, None);
    var size := PageSize(pageSize, maxResults);
    if size > 0 {
      FirstPageIff(codec, store, size, None);
    } else {
      assert Page(store, 0, None).0 == [];
    }
    all := result.RetrieveAllRecords();
  }
}
