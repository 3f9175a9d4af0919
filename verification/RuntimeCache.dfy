/** The runtime cache: four linked least-recently-used maps and a sorted list of known versions, and the
    lookup of a runtime through them. Whatever was evicted, answers must be those of the chain.
 */
module Runtimes {
  import opened Dicts
  import opened Lru

  datatype Hash = Hash(code: int)
  datatype Runtime = Runtime(registry: string)

  /** What the node answers: the hash of a block number, the number of a hash, the runtime version that
      applies to a hash, and the runtime of a version. */
  datatype Chain = Chain(
    hashOf: int -> Hash,
    numberOf: Hash -> int,
    versionOf: Hash -> Option<int>,
    runtimeOf: int -> Runtime)

  type Known = seq<(int, int)>   // (first block, version)

  datatype Caches = Caches(
    blocks: Dict<int, Hash>,
    reverse: Dict<Hash, int>,
    hashes: Dict<Hash, int>,
    versions: Dict<int, Runtime>,
    known: Known,
    lastUsed: Option<Runtime>)

  datatype Capacity = Capacity(lookups: nat, runtimes: nat)

  /* ---------- Known versions ---------- */

  function Insert(e: (int, int), known: Known): Known {
    if known == [] || e.0 < known[0].0 then [e] + known else [known[0]] + Insert(e, known[1..])
  }

  /** Stable sorting by block. */
  function SortByBlock(known: Known): Known {
    if known == [] then [] else Insert(known[|known| - 1], SortByBlock(known[..|known| - 1]))
  }

  ghost predicate Ascending(known: Known) {
    forall i, j :: 0 <= i < j < |known| ==> known[i].0 <= known[j].0
  }

  lemma {:induction false} InsertMembers(e: (int, int), known: Known)
    ensures multiset(Insert(e, known)) == multiset(known) + multiset{e}
    ensures forall i :: 0 <= i < |Insert(e, known)| ==> Insert(e, known)[i] == e || Insert(e, known)[i] in known
  {
    if known != [] {
      assert known == [known[0]] + known[1..];
      if e.0 >= known[0].0 {
        InsertMembers(e, known[1..]);
      }
    }
  }

  lemma {:induction false} InsertSorts(e: (int, int), known: Known)
    requires Ascending(known)
    ensures Ascending(Insert(e, known))
  {
    if known != [] && e.0 >= known[0].0 {
      var rest := known[1..];
      InsertSorts(e, rest);
      InsertMembers(e, rest);
      assert forall i :: 0 <= i < |Insert(e, rest)| ==> known[0].0 <= Insert(e, rest)[i].0;
    }
  }

  lemma {:induction false} SortSorts(known: Known)
    ensures Ascending(SortByBlock(known)) && multiset(SortByBlock(known)) == multiset(known)
  {
    if known != [] {
      SortSorts(known[..|known| - 1]);
      InsertSorts(known[|known| - 1], SortByBlock(known[..|known| - 1]));
      InsertMembers(known[|known| - 1], SortByBlock(known[..|known| - 1]));
      assert known == known[..|known| - 1] + [known[|known| - 1]];
    }
  }

  /** `bisect_right` over the first blocks. */
  function BisectRight(known: Known, block: int): (n: nat)
    ensures n <= |known|
  {
    if known != [] && known[0].0 <= block then 1 + BisectRight(known[1..], block) else 0
  }

  lemma {:induction false} BisectSplits(known: Known, block: int)
    requires Ascending(known)
    ensures forall i :: 0 <= i < BisectRight(known, block) ==> known[i].0 <= block
    ensures forall i :: BisectRight(known, block) <= i < |known| ==> block < known[i].0
  {
    if known != [] && known[0].0 <= block {
      BisectSplits(known[1..], block);
      forall i | 0 <= i < BisectRight(known, block) ensures known[i].0 <= block {
        if i > 0 {
          assert known[1..][i - 1].0 <= block;
        }
      }
      forall i | BisectRight(known, block) <= i < |known| ensures block < known[i].0 {
        assert block < known[1..][i - 1].0;
      }
    }
  }

  /** The lookup leaves out the last known version. */
  function KnownVersion(known: Known, block: int): Option<int>
    requires known != []
  {
    var n := BisectRight(known[..|known| - 1], block);
    if n > 0 then Some(known[n - 1].1) else None
  }

  /** Each known version holds from its block up to the next one's. */
  ghost predicate KnownTrue(chain: Chain, known: Known) {
    && Ascending(known)
    && forall i, b {:trigger known[i], chain.hashOf(b)} ::
         0 <= i < |known| - 1 && known[i].0 <= b < known[i + 1].0 ==> chain.versionOf(chain.hashOf(b)) == Some(known[i].1)
  }

  /** The interval found holds the block, so its version is the block's, for blocks below the last entry. */
  lemma KnownVersionRight(chain: Chain, known: Known, block: int)
    requires KnownTrue(chain, known) && known != [] && block < known[|known| - 1].0
    ensures KnownVersion(known, block).Some? ==> chain.versionOf(chain.hashOf(block)) == KnownVersion(known, block)
    ensures KnownVersion(known, block).None? <==> block < known[0].0
  {
    var truncated := known[..|known| - 1];
    BisectSplits(truncated, block);
    var n := BisectRight(truncated, block);
    if n > 0 {
      assert truncated[n - 1].0 <= block;
      if n < |truncated| {
        assert block < truncated[n].0;
      }
      assert known[n - 1].0 <= block < known[n].0;
    }
  }

  /** A chain on which every known version, the last one included, holds from its block on. */
  function ChainOfKnown(known: Known): Chain {
    Chain(b => Hash(b), (h: Hash) => h.code,
          (h: Hash) => var n := BisectRight(known, h.code); if n > 0 then Some(known[n - 1].1) else None,
          _ => Runtime(""))
  }

  lemma ChainOfKnownTrue(known: Known)
    requires Ascending(known)
    ensures KnownTrue(ChainOfKnown(known), known)
  {
    var chain := ChainOfKnown(known);
    forall i, b | 0 <= i < |known| - 1 && known[i].0 <= b < known[i + 1].0
      ensures chain.versionOf(chain.hashOf(b)) == Some(known[i].1)
    {
      BisectSplits(known, b);
      var n := BisectRight(known, b);
      assert i < n <= i + 1;
    }
  }

  /** Knowing the list to be true of the chain makes a found version right exactly for the blocks below the
      last entry: at or past it the penultimate version is answered. */
  lemma KnownVersionRightIff(known: Known, block: int)
    requires Ascending(known) && |known| >= 2 && known[0].0 <= block
    requires known[|known| - 2].1 != known[|known| - 1].1
    ensures (forall chain: Chain :: KnownTrue(chain, known) ==>
               KnownVersion(known, block) == chain.versionOf(chain.hashOf(block)))
            <==> block < known[|known| - 1].0
  {
    var m := |known|;
    if block < known[m - 1].0 {
      forall chain: Chain | KnownTrue(chain, known)
        ensures KnownVersion(known, block) == chain.versionOf(chain.hashOf(block))
      {
        KnownVersionRight(chain, known, block);
      }
    } else {
      var chain := ChainOfKnown(known);
      ChainOfKnownTrue(known);
      BisectSplits(known, block);
      BisectSplits(known[..m - 1], block);
      AllAtMost(known, block);
      AllAtMost(known[..m - 1], block);
      assert chain.versionOf(chain.hashOf(block)) == Some(known[m - 1].1);
      assert KnownVersion(known, block) == Some(known[m - 2].1);
    }
  }

  /** On any chain of which the last known version holds from its block on as well, a found version is the
      block's exactly when the block is below the last entry. */
  lemma KnownVersionOnChainIff(chain: Chain, known: Known, block: int)
    requires KnownTrue(chain, known) && |known| >= 2 && known[0].0 <= block
    requires forall b :: known[|known| - 1].0 <= b ==> chain.versionOf(chain.hashOf(b)) == Some(known[|known| - 1].1)
    requires known[|known| - 2].1 != known[|known| - 1].1
    ensures KnownVersion(known, block) == chain.versionOf(chain.hashOf(block)) <==> block < known[|known| - 1].0
  {
    if block < known[|known| - 1].0 {
      KnownVersionRight(chain, known, block);
    } else {
      KnownVersionPastLast(known, block);
    }
  }

  function Penultimate(known: Known): int
    requires |known| > 1
  {
    known[|known| - 2].1
  }

  lemma KnownVersionPastLast(known: Known, block: int)
    requires Ascending(known) && |known| > 1 && known[|known| - 1].0 <= block
    ensures KnownVersion(known, block) == Some(Penultimate(known))
  {
    AllAtMost(known[..|known| - 1], block);
  }

  lemma {:induction false} AllAtMost(known: Known, block: int)
    requires forall i :: 0 <= i < |known| ==> known[i].0 <= block
    ensures BisectRight(known, block) == |known|
  {
    if known != [] {
      AllAtMost(known[1..], block);
    }
  }

  /* ---------- The operations ---------- */

  /** `get` of a key that may be missing. */
  function GetMaybe<K(==), V>(d: Dict<K, V>, key: Option<K>): (Option<V>, Dict<K, V>) {
    match key
    case None => (None, d)
    case Some(k) => (Lookup(d, k), GetEntry(d, k))
  }

  function Added(cap: Capacity, s: Caches, runtime: Option<Runtime>, block: Option<int>, hash: Option<Hash>,
                 version: Option<int>): Caches {
    s.(lastUsed := if runtime.Some? then runtime else s.lastUsed,
       versions := if runtime.Some? && version.Some? then SetEntry(cap.runtimes, s.versions, version.value, runtime.value)
                   else s.versions,
       blocks := if block.Some? && hash.Some? then SetEntry(cap.lookups, s.blocks, block.value, hash.value) else s.blocks,
       reverse := if block.Some? && hash.Some? then SetEntry(cap.lookups, s.reverse, hash.value, block.value) else s.reverse,
       hashes := if hash.Some? && version.Some? then SetEntry(cap.lookups, s.hashes, hash.value, version.value) else s.hashes)
  }

  /** The version that the known versions add to a query, and the touched reverse map. */
  function Supplied(s: Caches, block: Option<int>, hash: Option<Hash>, version: Option<int>): (Option<int>, Dict<Hash, int>) {
    if version.Some? || |s.known| <= 1 then (version, s.reverse)
    else if block.Some? then (KnownVersion(s.known, block.value), s.reverse)
    else
      var (found, reverse) := GetMaybe(s.reverse, hash);
      (if found.Some? then KnownVersion(s.known, found.value) else None, reverse)
  }

  /** Block number to hash to version to runtime, through three caches. */
  function Follow(s: Caches, hash: Option<Hash>): (Option<Runtime>, Caches) {
    var (version, hashes) := GetMaybe(s.hashes, hash);
    var (runtime, versions) := GetMaybe(s.versions, version);
    (runtime, s.(hashes := hashes, versions := versions, lastUsed := runtime))
  }

  function Retrieved(cap: Capacity, s: Caches, block: Option<int>, hash: Option<Hash>, version: Option<int>)
    : (Option<Runtime>, Caches)
  {
    var (version, reverse) := Supplied(s, block, hash, version);
    var s := s.(reverse := reverse);
    if block.Some? then
      var s := Added(cap, s, None, block, hash, version);
      var (found, blocks) := GetMaybe(s.blocks, block);
      Follow(s.(blocks := blocks), found)
    else if hash.Some? then
      Follow(Added(cap, s, None, None, hash, version), hash)
    else
      var (runtime, versions) := GetMaybe(s.versions, version);
      (runtime, s.(versions := versions, lastUsed := if runtime.Some? then runtime else s.lastUsed))
  }

  /** The runtime used last, by which the client decodes what comes without a block: a retrieval by block or hash leaves
      what it found, even if that is nothing; a retrieval by version leaves what it found, if it found anything; and an
      addition leaves the runtime that it adds, if it adds one. */
  lemma LastUsed(cap: Capacity, s: Caches, runtime: Option<Runtime>, block: Option<int>, hash: Option<Hash>, version: Option<int>)
    ensures var (found, t) := Retrieved(cap, s, block, hash, version);
            t.lastUsed == if block.Some? || hash.Some? then found else if found.Some? then found else s.lastUsed
    ensures Added(cap, s, runtime, block, hash, version).lastUsed == if runtime.Some? then runtime else s.lastUsed
  {
    hide GetMaybe, SetEntry, Supplied;
  }

  /** A retrieval by version finds the version's runtime if that is on file, whatever the known versions are, and touches
      nothing else. */
  lemma RetrievedByVersion(cap: Capacity, s: Caches, version: int)
    ensures var (found, t) := Retrieved(cap, s, None, None, Some(version));
            && found == Lookup(s.versions, version)
            && t.blocks == s.blocks && t.reverse == s.reverse && t.hashes == s.hashes && t.known == s.known
            && forall v :: Lookup(t.versions, v) == Lookup(s.versions, v)
  {
    forall v ensures Lookup(GetEntry(s.versions, version), v) == Lookup(s.versions, v) {
      GetKeepsLookups(s.versions, version, v);
    }
    hide Lookup, GetEntry;
  }

  ghost predicate Newest<K, V>(d: Dict<K, V>, key: K, value: V) {
    d != [] && d[|d| - 1] == (key, value)
  }

  lemma GetIsNewest<K, V>(d: Dict<K, V>, key: K)
    ensures Lookup(d, key).Some? ==> Newest(GetEntry(d, key), key, Lookup(d, key).value)
  {
  }

  /** A retrieval makes each entry that it goes through the most recent one of its map, so that it is evicted last: the
      block's hash, the hash's version, the version's runtime, and the hash's number where known versions are searched. */
  lemma RetrievalTouches(cap: Capacity, s: Caches, block: Option<int>, hash: Option<Hash>)
    requires (block.Some? && hash.None?) || (block.None? && hash.Some?)
    ensures var t := Retrieved(cap, s, block, hash, None).1;
            && (block.Some? && Lookup(s.blocks, block.value).Some? ==>
                  Newest(t.blocks, block.value, Lookup(s.blocks, block.value).value))
            && (hash.Some? && |s.known| > 1 && Lookup(s.reverse, hash.value).Some? ==>
                  Newest(t.reverse, hash.value, Lookup(s.reverse, hash.value).value))
            && (|s.known| <= 1 ==>
                  var found := if block.Some? then Lookup(s.blocks, block.value) else hash;
                  found.Some? && Lookup(s.hashes, found.value).Some? ==>
                    var version := Lookup(s.hashes, found.value).value;
                    && Newest(t.hashes, found.value, version)
                    && (Lookup(s.versions, version).Some? ==> Newest(t.versions, version, Lookup(s.versions, version).value)))
  {
    hide Lookup, GetEntry, SetEntry, Newest;
    if block.Some? {
      GetIsNewest(s.blocks, block.value);
    }
    if hash.Some? {
      GetIsNewest(s.reverse, hash.value);
    }
    var found := if block.Some? then Lookup(s.blocks, block.value) else hash;
    if found.Some? {
      GetIsNewest(s.hashes, found.value);
      if Lookup(s.hashes, found.value).Some? {
        GetIsNewest(s.versions, Lookup(s.hashes, found.value).value);
      }
    }
  }

  /** An addition changes only the maps both of whose ends it has. */
  lemma AddedLeaves(cap: Capacity, s: Caches, runtime: Option<Runtime>, block: Option<int>, hash: Option<Hash>, version: Option<int>)
    ensures var t := Added(cap, s, runtime, block, hash, version);
            && t.known == s.known
            && (block.None? || hash.None? ==> t.blocks == s.blocks && t.reverse == s.reverse)
            && (hash.None? || version.None? ==> t.hashes == s.hashes)
            && (runtime.None? || version.None? ==> t.versions == s.versions)
  {
  }

  /** And there both directions of a block and its hash, the hash's version and the version's runtime. */
  lemma AddedHolds(cap: Capacity, s: Caches, runtime: Runtime, block: int, hash: Hash, version: int)
    requires Unique(s.blocks) && |s.blocks| <= cap.lookups && Unique(s.reverse) && |s.reverse| <= cap.lookups
    requires Unique(s.hashes) && |s.hashes| <= cap.lookups && Unique(s.versions) && |s.versions| <= cap.runtimes
    requires cap.lookups > 0 && cap.runtimes > 0
    ensures var t := Added(cap, s, Some(runtime), Some(block), Some(hash), Some(version));
            && Lookup(t.blocks, block) == Some(hash) && Lookup(t.reverse, hash) == Some(block)
            && Lookup(t.hashes, hash) == Some(version) && Lookup(t.versions, version) == Some(runtime)
  {
    hide Lookup, SetEntry, Unique;
    SetThenLookup(cap.lookups, s.blocks, block, hash);
    SetThenLookup(cap.lookups, s.reverse, hash, block);
    SetThenLookup(cap.lookups, s.hashes, hash, version);
    SetThenLookup(cap.runtimes, s.versions, version, runtime);
  }

  /** Loading known versions replaces the old ones by the new ones in order of their blocks, and changes nothing else. */
  lemma KnownReplaced(cap: Capacity, s: Caches, known: Known)
    ensures var t := Apply(cap, s, AddKnown(known));
            && Ascending(t.known) && multiset(t.known) == multiset(known)
            && t.(known := s.known) == s
  {
    SortSorts(known);
  }

  /** Entries of one block keep their order. */
  lemma {:induction false} SortIsStable(known: Known, block: int)
    ensures OfBlock(SortByBlock(known), block) == OfBlock(known, block)
  {
    if known != [] {
      var init, last := known[..|known| - 1], known[|known| - 1];
      SortIsStable(init, block);
      SortSorts(init);
      InsertKeepsOrder(last, SortByBlock(init), block);
      OfBlockConcat(init, [last], block);
      assert known == init + [last];
      assert [last][1..] == [];
      hide Insert, SortByBlock;
    }
  }

  function OfBlock(known: Known, block: int): Known {
    if known == [] then [] else (if known[0].0 == block then [known[0]] else []) + OfBlock(known[1..], block)
  }

  lemma {:induction false} OfBlockConcat(a: Known, b: Known, block: int)
    ensures OfBlock(a + b, block) == OfBlock(a, block) + OfBlock(b, block)
  {
    hide OfBlock;
    NothingOfBlock(block);
    if a == [] {
      assert a + b == b;
    } else {
      var rest, all := a[1..], a + b;
      OfBlockConcat(rest, b, block);
      assert all[1..] == rest + b && all[0] == a[0];
      OfBlockHead(a, block);
      OfBlockHead(all, block);
    }
  }

  lemma NothingOfBlock(block: int)
    ensures OfBlock([], block) == []
  {
  }

  lemma OfBlockHead(known: Known, block: int)
    requires known != []
    ensures OfBlock(known, block) == (if known[0].0 == block then [known[0]] else []) + OfBlock(known[1..], block)
  {
  }

  lemma {:induction false} InsertKeepsOrder(e: (int, int), known: Known, block: int)
    requires Ascending(known)
    ensures OfBlock(Insert(e, known), block) == OfBlock(known, block) + if e.0 == block then [e] else []
  {
    if known != [] && e.0 >= known[0].0 {
      InsertKeepsOrder(e, known[1..], block);
      assert ([known[0]] + Insert(e, known[1..]))[1..] == Insert(e, known[1..]);
    } else {
      assert ([e] + known)[1..] == known;
      if e.0 == block {
        NoneOfBlock(known, block);
      }
    }
  }

  lemma {:induction false} NoneOfBlock(known: Known, block: int)
    requires Ascending(known) && (known != [] ==> block < known[0].0)
    ensures OfBlock(known, block) == []
  {
    if known != [] {
      assert known[1..] != [] ==> known[0].0 <= known[1].0;
      NoneOfBlock(known[1..], block);
    }
  }

  /* ---------- Truth ---------- */

  ghost function BlockTrue(chain: Chain): (int, Hash) -> bool {
    (block, hash) => chain.hashOf(block) == hash
  }

  ghost function ReverseTrue(chain: Chain): (Hash, int) -> bool {
    (hash, block) => chain.hashOf(block) == hash
  }

  ghost function VersionTrue(chain: Chain): (Hash, int) -> bool {
    (hash, version) => chain.versionOf(hash) == Some(version)
  }

  ghost function RuntimeTrue(chain: Chain): (int, Runtime) -> bool {
    (version, runtime) => chain.runtimeOf(version) == runtime
  }

  /** Every entry of every map is what the chain says. */
  ghost predicate True(chain: Chain, s: Caches) {
    && AllEntries(s.blocks, BlockTrue(chain))
    && AllEntries(s.reverse, ReverseTrue(chain))
    && AllEntries(s.hashes, VersionTrue(chain))
    && AllEntries(s.versions, RuntimeTrue(chain))
  }

  /** The arguments of a call agree with the chain. */
  ghost predicate Truthful(chain: Chain, runtime: Option<Runtime>, block: Option<int>, hash: Option<Hash>, version: Option<int>) {
    && (block.Some? && hash.Some? ==> chain.hashOf(block.value) == hash.value)
    && (hash.Some? && version.Some? ==> chain.versionOf(hash.value) == version)
    && (runtime.Some? && version.Some? ==> chain.runtimeOf(version.value) == runtime.value)
  }

  /** The block number under which the known versions are searched. */
  function NumberFor(s: Caches, block: Option<int>, hash: Option<Hash>): Option<int> {
    if block.Some? then block else if hash.Some? then Lookup(s.reverse, hash.value) else None
  }

  /** The known versions supply their last but one for the hash, because its number is at or past the last. */
  predicate SuppliesLast(cap: Capacity, s: Caches, block: Option<int>, hash: Option<Hash>, version: Option<int>) {
    && version.None? && |s.known| > 1 && hash.Some? && cap.lookups > 0
    && var number := NumberFor(s, block, hash);
    && number.Some? && s.known[|s.known| - 1].0 <= number.value
  }

  /** It is not the version of the hash. */
  ghost predicate Misdated(chain: Chain, cap: Capacity, s: Caches, block: Option<int>, hash: Option<Hash>,
                           version: Option<int>) {
    SuppliesLast(cap, s, block, hash, version) && chain.versionOf(hash.value) != Some(Penultimate(s.known))
  }

  /** Its runtime is on file, and is not the runtime of the hash. */
  ghost predicate Misled(chain: Chain, cap: Capacity, s: Caches, block: Option<int>, hash: Option<Hash>,
                         version: Option<int>) {
    && SuppliesLast(cap, s, block, hash, version)
    && Lookup(s.versions, Penultimate(s.known)).Some?
    && !IsRuntimeOf(chain, hash.value, Lookup(s.versions, Penultimate(s.known)).value)
  }

  /** The maps are caches within their capacities. */
  ghost predicate Within(cap: Capacity, s: Caches) {
    && Unique(s.blocks) && |s.blocks| <= cap.lookups
    && Unique(s.reverse) && |s.reverse| <= cap.lookups
    && Unique(s.hashes) && |s.hashes| <= cap.lookups
    && Unique(s.versions) && |s.versions| <= cap.runtimes
  }

  /** The runtime that the chain itself gives for a hash. */
  ghost predicate IsRuntimeOf(chain: Chain, hash: Hash, runtime: Runtime) {
    chain.versionOf(hash).Some? && runtime == chain.runtimeOf(chain.versionOf(hash).value)
  }

  /** What the chain itself answers to a query. */
  ghost predicate IsAnswer(chain: Chain, block: Option<int>, hash: Option<Hash>, version: Option<int>, runtime: Runtime) {
    if block.Some? then IsRuntimeOf(chain, chain.hashOf(block.value), runtime)
    else if hash.Some? then IsRuntimeOf(chain, hash.value, runtime)
    else version.Some? && runtime == chain.runtimeOf(version.value)
  }

  lemma AddedTrue(chain: Chain, cap: Capacity, s: Caches, runtime: Option<Runtime>, block: Option<int>, hash: Option<Hash>,
                  version: Option<int>)
    requires True(chain, s) && Truthful(chain, runtime, block, hash, version)
    ensures True(chain, Added(cap, s, runtime, block, hash, version))
  {
    hide AllEntries, SetEntry;
    if block.Some? && hash.Some? {
      SetKeepsEntries(cap.lookups, s.blocks, block.value, hash.value, BlockTrue(chain));
      SetKeepsEntries(cap.lookups, s.reverse, hash.value, block.value, ReverseTrue(chain));
    }
    if hash.Some? && version.Some? {
      SetKeepsEntries(cap.lookups, s.hashes, hash.value, version.value, VersionTrue(chain));
    }
    if runtime.Some? && version.Some? {
      SetKeepsEntries(cap.runtimes, s.versions, version.value, runtime.value, RuntimeTrue(chain));
    }
  }

  lemma GetMaybeTrue<K, V>(d: Dict<K, V>, key: Option<K>, p: (K, V) -> bool)
    requires AllEntries(d, p)
    ensures AllEntries(GetMaybe(d, key).1, p)
    ensures GetMaybe(d, key).0.Some? ==> key.Some? && p(key.value, GetMaybe(d, key).0.value)
  {
    if key.Some? {
      GetKeepsEntries(d, key.value, p);
    }
  }

  lemma FollowTrue(chain: Chain, s: Caches, hash: Option<Hash>)
    requires True(chain, s)
    ensures True(chain, Follow(s, hash).1)
    ensures Follow(s, hash).0.Some? ==> hash.Some? && IsRuntimeOf(chain, hash.value, Follow(s, hash).0.value)
  {
    hide AllEntries, GetMaybe;
    GetMaybeTrue(s.hashes, hash, VersionTrue(chain));
    GetMaybeTrue(s.versions, GetMaybe(s.hashes, hash).0, RuntimeTrue(chain));
  }

  lemma SuppliedFor(s: Caches, block: Option<int>, hash: Option<Hash>, version: Option<int>)
    ensures Supplied(s, block, hash, version).0
            == if version.Some? || |s.known| <= 1 || NumberFor(s, block, hash).None? then version
               else KnownVersion(s.known, NumberFor(s, block, hash).value)
  {
  }

  /** The known versions give the hash's version, or the last but one of them. */
  lemma KnownFor(chain: Chain, known: Known, number: int)
    requires KnownTrue(chain, known) && |known| > 1
    ensures number < known[|known| - 1].0 ==>
              KnownVersion(known, number).Some? ==> chain.versionOf(chain.hashOf(number)) == KnownVersion(known, number)
    ensures number >= known[|known| - 1].0 ==> KnownVersion(known, number) == Some(Penultimate(known))
  {
    assert Ascending(known);
    hide KnownVersion, KnownTrue, Ascending;
    if number < known[|known| - 1].0 {
      KnownVersionRight(chain, known, number);
    } else {
      KnownVersionPastLast(known, number);
    }
  }

  lemma NumberTrue(chain: Chain, s: Caches, block: Option<int>, hash: Hash)
    requires AllEntries(s.reverse, ReverseTrue(chain)) && (block.Some? ==> chain.hashOf(block.value) == hash)
    ensures var number := NumberFor(s, block, Some(hash)); number.Some? ==> chain.hashOf(number.value) == hash
  {
    if Lookup(s.reverse, hash).Some? {
      LookedUpEntry(s.reverse, hash, ReverseTrue(chain));
    }
  }

  lemma SuppliedReverseTrue(chain: Chain, s: Caches, block: Option<int>, hash: Option<Hash>, version: Option<int>)
    requires AllEntries(s.reverse, ReverseTrue(chain))
    ensures AllEntries(Supplied(s, block, hash, version).1, ReverseTrue(chain))
  {
    hide AllEntries, GetMaybe;
    GetMaybeTrue(s.reverse, hash, ReverseTrue(chain));
  }

  /** A supplied version is the hash's, or the last but one of the known versions. */
  lemma SuppliedTrue(chain: Chain, cap: Capacity, s: Caches, block: Option<int>, hash: Option<Hash>, version: Option<int>)
    requires True(chain, s) && KnownTrue(chain, s.known) && Truthful(chain, None, block, hash, version)
    ensures hash.Some? && Supplied(s, block, hash, version).0.Some? && cap.lookups > 0 ==>
              if Misdated(chain, cap, s, block, hash, version)
              then Supplied(s, block, hash, version).0 == Some(Penultimate(s.known))
              else chain.versionOf(hash.value) == Supplied(s, block, hash, version).0
    ensures Misdated(chain, cap, s, block, hash, version) ==>
              Supplied(s, block, hash, version).0 == Some(Penultimate(s.known))
  {
    hide Supplied, AllEntries, KnownVersion, KnownTrue, NumberFor, Penultimate, Lookup;
    SuppliedFor(s, block, hash, version);
    var number := NumberFor(s, block, hash);
    if version.None? && |s.known| > 1 && hash.Some? && number.Some? {
      NumberTrue(chain, s, block, hash.value);
      KnownFor(chain, s.known, number.value);
    }
  }

  lemma FollowKeepsKnown(s: Caches)
    ensures forall hash :: Follow(s, hash).1.known == s.known
  {
  }

  lemma EmptyStaysEmpty<K, V>(d: Dict<K, V>, key: K, value: V)
    requires d == []
    ensures SetEntry(0, d, key, value) == []
  {
  }

  lemma AddedVersionTrue(chain: Chain, cap: Capacity, s: Caches, block: Option<int>, hash: Option<Hash>, version: Option<int>)
    requires True(chain, s) && Within(cap, s) && (block.Some? && hash.Some? ==> chain.hashOf(block.value) == hash.value)
    requires hash.Some? && version.Some? && cap.lookups > 0 ==> chain.versionOf(hash.value) == version
    ensures True(chain, Added(cap, s, None, block, hash, version))
  {
    hide AllEntries;
    if hash.Some? && version.Some? && cap.lookups == 0 {
      EmptyStaysEmpty(s.hashes, hash.value, version.value);
      hide SetEntry;
      AddedTrue(chain, cap, s, None, block, hash, None);
    } else {
      hide SetEntry;
      AddedTrue(chain, cap, s, None, block, hash, version);
    }
  }

  /** A truthful retrieval that is not misdated keeps the caches true, and what it finds is the chain's answer. */
  lemma RetrievedTrue(chain: Chain, cap: Capacity, s: Caches, block: Option<int>, hash: Option<Hash>, version: Option<int>)
    requires True(chain, s) && KnownTrue(chain, s.known) && Within(cap, s)
    requires Truthful(chain, None, block, hash, version) && !Misdated(chain, cap, s, block, hash, version)
    ensures True(chain, Retrieved(cap, s, block, hash, version).1)
    ensures Retrieved(cap, s, block, hash, version).1.known == s.known
    ensures Retrieved(cap, s, block, hash, version).0.Some? ==>
              IsAnswer(chain, block, hash, version, Retrieved(cap, s, block, hash, version).0.value)
  {
    SuppliedTrue(chain, cap, s, block, hash, version);
    SuppliedReverseTrue(chain, s, block, hash, version);
    SuppliedFor(s, block, hash, version);
    SuppliedWithin(cap, s, block, hash, version);
    hide AllEntries, GetMaybe, Supplied, Follow, IsRuntimeOf, Misdated, KnownTrue, KnownVersion;
    var (version', reverse) := Supplied(s, block, hash, version);
    var s' := s.(reverse := reverse);
    FollowKeepsKnown(s');
    if block.Some? {
      AddedVersionTrue(chain, cap, s', block, hash, version');
      var added := Added(cap, s', None, block, hash, version');
      GetMaybeTrue(added.blocks, block, BlockTrue(chain));
      var (found, blocks) := GetMaybe(added.blocks, block);
      FollowTrue(chain, added.(blocks := blocks), found);
      FollowKeepsKnown(added.(blocks := blocks));
    } else if hash.Some? {
      AddedVersionTrue(chain, cap, s', None, hash, version');
      FollowTrue(chain, Added(cap, s', None, None, hash, version'), hash);
      FollowKeepsKnown(Added(cap, s', None, None, hash, version'));
    } else {
      GetMaybeTrue(s'.versions, version', RuntimeTrue(chain));
    }
  }

  lemma GetMaybeWithin<K, V>(cap: nat, d: Dict<K, V>, key: Option<K>)
    requires Unique(d) && |d| <= cap
    ensures Unique(GetMaybe(d, key).1) && |GetMaybe(d, key).1| <= cap
  {
    if key.Some? {
      GetKeepsValid(cap, d, key.value);
    }
  }

  lemma SuppliedWithin(cap: Capacity, s: Caches, block: Option<int>, hash: Option<Hash>, version: Option<int>)
    requires Within(cap, s)
    ensures Within(cap, s.(reverse := Supplied(s, block, hash, version).1))
  {
    GetMaybeWithin(cap.lookups, s.reverse, hash);
    hide Unique, GetMaybe;
  }

  lemma AddedWithin(cap: Capacity, s: Caches, runtime: Option<Runtime>, block: Option<int>, hash: Option<Hash>,
                    version: Option<int>)
    requires Within(cap, s)
    ensures Within(cap, Added(cap, s, runtime, block, hash, version))
  {
    hide Unique, SetEntry;
    if block.Some? && hash.Some? {
      SetKeepsValid(cap.lookups, s.blocks, block.value, hash.value);
      SetKeepsValid(cap.lookups, s.reverse, hash.value, block.value);
    }
    if hash.Some? && version.Some? {
      SetKeepsValid(cap.lookups, s.hashes, hash.value, version.value);
    }
    if runtime.Some? && version.Some? {
      SetKeepsValid(cap.runtimes, s.versions, version.value, runtime.value);
    }
  }

  lemma FollowWithin(cap: Capacity, s: Caches, hash: Option<Hash>)
    requires Within(cap, s)
    ensures Within(cap, Follow(s, hash).1)
  {
    hide Unique, GetMaybe;
    GetMaybeWithin(cap.lookups, s.hashes, hash);
    GetMaybeWithin(cap.runtimes, s.versions, GetMaybe(s.hashes, hash).0);
  }

  lemma RetrievedWithin(cap: Capacity, s: Caches, block: Option<int>, hash: Option<Hash>, version: Option<int>)
    requires Within(cap, s)
    ensures Within(cap, Retrieved(cap, s, block, hash, version).1)
  {
    SuppliedWithin(cap, s, block, hash, version);
    var (version', reverse) := Supplied(s, block, hash, version);
    var s' := s.(reverse := reverse);
    hide Unique, GetMaybe, Supplied, Follow, Added;
    if block.Some? {
      AddedWithin(cap, s', None, block, hash, version');
      var added := Added(cap, s', None, block, hash, version');
      GetMaybeWithin(cap.lookups, added.blocks, block);
      FollowWithin(cap, added.(blocks := GetMaybe(added.blocks, block).1), GetMaybe(added.blocks, block).0);
    } else if hash.Some? {
      AddedWithin(cap, s', None, None, hash, version');
      FollowWithin(cap, Added(cap, s', None, None, hash, version'), hash);
    } else {
      GetMaybeWithin(cap.runtimes, s'.versions, version');
    }
  }

  /* ---------- At and past the last known version ---------- */

  lemma GetMaybeLookups<K, V>(d: Dict<K, V>, key: Option<K>, other: K)
    ensures Lookup(GetMaybe(d, key).1, other) == Lookup(d, other)
  {
    if key.Some? {
      GetKeepsLookups(d, key.value, other);
    }
  }

  /** Following a hash on file for a version. */
  lemma FollowFound(s: Caches, hash: Hash, version: int)
    requires Lookup(s.hashes, hash) == Some(version)
    ensures Follow(s, Some(hash)).0 == Lookup(s.versions, version)
    ensures Lookup(Follow(s, Some(hash)).1.hashes, hash) == Some(version)
  {
    hide Lookup, GetEntry;
    GetMaybeLookups(s.hashes, Some(hash), hash);
  }

  /** A retrieval that is supplied with the last but one of the known versions sets it down for the hash, and
      answers with its runtime, if that is on file. */
  lemma RetrievedSuppliedLast(cap: Capacity, s: Caches, block: Option<int>, hash: Option<Hash>, version: Option<int>)
    requires Ascending(s.known) && Within(cap, s) && SuppliesLast(cap, s, block, hash, version)
    ensures Retrieved(cap, s, block, hash, version).0 == Lookup(s.versions, Penultimate(s.known))
    ensures Lookup(Retrieved(cap, s, block, hash, version).1.hashes, hash.value) == Some(Penultimate(s.known))
  {
    SuppliedFor(s, block, hash, version);
    KnownVersionPastLast(s.known, NumberFor(s, block, hash).value);
    SuppliedWithin(cap, s, block, hash, version);
    var (version', reverse) := Supplied(s, block, hash, version);
    hide Supplied, KnownVersion, Lookup, SetEntry, GetEntry, Unique, Follow, Ascending;
    var s' := s.(reverse := reverse);
    SetThenLookup(cap.lookups, s'.hashes, hash.value, version'.value);
    if block.Some? {
      SetThenLookup(cap.lookups, s'.blocks, block.value, hash.value);
      var added := Added(cap, s', None, block, hash, version');
      FollowFound(added.(blocks := GetMaybe(added.blocks, block).1), hash.value, version'.value);
    } else {
      FollowFound(Added(cap, s', None, None, hash, version'), hash.value, version'.value);
    }
  }

  /** A truthful retrieval keeps the caches true exactly when it is not misdated. */
  lemma RetrievedTrueIff(chain: Chain, cap: Capacity, s: Caches, block: Option<int>, hash: Option<Hash>, version: Option<int>)
    requires True(chain, s) && KnownTrue(chain, s.known) && Within(cap, s)
    requires Truthful(chain, None, block, hash, version)
    ensures True(chain, Retrieved(cap, s, block, hash, version).1) <==> !Misdated(chain, cap, s, block, hash, version)
  {
    if Misdated(chain, cap, s, block, hash, version) {
      RetrievedSuppliedLast(cap, s, block, hash, version);
      var hashes := Retrieved(cap, s, block, hash, version).1.hashes;
      hide Retrieved, AllEntries;
      if AllEntries(hashes, VersionTrue(chain)) {
        LookedUpEntry(hashes, hash.value, VersionTrue(chain));
      }
    } else {
      RetrievedTrue(chain, cap, s, block, hash, version);
    }
  }

  /** What a truthful retrieval finds is the chain's answer exactly when it is not misled: unless a number at or
      past the last known version is given or on file for the hash, and the runtime of the version before is on
      file and another one. */
  lemma RetrievedAnswerIff(chain: Chain, cap: Capacity, s: Caches, block: Option<int>, hash: Option<Hash>,
                           version: Option<int>)
    requires True(chain, s) && KnownTrue(chain, s.known) && Within(cap, s)
    requires Truthful(chain, None, block, hash, version)
    ensures var found := Retrieved(cap, s, block, hash, version).0;
            (found.Some? ==> IsAnswer(chain, block, hash, version, found.value))
            <==> !Misled(chain, cap, s, block, hash, version)
  {
    assert Ascending(s.known);
    hide Retrieved, KnownTrue;
    if SuppliesLast(cap, s, block, hash, version) {
      RetrievedSuppliedLast(cap, s, block, hash, version);
      var penultimate := Penultimate(s.known);
      if Lookup(s.versions, penultimate).Some? {
        LookedUpEntry(s.versions, penultimate, RuntimeTrue(chain));
      }
    } else {
      RetrievedTrue(chain, cap, s, block, hash, version);
    }
  }

  /** Blocks below the last known version are never misdated, whatever is on file. */
  lemma BelowLastNotMisdated(chain: Chain, cap: Capacity, s: Caches, block: Option<int>, hash: Hash, version: Option<int>)
    requires True(chain, s) && Truthful(chain, None, block, Some(hash), version)
    requires |s.known| > 1 ==> forall b :: chain.hashOf(b) == hash ==> b < s.known[|s.known| - 1].0
    ensures !SuppliesLast(cap, s, block, Some(hash), version)
  {
    if Lookup(s.reverse, hash).Some? {
      LookedUpEntry(s.reverse, hash, ReverseTrue(chain));
    }
  }

  /* ---------- Histories ---------- */

  datatype Op =
    | AddKnown(known: Known)
    | Add(runtime: Option<Runtime>, block: Option<int>, hash: Option<Hash>, version: Option<int>)
    | Retrieve(block: Option<int>, hash: Option<Hash>, version: Option<int>)

  function Apply(cap: Capacity, s: Caches, op: Op): Caches {
    match op
    case AddKnown(known) => s.(known := SortByBlock(known))
    case Add(runtime, block, hash, version) => Added(cap, s, runtime, block, hash, version)
    case Retrieve(block, hash, version) => Retrieved(cap, s, block, hash, version).1
  }

  function EmptyCaches(): Caches {
    Caches([], [], [], [], [], None)
  }

  function Run(cap: Capacity, ops: seq<Op>): Caches {
    if ops == [] then EmptyCaches() else Apply(cap, Run(cap, ops[..|ops| - 1]), ops[|ops| - 1])
  }

  /** The arguments of the call agree with the chain. */
  ghost predicate TruthfulOp(chain: Chain, op: Op) {
    match op
    case AddKnown(known) => KnownTrue(chain, SortByBlock(known))
    case Add(runtime, block, hash, version) => Truthful(chain, runtime, block, hash, version)
    case Retrieve(block, hash, version) => Truthful(chain, None, block, hash, version)
  }

  ghost predicate MisdatedOp(chain: Chain, cap: Capacity, s: Caches, op: Op) {
    match op
    case Retrieve(block, hash, version) => Misdated(chain, cap, s, block, hash, version)
    case _ => false
  }

  ghost predicate TruthfulHistory(chain: Chain, ops: seq<Op>) {
    forall n :: 0 <= n < |ops| ==> TruthfulOp(chain, ops[n])
  }

  ghost predicate NoneMisdated(chain: Chain, cap: Capacity, ops: seq<Op>) {
    forall n :: 0 <= n < |ops| ==> !MisdatedOp(chain, cap, Run(cap, ops[..n]), ops[n])
  }

  lemma {:induction false} RunWithin(cap: Capacity, ops: seq<Op>)
    ensures Within(cap, Run(cap, ops))
  {
    if ops != [] {
      var s := Run(cap, ops[..|ops| - 1]);
      RunWithin(cap, ops[..|ops| - 1]);
      hide Added, Retrieved;
      match ops[|ops| - 1] {
        case AddKnown(known) =>
        case Add(runtime, block, hash, version) => AddedWithin(cap, s, runtime, block, hash, version);
        case Retrieve(block, hash, version) => RetrievedWithin(cap, s, block, hash, version);
      }
    }
  }

  /** One call keeps the caches true exactly when it is not misdated. */
  lemma ApplyTrueIff(chain: Chain, cap: Capacity, s: Caches, op: Op)
    requires True(chain, s) && KnownTrue(chain, s.known) && Within(cap, s) && TruthfulOp(chain, op)
    ensures True(chain, Apply(cap, s, op)) <==> !MisdatedOp(chain, cap, s, op)
    ensures KnownTrue(chain, Apply(cap, s, op).known)
  {
    hide True, KnownTrue, Truthful, Misdated, Added, Retrieved, Within;
    match op {
      case AddKnown(known) => TrueIgnoresKnown(chain, s, SortByBlock(known));
      case Add(runtime, block, hash, version) =>
        AddedTrue(chain, cap, s, runtime, block, hash, version);
        AddedKeepsKnown(cap, s, runtime, block, hash, version);
      case Retrieve(block, hash, version) =>
        RetrievedTrueIff(chain, cap, s, block, hash, version);
        RetrievedKeepsKnown(cap, s, block, hash, version);
    }
  }

  lemma RetrievedKeepsKnown(cap: Capacity, s: Caches, block: Option<int>, hash: Option<Hash>, version: Option<int>)
    ensures Retrieved(cap, s, block, hash, version).1.known == s.known
  {
  }

  lemma TruthfulSnoc(chain: Chain, ops: seq<Op>, op: Op)
    ensures TruthfulHistory(chain, ops + [op]) <==> TruthfulHistory(chain, ops) && TruthfulOp(chain, op)
  {
    hide TruthfulOp;
    if TruthfulHistory(chain, ops + [op]) {
      forall n | 0 <= n < |ops| ensures TruthfulOp(chain, ops[n]) {
        assert (ops + [op])[n] == ops[n];
      }
      assert (ops + [op])[|ops|] == op;
    }
  }

  lemma NoneMisdatedSnoc(chain: Chain, cap: Capacity, ops: seq<Op>, op: Op)
    ensures NoneMisdated(chain, cap, ops + [op])
            <==> NoneMisdated(chain, cap, ops) && !MisdatedOp(chain, cap, Run(cap, ops), op)
  {
    hide MisdatedOp, Run;
    var all := ops + [op];
    assert all[..|ops|] == ops && all[|ops|] == op;
    forall n | 0 <= n < |ops| ensures all[..n] == ops[..n] && all[n] == ops[n] {
    }
  }

  lemma RunSnoc(cap: Capacity, ops: seq<Op>, op: Op)
    ensures Run(cap, ops + [op]) == Apply(cap, Run(cap, ops), op)
  {
    assert (ops + [op])[..|ops|] == ops;
    hide Apply;
  }

  lemma NothingTrue(chain: Chain, cap: Capacity)
    ensures True(chain, Run(cap, [])) && KnownTrue(chain, Run(cap, []).known)
  {
  }

  lemma {:induction false} HistoryTrue(chain: Chain, cap: Capacity, ops: seq<Op>)
    requires TruthfulHistory(chain, ops) && NoneMisdated(chain, cap, ops)
    ensures True(chain, Run(cap, ops)) && KnownTrue(chain, Run(cap, ops).known)
  {
    hide *;
    if ops == [] {
      NothingTrue(chain, cap);
    } else {
      var init, op := ops[..|ops| - 1], ops[|ops| - 1];
      assert ops == init + [op];
      TruthfulSnoc(chain, init, op);
      NoneMisdatedSnoc(chain, cap, init, op);
      HistoryTrue(chain, cap, init);
      RunWithin(cap, init);
      RunSnoc(cap, init, op);
      ApplyTrueIff(chain, cap, Run(cap, init), op);
    }
  }

  lemma PrefixTruthful(chain: Chain, ops: seq<Op>, n: nat)
    requires n <= |ops| && TruthfulHistory(chain, ops)
    ensures TruthfulHistory(chain, ops[..n])
  {
    hide TruthfulOp;
  }

  lemma PrefixNoneMisdated(chain: Chain, cap: Capacity, ops: seq<Op>, n: nat)
    requires n <= |ops| && NoneMisdated(chain, cap, ops)
    ensures NoneMisdated(chain, cap, ops[..n])
  {
    hide MisdatedOp, Run;
    forall m | 0 <= m < n ensures !MisdatedOp(chain, cap, Run(cap, ops[..n][..m]), ops[..n][m]) {
      assert ops[..n][..m] == ops[..m] && ops[..n][m] == ops[m];
    }
  }

  /** Over any history of calls with truthful arguments and any evictions: the caches are true of the chain all
      along exactly when no retrieval in it is misdated. */
  lemma HistoryTrueIff(chain: Chain, cap: Capacity, ops: seq<Op>)
    requires TruthfulHistory(chain, ops)
    ensures (forall n :: 0 <= n <= |ops| ==> True(chain, Run(cap, ops[..n]))) <==> NoneMisdated(chain, cap, ops)
  {
    hide True, Run, KnownTrue, TruthfulHistory, NoneMisdated;
    if NoneMisdated(chain, cap, ops) {
      forall n | 0 <= n <= |ops| ensures True(chain, Run(cap, ops[..n])) {
        PrefixTruthful(chain, ops, n);
        PrefixNoneMisdated(chain, cap, ops, n);
        HistoryTrue(chain, cap, ops[..n]);
      }
    } else {
      var n := FirstMisdated(chain, cap, ops);
    }
  }

  /** One misdated call after a history without any makes them false. */
  lemma MisdatedLast(chain: Chain, cap: Capacity, ops: seq<Op>, op: Op)
    requires TruthfulHistory(chain, ops) && NoneMisdated(chain, cap, ops)
    requires TruthfulOp(chain, op) && MisdatedOp(chain, cap, Run(cap, ops), op)
    ensures !True(chain, Run(cap, ops + [op]))
  {
    HistoryTrue(chain, cap, ops);
    RunWithin(cap, ops);
    hide *;
    RunSnoc(cap, ops, op);
    ApplyTrueIff(chain, cap, Run(cap, ops), op);
  }

  lemma NoneMisdatedEmpty(chain: Chain, cap: Capacity)
    ensures NoneMisdated(chain, cap, [])
  {
  }

  /** So they are false after the first misdated retrieval. */
  lemma {:induction false} FirstMisdated(chain: Chain, cap: Capacity, ops: seq<Op>) returns (n: nat)
    requires TruthfulHistory(chain, ops) && !NoneMisdated(chain, cap, ops)
    ensures n <= |ops| && !True(chain, Run(cap, ops[..n]))
  {
    hide *;
    NoneMisdatedEmpty(chain, cap);
    var init, op := ops[..|ops| - 1], ops[|ops| - 1];
    assert ops == init + [op];
    TruthfulSnoc(chain, init, op);
    NoneMisdatedSnoc(chain, cap, init, op);
    if NoneMisdated(chain, cap, init) {
      MisdatedLast(chain, cap, init, op);
      n := |ops|;
      assert ops[..n] == ops;
    } else {
      n := FirstMisdated(chain, cap, init);
      assert init[..n] == ops[..n];
    }
  }

  lemma TrueIgnoresKnown(chain: Chain, s: Caches, known: Known)
    requires True(chain, s)
    ensures True(chain, s.(known := known))
  {
  }

  lemma AddedKeepsKnown(cap: Capacity, s: Caches, runtime: Option<Runtime>, block: Option<int>, hash: Option<Hash>,
                        version: Option<int>)
    ensures Added(cap, s, runtime, block, hash, version).known == s.known
  {
  }

  /** After any such history, with any evictions, a retrieved runtime is the one the chain gives exactly when
      the retrieval is not misled. */
  lemma RetrievedIsChainsAnswerIff(chain: Chain, cap: Capacity, ops: seq<Op>, block: Option<int>, hash: Option<Hash>,
                                   version: Option<int>)
    requires TruthfulHistory(chain, ops) && NoneMisdated(chain, cap, ops)
    requires Truthful(chain, None, block, hash, version)
    ensures var found := Retrieved(cap, Run(cap, ops), block, hash, version).0;
            (found.Some? ==> IsAnswer(chain, block, hash, version, found.value))
            <==> !Misled(chain, cap, Run(cap, ops), block, hash, version)
  {
    HistoryTrue(chain, cap, ops);
    RunWithin(cap, ops);
    hide True, KnownTrue, Truthful, Retrieved, Misled, Within;
    RetrievedAnswerIff(chain, cap, Run(cap, ops), block, hash, version);
  }

  /** The runtime that a call adds or finds, and whether it looks for one by block or hash and finds none. */
  function Touched(cap: Capacity, s: Caches, op: Op): Option<Runtime> {
    match op
    case AddKnown(_) => None
    case Add(runtime, _, _, _) => runtime
    case Retrieve(block, hash, version) => Retrieved(cap, s, block, hash, version).0
  }

  predicate FindsNone(cap: Capacity, s: Caches, op: Op) {
    op.Retrieve? && (op.block.Some? || op.hash.Some?) && Touched(cap, s, op).None?
  }

  /** The runtime most recently inserted or retrieved in a history. */
  function MostRecent(cap: Capacity, ops: seq<Op>): Option<Runtime> {
    if ops == [] then None
    else
      var init := ops[..|ops| - 1];
      var touched := Touched(cap, Run(cap, init), ops[|ops| - 1]);
      if touched.Some? then touched else MostRecent(cap, init)
  }

  /** Since then a block or hash has been looked for and nothing found. */
  predicate MissedSince(cap: Capacity, ops: seq<Op>) {
    ops != []
    && var init, op := ops[..|ops| - 1], ops[|ops| - 1];
       Touched(cap, Run(cap, init), op).None? && (FindsNone(cap, Run(cap, init), op) || MissedSince(cap, init))
  }

  /** The runtime used last is the one most recently inserted or retrieved exactly when there is none, or no block or hash
      has been looked for in vain since then; otherwise there is none. */
  lemma {:induction false} LastUsedIff(cap: Capacity, ops: seq<Op>)
    ensures Run(cap, ops).lastUsed == if MissedSince(cap, ops) then None else MostRecent(cap, ops)
    ensures Run(cap, ops).lastUsed == MostRecent(cap, ops) <==> MostRecent(cap, ops).None? || !MissedSince(cap, ops)
  {
    hide Retrieved, Added;
    if ops != [] {
      var init, op := ops[..|ops| - 1], ops[|ops| - 1];
      LastUsedIff(cap, init);
      match op {
        case AddKnown(_) =>
        case Add(runtime, block, hash, version) => LastUsed(cap, Run(cap, init), runtime, block, hash, version);
        case Retrieve(block, hash, version) => LastUsed(cap, Run(cap, init), None, block, hash, version);
      }
    }
  }

  /* ---------- What is remembered ---------- */

  /** The maps are caches within their capacities, and can hold something. */
  ghost predicate Sized(cap: Capacity, s: Caches) {
    cap.lookups > 0 && cap.runtimes > 0 && Within(cap, s)
  }

  /** A runtime just added with its block, hash and version is found by the block and by the version, and by
      the hash where no known versions override the version on file. */
  lemma AddedIsFound(cap: Capacity, s: Caches, runtime: Runtime, block: int, hash: Hash, version: int)
    requires Sized(cap, s)
    ensures var t := Added(cap, s, Some(runtime), Some(block), Some(hash), Some(version));
            && Retrieved(cap, t, Some(block), None, None).0 == Some(runtime)
            && Retrieved(cap, t, None, None, Some(version)).0 == Some(runtime)
            && (|s.known| <= 1 ==> Retrieved(cap, t, None, Some(hash), None).0 == Some(runtime))
  {
    hide Unique, Lookup, SetEntry;
    SetThenLookup(cap.lookups, s.blocks, block, hash);
    SetThenLookup(cap.lookups, s.hashes, hash, version);
    SetThenLookup(cap.runtimes, s.versions, version, runtime);
  }

  /** A retrieval that names block, hash and version links them: once the version's runtime is on file,
      the block alone finds it from then on. */
  lemma RetrievalLinksBlock(cap: Capacity, s: Caches, block: int, hash: Hash, version: int)
    requires Sized(cap, s) && Lookup(s.versions, version).Some?
    ensures var (runtime, t) := Retrieved(cap, s, Some(block), Some(hash), Some(version));
            && runtime == Lookup(s.versions, version)
            && Retrieved(cap, t, Some(block), None, None).0 == runtime
  {
    hide Unique, Lookup, SetEntry, GetEntry;
    SetThenLookup(cap.lookups, s.blocks, block, hash);
    SetThenLookup(cap.lookups, s.hashes, hash, version);
    GetKeepsLookups(SetEntry(cap.lookups, s.blocks, block, hash), block, block);
    GetKeepsLookups(SetEntry(cap.lookups, s.hashes, hash, version), hash, hash);
    GetKeepsLookups(s.versions, version, version);
  }

  /* ---------- The cache object ---------- */

  class RuntimeCache {
    const blocks: LRUCache<int, Hash>
    const reverse: LRUCache<Hash, int>
    const hashes: LRUCache<Hash, int>
    const versions: LRUCache<int, Runtime>
    var knownVersions: Known
    var lastUsed: Option<Runtime>

    ghost predicate Valid()
      reads this, blocks, reverse, hashes, versions
    {
      && blocks.Valid() && reverse.Valid() && hashes.Valid() && versions.Valid()
      && reverse != hashes
      && blocks as object != versions
      && blocks as object != reverse && blocks as object != hashes
      && versions as object != reverse && versions as object != hashes
      && blocks.maxSize == reverse.maxSize == hashes.maxSize
    }

    ghost function View(): Caches
      reads this, blocks, reverse, hashes, versions
    {
      Caches(blocks.cache, reverse.cache, hashes.cache, versions.cache, knownVersions, lastUsed)
    }

    ghost function Sizes(): Capacity {
      Capacity(blocks.maxSize, versions.maxSize)
    }

    constructor (lookups: nat, runtimes: nat)
      ensures Valid() && View() == EmptyCaches() && Sizes() == Capacity(lookups, runtimes)
    {
      blocks := new LRUCache(lookups);
      reverse := new LRUCache(lookups);
      hashes := new LRUCache(lookups);
      versions := new LRUCache(runtimes);
      knownVersions := [];
      lastUsed := None;
    }

    method AddKnownVersions(known: Known)
      requires Valid()
      modifies this
      ensures Valid() && View() == Apply(Sizes(), old(View()), AddKnown(known))
    {
      knownVersions := SortByBlock(known);
    }

    method AddItem(runtime: Option<Runtime>, block: Option<int>, hash: Option<Hash>, version: Option<int>)
      requires Valid()
      modifies this, blocks, reverse, hashes, versions
      ensures Valid() && View() == Apply(Sizes(), old(View()), Add(runtime, block, hash, version))
    {
      if runtime.Some? {
        lastUsed := runtime;
        if version.Some? {
          versions.Set(version.value, runtime.value);
        }
      }
      if block.Some? && hash.Some? {
        blocks.Set(block.value, hash.value);
        reverse.Set(hash.value, block.value);
      }
      if hash.Some? && version.Some? {
        hashes.Set(hash.value, version.value);
      }
    }

    method Retrieve(block: Option<int>, hash: Option<Hash>, version: Option<int>) returns (runtime: Option<Runtime>)
      requires Valid()
      modifies this, blocks, reverse, hashes, versions
      ensures Valid() && (runtime, View()) == Retrieved(Sizes(), old(View()), block, hash, version)
    {
      var supplied := SupplyVersion(block, hash, version);
      if block.Some? {
        AddItem(None, block, hash, supplied);
        var found := blocks.Get(block.value);
        runtime := FollowHash(found);
        return;
      }
      if hash.Some? {
        AddItem(None, None, hash, supplied);
        runtime := FollowHash(hash);
        return;
      }
      runtime := None;
      if supplied.Some? {
        runtime := versions.Get(supplied.value);
        if runtime.Some? {
          lastUsed := runtime;
        }
      }
    }

    method SupplyVersion(block: Option<int>, hash: Option<Hash>, version: Option<int>) returns (supplied: Option<int>)
      requires Valid()
      modifies reverse
      ensures Valid()
      ensures (supplied, reverse.cache) == Supplied(old(View()), block, hash, version)
    {
      supplied := version;
      if version.None? && |knownVersions| > 1 {
        var known := block;
        if block.None? && hash.Some? {
          known := reverse.Get(hash.value);
        }
        if known.Some? {
          supplied := KnownVersion(knownVersions, known.value);
        }
      }
    }

    method FollowHash(hash: Option<Hash>) returns (runtime: Option<Runtime>)
      requires Valid()
      modifies this, hashes, versions
      ensures Valid() && (runtime, View()) == Follow(old(View()), hash)
    {
      var version: Option<int> := None;
      runtime := None;
      if hash.Some? {
        version := hashes.Get(hash.value);
      }
      if version.Some? {
        runtime := versions.Get(version.value);
      }
      lastUsed := runtime;
    }
  }
}
