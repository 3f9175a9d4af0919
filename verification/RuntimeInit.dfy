/** Initialising a runtime through the caches, against asking the chain alone: exactly when the two agree, and
    exactly when the caches are still true of the chain afterwards.
 */
module RuntimeInit {
  import opened Dicts
  import opened Lru
  import opened Runtimes

  datatype Error = BothGiven | NoRuntime
  datatype Result = Ok(runtime: Runtime) | Err(error: Error)

  /** The blocking client's current runtime with its version; the asynchronous client has none. */
  type Current = Option<(int, Runtime)>

  ghost predicate CurrentTrue(chain: Chain, current: Current) {
    current.Some? ==> chain.runtimeOf(current.value.0) == current.value.1
  }

  /** The current runtime is the hash's, and is answered without looking further. */
  predicate Shortcut(chain: Chain, current: Current, hash: Hash) {
    current.Some? && chain.versionOf(hash) == Some(current.value.0)
  }

  /** `get_block_hash`: through the cache, or from the node and into the cache. */
  function BlockHash(chain: Chain, cap: Capacity, s: Caches, block: int): (Hash, Caches) {
    var (found, blocks) := GetMaybe(s.blocks, Some(block));
    var s := s.(blocks := blocks);
    if found.Some? then (found.value, s)
    else (chain.hashOf(block), Added(cap, s, None, Some(block), Some(chain.hashOf(block)), None))
  }

  /** `get_block_number`, likewise. */
  function BlockNumber(chain: Chain, cap: Capacity, s: Caches, hash: Hash): (int, Caches) {
    var (found, reverse) := GetMaybe(s.reverse, Some(hash));
    var s := s.(reverse := reverse);
    if found.Some? then (found.value, s)
    else (chain.numberOf(hash), Added(cap, s, None, Some(chain.numberOf(hash)), Some(hash), None))
  }

  /** From a hash on. The blocking client looks at its current runtime first. `fetched` says that the fetcher of runtimes by version already has this one, so that
      nothing is added here; what the fetcher answers is the chain's runtime either way, as it agrees with the
      function it caches (`SingleFlight.AgreesWithPlainFunction`). */
  function InitAt(chain: Chain, cap: Capacity, s: Caches, hash: Hash, fetched: bool, current: Current): (Result, Caches) {
    match chain.versionOf(hash)
    case None => (Err(NoRuntime), s)
    case Some(version) =>
      if Shortcut(chain, current, hash) then (Ok(current.value.1), s) else
      var (runtime, s) := Retrieved(cap, s, None, None, Some(version));
      if runtime.Some? then (Ok(runtime.value), s)
      else if fetched then (Ok(chain.runtimeOf(version)), s)
      else
        var (number, s) := BlockNumber(chain, cap, s, hash);
        (Ok(chain.runtimeOf(version)), Added(cap, s, Some(chain.runtimeOf(version)), Some(number), Some(hash), Some(version)))
  }

  function InitByHash(chain: Chain, cap: Capacity, s: Caches, hash: Hash, fetched: bool, current: Current): (Result, Caches) {
    var (runtime, s) := Retrieved(cap, s, None, Some(hash), None);
    if runtime.Some? then (Ok(runtime.value), s) else InitAt(chain, cap, s, hash, fetched, current)
  }

  /** `init_runtime`, for a hash, a block number or the head of the chain. A block number of 0 does not
      count as given when it is checked against the hash, and then takes precedence. */
  function InitRuntime(chain: Chain, cap: Capacity, s: Caches, hash: Option<Hash>, block: Option<int>, head: Hash,
                       fetched: bool, current: Current): (Result, Caches) {
    if block.Some? && block.value != 0 && hash.Some? then (Err(BothGiven), s)
    else if block.Some? then
      var (runtime, s) := Retrieved(cap, s, block, None, None);
      if runtime.Some? then (Ok(runtime.value), s)
      else
        var (h, s) := BlockHash(chain, cap, s, block.value);
        InitByHash(chain, cap, s, h, fetched, current)
    else if hash.Some? then InitByHash(chain, cap, s, hash.value, fetched, current)
    else InitAt(chain, cap, s, head, fetched, current)
  }

  /** The hash that is asked for. */
  function Asked(chain: Chain, hash: Option<Hash>, block: Option<int>, head: Hash): Hash {
    if block.Some? then chain.hashOf(block.value) else if hash.Some? then hash.value else head
  }

  /** The runtime of a hash without any cache. */
  function PlainAt(chain: Chain, hash: Hash): Result {
    match chain.versionOf(hash)
    case None => Err(NoRuntime)
    case Some(version) => Ok(chain.runtimeOf(version))
  }

  /** The same as `init_runtime` without any cache. */
  function PlainRuntime(chain: Chain, hash: Option<Hash>, block: Option<int>, head: Hash): Result {
    if block.Some? && block.value != 0 && hash.Some? then Err(BothGiven) else PlainAt(chain, Asked(chain, hash, block, head))
  }

  /** The caches are true of the chain, as the known versions are, and within their capacities. */
  ghost predicate Warm(chain: Chain, cap: Capacity, s: Caches) {
    True(chain, s) && KnownTrue(chain, s.known) && Within(cap, s)
  }

  /* ---------- Numbers and hashes ---------- */

  lemma BlockHashTrue(chain: Chain, cap: Capacity, s: Caches, block: int)
    requires Warm(chain, cap, s)
    ensures BlockHash(chain, cap, s, block).0 == chain.hashOf(block)
    ensures Warm(chain, cap, BlockHash(chain, cap, s, block).1) && BlockHash(chain, cap, s, block).1.known == s.known
  {
    hide AllEntries, GetMaybe, KnownTrue, Unique;
    GetMaybeTrue(s.blocks, Some(block), BlockTrue(chain));
    GetMaybeWithin(cap.lookups, s.blocks, Some(block));
    var touched := s.(blocks := GetMaybe(s.blocks, Some(block)).1);
    AddedTrue(chain, cap, touched, None, Some(block), Some(chain.hashOf(block)), None);
    AddedWithin(cap, touched, None, Some(block), Some(chain.hashOf(block)), None);
  }

  lemma BlockNumberTrue(chain: Chain, cap: Capacity, s: Caches, hash: Hash)
    requires Warm(chain, cap, s) && chain.hashOf(chain.numberOf(hash)) == hash
    ensures chain.hashOf(BlockNumber(chain, cap, s, hash).0) == hash
    ensures Warm(chain, cap, BlockNumber(chain, cap, s, hash).1)
  {
    hide AllEntries, GetMaybe, KnownTrue, Unique;
    GetMaybeTrue(s.reverse, Some(hash), ReverseTrue(chain));
    GetMaybeWithin(cap.lookups, s.reverse, Some(hash));
    var touched := s.(reverse := GetMaybe(s.reverse, Some(hash)).1);
    AddedTrue(chain, cap, touched, None, Some(chain.numberOf(hash)), Some(hash), None);
    AddedWithin(cap, touched, None, Some(chain.numberOf(hash)), Some(hash), None);
  }

  /** What was asked is on file afterwards: the number's hash, and the hash's number. */
  lemma AskedIsFiled(chain: Chain, cap: Capacity, s: Caches, block: int, hash: Hash)
    requires Within(cap, s) && cap.lookups > 0
    ensures Lookup(BlockHash(chain, cap, s, block).1.blocks, block) == Some(BlockHash(chain, cap, s, block).0)
    ensures Lookup(BlockNumber(chain, cap, s, hash).1.reverse, hash) == Some(BlockNumber(chain, cap, s, hash).0)
    ensures Lookup(s.blocks, block) == None ==> BlockHash(chain, cap, s, block).0 == chain.hashOf(block)
    ensures Lookup(s.reverse, hash) == None ==> BlockNumber(chain, cap, s, hash).0 == chain.numberOf(hash)
  {
    hide Lookup, GetEntry, SetEntry, Unique;
    GetKeepsLookups(s.blocks, block, block);
    GetKeepsLookups(s.reverse, hash, hash);
    if Lookup(s.blocks, block) == None {
      SetThenLookup(cap.lookups, s.blocks, block, chain.hashOf(block));
      MissKeeps(s.blocks, block);
    }
    if Lookup(s.reverse, hash) == None {
      SetThenLookup(cap.lookups, s.reverse, hash, chain.numberOf(hash));
      MissKeeps(s.reverse, hash);
    }
  }

  lemma MissKeeps<K, V>(d: Dict<K, V>, key: K)
    requires Lookup(d, key) == None
    ensures GetEntry(d, key) == d
  {
  }

  /* ---------- The answer ---------- */

  /** No retrieval changes which runtimes are on file. */
  lemma RuntimeStays(cap: Capacity, s: Caches, block: Option<int>, hash: Option<Hash>, version: Option<int>, v: int)
    ensures Lookup(Retrieved(cap, s, block, hash, version).1.versions, v) == Lookup(s.versions, v)
  {
    var key := RetrievedVersion(cap, s, block, hash, version);
    GetMaybeLookups(s.versions, key, v);
  }

  lemma RuntimeOfLastStays(cap: Capacity, s: Caches, block: Option<int>, hash: Option<Hash>, version: Option<int>)
    ensures |s.known| > 1 ==>
              Lookup(Retrieved(cap, s, block, hash, version).1.versions, Penultimate(s.known))
              == Lookup(s.versions, Penultimate(s.known))
  {
    if |s.known| > 1 {
      RuntimeStays(cap, s, block, hash, version, Penultimate(s.known));
    }
  }

  lemma RuntimeOfHashStays(chain: Chain, cap: Capacity, s: Caches, block: Option<int>, hash: Option<Hash>,
                           version: Option<int>, h: Hash)
    ensures chain.versionOf(h).Some? ==>
              Lookup(Retrieved(cap, s, block, hash, version).1.versions, chain.versionOf(h).value)
              == Lookup(s.versions, chain.versionOf(h).value)
  {
    if chain.versionOf(h).Some? {
      RuntimeStays(cap, s, block, hash, version, chain.versionOf(h).value);
    }
  }

  lemma RuntimesStayTrue(chain: Chain, cap: Capacity, s: Caches, block: Option<int>, hash: Option<Hash>,
                         version: Option<int>)
    requires AllEntries(s.versions, RuntimeTrue(chain))
    ensures AllEntries(Retrieved(cap, s, block, hash, version).1.versions, RuntimeTrue(chain))
  {
    var key := RetrievedVersion(cap, s, block, hash, version);
    GetMaybeTrue(s.versions, key, RuntimeTrue(chain));
  }

  /** The version whose runtime a retrieval looks up. */
  lemma RetrievedVersion(cap: Capacity, s: Caches, block: Option<int>, hash: Option<Hash>, version: Option<int>)
      returns (key: Option<int>)
    ensures Retrieved(cap, s, block, hash, version).1.versions == GetMaybe(s.versions, key).1
  {
    hide GetMaybe, SetEntry, Supplied;
    var (version', reverse) := Supplied(s, block, hash, version);
    var s' := s.(reverse := reverse);
    if block.Some? {
      var added := Added(cap, s', None, block, hash, version');
      key := GetMaybe(added.hashes, GetMaybe(added.blocks, block).0).0;
    } else if hash.Some? {
      key := GetMaybe(Added(cap, s', None, None, hash, version').hashes, hash).0;
    } else {
      key := version';
    }
  }

  lemma InitAtAnswer(chain: Chain, cap: Capacity, s: Caches, hash: Hash, fetched: bool, current: Current)
    requires CurrentTrue(chain, current)
    requires AllEntries(s.versions, RuntimeTrue(chain))
    ensures InitAt(chain, cap, s, hash, fetched, current).0 == PlainAt(chain, hash)
  {
    if chain.versionOf(hash).Some? {
      GetMaybeTrue(s.versions, chain.versionOf(hash), RuntimeTrue(chain));
    }
  }

  /** From a hash on, the answer is the chain's exactly when the retrieval by the hash is not misled. */
  lemma InitByHashIff(chain: Chain, cap: Capacity, s: Caches, hash: Hash, fetched: bool, current: Current)
    requires CurrentTrue(chain, current)
    requires Warm(chain, cap, s)
    ensures InitByHash(chain, cap, s, hash, fetched, current).0 == PlainAt(chain, hash)
            <==> !Misled(chain, cap, s, None, Some(hash), None)
    ensures Misled(chain, cap, s, None, Some(hash), None) ==>
              InitByHash(chain, cap, s, hash, fetched, current).0 == Ok(Lookup(s.versions, Penultimate(s.known)).value)
  {
    assert Ascending(s.known);
    if SuppliesLast(cap, s, None, Some(hash), None) {
      RetrievedSuppliedLast(cap, s, None, Some(hash), None);
    }
    RetrievedAnswerIff(chain, cap, s, None, Some(hash), None);
    RuntimesStayTrue(chain, cap, s, None, Some(hash), None);
    hide Retrieved, Misled, KnownTrue, AllEntries, Within, InitAt;
    InitAtAnswer(chain, cap, Retrieved(cap, s, None, Some(hash), None).1, hash, fetched, current);
  }

  /** The runtime found for a block number through its hash and version. */
  function FoundThrough(s: Caches, block: int): Option<Runtime> {
    match Lookup(s.blocks, block)
    case None => None
    case Some(hash) =>
      match Lookup(s.hashes, hash)
      case None => None
      case Some(version) => Lookup(s.versions, version)
  }

  /** The block number under which the known versions are searched for the hash that is asked for: one on file
      for the hash, or the number just asked. */
  function AskedNumber(s: Caches, hash: Option<Hash>, block: Option<int>): Option<int> {
    if block.Some? then
      match Lookup(s.blocks, block.value)
      case None => block
      case Some(h) => Lookup(s.reverse, h)
    else if hash.Some? then Lookup(s.reverse, hash.value)
    else None
  }

  /** The known versions supply their last but one for what is asked. For the head they are never searched. */
  predicate InitSuppliesLast(cap: Capacity, s: Caches, hash: Option<Hash>, block: Option<int>) {
    && !(block.Some? && block.value != 0 && hash.Some?)
    && (block.Some? ==> FoundThrough(s, block.value).None?)
    && |s.known| > 1 && cap.lookups > 0
    && AskedNumber(s, hash, block).Some? && s.known[|s.known| - 1].0 <= AskedNumber(s, hash, block).value
  }

  lemma RetrievedByBlock(cap: Capacity, s: Caches, block: int)
    ensures var (runtime, t) := Retrieved(cap, s, Some(block), None, None);
            && runtime == FoundThrough(s, block)
            && t.reverse == s.reverse && t.known == s.known
            && (forall b :: Lookup(t.blocks, b) == Lookup(s.blocks, b))
  {
    forall b ensures Lookup(GetMaybe(s.blocks, Some(block)).1, b) == Lookup(s.blocks, b) {
      GetMaybeLookups(s.blocks, Some(block), b);
    }
    hide Lookup, GetEntry, KnownVersion;
  }

  /** Where a number was not found at once: what is on file when its hash is asked for next. */
  lemma BlockHashFiles(chain: Chain, cap: Capacity, s: Caches, block: int)
    requires Warm(chain, cap, s)
    ensures var t := BlockHash(chain, cap, s, block).1;
            && t.versions == s.versions
            && (cap.lookups > 0 ==> Lookup(t.reverse, chain.hashOf(block)) == AskedNumber(s, None, Some(block)))
  {
    GetMaybeTrue(s.blocks, Some(block), BlockTrue(chain));
    hide AllEntries, KnownTrue, Unique, SetEntry, GetEntry;
    if cap.lookups > 0 {
      SetThenLookup(cap.lookups, s.reverse, chain.hashOf(block), block);
    }
    hide Lookup;
  }

  /** `init_runtime` through the caches answers exactly what the chain gives without them, errors included,
      unless the last but one of the known versions is supplied, its runtime is on file, and that is another
      answer. */
  lemma InitRuntimeIsPlainIff(chain: Chain, cap: Capacity, s: Caches, hash: Option<Hash>, block: Option<int>, head: Hash,
                              fetched: bool, current: Current)
    requires CurrentTrue(chain, current)
    requires Warm(chain, cap, s)
    ensures InitRuntime(chain, cap, s, hash, block, head, fetched, current).0 == PlainRuntime(chain, hash, block, head)
            <==> !(InitSuppliesLast(cap, s, hash, block)
                   && Lookup(s.versions, Penultimate(s.known)).Some?
                   && PlainRuntime(chain, hash, block, head) != Ok(Lookup(s.versions, Penultimate(s.known)).value))
    ensures InitSuppliesLast(cap, s, hash, block) && Lookup(s.versions, Penultimate(s.known)).Some? ==>
              InitRuntime(chain, cap, s, hash, block, head, fetched, current).0 == Ok(Lookup(s.versions, Penultimate(s.known)).value)
  {
    hide KnownTrue, AllEntries, Retrieved, BlockHash, InitByHash, InitAt, Lookup, Unique, FoundThrough;
    if block.Some? && block.value != 0 && hash.Some? {
    } else if block.Some? {
      var s' := Retrieved(cap, s, block, None, None).1;
      RetrievedTrue(chain, cap, s, block, None, None);
      RetrievedWithin(cap, s, block, None, None);
      RetrievedByBlock(cap, s, block.value);
      RuntimeOfLastStays(cap, s, block, None, None);
      BlockHashTrue(chain, cap, s', block.value);
      BlockHashFiles(chain, cap, s', block.value);
      InitByHashIff(chain, cap, BlockHash(chain, cap, s', block.value).1, chain.hashOf(block.value), fetched, current);
    } else if hash.Some? {
      InitByHashIff(chain, cap, s, hash.value, fetched, current);
    } else {
      InitAtAnswer(chain, cap, s, head, fetched, current);
    }
  }

  /* ---------- The caches afterwards ---------- */

  lemma InitAtTrue(chain: Chain, cap: Capacity, s: Caches, hash: Hash, fetched: bool, current: Current)
    requires Warm(chain, cap, s) && chain.hashOf(chain.numberOf(hash)) == hash
    ensures True(chain, InitAt(chain, cap, s, hash, fetched, current).1)
  {
    hide True, KnownTrue, Retrieved, BlockNumber, Added, Within;
    if chain.versionOf(hash).Some? {
      var version := chain.versionOf(hash).value;
      RetrievedTrue(chain, cap, s, None, None, Some(version));
      RetrievedWithin(cap, s, None, None, Some(version));
      var s' := Retrieved(cap, s, None, None, Some(version)).1;
      BlockNumberTrue(chain, cap, s', hash);
      var (number, s'') := BlockNumber(chain, cap, s', hash);
      AddedTrue(chain, cap, s'', Some(chain.runtimeOf(version)), Some(number), Some(hash), Some(version));
    }
  }

  /** True but for what the hash's version is. */
  ghost predicate TrueBut(chain: Chain, s: Caches, hash: Hash) {
    && AllEntries(s.blocks, BlockTrue(chain))
    && AllEntries(s.reverse, ReverseTrue(chain))
    && AllEntries(s.versions, RuntimeTrue(chain))
    && forall i :: 0 <= i < |s.hashes| && s.hashes[i].0 != hash ==> VersionTrue(chain)(s.hashes[i].0, s.hashes[i].1)
  }

  /** Whatever version is supplied for a hash, only its own entry can become false. */
  lemma RetrievedTrueBut(chain: Chain, cap: Capacity, s: Caches, hash: Hash)
    requires True(chain, s)
    ensures TrueBut(chain, Retrieved(cap, s, None, Some(hash), None).1, hash)
  {
    var (version, reverse) := Supplied(s, None, Some(hash), None);
    GetMaybeTrue(s.reverse, Some(hash), ReverseTrue(chain));
    var added := Added(cap, s.(reverse := reverse), None, None, Some(hash), version);
    if version.Some? {
      SetKeepsOthers(cap.lookups, s.hashes, hash, version.value);
    }
    GetKeepsMembers(added.hashes, hash);
    GetMaybeTrue(s.versions, GetMaybe(added.hashes, Some(hash)).0, RuntimeTrue(chain));
    hide SetEntry, GetEntry, Lookup, KnownVersion;
  }

  /** Adding the runtime of the hash's own version mends it. */
  lemma AddedMends(chain: Chain, cap: Capacity, s: Caches, number: int, hash: Hash, version: int)
    requires TrueBut(chain, s, hash) && chain.hashOf(number) == hash && chain.versionOf(hash) == Some(version)
    ensures True(chain, Added(cap, s, Some(chain.runtimeOf(version)), Some(number), Some(hash), Some(version)))
  {
    SetMendsEntries(cap.lookups, s.hashes, hash, version, VersionTrue(chain));
    SetKeepsEntries(cap.lookups, s.blocks, number, hash, BlockTrue(chain));
    SetKeepsEntries(cap.lookups, s.reverse, hash, number, ReverseTrue(chain));
    SetKeepsEntries(cap.runtimes, s.versions, version, chain.runtimeOf(version), RuntimeTrue(chain));
    hide SetEntry;
  }

  lemma BlockNumberTrueBut(chain: Chain, cap: Capacity, s: Caches, hash: Hash)
    requires TrueBut(chain, s, hash) && chain.hashOf(chain.numberOf(hash)) == hash
    ensures chain.hashOf(BlockNumber(chain, cap, s, hash).0) == hash
    ensures TrueBut(chain, BlockNumber(chain, cap, s, hash).1, hash)
  {
    GetMaybeTrue(s.reverse, Some(hash), ReverseTrue(chain));
    hide GetMaybe;
    var number := chain.numberOf(hash);
    var reverse := GetMaybe(s.reverse, Some(hash)).1;
    SetKeepsEntries(cap.lookups, s.blocks, number, hash, BlockTrue(chain));
    SetKeepsEntries(cap.lookups, reverse, hash, number, ReverseTrue(chain));
    hide SetEntry, AllEntries;
  }

  /** The hash's version was not on file, and is now: fetching its runtime puts the hash right. */
  predicate Mends(chain: Chain, s: Caches, hash: Hash, fetched: bool, current: Current) {
    && |s.known| > 1
    && Lookup(s.versions, Penultimate(s.known)).None?
    && chain.versionOf(hash).Some? && Lookup(s.versions, chain.versionOf(hash).value).None?
    && !fetched && !Shortcut(chain, current, hash)
  }

  lemma InitAtMends(chain: Chain, cap: Capacity, s: Caches, hash: Hash, fetched: bool, current: Current)
    requires TrueBut(chain, s, hash) && !True(chain, s) && chain.hashOf(chain.numberOf(hash)) == hash
    ensures True(chain, InitAt(chain, cap, s, hash, fetched, current).1)
            <==> chain.versionOf(hash).Some? && Lookup(s.versions, chain.versionOf(hash).value).None? && !fetched
                 && !Shortcut(chain, current, hash)
  {
    if chain.versionOf(hash).Some? {
      var version := chain.versionOf(hash).value;
      var (runtime, versions) := GetMaybe(s.versions, Some(version));
      GetMaybeTrue(s.versions, Some(version), RuntimeTrue(chain));
      assert Retrieved(cap, s, None, None, Some(version)).1.hashes == s.hashes;
      hide GetMaybe, AllEntries, Added;
      var s' := Retrieved(cap, s, None, None, Some(version)).1;
      BlockNumberTrueBut(chain, cap, s', hash);
      var (number, s'') := BlockNumber(chain, cap, s', hash);
      AddedMends(chain, cap, s'', number, hash, version);
    }
  }

  /** Initialising by a hash leaves the caches true exactly when the retrieval is not misdated, or the entry is
      mended. */
  lemma InitByHashTrueIff(chain: Chain, cap: Capacity, s: Caches, hash: Hash, fetched: bool, current: Current)
    requires Warm(chain, cap, s) && chain.hashOf(chain.numberOf(hash)) == hash
    ensures True(chain, InitByHash(chain, cap, s, hash, fetched, current).1)
            <==> !Misdated(chain, cap, s, None, Some(hash), None) || Mends(chain, s, hash, fetched, current)
  {
    RetrievedTrueIff(chain, cap, s, None, Some(hash), None);
    RetrievedTrueBut(chain, cap, s, hash);
    RetrievedWithin(cap, s, None, Some(hash), None);
    RetrievedKeepsKnown(cap, s, None, Some(hash), None);
    RuntimeOfHashStays(chain, cap, s, None, Some(hash), None, hash);
    assert Ascending(s.known);
    hide True, TrueBut, KnownTrue, Within, Retrieved, InitAt, Lookup;
    var s' := Retrieved(cap, s, None, Some(hash), None).1;
    if Misdated(chain, cap, s, None, Some(hash), None) {
      RetrievedSuppliedLast(cap, s, None, Some(hash), None);
      InitAtMends(chain, cap, s', hash, fetched, current);
    } else {
      InitAtTrue(chain, cap, s', hash, fetched, current);
    }
  }

  lemma InitByBlockTrueIff(chain: Chain, cap: Capacity, s: Caches, block: int, head: Hash, fetched: bool, current: Current)
    requires Warm(chain, cap, s) && chain.hashOf(chain.numberOf(chain.hashOf(block))) == chain.hashOf(block)
    ensures True(chain, InitRuntime(chain, cap, s, None, Some(block), head, fetched, current).1)
            <==> !(InitSuppliesLast(cap, s, None, Some(block))
                   && chain.versionOf(chain.hashOf(block)) != Some(Penultimate(s.known)))
                 || Mends(chain, s, chain.hashOf(block), fetched, current)
  {
    hide True, KnownTrue, Within, Retrieved, BlockHash, InitByHash, InitAt, Lookup, FoundThrough;
    var s' := Retrieved(cap, s, Some(block), None, None).1;
    RetrievedTrue(chain, cap, s, Some(block), None, None);
    RetrievedWithin(cap, s, Some(block), None, None);
    RetrievedByBlock(cap, s, block);
    RuntimeOfLastStays(cap, s, Some(block), None, None);
    RuntimeOfHashStays(chain, cap, s, Some(block), None, None, chain.hashOf(block));
    var (h, s'') := BlockHash(chain, cap, s', block);
    BlockHashTrue(chain, cap, s', block);
    BlockHashFiles(chain, cap, s', block);
    InitByHashTrueIff(chain, cap, s'', h, fetched, current);
    assert AskedNumber(s', None, Some(block)) == AskedNumber(s, None, Some(block));
    MendsAlike(chain, s, s'', h, fetched, current);
  }

  lemma MendsAlike(chain: Chain, s: Caches, t: Caches, hash: Hash, fetched: bool, current: Current)
    requires t.known == s.known
    requires |s.known| > 1 ==> Lookup(t.versions, Penultimate(s.known)) == Lookup(s.versions, Penultimate(s.known))
    requires chain.versionOf(hash).Some? ==>
               Lookup(t.versions, chain.versionOf(hash).value) == Lookup(s.versions, chain.versionOf(hash).value)
    ensures Mends(chain, t, hash, fetched, current) == Mends(chain, s, hash, fetched, current)
  {
  }

  /** A hash given besides block 0 makes no difference. */
  lemma BlockFirst(chain: Chain, cap: Capacity, s: Caches, hash: Option<Hash>, block: int, head: Hash, fetched: bool, current: Current)
    requires block == 0 || hash.None?
    ensures InitRuntime(chain, cap, s, hash, Some(block), head, fetched, current)
            == InitRuntime(chain, cap, s, None, Some(block), head, fetched, current)
    ensures InitSuppliesLast(cap, s, hash, Some(block)) == InitSuppliesLast(cap, s, None, Some(block))
  {
    hide Retrieved, BlockHash, InitByHash, Lookup;
  }

  /** `init_runtime` leaves the caches true of the chain exactly when the last but one of the known versions is
      not supplied, or is the right one, or the entry is mended. */
  lemma InitRuntimeTrueIff(chain: Chain, cap: Capacity, s: Caches, hash: Option<Hash>, block: Option<int>, head: Hash,
                           fetched: bool, current: Current)
    requires Warm(chain, cap, s)
    requires chain.hashOf(chain.numberOf(Asked(chain, hash, block, head))) == Asked(chain, hash, block, head)
    ensures True(chain, InitRuntime(chain, cap, s, hash, block, head, fetched, current).1)
            <==> !(InitSuppliesLast(cap, s, hash, block)
                   && chain.versionOf(Asked(chain, hash, block, head)) != Some(Penultimate(s.known)))
                 || Mends(chain, s, Asked(chain, hash, block, head), fetched, current)
  {
    assert True(chain, s);
    hide True, KnownTrue, Within, Retrieved, BlockHash, InitByHash, InitAt, Lookup, FoundThrough, Mends;
    if block.Some? {
      if block.value == 0 || hash.None? {
        BlockFirst(chain, cap, s, hash, block.value, head, fetched, current);
        hide InitRuntime, InitSuppliesLast;
        InitByBlockTrueIff(chain, cap, s, block.value, head, fetched, current);
      }
    } else if hash.Some? {
      InitByHashTrueIff(chain, cap, s, hash.value, fetched, current);
    } else {
      InitAtTrue(chain, cap, s, head, fetched, current);
    }
  }

  /* ---------- An input ---------- */

  /** Known are version 1 from block 0 and version 2 from block 10; the runtime of version 1 is on file. */
  function TwoKnown(chain: Chain): Caches {
    EmptyCaches().(known := [(0, 1), (10, 2)], versions := [(1, chain.runtimeOf(1))])
  }

  lemma TwoKnownWarm(chain: Chain, cap: Capacity)
    requires cap.lookups > 0 && cap.runtimes > 0 && KnownTrue(chain, [(0, 1), (10, 2)])
    ensures Warm(chain, cap, TwoKnown(chain))
  {
    var s := TwoKnown(chain);
    hide KnownTrue;
    assert s.versions[1..] == [];
    SingleKey((1, chain.runtimeOf(1)));
    assert AllEntries(s.versions, RuntimeTrue(chain));
  }

  /** Block 15, which runs version 2, is answered with version 1's runtime, and its hash is set down for
      version 1. */
  lemma PastLastMisread(chain: Chain, cap: Capacity, head: Hash, fetched: bool, current: Current)
    requires CurrentTrue(chain, current)
    requires cap.lookups > 0 && cap.runtimes > 0
    requires KnownTrue(chain, [(0, 1), (10, 2)]) && chain.versionOf(chain.hashOf(15)) == Some(2)
    requires chain.runtimeOf(1) != chain.runtimeOf(2) && chain.hashOf(chain.numberOf(chain.hashOf(15))) == chain.hashOf(15)
    ensures var (result, s) := InitRuntime(chain, cap, TwoKnown(chain), None, Some(15), head, fetched, current);
            result == Ok(chain.runtimeOf(1)) && PlainRuntime(chain, None, Some(15), head) == Ok(chain.runtimeOf(2))
            && !True(chain, s)
  {
    hide KnownTrue, True, Within, Lookup, InitSuppliesLast, InitRuntime, TwoKnown, Mends;
    TwoKnownWarm(chain, cap);
    TwoKnownSupplies(chain, cap);
    PastLastMended(chain, TwoKnown(chain), chain.hashOf(15), fetched, current);
    InitRuntimeIsPlainIff(chain, cap, TwoKnown(chain), None, Some(15), head, fetched, current);
    InitRuntimeTrueIff(chain, cap, TwoKnown(chain), None, Some(15), head, fetched, current);
  }

  lemma PastLastMended(chain: Chain, s: Caches, hash: Hash, fetched: bool, current: Current)
    requires |s.known| > 1 && Lookup(s.versions, Penultimate(s.known)).Some?
    ensures !Mends(chain, s, hash, fetched, current)
  {
    hide Lookup;
  }

  lemma TwoKnownSupplies(chain: Chain, cap: Capacity)
    requires cap.lookups > 0
    ensures var s := TwoKnown(chain);
            && InitSuppliesLast(cap, s, None, Some(15)) && |s.known| > 1 && Penultimate(s.known) == 1
            && Lookup(s.versions, 1) == Some(chain.runtimeOf(1))
  {
    var s := TwoKnown(chain);
    assert s.known[|s.known| - 1] == (10, 2);
  }
}
