/** Storage keys: the bytes a pallet, a storage function and its parameters hash to, and what is read back
    from the part of a key behind those of its first parameters.
 */
module StorageKeys {
  import opened Dicts
  import opened Scale

  /* ---------- Hashers ---------- */

  /** The digests the hashers are built from: BLAKE2b with a digest size, and XXH64 with a seed, its bytes
      already in reverse order. */
  datatype Digests = Digests(blake2b: (nat, Bytes) -> Bytes, xxh64: (nat, Bytes) -> Bytes)

  ghost predicate FixedWidths(h: Digests) {
    forall n: nat, data :: |h.blake2b(n, data)| == n && |h.xxh64(n, data)| == 8
  }

  function Xxh128(h: Digests, data: Bytes): Bytes {
    h.xxh64(0, data) + h.xxh64(1, data)
  }

  /** What a parameter contributes under its hasher; no name stands for the default hasher. */
  function HashOf(h: Digests, hasher: string, data: Bytes): Result<Bytes> {
    if hasher == "Blake2_256" then Ok(h.blake2b(32, data))
    else if hasher == "Blake2_128" then Ok(h.blake2b(16, data))
    else if hasher == "Blake2_128Concat" then Ok(h.blake2b(16, data) + data)
    else if hasher == "Twox128" || hasher == "" then Ok(Xxh128(h, data))
    else if hasher == "Twox64Concat" then Ok(h.xxh64(0, data) + data)
    else if hasher == "Identity" then Ok(data)
    else Err(ValueError("Unknown storage hasher " + hasher))
  }

  /* ---------- Keys ---------- */

  /** A storage function's parameter types and hashers, as the metadata lists them. */
  datatype Entry = Entry(pallet: Bytes, name: Bytes, types: seq<string>, hashers: seq<string>)

  /** A parameter to be encoded as its type, or bytes encoded before. */
  datatype Param<V> = Plain(value: V) | Encoded(data: Bytes)

  /** The library's encoder of values by type name, and its decoder, which returns what follows the value. */
  datatype Codec<!V> = Codec(encode: (string, V) -> Bytes, decode: (string, Bytes) -> Option<(V, Bytes)>)

  ghost predicate SelfDelimiting<V(!new)>(codec: Codec<V>) {
    forall t, v, rest :: codec.decode(t, codec.encode(t, v) + rest) == Some((v, rest))
  }

  function EncodeParam<V>(codec: Codec<V>, e: Entry, idx: nat, param: Param<V>): Result<Bytes> {
    match param
    case Encoded(data) => Ok(data)
    case Plain(v) => if idx < |e.types| then Ok(codec.encode(e.types[idx], v)) else Err(IndexError)
  }

  function EncodeParams<V>(codec: Codec<V>, e: Entry, params: seq<Param<V>>): Result<seq<Bytes>> {
    if params == [] then Ok([])
    else
      var n := |params| - 1;
      match EncodeParams(codec, e, params[..n])
      case Err(error) => Err(error)
      case Ok(before) =>
        match EncodeParam(codec, e, n, params[n])
        case Err(error) => Err(error)
        case Ok(data) => Ok(before + [data])
  }

  function HashParam(h: Digests, e: Entry, idx: nat, data: Bytes): Result<Bytes> {
    if idx >= |e.hashers| then Err(ValueError("No hasher found for param"))
    else HashOf(h, e.hashers[idx], data)
  }

  function HashParams(h: Digests, e: Entry, encoded: seq<Bytes>): Result<Bytes> {
    if encoded == [] then Ok([])
    else
      var n := |encoded| - 1;
      match HashParams(h, e, encoded[..n])
      case Err(error) => Err(error)
      case Ok(before) =>
        match HashParam(h, e, n, encoded[n])
        case Err(error) => Err(error)
        case Ok(bytes) => Ok(before + bytes)
  }

  function KeyOf<V>(h: Digests, codec: Codec<V>, e: Entry, params: seq<Param<V>>): Result<Bytes> {
    match EncodeParams(codec, e, params)
    case Err(error) => Err(error)
    case Ok(encoded) =>
      match HashParams(h, e, encoded)
      case Err(error) => Err(error)
      case Ok(bytes) => Ok(Xxh128(h, e.pallet) + Xxh128(h, e.name) + bytes)
  }

  class StorageKey<V(!new)> {
    const digests: Digests
    const codec: Codec<V>
    const entry: Entry
    const params: seq<Param<V>>
    var paramsEncoded: seq<Bytes>
    var data: Option<Bytes>

    constructor (digests: Digests, codec: Codec<V>, entry: Entry, params: seq<Param<V>>)
      ensures this.digests == digests && this.codec == codec && this.entry == entry && this.params == params
      ensures data == None
    {
      this.digests, this.codec, this.entry, this.params := digests, codec, entry, params;
      paramsEncoded, data := [], None;
    }

    /** Every parameter is encoded before the first is hashed; a failure leaves the data as they were. */
    method Generate() returns (result: Result<Bytes>)
      modifies this
      ensures result == KeyOf(digests, codec, entry, params)
      ensures data == if result.Ok? then Some(result.value) else old(data)
      ensures result.Ok? ==> EncodeParams(codec, entry, params) == Ok(paramsEncoded)
    {
      hide HashOf, Xxh128, HashParam, EncodeParam;
      var storageHash := Xxh128(digests, entry.pallet) + Xxh128(digests, entry.name);
      paramsEncoded := [];
      for idx := 0 to |params|
        invariant EncodeParams(codec, entry, params[..idx]) == Ok(paramsEncoded)
        invariant data == old(data)
      {
        assert params[..idx + 1][..idx] == params[..idx];
        var param := EncodeParam(codec, entry, idx, params[idx]);
        if param.Err? {
          EncodeFails(codec, entry, params, idx + 1);
          return Err(param.error);
        }
        paramsEncoded := paramsEncoded + [param.value];
      }
      assert params[..|params|] == params;
      ghost var head := storageHash;
      for idx := 0 to |paramsEncoded|
        invariant HashParams(digests, entry, paramsEncoded[..idx]).Ok?
        invariant storageHash == head + HashParams(digests, entry, paramsEncoded[..idx]).value
        invariant data == old(data)
      {
        assert paramsEncoded[..idx + 1][..idx] == paramsEncoded[..idx];
        var bytes := HashParam(digests, entry, idx, paramsEncoded[idx]);
        if bytes.Err? {
          HashFails(digests, entry, paramsEncoded, idx + 1);
          return bytes;
        }
        storageHash := storageHash + bytes.value;
      }
      assert paramsEncoded[..|paramsEncoded|] == paramsEncoded;
      data := Some(storageHash);
      result := Ok(storageHash);
    }
  }

  lemma {:induction false} EncodeFails<V>(codec: Codec<V>, e: Entry, params: seq<Param<V>>, k: nat)
    requires k <= |params| && EncodeParams(codec, e, params[..k]).Err?
    ensures EncodeParams(codec, e, params) == Err(EncodeParams(codec, e, params[..k]).error)
    decreases |params|
  {
    if k < |params| {
      var init := params[..|params| - 1];
      assert init[..k] == params[..k];
      EncodeFails(codec, e, init, k);
    } else {
      assert params[..k] == params;
    }
  }

  lemma {:induction false} HashFails(h: Digests, e: Entry, encoded: seq<Bytes>, k: nat)
    requires k <= |encoded| && HashParams(h, e, encoded[..k]).Err?
    ensures HashParams(h, e, encoded) == HashParams(h, e, encoded[..k])
    decreases |encoded|
  {
    if k < |encoded| {
      var init := encoded[..|encoded| - 1];
      assert init[..k] == encoded[..k];
      HashFails(h, e, init, k);
    } else {
      assert encoded[..k] == encoded;
    }
  }

  /* ---------- Prefixes ---------- */

  /** The part of a key that the parameters from the k-th on contribute. */
  function Tail<V>(h: Digests, codec: Codec<V>, e: Entry, params: seq<Param<V>>, k: nat): Result<Bytes>
    requires k <= |params|
    decreases |params| - k
  {
    if k == |params| then Ok([])
    else match EncodeParam(codec, e, k, params[k])
      case Err(error) => Err(error)
      case Ok(data) =>
        match HashParam(h, e, k, data)
        case Err(error) => Err(error)
        case Ok(bytes) =>
          match Tail(h, codec, e, params, k + 1)
          case Err(error) => Err(error)
          case Ok(rest) => Ok(bytes + rest)
  }

  lemma {:induction false} EncodeLast<V>(h: Digests, codec: Codec<V>, e: Entry, params: seq<Param<V>>, k: nat)
    requires k < |params| && KeyOf(h, codec, e, params[..k + 1]).Ok?
    ensures KeyOf(h, codec, e, params[..k]).Ok? && EncodeParam(codec, e, k, params[k]).Ok?
    ensures var bytes := HashParam(h, e, k, EncodeParam(codec, e, k, params[k]).value);
            bytes.Ok? && KeyOf(h, codec, e, params[..k + 1]).value == KeyOf(h, codec, e, params[..k]).value + bytes.value
  {
    assert params[..k + 1][..k] == params[..k];
    var before := EncodeParams(codec, e, params[..k]).value;
    EncodedLength(codec, e, params[..k]);
    var encoded := EncodeParams(codec, e, params[..k + 1]).value;
    assert encoded[..k] == before;
  }

  lemma {:induction false} EncodedLength<V>(codec: Codec<V>, e: Entry, params: seq<Param<V>>)
    ensures EncodeParams(codec, e, params).Ok? ==> |EncodeParams(codec, e, params).value| == |params|
    decreases |params|
  {
    if params != [] {
      EncodedLength(codec, e, params[..|params| - 1]);
    }
  }

  /** The key of some first parameters is the beginning of the key of all of them, and the others contribute
      the rest. */
  lemma {:induction false} KeyIsPrefix<V>(h: Digests, codec: Codec<V>, e: Entry, params: seq<Param<V>>, k: nat)
    requires k <= |params| && KeyOf(h, codec, e, params).Ok?
    ensures KeyOf(h, codec, e, params[..k]).Ok? && Tail(h, codec, e, params, k).Ok?
    ensures KeyOf(h, codec, e, params).value == KeyOf(h, codec, e, params[..k]).value + Tail(h, codec, e, params, k).value
    decreases |params| - k
  {
    if k == |params| {
      assert params[..k] == params;
    } else {
      KeyIsPrefix(h, codec, e, params, k + 1);
      EncodeLast(h, codec, e, params, k);
    }
  }

  /* ---------- What a key consists of ---------- */

  /** The bytes of the pallet and of the storage function come first, each hashed with the seeds 0 and 1, and then
      what each parameter contributes, in order: one parameter more adds its own contribution at the end. */
  lemma KeyGrows<V>(h: Digests, codec: Codec<V>, e: Entry, params: seq<Param<V>>, param: Param<V>, data: Bytes, bytes: Bytes)
    requires KeyOf(h, codec, e, params).Ok?
    requires |params| < |e.hashers|
    requires param == Encoded(data) || (|params| < |e.types| && exists v :: param == Plain(v) && data == codec.encode(e.types[|params|], v))
    requires Contributes(h, e.hashers[|params|], data, bytes)
    ensures KeyOf(h, codec, e, []) == Ok(h.xxh64(0, e.pallet) + h.xxh64(1, e.pallet) + h.xxh64(0, e.name) + h.xxh64(1, e.name))
    ensures KeyOf(h, codec, e, params + [param]) == Ok(KeyOf(h, codec, e, params).value + bytes)
  {
    hide HashOf;
    var all := params + [param];
    assert all[..|params|] == params && all[|params|] == param;
    EncodedLength(codec, e, params);
    ContributesIff(h, e.hashers[|params|], data, bytes);
    var encoded := EncodeParams(codec, e, params).value;
    var more := encoded + [data];
    assert more[..|encoded|] == encoded && more[|encoded|] == data;
    assert EncodeParams(codec, e, all) == Ok(more);
    var before := HashParams(h, e, encoded).value;
    assert HashParam(h, e, |encoded|, data) == Ok(bytes);
    assert HashParams(h, e, more) == Ok(before + bytes);
    var head := Xxh128(h, e.pallet) + Xxh128(h, e.name);
    assert head + (before + bytes) == (head + before) + bytes;
    assert head + [] == h.xxh64(0, e.pallet) + h.xxh64(1, e.pallet) + h.xxh64(0, e.name) + h.xxh64(1, e.name);
  }

  /** What the encoding of a parameter becomes under each hasher; no name stands for Twox128. */
  ghost predicate Contributes(h: Digests, hasher: string, data: Bytes, bytes: Bytes) {
    || (hasher == "Blake2_256" && bytes == h.blake2b(32, data))
    || (hasher == "Blake2_128" && bytes == h.blake2b(16, data))
    || (hasher == "Blake2_128Concat" && bytes == h.blake2b(16, data) + data)
    || (hasher in {"Twox128", ""} && bytes == h.xxh64(0, data) + h.xxh64(1, data))
    || (hasher == "Twox64Concat" && bytes == h.xxh64(0, data) + data)
    || (hasher == "Identity" && bytes == data)
  }

  lemma ContributesIff(h: Digests, hasher: string, data: Bytes, bytes: Bytes)
    ensures HashOf(h, hasher, data) == Ok(bytes) <==> Contributes(h, hasher, data, bytes)
    ensures HashOf(h, hasher, data).Err? <==>
              hasher !in {"Blake2_256", "Blake2_128", "Blake2_128Concat", "Twox128", "", "Twox64Concat", "Identity"}
    ensures HashOf(h, hasher, data).Err? ==> HashOf(h, hasher, data).error.ValueError?
  {
  }

  /** A key fails at its first fault: a value without a type, or, once all are encoded, a parameter without a hasher or
      with an unknown one. */
  lemma KeyFailsIff<V>(h: Digests, codec: Codec<V>, e: Entry, params: seq<Param<V>>)
    ensures KeyOf(h, codec, e, params).Err?
            <==> || (exists i :: 0 <= i < |params| && params[i].Plain? && i >= |e.types|)
                 || |params| > |e.hashers|
                 || (exists i :: 0 <= i < |params| && i < |e.hashers| && !KnownHasher(e.hashers[i]))
    ensures (exists i :: 0 <= i < |params| && params[i].Plain? && i >= |e.types|) ==> KeyOf(h, codec, e, params) == Err(IndexError)
    ensures KeyOf(h, codec, e, params).Err? && KeyOf(h, codec, e, params).error != IndexError ==>
              KeyOf(h, codec, e, params).error.ValueError?
  {
    EncodeIff(codec, e, params);
    EncodedLength(codec, e, params);
    if EncodeParams(codec, e, params).Ok? {
      HashIff(h, e, EncodeParams(codec, e, params).value);
    }
  }

  predicate KnownHasher(hasher: string) {
    hasher in {"Blake2_256", "Blake2_128", "Blake2_128Concat", "Twox128", "", "Twox64Concat", "Identity"}
  }

  lemma {:induction false} EncodeIff<V>(codec: Codec<V>, e: Entry, params: seq<Param<V>>)
    ensures if exists i :: 0 <= i < |params| && params[i].Plain? && i >= |e.types|
            then EncodeParams(codec, e, params) == Err(IndexError) else EncodeParams(codec, e, params).Ok?
    decreases |params|
  {
    if params != [] {
      var init := params[..|params| - 1];
      EncodeIff(codec, e, init);
      assert forall i :: 0 <= i < |init| ==> init[i] == params[i];
      if i :| 0 <= i < |params| && params[i].Plain? && i >= |e.types| {
        assert i < |init| ==> init[i].Plain?;
      }
    }
  }

  lemma {:induction false} HashIff(h: Digests, e: Entry, encoded: seq<Bytes>)
    ensures HashParams(h, e, encoded).Err?
            <==> |encoded| > |e.hashers| || exists i :: 0 <= i < |encoded| && i < |e.hashers| && !KnownHasher(e.hashers[i])
    ensures HashParams(h, e, encoded).Err? ==> HashParams(h, e, encoded).error.ValueError?
    decreases |encoded|
  {
    if encoded != [] {
      var n := |encoded| - 1;
      HashIff(h, e, encoded[..n]);
      if n < |e.hashers| {
        ContributesIff(h, e.hashers[n], encoded[n], []);
      }
      hide HashOf, KnownHasher;
    }
  }

  /* ---------- Reading keys back ---------- */

  /** The width of the digest in front of a value, for the hashers that keep the value. */
  function ConcatWidth(hasher: string): Result<nat> {
    if hasher == "Blake2_128Concat" then Ok(16)
    else if hasher == "Twox64Concat" then Ok(8)
    else if hasher == "Identity" then Ok(0)
    else Err(ValueError("Unsupported hash type"))
  }

  /** The hasher of a parameter keeps its value. */
  predicate KeepsValue(e: Entry, i: nat) {
    i < |e.hashers| && ConcatWidth(e.hashers[i]).Ok?
  }

  datatype Field = Digest(width: nat) | Typed(typeName: string)

  /** The type under which the rest of a key is decoded: for each remaining parameter a digest and a value. */
  function Layout(e: Entry, k: nat): Result<seq<Field>>
    decreases |e.types| - k
  {
    if k >= |e.types| then Ok([])
    else if k >= |e.hashers| then Err(IndexError)
    else match ConcatWidth(e.hashers[k])
      case Err(error) => Err(error)
      case Ok(width) =>
        match Layout(e, k + 1)
        case Err(error) => Err(error)
        case Ok(rest) => Ok([Digest(width), Typed(e.types[k])] + rest)
  }

  datatype Part<V> = DigestPart(bytes: Bytes) | ValuePart(value: V)

  function DecodeField<V>(codec: Codec<V>, field: Field, bytes: Bytes): Option<(Part<V>, Bytes)> {
    match field
    case Digest(width) => if |bytes| < width then None else Some((DigestPart(bytes[..width]), bytes[width..]))
    case Typed(t) =>
      match codec.decode(t, bytes)
      case None => None
      case Some((v, rest)) => Some((ValuePart(v), rest))
  }

  /** The library's decoder of a tuple type: each field from what the one before it left. */
  function DecodeFields<V>(codec: Codec<V>, fields: seq<Field>, bytes: Bytes): Option<(seq<Part<V>>, Bytes)> {
    if fields == [] then Some(([], bytes))
    else
      match DecodeField(codec, fields[0], bytes)
      case None => None
      case Some((part, left)) =>
        match DecodeFields(codec, fields[1..], left)
        case None => None
        case Some((parts, rest)) => Some(([part] + parts, rest))
  }

  function DigestOf(h: Digests, hasher: string, data: Bytes): Bytes {
    if hasher == "Blake2_128Concat" then h.blake2b(16, data)
    else if hasher == "Twox64Concat" then h.xxh64(0, data)
    else []
  }

  lemma HashSplit(h: Digests, hasher: string, data: Bytes)
    requires FixedWidths(h) && ConcatWidth(hasher).Ok?
    ensures HashOf(h, hasher, data) == Ok(DigestOf(h, hasher, data) + data)
    ensures |DigestOf(h, hasher, data)| == ConcatWidth(hasher).value
  {
    assert [] + data == data;
  }

  /** The digest and the value of each parameter from the k-th on. */
  function Expected<V>(h: Digests, codec: Codec<V>, e: Entry, values: seq<V>, k: nat): seq<Part<V>>
    requires k <= |values| <= |e.types| && |values| <= |e.hashers|
    decreases |values| - k
  {
    if k == |values| then []
    else
      var data := codec.encode(e.types[k], values[k]);
      [DigestPart(DigestOf(h, e.hashers[k], data)), ValuePart(values[k])] + Expected(h, codec, e, values, k + 1)
  }

  function Plains<V>(values: seq<V>): (params: seq<Param<V>>)
    ensures |params| == |values|
  {
    seq(|values|, i requires 0 <= i < |values| => Plain(values[i]))
  }

  lemma {:induction false} LayoutIff(e: Entry, k: nat)
    requires k <= |e.types|
    ensures Layout(e, k).Ok? <==> forall i :: k <= i < |e.types| ==> KeepsValue(e, i)
    decreases |e.types| - k
  {
    if k < |e.types| {
      LayoutIff(e, k + 1);
      assert Layout(e, k).Ok? <==> KeepsValue(e, k) && Layout(e, k + 1).Ok?;
    }
  }

  lemma DecodeDigest<V>(codec: Codec<V>, width: nat, t: string, fields: seq<Field>, bytes: Bytes, v: V, left: Bytes,
                        parts: seq<Part<V>>, rest: Bytes)
    requires |bytes| >= width && codec.decode(t, bytes[width..]) == Some((v, left))
    requires DecodeFields(codec, fields, left) == Some((parts, rest))
    ensures DecodeFields(codec, [Digest(width), Typed(t)] + fields, bytes)
            == Some(([DigestPart(bytes[..width]), ValuePart(v)] + parts, rest))
  {
    var all := [Digest(width), Typed(t)] + fields;
    assert all[1..] == [Typed(t)] + fields && all[1..][1..] == fields;
    assert DecodeFields(codec, all[1..], bytes[width..]) == Some(([ValuePart(v)] + parts, rest));
    assert [DigestPart(bytes[..width])] + ([ValuePart(v)] + parts) == [DigestPart(bytes[..width]), ValuePart(v)] + parts;
  }

  lemma TailStep<V>(h: Digests, codec: Codec<V>, e: Entry, values: seq<V>, k: nat)
    requires FixedWidths(h) && k < |values| <= |e.types| && |values| <= |e.hashers| && ConcatWidth(e.hashers[k]).Ok?
    requires Tail(h, codec, e, Plains(values), k + 1).Ok?
    ensures var data := codec.encode(e.types[k], values[k]);
            Tail(h, codec, e, Plains(values), k)
            == Ok(DigestOf(h, e.hashers[k], data) + data + Tail(h, codec, e, Plains(values), k + 1).value)
  {
    HashSplit(h, e.hashers[k], codec.encode(e.types[k], values[k]));
    hide HashOf, DigestOf, FixedWidths, ConcatWidth;
  }

  lemma LayoutStep(e: Entry, k: nat)
    requires k < |e.types| && k < |e.hashers| && Layout(e, k).Ok?
    ensures ConcatWidth(e.hashers[k]).Ok? && Layout(e, k + 1).Ok?
    ensures Layout(e, k).value == [Digest(ConcatWidth(e.hashers[k]).value), Typed(e.types[k])] + Layout(e, k + 1).value
  {
  }

  lemma ReadOne<V(!new)>(codec: Codec<V>, t: string, v: V, digest: Bytes, more: Bytes, fields: seq<Field>,
                         parts: seq<Part<V>>, rest: Bytes)
    requires SelfDelimiting(codec) && DecodeFields(codec, fields, more + rest) == Some((parts, rest))
    ensures DecodeFields(codec, [Digest(|digest|), Typed(t)] + fields, digest + codec.encode(t, v) + more + rest)
            == Some(([DigestPart(digest), ValuePart(v)] + parts, rest))
  {
    var data := codec.encode(t, v);
    var bytes := digest + data + more + rest;
    assert bytes[|digest|..] == data + (more + rest) && bytes[..|digest|] == digest;
    hide DecodeFields;
    DecodeDigest(codec, |digest|, t, fields, bytes, v, more + rest, parts, rest);
  }

  lemma {:induction false} TailReadBack<V(!new)>(h: Digests, codec: Codec<V>, e: Entry, values: seq<V>, k: nat, rest: Bytes)
    requires FixedWidths(h) && SelfDelimiting(codec)
    requires k <= |values| == |e.types| && |values| <= |e.hashers|
    requires Layout(e, k).Ok?
    ensures Tail(h, codec, e, Plains(values), k).Ok?
    ensures DecodeFields(codec, Layout(e, k).value, Tail(h, codec, e, Plains(values), k).value + rest)
            == Some((Expected(h, codec, e, values, k), rest))
    decreases |values| - k
  {
    if k == |values| {
      assert [] + rest == rest;
    } else {
      LayoutStep(e, k);
      TailReadBack(h, codec, e, values, k + 1, rest);
      TailStep(h, codec, e, values, k);
      var data := codec.encode(e.types[k], values[k]);
      var more := Tail(h, codec, e, Plains(values), k + 1).value;
      HashSplit(h, e.hashers[k], data);
      hide FixedWidths, SelfDelimiting, HashOf, DigestOf, ConcatWidth, DecodeFields, Tail, Layout;
      ReadOne(codec, e.types[k], values[k], DigestOf(h, e.hashers[k], data), more, Layout(e, k + 1).value,
              Expected(h, codec, e, values, k + 1), rest);
    }
  }

  /** The rest of a key behind the key of its first parameters is read back as the digests and values of the
      others, with nothing left over, exactly when all of their hashers keep the value. */
  lemma ReadBackIff<V(!new)>(h: Digests, codec: Codec<V>, e: Entry, values: seq<V>, k: nat)
    requires FixedWidths(h) && SelfDelimiting(codec)
    requires k <= |values| == |e.types| && |values| <= |e.hashers|
    requires KeyOf(h, codec, e, Plains(values)).Ok?
    ensures KeyOf(h, codec, e, Plains(values[..k])).Ok?
    ensures var whole, prefix := KeyOf(h, codec, e, Plains(values)).value, KeyOf(h, codec, e, Plains(values[..k])).value;
            && prefix <= whole
            && (Layout(e, k).Ok?
                && DecodeFields(codec, Layout(e, k).value, whole[|prefix|..]) == Some((Expected(h, codec, e, values, k), []))
                <==> forall i :: k <= i < |e.types| ==> KeepsValue(e, i))
  {
    assert Plains(values)[..k] == Plains(values[..k]);
    KeyIsPrefix(h, codec, e, Plains(values), k);
    LayoutIff(e, k);
    var tail := Tail(h, codec, e, Plains(values), k).value;
    if Layout(e, k).Ok? {
      TailReadBack(h, codec, e, values, k, []);
      assert tail + [] == tail;
    }
  }

  /* ---------- Item keys ---------- */

  /** The key of an item in the result of a map query: one value, or a tuple. */
  datatype ItemKey<V> = One(part: Part<V>) | Several(parts: seq<Part<V>>)

  /** Every second element from an index on: `dk[key + 1] for key in range(key, last + 1, 2)`. */
  function Stride<V>(dk: seq<Part<V>>, key: nat, last: nat): Option<seq<Part<V>>>
    decreases last + 1 - key
  {
    if key > last then Some([])
    else if key + 1 >= |dk| then None
    else match Stride(dk, key + 2, last)
      case None => None
      case Some(rest) => Some([dk[key + 1]] + rest)
  }

  /** An index past the end leaves the decoded tuple as it is. */
  function Extract<V>(dk: seq<Part<V>>, given: nat, total: nat): ItemKey<V>
    requires given < total && |dk| == 2 * (total - given)
  {
    if total - given == 1 then One(dk[1])
    else match Stride(dk, given, total)
      case None => Several(dk)
      case Some(parts) => Several(parts)
  }

  /** What the key should be: the values without their digests. */
  function Values<V>(dk: seq<Part<V>>): (values: seq<Part<V>>)
    requires |dk| % 2 == 0
    ensures |values| == |dk| / 2
  {
    seq(|dk| / 2, i requires 0 <= i < |dk| / 2 => dk[2 * i + 1])
  }

  function Wanted<V>(dk: seq<Part<V>>): ItemKey<V>
    requires |dk| % 2 == 0 && |dk| > 0
  {
    if |dk| == 2 then One(dk[1]) else Several(Values(dk))
  }

  lemma {:induction false} StrideLength<V>(dk: seq<Part<V>>, key: nat, last: nat)
    requires key <= last + 2
    ensures Stride(dk, key, last).Some? ==> |Stride(dk, key, last).value| == (last + 2 - key) / 2
    decreases last + 2 - key
  {
    if key <= last {
      StrideLength(dk, key + 2, last);
    }
  }

  /** The key of an item is taken out rightly exactly when one key is left, or both of two. */
  lemma ExtractRightIff<V>(dk: seq<Part<V>>, given: nat, total: nat)
    requires given < total && |dk| == 2 * (total - given)
    ensures Extract(dk, given, total) == Wanted(dk) <==> total - given == 1 || (total == 2 && given == 0)
  {
    StrideLength(dk, given, total);
    if total == 2 && given == 0 {
      assert Stride(dk, 4, 2) == Some([]) && [dk[3]] + [] == [dk[3]];
      assert Stride(dk, 2, 2) == Some([dk[3]]) && [dk[1]] + [dk[3]] == [dk[1], dk[3]];
      assert Values(dk) == [dk[1], dk[3]];
    } else if total - given == 2 {
      assert Stride(dk, given + 2, total) == None;
    }
  }

  /** In all other cases the item key is every second part from behind the number of given parameters on, or, where
      that runs past the end, the whole decoded tuple. */
  lemma ExtractOtherwise<V>(dk: seq<Part<V>>, given: nat, total: nat)
    requires given < total && |dk| == 2 * (total - given) && total - given > 1
    ensures given + 2 * ((total - given) / 2) + 1 >= |dk| ==> Extract(dk, given, total) == Several(dk)
    ensures given + 2 * ((total - given) / 2) + 1 < |dk| ==>
              exists parts: seq<Part<V>> ::
                && Extract(dk, given, total) == Several(parts)
                && |parts| == (total - given) / 2 + 1
                && forall i :: 0 <= i < |parts| ==> parts[i] == dk[given + 2 * i + 1]
  {
    StrideIs(dk, given, total);
  }

  lemma {:induction false} StrideIs<V>(dk: seq<Part<V>>, key: nat, last: nat)
    requires key <= last + 2
    ensures key <= last && key + 2 * ((last - key) / 2) + 1 >= |dk| ==> Stride(dk, key, last) == None
    ensures key > last || key + 2 * ((last - key) / 2) + 1 < |dk| ==>
              && Stride(dk, key, last).Some?
              && |Stride(dk, key, last).value| == (last + 2 - key) / 2
              && forall i :: 0 <= i < |Stride(dk, key, last).value| ==>
                   key + 2 * i + 1 < |dk| && Stride(dk, key, last).value[i] == dk[key + 2 * i + 1]
    decreases last + 2 - key
  {
    if key <= last {
      StrideIs(dk, key + 2, last);
      if key + 2 <= last {
        assert key + 2 * ((last - key) / 2) == key + 2 + 2 * ((last - (key + 2)) / 2);
      }
      if key + 1 < |dk| && Stride(dk, key + 2, last).Some? {
        var rest := Stride(dk, key + 2, last).value;
        forall i | 0 <= i < |rest| + 1 ensures key + 2 * i + 1 < |dk| && ([dk[key + 1]] + rest)[i] == dk[key + 2 * i + 1] {
          if i > 0 {
            assert rest[i - 1] == dk[key + 2 + 2 * (i - 1) + 1];
          }
        }
      }
    }
  }

  /** The values of the parameters from the k-th on, as parts of a decoded key. */
  function OpenParts<V>(values: seq<V>, k: nat): (parts: seq<Part<V>>)
    requires k <= |values|
    ensures |parts| == |values| - k
  {
    seq(|values| - k, i requires 0 <= i < |values| - k => ValuePart(values[k + i]))
  }

  lemma {:induction false} ExpectedParts<V>(h: Digests, codec: Codec<V>, e: Entry, values: seq<V>, k: nat)
    requires k <= |values| <= |e.types| && |values| <= |e.hashers|
    ensures |Expected(h, codec, e, values, k)| == 2 * (|values| - k)
    ensures Values(Expected(h, codec, e, values, k)) == OpenParts(values, k)
    decreases |values| - k
  {
    if k < |values| {
      ExpectedParts(h, codec, e, values, k + 1);
      var all, more := Expected(h, codec, e, values, k), Expected(h, codec, e, values, k + 1);
      hide Expected;
      forall i | 0 <= i < |values| - k ensures all[2 * i + 1] == ValuePart(values[k + i]) {
        if i > 0 {
          assert all[2 * i + 1] == more[2 * (i - 1) + 1] == Values(more)[i - 1];
        }
      }
    }
  }

  /** Where all hashers keep the values, entries with different parameters have different keys. */
  lemma KeyInjective<V(!new)>(h: Digests, codec: Codec<V>, e: Entry, a: seq<V>, b: seq<V>)
    requires FixedWidths(h) && SelfDelimiting(codec)
    requires |a| == |b| == |e.types| && |a| <= |e.hashers|
    requires forall i :: 0 <= i < |e.types| ==> KeepsValue(e, i)
    requires KeyOf(h, codec, e, Plains(a)).Ok? && KeyOf(h, codec, e, Plains(b)) == KeyOf(h, codec, e, Plains(a))
    ensures a == b
  {
    assert a[..0] == b[..0] == [];
    ReadBackIff(h, codec, e, a, 0);
    ReadBackIff(h, codec, e, b, 0);
    ExpectedParts(h, codec, e, a, 0);
    ExpectedParts(h, codec, e, b, 0);
    hide FixedWidths, SelfDelimiting, KeyOf, Layout, DecodeFields, KeepsValue, Expected, Values, Plains;
    forall i | 0 <= i < |a| ensures a[i] == b[i] {
      assert OpenParts(a, 0)[i] == OpenParts(b, 0)[i];
    }
  }

  /** What the item key of an entry should be. */
  function OpenKey<V>(values: seq<V>, k: nat): ItemKey<V>
    requires k < |values|
  {
    if |values| - k == 1 then One(ValuePart(values[k])) else Several(OpenParts(values, k))
  }

  lemma ExpectedKeyIff<V>(h: Digests, codec: Codec<V>, e: Entry, values: seq<V>, k: nat)
    requires k < |values| <= |e.types| && |values| <= |e.hashers|
    ensures |Expected(h, codec, e, values, k)| == 2 * (|values| - k)
    ensures Extract(Expected(h, codec, e, values, k), k, |values|) == OpenKey(values, k)
            <==> |values| - k == 1 || (|values| == 2 && k == 0)
  {
    ExpectedParts(h, codec, e, values, k);
    var dk := Expected(h, codec, e, values, k);
    ExtractRightIff(dk, k, |values|);
    assert Values(dk)[0] == dk[1] && OpenParts(values, k)[0] == ValuePart(values[k]);
    hide Extract, Expected, Values, OpenParts;
  }

  /** From the parameters to the key and back: where the hashers keep the values, the item key of a map query
      with the first k parameters is the parameters that were left open exactly when these are one, or both
      of two. */
  lemma ItemKeyIff<V(!new)>(h: Digests, codec: Codec<V>, e: Entry, values: seq<V>, k: nat)
    requires FixedWidths(h) && SelfDelimiting(codec)
    requires k < |values| == |e.types| && |values| <= |e.hashers|
    requires KeyOf(h, codec, e, Plains(values)).Ok?
    requires forall i :: k <= i < |e.types| ==> KeepsValue(e, i)
    ensures KeyOf(h, codec, e, Plains(values[..k])).Ok? && Layout(e, k).Ok?
    ensures var whole, prefix := KeyOf(h, codec, e, Plains(values)).value, KeyOf(h, codec, e, Plains(values[..k])).value;
            && prefix <= whole
            && var decoded := DecodeFields(codec, Layout(e, k).value, whole[|prefix|..]);
            && decoded.Some? && |decoded.value.0| == 2 * (|values| - k)
            && (Extract(decoded.value.0, k, |values|) == OpenKey(values, k)
                <==> |values| - k == 1 || (|values| == 2 && k == 0))
  {
    ReadBackIff(h, codec, e, values, k);
    ExpectedKeyIff(h, codec, e, values, k);
    hide FixedWidths, SelfDelimiting, DecodeFields, Layout, KeyOf, Expected, KeepsValue, Extract, OpenKey, Plains;
  }
}
