/** The encodings the client writes by hand (accounts, vectors of accounts and optional pairs of an account
    and a 16-bit number) against a decoder for the SCALE format, appendix A.2.2 of the Polkadot Host
    specification.
 */
module Scale {
  import opened Collections
  import opened Dicts
  import opened Text

  newtype Byte = x: int | 0 <= x < 256
  type Bytes = seq<Byte>

  datatype Error = ValueError(message: string) | IndexError | OverflowError | TypeError

  datatype Result<T> = Ok(value: T) | Err(error: Error)

  const ACCOUNT_WIDTH: nat := 32

  /* ---------- Encoding ---------- */

  datatype Value =
    | Nothing
    | Raw(bytes: Bytes)
    | Address(text: string)
    | Number(n: int)
    | List(items: seq<Value>)

  /** The format names of types by id, as a registry lists them, and the decoder of addresses. */
  datatype Runtime = Runtime(registryTypeMap: map<string, nat>, ss58: string -> Result<Bytes>)

  datatype Form = AccountId | OptionalPair | AccountVector | ByTypeString

  function TypeString(r: Runtime, name: string, fallback: nat): string {
    "scale_info::" + Decimal(if name in r.registryTypeMap then r.registryTypeMap[name] else fallback)
  }

  function FormOf(r: Runtime, typeString: string): Form {
    if typeString == "scale_info::0" then AccountId
    else if typeString == TypeString(r, "Option<(AccountId32, u16)>", 579) then OptionalPair
    else if typeString == TypeString(r, "Vec<AccountId32>", 152) then AccountVector
    else ByTypeString
  }

  /** Bytes count as encoded already, whatever their number. */
  function EncodeAccount(r: Runtime, account: Value): Result<Bytes> {
    match account
    case Raw(bytes) => Ok(bytes)
    case Address(text) => r.ss58(text)
    case _ => Err(TypeError)
  }

  function EncodeAccounts(r: Runtime, accounts: seq<Value>): Result<Bytes> {
    if accounts == [] then Ok([])
    else match EncodeAccounts(r, accounts[..|accounts| - 1])
      case Err(e) => Err(e)
      case Ok(before) =>
        match EncodeAccount(r, accounts[|accounts| - 1])
        case Err(e) => Err(e)
        case Ok(bytes) => Ok(before + bytes)
  }

  /** `n.to_bytes(2, "little")`. */
  function EncodeU16(n: int): Result<Bytes> {
    if 0 <= n < 0x10000 then Ok([(n % 256) as Byte, (n / 256) as Byte]) else Err(OverflowError)
  }

  function AccountsOf(value: Value): seq<Value> {
    if value.List? then value.items else [value]
  }

  function Encoding(r: Runtime, form: Form, value: Value, external: Bytes): Result<Bytes> {
    if value.Nothing? then Ok([0])
    else match form
      case AccountId => EncodeAccount(r, value)
      case OptionalPair =>
        if !value.List? || |value.items| != 2 then Err(ValueError("Expected tuple of (account_id, u16)"))
        else (match EncodeAccount(r, value.items[0])
              case Err(e) => Err(e)
              case Ok(account) =>
                if !value.items[1].Number? then Err(TypeError)
                else match EncodeU16(value.items[1].n)
                  case Err(e) => Err(e)
                  case Ok(number) => Ok([1] + account + number))
      case AccountVector =>
        var accounts := AccountsOf(value);
        if |accounts| >= 64 then Err(ValueError("Vector length too large"))
        else (match EncodeAccounts(r, accounts)
              case Err(e) => Err(e)
              case Ok(bytes) => Ok([(|accounts| * 4) as Byte] + bytes))
      case ByTypeString => Ok(external)
  }

  /** The forms by their numbers: 0 is an account; the two others are those of the registry's own numbers, or 579 and 152
      where it does not list them. */
  lemma Forms(r: Runtime, form: Form)
    ensures FormOf(r, "scale_info::0") == AccountId
    ensures "Option<(AccountId32, u16)>" !in r.registryTypeMap ==> FormOf(r, "scale_info::" + Decimal(579)) == OptionalPair
    ensures "Vec<AccountId32>" !in r.registryTypeMap
            && ("Option<(AccountId32, u16)>" in r.registryTypeMap ==> r.registryTypeMap["Option<(AccountId32, u16)>"] != 152) ==>
              FormOf(r, "scale_info::" + Decimal(152)) == AccountVector
  {
    NumbersDiffer(579, 0);
    NumbersDiffer(152, 0);
    NumbersDiffer(152, 579);
    NumbersDiffer(152, if "Option<(AccountId32, u16)>" in r.registryTypeMap then r.registryTypeMap["Option<(AccountId32, u16)>"] else 579);
    assert Decimal(0) == "0" && "scale_info::" + Decimal(0) == "scale_info::0";
    hide Decimal;
  }

  /** A registry's own numbers count. */
  lemma ListedForms(r: Runtime, n: nat)
    requires n > 0
    ensures "Option<(AccountId32, u16)>" in r.registryTypeMap && r.registryTypeMap["Option<(AccountId32, u16)>"] == n ==>
              FormOf(r, "scale_info::" + Decimal(n)) == OptionalPair
    ensures "Vec<AccountId32>" in r.registryTypeMap && r.registryTypeMap["Vec<AccountId32>"] == n
            && n != (if "Option<(AccountId32, u16)>" in r.registryTypeMap then r.registryTypeMap["Option<(AccountId32, u16)>"] else 579) ==>
              FormOf(r, "scale_info::" + Decimal(n)) == AccountVector
  {
    NumbersDiffer(n, 0);
    NumbersDiffer(n, if "Option<(AccountId32, u16)>" in r.registryTypeMap then r.registryTypeMap["Option<(AccountId32, u16)>"] else 579);
    assert Decimal(0) == "0" && "scale_info::" + Decimal(0) == "scale_info::0";
    hide Decimal;
  }

  lemma NumbersDiffer(m: nat, n: nat)
    ensures "scale_info::" + Decimal(m) == "scale_info::" + Decimal(n) <==> m == n
  {
    var a, b := "scale_info::" + Decimal(m), "scale_info::" + Decimal(n);
    assert a[12..] == Decimal(m) && b[12..] == Decimal(n);
    DecimalInjective(m, n);
  }

  /** An account is its bytes, or what its address stands for; nothing is a zero byte; and what has no form of its own is
      encoded elsewhere. */
  lemma AccountEncoded(r: Runtime, bytes: Bytes, text: string, n: int, external: Bytes, form: Form, value: Value)
    ensures Encoding(r, AccountId, Raw(bytes), external) == Ok(bytes)
    ensures Encoding(r, AccountId, Address(text), external) == r.ss58(text)
    ensures Encoding(r, AccountId, Number(n), external) == Err(TypeError)
    ensures Encoding(r, form, Nothing, external) == Ok([0])
    ensures value != Nothing ==> Encoding(r, ByTypeString, value, external) == Ok(external)
  {
  }

  /** Vectors of accounts given as bytes, alone or in a list, are four times their number and the bytes, one after the
      other; from 64 on they are refused. */
  lemma VectorEncoded(r: Runtime, bytes: seq<Bytes>, one: Bytes, external: Bytes)
    ensures |bytes| < 64 ==> Encoding(r, AccountVector, List(Raws(bytes)), external) == Ok([(4 * |bytes|) as Byte] + Concat(bytes))
    ensures |bytes| >= 64 ==> Encoding(r, AccountVector, List(Raws(bytes)), external) == Err(ValueError("Vector length too large"))
    ensures Encoding(r, AccountVector, Raw(one), external) == Ok([4] + one)
  {
    hide Concat, EncodeAccounts, EncodeAccount, Raws;
    RawsEncoded(r, bytes);
    OneEncoded(r, one);
    EncodesVector(r, Raws(bytes), Concat(bytes), external);
    EncodesVector(r, [Raw(one)], one, external);
  }

  lemma EncodesVector(r: Runtime, accounts: seq<Value>, bytes: Bytes, external: Bytes)
    requires EncodeAccounts(r, accounts) == Ok(bytes)
    ensures Encoding(r, AccountVector, List(accounts), external)
            == if |accounts| < 64 then Ok([(4 * |accounts|) as Byte] + bytes) else Err(ValueError("Vector length too large"))
    ensures forall one :: accounts == [one] && one.Raw? ==>
              Encoding(r, AccountVector, one, external) == Encoding(r, AccountVector, List(accounts), external)
  {
    hide EncodeAccounts, EncodeAccount;
  }

  lemma OneEncoded(r: Runtime, one: Bytes)
    ensures EncodeAccounts(r, [Raw(one)]) == Ok(one)
  {
    RawsEncoded(r, [one]);
    assert Raws([one]) == [Raw(one)];
    assert [one][1..] == [] && Concat([one][1..]) == [];
    assert Concat([one]) == one;
  }

  function Raws(bytes: seq<Bytes>): (accounts: seq<Value>)
    ensures |accounts| == |bytes|
  {
    seq(|bytes|, i requires 0 <= i < |bytes| => Raw(bytes[i]))
  }

  lemma {:induction false} RawsEncoded(r: Runtime, bytes: seq<Bytes>)
    ensures EncodeAccounts(r, Raws(bytes)) == Ok(Concat(bytes))
    decreases |bytes|
  {
    if bytes != [] {
      var n := |bytes| - 1;
      RawsEncoded(r, bytes[..n]);
      assert Raws(bytes)[..n] == Raws(bytes[..n]);
      assert bytes == bytes[..n] + [bytes[n]];
      ConcatSnoc(bytes[..n], bytes[n]);
    }
  }

  /** What an optional pair must be: a list of two, an account and a number of 16 bits, whose lower byte comes first. */
  lemma PairEncoded(r: Runtime, items: seq<Value>, bytes: Bytes, n: int, external: Bytes)
    ensures |items| != 2 ==>
              Encoding(r, OptionalPair, List(items), external) == Err(ValueError("Expected tuple of (account_id, u16)"))
    ensures Encoding(r, OptionalPair, Number(n), external) == Err(ValueError("Expected tuple of (account_id, u16)"))
    ensures !(0 <= n < 65536) ==> Encoding(r, OptionalPair, List([Raw(bytes), Number(n)]), external) == Err(OverflowError)
    ensures 0 <= n < 65536 ==>
              Encoding(r, OptionalPair, List([Raw(bytes), Number(n)]), external)
              == Ok([1] + bytes + [(n % 256) as Byte, (n / 256) as Byte])
  {
  }

  method EncodeEach(r: Runtime, accounts: seq<Value>) returns (result: Result<Bytes>)
    ensures result == EncodeAccounts(r, accounts)
  {
    var buffer := [];
    for i := 0 to |accounts|
      invariant EncodeAccounts(r, accounts[..i]) == Ok(buffer)
    {
      assert accounts[..i + 1][..i] == accounts[..i];
      var account := EncodeAccount(r, accounts[i]);
      if account.Err? {
        EncodeAccountsFails(r, accounts, i + 1);
        return account;
      }
      buffer := buffer + account.value;
    }
    assert accounts[..|accounts|] == accounts;
    result := Ok(buffer);
  }

  /** `_encode_scale`; what the library makes of a type encoded by its name is given. */
  method EncodeScale(r: Runtime, typeString: string, value: Value, external: Bytes) returns (result: Result<Bytes>)
    ensures result == Encoding(r, FormOf(r, typeString), value, external)
  {
    if value.Nothing? {
      return Ok([0]);
    }
    match FormOf(r, typeString) {
      case AccountId =>
        result := EncodeAccount(r, value);
      case OptionalPair =>
        if !value.List? || |value.items| != 2 {
          return Err(ValueError("Expected tuple of (account_id, u16)"));
        }
        var account := EncodeAccount(r, value.items[0]);
        if account.Err? {
          return Err(account.error);
        }
        if !value.items[1].Number? {
          return Err(TypeError);
        }
        var number := EncodeU16(value.items[1].n);
        if number.Err? {
          return Err(number.error);
        }
        result := Ok([1] + account.value + number.value);
      case AccountVector =>
        var accounts := AccountsOf(value);
        if |accounts| >= 64 {
          return Err(ValueError("Vector length too large"));
        }
        var buffer := EncodeEach(r, accounts);
        result := if buffer.Err? then buffer else Ok([(|accounts| * 4) as Byte] + buffer.value);
      case ByTypeString =>
        result := Ok(external);
    }
  }

  lemma {:induction false} EncodeAccountsFails(r: Runtime, accounts: seq<Value>, k: nat)
    requires k <= |accounts| && EncodeAccounts(r, accounts[..k]).Err?
    ensures EncodeAccounts(r, accounts) == EncodeAccounts(r, accounts[..k])
    decreases |accounts|
  {
    if k < |accounts| {
      var init := accounts[..|accounts| - 1];
      assert init[..k] == accounts[..k];
      EncodeAccountsFails(r, init, k);
    } else {
      assert accounts[..k] == accounts;
    }
  }

  /* ---------- Decoding ---------- */

  function Little(bytes: Bytes): nat {
    if bytes == [] then 0 else bytes[0] as nat + 256 * Little(bytes[1..])
  }

  /** A compact integer in any of its four modes, and what follows it. */
  function DecodeCompact(bytes: Bytes): Option<(nat, Bytes)> {
    if bytes == [] then None
    else
      var mode := bytes[0] % 4;
      var width: nat := if mode == 0 then 1 else if mode == 1 then 2 else if mode == 2 then 4 else 5 + (bytes[0] / 4) as nat;
      if |bytes| < width then None
      else Some((if mode == 3 then Little(bytes[1..width]) else Little(bytes[..width]) / 4, bytes[width..]))
  }

  function DecodeAccount(bytes: Bytes): Option<(Bytes, Bytes)> {
    if |bytes| < ACCOUNT_WIDTH then None else Some((bytes[..ACCOUNT_WIDTH], bytes[ACCOUNT_WIDTH..]))
  }

  function DecodeAccounts(n: nat, bytes: Bytes): Option<(seq<Bytes>, Bytes)> {
    if n == 0 then Some(([], bytes))
    else match DecodeAccount(bytes)
      case None => None
      case Some((first, rest)) =>
        match DecodeAccounts(n - 1, rest)
        case None => None
        case Some((others, end)) => Some(([first] + others, end))
  }

  function DecodeVector(bytes: Bytes): Option<(seq<Bytes>, Bytes)> {
    match DecodeCompact(bytes)
    case None => None
    case Some((n, rest)) => DecodeAccounts(n, rest)
  }

  function DecodeOptionalPair(bytes: Bytes): Option<(Option<(Bytes, nat)>, Bytes)> {
    if bytes == [] then None
    else if bytes[0] == 0 then Some((None, bytes[1..]))
    else if bytes[0] != 1 then None
    else match DecodeAccount(bytes[1..])
      case None => None
      case Some((account, rest)) =>
        if |rest| < 2 then None else Some((Some((account, Little(rest[..2]))), rest[2..]))
  }

  /* ---------- Round trips ---------- */

  /** The bytes each account stands for, when all of them stand for some. */
  ghost predicate Stand(r: Runtime, accounts: seq<Value>, bytes: seq<Bytes>) {
    |bytes| == |accounts| && forall i :: 0 <= i < |accounts| ==> EncodeAccount(r, accounts[i]) == Ok(bytes[i])
  }

  lemma {:induction false} AccountsConcat(r: Runtime, accounts: seq<Value>, bytes: seq<Bytes>)
    requires Stand(r, accounts, bytes)
    ensures EncodeAccounts(r, accounts) == Ok(Concat(bytes))
    decreases |accounts|
  {
    if accounts != [] {
      var n := |accounts| - 1;
      AccountsConcat(r, accounts[..n], bytes[..n]);
      ConcatSnoc(bytes[..n], bytes[n]);
      assert bytes == bytes[..n] + [bytes[n]];
    }
  }

  lemma {:induction false} DecodeConcat(parts: seq<Bytes>, rest: Bytes)
    requires forall i :: 0 <= i < |parts| ==> |parts[i]| == ACCOUNT_WIDTH
    ensures DecodeAccounts(|parts|, Concat(parts) + rest) == Some((parts, rest))
  {
    if parts == [] {
      assert Concat(parts) + rest == rest;
    } else {
      var bytes := Concat(parts) + rest;
      assert bytes[..ACCOUNT_WIDTH] == parts[0];
      assert bytes[ACCOUNT_WIDTH..] == Concat(parts[1..]) + rest;
      DecodeConcat(parts[1..], rest);
      assert DecodeAccount(bytes) == Some((parts[0], Concat(parts[1..]) + rest));
      assert [parts[0]] + parts[1..] == parts;
    }
  }

  lemma {:induction false} DecodedWidths(n: nat, bytes: Bytes)
    ensures DecodeAccounts(n, bytes).Some? ==>
              forall i :: 0 <= i < |DecodeAccounts(n, bytes).value.0| ==> |DecodeAccounts(n, bytes).value.0[i]| == ACCOUNT_WIDTH
  {
    if n > 0 && DecodeAccount(bytes).Some? {
      DecodedWidths(n - 1, DecodeAccount(bytes).value.1);
    }
  }

  /** A vector is encoded exactly when it is short enough and each of its accounts stands for bytes. */
  lemma VectorEncodesIff(r: Runtime, value: Value, external: Bytes)
    requires !value.Nothing?
    ensures Encoding(r, AccountVector, value, external).Ok?
            <==> |AccountsOf(value)| < 64
                 && forall i :: 0 <= i < |AccountsOf(value)| ==> EncodeAccount(r, AccountsOf(value)[i]).Ok?
  {
    EncodesIff(r, AccountsOf(value));
  }

  lemma {:induction false} EncodesIff(r: Runtime, accounts: seq<Value>)
    ensures EncodeAccounts(r, accounts).Ok? <==> forall i :: 0 <= i < |accounts| ==> EncodeAccount(r, accounts[i]).Ok?
    decreases |accounts|
  {
    if accounts != [] {
      var init := accounts[..|accounts| - 1];
      EncodesIff(r, init);
      forall i | 0 <= i < |init| ensures init[i] == accounts[i] {
      }
    }
  }

  /** An encoded vector of accounts is read back, with whatever follows it left untouched, exactly when each
      account has its 32 bytes; bytes passed for an account are not measured when they are encoded. */
  lemma VectorRoundTripIff(r: Runtime, value: Value, external: Bytes, bytes: seq<Bytes>, rest: Bytes)
    requires !value.Nothing? && |AccountsOf(value)| < 64 && Stand(r, AccountsOf(value), bytes)
    ensures Encoding(r, AccountVector, value, external).Ok?
    ensures DecodeVector(Encoding(r, AccountVector, value, external).value + rest) == Some((bytes, rest))
            <==> forall i :: 0 <= i < |bytes| ==> |bytes[i]| == ACCOUNT_WIDTH
  {
    AccountsConcat(r, AccountsOf(value), bytes);
    var n := |bytes|;
    var header := (n * 4) as Byte;
    var encoded := [header] + Concat(bytes) + rest;
    assert Encoding(r, AccountVector, value, external).value + rest == encoded;
    assert header % 4 == 0 && (header as nat) / 4 == n;
    assert encoded[..1] == [header] && Little([header]) == header as nat;
    assert encoded[1..] == Concat(bytes) + rest;
    assert DecodeCompact(encoded) == Some((n, Concat(bytes) + rest));
    DecodedWidths(n, Concat(bytes) + rest);
    if forall i :: 0 <= i < |bytes| ==> |bytes[i]| == ACCOUNT_WIDTH {
      DecodeConcat(bytes, rest);
    }
  }

  /** So two vectors that are encoded alike hold the same accounts. */
  lemma VectorInjective(r: Runtime, a: Value, b: Value, external: Bytes, abytes: seq<Bytes>, bbytes: seq<Bytes>, arest: Bytes,
                        brest: Bytes)
    requires !a.Nothing? && |AccountsOf(a)| < 64 && Stand(r, AccountsOf(a), abytes)
    requires !b.Nothing? && |AccountsOf(b)| < 64 && Stand(r, AccountsOf(b), bbytes)
    requires forall i :: 0 <= i < |abytes| ==> |abytes[i]| == ACCOUNT_WIDTH
    requires forall i :: 0 <= i < |bbytes| ==> |bbytes[i]| == ACCOUNT_WIDTH
    requires Encoding(r, AccountVector, a, external).Ok? && Encoding(r, AccountVector, b, external).Ok?
    requires Encoding(r, AccountVector, a, external).value + arest == Encoding(r, AccountVector, b, external).value + brest
    ensures abytes == bbytes && arest == brest
  {
    VectorRoundTripIff(r, a, external, abytes, arest);
    VectorRoundTripIff(r, b, external, bbytes, brest);
  }

  lemma LittlePair(low: Byte, high: Byte)
    ensures Little([low, high]) == low as nat + 256 * high as nat
  {
    assert [low, high][1..] == [high] && [high][1..] == [];
    assert Little([high]) == high as nat;
  }

  /** An optional pair is read back exactly when its account has 32 bytes; no value is read back as none. */
  lemma OptionalPairRoundTripIff(r: Runtime, account: Value, bytes: Bytes, n: nat, external: Bytes, rest: Bytes)
    requires EncodeAccount(r, account) == Ok(bytes) && n < 0x10000
    ensures DecodeOptionalPair(Encoding(r, OptionalPair, Nothing, external).value + rest) == Some((None, rest))
    ensures Encoding(r, OptionalPair, List([account, Number(n)]), external).Ok?
    ensures DecodeOptionalPair(Encoding(r, OptionalPair, List([account, Number(n)]), external).value + rest)
            == Some((Some((bytes, n)), rest))
            <==> |bytes| == ACCOUNT_WIDTH
  {
    assert ([0] + rest)[1..] == rest;
    var number := [(n % 256) as Byte, (n / 256) as Byte];
    LittlePair(number[0], number[1]);
    var encoded: Bytes := [1] + bytes + number + rest;
    assert Encoding(r, OptionalPair, List([account, Number(n)]), external).value + rest == encoded;
    assert encoded[1..] == bytes + number + rest;
    if |bytes| == ACCOUNT_WIDTH {
      assert encoded[1..][..ACCOUNT_WIDTH] == bytes;
      assert encoded[1..][ACCOUNT_WIDTH..] == number + rest;
      assert (number + rest)[..2] == number && (number + rest)[2..] == rest;
    }
  }
}
