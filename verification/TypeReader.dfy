/** The reader of type names: it takes a printed name apart as a string and converts the account ids in
    a decoded value. Its reference is a conversion over the syntax tree of the type.
 */
module TypeReader {
  import opened Text
  import opened TypeSyntax

  datatype Value =
    | Null
    | Int(n: int)
    | Str(s: string)
    | List(items: seq<Value>)
    | TupleOf(items: seq<Value>)
    | Dict(entries: seq<(string, Value)>)

  datatype Error = TypeError | IndexError | KeyError

  datatype Result<+T> = Ok(value: T) | Err(error: Error) {
    predicate IsFailure() {
      Err?
    }
    function PropagateFailure<U>(): Result<U>
      requires Err?
    {
      Err(error)
    }
    function Extract(): T
      requires Ok?
    {
      value
    }
  }

  /** The address encoder of account bytes for an address format. */
  type Encoder = (seq<int>, int) -> string

  const DEFAULT_FORMAT := 42
  const ACCOUNT := "AccountId32"

  /* ---------- Splitting tuple names ---------- */

  /** The scan of `split_tuple_type`, from depth `d` with `current` collected. */
  function Split(s: string, d: int, current: string): (parts: seq<string>)
    ensures forall i :: 0 <= i < |parts| ==> |parts[i]| <= |current| + |s|
    decreases |s|
  {
    if s == "" then (if current != "" then [Strip(current)] else [])
    else if s[0] == ',' && d == 0 then [Strip(current)] + Split(s[1..], d, "")
    else Split(s[1..], d + (if s[0] == '<' then 1 else if s[0] == '>' then -1 else 0), current + [s[0]])
  }

  function SplitTuple(typeName: string): (parts: seq<string>)
    ensures typeName != "" ==> forall i :: 0 <= i < |parts| ==> |parts[i]| < |typeName|
  {
    Split(Slice(typeName, 1, 1), 0, "")
  }

  method SplitTupleType(typeName: string) returns (parts: seq<string>)
    ensures parts == SplitTuple(typeName)
  {
    var s := Slice(typeName, 1, 1);
    parts := [];
    var depth, current := 0, "";
    for i := 0 to |s|
      invariant parts + Split(s[i..], depth, current) == SplitTuple(typeName)
    {
      var c := s[i];
      assert s[i..][1..] == s[i + 1..];
      if c == ',' && depth == 0 {
        parts := parts + [Strip(current)];
        current := "";
      } else {
        if c == '<' {
          depth := depth + 1;
        } else if c == '>' {
          depth := depth - 1;
        }
        current := current + [c];
      }
    }
    if current != "" {
      parts := parts + [Strip(current)];
    }
  }

  /** A part without bare commas is collected whole. */
  lemma {:induction false} SplitCollects(part: string, rest: string, d: int, current: string)
    requires Commas(part, d) == 0
    ensures Split(part + rest, d, current) == Split(rest, Depth(part, d), current + part)
    decreases |part|
  {
    if part == "" {
      assert part + rest == rest && current + part == current;
    } else {
      assert (part + rest)[1..] == part[1..] + rest;
      assert (current + [part[0]]) + part[1..] == current + part;
      SplitCollects(part[1..], rest, d + (if part[0] == '<' then 1 else if part[0] == '>' then -1 else 0),
                    current + [part[0]]);
    }
  }

  ghost predicate Whole(part: string) {
    part != "" && Strip(part) == part && Strip(" " + part) == part && Depth(part, 0) == 0 && Commas(part, 0) == 0
  }

  lemma SplitAtComma(rest: string, current: string)
    ensures Split(", " + rest, 0, current) == [Strip(current)] + Split(rest, 0, " ")
  {
    var tail := ", " + rest;
    assert tail[1..] == " " + rest && (" " + rest)[1..] == rest;
    assert "" + [' '] == " ";
  }

  ghost predicate AllWhole(parts: seq<string>) {
    parts == [] || (Whole(parts[0]) && AllWhole(parts[1..]))
  }

  lemma SplitOne(part: string, spaced: bool)
    requires Whole(part)
    ensures Split(part, 0, if spaced then " " else "") == [part]
  {
    var lead := if spaced then " " else "";
    SplitCollects(part, "", 0, lead);
    assert part + "" == part && "" + part == part;
  }

  lemma SplitMore(part: string, rest: string, spaced: bool)
    requires Whole(part)
    ensures Split(part + ", " + rest, 0, if spaced then " " else "") == [part] + Split(rest, 0, " ")
  {
    hide Split;
    var lead := if spaced then " " else "";
    SplitCollects(part, ", " + rest, 0, lead);
    SplitAtComma(rest, lead + part);
    assert part + (", " + rest) == part + ", " + rest;
    assert "" + part == part;
  }

  /** Splitting inverts joining, for parts that are not empty, trimmed, balanced in angle brackets and
      without a comma outside them. */
  lemma {:induction false} SplitInvertsJoin(parts: seq<string>, spaced: bool)
    requires AllWhole(parts) && (parts == [] ==> !spaced)
    ensures Split(Join(parts), 0, if spaced then " " else "") == parts
    decreases |parts|
  {
    hide Whole;
    if parts != [] {
      if |parts| == 1 {
        SplitOne(parts[0], spaced);
      } else {
        SplitMore(parts[0], Join(parts[1..]), spaced);
        SplitInvertsJoin(parts[1..], true);
      }
    }
  }

  lemma {:induction false} PrintedAreWhole(ts: seq<Type>)
    requires AllNameable(ts) && BareCommasOfAll(ts) == 0
    ensures AllWhole(PrintAll(ts))
  {
    if ts != [] {
      PrintEnds(ts[0]);
      PrintTrimmed(ts[0]);
      PrintScan(ts[0], 0);
      PrintedAreWhole(ts[1..]);
      assert PrintAll(ts)[1..] == PrintAll(ts[1..]);
    }
  }

  lemma SplitPrinted(members: seq<Type>)
    requires AllNameable(members) && BareCommasOfAll(members) == 0
    ensures SplitTuple(Print(Tuple(members))) == PrintAll(members)
  {
    PrintedAreWhole(members);
    SplitInvertsJoin(PrintAll(members), false);
    var inner := Join(PrintAll(members));
    assert ("(" + inner + ")")[1..|inner| + 1] == inner;
  }

  /** As many parts as bare commas, and one more, when the text does not end in a comma. */
  lemma {:induction false} SplitCount(s: string, d: int, current: string)
    requires if s == "" then current != "" else s[|s| - 1] != ','
    ensures |Split(s, d, current)| == Commas(s, d) + 1
    decreases |s|
  {
    if s != "" {
      var d' := d + (if s[0] == '<' then 1 else if s[0] == '>' then -1 else 0);
      if s[0] == ',' && d == 0 {
        SplitCount(s[1..], d, "");
      } else {
        SplitCount(s[1..], d', current + [s[0]]);
      }
    }
  }

  lemma {:induction false} JoinEnds(ts: seq<Type>)
    requires AllNameable(ts) && ts != []
    ensures Join(PrintAll(ts)) != "" && Join(PrintAll(ts))[|Join(PrintAll(ts))| - 1] != ','
  {
    PrintEnds(ts[0]);
    if |ts| == 1 {
      assert PrintAll(ts) == [Print(ts[0])];
    } else {
      JoinEnds(ts[1..]);
      assert PrintAll(ts)[1..] == PrintAll(ts[1..]);
    }
  }

  /** A printed tuple splits back into its members exactly when no member shows a bare comma, as a tuple
      nested directly in it does. */
  lemma SplitPrintedIff(members: seq<Type>)
    requires AllNameable(members)
    ensures SplitTuple(Print(Tuple(members))) == PrintAll(members) <==> BareCommasOfAll(members) == 0
  {
    if BareCommasOfAll(members) == 0 {
      SplitPrinted(members);
    } else {
      var inner := Join(PrintAll(members));
      assert ("(" + inner + ")")[1..|inner| + 1] == inner;
      JoinEnds(members);
      SplitCount(inner, 0, "");
      JoinScan(members, 0);
    }
  }

  /* ---------- The reader ---------- */

  /** `value[0]`. */
  function FirstOf(value: Value): Result<Value> {
    match value
    case Null => Err(TypeError)
    case Int(_) => Err(TypeError)
    case Str(s) => if s == "" then Err(IndexError) else Ok(Str([s[0]]))
    case List(items) => if items == [] then Err(IndexError) else Ok(items[0])
    case TupleOf(items) => if items == [] then Err(IndexError) else Ok(items[0])
    case Dict(_) => Err(KeyError)
  }

  predicate IsByte(v: Value) {
    v.Int? && 0 <= v.n <= 255
  }

  predicate IsAccountId32(value: Value) {
    value.TupleOf? && |value.items| == 32 && forall i :: 0 <= i < 32 ==> IsByte(value.items[i])
  }

  function Bytes(items: seq<Value>): seq<int>
    requires forall i :: 0 <= i < |items| ==> IsByte(items[i])
  {
    seq(|items|, i requires 0 <= i < |items| => assert IsByte(items[i]); items[i].n)
  }

  function ConvertLeaf(value: Value, format: int, encode: Encoder): Result<Value> {
    var first :- FirstOf(value);
    if IsAccountId32(first) then Ok(Str(encode(Bytes(first.items), format))) else Ok(value)
  }

  predicate IsSequence(value: Value) {
    value.List? || value.TupleOf?
  }

  /** `convert_account_ids`: every recursive call gets a strictly shorter name. (The branch for a doubly
      nested vector can never be reached, as the one for a vector comes first.) */
  function Convert(value: Value, typeName: string, format: int, encode: Encoder): Result<Value>
    decreases |typeName|, 1, 0
  {
    if !Contains(typeName, ACCOUNT) then Ok(value)
    else if "Option<" <= typeName && value != Null then
      Convert(value, Slice(typeName, 7, 1), DEFAULT_FORMAT, encode)
    else if "Vec<" <= typeName && IsSequence(value) then
      var items :- ConvertEach(value.items, Slice(typeName, 4, 1), encode);
      Ok(TupleOf(items))
    else if "(" <= typeName && IsSequence(value) then
      var items :- ConvertZip(value.items, SplitTuple(typeName), |typeName|, encode);
      Ok(TupleOf(items))
    else if typeName == ACCOUNT then
      ConvertLeaf(value, format, encode)
    else Ok(value)
  }

  function ConvertEach(items: seq<Value>, typeName: string, encode: Encoder): Result<seq<Value>>
    decreases |typeName|, 2, |items|
  {
    if items == [] then Ok([])
    else
      var head :- Convert(items[0], typeName, DEFAULT_FORMAT, encode);
      var tail :- ConvertEach(items[1..], typeName, encode);
      Ok([head] + tail)
  }

  function ConvertZip(items: seq<Value>, typeNames: seq<string>, bound: nat, encode: Encoder): Result<seq<Value>>
    requires forall i :: 0 <= i < |typeNames| ==> |typeNames[i]| < bound
    decreases bound, 0, |items|
  {
    if items == [] || typeNames == [] then Ok([])
    else
      var head :- Convert(items[0], typeNames[0], DEFAULT_FORMAT, encode);
      var tail :- ConvertZip(items[1..], typeNames[1..], bound, encode);
      Ok([head] + tail)
  }

  /* ---------- The reference ---------- */

  /** Some name in the type contains the account type's name. */
  predicate Mentions(t: Type)
    decreases t, 1
  {
    match t
    case Named(name) => Contains(name, ACCOUNT)
    case Generic(name, args) => Contains(name, ACCOUNT) || SomeMentions(args)
    case Tuple(members) => SomeMentions(members)
    case Array(element, _) => Mentions(element)
  }

  predicate SomeMentions(ts: seq<Type>)
    decreases ts, 0
  {
    ts != [] && (Mentions(ts[0]) || SomeMentions(ts[1..]))
  }

  /** Wherever accounts are looked for, no tuple has a member whose name shows a bare comma. */
  predicate FlatWhereRead(t: Type)
    decreases t, 1
  {
    !Mentions(t) ||
    match t
    case Named(_) => true
    case Generic(name, args) => name in {"Option", "Vec"} && |args| == 1 ==> FlatWhereRead(args[0])
    case Tuple(members) => BareCommasOfAll(members) == 0 && AllFlatWhereRead(members)
    case Array(_, _) => true
  }

  predicate AllFlatWhereRead(ts: seq<Type>)
    decreases ts, 0
  {
    ts == [] || (FlatWhereRead(ts[0]) && AllFlatWhereRead(ts[1..]))
  }

  /** Rewrites exactly the `AccountId32` leaves reached through options, vectors and tuples. The leaf at
      the root uses format `atRoot`, the others `below`. */
  function Rewrite(value: Value, t: Type, atRoot: int, below: int, encode: Encoder): Result<Value>
    decreases t, 2, 0
  {
    if !Mentions(t) then Ok(value)
    else match t
      case Named(name) => if name == ACCOUNT then ConvertLeaf(value, atRoot, encode) else Ok(value)
      case Generic(name, args) =>
        if name == "Option" && |args| == 1 && value != Null then
          Rewrite(value, args[0], below, below, encode)
        else if name == "Vec" && |args| == 1 && IsSequence(value) then
          var items :- RewriteEach(value.items, args[0], below, encode);
          Ok(TupleOf(items))
        else Ok(value)
      case Tuple(members) =>
        if IsSequence(value) then
          var items :- RewriteZip(value.items, members, below, encode);
          Ok(TupleOf(items))
        else Ok(value)
      case Array(_, _) => Ok(value)
  }

  function RewriteEach(items: seq<Value>, t: Type, format: int, encode: Encoder): Result<seq<Value>>
    decreases t, 3, |items|
  {
    if items == [] then Ok([])
    else
      var head :- Rewrite(items[0], t, format, format, encode);
      var tail :- RewriteEach(items[1..], t, format, encode);
      Ok([head] + tail)
  }

  function RewriteZip(items: seq<Value>, ts: seq<Type>, format: int, encode: Encoder): Result<seq<Value>>
    decreases ts, 1, |items|
  {
    if items == [] || ts == [] then Ok([])
    else
      var head :- Rewrite(items[0], ts[0], format, format, encode);
      var tail :- RewriteZip(items[1..], ts[1..], format, encode);
      Ok([head] + tail)
  }

  /* ---------- Searching a printed name ---------- */

  lemma BracketedMentions(left: char, inner: string, right: char)
    requires left !in ACCOUNT && right !in ACCOUNT
    ensures Contains([left] + inner + [right], ACCOUNT) <==> Contains(inner, ACCOUNT)
  {
    hide Contains;
    ContainsNot("", ACCOUNT);
    ContainsAcross("", left, inner, ACCOUNT);
    ContainsAcross([left] + inner, right, "", ACCOUNT);
    assert "" + [left] + inner == [left] + inner;
    assert [left] + inner + [right] + "" == [left] + inner + [right];
  }

  lemma LengthMentions(inner: string, length: nat)
    ensures Contains(inner + ("; " + Decimal(length)), ACCOUNT) <==> Contains(inner, ACCOUNT)
  {
    hide Contains;
    DecimalDigits(length);
    ContainsNot(" " + Decimal(length), ACCOUNT);
    ContainsAcross(inner, ';', " " + Decimal(length), ACCOUNT);
    assert inner + ";" + (" " + Decimal(length)) == inner + ("; " + Decimal(length));
  }

  lemma GenericMentions(name: string, inner: string)
    ensures Contains(name + "<" + inner + ">", ACCOUNT) <==> Contains(name, ACCOUNT) || Contains(inner, ACCOUNT)
  {
    hide Contains;
    ContainsNot("", ACCOUNT);
    ContainsAcross(name, '<', inner, ACCOUNT);
    ContainsAcross(name + "<" + inner, '>', "", ACCOUNT);
    assert name + "<" + inner + ">" + "" == name + "<" + inner + ">";
  }

  lemma {:induction false} PrintMentions(t: Type)
    requires Nameable(t)
    ensures Contains(Print(t), ACCOUNT) <==> Mentions(t)
    decreases t, 1
  {
    hide Contains;
    match t {
      case Named(_) =>
      case Generic(name, args) =>
        JoinMentions(args);
        GenericMentions(name, Join(PrintAll(args)));
      case Tuple(members) =>
        JoinMentions(members);
        BracketedMentions('(', Join(PrintAll(members)), ')');
      case Array(element, length) =>
        PrintMentions(element);
        var inner := Print(element);
        if length != 0 {
          var suffix := "; " + Decimal(length);
          LengthMentions(inner, length);
          BracketedMentions('[', inner + suffix, ']');
          assert "[" + (inner + suffix) == "[" + inner + suffix;
        } else {
          BracketedMentions('[', inner, ']');
          assert "[" + inner + "" == "[" + inner;
        }
    }
  }

  lemma CommaMentions(a: string, b: string)
    ensures Contains(a + ", " + b, ACCOUNT) <==> Contains(a, ACCOUNT) || Contains(b, ACCOUNT)
  {
    hide Contains;
    ContainsNot("", ACCOUNT);
    ContainsAcross("", ' ', b, ACCOUNT);
    assert "" + " " + b == " " + b;
    ContainsAcross(a, ',', " " + b, ACCOUNT);
    assert a + "," + (" " + b) == a + ", " + b;
  }

  lemma {:induction false} JoinMentions(ts: seq<Type>)
    requires AllNameable(ts)
    ensures Contains(Join(PrintAll(ts)), ACCOUNT) <==> SomeMentions(ts)
    decreases ts, 0
  {
    hide Contains;
    ContainsNot("", ACCOUNT);
    if ts != [] {
      PrintMentions(ts[0]);
      JoinMentions(ts[1..]);
      if |ts| == 1 {
        assert PrintAll(ts) == [Print(ts[0])];
      } else {
        var first, rest := Print(ts[0]), Join(PrintAll(ts[1..]));
        assert PrintAll(ts) == [first] + PrintAll(ts[1..]);
        assert Join(PrintAll(ts)) == first + ", " + rest;
        hide *;
        CommaMentions(first, rest);
      }
    }
  }

  lemma IdentPrefix(a: string, rest: string, p: string)
    requires Ident(a) && Ident(p)
    ensures p + "<" <= a + "<" + rest <==> a == p
  {
    var s, q := a + "<" + rest, p + "<";
    assert s[|a|] == '<' && q[|p|] == '<';
    if |a| < |p| {
      assert q[|a|] == p[|a|];
    } else if |p| < |a| {
      assert s[|p|] == a[|p|];
    } else {
      assert s[..|a|] == a && q[..|p|] == p;
      assert s[..|q|] == a + "<";
    }
  }

  /** Only a generic type of the name `p` prints with `p` and a bracket in front. */
  lemma PrefixShows(t: Type, p: string)
    requires Nameable(t) && Ident(p)
    ensures p + "<" <= Print(t) <==> t.Generic? && t.name == p
  {
    PrintEnds(t);
    assert (p + "<")[0] == p[0] && (p + "<")[|p|] == '<';
    match t {
      case Generic(name, args) =>
        IdentPrefix(name, Join(PrintAll(args)) + ">", p);
        assert name + "<" + (Join(PrintAll(args)) + ">") == Print(t);
      case Named(name) =>
        if |p| < |name| {
          assert IdentChar(name[|p|]);
        }
      case Tuple(_) =>
      case Array(_, _) =>
    }
  }

  lemma PrintIsAccount(t: Type)
    requires Nameable(t)
    ensures Print(t) == ACCOUNT <==> t == Named(ACCOUNT)
  {
    PrintEnds(t);
    assert forall i :: 0 <= i < |ACCOUNT| ==> ACCOUNT[i] != '<';
    if t.Generic? {
      assert Print(t)[|t.name|] == '<';
    }
  }

  lemma SliceArgument(prefix: string, inner: string)
    ensures Slice(prefix + inner + ">", |prefix|, 1) == inner
  {
  }

  lemma ConvertOption(value: Value, typeName: string, inner: string, format: int, encode: Encoder)
    requires typeName == "Option<" + inner + ">" && Contains(typeName, ACCOUNT) && value != Null
    ensures Convert(value, typeName, format, encode) == Convert(value, inner, DEFAULT_FORMAT, encode)
  {
    hide Contains;
    SliceArgument("Option<", inner);
  }

  lemma ConvertVec(value: Value, typeName: string, inner: string, format: int, encode: Encoder)
    requires typeName == "Vec<" + inner + ">" && Contains(typeName, ACCOUNT) && IsSequence(value)
    ensures Convert(value, typeName, format, encode)
            == match ConvertEach(value.items, inner, encode)
               case Ok(items) => Ok(TupleOf(items))
               case Err(error) => Err(error)
  {
    hide Contains;
    SliceArgument("Vec<", inner);
    assert typeName[0] == 'V';
  }

  /* ---------- The reader is the reference ---------- */

  /** Converting by the printed name is rewriting by the type: for every type whose names are identifiers
      and whose tuples, where accounts are looked for, have no member with a bare comma, every value, format
      and encoder. Only the leaf at the root sees the caller's format. */
  lemma {:induction false} ConvertIsRewrite(value: Value, t: Type, format: int, encode: Encoder)
    requires Nameable(t) && FlatWhereRead(t)
    ensures Convert(value, Print(t), format, encode) == Rewrite(value, t, format, DEFAULT_FORMAT, encode)
    decreases t, 2, 0
  {
    hide Contains, Convert;
    PrintMentions(t);
    if !Mentions(t) {
      ConvertOther(value, t, format, encode);
    } else if t.Generic? && t.name == "Option" && value != Null {
      assert Print(t) == "Option<" + Print(t.args[0]) + ">" by {
        assert PrintAll(t.args) == [Print(t.args[0])];
      }
      ConvertOption(value, Print(t), Print(t.args[0]), format, encode);
      ConvertIsRewrite(value, t.args[0], DEFAULT_FORMAT, encode);
    } else if t.Generic? && t.name == "Vec" && IsSequence(value) {
      assert Print(t) == "Vec<" + Print(t.args[0]) + ">" by {
        assert PrintAll(t.args) == [Print(t.args[0])];
      }
      ConvertVec(value, Print(t), Print(t.args[0]), format, encode);
      EachIsRewrite(value.items, t.args[0], encode);
    } else if t.Tuple? && IsSequence(value) {
      ConvertTuple(value, t.members, format, encode);
      ZipIsRewrite(value.items, t.members, |Print(t)|, encode);
    } else {
      ConvertOther(value, t, format, encode);
    }
  }

  lemma ConvertTuple(value: Value, members: seq<Type>, format: int, encode: Encoder)
    requires Nameable(Tuple(members)) && BareCommasOfAll(members) == 0
    requires Contains(Print(Tuple(members)), ACCOUNT) && IsSequence(value)
    ensures forall i :: 0 <= i < |members| ==> |PrintAll(members)[i]| < |Print(Tuple(members))|
    ensures Convert(value, Print(Tuple(members)), format, encode)
            == match ConvertZip(value.items, PrintAll(members), |Print(Tuple(members))|, encode)
               case Ok(items) => Ok(TupleOf(items))
               case Err(error) => Err(error)
  {
    hide Contains;
    SplitPrinted(members);
    PrefixShows(Tuple(members), "Option");
    PrefixShows(Tuple(members), "Vec");
    PrintEnds(Tuple(members));
  }

  /** Everything that is not taken apart: either no account is named, or the value does not fit. */
  lemma ConvertOther(value: Value, t: Type, format: int, encode: Encoder)
    requires Nameable(t)
    requires Contains(Print(t), ACCOUNT) ==>
               && !(t.Generic? && t.name == "Option" && value != Null)
               && !(t.Generic? && t.name == "Vec" && IsSequence(value))
               && !(t.Tuple? && IsSequence(value))
    ensures Convert(value, Print(t), format, encode)
            == if Contains(Print(t), ACCOUNT) && t == Named(ACCOUNT) then ConvertLeaf(value, format, encode) else Ok(value)
  {
    hide Contains;
    PrefixShows(t, "Option");
    PrefixShows(t, "Vec");
    PrintEnds(t);
    PrintIsAccount(t);
  }

  lemma {:induction false} EachIsRewrite(items: seq<Value>, t: Type, encode: Encoder)
    requires Nameable(t) && FlatWhereRead(t)
    ensures ConvertEach(items, Print(t), encode) == RewriteEach(items, t, DEFAULT_FORMAT, encode)
    decreases t, 3, |items|
  {
    if items != [] {
      ConvertIsRewrite(items[0], t, DEFAULT_FORMAT, encode);
      EachIsRewrite(items[1..], t, encode);
    }
  }

  lemma {:induction false} ZipIsRewrite(items: seq<Value>, ts: seq<Type>, bound: nat, encode: Encoder)
    requires AllNameable(ts) && AllFlatWhereRead(ts)
    requires forall i :: 0 <= i < |ts| ==> |PrintAll(ts)[i]| < bound
    ensures ConvertZip(items, PrintAll(ts), bound, encode) == RewriteZip(items, ts, DEFAULT_FORMAT, encode)
    decreases ts, 1, |items|
  {
    if items != [] && ts != [] {
      ConvertIsRewrite(items[0], ts[0], DEFAULT_FORMAT, encode);
      assert PrintAll(ts)[1..] == PrintAll(ts[1..]);
      ZipIsRewrite(items[1..], ts[1..], bound, encode);
    }
  }

  /* ---------- Which format is used ---------- */

  /** An account leaf is reached through options, vectors and tuples. */
  predicate Reaches(t: Type)
    decreases t, 1
  {
    match t
    case Named(name) => name == ACCOUNT
    case Generic(name, args) => name in {"Option", "Vec"} && |args| == 1 && Reaches(args[0])
    case Tuple(members) => SomeReaches(members)
    case Array(_, _) => false
  }

  predicate SomeReaches(ts: seq<Type>)
    decreases ts, 0
  {
    ts != [] && (Reaches(ts[0]) || SomeReaches(ts[1..]))
  }

  lemma {:induction false} ReachesMentions(t: Type)
    requires Reaches(t)
    ensures Mentions(t)
    decreases t, 1
  {
    match t {
      case Named(_) => ContainsAt(ACCOUNT, ACCOUNT, 0);
      case Generic(_, args) => ReachesMentions(args[0]);
      case Tuple(members) => SomeReachesMentions(members);
    }
  }

  lemma {:induction false} SomeReachesMentions(ts: seq<Type>)
    requires SomeReaches(ts)
    ensures SomeMentions(ts)
    decreases ts, 0
  {
    if Reaches(ts[0]) {
      ReachesMentions(ts[0]);
    } else {
      SomeReachesMentions(ts[1..]);
    }
  }

  /** A value that exercises every leaf of a type. */
  function Sample(t: Type): (v: Value)
    ensures v != Null
    decreases t, 1
  {
    match t
    case Named(name) => if name == ACCOUNT then TupleOf([TupleOf(ZeroAccount())]) else Int(0)
    case Generic(name, args) =>
      if name == "Option" && |args| == 1 then Sample(args[0])
      else if name == "Vec" && |args| == 1 then TupleOf([Sample(args[0])])
      else Int(0)
    case Tuple(members) => TupleOf(SampleAll(members))
    case Array(_, _) => Int(0)
  }

  function SampleAll(ts: seq<Type>): seq<Value>
    decreases ts, 0
  {
    if ts == [] then [] else [Sample(ts[0])] + SampleAll(ts[1..])
  }

  function ZeroAccount(): seq<Value> {
    seq(32, _ => Int(0))
  }

  ghost predicate Distinguishes(encode: Encoder, f: int, g: int) {
    encode(Bytes(ZeroAccount()), f) != encode(Bytes(ZeroAccount()), g)
  }

  lemma {:induction false} SampleShowsFormat(t: Type, f: int, g: int, encode: Encoder)
    requires Distinguishes(encode, f, g)
    ensures Rewrite(Sample(t), t, f, f, encode).Ok?
    ensures Reaches(t) ==> Rewrite(Sample(t), t, f, f, encode) != Rewrite(Sample(t), t, g, g, encode)
    decreases t, 1
  {
    hide Contains;
    if Reaches(t) {
      ReachesMentions(t);
    }
    match t {
      case Named(_) =>
        assert FirstOf(TupleOf([TupleOf(ZeroAccount())])) == Ok(TupleOf(ZeroAccount()));
      case Generic(name, args) =>
        if name in {"Option", "Vec"} && |args| == 1 {
          SampleShowsFormat(args[0], f, g, encode);
          OneRewritten(Sample(args[0]), args[0], f, encode);
          OneRewritten(Sample(args[0]), args[0], g, encode);
        }
      case Tuple(members) =>
        SamplesShowFormat(members, f, g, encode);
      case Array(_, _) =>
    }
  }

  lemma OneRewritten(v: Value, t: Type, f: int, encode: Encoder)
    ensures RewriteEach([v], t, f, encode)
            == match Rewrite(v, t, f, f, encode) case Ok(w) => Ok([w]) case Err(error) => Err(error)
  {
    assert [v][1..] == [];
    match Rewrite(v, t, f, f, encode) {
      case Ok(w) => assert [w] + [] == [w];
      case Err(_) =>
    }
  }

  lemma {:induction false} SamplesShowFormat(ts: seq<Type>, f: int, g: int, encode: Encoder)
    requires Distinguishes(encode, f, g)
    ensures RewriteZip(SampleAll(ts), ts, f, encode).Ok?
    ensures SomeReaches(ts) ==> RewriteZip(SampleAll(ts), ts, f, encode) != RewriteZip(SampleAll(ts), ts, g, encode)
    decreases ts, 0
  {
    if ts != [] {
      hide Rewrite, Sample, Reaches;
      SampleShowsFormat(ts[0], f, g, encode);
      SampleShowsFormat(ts[0], g, f, encode);
      SamplesShowFormat(ts[1..], f, g, encode);
      SamplesShowFormat(ts[1..], g, f, encode);
      assert SampleAll(ts)[1..] == SampleAll(ts[1..]);
      var head, head' := Rewrite(Sample(ts[0]), ts[0], f, f, encode), Rewrite(Sample(ts[0]), ts[0], g, g, encode);
      var tail, tail' := RewriteZip(SampleAll(ts[1..]), ts[1..], f, encode), RewriteZip(SampleAll(ts[1..]), ts[1..], g, encode);
      assert ([head.value] + tail.value)[0] == head.value && ([head.value] + tail.value)[1..] == tail.value;
      assert ([head'.value] + tail'.value)[0] == head'.value && ([head'.value] + tail'.value)[1..] == tail'.value;
    }
  }

  lemma {:induction false} UnreachedFormat(value: Value, t: Type, f: int, g: int, encode: Encoder)
    requires !Reaches(t)
    ensures Rewrite(value, t, f, f, encode) == Rewrite(value, t, g, g, encode)
    decreases t, 2, 0
  {
    hide Contains;
    if t.Generic? && t.name == "Option" && |t.args| == 1 {
      UnreachedFormat(value, t.args[0], f, g, encode);
    } else if t.Generic? && t.name == "Vec" && |t.args| == 1 && IsSequence(value) {
      UnreachedEach(value.items, t.args[0], f, g, encode);
    } else if t.Tuple? && IsSequence(value) {
      UnreachedZip(value.items, t.members, f, g, encode);
    }
  }

  lemma {:induction false} UnreachedEach(items: seq<Value>, t: Type, f: int, g: int, encode: Encoder)
    requires !Reaches(t)
    ensures RewriteEach(items, t, f, encode) == RewriteEach(items, t, g, encode)
    decreases t, 3, |items|
  {
    if items != [] {
      UnreachedFormat(items[0], t, f, g, encode);
      UnreachedEach(items[1..], t, f, g, encode);
    }
  }

  lemma {:induction false} UnreachedZip(items: seq<Value>, ts: seq<Type>, f: int, g: int, encode: Encoder)
    requires !SomeReaches(ts)
    ensures RewriteZip(items, ts, f, encode) == RewriteZip(items, ts, g, encode)
    decreases ts, 1, |items|
  {
    if items != [] && ts != [] {
      UnreachedFormat(items[0], ts[0], f, g, encode);
      UnreachedZip(items[1..], ts[1..], f, g, encode);
    }
  }

  lemma RootFormatOnly(value: Value, t: Type, format: int, below: int, encode: Encoder)
    ensures Rewrite(value, t, format, below, encode)
            == if t.Named? then Rewrite(value, t, format, format, encode) else Rewrite(value, t, below, below, encode)
  {
  }
}
