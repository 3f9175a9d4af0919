/** When converting by a name is right: a condition on any string and any type, and that it suffices. */
module TypeReading {
  import opened Text
  import opened TupleFragments
  import opened TypeReader
  import opened TypeSyntax

  /* ---------- Values of a type ---------- */

  /** The shapes that decoding gives the values of a type, as far as the reader takes them apart. */
  predicate Fits(v: Value, t: Type)
    decreases t, 1, 0
  {
    match t
    case Named(_) => true
    case Generic(name, args) =>
      if name == "Option" && |args| == 1 then v == Null || Fits(v, args[0])
      else if name == "Vec" && |args| == 1 then IsSequence(v) && EachFits(v.items, args[0])
      else true
    case Tuple(members) => IsSequence(v) && AllFit(v.items, members)
    case Array(_, _) => true
  }

  predicate EachFits(items: seq<Value>, t: Type)
    decreases t, 2, |items|
  {
    items == [] || (Fits(items[0], t) && EachFits(items[1..], t))
  }

  predicate AllFit(items: seq<Value>, ts: seq<Type>)
    decreases ts, 0, |items|
  {
    if items == [] || ts == [] then items == [] && ts == []
    else Fits(items[0], ts[0]) && AllFit(items[1..], ts[1..])
  }

  /* ---------- Types and names that change values ---------- */

  /** Some value of the type is rewritten: it holds an account, or is a list that becomes a tuple. */
  predicate Acts(t: Type)
    decreases t
  {
    Mentions(t) &&
    match t
    case Named(name) => name == ACCOUNT
    case Generic(name, args) => if name == "Option" && |args| == 1 then Acts(args[0]) else name == "Vec" && |args| == 1
    case Tuple(_) => true
    case Array(_, _) => false
  }

  predicate SomeActs(ts: seq<Type>) {
    ts != [] && (Acts(ts[0]) || SomeActs(ts[1..]))
  }

  /** Converting by the name changes some value. */
  predicate NameActs(s: string)
    decreases |s|
  {
    Contains(s, ACCOUNT) &&
    if "Option<" <= s then NameActs(Slice(s, 7, 1)) else "Vec<" <= s || "(" <= s || s == ACCOUNT
  }

  predicate SomeNameActs(names: seq<string>) {
    names != [] && (NameActs(names[0]) || SomeNameActs(names[1..]))
  }

  /* ---------- The condition ---------- */

  predicate Optional(t: Type) {
    t.Generic? && t.name == "Option" && |t.args| == 1
  }

  /** A byte, or the bytes of an account, can be a value of the type. */
  predicate FitsByte(t: Type)
    decreases t
  {
    match t
    case Generic(name, args) => if Optional(t) then FitsByte(args[0]) else !(name == "Vec" && |args| == 1)
    case Tuple(_) => false
    case _ => true
  }

  predicate AllFitByte(ts: seq<Type>) {
    ts == [] || (FitsByte(ts[0]) && AllFitByte(ts[1..]))
  }

  predicate FitsAccount(t: Type)
    decreases t
  {
    match t
    case Generic(name, args) =>
      if Optional(t) then FitsAccount(args[0]) else name == "Vec" && |args| == 1 ==> FitsByte(args[0])
    case Tuple(members) => |members| == 32 && AllFitByte(members)
    case _ => true
  }

  /** The names that the items of a sequence of length `n` meet: those of a tuple, or the one of a vector. */
  function NamesMet(s: string, n: nat): (names: seq<string>)
    ensures s != "" ==> forall i :: 0 <= i < |names| ==> |names[i]| < |s|
  {
    if "Vec<" <= s then seq(n, _ => Slice(s, 4, 1)) else SplitTuple(s)
  }

  /** Whether converting by the name `s`, whatever string it is, is the rewriting that `t` calls for, over all
      values of `t`. Decided by recursion over the name and the type. */
  predicate Reads(s: string, t: Type)
    decreases t, 2, 0
  {
    ReadsPresent(s, t) && (Fits(Null, t) ==> (s == ACCOUNT <==> t == Named(ACCOUNT)))
  }

  /** The same over the values that are not `Null`: options do not matter, neither in the name nor in the type.
      A type whose values stay what they are needs a name that does nothing to them. Vectors and tuples need
      names of sequences, with a name for every member that reads it. */
  predicate ReadsPresent(s: string, t: Type)
    decreases t, 1, |s|
  {
    if Optional(t) then ReadsPresent(s, t.args[0])
    else if Contains(s, ACCOUNT) && "Option<" <= s then ReadsPresent(Slice(s, 7, 1), t)
    else if !Acts(t) then !NameActs(s) || (s == ACCOUNT && t.Tuple? && t.members != [] && !FitsAccount(t.members[0]))
    else match t
      case Named(_) => s == ACCOUNT
      case Generic(_, args) => Contains(s, ACCOUNT) && "Vec<" <= s && Reads(Slice(s, 4, 1), args[0])
      case Tuple(members) =>
        Contains(s, ACCOUNT) && ("Vec<" <= s || "(" <= s) && MembersRead(NamesMet(s, |members|), members)
  }

  /** Each member is read right by the name it meets. */
  predicate MembersRead(names: seq<string>, ts: seq<Type>)
    decreases ts, 0, 0
  {
    ts == [] || (names != [] && Reads(names[0], ts[0]) && MembersRead(names[1..], ts[1..]))
  }

  /** A type is read right by its own name. */
  predicate ReadsRight(t: Type) {
    Reads(Print(t), t)
  }

  /* ---------- Idle names and idle types ---------- */

  lemma {:induction false} IdleName(v: Value, s: string, format: int, encode: Encoder)
    requires !NameActs(s)
    ensures Convert(v, s, format, encode) == Ok(v)
    decreases |s|
  {
    hide Contains;
    if Contains(s, ACCOUNT) && "Option<" <= s {
      assert s[0] == 'O';
      if v != Null {
        IdleName(v, Slice(s, 7, 1), DEFAULT_FORMAT, encode);
      }
    }
  }

  lemma {:induction false} IdleType(v: Value, t: Type, f: int, g: int, encode: Encoder)
    requires !Acts(t)
    ensures Rewrite(v, t, f, g, encode) == Ok(v)
    decreases t
  {
    if Mentions(t) && t.Generic? && t.name == "Option" && |t.args| == 1 && v != Null {
      IdleType(v, t.args[0], g, g, encode);
    }
  }

  lemma OptionPrinted(t: Type)
    requires t.Generic? && t.name == "Option" && |t.args| == 1
    ensures Print(t) == "Option<" + Print(t.args[0]) + ">"
  {
    assert PrintAll(t.args) == [Print(t.args[0])];
  }

  lemma {:induction false} NameActsPrinted(t: Type)
    requires Nameable(t)
    ensures NameActs(Print(t)) <==> Acts(t)
    decreases t
  {
    hide Contains, Print, PrintAll, Join;
    PrintMentions(t);
    PrintEnds(t);
    PrefixShows(t, "Option");
    PrefixShows(t, "Vec");
    PrintIsAccount(t);
    if t.Generic? && t.name == "Option" {
      OptionPrinted(t);
      SliceArgument("Option<", Print(t.args[0]));
      NameActsPrinted(t.args[0]);
    }
  }

  lemma {:induction false} IdleZip(items: seq<Value>, names: seq<string>, bound: nat, encode: Encoder)
    requires !SomeNameActs(names) && |items| <= |names|
    requires forall i :: 0 <= i < |names| ==> |names[i]| < bound
    ensures ConvertZip(items, names, bound, encode) == Ok(items)
    decreases |items|
  {
    hide NameActs, Convert;
    if items != [] {
      IdleName(items[0], names[0], DEFAULT_FORMAT, encode);
      IdleZip(items[1..], names[1..], bound, encode);
      assert [items[0]] + items[1..] == items;
    }
  }

  lemma {:induction false} IdleMembers(items: seq<Value>, ts: seq<Type>, f: int, encode: Encoder)
    requires !SomeActs(ts) && |items| == |ts|
    ensures RewriteZip(items, ts, f, encode) == Ok(items)
    decreases |items|
  {
    hide Acts, Rewrite;
    if items != [] {
      IdleType(items[0], ts[0], f, f, encode);
      IdleMembers(items[1..], ts[1..], f, encode);
      assert [items[0]] + items[1..] == items;
    }
  }

  lemma {:induction false} SomeNameActsConcat(a: seq<string>, b: seq<string>)
    ensures SomeNameActs(a + b) <==> SomeNameActs(a) || SomeNameActs(b)
  {
    hide NameActs;
    if a == [] {
      assert a + b == b;
    } else {
      assert (a + b)[1..] == a[1..] + b;
      SomeNameActsConcat(a[1..], b);
    }
  }

  lemma {:induction false} PlainNames(names: seq<string>)
    requires forall i :: 0 <= i < |names| ==> !Contains(names[i], ACCOUNT)
    ensures !SomeNameActs(names)
  {
    hide Contains;
    if names != [] {
      PlainNames(names[1..]);
    }
  }

  /* ---------- Where the condition holds ---------- */

  lemma ConvertMembers(v: Value, members: seq<Type>, format: int, encode: Encoder)
    requires AllNameable(members) && SomeMentions(members) && IsSequence(v)
    ensures forall i :: 0 <= i < |AllFragments(members)| ==> |AllFragments(members)[i]| < |Print(Tuple(members))|
    ensures Convert(v, Print(Tuple(members)), format, encode)
            == match ConvertZip(v.items, AllFragments(members), |Print(Tuple(members))|, encode)
               case Ok(items) => Ok(TupleOf(items))
               case Err(error) => Err(error)
  {
    hide Contains;
    PrintMentions(Tuple(members));
    SplitIsFragments(members);
    PrefixShows(Tuple(members), "Option");
    PrefixShows(Tuple(members), "Vec");
    PrintEnds(Tuple(members));
  }

  lemma Account()
    ensures Contains(ACCOUNT, ACCOUNT)
  {
    assert OccursAt(ACCOUNT, ACCOUNT, 0);
    ContainsAt(ACCOUNT, ACCOUNT, 0);
  }

  /** What the first step of converting does, by the beginning of the name. */
  lemma ConvertPresent(v: Value, s: string, encode: Encoder)
    requires Contains(s, ACCOUNT) && "Option<" <= s && v != Null
    ensures Convert(v, s, DEFAULT_FORMAT, encode) == Convert(v, Slice(s, 7, 1), DEFAULT_FORMAT, encode)
  {
    hide Contains;
  }

  lemma {:induction false} ConvertLength(items: seq<Value>, name: string, bound: nat, encode: Encoder)
    requires |name| < bound
    ensures ConvertEach(items, name, encode) == ConvertZip(items, seq(|items|, _ => name), bound, encode)
    decreases |items|
  {
    hide Convert;
    if items != [] {
      ConvertLength(items[1..], name, bound, encode);
      assert seq(|items|, _ => name)[1..] == seq(|items| - 1, _ => name);
    }
  }

  lemma ConvertSequence(v: Value, s: string, format: int, encode: Encoder)
    requires Contains(s, ACCOUNT) && ("Vec<" <= s || "(" <= s) && IsSequence(v)
    ensures s != ""
    ensures Convert(v, s, format, encode)
            == match ConvertZip(v.items, NamesMet(s, |v.items|), |s|, encode)
               case Ok(items) => Ok(TupleOf(items))
               case Err(error) => Err(error)
  {
    hide Contains;
    assert s[0] == 'V' || s[0] == '(';
    if "Vec<" <= s {
      ConvertLength(v.items, Slice(s, 4, 1), |s|, encode);
    }
  }

  lemma RewritePresent(v: Value, t: Type, f: int, g: int, encode: Encoder)
    requires Optional(t) && v != Null
    ensures Rewrite(v, t, f, g, encode) == Rewrite(v, t.args[0], g, g, encode)
  {
    hide Contains;
    assert Mentions(t.args[0]) ==> SomeMentions(t.args);
  }

  lemma {:induction false} ByteFits(v: Value, t: Type)
    requires IsByte(v) && Fits(v, t)
    ensures FitsByte(t)
    decreases t
  {
    if Optional(t) {
      ByteFits(v, t.args[0]);
    }
  }

  lemma {:induction false} BytesFit(items: seq<Value>, ts: seq<Type>)
    requires AllFit(items, ts) && forall i :: 0 <= i < |items| ==> IsByte(items[i])
    ensures AllFitByte(ts)
    decreases |items|
  {
    if items != [] {
      ByteFits(items[0], ts[0]);
      BytesFit(items[1..], ts[1..]);
    }
  }

  /** A type that cannot hold the bytes of an account has no such value. */
  lemma {:induction false} AccountFits(v: Value, t: Type)
    requires IsAccountId32(v) && Fits(v, t)
    ensures FitsAccount(t)
    decreases t
  {
    hide FitsByte, AllFitByte;
    match t {
      case Generic(name, args) =>
        if Optional(t) {
          AccountFits(v, args[0]);
        } else if name == "Vec" && |args| == 1 {
          assert EachFits(v.items, args[0]) && Fits(v.items[0], args[0]);
          ByteFits(v.items[0], args[0]);
        }
      case Tuple(members) =>
        AllFitCount(v.items, members);
        BytesFit(v.items, members);
      case _ =>
    }
  }

  /** A sequence whose first item cannot be an account is left alone by the account's own name. */
  lemma NoLeaf(v: Value, members: seq<Type>, format: int, encode: Encoder)
    requires Fits(v, Tuple(members)) && members != [] && !FitsAccount(members[0])
    ensures ConvertLeaf(v, format, encode) == Ok(v)
  {
    assert v.items != [] && Fits(v.items[0], members[0]);
    assert FirstOf(v) == Ok(v.items[0]);
    if IsAccountId32(v.items[0]) {
      AccountFits(v.items[0], members[0]);
    }
  }

  lemma ConvertAccount(v: Value, format: int, encode: Encoder)
    ensures Convert(v, ACCOUNT, format, encode) == ConvertLeaf(v, format, encode)
  {
    Account();
    hide Contains;
    assert ACCOUNT[0] == 'A';
  }

  lemma RewriteAccount(v: Value, f: int, g: int, encode: Encoder)
    ensures Rewrite(v, Named(ACCOUNT), f, g, encode) == ConvertLeaf(v, f, encode)
  {
    Account();
  }

  /** Where the condition holds, converting is rewriting, errors included. */
  lemma {:induction false} PresentConverts(v: Value, s: string, t: Type, encode: Encoder)
    requires ReadsPresent(s, t) && Fits(v, t) && v != Null
    ensures Convert(v, s, DEFAULT_FORMAT, encode) == Rewrite(v, t, DEFAULT_FORMAT, DEFAULT_FORMAT, encode)
    decreases t, 1, |s|
  {
    hide Contains, Convert, ConvertLeaf, Rewrite, NameActs, FitsAccount;
    if Optional(t) {
      RewritePresent(v, t, DEFAULT_FORMAT, DEFAULT_FORMAT, encode);
      PresentConverts(v, s, t.args[0], encode);
    } else if Contains(s, ACCOUNT) && "Option<" <= s {
      ConvertPresent(v, s, encode);
      PresentConverts(v, Slice(s, 7, 1), t, encode);
    } else if !Acts(t) {
      IdleType(v, t, DEFAULT_FORMAT, DEFAULT_FORMAT, encode);
      if !NameActs(s) {
        IdleName(v, s, DEFAULT_FORMAT, encode);
      } else {
        ConvertAccount(v, DEFAULT_FORMAT, encode);
        NoLeaf(v, t.members, DEFAULT_FORMAT, encode);
      }
    } else {
      ActingConverts(v, s, t, encode);
    }
  }

  lemma {:induction false} ActingConverts(v: Value, s: string, t: Type, encode: Encoder)
    requires Acts(t) && !Optional(t) && !(Contains(s, ACCOUNT) && "Option<" <= s)
    requires ReadsPresent(s, t) && Fits(v, t) && v != Null
    ensures Convert(v, s, DEFAULT_FORMAT, encode) == Rewrite(v, t, DEFAULT_FORMAT, DEFAULT_FORMAT, encode)
    decreases t, 0, 0
  {
    hide Contains, Convert, ConvertZip, ConvertEach, ConvertLeaf, NameActs, FitsAccount, Reads, Slice;
    match t {
      case Named(_) =>
        ConvertAccount(v, DEFAULT_FORMAT, encode);
        RewriteAccount(v, DEFAULT_FORMAT, DEFAULT_FORMAT, encode);
      case Generic(_, args) =>
        ConvertSequence(v, s, DEFAULT_FORMAT, encode);
        ConvertLength(v.items, Slice(s, 4, 1), |s|, encode);
        EachConverts(v.items, Slice(s, 4, 1), args[0], encode);
      case Tuple(members) =>
        AllFitCount(v.items, members);
        ConvertSequence(v, s, DEFAULT_FORMAT, encode);
        MembersConvert(v.items, NamesMet(s, |members|), members, |s|, encode);
    }
  }

  lemma NullConverts(s: string, t: Type, encode: Encoder)
    ensures Convert(Null, s, DEFAULT_FORMAT, encode) == if s == ACCOUNT then Err(TypeError) else Ok(Null)
    ensures forall f, g :: Rewrite(Null, t, f, g, encode) == if t == Named(ACCOUNT) then Err(TypeError) else Ok(Null)
  {
    Account();
    hide Contains;
    assert ACCOUNT[0] == 'A';
  }

  lemma {:induction false} ReadsConverts(v: Value, s: string, t: Type, encode: Encoder)
    requires Reads(s, t) && Fits(v, t)
    ensures Convert(v, s, DEFAULT_FORMAT, encode) == Rewrite(v, t, DEFAULT_FORMAT, DEFAULT_FORMAT, encode)
    decreases t, 2, 0
  {
    hide ReadsPresent, Fits, Convert, Rewrite;
    if v == Null {
      NullConverts(s, t, encode);
    } else {
      PresentConverts(v, s, t, encode);
    }
  }

  lemma {:induction false} EachConverts(items: seq<Value>, s: string, t: Type, encode: Encoder)
    requires Reads(s, t) && EachFits(items, t)
    ensures ConvertEach(items, s, encode) == RewriteEach(items, t, DEFAULT_FORMAT, encode)
    decreases t, 3, |items|
  {
    hide Reads, Fits, Convert, Rewrite;
    if items != [] {
      ReadsConverts(items[0], s, t, encode);
      EachConverts(items[1..], s, t, encode);
    }
  }

  lemma {:induction false} MembersConvert(items: seq<Value>, names: seq<string>, ts: seq<Type>, bound: nat, encode: Encoder)
    requires MembersRead(names, ts) && AllFit(items, ts)
    requires forall i :: 0 <= i < |names| ==> |names[i]| < bound
    ensures ConvertZip(items, names, bound, encode) == RewriteZip(items, ts, DEFAULT_FORMAT, encode)
    decreases ts, 1, |items|
  {
    hide Reads, Fits, Convert, Rewrite;
    if ts != [] {
      ReadsConverts(items[0], names[0], ts[0], encode);
      MembersConvert(items[1..], names[1..], ts[1..], bound, encode);
    }
  }

  /** At the root the caller's format reaches the account's own name only. */
  lemma RootFormat(v: Value, s: string, format: int, encode: Encoder)
    requires s != ACCOUNT
    ensures Convert(v, s, format, encode) == Convert(v, s, DEFAULT_FORMAT, encode)
  {
    hide Contains;
  }

  /** A type that is read right is converted rightly, in every format, for every value of it. */
  lemma ReadsRightConverts(v: Value, t: Type, format: int, encode: Encoder)
    requires Nameable(t) && ReadsRight(t) && Fits(v, t)
    ensures Convert(v, Print(t), format, encode) == Rewrite(v, t, format, DEFAULT_FORMAT, encode)
  {
    hide Convert, Rewrite, Reads, Fits, Nameable, Print;
    PrintIsAccount(t);
    if t == Named(ACCOUNT) {
      ConvertAccount(v, format, encode);
      RewriteAccount(v, format, DEFAULT_FORMAT, encode);
    } else {
      RootFormat(v, Print(t), format, encode);
      ReadsConverts(v, Print(t), t, encode);
      RootIsIrrelevant(v, t, format, encode);
    }
  }

  lemma RootIsIrrelevant(v: Value, t: Type, format: int, encode: Encoder)
    requires t != Named(ACCOUNT)
    ensures Rewrite(v, t, format, DEFAULT_FORMAT, encode) == Rewrite(v, t, DEFAULT_FORMAT, DEFAULT_FORMAT, encode)
  {
    hide Contains;
  }

  lemma {:induction false} AllFitCount(items: seq<Value>, ts: seq<Type>)
    requires AllFit(items, ts)
    ensures |items| == |ts|
    decreases |items|
  {
    hide Fits;
    if items != [] {
      AllFitCount(items[1..], ts[1..]);
    }
  }
}
