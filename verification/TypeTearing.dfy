/** The same condition without names. Where no name of an account is torn out of an array, it can be read off the
    type itself.
 */
module TypeTearing {
  import opened Text
  import opened TupleFragments
  import opened TypeReader
  import opened TypeReading
  import opened TypeSyntax

  /** Wherever accounts are looked for, the members of a tuple before the first that shows a bare comma are
      read right, and neither that one nor any behind it acts. */
  predicate ReadsInTree(t: Type)
    decreases t, 1
  {
    !Mentions(t) ||
    match t
    case Named(_) => true
    case Generic(name, args) => name in {"Option", "Vec"} && |args| == 1 ==> ReadsInTree(args[0])
    case Tuple(members) => MembersReadInTree(members)
    case Array(_, _) => true
  }

  predicate MembersReadInTree(ts: seq<Type>)
    decreases ts, 0
  {
    if ts == [] then true
    else if BareCommas(ts[0]) == 0 then ReadsInTree(ts[0]) && MembersReadInTree(ts[1..])
    else !SomeActs(ts)
  }

  /** No tuple has an array for a member whose name shows a bare comma and an account. */
  predicate NoTornArray(t: Type)
    decreases t, 1
  {
    match t
    case Named(_) => true
    case Generic(_, args) => |args| == 1 ==> NoTornArray(args[0])
    case Tuple(members) => NoTornArrays(members)
    case Array(_, _) => true
  }

  predicate NoTornArrays(ts: seq<Type>)
    decreases ts, 0
  {
    ts == [] ||
    ((ts[0].Array? && Mentions(ts[0]) ==> BareCommas(ts[0]) == 0) && NoTornArray(ts[0]) && NoTornArrays(ts[1..]))
  }

  /* ---------- Idle fragments ---------- */

  /** The fragments of a member that does not act do not act either. */
  lemma IdleFragments(t: Type)
    requires Nameable(t) && !Acts(t)
    requires t.Array? && Mentions(t) ==> BareCommas(t) == 0
    ensures !SomeNameActs(Fragments(Print(t)))
  {
    if BareCommas(t) == 0 {
      NameActsPrinted(t);
      FragmentsWhole(t);
      hide NameActs;
      assert [Print(t)][1..] == [];
    } else {
      assert t.Tuple? || t.Array?;
      assert !Mentions(t);
      PrintMentions(t);
      hide Contains;
      assert "" + Print(t) == Print(t);
      forall i | 0 <= i < |Fragments(Print(t))| ensures !Contains(Fragments(Print(t))[i], ACCOUNT) {
        SplitWithout(Print(t), 0, "", ACCOUNT, i);
      }
      PlainNames(Fragments(Print(t)));
    }
  }

  lemma {:induction false} AllIdleFragments(ts: seq<Type>)
    requires AllNameable(ts) && NoTornArrays(ts) && !SomeActs(ts)
    ensures !SomeNameActs(AllFragments(ts))
  {
    hide Fragments, Acts, Mentions, NameActs;
    if ts != [] {
      IdleFragments(ts[0]);
      AllIdleFragments(ts[1..]);
      SomeNameActsConcat(Fragments(Print(ts[0])), AllFragments(ts[1..]));
    }
  }

  /* ---------- The beginning of a name ---------- */

  lemma {:induction false} CommasOfPrefix(a: string, b: string, d: int)
    requires a <= b && Commas(b, d) == 0
    ensures Commas(a, d) == 0
  {
    assert b == a + b[|a|..];
    ScanConcat(a, b[|a|..], d);
  }

  /** A name without bare commas has at most one part. */
  lemma OnePart(s: string)
    requires Commas(s, 0) == 0
    ensures Split(s, 0, "") == if s == "" then [] else [Strip(s)]
  {
    assert s + "" == s && "" + s == s;
    SplitCollects(s, "", 0, "");
  }

  /** A trimmed beginning of a printed tuple is a beginning of it. */
  lemma StripOpening(s: string)
    requires s != "" && s[0] == '('
    ensures Strip(s) <= s
  {
    StripRightIsPrefix(s);
  }

  /** The part of the name that the members meet. */
  function Inside(q: string): string {
    Slice(q, 1, 1)
  }

  lemma InsidePrefix(t: Type, q: string)
    requires t.Tuple? && Nameable(t) && BareCommas(t) > 0 && q <= Print(t) && Commas(q, 0) == 0
    ensures Inside(q) <= Join(PrintAll(t.members)) && Commas(Inside(q), 0) == 0
    ensures SplitTuple(q) == if Inside(q) == "" then [] else [Strip(Inside(q))]
  {
    PrintScan(t, 0);
    assert q != Print(t);
    var inner := Join(PrintAll(t.members));
    assert Print(t) == "(" + inner + ")";
    if |q| > 2 {
      assert Inside(q) == q[1..|q| - 1] == Print(t)[1..|q| - 1] == inner[..|q| - 2];
      assert q[..|q| - 1] == "(" + Inside(q);
      CommasOfPrefix(q[..|q| - 1], q, 0);
      ScanPlain("(", 0);
      ScanConcat("(", Inside(q), 0);
    }
    OnePart(Inside(q));
  }

  lemma OnlyMember(members: seq<Type>)
    requires |members| == 1 && AllNameable(members) && SomeMentions(members) && NoTornArrays(members)
    requires BareCommas(Tuple(members)) > 0
    ensures members[0].Tuple? && Nameable(members[0]) && Mentions(members[0]) && NoTornArray(members[0])
    ensures BareCommas(members[0]) > 0 && Join(PrintAll(members)) == Print(members[0]) && Print(members[0])[0] == '('
  {
    assert members[1..] == [];
    assert !SomeMentions(members[1..]) && BareCommasOfAll(members[1..]) == 0;
    assert PrintAll(members) == [Print(members[0])];
    assert members[0].Tuple?;
    PrintEnds(members[0]);
  }

  /* ---------- Names and types that do nothing ---------- */

  lemma {:induction false} IdlePresent(s: string, t: Type)
    requires !NameActs(s)
    ensures ReadsPresent(s, t) <==> !Acts(t)
    decreases t, |s|
  {
    hide Contains, Reads, MembersRead, FitsAccount;
    Account();
    if Optional(t) {
      assert Mentions(t.args[0]) ==> SomeMentions(t.args);
      IdlePresent(s, t.args[0]);
    } else if Contains(s, ACCOUNT) && "Option<" <= s {
      IdlePresent(Slice(s, 7, 1), t);
    } else if Acts(t) && t.Named? {
      assert s != ACCOUNT;
    }
  }

  /** A name that does nothing reads exactly the types whose values stay what they are. */
  lemma IdleReads(s: string, t: Type)
    requires !NameActs(s)
    ensures Reads(s, t) <==> !Acts(t)
  {
    Account();
    AccountActs(s, t);
    hide NameActs, Acts, ReadsPresent, Fits;
    IdlePresent(s, t);
  }

  lemma AccountActs(s: string, t: Type)
    ensures s == ACCOUNT ==> NameActs(s)
    ensures t == Named(ACCOUNT) ==> Acts(t)
  {
    Account();
    hide Contains;
    assert ACCOUNT[0] == 'A';
  }

  lemma {:induction false} IdleMembersRead(names: seq<string>, ts: seq<Type>)
    requires !SomeNameActs(names) && |ts| <= |names|
    ensures MembersRead(names, ts) <==> !SomeActs(ts)
    decreases |ts|
  {
    hide NameActs, Acts, Reads;
    if ts != [] {
      IdleReads(names[0], ts[0]);
      IdleMembersRead(names[1..], ts[1..]);
    }
  }

  lemma {:induction false} OptionIgnored(s: string, t: Type)
    requires Contains(s, ACCOUNT) && "Option<" <= s
    ensures ReadsPresent(s, t) <==> ReadsPresent(Slice(s, 7, 1), t)
    decreases t
  {
    hide Contains, Reads, MembersRead, Acts, NameActs;
    if Optional(t) {
      OptionIgnored(s, t.args[0]);
    }
  }

  /* ---------- Torn names ---------- */

  /** The beginning of a printed tuple, cut off before the first bare comma, never reads the tuple: either it does
      nothing, or it has names for too few members. */
  lemma {:induction false} OpeningNotRead(t: Type, q: string)
    requires Nameable(t) && t.Tuple? && Mentions(t) && NoTornArray(t) && BareCommas(t) > 0
    requires q <= Print(t) && Commas(q, 0) == 0
    ensures !Reads(q, t)
    decreases t
  {
    hide Contains, NameActs, Print, PrintAll, Join, BareCommas, Commas, Nameable, Split, Strip, Mentions, NoTornArray;
    if !NameActs(q) {
      IdleReads(q, t);
    } else {
      OpeningBegins(t, q);
      InsidePrefix(t, q);
      var members, names := t.members, SplitTuple(q);
      TupleParts(t);
      if |members| == 1 && Inside(q) != "" {
        OnlyMember(members);
        StripOpening(Inside(q));
        CommasOfPrefix(Strip(Inside(q)), Inside(q), 0);
        hide Inside, SplitTuple, Reads;
        OpeningNotRead(members[0], names[0]);
      } else {
        TooFewRead(names, members);
      }
      NotReadByTuple(q, members);
    }
  }

  lemma TupleParts(t: Type)
    requires t.Tuple? && Nameable(t) && Mentions(t) && NoTornArray(t)
    ensures AllNameable(t.members) && SomeMentions(t.members) && NoTornArrays(t.members) && t.members != []
  {
  }

  lemma OpeningBegins(t: Type, q: string)
    requires Nameable(t) && t.Tuple? && q <= Print(t) && NameActs(q)
    ensures "(" <= q && Contains(q, ACCOUNT)
  {
    hide Contains, Nameable;
    PrintEnds(t);
    assert q != "" by {
      ContainsNot("", ACCOUNT);
    }
    assert q[0] == Print(t)[0] == '(';
  }

  lemma NotReadByTuple(q: string, members: seq<Type>)
    requires "(" <= q && SomeMentions(members) && !MembersRead(SplitTuple(q), members)
    ensures !Reads(q, Tuple(members))
  {
    hide Contains, NameActs, SplitTuple, MembersRead;
    assert q[0] == '(';
  }

  lemma {:induction false} TooFewRead(names: seq<string>, ts: seq<Type>)
    requires |names| < |ts|
    ensures !MembersRead(names, ts)
  {
    hide Reads;
    if names != [] {
      TooFewRead(names[1..], ts[1..]);
    }
  }

  /** From the first torn member on, the members are read exactly when none of them acts: a torn member is not read
      by its first fragment, and those behind it meet fragments of the ones before them. */
  lemma TornMembersRead(ts: seq<Type>)
    requires ts != [] && AllNameable(ts) && NoTornArrays(ts) && BareCommas(ts[0]) > 0
    ensures MembersRead(AllFragments(ts), ts) <==> !SomeActs(ts)
  {
    hide Reads, NameActs, Fragments, Print, Nameable, Mentions;
    var t := ts[0];
    FragmentsCount(t);
    AllFragmentsCount(ts);
    if Acts(t) {
      TornNotRead(t);
      assert AllFragments(ts)[0] == Fragments(Print(t))[0];
    } else {
      hide Acts;
      IdleFragments(t);
      var first, rest := Fragments(Print(t)), AllFragments(ts[1..]);
      IdleFirst(first);
      IdleReads(first[0], t);
      assert (first + rest)[1..] == first[1..] + rest;
      ShiftedMembersRead(first[1..], ts[1..]);
    }
  }

  lemma IdleFirst(names: seq<string>)
    requires !SomeNameActs(names) && names != []
    ensures !NameActs(names[0]) && !SomeNameActs(names[1..])
  {
  }

  lemma TornNotRead(t: Type)
    requires Nameable(t) && NoTornArray(t) && BareCommas(t) > 0 && Acts(t)
    ensures Fragments(Print(t)) != [] && !Reads(Fragments(Print(t))[0], t)
  {
    hide Contains, Reads;
    assert t.Tuple? && Mentions(t);
    PrintEnds(t);
    var n := FirstFragment(Print(t), 0, "");
    var opening := Print(t)[..n];
    assert "" + opening == opening;
    FragmentsCount(t);
    StripOpening(opening);
    CommasOfPrefix(Strip(opening), opening, 0);
    OpeningNotRead(t, Strip(opening));
  }

  /** Members met by the fragments that those before them left over. */
  lemma {:induction false} ShiftedMembersRead(left: seq<string>, ts: seq<Type>)
    requires left != [] && !SomeNameActs(left)
    requires AllNameable(ts) && NoTornArrays(ts)
    ensures MembersRead(left + AllFragments(ts), ts) <==> !SomeActs(ts)
    decreases |ts|
  {
    hide Reads, NameActs, Fragments, Print, Nameable, Mentions, Acts, BareCommas;
    if ts != [] {
      var t, rest := ts[0], AllFragments(ts[1..]);
      var first := Fragments(Print(t));
      IdleFirst(left);
      IdleReads(left[0], t);
      if !Acts(t) {
        IdleFragments(t);
        FragmentsCount(t);
        SomeNameActsConcat(left[1..], first);
        ShiftedMembersRead(left[1..] + first, ts[1..]);
        assert (left + (first + rest))[1..] == (left[1..] + first) + rest;
      }
    }
  }

  /* ---------- The condition on the tree ---------- */

  lemma PrintedReads(t: Type)
    requires Nameable(t)
    ensures ReadsRight(t) <==> ReadsPresent(Print(t), t)
  {
    hide Contains, Print, ReadsPresent, Fits, Nameable;
    PrintIsAccount(t);
  }

  lemma TupleReads(members: seq<Type>)
    requires AllNameable(members) && SomeMentions(members)
    ensures ReadsRight(Tuple(members)) <==> MembersRead(AllFragments(members), members)
  {
    var t := Tuple(members);
    hide Contains, Print, MembersRead, AllFragments, SplitTuple, NameActs, AllNameable;
    PrintIsAccount(t);
    PrintMentions(t);
    PrintEnds(t);
    PrefixShows(t, "Option");
    PrefixShows(t, "Vec");
    SplitIsFragments(members);
    assert Print(t)[..1] == "(";
    assert NamesMet(Print(t), |members|) == AllFragments(members);
    assert Acts(t) && !Fits(Null, t);
    assert ReadsPresent(Print(t), t) <==> MembersRead(NamesMet(Print(t), |members|), members);
  }

  lemma VectorReads(t: Type)
    requires Nameable(t) && Mentions(t) && t.Generic? && t.name == "Vec" && |t.args| == 1
    ensures ReadsRight(t) <==> ReadsRight(t.args[0])
  {
    hide Contains, NameActs, AllNameable;
    PrintIsAccount(t);
    PrintMentions(t);
    PrefixShows(t, "Option");
    PrefixShows(t, "Vec");
    VecPrinted(t);
    SliceArgument("Vec<", Print(t.args[0]));
    hide Print, Slice;
    assert Slice(Print(t), 4, 1) == Print(t.args[0]);
    assert Acts(t) && !Fits(Null, t);
    assert ReadsPresent(Print(t), t) <==> Reads(Slice(Print(t), 4, 1), t.args[0]);
  }

  lemma VecPrinted(t: Type)
    requires t.Generic? && t.name == "Vec" && |t.args| == 1
    ensures Print(t) == "Vec<" + Print(t.args[0]) + ">"
  {
    assert PrintAll(t.args) == [Print(t.args[0])];
  }

  lemma OptionReads(t: Type)
    requires Nameable(t) && Mentions(t) && Optional(t)
    ensures ReadsRight(t) <==> ReadsRight(t.args[0])
  {
    PrintMentions(t);
    OptionPrinted(t);
    SliceArgument("Option<", Print(t.args[0]));
    PrintedReads(t);
    PrintedReads(t.args[0]);
    hide Contains, Print, NameActs;
    OptionIgnored(Print(t), t.args[0]);
  }

  /** A type whose name takes no account out of an array is read right exactly when in every tuple where accounts
      are looked for the members before the first with a bare comma are read right and none from there on acts. */
  lemma {:induction false} ReadsRightInTreeIff(t: Type)
    requires Nameable(t) && NoTornArray(t)
    ensures ReadsRight(t) <==> ReadsInTree(t)
    decreases t, 1
  {
    hide ReadsRight, Print, Contains, NameActs, Reads;
    if Mentions(t) && Optional(t) {
      OptionReads(t);
      ReadsRightInTreeIff(t.args[0]);
    } else if Mentions(t) && t.Generic? && t.name == "Vec" {
      VectorReads(t);
      ReadsRightInTreeIff(t.args[0]);
    } else if Mentions(t) && t.Tuple? {
      TupleReads(t.members);
      MembersReadInTreeIff(t.members);
    } else {
      OtherReads(t);
    }
  }

  lemma OtherReads(t: Type)
    requires Nameable(t)
    requires Mentions(t) ==> !t.Tuple? && !Optional(t) && !(t.Generic? && t.name == "Vec")
    ensures ReadsRight(t)
  {
    hide Contains, NameActs;
    NameActsPrinted(t);
    PrintIsAccount(t);
    if t != Named(ACCOUNT) {
      assert !Acts(t);
      hide Reads;
      IdleReads(Print(t), t);
    } else {
      AccountReads();
    }
  }

  lemma AccountReads()
    ensures Reads(ACCOUNT, Named(ACCOUNT))
  {
    Account();
    hide Contains;
    assert ACCOUNT[0] == 'A';
    assert ReadsPresent(ACCOUNT, Named(ACCOUNT));
  }

  lemma {:induction false} MembersReadInTreeIff(ts: seq<Type>)
    requires AllNameable(ts) && NoTornArrays(ts)
    ensures MembersRead(AllFragments(ts), ts) <==> MembersReadInTree(ts)
    decreases ts, 0
  {
    hide Reads, ReadsInTree, Fragments, Print, Nameable, Mentions, Acts;
    if ts != [] {
      if BareCommas(ts[0]) == 0 {
        FragmentsWhole(ts[0]);
        var rest := AllFragments(ts[1..]);
        assert ([Print(ts[0])] + rest)[1..] == rest;
        ReadsRightInTreeIff(ts[0]);
        MembersReadInTreeIff(ts[1..]);
      } else {
        TornMembersRead(ts);
      }
    }
  }
}
