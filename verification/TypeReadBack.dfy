/** The exact conditions under which converting by a name is the rewriting that the type calls for, and what goes
    wrong outside them.
 */
module TypeReadBack {
  import opened Text
  import opened TupleFragments
  import opened TypeMisreading
  import opened TypeReader
  import opened TypeReading
  import opened TypeSyntax
  import opened TypeTearing

  /** For every string and every type: converting by the string is rewriting by the type, over all values of the
      type, exactly when the string reads the type. */
  lemma NameReadIff(s: string, t: Type, encode: Encoder)
    ensures (forall v :: Fits(v, t) ==>
               Convert(v, s, DEFAULT_FORMAT, encode) == Rewrite(v, t, DEFAULT_FORMAT, DEFAULT_FORMAT, encode))
            <==> Reads(s, t)
  {
    hide Convert, Rewrite, Fits, Reads;
    if Reads(s, t) {
      forall v | Fits(v, t)
        ensures Convert(v, s, DEFAULT_FORMAT, encode) == Rewrite(v, t, DEFAULT_FORMAT, DEFAULT_FORMAT, encode)
      {
        ReadsConverts(v, s, t, encode);
      }
    } else {
      var v, shown := Misread(s, t, encode);
      MisreadDiffers(v, s, t, shown, DEFAULT_FORMAT, DEFAULT_FORMAT, encode);
    }
  }

  lemma MisreadDiffers(v: Value, s: string, t: Type, shown: bool, f: int, g: int, encode: Encoder)
    requires if shown then Shows(v, s, t, DEFAULT_FORMAT, encode) else Misses(v, s, t, encode)
    ensures Convert(v, s, DEFAULT_FORMAT, encode) != Rewrite(v, t, f, g, encode)
  {
    hide Convert, Rewrite;
    if shown {
      assert Rewrite(v, t, f, g, encode).Ok?;
    } else {
      assert Rewrite(v, t, f, g, encode).Err?;
    }
  }

  /** A value of the type that its own name converts wrongly, whatever the formats. */
  lemma MisreadPrinted(t: Type, format: int, encode: Encoder) returns (v: Value)
    requires Nameable(t) && !ReadsRight(t)
    ensures Fits(v, t)
    ensures forall f, g :: Convert(v, Print(t), format, encode) != Rewrite(v, t, f, g, encode)
  {
    hide Convert, Rewrite, Fits, Reads, Nameable, Print, Shows, Misses;
    PrintIsAccount(t);
    if t == Named(ACCOUNT) {
      AccountReads();
    }
    var shown;
    v, shown := Misread(Print(t), t, encode);
    RootFormat(v, Print(t), format, encode);
    forall f, g ensures Convert(v, Print(t), format, encode) != Rewrite(v, t, f, g, encode) {
      MisreadDiffers(v, Print(t), t, shown, f, g, encode);
    }
  }

  /** Over the values of a type, for every printable type: its own name is read right exactly when every member of
      every tuple in it is read right by the fragment of the name that it meets. */
  lemma ReadsRightIff(t: Type, format: int, encode: Encoder)
    requires Nameable(t)
    ensures (forall v :: Fits(v, t) ==>
               Convert(v, Print(t), format, encode) == Rewrite(v, t, format, DEFAULT_FORMAT, encode))
            <==> ReadsRight(t)
  {
    hide Convert, Rewrite, Fits, ReadsRight, Nameable, Print;
    if ReadsRight(t) {
      forall v | Fits(v, t)
        ensures Convert(v, Print(t), format, encode) == Rewrite(v, t, format, DEFAULT_FORMAT, encode)
      {
        ReadsRightConverts(v, t, format, encode);
      }
    } else {
      var v := MisreadPrinted(t, format, encode);
    }
  }

  /* ---------- Values of any shape ---------- */

  function Nulls(n: nat): (items: seq<Value>)
    ensures |items| == n
  {
    seq(n, _ => Null)
  }

  lemma {:induction false} ExtraIgnored(items: seq<Value>, extra: seq<Value>, ts: seq<Type>, f: int, encode: Encoder)
    requires |items| == |ts|
    ensures RewriteZip(items + extra, ts, f, encode) == RewriteZip(items, ts, f, encode)
    decreases |items|
  {
    hide Rewrite;
    if items != [] {
      assert (items + extra)[1..] == items[1..] + extra;
      ExtraIgnored(items[1..], extra, ts[1..], f, encode);
    }
  }

  /** A value with too many members is cut down to the type, but not to a name with more parts than that. */
  lemma TooManyNames(members: seq<Type>, names: seq<string>, bound: nat, encode: Encoder) returns (items: seq<Value>)
    requires |names| > |members| && forall i :: 0 <= i < |names| ==> |names[i]| < bound
    ensures ZipShows(items, names, members, bound, encode)
  {
    hide Convert, Rewrite;
    var samples, extra := SampleAll(members), Nulls(|names|);
    SamplesFit(members);
    AllFitCount(samples, members);
    items := samples + extra;
    forall f ensures RewriteZip(items, members, f, encode).Ok?
                     && ConvertZip(items, names, bound, encode) != RewriteZip(items, members, f, encode)
    {
      SamplesRewritten(members, f, encode);
      ExtraIgnored(samples, extra, members, f, encode);
      RewrittenCount(items, members, f, encode);
      if ConvertZip(items, names, bound, encode).Ok? {
        ConvertedCount(items, names, bound, encode);
      }
    }
  }

  /** A tuple with a different zip shows. */
  lemma TupleShows(items: seq<Value>, members: seq<Type>, format: int, encode: Encoder)
    requires AllNameable(members) && SomeMentions(members)
    requires forall i :: 0 <= i < |AllFragments(members)| ==> |AllFragments(members)[i]| < |Print(Tuple(members))|
    requires ZipShows(items, AllFragments(members), members, |Print(Tuple(members))|, encode)
    ensures Shows(TupleOf(items), Print(Tuple(members)), Tuple(members), format, encode)
  {
    var v, t := TupleOf(items), Tuple(members);
    ConvertMembers(v, members, format, encode);
    hide Convert, ConvertZip, RewriteZip, Print;
    forall f, g ensures Rewrite(v, t, f, g, encode).Ok?
                        && Convert(v, Print(t), format, encode) != Rewrite(v, t, f, g, encode)
    {
      assert RewriteZip(items, members, g, encode).Ok?;
    }
  }

  lemma OptionShows(v: Value, t: Type, format: int, encode: Encoder)
    requires Nameable(t) && Mentions(t) && t.Generic? && t.name == "Option" && v != Null
    requires Shows(v, Print(t.args[0]), t.args[0], DEFAULT_FORMAT, encode)
    ensures Shows(v, Print(t), t, format, encode)
  {
    hide Contains, Convert;
    PrintMentions(t);
    assert PrintAll(t.args) == [Print(t.args[0])];
    ConvertOption(v, Print(t), Print(t.args[0]), format, encode);
    forall f, g ensures Rewrite(v, t, f, g, encode).Ok?
                        && Convert(v, Print(t), format, encode) != Rewrite(v, t, f, g, encode)
    {
      assert Rewrite(v, t, f, g, encode) == Rewrite(v, t.args[0], g, g, encode);
    }
  }

  lemma VecShows(w: Value, t: Type, format: int, encode: Encoder)
    requires Nameable(t) && Mentions(t) && t.Generic? && t.name == "Vec"
    requires Shows(w, Print(t.args[0]), t.args[0], DEFAULT_FORMAT, encode)
    ensures Shows(TupleOf([w]), Print(t), t, format, encode)
  {
    hide Contains, Convert;
    var v := TupleOf([w]);
    PrintMentions(t);
    assert PrintAll(t.args) == [Print(t.args[0])];
    ConvertVec(v, Print(t), Print(t.args[0]), format, encode);
    OneConverted(w, Print(t.args[0]), encode);
    forall f, g ensures Rewrite(v, t, f, g, encode).Ok?
                        && Convert(v, Print(t), format, encode) != Rewrite(v, t, f, g, encode)
    {
      OneRewritten(w, t.args[0], g, encode);
      assert Rewrite(w, t.args[0], g, g, encode).Ok?;
    }
  }

  lemma {:induction false} Misfit(t: Type, format: int, encode: Encoder) returns (v: Value)
    requires Nameable(t) && !FlatWhereRead(t)
    ensures v != Null && Shows(v, Print(t), t, format, encode)
    decreases t, 2
  {
    hide Contains, Convert, ConvertEach, ConvertZip, Rewrite, RewriteEach, RewriteZip;
    match t {
      case Generic(name, args) =>
        var w := Misfit(args[0], DEFAULT_FORMAT, encode);
        if name == "Option" {
          v := w;
          OptionShows(v, t, format, encode);
        } else {
          v := TupleOf([w]);
          VecShows(w, t, format, encode);
        }
      case Tuple(members) =>
        ConvertMembers(List([]), members, format, encode);
        AllFragmentsCount(members);
        var items: seq<Value>;
        if BareCommasOfAll(members) > 0 {
          items := TooManyNames(members, AllFragments(members), |Print(t)|, encode);
        } else {
          items := MisfitMembers(members, |Print(t)|, encode);
        }
        v := TupleOf(items);
        TupleShows(items, members, format, encode);
    }
  }

  lemma {:induction false} MisfitMembers(ts: seq<Type>, bound: nat, encode: Encoder) returns (items: seq<Value>)
    requires AllNameable(ts) && BareCommasOfAll(ts) == 0 && !AllFlatWhereRead(ts)
    requires forall i :: 0 <= i < |AllFragments(ts)| ==> |AllFragments(ts)[i]| < bound
    ensures ZipShows(items, AllFragments(ts), ts, bound, encode)
    decreases ts, 1
  {
    hide Convert, ConvertZip, Rewrite, RewriteZip, Fragments, Print;
    var t, rest := ts[0], AllFragments(ts[1..]);
    FragmentsWhole(t);
    assert ts == [t] + ts[1..];
    assert AllFragments(ts) == [Print(t)] + rest;
    assert forall i :: 0 <= i < |rest| ==> rest[i] == AllFragments(ts)[i + 1];
    assert |AllFragments(ts)[0]| < bound;
    if FlatWhereRead(t) {
      var tail := MisfitMembers(ts[1..], bound, encode);
      items := [Sample(t)] + tail;
      forall f ensures Rewrite(Sample(t), t, f, f, encode).Ok? {
        SampleRewritten(t, f, f, encode);
      }
      TailShows(Sample(t), tail, Print(t), rest, t, ts[1..], bound, encode);
    } else {
      var v := Misfit(t, DEFAULT_FORMAT, encode);
      items := [v] + SampleAll(ts[1..]);
      forall f ensures RewriteZip(SampleAll(ts[1..]), ts[1..], f, encode).Ok? {
        SamplesRewritten(ts[1..], f, encode);
      }
      HeadShows(v, SampleAll(ts[1..]), Print(t), rest, t, ts[1..], bound, encode);
    }
  }

  /** Over all values, whatever their shape: a name is read right exactly when no tuple where accounts are looked
      for has a member with a bare comma. */
  lemma ReadsAnyValueIff(t: Type, format: int, encode: Encoder)
    requires Nameable(t)
    ensures (forall v :: Convert(v, Print(t), format, encode) == Rewrite(v, t, format, DEFAULT_FORMAT, encode))
            <==> FlatWhereRead(t)
  {
    hide Convert, Rewrite, FlatWhereRead, Nameable, Print;
    if FlatWhereRead(t) {
      forall v ensures Convert(v, Print(t), format, encode) == Rewrite(v, t, format, DEFAULT_FORMAT, encode) {
        ConvertIsRewrite(v, t, format, encode);
      }
    } else {
      var v := Misfit(t, format, encode);
      assert Rewrite(v, t, format, DEFAULT_FORMAT, encode).Ok?;
    }
  }

  /* ---------- Which format is used ---------- */

  /** Whether the caller's format can be told from the default in what the type rewrites. */
  predicate FormatIrrelevant(t: Type, format: int) {
    format == DEFAULT_FORMAT || t.Named? || !Reaches(t)
  }

  lemma FormatsAgree(v: Value, t: Type, format: int, encode: Encoder)
    requires FormatIrrelevant(t, format)
    ensures Rewrite(v, t, format, DEFAULT_FORMAT, encode) == Rewrite(v, t, format, format, encode)
  {
    hide Rewrite, Reaches;
    RootFormatOnly(v, t, format, DEFAULT_FORMAT, encode);
    if !Reaches(t) {
      UnreachedFormat(v, t, format, DEFAULT_FORMAT, encode);
    }
  }

  lemma FormatsDiffer(t: Type, format: int, encode: Encoder)
    requires !FormatIrrelevant(t, format) && Distinguishes(encode, format, DEFAULT_FORMAT)
    ensures Rewrite(Sample(t), t, format, DEFAULT_FORMAT, encode) != Rewrite(Sample(t), t, format, format, encode)
  {
    hide Rewrite, Reaches, Distinguishes, Sample;
    SampleShowsFormat(t, format, DEFAULT_FORMAT, encode);
    RootFormatOnly(Sample(t), t, format, DEFAULT_FORMAT, encode);
  }

  /** The caller's address format is used for every account of every value of the type exactly when the type is
      read right, and the format is the default, or the type is the account itself, or no account is reached. */
  lemma FormatHonouredIff(t: Type, format: int, encode: Encoder)
    requires Nameable(t)
    requires format != DEFAULT_FORMAT ==> Distinguishes(encode, format, DEFAULT_FORMAT)
    ensures (forall v :: Fits(v, t) ==>
               Convert(v, Print(t), format, encode) == Rewrite(v, t, format, format, encode))
            <==> ReadsRight(t) && (format == DEFAULT_FORMAT || t.Named? || !Reaches(t))
  {
    hide Convert, Rewrite, Fits, ReadsRight, Nameable, Print, Reaches, Sample, Distinguishes;
    if !ReadsRight(t) {
      var v := MisreadPrinted(t, format, encode);
    } else if FormatIrrelevant(t, format) {
      forall v | Fits(v, t) ensures Convert(v, Print(t), format, encode) == Rewrite(v, t, format, format, encode) {
        ReadsRightConverts(v, t, format, encode);
        FormatsAgree(v, t, format, encode);
      }
    } else {
      SampleFits(t);
      ReadsRightConverts(Sample(t), t, format, encode);
      FormatsDiffer(t, format, encode);
    }
  }

  /** The same over all values, whatever their shape. */
  lemma FormatHonouredOnAnyValueIff(t: Type, format: int, encode: Encoder)
    requires Nameable(t)
    requires format != DEFAULT_FORMAT ==> Distinguishes(encode, format, DEFAULT_FORMAT)
    ensures (forall v :: Convert(v, Print(t), format, encode) == Rewrite(v, t, format, format, encode))
            <==> FlatWhereRead(t) && (format == DEFAULT_FORMAT || t.Named? || !Reaches(t))
  {
    hide Convert, Rewrite, FlatWhereRead, Nameable, Print, Reaches, Sample, Distinguishes;
    if !FlatWhereRead(t) {
      var v := Misfit(t, format, encode);
      assert Rewrite(v, t, format, format, encode).Ok?;
    } else if FormatIrrelevant(t, format) {
      forall v ensures Convert(v, Print(t), format, encode) == Rewrite(v, t, format, format, encode) {
        ConvertIsRewrite(v, t, format, encode);
        FormatsAgree(v, t, format, encode);
      }
    } else {
      ConvertIsRewrite(Sample(t), t, format, encode);
      FormatsDiffer(t, format, encode);
    }
  }

  /* ---------- What goes wrong ---------- */

  lemma {:induction false} ZipFirst(items: seq<Value>, a: seq<string>, b: seq<string>, bound: nat, encode: Encoder)
    requires |items| <= |a| && forall i :: 0 <= i < |a + b| ==> |(a + b)[i]| < bound
    ensures forall i :: 0 <= i < |a| ==> |a[i]| < bound
    ensures ConvertZip(items, a + b, bound, encode) == ConvertZip(items, a, bound, encode)
    decreases |items|
  {
    hide Convert;
    assert forall i :: 0 <= i < |a| ==> a[i] == (a + b)[i];
    if items != [] {
      assert (a + b)[1..] == a[1..] + b;
      assert forall i :: 0 <= i < |a[1..] + b| ==> (a[1..] + b)[i] == (a + b)[i + 1];
      ZipFirst(items[1..], a[1..], b, bound, encode);
    }
  }

  lemma TwoMembers(s: Type, t: Type)
    ensures AllFragments([s, t]) == Fragments(Print(s)) + Fragments(Print(t))
    ensures Nameable(s) && Nameable(t) ==> AllNameable([s, t])
    ensures SomeMentions([s, t]) <==> Mentions(s) || Mentions(t)
  {
    hide Fragments, Print, Nameable, Mentions;
    assert [s, t][1..] == [t] && [t][1..] == [];
    assert AllFragments([t][1..]) == [] && AllNameable([t][1..]) && !SomeMentions([t][1..]);
    assert AllFragments([t]) == Fragments(Print(t));
    assert SomeMentions([t]) <==> Mentions(t);
    assert Nameable(t) ==> AllNameable([t]);
  }

  lemma AccountName()
    ensures Nameable(Named(ACCOUNT)) && Mentions(Named(ACCOUNT))
  {
    Account();
  }

  /** The two conditions differ: an account before a torn member is read right in every value of the type, but
      not in a value with more members than the type has. */
  lemma AccountBeforeTorn(t: Type)
    requires Nameable(t) && !Mentions(t) && BareCommas(t) > 0
    ensures ReadsRight(Tuple([Named(ACCOUNT), t])) && !FlatWhereRead(Tuple([Named(ACCOUNT), t]))
  {
    var members := [Named(ACCOUNT), t];
    AccountFlat(t);
    hide Contains, Fragments, Mentions, Nameable, NameActs, Reads, Acts, Print, BareCommas;
    AccountName();
    TwoMembers(Named(ACCOUNT), t);
    FragmentsWhole(Named(ACCOUNT));
    IdleFragments(t);
    FragmentsCount(t);
    TupleReads(members);
    AccountReads();
    var rest := Fragments(Print(t));
    assert members[1..] == [t] && ([ACCOUNT] + rest)[1..] == rest;
    assert !SomeActs([t][1..]) && !SomeActs([t]);
    IdleMembersRead(rest, [t]);
  }

  lemma AccountFlat(t: Type)
    requires !Mentions(t) && BareCommas(t) > 0
    ensures !Acts(t) && !FlatWhereRead(Tuple([Named(ACCOUNT), t]))
    ensures BareCommas(Named(ACCOUNT)) == 0 && Print(Named(ACCOUNT)) == ACCOUNT
  {
    AccountName();
    var members := [Named(ACCOUNT), t];
    hide Contains;
    assert members[1..] == [t];
    assert BareCommasOfAll([t]) > 0 && SomeMentions(members);
  }

  lemma {:induction false} ItemMeetsName(items: seq<Value>, names: seq<string>, bound: nat, i: nat, encode: Encoder)
    requires forall k :: 0 <= k < |names| ==> |names[k]| < bound
    requires ConvertZip(items, names, bound, encode).Ok? && i < |items| <= |names|
    ensures |ConvertZip(items, names, bound, encode).value| == |items|
    ensures Convert(items[i], names[i], DEFAULT_FORMAT, encode) == Ok(ConvertZip(items, names, bound, encode).value[i])
    decreases |items|
  {
    hide Convert;
    ConvertedCount(items, names, bound, encode);
    if i > 0 {
      ItemMeetsName(items[1..], names[1..], bound, i - 1, encode);
    }
  }

  /** Whatever is converted, each item of a tuple has been converted by the fragment of the tuple's name that stands
      in its place. */
  lemma ItemMeetsFragment(members: seq<Type>, items: seq<Value>, i: nat, format: int, encode: Encoder)
    requires AllNameable(members) && SomeMentions(members) && i < |items| == |members|
    requires Convert(TupleOf(items), Print(Tuple(members)), format, encode).Ok?
    ensures |AllFragments(members)| >= |members|
    ensures var w := Convert(TupleOf(items), Print(Tuple(members)), format, encode).value;
            && w.TupleOf? && |w.items| == |items|
            && Convert(items[i], AllFragments(members)[i], DEFAULT_FORMAT, encode) == Ok(w.items[i])
  {
    hide Convert, Print, Nameable, Mentions, AllFragments, ConvertZip;
    ConvertMembers(TupleOf(items), members, format, encode);
    AllFragmentsCount(members);
    ItemMeetsName(items, AllFragments(members), |Print(Tuple(members))|, i, encode);
  }

  /** The account's own name, or that of an option of it. */
  predicate NamesAccount(s: string)
    decreases |s|
  {
    s == ACCOUNT || (Contains(s, ACCOUNT) && "Option<" <= s && NamesAccount(Slice(s, 7, 1)))
  }

  lemma {:induction false} AccountMeets(bytes: seq<Value>, s: string, encode: Encoder)
    requires |bytes| == 32 && forall i :: 0 <= i < 32 ==> IsByte(bytes[i])
    ensures Convert(TupleOf([TupleOf(bytes)]), s, DEFAULT_FORMAT, encode) == Ok(Str(encode(Bytes(bytes), DEFAULT_FORMAT)))
            <==> NamesAccount(s)
    decreases |s|
  {
    hide Contains;
    var v := TupleOf([TupleOf(bytes)]);
    assert ACCOUNT[0] == 'A';
    if s == ACCOUNT {
      ConvertAccount(v, DEFAULT_FORMAT, encode);
      assert FirstOf(v) == Ok(TupleOf(bytes));
    } else if Contains(s, ACCOUNT) && "Option<" <= s {
      ConvertPresent(v, s, encode);
      AccountMeets(bytes, Slice(s, 7, 1), encode);
    } else {
      OthersConvert(v, s, encode);
    }
  }

  /** Every other name leaves a sequence a sequence. */
  lemma OthersConvert(v: Value, s: string, encode: Encoder)
    requires IsSequence(v) && s != ACCOUNT && !(Contains(s, ACCOUNT) && "Option<" <= s)
    ensures Convert(v, s, DEFAULT_FORMAT, encode).Ok? ==> IsSequence(Convert(v, s, DEFAULT_FORMAT, encode).value)
  {
    hide Contains;
  }

  /** An account in a tuple, wherever it stands and whatever stands before it, is converted exactly when the fragment
      it meets is an account's name. */
  lemma AccountConvertedIff(members: seq<Type>, items: seq<Value>, i: nat, bytes: seq<Value>, format: int, encode: Encoder)
    requires AllNameable(members) && i < |items| == |members|
    requires members[i] == Named(ACCOUNT) && items[i] == TupleOf([TupleOf(bytes)])
    requires |bytes| == 32 && forall k :: 0 <= k < 32 ==> IsByte(bytes[k])
    requires Convert(TupleOf(items), Print(Tuple(members)), format, encode).Ok?
    ensures |AllFragments(members)| >= |members|
    ensures var w := Convert(TupleOf(items), Print(Tuple(members)), format, encode).value;
            && w.TupleOf? && |w.items| == |items|
            && (w.items[i] == Str(encode(Bytes(bytes), DEFAULT_FORMAT)) <==> NamesAccount(AllFragments(members)[i]))
  {
    hide Convert, Print, Nameable, Mentions, AllFragments, NamesAccount, Bytes;
    AccountName();
    MentionedAt(members, i);
    ItemMeetsFragment(members, items, i, format, encode);
    AccountMeets(bytes, AllFragments(members)[i], encode);
  }

  lemma {:induction false} MentionedAt(ts: seq<Type>, i: nat)
    requires i < |ts| && Mentions(ts[i])
    ensures SomeMentions(ts)
  {
    hide Mentions;
    if i > 0 {
      MentionedAt(ts[1..], i - 1);
    }
  }

  /** In particular, an account directly behind a torn member without accounts is not converted, whatever that member
      and the account are: it meets the second fragment of that member's name. */
  lemma NestedTupleMisread(t: Type, first: Value, bytes: seq<Value>, format: int, encode: Encoder)
    requires Nameable(t) && !Mentions(t) && BareCommas(t) > 0
    requires |bytes| == 32 && forall i :: 0 <= i < 32 ==> IsByte(bytes[i])
    ensures var value, whole := TupleOf([first, TupleOf([TupleOf(bytes)])]), Tuple([t, Named(ACCOUNT)]);
            && Convert(value, Print(whole), format, encode) == Ok(value)
            && Rewrite(value, whole, format, DEFAULT_FORMAT, encode)
               == Ok(TupleOf([first, Str(encode(Bytes(bytes), DEFAULT_FORMAT))]))
  {
    var account := TupleOf([TupleOf(bytes)]);
    var items, members := [first, account], [t, Named(ACCOUNT)];
    AccountName();
    TwoMembers(t, Named(ACCOUNT));
    ConvertMembers(TupleOf(items), members, format, encode);
    IdleFragments(t);
    FragmentsCount(t);
    LeafRewritten(bytes, DEFAULT_FORMAT, encode);
    hide Contains, Convert, Fragments, Print, Nameable, Mentions, Bytes, NameActs;
    var bound := |Print(Tuple(members))|;
    ZipFirst(items, Fragments(Print(t)), Fragments(Print(Named(ACCOUNT))), bound, encode);
    IdleZip(items, Fragments(Print(t)), bound, encode);
    RewriteTwo(first, account, t, Named(ACCOUNT), DEFAULT_FORMAT, encode);
  }

  lemma LeafRewritten(bytes: seq<Value>, format: int, encode: Encoder)
    requires |bytes| == 32 && forall i :: 0 <= i < 32 ==> IsByte(bytes[i])
    ensures Rewrite(TupleOf([TupleOf(bytes)]), Named(ACCOUNT), format, format, encode) == Ok(Str(encode(Bytes(bytes), format)))
  {
    AccountName();
    assert FirstOf(TupleOf([TupleOf(bytes)])) == Ok(TupleOf(bytes));
  }

  lemma RewriteTwo(v: Value, w: Value, s: Type, t: Type, format: int, encode: Encoder)
    requires Rewrite(v, s, format, format, encode).Ok? && Rewrite(w, t, format, format, encode).Ok?
    ensures RewriteZip([v, w], [s, t], format, encode)
            == Ok([Rewrite(v, s, format, format, encode).value, Rewrite(w, t, format, format, encode).value])
  {
    hide Rewrite;
    assert [v, w][1..] == [w] && [w][1..] == [] && [s, t][1..] == [t] && [t][1..] == [];
    assert RewriteZip([w][1..], [t][1..], format, encode) == Ok([]);
    var x, y := Rewrite(v, s, format, format, encode).value, Rewrite(w, t, format, format, encode).value;
    assert [y] + [] == [y] && [x] + [y] == [x, y];
    assert RewriteZip([w], [t], format, encode) == Ok([y]);
  }

  /** The torn opening of a tuple that begins with an account. */
  const OPENING := "(" + ACCOUNT

  lemma PlainPart(s: string)
    requires s != "" && forall i :: 0 <= i < |s| ==> IdentChar(s[i]) || s[i] == '('
    ensures Split(s, 0, "") == [s] && Depth(s, 0) == 0 && s[|s| - 1] != ','
  {
    hide Split, Strip, Depth, Commas, IsSpace, IdentChar;
    forall i | 0 <= i < |s| ensures s[i] !in "<>," && !IsSpace(s[i]) && s[i] != ',' {
      PlainChar(s[i]);
    }
    StripTrimmed(s);
    ScanPlain(s, 0);
    OnePart(s);
  }

  lemma PlainChar(c: char)
    requires IdentChar(c) || c == '('
    ensures c !in "<>," && !IsSpace(c) && c != ','
  {
  }

  /** A name behind an opening parenthesis loses its last letter. */
  lemma OpeningParts(name: string)
    requires Ident(name) && |name| > 1
    ensures SplitTuple("(" + name) == [name[..|name| - 1]]
  {
    assert Slice("(" + name, 1, 1) == name[..|name| - 1];
    PlainPart(name[..|name| - 1]);
  }

  lemma OpeningContains(name: string)
    requires Contains(name, ACCOUNT)
    ensures Contains("(" + name, ACCOUNT)
  {
    hide Contains;
    ContainsAcross("", '(', name, ACCOUNT);
    assert "" + "(" + name == "(" + name;
  }

  /** It is read as a tuple of one, with the last letter of its name cut off. */
  lemma OpeningRead(x: Value, others: seq<Value>, encode: Encoder)
    ensures Convert(TupleOf([x] + others), OPENING, DEFAULT_FORMAT, encode) == Ok(TupleOf([x]))
  {
    AccountName();
    OpeningParts(ACCOUNT);
    OpeningContains(ACCOUNT);
    var cut := ACCOUNT[..|ACCOUNT| - 1];
    CutName(cut);
    OpeningConverts(x, others, OPENING, cut, encode);
  }

  lemma OpeningConverts(x: Value, others: seq<Value>, name: string, cut: string, encode: Encoder)
    requires Contains(name, ACCOUNT) && name != "" && name[0] == '(' && SplitTuple(name) == [cut] && !Contains(cut, ACCOUNT)
    ensures Convert(TupleOf([x] + others), name, DEFAULT_FORMAT, encode) == Ok(TupleOf([x]))
  {
    var items := [x] + others;
    assert items[1..] == others && [cut][1..] == [] && [x] + [] == [x];
    assert |SplitTuple(name)[0]| < |name|;
    hide Contains, SplitTuple;
    assert ConvertZip(others, [], |name|, encode) == Ok([]);
    assert Convert(x, cut, DEFAULT_FORMAT, encode) == Ok(x);
    assert ConvertZip(items, [cut], |name|, encode) == Ok([x]);
  }

  lemma CutName(cut: string)
    requires |cut| < |ACCOUNT|
    ensures !Contains(cut, ACCOUNT)
  {
  }

  /** The first fragment of a tuple of an account and something else. */
  lemma OpeningIsFirst(others: seq<Type>)
    requires AllNameable(others) && others != []
    ensures var inner := Tuple([Named(ACCOUNT)] + others);
            && Nameable(inner) && Mentions(inner)
            && Fragments(Print(inner)) != [] && Fragments(Print(inner))[0] == OPENING
  {
    var members := [Named(ACCOUNT)] + others;
    AccountName();
    assert members[0] == Named(ACCOUNT) && members[1..] == others;
    hide Contains, Split, Ident;
    assert AllNameable(members) && SomeMentions(members);
    OpeningPrinted(others);
    PlainPart(OPENING);
    SplitAcross(OPENING, " " + Join(PrintAll(others)) + ")", 0, "");
  }

  lemma OpeningPrinted(others: seq<Type>)
    requires others != []
    ensures Print(Tuple([Named(ACCOUNT)] + others)) == OPENING + "," + (" " + Join(PrintAll(others)) + ")")
  {
    var members, rest := [Named(ACCOUNT)] + others, Join(PrintAll(others));
    assert members[1..] == others;
    assert PrintAll(members) == [ACCOUNT] + PrintAll(others);
    assert PrintAll(members)[1..] == PrintAll(others);
    assert Join(PrintAll(members)) == ACCOUNT + ", " + rest;
  }

  /** A tuple that begins with an account, nested in a tuple behind members that show no bare comma, loses all its
      values but the first, whatever the members and the values are. */
  lemma InnerValuesDropped(before: seq<Type>, others: seq<Type>, after: seq<Type>, items: seq<Value>, x: Value,
                           ys: seq<Value>, format: int, encode: Encoder)
    requires AllNameable(before) && AllNameable(others) && AllNameable(after)
    requires BareCommasOfAll(before) == 0 && others != []
    requires |items| == |before| + 1 + |after| && items[|before|] == TupleOf([x] + ys)
    ensures var whole := Tuple(before + ([Tuple([Named(ACCOUNT)] + others)] + after));
            var converted := Convert(TupleOf(items), Print(whole), format, encode);
            converted.Ok? ==>
              && converted.value.TupleOf? && |converted.value.items| == |items|
              && converted.value.items[|before|] == TupleOf([x])
  {
    var inner := Tuple([Named(ACCOUNT)] + others);
    var members := before + ([inner] + after);
    OpeningIsFirst(others);
    hide Convert, Print, Mentions, Nameable, Fragments, BareCommas;
    NameableBehind(before, [inner] + after);
    assert ([inner] + after)[1..] == after;
    MentionedAt(members, |before|);
    FragmentsBehind(before, [inner] + after);
    if Convert(TupleOf(items), Print(Tuple(members)), format, encode).Ok? {
      ItemMeetsFragment(members, items, |before|, format, encode);
      OpeningRead(x, ys, encode);
    }
  }

  lemma {:induction false} NameableBehind(before: seq<Type>, ts: seq<Type>)
    requires AllNameable(before) && AllNameable(ts)
    ensures AllNameable(before + ts)
  {
    hide Nameable;
    if before == [] {
      assert before + ts == ts;
    } else {
      assert (before + ts)[1..] == before[1..] + ts;
      NameableBehind(before[1..], ts);
    }
  }

  /** Behind members that show no bare comma a member meets the first fragment of its own name. */
  lemma {:induction false} FragmentsBehind(before: seq<Type>, ts: seq<Type>)
    requires AllNameable(before) && BareCommasOfAll(before) == 0 && AllNameable(ts) && ts != []
    ensures |AllFragments(before + ts)| > |before|
    ensures Fragments(Print(ts[0])) != []
    ensures AllFragments(before + ts)[|before|] == Fragments(Print(ts[0]))[0]
  {
    hide Fragments, Print, Nameable;
    if before == [] {
      assert before + ts == ts;
      FragmentsCount(ts[0]);
    } else {
      assert (before + ts)[1..] == before[1..] + ts;
      FragmentsWhole(before[0]);
      FragmentsBehind(before[1..], ts);
    }
  }

  /* ---------- Torn arrays ---------- */

  lemma {:induction false} NotFirstComma(a: string, b: string)
    requires a != "" && a[|a| - 1] != ',' && Depth(a, 0) == 0 && Commas(a, 0) == 0 && b != ""
    ensures Fragments(a + ", " + b) == [Strip(a)] + Fragments(b)
  {
    hide Split, Strip, Depth, Commas;
    FragmentsAcross(a, b);
    OnePart(a);
  }

  /** An account's name torn out of an array meets the next member. */
  lemma ArrayFragments(a: Type, b: Type, length: nat)
    requires Nameable(a) && BareCommas(a) == 0 && Nameable(b)
    ensures var names := Fragments(Print(Array(Tuple([a, Named(ACCOUNT), b]), length)));
            |names| >= 2 && names[1] == ACCOUNT && !NameActs(names[0])
  {
    var opening, tail := "[(" + Print(a), Print(b) + ")" + (if length != 0 then "; " + Decimal(length) else "") + "]";
    assert tail != "";
    hide *;
    ArrayPrinted(a, b, length);
    OpeningScan(a);
    AccountScan();
    ArrayOpening(Print(a));
    FirstTwoFragments(opening, ACCOUNT, tail);
  }

  lemma FirstTwoFragments(a: string, s: string, b: string)
    requires a != "" && a[|a| - 1] != ',' && Depth(a, 0) == 0 && Commas(a, 0) == 0
    requires s != "" && s[|s| - 1] != ',' && Depth(s, 0) == 0 && Commas(s, 0) == 0
    requires b != ""
    ensures var names := Fragments(a + ", " + (s + ", " + b)); |names| >= 2 && names[0] == Strip(a) && names[1] == Strip(s)
  {
    hide *;
    NotFirstComma(a, s + ", " + b);
    NotFirstComma(s, b);
  }

  lemma OpeningScan(a: Type)
    requires Nameable(a) && BareCommas(a) == 0
    ensures var opening := "[(" + Print(a);
            opening != "" && opening[|opening| - 1] != ',' && Depth(opening, 0) == 0 && Commas(opening, 0) == 0
    ensures Print(a) != ""
  {
    PrintEndsInNoComma(a);
    PrintScan(a, 0);
    ScanPlain("[(", 0);
    hide Depth, Commas;
    ScanConcat("[(", Print(a), 0);
  }

  lemma AccountScan()
    ensures ACCOUNT != "" && ACCOUNT[|ACCOUNT| - 1] != ',' && Depth(ACCOUNT, 0) == 0 && Commas(ACCOUNT, 0) == 0
    ensures Strip(ACCOUNT) == ACCOUNT
  {
    AccountName();
    hide Depth, Commas, Strip;
    PrintScan(Named(ACCOUNT), 0);
    PrintTrimmed(Named(ACCOUNT));
  }

  lemma ThreePrinted(a: Type, t: Type, b: Type)
    ensures PrintAll([a, t, b]) == [Print(a), Print(t), Print(b)]
  {
    hide Print;
    assert [a, t, b][1..] == [t, b] && [t, b][1..] == [b] && [b][1..] == [];
    assert PrintAll([b]) == [Print(b)] && PrintAll([t, b]) == [Print(t), Print(b)];
  }

  lemma ThreeJoined(a: string, s: string, b: string)
    ensures Join([a, s, b]) == a + ", " + (s + ", " + b)
  {
    assert [a, s, b][1..] == [s, b] && [s, b][1..] == [b] && [b][1..] == [];
    assert Join([b]) == b && Join([s, b]) == s + ", " + b;
  }

  lemma Bracketed(a: string, s: string, b: string, suffix: string)
    ensures "[" + ("(" + (a + ", " + (s + ", " + b)) + ")") + suffix + "]" == "[(" + a + ", " + (s + ", " + (b + ")" + suffix + "]"))
  {
    assert "[" + "(" == "[(";
  }

  lemma ArrayPrinted(a: Type, b: Type, length: nat)
    ensures Print(Array(Tuple([a, Named(ACCOUNT), b]), length))
            == "[(" + Print(a) + ", " + (ACCOUNT + ", "
               + (Print(b) + ")" + (if length != 0 then "; " + Decimal(length) else "") + "]"))
    ensures Print(Named(ACCOUNT)) == ACCOUNT
  {
    var suffix := if length != 0 then "; " + Decimal(length) else "";
    ThreePrinted(a, Named(ACCOUNT), b);
    ThreeJoined(Print(a), ACCOUNT, Print(b));
    Bracketed(Print(a), ACCOUNT, Print(b), suffix);
    var inner := Tuple([a, Named(ACCOUNT), b]);
    assert Print(inner) == "(" + (Print(a) + ", " + (ACCOUNT + ", " + Print(b))) + ")";
    assert Print(Array(inner, length)) == "[" + Print(inner) + suffix + "]";
  }

  lemma ArrayOpening(name: string)
    requires name != ""
    ensures Strip("[(" + name) != "" ==> Strip("[(" + name)[0] == '['
    ensures !NameActs(Strip("[(" + name))
  {
    var s := "[(" + name;
    assert s[0] == '[' && StripLeft(s) == s;
    StripRightIsPrefix(s);
    hide Contains, StripRight, StripLeft;
    var r := Strip(s);
    if r != "" {
      assert r[0] == '[';
    } else {
      ContainsNot("", ACCOUNT);
    }
  }

  /** Behind an array of tuples with an account in the middle, a number that is not to be converted at all is taken
      for the account, and converting fails. On the tree nothing is wrong with such a type. */
  lemma ArrayTornError(a: Type, b: Type, length: nat, k: Type, x: Value, n: int, format: int, encode: Encoder)
    requires Nameable(a) && BareCommas(a) == 0 && Nameable(b) && Nameable(k) && !Acts(k) && Fits(Int(n), k)
    ensures var t := Tuple([Array(Tuple([a, Named(ACCOUNT), b]), length), k]);
            var v := TupleOf([x, Int(n)]);
            && Nameable(t) && Fits(v, t)
            && Convert(v, Print(t), format, encode) == Err(TypeError)
            && Rewrite(v, t, format, DEFAULT_FORMAT, encode) == Ok(v)
            && ReadsInTree(t) && !ReadsRight(t)
  {
    var torn := Array(Tuple([a, Named(ACCOUNT), b]), length);
    var t, v, items := Tuple([torn, k]), TupleOf([x, Int(n)]), [x, Int(n)];
    ArrayNameable(a, b, length);
    ArrayFragments(a, b, length);
    TwoMembers(torn, k);
    ArrayPairInTree(torn, k);
    assert items[1..] == [Int(n)] && [Int(n)][1..] == [] && [torn, k][1..] == [k] && [k][1..] == [];
    assert Fits(x, torn) && AllFit([Int(n)][1..], [k][1..]);
    assert AllFit([Int(n)], [k]);
    assert AllFit(items, [torn, k]);
    ConvertMembers(v, [torn, k], format, encode);
    IdleType(x, torn, DEFAULT_FORMAT, DEFAULT_FORMAT, encode);
    IdleType(Int(n), k, DEFAULT_FORMAT, DEFAULT_FORMAT, encode);
    hide Contains, Convert, Fragments, Print, Nameable, Mentions, NameActs, Acts, BareCommas, ReadsInTree, ReadsRight, Fits;
    var names := AllFragments([torn, k]);
    assert names[0] == Fragments(Print(torn))[0] && names[1] == ACCOUNT;
    IdleName(x, names[0], DEFAULT_FORMAT, encode);
    ConvertAccount(Int(n), DEFAULT_FORMAT, encode);
    RewriteTwo(x, Int(n), torn, k, DEFAULT_FORMAT, encode);
    SecondFails(items, names, |Print(t)|, encode);
    ReadsRightIff(t, format, encode);
  }

  lemma ArrayNameable(a: Type, b: Type, length: nat)
    requires Nameable(a) && Nameable(b)
    ensures var torn := Array(Tuple([a, Named(ACCOUNT), b]), length); Nameable(torn) && Mentions(torn) && BareCommas(torn) > 0
  {
    var members := [a, Named(ACCOUNT), b];
    AccountName();
    assert members[1..] == [Named(ACCOUNT), b] && members[1..][1..] == [b] && [b][1..] == [];
    hide Contains, Ident;
    assert AllNameable([b]) && AllNameable([Named(ACCOUNT), b]) && AllNameable(members);
    assert SomeMentions([Named(ACCOUNT), b]) && SomeMentions(members);
    assert Nameable(Tuple(members)) && Mentions(Tuple(members));
    assert BareCommas(Tuple(members)) > 0;
  }

  lemma ArrayPairInTree(torn: Type, k: Type)
    requires torn.Array? && BareCommas(torn) > 0 && !Acts(k)
    ensures ReadsInTree(Tuple([torn, k]))
  {
    var members := [torn, k];
    assert !Acts(torn);
    TwoIdle(torn, k);
    hide Acts, Contains, SomeActs;
    assert members[0] == torn;
    assert MembersReadInTree(members);
  }

  lemma TwoIdle(s: Type, t: Type)
    requires !Acts(s) && !Acts(t)
    ensures !SomeActs([s, t])
  {
    hide Acts;
    var both, one := [s, t], [t];
    assert both[0] == s && both[1..] == one && one[0] == t && one[1..] == [];
    assert !SomeActs(one[1..]);
    assert !SomeActs(one);
  }

  lemma SecondFails(items: seq<Value>, names: seq<string>, bound: nat, encode: Encoder)
    requires |items| == 2 && |names| >= 2 && forall i :: 0 <= i < |names| ==> |names[i]| < bound
    requires Convert(items[0], names[0], DEFAULT_FORMAT, encode).Ok?
    requires Convert(items[1], names[1], DEFAULT_FORMAT, encode) == Err(TypeError)
    ensures ConvertZip(items, names, bound, encode) == Err(TypeError)
  {
    hide Convert;
    assert items[1..][0] == items[1] && names[1..][0] == names[1];
    assert ConvertZip(items[1..], names[1..], bound, encode) == Err(TypeError);
  }
}
