/** Where the reader of names goes wrong: for every name that does not read a type right, a value of the type that
    shows it.
 */
module TypeMisreading {
  import opened Text
  import opened TupleFragments
  import opened TypeReader
  import opened TypeReading
  import opened TypeSyntax

  /** The value is rewritten, in every format, and converting by the name gives something else. */
  ghost predicate Shows(v: Value, name: string, t: Type, format: int, encode: Encoder) {
    forall f, g :: Rewrite(v, t, f, g, encode).Ok? && Convert(v, name, format, encode) != Rewrite(v, t, f, g, encode)
  }

  ghost predicate ZipShows(items: seq<Value>, names: seq<string>, ts: seq<Type>, bound: nat, encode: Encoder)
    requires forall i :: 0 <= i < |names| ==> |names[i]| < bound
  {
    forall f :: RewriteZip(items, ts, f, encode).Ok?
                && ConvertZip(items, names, bound, encode) != RewriteZip(items, ts, f, encode)
  }

  /** The value cannot be rewritten, and converting by the name gives something. */
  ghost predicate Misses(v: Value, name: string, t: Type, encode: Encoder) {
    && Convert(v, name, DEFAULT_FORMAT, encode).Ok?
    && Convert(Sample(t), name, DEFAULT_FORMAT, encode).Ok?
    && forall f, g :: Rewrite(v, t, f, g, encode).Err?
  }

  ghost predicate ZipMisses(items: seq<Value>, names: seq<string>, ts: seq<Type>, bound: nat, encode: Encoder)
    requires forall i :: 0 <= i < |names| ==> |names[i]| < bound
  {
    && ConvertZip(items, names, bound, encode).Ok?
    && ConvertZip(SampleAll(ts), names, bound, encode).Ok?
    && forall f :: RewriteZip(items, ts, f, encode).Err?
  }

  /* ---------- Samples ---------- */

  lemma {:induction false} SampleFits(t: Type)
    ensures Fits(Sample(t), t)
    decreases t, 1
  {
    match t {
      case Generic(name, args) =>
        if name in {"Option", "Vec"} && |args| == 1 {
          SampleFits(args[0]);
          assert [Sample(args[0])][1..] == [];
        }
      case Tuple(members) => SamplesFit(members);
      case _ =>
    }
  }

  lemma {:induction false} SamplesFit(ts: seq<Type>)
    ensures AllFit(SampleAll(ts), ts)
    decreases ts, 0
  {
    if ts != [] {
      SampleFits(ts[0]);
      SamplesFit(ts[1..]);
      assert SampleAll(ts)[1..] == SampleAll(ts[1..]);
    }
  }

  lemma {:induction false} SampleRewritten(t: Type, f: int, g: int, encode: Encoder)
    ensures Rewrite(Sample(t), t, f, g, encode).Ok?
    decreases t, 1
  {
    hide Contains;
    match t {
      case Named(_) =>
        assert FirstOf(TupleOf([TupleOf(ZeroAccount())])) == Ok(TupleOf(ZeroAccount()));
      case Generic(name, args) =>
        if name in {"Option", "Vec"} && |args| == 1 {
          SampleRewritten(args[0], g, g, encode);
          OneRewritten(Sample(args[0]), args[0], g, encode);
        }
      case Tuple(members) => SamplesRewritten(members, g, encode);
      case Array(_, _) =>
    }
  }

  lemma {:induction false} SamplesRewritten(ts: seq<Type>, f: int, encode: Encoder)
    ensures RewriteZip(SampleAll(ts), ts, f, encode).Ok?
    decreases ts, 0
  {
    hide Rewrite, Sample;
    if ts != [] {
      SampleRewritten(ts[0], f, f, encode);
      SamplesRewritten(ts[1..], f, encode);
      assert SampleAll(ts)[1..] == SampleAll(ts[1..]);
    }
  }

  lemma {:induction false} RewrittenCount(items: seq<Value>, ts: seq<Type>, f: int, encode: Encoder)
    requires RewriteZip(items, ts, f, encode).Ok?
    ensures |RewriteZip(items, ts, f, encode).value| == if |items| < |ts| then |items| else |ts|
    decreases |items|
  {
    hide Rewrite;
    if items != [] && ts != [] {
      RewrittenCount(items[1..], ts[1..], f, encode);
    }
  }

  lemma {:induction false} ConvertedCount(items: seq<Value>, names: seq<string>, bound: nat, encode: Encoder)
    requires forall i :: 0 <= i < |names| ==> |names[i]| < bound
    requires ConvertZip(items, names, bound, encode).Ok?
    ensures |ConvertZip(items, names, bound, encode).value| == if |items| < |names| then |items| else |names|
    decreases |items|
  {
    hide Convert;
    if items != [] && names != [] {
      ConvertedCount(items[1..], names[1..], bound, encode);
    }
  }

  /* ---------- A difference in one place ---------- */

  /** A member converted into something else shows, whatever becomes of the members behind it. */
  lemma HeadShows(v: Value, vs: seq<Value>, name: string, names: seq<string>, t: Type, ts: seq<Type>, bound: nat,
                  encode: Encoder)
    requires Shows(v, name, t, DEFAULT_FORMAT, encode)
    requires forall f :: RewriteZip(vs, ts, f, encode).Ok?
    requires |name| < bound && forall i :: 0 <= i < |names| ==> |names[i]| < bound
    ensures ZipShows([v] + vs, [name] + names, [t] + ts, bound, encode)
  {
    hide Convert, Rewrite;
    var items, all, types := [v] + vs, [name] + names, [t] + ts;
    assert items[1..] == vs && all[1..] == names && types[1..] == ts;
    var head := Convert(v, name, DEFAULT_FORMAT, encode);
    forall f ensures RewriteZip(items, types, f, encode).Ok?
                     && ConvertZip(items, all, bound, encode) != RewriteZip(items, types, f, encode)
    {
      var right, rest := Rewrite(v, t, f, f, encode), RewriteZip(vs, ts, f, encode);
      assert right.Ok? && head != right && rest.Ok?;
      assert RewriteZip(items, types, f, encode) == Ok([right.value] + rest.value);
      assert ([right.value] + rest.value)[0] == right.value;
      var tail := ConvertZip(vs, names, bound, encode);
      if head.Ok? && tail.Ok? {
        assert ConvertZip(items, all, bound, encode) == Ok([head.value] + tail.value);
        assert ([head.value] + tail.value)[0] == head.value;
      }
    }
  }

  /** So does a difference behind a member that is rewritten. */
  lemma TailShows(v: Value, vs: seq<Value>, name: string, names: seq<string>, t: Type, ts: seq<Type>, bound: nat,
                  encode: Encoder)
    requires forall f :: Rewrite(v, t, f, f, encode).Ok?
    requires |name| < bound && forall i :: 0 <= i < |names| ==> |names[i]| < bound
    requires ZipShows(vs, names, ts, bound, encode)
    ensures ZipShows([v] + vs, [name] + names, [t] + ts, bound, encode)
  {
    hide Convert, Rewrite;
    var items, all, types := [v] + vs, [name] + names, [t] + ts;
    assert items[1..] == vs && all[1..] == names && types[1..] == ts;
    var head, tail := Convert(v, name, DEFAULT_FORMAT, encode), ConvertZip(vs, names, bound, encode);
    forall f ensures RewriteZip(items, types, f, encode).Ok?
                     && ConvertZip(items, all, bound, encode) != RewriteZip(items, types, f, encode)
    {
      var right, rest := Rewrite(v, t, f, f, encode), RewriteZip(vs, ts, f, encode);
      assert right.Ok? && rest.Ok? && tail != rest;
      assert RewriteZip(items, types, f, encode) == Ok([right.value] + rest.value);
      assert ([right.value] + rest.value)[1..] == rest.value;
      if head.Ok? && tail.Ok? {
        assert ConvertZip(items, all, bound, encode) == Ok([head.value] + tail.value);
        assert ([head.value] + tail.value)[1..] == tail.value;
      }
    }
  }

  /** A member that is converted and cannot be rewritten is missed, where the others are converted. */
  lemma HeadMisses(v: Value, vs: seq<Value>, name: string, names: seq<string>, t: Type, ts: seq<Type>, bound: nat,
                   encode: Encoder)
    requires |name| < bound && forall i :: 0 <= i < |names| ==> |names[i]| < bound
    requires Misses(v, name, t, encode)
    requires vs == SampleAll(ts) && ConvertZip(vs, names, bound, encode).Ok?
    ensures ZipMisses([v] + vs, [name] + names, [t] + ts, bound, encode)
  {
    hide Convert, Rewrite, Sample;
    var all, types := [name] + names, [t] + ts;
    assert ([v] + vs)[1..] == vs && all[1..] == names && types[1..] == ts;
    assert SampleAll(types) == [Sample(t)] + vs && ([Sample(t)] + vs)[1..] == vs;
    forall f ensures RewriteZip([v] + vs, types, f, encode).Err? {
      assert Rewrite(v, t, f, f, encode).Err?;
    }
  }

  lemma TailMisses(vs: seq<Value>, name: string, names: seq<string>, t: Type, ts: seq<Type>, bound: nat, encode: Encoder)
    requires |name| < bound && forall i :: 0 <= i < |names| ==> |names[i]| < bound
    requires Convert(Sample(t), name, DEFAULT_FORMAT, encode).Ok? && ZipMisses(vs, names, ts, bound, encode)
    ensures ZipMisses([Sample(t)] + vs, [name] + names, [t] + ts, bound, encode)
  {
    hide Convert, Rewrite, Sample;
    var all, types := [name] + names, [t] + ts;
    assert ([Sample(t)] + vs)[1..] == vs && all[1..] == names && types[1..] == ts;
    assert SampleAll(types) == [Sample(t)] + SampleAll(ts) && ([Sample(t)] + SampleAll(ts))[1..] == SampleAll(ts);
    forall f ensures RewriteZip([Sample(t)] + vs, types, f, encode).Err? {
      assert RewriteZip(vs, ts, f, encode).Err?;
    }
  }

  /* ---------- Names that do something to values that stay what they are ---------- */

  /** A list becomes a tuple. */
  lemma ListShows(items: seq<Value>, s: string, t: Type, encode: Encoder)
    requires !Acts(t) && Contains(s, ACCOUNT) && ("Vec<" <= s || "(" <= s)
    ensures Shows(List(items), s, t, DEFAULT_FORMAT, encode)
  {
    hide Contains, Convert, Rewrite, ConvertZip, NamesMet, Acts;
    ConvertSequence(List(items), s, DEFAULT_FORMAT, encode);
    forall f, g ensures Rewrite(List(items), t, f, g, encode) == Ok(List(items)) {
      IdleType(List(items), t, f, g, encode);
    }
  }

  /** A value whose beginning cannot be taken, or is an account. */
  lemma LeafShows(v: Value, t: Type, encode: Encoder)
    requires !Acts(t) && ConvertLeaf(v, DEFAULT_FORMAT, encode) != Ok(v)
    ensures Shows(v, ACCOUNT, t, DEFAULT_FORMAT, encode)
  {
    hide Contains, Convert, Rewrite, ConvertLeaf, Acts;
    ConvertAccount(v, DEFAULT_FORMAT, encode);
    forall f, g ensures Rewrite(v, t, f, g, encode) == Ok(v) {
      IdleType(v, t, f, g, encode);
    }
  }

  lemma {:induction false} ZeroByteFits(t: Type)
    requires FitsByte(t)
    ensures Fits(Int(0), t)
    decreases t
  {
    if Optional(t) {
      ZeroByteFits(t.args[0]);
    }
  }

  lemma {:induction false} ZeroBytesFit(items: seq<Value>, ts: seq<Type>)
    requires AllFitByte(ts) && |items| == |ts| && forall i :: 0 <= i < |items| ==> items[i] == Int(0)
    ensures AllFit(items, ts)
    decreases |items|
  {
    hide FitsByte, Fits;
    if items != [] {
      ZeroByteFits(ts[0]);
      ZeroBytesFit(items[1..], ts[1..]);
    }
  }

  lemma {:induction false} ZeroBytesFitEach(items: seq<Value>, t: Type)
    requires FitsByte(t) && forall i :: 0 <= i < |items| ==> items[i] == Int(0)
    ensures EachFits(items, t)
    decreases |items|
  {
    hide FitsByte, Fits;
    if items != [] {
      ZeroByteFits(t);
      ZeroBytesFitEach(items[1..], t);
    }
  }

  lemma {:induction false} ZeroAccountFits(t: Type)
    requires FitsAccount(t)
    ensures Fits(TupleOf(ZeroAccount()), t)
    decreases t
  {
    hide FitsByte;
    var v := TupleOf(ZeroAccount());
    match t {
      case Generic(name, args) =>
        if Optional(t) {
          ZeroAccountFits(args[0]);
        } else if name == "Vec" && |args| == 1 {
          ZeroBytesFitEach(v.items, args[0]);
        }
      case Tuple(members) => ZeroBytesFit(v.items, members);
      case _ =>
    }
  }

  /** A tuple that begins with an account is taken for it. */
  lemma LeafInTuple(members: seq<Type>, encode: Encoder) returns (v: Value)
    requires members != [] && FitsAccount(members[0])
    ensures v.List? && Fits(v, Tuple(members)) && ConvertLeaf(v, DEFAULT_FORMAT, encode) != Ok(v)
  {
    hide FitsAccount;
    var account := TupleOf(ZeroAccount());
    ZeroAccountFits(members[0]);
    SamplesFit(members[1..]);
    v := List([account] + SampleAll(members[1..]));
    assert v.items[0] == account && v.items[1..] == SampleAll(members[1..]);
    assert FirstOf(v) == Ok(account);
  }

  lemma IdleMisread(s: string, t: Type, encode: Encoder) returns (v: Value)
    requires !Acts(t) && !Optional(t) && NameActs(s) && !("Option<" <= s)
    requires !(s == ACCOUNT && t.Tuple? && t.members != [] && !FitsAccount(t.members[0]))
    ensures v != Null && Fits(v, t) && Shows(v, s, t, DEFAULT_FORMAT, encode)
  {
    hide Contains, Convert, Rewrite, Acts, FitsAccount, Shows;
    if s == ACCOUNT {
      match t {
        case Tuple(members) =>
          if members == [] {
            v := List([]);
          } else {
            v := LeafInTuple(members, encode);
          }
        case Generic(name, args) => v := if name == "Vec" && |args| == 1 then List([]) else Int(0);
        case _ => v := Int(0);
      }
      LeafShows(v, t, encode);
    } else {
      match t {
        case Tuple(members) =>
          v := List(SampleAll(members));
          SamplesFit(members);
        case _ => v := List([]);
      }
      ListShows(v.items, s, t, encode);
    }
  }

  /* ---------- Every name that does not read a type right ---------- */

  /** There is a value of the type for which the name is wrong. It differs in every format, or cannot be rewritten
      although the name converts it; the latter happens only to `Null` in the place of an account. */
  lemma {:induction false} Misread(s: string, t: Type, encode: Encoder) returns (v: Value, shown: bool)
    requires !Reads(s, t)
    ensures Fits(v, t)
    ensures if shown then Shows(v, s, t, DEFAULT_FORMAT, encode) else Misses(v, s, t, encode)
    decreases t, 3, 0
  {
    if ReadsPresent(s, t) {
      hide ReadsPresent, Fits, Convert, Rewrite;
      v, shown := Null, s == ACCOUNT;
      NullConverts(s, t, encode);
      if !shown {
        SampleFits(t);
        PresentConverts(Sample(t), s, t, encode);
        SampleRewritten(t, DEFAULT_FORMAT, DEFAULT_FORMAT, encode);
      }
    } else {
      v, shown := MisreadPresent(s, t, encode);
    }
  }

  lemma {:induction false} MisreadPresent(s: string, t: Type, encode: Encoder) returns (v: Value, shown: bool)
    requires !ReadsPresent(s, t)
    ensures v != Null && Fits(v, t)
    ensures if shown then Shows(v, s, t, DEFAULT_FORMAT, encode) else Misses(v, s, t, encode)
    decreases t, 2, |s|
  {
    hide Contains, Convert, Rewrite, FitsAccount;
    if Optional(t) {
      v, shown := MisreadPresent(s, t.args[0], encode);
      forall f, g ensures Rewrite(v, t, f, g, encode) == Rewrite(v, t.args[0], g, g, encode) {
        RewritePresent(v, t, f, g, encode);
      }
    } else if Contains(s, ACCOUNT) && "Option<" <= s {
      v, shown := MisreadPresent(Slice(s, 7, 1), t, encode);
      ConvertPresent(v, s, encode);
      ConvertPresent(Sample(t), s, encode);
    } else if !Acts(t) {
      hide Shows;
      v := IdleMisread(s, t, encode);
      shown := true;
    } else {
      v, shown := ActingMisread(s, t, encode);
    }
  }

  lemma {:induction false} ActingMisread(s: string, t: Type, encode: Encoder) returns (v: Value, shown: bool)
    requires Acts(t) && !Optional(t) && !(Contains(s, ACCOUNT) && "Option<" <= s) && !ReadsPresent(s, t)
    ensures v != Null && Fits(v, t)
    ensures if shown then Shows(v, s, t, DEFAULT_FORMAT, encode) else Misses(v, s, t, encode)
    decreases t, 1, 0
  {
    hide Contains, Convert, Rewrite, Shows, Misses, Reads;
    match t {
      case Named(_) =>
        v, shown := Sample(t), true;
        NotTheAccount(s, encode);
      case Generic(_, args) =>
        if Contains(s, ACCOUNT) && "Vec<" <= s {
          var w;
          w, shown := Misread(Slice(s, 4, 1), args[0], encode);
          v := TupleOf([w]);
          assert [w][1..] == [] && EachFits([w], args[0]);
          if shown {
            ElementShows(w, s, t, encode);
          } else {
            ElementMisses(w, s, t, encode);
          }
        } else if Contains(s, ACCOUNT) && "(" <= s {
          v := TooManyItems(s, t, encode);
          shown := true;
        } else {
          v, shown := List([]), true;
          NoSequenceShows(v, s, t, encode);
        }
      case Tuple(members) =>
        if Contains(s, ACCOUNT) && ("Vec<" <= s || "(" <= s) {
          var items;
          items, shown := MembersMisread(NamesMet(s, |members|), members, |s|, encode);
          v := TupleOf(items);
          AllFitCount(items, members);
          if shown {
            MembersShow(items, s, members, encode);
          } else {
            MembersMiss(items, s, members, encode);
          }
        } else {
          v, shown := List(SampleAll(members)), true;
          SamplesFit(members);
          NoSequenceShows(v, s, t, encode);
        }
    }
  }

  /** Only the account's own name turns an account into its address. */
  lemma NotTheAccount(s: string, encode: Encoder)
    requires s != ACCOUNT && !(Contains(s, ACCOUNT) && "Option<" <= s)
    ensures Shows(Sample(Named(ACCOUNT)), s, Named(ACCOUNT), DEFAULT_FORMAT, encode)
  {
    hide Contains, Rewrite;
    var v := Sample(Named(ACCOUNT));
    assert FirstOf(v) == Ok(TupleOf(ZeroAccount()));
    forall f, g ensures Rewrite(v, Named(ACCOUNT), f, g, encode) == Ok(Str(encode(Bytes(ZeroAccount()), f))) {
      RewriteAccount(v, f, g, encode);
    }
    assert Convert(v, s, DEFAULT_FORMAT, encode).Ok? ==> Convert(v, s, DEFAULT_FORMAT, encode).value.TupleOf?;
  }

  /** A list stays a list under a name that is not one of sequences. */
  lemma NoSequenceShows(v: Value, s: string, t: Type, encode: Encoder)
    requires v.List? && Acts(t) && !t.Named? && !Optional(t)
    requires t.Generic? ==> v.items == []
    requires t.Tuple? ==> v.items == SampleAll(t.members)
    requires !(Contains(s, ACCOUNT) && ("Option<" <= s || "Vec<" <= s || "(" <= s))
    ensures Shows(v, s, t, DEFAULT_FORMAT, encode)
  {
    hide Contains;
    forall f, g ensures Rewrite(v, t, f, g, encode).Ok? && Rewrite(v, t, f, g, encode).value.TupleOf? {
      if t.Tuple? {
        SamplesRewritten(t.members, g, encode);
      }
    }
    assert Convert(v, s, DEFAULT_FORMAT, encode).Ok? ==> !Convert(v, s, DEFAULT_FORMAT, encode).value.TupleOf?;
  }

  lemma ElementShows(w: Value, s: string, t: Type, encode: Encoder)
    requires Contains(s, ACCOUNT) && "Vec<" <= s && Acts(t) && t.Generic? && !Optional(t)
    requires Shows(w, Slice(s, 4, 1), t.args[0], DEFAULT_FORMAT, encode)
    ensures Shows(TupleOf([w]), s, t, DEFAULT_FORMAT, encode)
  {
    hide Contains, Convert;
    ConvertOne(w, s, encode);
    forall f, g ensures Rewrite(TupleOf([w]), t, f, g, encode).Ok?
                        && Convert(TupleOf([w]), s, DEFAULT_FORMAT, encode) != Rewrite(TupleOf([w]), t, f, g, encode)
    {
      OneRewritten(w, t.args[0], g, encode);
      assert Rewrite(w, t.args[0], g, g, encode).Ok?;
    }
  }

  lemma ElementMisses(w: Value, s: string, t: Type, encode: Encoder)
    requires Contains(s, ACCOUNT) && "Vec<" <= s && Acts(t) && t.Generic? && !Optional(t)
    requires Misses(w, Slice(s, 4, 1), t.args[0], encode)
    ensures Misses(TupleOf([w]), s, t, encode)
  {
    hide Contains, Convert;
    ConvertOne(w, s, encode);
    ConvertOne(Sample(t.args[0]), s, encode);
    forall f, g ensures Rewrite(TupleOf([w]), t, f, g, encode).Err? {
      OneRewritten(w, t.args[0], g, encode);
      assert Rewrite(w, t.args[0], g, g, encode).Err?;
    }
  }

  lemma ConvertOne(w: Value, s: string, encode: Encoder)
    requires Contains(s, ACCOUNT) && "Vec<" <= s
    ensures Convert(TupleOf([w]), s, DEFAULT_FORMAT, encode)
            == match Convert(w, Slice(s, 4, 1), DEFAULT_FORMAT, encode)
               case Ok(x) => Ok(TupleOf([x]))
               case Err(error) => Err(error)
  {
    hide Contains;
    ConvertSequence(TupleOf([w]), s, DEFAULT_FORMAT, encode);
    ConvertLength([w], Slice(s, 4, 1), |s|, encode);
    OneConverted(w, Slice(s, 4, 1), encode);
  }

  lemma OneConverted(v: Value, name: string, encode: Encoder)
    ensures ConvertEach([v], name, encode)
            == match Convert(v, name, DEFAULT_FORMAT, encode) case Ok(w) => Ok([w]) case Err(error) => Err(error)
  {
    hide Convert;
    assert [v][1..] == [];
    match Convert(v, name, DEFAULT_FORMAT, encode) {
      case Ok(w) => assert [w] + [] == [w];
      case Err(_) =>
    }
  }

  /** A tuple's name has too few names for a vector that is long enough. */
  lemma TooManyItems(s: string, t: Type, encode: Encoder) returns (v: Value)
    requires Contains(s, ACCOUNT) && "(" <= s && Acts(t) && t.Generic? && !Optional(t)
    ensures v != Null && Fits(v, t) && Shows(v, s, t, DEFAULT_FORMAT, encode)
  {
    hide Contains, Convert, Fits, SplitTuple;
    var n := |SplitTuple(s)| + 1;
    var items := seq(n, _ => Sample(t.args[0]));
    v := TupleOf(items);
    CopiesFit(items, t.args[0]);
    assert Fits(v, t) by {
      FitsVector(v, t);
    }
    ConvertSequence(v, s, DEFAULT_FORMAT, encode);
    assert s[0] == '(';
    var converted := ConvertZip(items, SplitTuple(s), |s|, encode);
    if converted.Ok? {
      ConvertedCount(items, SplitTuple(s), |s|, encode);
    }
    forall f, g ensures Rewrite(v, t, f, g, encode).Ok? && |Rewrite(v, t, f, g, encode).value.items| == n {
      CopiesRewritten(items, t.args[0], g, encode);
    }
  }

  lemma FitsVector(v: Value, t: Type)
    requires t.Generic? && t.name == "Vec" && |t.args| == 1 && IsSequence(v) && EachFits(v.items, t.args[0])
    ensures Fits(v, t)
  {
  }

  lemma {:induction false} CopiesFit(items: seq<Value>, t: Type)
    requires forall i :: 0 <= i < |items| ==> items[i] == Sample(t)
    ensures EachFits(items, t)
    decreases |items|
  {
    hide Fits, Sample;
    if items != [] {
      SampleFits(t);
      CopiesFit(items[1..], t);
    }
  }

  lemma {:induction false} CopiesRewritten(items: seq<Value>, t: Type, f: int, encode: Encoder)
    requires forall i :: 0 <= i < |items| ==> items[i] == Sample(t)
    ensures RewriteEach(items, t, f, encode).Ok? && |RewriteEach(items, t, f, encode).value| == |items|
    decreases |items|
  {
    hide Rewrite, Sample;
    if items != [] {
      SampleRewritten(t, f, f, encode);
      CopiesRewritten(items[1..], t, f, encode);
    }
  }

  lemma MembersShow(items: seq<Value>, s: string, members: seq<Type>, encode: Encoder)
    requires Contains(s, ACCOUNT) && ("Vec<" <= s || "(" <= s) && SomeMentions(members) && |items| == |members|
    requires s != "" && ZipShows(items, NamesMet(s, |members|), members, |s|, encode)
    ensures Shows(TupleOf(items), s, Tuple(members), DEFAULT_FORMAT, encode)
  {
    hide Contains, Convert, ConvertZip, RewriteZip, NamesMet, SomeMentions;
    var v, t := TupleOf(items), Tuple(members);
    ConvertSequence(v, s, DEFAULT_FORMAT, encode);
    forall f, g ensures Rewrite(v, t, f, g, encode).Ok?
                        && Convert(v, s, DEFAULT_FORMAT, encode) != Rewrite(v, t, f, g, encode)
    {
      assert RewriteZip(items, members, g, encode).Ok?;
    }
  }

  lemma SampleCount(ts: seq<Type>)
    ensures |SampleAll(ts)| == |ts|
  {
    SamplesFit(ts);
    AllFitCount(SampleAll(ts), ts);
  }

  lemma MembersMiss(items: seq<Value>, s: string, members: seq<Type>, encode: Encoder)
    requires Contains(s, ACCOUNT) && ("Vec<" <= s || "(" <= s) && SomeMentions(members) && |items| == |members|
    requires s != "" && ZipMisses(items, NamesMet(s, |members|), members, |s|, encode)
    ensures Misses(TupleOf(items), s, Tuple(members), encode)
  {
    hide Contains, Convert, ConvertZip, RewriteZip, NamesMet, SampleAll, SomeMentions;
    var v, t := TupleOf(items), Tuple(members);
    SampleCount(members);
    ConvertSequence(v, s, DEFAULT_FORMAT, encode);
    ConvertSequence(Sample(t), s, DEFAULT_FORMAT, encode);
    forall f, g ensures Rewrite(v, t, f, g, encode).Err? {
      assert RewriteZip(items, members, g, encode).Err?;
    }
  }

  lemma {:induction false} MembersMisread(names: seq<string>, ts: seq<Type>, bound: nat, encode: Encoder)
      returns (items: seq<Value>, shown: bool)
    requires !MembersRead(names, ts)
    requires forall i :: 0 <= i < |names| ==> |names[i]| < bound
    ensures AllFit(items, ts)
    ensures if shown then ZipShows(items, names, ts, bound, encode) else ZipMisses(items, names, ts, bound, encode)
    decreases ts, 0, 0
  {
    hide Reads, Convert, Rewrite, Fits, Shows, ZipShows, Misses, ZipMisses;
    var t, rest := ts[0], ts[1..];
    assert ts == [t] + rest;
    if names == [] {
      items, shown := SampleAll(ts), true;
      SamplesFit(ts);
      TooFewNames(ts, names, bound, encode);
      return;
    }
    var name, others := names[0], names[1..];
    assert names == [name] + others;
    if Reads(name, t) {
      var tail;
      tail, shown := MembersMisread(others, rest, bound, encode);
      if shown {
        items := SampleBefore(t, tail, rest, name, others, bound, encode);
      } else {
        SampleFits(t);
        ReadsConverts(Sample(t), name, t, encode);
        SampleRewritten(t, DEFAULT_FORMAT, DEFAULT_FORMAT, encode);
        items := MissBehind(tail, name, others, t, rest, bound, encode);
      }
    } else {
      var v;
      v, shown := Misread(name, t, encode);
      if shown {
        items := SamplesBehind(v, t, rest, name, others, bound, encode);
      } else if MembersRead(others, rest) {
        items := [v] + SampleAll(rest);
        SamplesFit(rest);
        assert items[1..] == SampleAll(rest);
        MembersConvert(SampleAll(rest), others, rest, bound, encode);
        SamplesRewritten(rest, DEFAULT_FORMAT, encode);
        HeadMisses(v, SampleAll(rest), name, others, t, rest, bound, encode);
      } else {
        var tail;
        tail, shown := MembersMisread(others, rest, bound, encode);
        if shown {
          items := SampleBefore(t, tail, rest, name, others, bound, encode);
        } else {
          MissedSample(v, name, t, encode);
          items := MissBehind(tail, name, others, t, rest, bound, encode);
        }
      }
    }
  }

  lemma MissedSample(v: Value, name: string, t: Type, encode: Encoder)
    requires Misses(v, name, t, encode)
    ensures Convert(Sample(t), name, DEFAULT_FORMAT, encode).Ok?
  {
  }

  lemma MissBehind(tail: seq<Value>, name: string, names: seq<string>, t: Type, ts: seq<Type>, bound: nat, encode: Encoder)
      returns (items: seq<Value>)
    requires |name| < bound && forall i :: 0 <= i < |names| ==> |names[i]| < bound
    requires Convert(Sample(t), name, DEFAULT_FORMAT, encode).Ok?
    requires AllFit(tail, ts) && ZipMisses(tail, names, ts, bound, encode)
    ensures AllFit(items, [t] + ts) && ZipMisses(items, [name] + names, [t] + ts, bound, encode)
  {
    hide Convert, ZipMisses, Sample;
    items := [Sample(t)] + tail;
    SampleFits(t);
    assert items[1..] == tail && ([t] + ts)[1..] == ts;
    TailMisses(tail, name, names, t, ts, bound, encode);
  }

  lemma TooFewNames(members: seq<Type>, names: seq<string>, bound: nat, encode: Encoder)
    requires |names| < |members| && forall i :: 0 <= i < |names| ==> |names[i]| < bound
    ensures ZipShows(SampleAll(members), names, members, bound, encode)
  {
    hide Convert, Rewrite, Fits;
    var items := SampleAll(members);
    SamplesFit(members);
    AllFitCount(items, members);
    forall f ensures RewriteZip(items, members, f, encode).Ok?
                     && ConvertZip(items, names, bound, encode) != RewriteZip(items, members, f, encode)
    {
      SamplesRewritten(members, f, encode);
      RewrittenCount(items, members, f, encode);
      if ConvertZip(items, names, bound, encode).Ok? {
        ConvertedCount(items, names, bound, encode);
      }
    }
  }

  lemma SampleBefore(t: Type, tail: seq<Value>, ts: seq<Type>, name: string, names: seq<string>, bound: nat,
                     encode: Encoder)
      returns (items: seq<Value>)
    requires |name| < bound && forall i :: 0 <= i < |names| ==> |names[i]| < bound
    requires AllFit(tail, ts) && ZipShows(tail, names, ts, bound, encode)
    ensures AllFit(items, [t] + ts) && ZipShows(items, [name] + names, [t] + ts, bound, encode)
  {
    items := [Sample(t)] + tail;
    SampleFits(t);
    assert items[1..] == tail && ([t] + ts)[1..] == ts;
    forall f ensures Rewrite(Sample(t), t, f, f, encode).Ok? {
      SampleRewritten(t, f, f, encode);
    }
    TailShows(Sample(t), tail, name, names, t, ts, bound, encode);
  }

  lemma SamplesBehind(v: Value, t: Type, ts: seq<Type>, name: string, names: seq<string>, bound: nat, encode: Encoder)
      returns (items: seq<Value>)
    requires |name| < bound && forall i :: 0 <= i < |names| ==> |names[i]| < bound
    requires Fits(v, t) && Shows(v, name, t, DEFAULT_FORMAT, encode)
    ensures AllFit(items, [t] + ts) && ZipShows(items, [name] + names, [t] + ts, bound, encode)
  {
    items := [v] + SampleAll(ts);
    SamplesFit(ts);
    assert items[1..] == SampleAll(ts) && ([t] + ts)[1..] == ts;
    forall f ensures RewriteZip(SampleAll(ts), ts, f, encode).Ok? {
      SamplesRewritten(ts, f, encode);
    }
    HeadShows(v, SampleAll(ts), name, names, t, ts, bound, encode);
  }
}
