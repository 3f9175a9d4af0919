/** What conversion does to accounts and to everything else, value by value: the address of an account is that of its
    bytes in their own order, in the caller's format at the root and in format 42 everywhere below.
 */
module Addresses {
  import opened Text
  import opened TypeReader
  import opened TypeReading
  import opened TypeReadBack
  import opened TypeSyntax

  /** The numbers, as a decoder lists them. */
  ghost predicate Lists(items: seq<Value>, bs: seq<int>) {
    |items| == |bs| && forall i :: 0 <= i < |bs| ==> items[i] == Int(bs[i])
  }

  ghost predicate AllBytes(bs: seq<int>) {
    forall i :: 0 <= i < |bs| ==> 0 <= bs[i] <= 255
  }

  /** A value whose first item is a tuple of the 32 bytes. */
  ghost predicate Holds(v: Value, bs: seq<int>) {
    && (v.TupleOf? || v.List?) && v.items != []
    && v.items[0].TupleOf? && Lists(v.items[0].items, bs) && |bs| == 32 && AllBytes(bs)
  }

  /** Under the account's name an account becomes the address of its bytes. */
  lemma AccountConverted(v: Value, bs: seq<int>, format: int, encode: Encoder)
    requires Holds(v, bs)
    ensures Convert(v, "AccountId32", format, encode) == Ok(Str(encode(bs, format)))
  {
    ConvertAccount(v, format, encode);
    var first := v.items[0];
    assert FirstOf(v) == Ok(first);
    assert IsAccountId32(first);
    assert Bytes(first.items) == bs;
  }

  /** Every other value that begins with something stays what it is. */
  lemma OthersStay(v: Value, format: int, encode: Encoder)
    requires ((v.TupleOf? || v.List?) && v.items != []) || (v.Str? && v.s != "")
    requires forall bs: seq<int> :: !Holds(v, bs)
    ensures Convert(v, "AccountId32", format, encode) == Ok(v)
  {
    ConvertAccount(v, format, encode);
    if !v.Str? {
      var first := v.items[0];
      assert FirstOf(v) == Ok(first);
      if IsAccountId32(first) {
        var bs := Bytes(first.items);
        assert Lists(first.items, bs);
        assert Holds(v, bs);
      }
    }
  }

  /** And a value that begins with nothing fails. */
  lemma NothingFirst(format: int, encode: Encoder)
    ensures Convert(Null, "AccountId32", format, encode) == Err(TypeError)
    ensures forall n :: Convert(Int(n), "AccountId32", format, encode) == Err(TypeError)
    ensures Convert(Str(""), "AccountId32", format, encode) == Err(IndexError)
    ensures Convert(List([]), "AccountId32", format, encode) == Err(IndexError)
    ensures Convert(TupleOf([]), "AccountId32", format, encode) == Err(IndexError)
    ensures forall entries :: Convert(Dict(entries), "AccountId32", format, encode) == Err(KeyError)
  {
    ConvertAccount(Null, format, encode);
    ConvertAccount(Str(""), format, encode);
    ConvertAccount(List([]), format, encode);
    ConvertAccount(TupleOf([]), format, encode);
    forall n ensures Convert(Int(n), ACCOUNT, format, encode) == Err(TypeError) {
      ConvertAccount(Int(n), format, encode);
    }
    forall entries ensures Convert(Dict(entries), ACCOUNT, format, encode) == Err(KeyError) {
      ConvertAccount(Dict(entries), format, encode);
    }
  }

  lemma CutOut(s: string, word: string, i: nat)
    requires OccursAt(s, word, i)
    ensures exists a: string, b: string :: s == a + word + b
  {
    assert s == s[..i] + word + s[i + |word|..];
  }

  /** A name in which the account's name does not occur changes nothing. */
  lemma OtherNames(v: Value, s: string, format: int, encode: Encoder)
    requires forall a: string, b: string :: s != a + "AccountId32" + b
    ensures Convert(v, s, format, encode) == Ok(v)
  {
    forall i | 0 <= i <= |s| ensures !OccursAt(s, ACCOUNT, i) {
      if OccursAt(s, ACCOUNT, i) {
        CutOut(s, ACCOUNT, i);
      }
    }
    ContainsNowhere(s, ACCOUNT);
    hide Contains;
  }

  lemma AccountArgument(prefix: string)
    requires prefix == "Option<" || prefix == "Vec<"
    ensures Contains(prefix + ACCOUNT + ">", ACCOUNT)
    ensures Slice(prefix + ACCOUNT + ">", |prefix|, 1) == ACCOUNT
  {
    Account();
    var name := prefix[..|prefix| - 1];
    hide Contains;
    assert prefix == name + "<";
    GenericMentions(name, ACCOUNT);
    SliceArgument(prefix, ACCOUNT);
  }

  /** Inside an option the format is 42, and nothing stays nothing. */
  lemma OptionConverted(v: Value, bs: seq<int>, format: int, encode: Encoder)
    requires Holds(v, bs)
    ensures Convert(v, "Option<AccountId32>", format, encode) == Ok(Str(encode(bs, 42)))
    ensures Convert(Null, "Option<AccountId32>", format, encode) == Ok(Null)
  {
    var name := "Option<" + ACCOUNT + ">";
    assert name == "Option<AccountId32>";
    AccountArgument("Option<");
    hide Contains, Convert;
    ConvertOption(v, name, ACCOUNT, format, encode);
    AccountConverted(v, bs, 42, encode);
    RootFormat(Null, name, format, encode);
    NullConverts(name, Named(ACCOUNT), encode);
  }

  /** The addresses of the accounts, in order. */
  ghost predicate Address(w: Value, bs: seq<int>, encode: Encoder) {
    w == Str(encode(bs, 42))
  }

  lemma {:induction false} EachConverted(items: seq<Value>, bss: seq<seq<int>>, encode: Encoder) returns (out: seq<Value>)
    requires |items| == |bss| && forall i :: 0 <= i < |items| ==> Holds(items[i], bss[i])
    ensures ConvertEach(items, ACCOUNT, encode) == Ok(out)
    ensures |out| == |bss| && forall i :: 0 <= i < |bss| ==> Address(out[i], bss[i], encode)
  {
    hide Convert, Holds;
    if items == [] {
      out := [];
    } else {
      AccountConverted(items[0], bss[0], 42, encode);
      var tail := EachConverted(items[1..], bss[1..], encode);
      out := [Str(encode(bss[0], 42))] + tail;
    }
  }

  /** A vector of accounts, list or tuple, becomes the tuple of their addresses, one for each, in the same order. */
  lemma VectorConverted(v: Value, bss: seq<seq<int>>, format: int, encode: Encoder) returns (out: seq<Value>)
    requires (v.List? || v.TupleOf?) && |v.items| == |bss| && forall i :: 0 <= i < |bss| ==> Holds(v.items[i], bss[i])
    ensures Convert(v, "Vec<AccountId32>", format, encode) == Ok(TupleOf(out))
    ensures |out| == |bss| && forall i :: 0 <= i < |bss| ==> Address(out[i], bss[i], encode)
  {
    var name := "Vec<" + ACCOUNT + ">";
    assert name == "Vec<AccountId32>";
    AccountArgument("Vec<");
    hide Contains, Convert, Holds;
    ConvertVec(v, name, ACCOUNT, format, encode);
    out := EachConverted(v.items, bss, encode);
  }

  /** A value that is no sequence stays what it is under the name of a vector or a tuple, and an empty one becomes the empty
      tuple. */
  lemma NoSequence(v: Value, s: string, format: int, encode: Encoder)
    requires "Vec<" <= s || "(" <= s
    ensures !v.List? && !v.TupleOf? ==> Convert(v, s, format, encode) == Ok(v)
    ensures v == List([]) && Contains(s, "AccountId32") ==> Convert(v, s, format, encode) == Ok(TupleOf([]))
  {
    hide Contains;
    assert s[0] == 'V' || s[0] == '(';
    assert ACCOUNT[0] == 'A';
  }

  lemma PairName(other: string)
    requires Ident(other)
    ensures Nameable(Tuple([Named(ACCOUNT), Named(other)])) && SomeMentions([Named(ACCOUNT), Named(other)])
    ensures Print(Tuple([Named(ACCOUNT), Named(other)])) == "(" + ACCOUNT + ", " + other + ")"
    ensures BareCommasOfAll([Named(ACCOUNT), Named(other)]) == 0
    ensures PrintAll([Named(ACCOUNT), Named(other)]) == [ACCOUNT, other]
  {
    var both, one := [Named(ACCOUNT), Named(other)], [Named(other)];
    AccountName();
    hide Contains, Ident;
    assert both[1..] == one && one[1..] == [];
    assert AllNameable(one) && AllNameable(both);
    assert SomeMentions(both);
    assert BareCommasOfAll(one[1..]) == 0 && BareCommasOfAll(one) == 0;
    assert PrintAll(one) == [other] && PrintAll(both) == [ACCOUNT, other];
    assert [ACCOUNT, other][1..] == [other];
    assert Join([other]) == other;
    assert Join(PrintAll(both)) == ACCOUNT + ", " + other;
    assert "(" + (ACCOUNT + ", " + other) + ")" == "(" + ACCOUNT + ", " + other + ")";
  }

  lemma ConvertTwo(v: Value, w: Value, names: seq<string>, bound: nat, v': Value, w': Value, encode: Encoder)
    requires |names| == 2 && forall i :: 0 <= i < 2 ==> |names[i]| < bound
    requires Convert(v, names[0], DEFAULT_FORMAT, encode) == Ok(v') && Convert(w, names[1], DEFAULT_FORMAT, encode) == Ok(w')
    ensures ConvertZip([v, w], names, bound, encode) == Ok([v', w'])
  {
    hide Convert;
    assert [v, w][1..] == [w] && [w][1..] == [] && names[1..][0] == names[1];
    assert ConvertZip([w][1..], names[1..][1..], bound, encode) == Ok([]);
    assert [w'] + [] == [w'] && [v'] + [w'] == [v', w'];
    assert ConvertZip([w], names[1..], bound, encode) == Ok([w']);
  }

  /** In a pair of an account and something else the account becomes its address and the other value stays. */
  lemma PairConverted(v: Value, bs: seq<int>, w: Value, other: string, format: int, encode: Encoder)
    requires Holds(v, bs) && Ident(other) && !Contains(other, ACCOUNT)
    ensures Convert(TupleOf([v, w]), "(AccountId32, " + other + ")", format, encode) == Ok(TupleOf([Str(encode(bs, 42)), w]))
  {
    var members, items := [Named(ACCOUNT), Named(other)], [v, w];
    PairName(other);
    assert "(" + ACCOUNT + ", " + other + ")" == "(AccountId32, " + other + ")";
    PrintMentions(Tuple(members));
    ConvertTuple(TupleOf(items), members, format, encode);
    AccountConverted(v, bs, 42, encode);
    hide Contains, Holds;
    assert Convert(w, other, DEFAULT_FORMAT, encode) == Ok(w);
    hide Convert;
    ConvertTwo(v, w, [ACCOUNT, other], |Print(Tuple(members))|, Str(encode(bs, 42)), w, encode);
  }
}
