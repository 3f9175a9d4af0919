/** What the splitting of a tuple's name yields when its members show bare commas themselves: the fragments of
    each member's name, one after the other.
 */
module TupleFragments {
  import opened Text
  import opened TypeReader
  import opened TypeSyntax

  /** The pieces of a name between its bare commas. */
  function Fragments(s: string): seq<string> {
    Split(s, 0, "")
  }

  function AllFragments(ts: seq<Type>): seq<string> {
    if ts == [] then [] else Fragments(Print(ts[0])) + AllFragments(ts[1..])
  }

  lemma StripSpaced(s: string)
    ensures Strip(" " + s) == Strip(s)
  {
    assert (" " + s)[1..] == s;
  }

  /** A space before a part is trimmed. */
  lemma {:induction false} SplitSpaced(s: string, d: int, current: string)
    requires s != "" || current != ""
    ensures Split(s, d, " " + current) == Split(s, d, current)
    decreases |s|
  {
    StripSpaced(current);
    hide Strip;
    if s != "" && !(s[0] == ',' && d == 0) {
      assert " " + current + [s[0]] == " " + (current + [s[0]]);
      SplitSpaced(s[1..], d + (if s[0] == '<' then 1 else if s[0] == '>' then -1 else 0), current + [s[0]]);
    }
  }

  /** Splitting goes on anew behind a bare comma. */
  lemma {:induction false} SplitAcross(s: string, rest: string, d: int, current: string)
    requires Depth(s, d) == 0 && if s == "" then current != "" else s[|s| - 1] != ','
    ensures Split(s + "," + rest, d, current) == Split(s, d, current) + Split(rest, 0, "")
    decreases |s|
  {
    hide Strip;
    if s == "" {
      assert "" + "," + rest == "," + rest && ("," + rest)[1..] == rest;
    } else {
      assert (s + "," + rest)[1..] == s[1..] + "," + rest;
      if s[0] == ',' && d == 0 {
        SplitAcross(s[1..], rest, d, "");
      } else {
        SplitAcross(s[1..], rest, d + (if s[0] == '<' then 1 else if s[0] == '>' then -1 else 0), current + [s[0]]);
      }
    }
  }

  lemma PrintEndsInNoComma(t: Type)
    requires Nameable(t)
    ensures Print(t) != "" && Print(t)[|Print(t)| - 1] != ',' && Depth(Print(t), 0) == 0
  {
    PrintEnds(t);
    PrintScan(t, 0);
  }

  lemma {:induction false} JoinedFragments(ts: seq<Type>)
    requires AllNameable(ts)
    ensures Fragments(Join(PrintAll(ts))) == AllFragments(ts)
  {
    hide Print, Fragments, Nameable;
    NoFragments();
    if ts != [] {
      var first, rest := Print(ts[0]), Join(PrintAll(ts[1..]));
      assert PrintAll(ts)[1..] == PrintAll(ts[1..]);
      if |ts| == 1 {
        assert AllFragments(ts[1..]) == [];
        assert PrintAll(ts) == [first];
      } else {
        JoinEnds(ts[1..]);
        JoinedFragments(ts[1..]);
        PrintEndsInNoComma(ts[0]);
        FragmentsAcross(first, rest);
      }
    }
  }

  lemma FragmentsAcross(a: string, b: string)
    requires a != "" && a[|a| - 1] != ',' && Depth(a, 0) == 0 && b != ""
    ensures Fragments(a + ", " + b) == Fragments(a) + Fragments(b)
  {
    hide *;
    SpacedFragments(b);
    var spaced := " " + b;
    CommaFragments(a, spaced);
    assert a + "," + spaced == a + ", " + b;
  }

  lemma CommaFragments(a: string, b: string)
    requires a != "" && a[|a| - 1] != ',' && Depth(a, 0) == 0
    ensures Fragments(a + "," + b) == Fragments(a) + Fragments(b)
  {
    hide Split, Depth;
    SplitAcross(a, b, 0, "");
  }

  lemma NoFragments()
    ensures Fragments("") == []
  {
  }

  lemma SpacedFragments(s: string)
    requires s != ""
    ensures Fragments(" " + s) == Fragments(s)
  {
    assert (" " + s)[1..] == s && "" + [' '] == " " + "";
    SplitSpaced(s, 0, "");
  }

  /** A printed tuple splits into the fragments of its members. */
  lemma SplitIsFragments(members: seq<Type>)
    requires AllNameable(members)
    ensures SplitTuple(Print(Tuple(members))) == AllFragments(members)
  {
    var inner := Join(PrintAll(members));
    assert ("(" + inner + ")")[1..|inner| + 1] == inner;
    hide Split, Join;
    JoinedFragments(members);
  }

  lemma FragmentsCount(t: Type)
    requires Nameable(t)
    ensures |Fragments(Print(t))| == BareCommas(t) + 1
  {
    PrintEndsInNoComma(t);
    PrintScan(t, 0);
    SplitCount(Print(t), 0, "");
  }

  lemma FragmentsWhole(t: Type)
    requires Nameable(t) && BareCommas(t) == 0
    ensures Fragments(Print(t)) == [Print(t)]
  {
    PrintEnds(t);
    PrintTrimmed(t);
    PrintScan(t, 0);
    SplitOne(Print(t), false);
  }

  lemma {:induction false} AllFragmentsCount(ts: seq<Type>)
    requires AllNameable(ts)
    ensures |AllFragments(ts)| == |ts| + BareCommasOfAll(ts)
  {
    hide Fragments, Print;
    if ts != [] {
      FragmentsCount(ts[0]);
      AllFragmentsCount(ts[1..]);
    }
  }

  /* ---------- What a fragment contains ---------- */

  lemma ContainsPart(s: string, from: nat, part: string, word: string)
    requires from + |part| <= |s| && s[from..from + |part|] == part && Contains(part, word)
    ensures Contains(s, word)
  {
    var i: int :| 0 <= i <= |part| && OccursAt(part, word, i);
    OccursInPart(s, from, part, word, i);
    ContainsAt(s, word, from + i);
  }

  lemma PartWithout(s: string, from: nat, part: string, word: string)
    requires from + |part| <= |s| && s[from..from + |part|] == part && !Contains(s, word)
    ensures !Contains(part, word)
  {
    hide Contains;
    if Contains(part, word) {
      ContainsPart(s, from, part, word);
    }
  }

  lemma {:induction false} StripIsPart(s: string) returns (from: nat)
    ensures from + |Strip(s)| <= |s| && s[from..from + |Strip(s)|] == Strip(s)
  {
    from := StripLeftIsSuffix(s);
    StripRightIsPrefix(StripLeft(s));
  }

  lemma {:induction false} StripLeftIsSuffix(s: string) returns (from: nat)
    ensures from <= |s| && StripLeft(s) == s[from..]
  {
    from := 0;
    if s != "" && IsSpace(s[0]) {
      from := StripLeftIsSuffix(s[1..]);
      from := from + 1;
    }
  }

  lemma {:induction false} StripRightIsPrefix(s: string)
    ensures StripRight(s) <= s
  {
    if s != "" && IsSpace(s[|s| - 1]) {
      StripRightIsPrefix(s[..|s| - 1]);
    }
  }

  /** Without the word in the name there is none in its fragments. */
  lemma {:induction false} SplitWithout(s: string, d: int, current: string, word: string, i: nat)
    requires !Contains(current + s, word) && i < |Split(s, d, current)|
    ensures !Contains(Split(s, d, current)[i], word)
    decreases |s|
  {
    hide Contains, Strip;
    if s == "" || (s[0] == ',' && d == 0) {
      if i == 0 {
        var from := StripIsPart(current);
        PartWithout(current + s, from, Strip(current), word);
      } else {
        assert "" + s[1..] == s[1..];
        PartWithout(current + s, |current| + 1, s[1..], word);
        SplitWithout(s[1..], d, "", word, i - 1);
      }
    } else {
      assert current + [s[0]] + s[1..] == current + s;
      SplitWithout(s[1..], d + (if s[0] == '<' then 1 else if s[0] == '>' then -1 else 0), current + [s[0]], word, i);
    }
  }

  /** The first fragment is a trimmed beginning of the name. */
  lemma {:induction false} FirstFragment(s: string, d: int, current: string) returns (n: nat)
    requires s != "" || current != ""
    ensures n <= |s| && Commas(s[..n], d) == 0 && (s != "" && s[0] != ',' ==> n > 0)
    ensures Split(s, d, current) != [] && Split(s, d, current)[0] == Strip(current + s[..n])
    decreases |s|
  {
    hide Strip;
    if s == "" || (s[0] == ',' && d == 0) {
      n := 0;
      assert current + s[..0] == current;
    } else {
      n := FirstFragment(s[1..], d + (if s[0] == '<' then 1 else if s[0] == '>' then -1 else 0), current + [s[0]]);
      assert s[..n + 1][1..] == s[1..][..n];
      assert current + [s[0]] + s[1..][..n] == current + s[..n + 1];
      n := n + 1;
    }
  }
}
