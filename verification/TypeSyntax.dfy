/** The type names of a runtime, as syntax trees, and how they are written. */
module TypeSyntax {
  import opened Text

  datatype Type =
    | Named(name: string)
    | Generic(name: string, args: seq<Type>)        // Vec<T>, Option<T>, Compact<T>, Name<A, B>
    | Tuple(members: seq<Type>)
    | Array(element: Type, length: nat)             // without a length when it is 0

  function Print(t: Type): string
    decreases t, 1
  {
    match t
    case Named(name) => name
    case Generic(name, args) => name + "<" + Join(PrintAll(args)) + ">"
    case Tuple(members) => "(" + Join(PrintAll(members)) + ")"
    case Array(element, length) =>
      "[" + Print(element) + (if length != 0 then "; " + Decimal(length) else "") + "]"
  }

  function PrintAll(ts: seq<Type>): (names: seq<string>)
    ensures |names| == |ts|
    decreases ts, 0
  {
    if ts == [] then [] else [Print(ts[0])] + PrintAll(ts[1..])
  }

  predicate IdentChar(c: char) {
    'a' <= c <= 'z' || 'A' <= c <= 'Z' || '0' <= c <= '9' || c == '_'
  }

  predicate Ident(s: string) {
    s != "" && forall i :: 0 <= i < |s| ==> IdentChar(s[i])
  }

  /** Names are identifiers, and `Option` and `Vec` have one argument. */
  predicate Nameable(t: Type)
    decreases t, 1
  {
    match t
    case Named(name) => Ident(name)
    case Generic(name, args) =>
      Ident(name) && args != [] && AllNameable(args) && (name in {"Option", "Vec"} ==> |args| == 1)
    case Tuple(members) => AllNameable(members)
    case Array(element, _) => Nameable(element)
  }

  predicate AllNameable(ts: seq<Type>)
    decreases ts, 0
  {
    ts == [] || (Nameable(ts[0]) && AllNameable(ts[1..]))
  }

  /** Commas of a printed type outside all angle brackets. */
  function BareCommas(t: Type): nat
    decreases t, 1
  {
    match t
    case Tuple(members) => BareCommasOfAll(members) + if members == [] then 0 else |members| - 1
    case Array(element, _) => BareCommas(element)
    case _ => 0
  }

  function BareCommasOfAll(ts: seq<Type>): nat
    decreases ts, 0
  {
    if ts == [] then 0 else BareCommas(ts[0]) + BareCommasOfAll(ts[1..])
  }

  /* ---------- Where a printed type begins and ends ---------- */

  /** A printed type is not empty and has no space at either end; an identifier cannot be mistaken for
      anything bracketed. */
  lemma PrintEnds(t: Type)
    requires Nameable(t)
    ensures Print(t) != ""
    ensures var c := Print(t)[0]; if t.Tuple? then c == '(' else if t.Array? then c == '[' else IdentChar(c)
    ensures var c := Print(t)[|Print(t)| - 1]; IdentChar(c) || c in ">)]"
  {
  }

  lemma PrintTrimmed(t: Type)
    requires Nameable(t)
    ensures Strip(Print(t)) == Print(t)
    ensures Strip(" " + Print(t)) == Print(t)
  {
    PrintEnds(t);
    StripTrimmed(Print(t));
  }

  /* ---------- Angle-bracket depth ---------- */

  function Depth(s: string, d: int): int {
    if s == "" then d else Depth(s[1..], d + (if s[0] == '<' then 1 else if s[0] == '>' then -1 else 0))
  }

  /** Commas met at depth 0 when scanning `s` from depth `d`. */
  function Commas(s: string, d: int): nat {
    if s == "" then 0
    else (if s[0] == ',' && d == 0 then 1 else 0)
         + Commas(s[1..], d + (if s[0] == '<' then 1 else if s[0] == '>' then -1 else 0))
  }

  lemma {:induction false} ScanConcat(a: string, b: string, d: int)
    ensures Depth(a + b, d) == Depth(b, Depth(a, d))
    ensures Commas(a + b, d) == Commas(a, d) + Commas(b, Depth(a, d))
  {
    if a == "" {
      assert a + b == b;
    } else {
      assert (a + b)[1..] == a[1..] + b;
      ScanConcat(a[1..], b, d + (if a[0] == '<' then 1 else if a[0] == '>' then -1 else 0));
    }
  }

  /** Text without brackets and commas leaves the scan as it is. */
  lemma {:induction false} ScanPlain(s: string, d: int)
    requires forall i :: 0 <= i < |s| ==> s[i] !in "<>,"
    ensures Depth(s, d) == d && Commas(s, d) == 0
  {
    if s != "" {
      ScanPlain(s[1..], d);
    }
  }

  lemma ScanOne(c: string, d: int)
    requires |c| == 1
    ensures Depth(c, d) == d + (if c[0] == '<' then 1 else if c[0] == '>' then -1 else 0)
    ensures Commas(c, d) == if c[0] == ',' && d == 0 then 1 else 0
  {
    assert c[1..] == "";
  }

  /** A printed type is balanced, and shows its bare commas exactly when scanned from depth 0. */
  lemma {:induction false} PrintScan(t: Type, d: nat)
    requires Nameable(t)
    ensures Depth(Print(t), d) == d
    ensures Commas(Print(t), d) == if d == 0 then BareCommas(t) else 0
    decreases t, 1
  {
    hide Depth, Commas;
    match t {
      case Named(name) =>
        ScanPlain(name, d);
      case Generic(name, args) =>
        var inner := Join(PrintAll(args));
        ScanPlain(name, d);
        JoinScan(args, d + 1);
        ScanOne("<", d);
        ScanOne(">", d + 1);
        ScanConcat(name, "<", d);
        ScanConcat(name + "<", inner, d);
        ScanConcat(name + "<" + inner, ">", d);
      case Tuple(members) =>
        var inner := Join(PrintAll(members));
        JoinScan(members, d);
        ScanPlain("(", d);
        ScanPlain(")", d);
        ScanConcat("(", inner, d);
        ScanConcat("(" + inner, ")", d);
      case Array(element, length) =>
        PrintScan(element, d);
        var suffix := if length != 0 then "; " + Decimal(length) else "";
        DecimalDigits(length);
        ScanPlain("[", d);
        ScanPlain(suffix, d);
        ScanPlain("]", d);
        ScanConcat("[", Print(element), d);
        ScanConcat("[" + Print(element), suffix, d);
        ScanConcat("[" + Print(element) + suffix, "]", d);
    }
  }

  lemma {:induction false} JoinScan(ts: seq<Type>, d: nat)
    requires AllNameable(ts)
    ensures Depth(Join(PrintAll(ts)), d) == d
    ensures Commas(Join(PrintAll(ts)), d)
            == if d == 0 then BareCommasOfAll(ts) + (if ts == [] then 0 else |ts| - 1) else 0
    decreases ts, 0
  {
    if ts != [] {
      PrintScan(ts[0], d);
      JoinScan(ts[1..], d);
      if |ts| == 1 {
        assert PrintAll(ts) == [Print(ts[0])];
      } else {
        var rest := Join(PrintAll(ts[1..]));
        assert PrintAll(ts)[1..] == PrintAll(ts[1..]);
        ScanOne(",", d);
        ScanOne(" ", d);
        ScanConcat(",", " ", d);
        assert "," + " " == ", ";
        ScanConcat(Print(ts[0]), ", ", d);
        ScanConcat(Print(ts[0]) + ", ", rest, d);
      }
    }
  }
}
