/** What the assigned names mean: every name that the iteration assigns is a printed type tree, so the
    reader, which sees only the string, converts values as the tree says.
 */
module TypeMeaning {
  import opened Dicts
  import opened Text
  import opened TypeNames
  import opened TypeReadBack
  import opened TypeReader
  import opened TypeReading
  import opened TypeSyntax

  type Trees = map<int, Type>

  function ParamTrees(params: seq<Option<int>>, trees: Trees): Option<seq<Type>> {
    if params == [] then Some([])
    else if params[0].None? || params[0].value !in trees then None
    else
      match ParamTrees(params[1..], trees)
      case None => None
      case Some(rest) => Some([trees[params[0].value]] + rest)
  }

  function InnerTree(id: int, trees: Trees): Option<Type> {
    if id in trees && Print(trees[id]) != "" then Some(trees[id]) else None
  }

  /** The tree of a definition, given the trees known so far. */
  function DefineTree(e: Entry, trees: Trees): Option<Type> {
    if e.path != [] then
      if e.params != [] then
        match ParamTrees(e.params, trees)
        case None => None
        case Some(inner) => Some(Generic(Last(e.path), inner))
      else if e.def.Variant? then None
      else Some(Named(Last(e.path)))
    else
      match e.def
      case Sequence(of) =>
        (match InnerTree(of, trees) case None => None case Some(inner) => Some(Generic("Vec", [inner])))
      case ArrayOf(of, length) =>
        (match InnerTree(of, trees)
         case None => None
         case Some(inner) => Some(Array(inner, if length.Some? then length.value else 0)))
      case Compact(of) =>
        (match InnerTree(of, trees) case None => None case Some(inner) => Some(Generic("Compact", [inner])))
      case TupleOf(ids) =>
        (match ParamTrees(Present(ids), trees) case None => None case Some(inner) => Some(Tuple(inner)))
      case _ => None
  }

  function SimpleTrees(types: seq<Entry>): Trees {
    map id | id in SimpleNames(types) :: Named(SimpleNames(types)[id])
  }

  function TreeStage(types: seq<Entry>, k: nat): Trees {
    if k == 0 then SimpleTrees(types)
    else ExtendTrees(ById(types), TreeStage(types, k - 1))
  }

  function ExtendTrees(byId: map<int, Entry>, trees: Trees): Trees {
    map id | id in byId.Keys + trees.Keys && (id in trees || DefineTree(byId[id], trees).Some?) ::
      if id in trees then trees[id] else DefineTree(byId[id], trees).value
  }

  function TypeTrees(types: seq<Entry>): Trees {
    TreeStage(types, |ById(types)|)
  }

  ghost predicate Prints(names: Names, trees: Trees) {
    && (forall id :: id in names <==> id in trees)
    && (forall id :: id in trees ==> names[id] == Print(trees[id]))
  }

  lemma {:induction false} ParamsPrint(params: seq<Option<int>>, names: Names, trees: Trees)
    requires Prints(names, trees)
    ensures ParamNames(params, names)
            == match ParamTrees(params, trees) case None => None case Some(ts) => Some(PrintAll(ts))
  {
    if params != [] && params[0].Some? {
      var id := params[0].value;
      assert id in trees <==> id in names;
      if id in trees {
        assert names[id] == Print(trees[id]);
        ParamsPrint(params[1..], names, trees);
        var rest := ParamTrees(params[1..], trees);
        if rest.Some? {
          var ts := [trees[id]] + rest.value;
          assert ts[1..] == rest.value;
        }
      }
    }
  }

  lemma OnePrinted(t: Type)
    ensures Join(PrintAll([t])) == Print(t)
  {
    assert [t][1..] == [] && PrintAll([t]) == [Print(t)];
  }

  lemma DefinePrints(e: Entry, names: Names, trees: Trees)
    requires Prints(names, trees)
    ensures Define(e, names) == match DefineTree(e, trees) case None => None case Some(t) => Some(Print(t))
  {
    if e.path != [] {
      ParamsPrint(e.params, names, trees);
    } else {
      match e.def {
        case Sequence(of) =>
          var inner := InnerTree(of, trees);
          if inner.Some? {
            OnePrinted(inner.value);
            assert "Vec" + "<" == "Vec<";
          }
        case ArrayOf(of, length) =>
          var inner := InnerTree(of, trees);
          if inner.Some? {
            ArrayPrinted(inner.value, length);
          }
        case Compact(of) =>
          var inner := InnerTree(of, trees);
          if inner.Some? {
            OnePrinted(inner.value);
            assert "Compact" + "<" == "Compact<";
          }
        case TupleOf(ids) =>
          ParamsPrint(Present(ids), names, trees);
        case _ =>
      }
    }
  }

  lemma ArrayPrinted(element: Type, length: Option<nat>)
    ensures Print(Array(element, if length.Some? then length.value else 0))
            == if length.Some? && length.value != 0 then "[" + Print(element) + "; " + Decimal(length.value) + "]"
               else "[" + Print(element) + "]"
  {
    if length.Some? && length.value != 0 {
      assert "[" + Print(element) + ("; " + Decimal(length.value)) + "]"
          == "[" + Print(element) + "; " + Decimal(length.value) + "]";
    }
  }

  lemma ExtendPrints(byId: map<int, Entry>, names: Names, trees: Trees)
    requires Prints(names, trees)
    ensures Prints(Extend(byId, names), ExtendTrees(byId, trees))
  {
    hide Define, DefineTree, Print;
    forall id | id in byId
      ensures Define(byId[id], names)
              == match DefineTree(byId[id], trees) case None => None case Some(t) => Some(Print(t))
    {
      DefinePrints(byId[id], names, trees);
    }
  }

  lemma {:induction false} StagePrints(types: seq<Entry>, k: nat)
    ensures Prints(Stage(types, k), TreeStage(types, k))
  {
    if k > 0 {
      StagePrints(types, k - 1);
      ExtendPrints(ById(types), Stage(types, k - 1), TreeStage(types, k - 1));
      hide Extend, ExtendTrees, Prints;
    }
  }

  /** Exactly the ids with a tree are named, each by its printed tree. */
  lemma NamesArePrintedTrees(types: seq<Entry>)
    ensures Prints(Fixpoint(types), TypeTrees(types))
  {
    StagePrints(types, |ById(types)|);
  }

  /* ---------- Trees of well-named registries ---------- */

  predicate WellNamedEntry(e: Entry) {
    && (e.path != [] ==> Ident(Last(e.path)) && (Last(e.path) in {"Option", "Vec"} ==> |e.params| <= 1))
    && (e.def.Primitive? ==> Ident(e.def.name))
  }

  /** Paths end in identifiers, and options and vectors have one parameter. */
  ghost predicate WellNamed(types: seq<Entry>) {
    forall i :: 0 <= i < |types| ==> WellNamedEntry(types[i])
  }

  ghost predicate TreesNameable(trees: Trees) {
    forall id :: id in trees ==> Nameable(trees[id])
  }

  lemma {:induction false} ParamsNameable(params: seq<Option<int>>, trees: Trees)
    requires TreesNameable(trees) && ParamTrees(params, trees).Some?
    ensures AllNameable(ParamTrees(params, trees).value) && |ParamTrees(params, trees).value| == |params|
  {
    if params != [] {
      var id := params[0].value;
      assert id in trees && Nameable(trees[id]);
      ParamsNameable(params[1..], trees);
      var rest := ParamTrees(params[1..], trees).value;
      assert ([trees[params[0].value]] + rest)[1..] == rest;
    }
  }

  lemma DefineNameable(e: Entry, trees: Trees)
    requires TreesNameable(trees) && WellNamedEntry(e) && DefineTree(e, trees).Some?
    ensures Nameable(DefineTree(e, trees).value)
  {
    if e.path != [] {
      if e.params != [] {
        ParamsNameable(e.params, trees);
      }
    } else if e.def.TupleOf? {
      ParamsNameable(Present(e.def.ids), trees);
    } else if e.def.Sequence? || e.def.Compact? {
      var inner := InnerTree(e.def.of, trees).value;
      assert [inner][1..] == [];
      assert AllNameable([inner]);
    }
  }

  lemma {:induction false} KnownEntries(types: seq<Entry>)
    requires WellNamed(types)
    ensures forall id :: id in ById(types) ==> WellNamedEntry(ById(types)[id])
    ensures forall id :: id in SimpleNames(types) ==> Ident(SimpleNames(types)[id])
  {
    if types != [] {
      KnownEntries(types[..|types| - 1]);
    }
  }

  lemma {:induction false} StageNameable(types: seq<Entry>, k: nat)
    requires WellNamed(types)
    ensures TreesNameable(TreeStage(types, k))
  {
    hide DefineTree;
    KnownEntries(types);
    if k > 0 {
      var trees := TreeStage(types, k - 1);
      StageNameable(types, k - 1);
      forall id | id in ById(types) && id !in trees && DefineTree(ById(types)[id], trees).Some?
        ensures Nameable(DefineTree(ById(types)[id], trees).value)
      {
        DefineNameable(ById(types)[id], trees);
      }
    }
  }

  /** Writer and reader agree: converting by the name that the iteration assigned to an id is rewriting by the
      type's tree, for all values exactly when the tree is flat where accounts are looked for, and for the
      values of the type exactly when it is read right. */
  lemma AssignedNamesAreReadBack(types: seq<Entry>, id: int, format: int, encode: Encoder)
    requires WellNamed(types) && id in Fixpoint(types)
    ensures id in TypeTrees(types)
    ensures var name, t := Fixpoint(types)[id], TypeTrees(types)[id];
            && ((forall v :: Convert(v, name, format, encode) == Rewrite(v, t, format, DEFAULT_FORMAT, encode))
                <==> FlatWhereRead(t))
            && ((forall v :: Fits(v, t) ==> Convert(v, name, format, encode) == Rewrite(v, t, format, DEFAULT_FORMAT, encode))
                <==> ReadsRight(t))
  {
    hide Convert, Rewrite, FlatWhereRead, ReadsRight, Fits, Fixpoint, TypeTrees, Print, Nameable;
    NamesArePrintedTrees(types);
    TreesAreNameable(types);
    var t := TypeTrees(types)[id];
    ReadsAnyValueIff(t, format, encode);
    ReadsRightIff(t, format, encode);
  }

  lemma TreesAreNameable(types: seq<Entry>)
    requires WellNamed(types)
    ensures TreesNameable(TypeTrees(types))
  {
    StageNameable(types, |ById(types)|);
  }
}
