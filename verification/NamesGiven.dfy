/** The names that the types of a registry are given, written out for each kind of type, with its path taken apart.
    The registry may have cycles and dangling references; its ids are different from each other.
 */
module NamesGiven {
  import opened Dicts
  import opened Text
  import opened TypeNames

  /** The names of the inner types, all of which must have one. */
  ghost predicate AllNamed(params: seq<Option<int>>, names: Names, inner: seq<string>) {
    |inner| == |params|
    && forall i :: 0 <= i < |params| ==> params[i].Some? && params[i].value in names && names[params[i].value] == inner[i]
  }

  lemma {:induction false} ParamNamesIff(params: seq<Option<int>>, names: Names, inner: seq<string>)
    ensures ParamNames(params, names) == Some(inner) <==> AllNamed(params, names, inner)
    decreases |params|
  {
    if params != [] && inner != [] {
      ParamNamesIff(params[1..], names, inner[1..]);
      assert inner == [inner[0]] + inner[1..];
      assert forall i :: 0 < i < |params| ==> params[i] == params[1..][i - 1];
      if |inner| == |params| {
        assert forall i :: 0 < i < |inner| ==> inner[i] == inner[1..][i - 1];
      }
      if AllNamed(params, names, inner) {
        forall i | 0 <= i < |params| - 1
          ensures params[1..][i].Some? && params[1..][i].value in names && names[params[1..][i].value] == inner[1..][i]
        {
          assert params[1..][i] == params[i + 1];
        }
      }
    }
  }

  lemma ParamNamesNone(params: seq<Option<int>>, names: Names)
    requires ParamNames(params, names).Some?
    ensures AllNamed(params, names, ParamNames(params, names).value)
  {
    ParamNamesIff(params, names, ParamNames(params, names).value);
  }

  /** An entry's name is what its definition gives, and it has one when its definition gives one. */
  lemma NameIff(types: seq<Entry>, i: nat, name: string)
    requires UniqueIds(types) && i < |types|
    ensures var e, names := types[i], Fixpoint(types);
            e.id in names && names[e.id] == name
            <==> if SimpleName(e).Some? then SimpleName(e) == Some(name) else Define(e, names) == Some(name)
  {
    hide Fixpoint, Define, SimpleName, SimpleNames, ById;
    EntryById(types, i);
    FixpointClosed(types);
  }

  lemma LastSegment(front: seq<string>, name: string)
    ensures Last(front + [name]) == name && front + [name] != []
  {
  }

  /** A type with a path that is not a variant is called by the last segment of the path, whatever its definition and
      its parameters are. */
  lemma NamedByLastSegment(types: seq<Entry>, i: nat, front: seq<string>, name: string)
    requires UniqueIds(types) && i < |types| && types[i].path == front + [name] && !types[i].def.Variant?
    requires !types[i].paramsBeside || types[i].params == []
    ensures types[i].id in Fixpoint(types) && Fixpoint(types)[types[i].id] == name
  {
    LastSegment(front, name);
    NameIff(types, i, name);
    hide Fixpoint, Last;
  }

  /** A variant (or a type with parameters beside it) with a path and parameters is called by the last segment of the path and the names of its parameters,
      once all of these have names; without parameters it has no name. */
  lemma VariantNamedIff(types: seq<Entry>, i: nat, front: seq<string>, segment: string, name: string)
    requires UniqueIds(types) && i < |types| && types[i].path == front + [segment]
    requires types[i].def.Variant? || (types[i].paramsBeside && types[i].params != [])
    ensures var e, names := types[i], Fixpoint(types);
            e.id in names && names[e.id] == name
            <==> e.params != []
                 && exists inner :: AllNamed(e.params, names, inner) && name == segment + "<" + Join(inner) + ">"
  {
    var e, names := types[i], Fixpoint(types);
    LastSegment(front, segment);
    NameIff(types, i, name);
    hide Fixpoint, Last, AllNamed, ParamNames, Join;
    if e.params != [] && ParamNames(e.params, names).Some? {
      ParamNamesNone(e.params, names);
    }
    forall inner | AllNamed(e.params, names, inner) ensures ParamNames(e.params, names) == Some(inner) {
      ParamNamesIff(e.params, names, inner);
    }
  }

  /** A primitive type without a path is called by its own name. */
  lemma PrimitiveNamed(types: seq<Entry>, i: nat)
    requires UniqueIds(types) && i < |types| && types[i].path == [] && types[i].def.Primitive? && !types[i].paramsBeside
    ensures types[i].id in Fixpoint(types) && Fixpoint(types)[types[i].id] == types[i].def.name
  {
    NameIff(types, i, types[i].def.name);
    hide Fixpoint;
  }

  /** A sequence, an array and a compact type without a path are called after their element, once it has a name that is
      not empty. */
  lemma ElementNamedIff(types: seq<Entry>, i: nat, name: string)
    requires UniqueIds(types) && i < |types| && types[i].path == []
    requires types[i].def.Sequence? || types[i].def.ArrayOf? || types[i].def.Compact?
    ensures var e, names := types[i], Fixpoint(types);
            e.id in names && names[e.id] == name
            <==> && e.def.of in names && names[e.def.of] != ""
                 && name == match e.def
                            case Sequence(of) => "Vec<" + names[of] + ">"
                            case Compact(of) => "Compact<" + names[of] + ">"
                            case ArrayOf(of, length) =>
                              if length.None? || length.value == 0 then "[" + names[of] + "]"
                              else "[" + names[of] + "; " + Decimal(length.value) + "]"
                            case _ => ""
  {
    NameIff(types, i, name);
    hide Fixpoint, Decimal;
  }

  /** A tuple without a path is called by the names of its members in brackets, once all of these have names. */
  lemma TupleNamedIff(types: seq<Entry>, i: nat, name: string)
    requires UniqueIds(types) && i < |types| && types[i].path == [] && types[i].def.TupleOf?
    ensures var e, names := types[i], Fixpoint(types);
            e.id in names && names[e.id] == name
            <==> exists inner :: AllNamed(Present(e.def.ids), names, inner) && name == "(" + Join(inner) + ")"
  {
    hide Fixpoint, AllNamed, ParamNames, Join, Present;
    var e, names := types[i], Fixpoint(types);
    NameIff(types, i, name);
    var params := Present(e.def.ids);
    if ParamNames(params, names).Some? {
      ParamNamesNone(params, names);
    }
    forall inner | AllNamed(params, names, inner) ensures ParamNames(params, names) == Some(inner) {
      ParamNamesIff(params, names, inner);
    }
  }

  lemma PresentAt(ids: seq<int>, i: nat)
    requires i < |ids|
    ensures |Present(ids)| == |ids| && Present(ids)[i] == Some(ids[i])
  {
  }

  /** Composites, variants and all other types without a path have no name. */
  lemma Unnamed(types: seq<Entry>, i: nat)
    requires UniqueIds(types) && i < |types| && types[i].path == []
    requires types[i].def.Composite? || types[i].def.Variant? || types[i].def.OtherDef?
    ensures types[i].id !in Fixpoint(types)
  {
    hide Fixpoint, ById, SimpleNames, Closed, Below;
    EntryById(types, i);
    FixpointClosed(types);
  }

  /** Names are joined by a comma and a blank. */
  lemma JoinedNames(first: string, second: string, others: seq<string>)
    ensures Join([]) == "" && Join([first]) == first
    ensures Join([first, second]) == first + ", " + second
    ensures Join([first, second] + others) == first + ", " + Join([second] + others)
  {
    assert [first, second][1..] == [second];
    assert ([first, second] + others)[1..] == [second] + others;
  }

  /** The account type of a runtime is called by the one name that the reader of names looks for. */
  lemma AccountNamed(types: seq<Entry>, i: nat)
    requires UniqueIds(types) && i < |types| && types[i].path == ["sp_core", "crypto", "AccountId32"]
    requires types[i].def.Composite? && !types[i].paramsBeside
    ensures types[i].id in Fixpoint(types) && Fixpoint(types)[types[i].id] == "AccountId32"
  {
    assert ["sp_core", "crypto", "AccountId32"] == ["sp_core", "crypto"] + ["AccountId32"];
    NamedByLastSegment(types, i, ["sp_core", "crypto"], "AccountId32");
  }

  /** Of several entries with one id the last one counts. */
  lemma {:induction false} LastEntryCounts(types: seq<Entry>, i: nat)
    requires i < |types| && forall j :: i < j < |types| ==> types[j].id != types[i].id
    ensures types[i].id in ById(types) && ById(types)[types[i].id] == types[i]
    decreases |types|
  {
    if i < |types| - 1 {
      var init := types[..|types| - 1];
      assert forall j :: i < j < |init| ==> init[j] == types[j];
      LastEntryCounts(init, i);
    }
  }
}
