/** The runtime's map from type ids to type names, built by a chaotic iteration over the ids that have no
    name yet. The reference is the least map closed under the naming rules.
 */
module TypeNames {
  import opened Collections
  import opened Dicts
  import opened Text
  import opened TypeSyntax

  datatype Def =
    | Primitive(name: string)
    | Composite
    | Variant
    | Sequence(of: int)
    | ArrayOf(of: int, length: Option<nat>)
    | Compact(of: int)
    | TupleOf(ids: seq<int>)
    | OtherDef

  /** An entry of the registry. A parameter may have no type. The first pass looks for parameters beside the
      type, where they may be listed or not, and the second pass inside it. */
  datatype Entry = Entry(id: int, paramsBeside: bool, path: seq<string>, params: seq<Option<int>>, def: Def)

  type Names = map<int, string>

  function Last(path: seq<string>): string
    requires path != []
  {
    path[|path| - 1]
  }

  /* ---------- The naming rules ---------- */

  /** The name of a simple type, given in the first pass. */
  function SimpleName(e: Entry): Option<string> {
    if e.paramsBeside || e.def.Variant? then None
    else if e.path != [] then Some(Last(e.path))
    else if e.def.Primitive? then Some(e.def.name)
    else None
  }

  function ParamNames(params: seq<Option<int>>, names: Names): Option<seq<string>> {
    if params == [] then Some([])
    else if params[0].None? || params[0].value !in names then None
    else
      match ParamNames(params[1..], names)
      case None => None
      case Some(rest) => Some([names[params[0].value]] + rest)
  }

  function MemberNames(ids: seq<int>, names: Names): Option<seq<string>> {
    ParamNames(Present(ids), names)
  }

  function Present(ids: seq<int>): (params: seq<Option<int>>)
    ensures |params| == |ids|
  {
    seq(|ids|, i requires 0 <= i < |ids| => Some(ids[i]))
  }

  /** The name of an inner type, unless it is missing or empty. */
  function InnerName(id: int, names: Names): Option<string> {
    if id in names && names[id] != "" then Some(names[id]) else None
  }

  /** The name that a definition gets from the names known so far, if they suffice. */
  function Define(e: Entry, names: Names): Option<string> {
    if e.path != [] then
      if e.params != [] then
        match ParamNames(e.params, names)
        case None => None
        case Some(inner) => Some(Last(e.path) + "<" + Join(inner) + ">")
      else if e.def.Variant? then None
      else Some(Last(e.path))
    else
      match e.def
      case Sequence(of) =>
        (match InnerName(of, names)
         case None => None
         case Some(inner) => Some("Vec<" + inner + ">"))
      case ArrayOf(of, length) =>
        (match InnerName(of, names)
         case None => None
         case Some(inner) =>
           if length.Some? && length.value != 0 then Some("[" + inner + "; " + Decimal(length.value) + "]")
           else Some("[" + inner + "]"))
      case Compact(of) =>
        (match InnerName(of, names)
         case None => None
         case Some(inner) => Some("Compact<" + inner + ">"))
      case TupleOf(ids) =>
        (match MemberNames(ids, names)
         case None => None
         case Some(inner) => Some("(" + Join(inner) + ")"))
      case _ => None
  }

  /* ---------- The reference: stages of simultaneous naming ---------- */

  function ById(types: seq<Entry>): map<int, Entry> {
    if types == [] then map[]
    else ById(types[..|types| - 1])[types[|types| - 1].id := types[|types| - 1]]
  }

  function SimpleNames(types: seq<Entry>): Names {
    if types == [] then map[]
    else
      var e, before := types[|types| - 1], SimpleNames(types[..|types| - 1]);
      match SimpleName(e)
      case None => before
      case Some(name) => before[e.id := name]
  }

  function Stage(types: seq<Entry>, k: nat): Names {
    if k == 0 then SimpleNames(types)
    else Extend(ById(types), Stage(types, k - 1))
  }

  /** Everything that can be named from `names`, named at once. */
  function Extend(byId: map<int, Entry>, names: Names): Names {
    map id | id in byId.Keys + names.Keys && (id in names || Define(byId[id], names).Some?) ::
      if id in names then names[id] else Define(byId[id], names).value
  }

  /** The names that any number of stages reaches. */
  function Fixpoint(types: seq<Entry>): Names {
    Stage(types, |ById(types)|)
  }

  ghost predicate Below(a: Names, b: Names) {
    forall id :: id in a ==> id in b && b[id] == a[id]
  }

  /** Every definition whose dependencies are named is itself named, accordingly. */
  ghost predicate Closed(types: seq<Entry>, names: Names) {
    var byId := ById(types);
    forall id :: id in byId && id !in SimpleNames(types) && Define(byId[id], names).Some? ==>
      id in names && names[id] == Define(byId[id], names).value
  }

  /* ---------- Stages grow, and stop growing ---------- */

  lemma {:induction false} ParamNamesMonotone(params: seq<Option<int>>, a: Names, b: Names)
    requires Below(a, b) && ParamNames(params, a).Some?
    ensures ParamNames(params, b) == ParamNames(params, a)
  {
    if params != [] {
      var id := params[0].value;
      assert id in a && id in b && a[id] == b[id];
      ParamNamesMonotone(params[1..], a, b);
    }
  }

  lemma DefineMonotone(e: Entry, a: Names, b: Names)
    requires Below(a, b) && Define(e, a).Some?
    ensures Define(e, b) == Define(e, a)
  {
    if e.path != [] && e.params != [] {
      ParamNamesMonotone(e.params, a, b);
    } else if e.path == [] && e.def.TupleOf? {
      ParamNamesMonotone(Present(e.def.ids), a, b);
    }
  }

  lemma {:induction false} SimpleNamesKnown(types: seq<Entry>)
    ensures SimpleNames(types).Keys <= ById(types).Keys
  {
    if types != [] {
      SimpleNamesKnown(types[..|types| - 1]);
    }
  }

  lemma {:induction false} StageMonotone(types: seq<Entry>, i: nat, k: nat)
    requires i <= k
    ensures Below(Stage(types, i), Stage(types, k))
    decreases k - i
  {
    if i < k {
      StageMonotone(types, i, k - 1);
    }
  }

  lemma {:induction false} StageKnown(types: seq<Entry>, k: nat)
    ensures Stage(types, k).Keys <= ById(types).Keys
  {
    SimpleNamesKnown(types);
    if k > 0 {
      StageKnown(types, k - 1);
    }
  }

  /** A name given after the first pass is what the rules give from that same stage. */
  lemma {:induction false} StageDefined(types: seq<Entry>, k: nat, id: int)
    requires id in Stage(types, k) && id !in SimpleNames(types)
    ensures id in ById(types) && Define(ById(types)[id], Stage(types, k)) == Some(Stage(types, k)[id])
  {
    hide ById, Define, SimpleNames;
    if k > 0 {
      StageKnown(types, k);
      var before := Stage(types, k - 1);
      StageMonotone(types, k - 1, k);
      if id in before {
        StageDefined(types, k - 1, id);
      }
      DefineMonotone(ById(types)[id], before, Stage(types, k));
    }
  }

  /** A stage that is not yet the fixpoint names one more id. */
  lemma {:induction false} StageGrows(types: seq<Entry>, k: nat)
    ensures Stage(types, k + 1) == Stage(types, k) || |Stage(types, k + 1).Keys| > k
  {
    hide Stage, Extend, ById, SimpleNames, Define, Below;
    StageMonotone(types, k, k + 1);
    SameOrMore(Stage(types, k), Stage(types, k + 1));
    if k > 0 {
      StageGrows(types, k - 1);
      if Stage(types, k) == Stage(types, k - 1) {
        StageStable(types, k);
      }
    }
  }

  lemma SameOrMore(a: Names, b: Names)
    requires Below(a, b)
    ensures a == b || |a.Keys| < |b.Keys|
  {
    forall id | id in a.Keys ensures id in b.Keys {
      assert id in a;
    }
    if a.Keys != b.Keys {
      ProperSubset(a.Keys, b.Keys);
    } else {
      forall id | id in b ensures b[id] == a[id] {
        assert id in a.Keys;
      }
    }
  }

  lemma StageStable(types: seq<Entry>, k: nat)
    requires k > 0 && Stage(types, k) == Stage(types, k - 1)
    ensures Stage(types, k + 1) == Stage(types, k)
  {
  }

  lemma FixpointIsStage(types: seq<Entry>)
    ensures Stage(types, |ById(types)| + 1) == Fixpoint(types)
  {
    var n := |ById(types)|;
    StageGrows(types, n);
    StageKnown(types, n + 1);
    SubsetCount(Stage(types, n + 1).Keys, ById(types).Keys);
    assert |ById(types).Keys| == n;
  }

  /** The fixpoint is closed under the naming rules, and every name in it comes from them. */
  lemma FixpointClosed(types: seq<Entry>)
    ensures Closed(types, Fixpoint(types))
    ensures Below(SimpleNames(types), Fixpoint(types))
    ensures forall id :: id in Fixpoint(types) && id !in SimpleNames(types) ==>
              id in ById(types) && Define(ById(types)[id], Fixpoint(types)) == Some(Fixpoint(types)[id])
  {
    var byId, m := ById(types), Fixpoint(types);
    FixpointIsStage(types);
    StageMonotone(types, 0, |byId|);
    forall id | id in m && id !in SimpleNames(types) ensures id in byId && Define(byId[id], m) == Some(m[id]) {
      StageDefined(types, |byId|, id);
    }
    forall id | id in byId && id !in SimpleNames(types) && Define(byId[id], m).Some?
      ensures id in m && m[id] == Define(byId[id], m).value
    {
      assert id in Extend(byId, m);
      assert m == Extend(byId, m);
    }
  }

  /** It is the least such map: any closed map that keeps the simple names contains it. */
  lemma FixpointLeast(types: seq<Entry>, names: Names)
    requires Below(SimpleNames(types), names) && Closed(types, names)
    ensures Below(Fixpoint(types), names)
  {
    StageLeast(types, names, |ById(types)|);
  }

  lemma {:induction false} StageLeast(types: seq<Entry>, names: Names, k: nat)
    requires Below(SimpleNames(types), names) && Closed(types, names)
    ensures Below(Stage(types, k), names)
  {
    if k > 0 {
      StageLeast(types, names, k - 1);
      forall id | id in Stage(types, k) ensures id in names && names[id] == Stage(types, k)[id] {
        if id !in Stage(types, k - 1) {
          StageMonotone(types, 0, k - 1);
          DefineMonotone(ById(types)[id], Stage(types, k - 1), names);
        }
      }
    }
  }

  /* ---------- The iteration ---------- */

  ghost predicate UniqueIds(types: seq<Entry>) {
    forall i, j :: 0 <= i < j < |types| ==> types[i].id != types[j].id
  }

  lemma {:induction false} EntryById(types: seq<Entry>, i: nat)
    requires UniqueIds(types) && i < |types|
    ensures types[i].id in ById(types) && ById(types)[types[i].id] == types[i]
    ensures types[i].id in SimpleNames(types) <==> SimpleName(types[i]).Some?
    ensures SimpleName(types[i]).Some? ==> SimpleNames(types)[types[i].id] == SimpleName(types[i]).value
  {
    var n := |types| - 1;
    if i < n {
      EntryById(types[..n], i);
    } else {
      NoEntry(types[..n], types[n].id);
    }
  }

  lemma {:induction false} NoEntry(types: seq<Entry>, id: int)
    requires forall i :: 0 <= i < |types| ==> types[i].id != id
    ensures id !in SimpleNames(types)
  {
    if types != [] {
      NoEntry(types[..|types| - 1], id);
    }
  }

  /** A type with a path and parameters gets them into its name exactly when it is a variant: any other one
      is named by its path alone in the first pass, which does not find parameters inside the type. */
  lemma ArgumentsInNameIff(types: seq<Entry>, i: nat)
    requires UniqueIds(types) && i < |types|
    requires types[i].path != [] && types[i].params != [] && !types[i].paramsBeside
    ensures var e, names := types[i], Fixpoint(types);
            if e.def.Variant? then
              && (e.id in names <==> ParamNames(e.params, names).Some?)
              && (e.id in names ==> names[e.id] == Last(e.path) + "<" + Join(ParamNames(e.params, names).value) + ">")
            else e.id in names && names[e.id] == Last(e.path)
  {
    EntryById(types, i);
    FixpointClosed(types);
    hide Fixpoint;
  }

  /** Every assigned name leads back to an id that has it. */
  ghost predicate Inverts(registry: map<string, int>, names: Names) {
    forall name :: name in registry ==> registry[name] in names && names[registry[name]] == name
  }

  ghost predicate Covers(registry: map<string, int>, names: Names) {
    forall id :: id in names ==> names[id] in registry
  }

  /** Names assigned so far are names of the fixpoint. */
  lemma NewNameIsRight(types: seq<Entry>, names: Names, id: int)
    requires Below(names, Fixpoint(types)) && Below(SimpleNames(types), names)
    requires id in ById(types) && id !in names && Define(ById(types)[id], names).Some?
    ensures Below(names[id := Define(ById(types)[id], names).value], Fixpoint(types))
  {
    FixpointClosed(types);
    DefineMonotone(ById(types)[id], names, Fixpoint(types));
  }

  /** Stopping where no pending id can be named is stopping at the fixpoint. */
  lemma ExhaustedIsFixpoint(types: seq<Entry>, names: Names)
    requires Below(names, Fixpoint(types)) && Below(SimpleNames(types), names)
    requires Stuck(types, names, ById(types).Keys - names.Keys)
    ensures names == Fixpoint(types)
  {
    hide Fixpoint, Define, SimpleNames, ById;
    FixpointClosed(types);
    var byId := ById(types);
    forall id | id in byId && id !in SimpleNames(types) && Define(byId[id], names).Some?
      ensures id in names && names[id] == Define(byId[id], names).value
    {
      assert id in names;
      DefineMonotone(byId[id], names, Fixpoint(types));
    }
    FixpointLeast(types, names);
    SameOrMore(names, Fixpoint(types));
    SameOrMore(Fixpoint(types), names);
  }

  lemma SimpleSnoc(types: seq<Entry>, i: nat)
    requires i < |types|
    ensures types[..i + 1][..i] == types[..i] && types[..i + 1][i] == types[i]
  {
  }

  ghost predicate Progress(types: seq<Entry>, registry: map<string, int>, names: Names) {
    && Below(names, Fixpoint(types))
    && Below(SimpleNames(types), names)
    && Covers(registry, names)
    && (UniqueIds(types) ==> Inverts(registry, names))
  }

  lemma ProgressStep(types: seq<Entry>, registry: map<string, int>, names: Names, id: int, name: string)
    requires Progress(types, registry, names)
    requires id in ById(types) && id !in names && Define(ById(types)[id], names) == Some(name)
    ensures Progress(types, registry[name := id], names[id := name])
  {
    NewNameIsRight(types, names, id);
    RegistryStep(registry, names, id, name);
    hide Fixpoint, Define, SimpleNames, ById, UniqueIds, Covers, Inverts;
  }

  lemma RegistryStep(registry: map<string, int>, names: Names, id: int, name: string)
    requires id !in names && Covers(registry, names)
    ensures Covers(registry[name := id], names[id := name])
    ensures Inverts(registry, names) ==> Inverts(registry[name := id], names[id := name])
  {
  }

  ghost predicate Stuck(types: seq<Entry>, names: Names, ids: set<int>) {
    forall id :: id in ids && id in ById(types) ==> Define(ById(types)[id], names) == None
  }

  /** `load_registry_type_map`. The names are the fixpoint whatever the order in which each pass visits the
      pending ids. */
  method LoadRegistryTypeMap(types: seq<Entry>) returns (registry: map<string, int>, names: Names)
    ensures names == Fixpoint(types)
    ensures forall id :: id in ById(types) && id !in names ==> Define(ById(types)[id], names) == None
    ensures Covers(registry, names)
    ensures UniqueIds(types) ==> Inverts(registry, names)
  {
    var byId := ById(types);
    registry, names := GatherSimple(types);
    SimpleNamesKnown(types);
    StageMonotone(types, 0, |byId|);
    var pending := byId.Keys - names.Keys;
    var resolved := true;
    while resolved && pending != {}
      invariant pending == byId.Keys - names.Keys
      invariant Progress(types, registry, names)
      invariant !resolved ==> Stuck(types, names, pending)
      decreases |pending|, resolved
    {
      registry, names, pending, resolved := VisitPending(types, byId, registry, names, pending);
    }
    ExhaustedIsFixpoint(types, names);
  }

  /** One pass over a snapshot of the pending ids, picked in any order. */
  method VisitPending(types: seq<Entry>, byId: map<int, Entry>, registry0: map<string, int>, names0: Names, pending0: set<int>)
      returns (registry: map<string, int>, names: Names, pending: set<int>, resolved: bool)
    requires byId == ById(types) && pending0 == byId.Keys - names0.Keys
    requires Progress(types, registry0, names0)
    ensures pending == byId.Keys - names.Keys
    ensures Progress(types, registry, names)
    ensures resolved ==> |pending| < |pending0|
    ensures !resolved ==> pending == pending0 && names == names0 && Stuck(types, names, pending)
  {
    hide Progress, Define, ById;
    registry, names, pending, resolved := registry0, names0, pending0, false;
    var visit := pending;
    while visit != {}
      invariant visit <= pending == byId.Keys - names.Keys
      invariant Progress(types, registry, names)
      invariant !resolved ==> pending == pending0 && names == names0 && Stuck(types, names, pending - visit)
      invariant resolved ==> pending < pending0
      decreases visit
    {
      ghost var first := Member(visit);
      var id :| id in visit;
      visit := visit - {id};
      var name := Define(byId[id], names);
      if name.Some? {
        ProgressStep(types, registry, names, id, name.value);
        names := names[id := name.value];
        registry := registry[name.value := id];
        pending := pending - {id};
        resolved := true;
      }
    }
    if resolved {
      ProperSubset(pending, pending0);
    }
  }

  /** The first pass. */
  method GatherSimple(types: seq<Entry>) returns (registry: map<string, int>, names: Names)
    ensures names == SimpleNames(types)
    ensures Covers(registry, names)
    ensures UniqueIds(types) ==> Inverts(registry, names)
  {
    registry, names := map[], map[];
    for i := 0 to |types|
      invariant names == SimpleNames(types[..i])
      invariant Covers(registry, names)
      invariant UniqueIds(types) ==> Inverts(registry, names)
      invariant forall id :: id in names ==> exists j :: 0 <= j < i && types[j].id == id
    {
      SimpleSnoc(types, i);
      var name := SimpleName(types[i]);
      if name.Some? {
        registry := registry[name.value := types[i].id];
        names := names[types[i].id := name.value];
      }
    }
    assert types[..|types|] == types;
  }
}
