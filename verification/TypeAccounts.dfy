/** Which accounts of the registry an assigned name gives access to: those behind sequences, tuples and options
    (or vectors with a path), and no others. What is in a composite, in any other variant, in an array or in a
    compact number stays closed.
 */
module TypeAccounts {
  import opened Dicts
  import opened TypeMeaning
  import opened TypeNames
  import opened TypeReader
  import opened TypeSyntax

  /** The reader of the name of `id` goes on to the name of `next`. */
  ghost predicate OpenStep(types: seq<Entry>, id: int, next: int) {
    && id in ById(types) && id !in SimpleNames(types)
    && var e := ById(types)[id];
       if e.path != [] then Last(e.path) in {"Option", "Vec"} && e.params == [Some(next)]
       else e.def == Sequence(next) || (e.def.TupleOf? && next in e.def.ids)
  }

  /** A path of open steps through the registry that ends at a type called like the account's. */
  ghost predicate OpenPath(types: seq<Entry>, path: seq<int>) {
    && path != []
    && (forall i :: 0 <= i < |path| - 1 ==> OpenStep(types, path[i], path[i + 1]))
    && var last := path[|path| - 1]; last in Fixpoint(types) && Fixpoint(types)[last] == ACCOUNT
  }

  /* ---------- Trees are defined by trees ---------- */

  ghost predicate TreesBelow(a: Trees, b: Trees) {
    forall id :: id in a ==> id in b && b[id] == a[id]
  }

  lemma {:induction false} ParamTreesMonotone(params: seq<Option<int>>, a: Trees, b: Trees)
    requires TreesBelow(a, b) && ParamTrees(params, a).Some?
    ensures ParamTrees(params, b) == ParamTrees(params, a)
  {
    if params != [] {
      var id := params[0].value;
      assert id in a && id in b && a[id] == b[id];
      ParamTreesMonotone(params[1..], a, b);
    }
  }

  lemma DefineTreeMonotone(e: Entry, a: Trees, b: Trees)
    requires TreesBelow(a, b) && DefineTree(e, a).Some?
    ensures DefineTree(e, b) == DefineTree(e, a)
  {
    hide Print;
    if e.path != [] && e.params != [] {
      ParamTreesMonotone(e.params, a, b);
    } else if e.path == [] && e.def.TupleOf? {
      ParamTreesMonotone(Present(e.def.ids), a, b);
    }
  }

  lemma TreeStageBelow(types: seq<Entry>, k: nat)
    requires k > 0
    ensures TreesBelow(TreeStage(types, k - 1), TreeStage(types, k))
  {
    hide DefineTree;
  }

  lemma {:induction false} TreeStageDefined(types: seq<Entry>, k: nat, id: int)
    requires id in TreeStage(types, k) && id !in SimpleNames(types)
    ensures id in ById(types) && DefineTree(ById(types)[id], TreeStage(types, k)) == Some(TreeStage(types, k)[id])
  {
    hide ById, DefineTree, SimpleNames;
    if k > 0 {
      var before := TreeStage(types, k - 1);
      TreeStageBelow(types, k);
      if id in before {
        TreeStageDefined(types, k - 1, id);
      }
      DefineTreeMonotone(ById(types)[id], before, TreeStage(types, k));
    }
  }

  lemma TreeDefined(types: seq<Entry>, id: int)
    requires id in TypeTrees(types)
    ensures if id in SimpleNames(types) then TypeTrees(types)[id].Named?
            else id in ById(types) && DefineTree(ById(types)[id], TypeTrees(types)) == Some(TypeTrees(types)[id])
  {
    hide DefineTree, ById;
    if id in SimpleNames(types) {
      SimpleStays(types, |ById(types)|, id);
    } else {
      TreeStageDefined(types, |ById(types)|, id);
    }
  }

  lemma {:induction false} SimpleStays(types: seq<Entry>, k: nat, id: int)
    requires id in SimpleNames(types)
    ensures id in TreeStage(types, k) && TreeStage(types, k)[id].Named?
  {
    hide DefineTree, ById, SimpleNames;
    if k > 0 {
      SimpleStays(types, k - 1, id);
      TreeStageBelow(types, k);
    }
  }

  /* ---------- One step ---------- */

  lemma {:induction false} ParamTreesReach(params: seq<Option<int>>, trees: Trees)
    requires ParamTrees(params, trees).Some?
    ensures |ParamTrees(params, trees).value| == |params|
    ensures forall i :: 0 <= i < |params| ==>
              && params[i].Some? && params[i].value in trees
              && ParamTrees(params, trees).value[i] == trees[params[i].value]
  {
    if params != [] {
      ParamTreesReach(params[1..], trees);
      var rest := ParamTrees(params[1..], trees).value;
      forall i | 0 <= i < |params|
        ensures params[i].Some? && params[i].value in trees
                && ParamTrees(params, trees).value[i] == trees[params[i].value]
      {
        if i > 0 {
          assert params[i] == params[1..][i - 1] && ([trees[params[0].value]] + rest)[i] == rest[i - 1];
        }
      }
    }
  }

  lemma {:induction false} SomeReachesAt(ts: seq<Type>)
    ensures SomeReaches(ts) <==> exists i :: 0 <= i < |ts| && Reaches(ts[i])
  {
    hide Reaches;
    if ts != [] {
      SomeReachesAt(ts[1..]);
      if i :| 0 <= i < |ts| && Reaches(ts[i]) {
        assert i > 0 ==> ts[1..][i - 1] == ts[i];
      }
      if SomeReaches(ts) && !Reaches(ts[0]) {
        var i :| 0 <= i < |ts[1..]| && Reaches(ts[1..][i]);
        assert ts[i + 1] == ts[1..][i];
      }
    }
  }

  /** The member of a tuple, or the argument, whose tree reaches an account. */
  lemma ReachingStep(types: seq<Entry>, trees: Trees, id: int) returns (next: int)
    requires id in ById(types) && id !in SimpleNames(types) && DefineTree(ById(types)[id], trees).Some?
    requires var t := DefineTree(ById(types)[id], trees).value; Reaches(t) && !t.Named?
    ensures OpenStep(types, id, next) && next in trees && Reaches(trees[next])
    ensures trees[next] < DefineTree(ById(types)[id], trees).value
  {
    var e := ById(types)[id];
    hide Print, ById, SimpleNames;
    if e.path != [] {
      ParamTreesReach(e.params, trees);
      next := e.params[0].value;
      assert e.params == [Some(next)];
    } else if e.def.TupleOf? {
      var ts := ParamTrees(Present(e.def.ids), trees).value;
      ParamTreesReach(Present(e.def.ids), trees);
      SomeReachesAt(ts);
      var i :| 0 <= i < |ts| && Reaches(ts[i]);
      next := e.def.ids[i];
      assert Present(e.def.ids)[i] == Some(next);
    } else {
      next := e.def.of;
    }
  }

  /** An open step leads to a type with a tree, and from there back to the whole. */
  lemma StepReaches(types: seq<Entry>, trees: Trees, id: int, next: int)
    requires OpenStep(types, id, next) && DefineTree(ById(types)[id], trees).Some?
    ensures next in trees
    ensures Reaches(trees[next]) ==> Reaches(DefineTree(ById(types)[id], trees).value)
  {
    var e := ById(types)[id];
    hide Print, ById, SimpleNames;
    if e.path != [] {
      ParamTreesReach(e.params, trees);
    } else if e.def.TupleOf? {
      var ts := ParamTrees(Present(e.def.ids), trees).value;
      ParamTreesReach(Present(e.def.ids), trees);
      SomeReachesAt(ts);
      var i :| 0 <= i < |e.def.ids| && e.def.ids[i] == next;
      assert Present(e.def.ids)[i] == Some(next) && ts[i] == trees[next];
    }
  }

  /* ---------- Paths ---------- */

  lemma NamedAccount(types: seq<Entry>, id: int)
    requires WellNamed(types) && id in TypeTrees(types)
    ensures id in Fixpoint(types)
    ensures Fixpoint(types)[id] == ACCOUNT <==> TypeTrees(types)[id] == Named(ACCOUNT)
  {
    hide Fixpoint, TypeTrees, Nameable;
    NamesArePrintedTrees(types);
    TreesAreNameable(types);
    PrintIsAccount(TypeTrees(types)[id]);
  }

  lemma {:induction false} ReachingPath(types: seq<Entry>, id: int) returns (path: seq<int>)
    requires WellNamed(types) && id in TypeTrees(types) && Reaches(TypeTrees(types)[id])
    ensures path != [] && OpenPath(types, path) && path[0] == id
    decreases TypeTrees(types)[id]
  {
    hide TypeTrees, Fixpoint, OpenStep, WellNamed, DefineTree;
    var t := TypeTrees(types)[id];
    NamedAccount(types, id);
    if t.Named? {
      path := [id];
    } else {
      TreeDefined(types, id);
      var next := ReachingStep(types, TypeTrees(types), id);
      var rest := ReachingPath(types, next);
      path := [id] + rest;
      forall i | 0 <= i < |path| - 1 ensures OpenStep(types, path[i], path[i + 1]) {
        assert i > 0 ==> path[i] == rest[i - 1] && path[i + 1] == rest[i];
      }
    }
  }

  lemma {:induction false} PathReaches(types: seq<Entry>, path: seq<int>)
    requires WellNamed(types) && OpenPath(types, path) && path[0] in TypeTrees(types)
    ensures Reaches(TypeTrees(types)[path[0]])
    decreases |path|
  {
    hide TypeTrees, Fixpoint, WellNamed, DefineTree, ById, SimpleNames;
    if |path| == 1 {
      NamedAccount(types, path[0]);
    } else {
      assert OpenStep(types, path[0], path[1]);
      TreeDefined(types, path[0]);
      StepReaches(types, TypeTrees(types), path[0], path[1]);
      RestOfPath(types, path);
      PathReaches(types, path[1..]);
    }
  }

  lemma RestOfPath(types: seq<Entry>, path: seq<int>)
    requires OpenPath(types, path) && |path| > 1
    ensures OpenPath(types, path[1..])
  {
    hide OpenStep, Fixpoint;
    forall i | 0 <= i < |path[1..]| - 1 ensures OpenStep(types, path[1..][i], path[1..][i + 1]) {
      assert OpenStep(types, path[i + 1], path[i + 2]);
    }
  }

  /** The name assigned to an id lets accounts be found in its values exactly when there is a path of open steps
      through the registry from that id to a type called like the account's, for every registry, cycles included. */
  lemma AccountsReachedIff(types: seq<Entry>, id: int)
    requires WellNamed(types) && id in Fixpoint(types)
    ensures id in TypeTrees(types)
    ensures Reaches(TypeTrees(types)[id]) <==> exists path: seq<int> :: path != [] && OpenPath(types, path) && path[0] == id
  {
    hide TypeTrees, Fixpoint, WellNamed, OpenPath, Reaches;
    NamesArePrintedTrees(types);
    if Reaches(TypeTrees(types)[id]) {
      var path := ReachingPath(types, id);
    }
    forall path: seq<int> | path != [] && OpenPath(types, path) && path[0] == id ensures Reaches(TypeTrees(types)[id]) {
      PathReaches(types, path);
    }
  }
}
