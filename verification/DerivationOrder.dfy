/**
  Dependency order of derivations (`topological_sort` in snix-redox/src/local_build.rs):
  a depth-first search that appends each derivation after its inputs.
 */
module DerivationOrder {
  import opened Results
  import opened Listings
  import opened Graph
  import Store

  /** Derivations are identified by their store path. */
  type DrvPath = Store.StorePath

  /** Input derivations and output store paths; an output whose path is not known in advance is `None`. */
  datatype Derivation = Derivation(inputs: seq<DrvPath>, outputs: seq<Option<Store.StorePath>>)

  type Known = map<DrvPath, Derivation>

  function Inputs(known: Known, d: DrvPath): set<DrvPath> {
    if d in known then Elems(known[d].inputs) else {}
  }

  function InputGraph(known: Known): DrvPath -> set<DrvPath> {
    d => Inputs(known, d)
  }

  ghost predicate Needs(known: Known, d: DrvPath, x: DrvPath) {
    Reaches(InputGraph(known), d, x)
  }

  /** Every input stands strictly before the derivation that uses it. */
  ghost predicate InputsFirst(known: Known, order: seq<DrvPath>) {
    forall i :: 0 <= i < |order| ==> InputsBefore(known, order, i)
  }

  ghost predicate InputsBefore(known: Known, order: seq<DrvPath>, i: nat)
    requires i < |order|
  {
    Inputs(known, order[i]) <= Elems(order[..i])
  }

  /** `x` is finished: known, and all its inputs have been visited. */
  predicate Finished(known: Known, visited: set<DrvPath>, x: DrvPath) {
    x in known && Inputs(known, x) <= visited
  }

  /** The search between calls: visited derivations are either finished, in `order`, or on the stack. */
  ghost predicate Searching(known: Known, stack: set<DrvPath>, visited: set<DrvPath>, order: seq<DrvPath>) {
    && visited == stack + Elems(order) && stack !! Elems(order)
    && Distinct(order)
    && (forall x :: x in Elems(order) ==> Finished(known, visited, x))
    && (Acyclic(InputGraph(known)) ==> InputsFirst(known, order))
  }

  ghost predicate LeadTo(known: Known, stack: set<DrvPath>, d: DrvPath) {
    forall g :: g in stack ==> Needs(known, g, d)
  }

  /** In an acyclic graph a derivation on the stack is no input of one below it, so all inputs are finished. */
  lemma PushFinished(known: Known, stack: set<DrvPath>, visited: set<DrvPath>, order: seq<DrvPath>, d: DrvPath)
    requires d !in stack && Searching(known, stack + {d}, visited, order) && LeadTo(known, stack, d)
    requires Finished(known, visited, d)
    ensures Searching(known, stack, visited, order + [d])
  {
    ReachesSelf(InputGraph(known), d);
    ElemsExtend(order, d);
    DistinctExtend(order, d);
    if Acyclic(InputGraph(known)) {
      forall q | q in Inputs(known, d) ensures q in Elems(order) {
        if q in stack + {d} {
          BackEdgeIsCycle(InputGraph(known), q, d);
        }
      }
      InputsFirstExtend(known, order, d);
    }
  }

  lemma InputsFirstExtend(known: Known, order: seq<DrvPath>, d: DrvPath)
    requires InputsFirst(known, order) && Inputs(known, d) <= Elems(order)
    ensures InputsFirst(known, order + [d])
  {
    var longer := order + [d];
    forall i | 0 <= i < |longer| ensures InputsBefore(known, longer, i) {
      if i < |order| {
        assert InputsBefore(known, order, i);
        assert longer[..i] == order[..i];
      } else {
        assert longer[..i] == order;
      }
    }
  }

  lemma LeadToInput(known: Known, stack: set<DrvPath>, d: DrvPath, q: DrvPath)
    requires LeadTo(known, stack, d) && q in Inputs(known, d)
    ensures LeadTo(known, stack + {d}, q)
  {
    forall g | g in stack + {d} ensures Needs(known, g, q) {
      if g in stack {
        ReachesStep(InputGraph(known), g, d, q);
      } else {
        ReachesEdge(InputGraph(known), d, q);
      }
    }
  }

  /** Visiting `d` has added only derivations that `d` needs. */
  ghost predicate Added(known: Known, d: DrvPath, before: set<DrvPath>, after: set<DrvPath>) {
    before <= after && forall x :: x in after && x !in before ==> Needs(known, d, x)
  }

  lemma AddedThrough(known: Known, d: DrvPath, q: DrvPath, v0: set<DrvPath>, v1: set<DrvPath>, v2: set<DrvPath>)
    requires q in Inputs(known, d) && Added(known, d, v0, v1) && Added(known, q, v1, v2)
    ensures Added(known, d, v0, v2)
  {
    ReachesEdge(InputGraph(known), d, q);
    forall x | Needs(known, q, x) ensures Needs(known, d, x) {
      ReachesTrans(InputGraph(known), d, q, x);
    }
  }

  lemma NeedsThrough(known: Known, d: DrvPath, q: DrvPath, x: DrvPath)
    requires q in Inputs(known, d) && Needs(known, q, x)
    ensures Needs(known, d, x)
  {
    ReachesEdge(InputGraph(known), d, q);
    ReachesTrans(InputGraph(known), d, q, x);
  }

  lemma EnterStack(known: Known, stack: set<DrvPath>, visited: set<DrvPath>, order: seq<DrvPath>, d: DrvPath)
    requires Searching(known, stack, visited, order) && d !in visited
    ensures d !in stack && Searching(known, stack + {d}, visited + {d}, order)
    ensures Added(known, d, visited, visited + {d})
  {
    ReachesSelf(InputGraph(known), d);
    forall x | x in Elems(order) ensures Finished(known, visited + {d}, x) {
      assert Finished(known, visited, x);
    }
  }

  /** A finished search has visited exactly what the target needs. */
  lemma SearchDone(known: Known, target: DrvPath, visited: set<DrvPath>, order: seq<DrvPath>)
    requires Searching(known, {}, visited, order) && target in visited
    requires forall x :: x in visited ==> Needs(known, target, x)
    ensures forall x :: x in Elems(order) <==> Needs(known, target, x)
    ensures forall x :: Needs(known, target, x) ==> x in known
  {
    assert Closed(InputGraph(known), visited) by {
      assert forall x :: x in visited ==> Finished(known, visited, x);
    }
    ClosedTraps(InputGraph(known), visited, target);
    forall x | Needs(known, target, x) ensures x in known {
      assert Finished(known, visited, x);
    }
  }

  // ----- The unfolded inputs -----

  /** The inputs of a derivation unfolded into a tree and listed, each derivation after its inputs,
      without those that lie above it. */
  function Unfold(known: Known, d: DrvPath, above: set<DrvPath>): seq<DrvPath>
    decreases known.Keys - above, 0, 0
  {
    if d !in known || d in above then [] else UnfoldAll(known, known[d].inputs, above + {d}) + [d]
  }

  function UnfoldAll(known: Known, ds: seq<DrvPath>, above: set<DrvPath>): seq<DrvPath>
    decreases known.Keys - above, 1, |ds|
  {
    if ds == [] then [] else UnfoldAll(known, ds[..|ds| - 1], above) + Unfold(known, ds[|ds| - 1], above)
  }

  lemma UnfoldMore(known: Known, ds: seq<DrvPath>, above: set<DrvPath>, i: nat)
    requires i < |ds|
    ensures UnfoldAll(known, ds[..i + 1], above) == UnfoldAll(known, ds[..i], above) + Unfold(known, ds[i], above)
  {
    assert ds[..i + 1][..i] == ds[..i];
  }

  /** What a finished derivation unfolds to is finished. */
  lemma {:induction false} FinishedUnfolds(known: Known, stack: set<DrvPath>, visited: set<DrvPath>,
                                           order: seq<DrvPath>, d: DrvPath, above: set<DrvPath>)
    requires Searching(known, stack, visited, order) && d in visited && stack <= above
    ensures Elems(Unfold(known, d, above)) <= Elems(order)
    decreases known.Keys - above, 0, 0
  {
    if d in known && d !in above {
      assert Finished(known, visited, d);
      AllFinishedUnfold(known, stack, visited, order, known[d].inputs, above + {d});
      ElemsExtend(UnfoldAll(known, known[d].inputs, above + {d}), d);
    }
  }

  lemma {:induction false} AllFinishedUnfold(known: Known, stack: set<DrvPath>, visited: set<DrvPath>,
                                             order: seq<DrvPath>, ds: seq<DrvPath>, above: set<DrvPath>)
    requires Searching(known, stack, visited, order) && Elems(ds) <= visited && stack <= above
    ensures Elems(UnfoldAll(known, ds, above)) <= Elems(order)
    decreases known.Keys - above, 1, |ds|
  {
    if ds != [] {
      var init, last := ds[..|ds| - 1], ds[|ds| - 1];
      assert last in Elems(ds) && forall x :: x in Elems(init) ==> x in Elems(ds);
      AllFinishedUnfold(known, stack, visited, order, init, above);
      FinishedUnfolds(known, stack, visited, order, last, above);
      ElemsJoin(UnfoldAll(known, init, above), Unfold(known, last, above));
    }
  }

  /** A derivation that was visited before adds nothing. */
  lemma VisitedAddsNothing(known: Known, stack: set<DrvPath>, visited: set<DrvPath>, order: seq<DrvPath>, d: DrvPath)
    requires Searching(known, stack, visited, order) && d in visited
    ensures AppendNew(order, Unfold(known, d, stack)) == order
  {
    FinishedUnfolds(known, stack, visited, order, d, stack);
    AppendNothingNew(order, Unfold(known, d, stack));
  }

  /** A derivation that was not visited comes after its inputs. */
  lemma VisitAddsLast(known: Known, stack: set<DrvPath>, before: seq<DrvPath>, order: seq<DrvPath>, d: DrvPath)
    requires d in known && d !in stack && d !in order
    requires order == AppendNew(before, UnfoldAll(known, known[d].inputs, stack + {d}))
    ensures order + [d] == AppendNew(before, Unfold(known, d, stack))
  {
    var inner := UnfoldAll(known, known[d].inputs, stack + {d});
    assert (inner + [d])[..|inner|] == inner;
  }

  class Sorter {
    var visited: set<DrvPath>
    var order: seq<DrvPath>

    constructor ()
      ensures visited == {} && order == []
    {
      visited, order := {}, [];
    }

    method Visit(known: Known, d: DrvPath, ghost stack: set<DrvPath>) returns (r: Result<(), DrvPath>)
      requires Searching(known, stack, visited, order) && LeadTo(known, stack, d)
      modifies this
      decreases known.Keys - visited, 0
      ensures Added(known, d, old(visited), visited)
      ensures r.Success? ==> d in visited && Searching(known, stack, visited, order)
      ensures r.Success? && d !in old(visited) ==> order != [] && order[|order| - 1] == d
      ensures r.Success? ==> order == AppendNew(old(order), Unfold(known, d, stack))
      ensures r.Failure? ==> Needs(known, d, r.error) && r.error !in known
    {
      if d in visited {
        VisitedAddsNothing(known, stack, visited, order, d);
        return Success(());
      }
      EnterStack(known, stack, visited, order, d);
      visited := visited + {d};
      if d !in known {
        return Failure(d);
      }
      r := VisitInputs(known, d, stack);
      if r.Success? {
        PushFinished(known, stack, visited, order, d);
        VisitAddsLast(known, stack, old(order), order, d);
        order := order + [d];
      }
    }

    /** The loop over the inputs of a derivation that has just been put on the stack. */
    method VisitInputs(known: Known, d: DrvPath, ghost stack: set<DrvPath>) returns (r: Result<(), DrvPath>)
      requires d in known && Searching(known, stack + {d}, visited, order) && LeadTo(known, stack, d)
      modifies this
      decreases known.Keys - visited, 1
      ensures Added(known, d, old(visited), visited)
      ensures r.Success? ==> Searching(known, stack + {d}, visited, order)
      ensures r.Success? ==> Finished(known, visited, d)
      ensures r.Success? ==> order == AppendNew(old(order), UnfoldAll(known, known[d].inputs, stack + {d}))
      ensures r.Failure? ==> Needs(known, d, r.error) && r.error !in known
    {
      var inputs := known[d].inputs;
      for i := 0 to |inputs|
        invariant Added(known, d, old(visited), visited)
        invariant Searching(known, stack + {d}, visited, order)
        invariant Elems(inputs[..i]) <= visited
        invariant order == AppendNew(old(order), UnfoldAll(known, inputs[..i], stack + {d}))
      {
        var q := inputs[i];
        LeadToInput(known, stack, d, q);
        ghost var before := visited;
        r := Visit(known, q, stack + {d});
        assert inputs[..i + 1] == inputs[..i] + [q];
        ElemsExtend(inputs[..i], q);
        AddedThrough(known, d, q, old(visited), before, visited);
        UnfoldMore(known, inputs, stack + {d}, i);
        AppendNewJoin(old(order), UnfoldAll(known, inputs[..i], stack + {d}), Unfold(known, q, stack + {d}));
        if r.Failure? {
          NeedsThrough(known, d, q, r.error);
          return;
        }
      }
      assert inputs[..|inputs|] == inputs;
      r := Success(());
    }
  }

  /** The first occurrences in the unfolded inputs of the target. */
  predicate UnfoldedOrder(known: Known, target: DrvPath, order: seq<DrvPath>) {
    order == AppendNew([], Unfold(known, target, {}))
  }

  /** Dependencies first, the target last. */
  method TopologicalSort(known: Known, target: DrvPath) returns (r: Result<seq<DrvPath>, DrvPath>)
    ensures r.Success? <==> forall x :: Needs(known, target, x) ==> x in known
    ensures r.Success? ==> Distinct(r.value) && forall x :: x in Elems(r.value) <==> Needs(known, target, x)
    ensures r.Success? ==> r.value != [] && r.value[|r.value| - 1] == target
    ensures r.Success? && Acyclic(InputGraph(known)) ==> InputsFirst(known, r.value)
    ensures r.Success? ==> UnfoldedOrder(known, target, r.value)
    ensures r.Failure? ==> Needs(known, target, r.error) && r.error !in known
  {
    var s := new Sorter();
    var done := s.Visit(known, target, {});
    if done.Failure? {
      return Failure(done.error);
    }
    SearchDone(known, target, s.visited, s.order);
    r := Success(s.order);
  }
}
