/** Building a derivation and its missing dependencies. */
module LocalBuild {
  // `build_needed_with_options` in snix-redox/src/local_build.rs. The builder is abstract: it maps a
  // derivation and the present store paths to an outcome. What it creates stays; it never removes
  // anything.

  import opened Results
  import opened Listings
  import opened Graph
  import opened DerivationOrder

  type Path = Store.StorePath

  /** What a builder run produces: files in either case, a result or an error. */
  datatype Outcome = Built(created: set<Path>, result: string) | Failed(left: set<Path>, error: string)

  type Builder = (DrvPath, set<Path>) -> Outcome

  datatype BuildError =
    | UnknownDerivation(drv: DrvPath)
    | BuildFailed(error: string)
    | ReadFailed(error: string)
    | DependencyFailed(drv: DrvPath, cause: BuildError)

  /** One started build: the derivation and the store paths present at that moment. */
  datatype Start = Start(drv: DrvPath, present: set<Path>)

  function OutPaths(known: Known, d: DrvPath): set<Path> {
    if d in known then set o | o in known[d].outputs && o.Some? :: o.value else {}
  }

  /** The test that lets a derivation be skipped: every output has a known path that exists. */
  predicate AllExist(known: Known, d: DrvPath, present: set<Path>)
    requires d in known
  {
    forall o :: o in known[d].outputs ==> o.Some? && o.value in present
  }

  predicate HonestAt(known: Known, builder: Builder, d: DrvPath, present: set<Path>) {
    builder(d, present).Built? ==> OutPaths(known, d) <= present + builder(d, present).created
  }

  /** A successful build creates every output whose path is known. */
  ghost predicate Honest(known: Known, builder: Builder) {
    forall d, present :: HonestAt(known, builder, d, present)
  }

  ghost predicate Succeeded(builder: Builder, s: Start) {
    builder(s.drv, s.present).Built?
  }

  /** The outputs of everything in `ds` are in place. */
  ghost predicate InPlace(known: Known, ds: set<DrvPath>, present: set<Path>) {
    forall d :: d in ds ==> OutPaths(known, d) <= present
  }

  /** The inputs of a started derivation were all in place when it was started. */
  ghost predicate InputsReady(known: Known, s: Start) {
    InPlace(known, Inputs(known, s.drv), s.present)
  }

  /** Every started build succeeded. */
  ghost predicate GoodRun(builder: Builder, starts: seq<Start>) {
    forall i :: 0 <= i < |starts| ==> Succeeded(builder, starts[i])
  }

  ghost predicate AllReady(known: Known, starts: seq<Start>) {
    forall i :: 0 <= i < |starts| ==> InputsReady(known, starts[i])
  }

  /** How the last started build explains the answer. */
  ghost predicate Explains(builder: Builder, existing: DrvPath -> Result<string, string>, target: DrvPath,
                           starts: seq<Start>, r: Result<string, BuildError>)
  {
    match r
    case Success(value) =>
      || (existing(target) == Success(value) && (starts == [] || starts[|starts| - 1].drv != target))
      || (starts != [] && var s := starts[|starts| - 1];
          s.drv == target && Succeeded(builder, s) && builder(target, s.present).result == value)
    case Failure(UnknownDerivation(_)) => starts == []
    case Failure(ReadFailed(error)) => existing(target) == Failure(error)
    case Failure(BuildFailed(error)) =>
      starts != [] && var s := starts[|starts| - 1];
      s.drv == target && !Succeeded(builder, s) && builder(target, s.present).error == error
    case Failure(DependencyFailed(drv, cause)) =>
      starts != [] && var s := starts[|starts| - 1];
      s.drv == drv != target && !Succeeded(builder, s) && cause == BuildFailed(builder(drv, s.present).error)
  }

  /** In an input-first order, what precedes a derivation includes its inputs. */
  lemma InputsInPlace(known: Known, order: seq<DrvPath>, i: nat, present: set<Path>)
    requires i < |order| && InputsFirst(known, order) && InPlace(known, Elems(order[..i]), present)
    ensures InputsReady(known, Start(order[i], present))
  {
    assert InputsBefore(known, order, i);
  }

  lemma OneMoreInPlace(known: Known, order: seq<DrvPath>, i: nat, before: set<Path>, after: set<Path>)
    requires i < |order| && InPlace(known, Elems(order[..i]), before) && before <= after
    requires OutPaths(known, order[i]) <= after
    ensures InPlace(known, Elems(order[..i + 1]), after)
  {
  }

  /** A derivation without a missing output needs no builder. */
  predicate Complete(known: Known, d: DrvPath, present: set<Path>) {
    d in known && AllExist(known, d, present)
  }

  /** That is: every output has a known path, and all of these exist. */
  lemma CompleteMeans(known: Known, d: DrvPath, present: set<Path>)
    ensures Complete(known, d, present) <==> d in known && None !in known[d].outputs && OutPaths(known, d) <= present
  {
    if d in known && None !in known[d].outputs && OutPaths(known, d) <= present {
      forall o | o in known[d].outputs ensures o.Some? && o.value in present {
        assert o != None;
        assert o.value in OutPaths(known, d);
      }
    }
  }

  /** Builder runs for some derivations: at most one each, and only where an output is missing at
      that moment. */
  ghost predicate StartsFor(known: Known, ds: set<DrvPath>, starts: seq<Start>) {
    && (forall i :: 0 <= i < |starts| ==> starts[i].drv in ds && !Complete(known, starts[i].drv, starts[i].present))
    && StartedOnce(starts)
  }

  predicate StartedOnce(starts: seq<Start>) {
    forall i, j :: 0 <= i < j < |starts| ==> starts[i].drv != starts[j].drv
  }

  /** The same for everything that a target needs. */
  ghost predicate LeanRun(known: Known, target: DrvPath, starts: seq<Start>) {
    && (forall i :: 0 <= i < |starts| ==>
          Needs(known, target, starts[i].drv) && !Complete(known, starts[i].drv, starts[i].present))
    && StartedOnce(starts)
  }

  /** Every derivation was started, or its outputs all exist. */
  ghost predicate Handled(known: Known, ds: set<DrvPath>, starts: seq<Start>, present: set<Path>) {
    forall d :: d in ds ==> Complete(known, d, present) || Started(starts, d)
  }

  ghost predicate Started(starts: seq<Start>, d: DrvPath) {
    exists j :: 0 <= j < |starts| && starts[j].drv == d
  }

  /** One more derivation, skipped or started. */
  lemma OneMoreStart(known: Known, order: seq<DrvPath>, i: nat, starts: seq<Start>, started: seq<Start>,
                     before: set<Path>)
    requires Distinct(order) && i < |order| && order[i] in known && StartsFor(known, Elems(order[..i]), starts)
    requires started == if AllExist(known, order[i], before) then [] else [Start(order[i], before)]
    ensures StartsFor(known, Elems(order[..i + 1]), starts + started)
  {
    OneMore(order, i);
    if order[i] in Elems(order[..i]) {
      var j :| 0 <= j < i && order[j] == order[i];
      RepeatedIsNotDistinct(order, j, i);
    }
  }

  lemma OneMoreHandled(known: Known, order: seq<DrvPath>, i: nat, starts: seq<Start>, started: seq<Start>,
                       before: set<Path>, after: set<Path>)
    requires i < |order| && order[i] in known && Handled(known, Elems(order[..i]), starts, before) && before <= after
    requires started == if AllExist(known, order[i], before) then [] else [Start(order[i], before)]
    ensures Handled(known, Elems(order[..i + 1]), starts + started, after)
  {
    OneMore(order, i);
    StartedMore(starts, started);
    if started != [] {
      assert (starts + started)[|starts|].drv == order[i];
    }
  }

  lemma OneMore(order: seq<DrvPath>, i: nat)
    requires i < |order|
    ensures Elems(order[..i + 1]) == Elems(order[..i]) + {order[i]}
  {
    assert order[..i + 1] == order[..i] + [order[i]];
    ElemsExtend(order[..i], order[i]);
  }

  lemma StartedMore(starts: seq<Start>, started: seq<Start>)
    ensures forall d :: Started(starts, d) ==> Started(starts + started, d)
  {
    forall d | Started(starts, d) ensures Started(starts + started, d) {
      var k :| 0 <= k < |starts| && starts[k].drv == d;
      assert (starts + started)[k].drv == d;
    }
  }

  lemma StartsAreLean(known: Known, target: DrvPath, order: seq<DrvPath>, i: nat, starts: seq<Start>)
    requires i <= |order| && StartsFor(known, Elems(order[..i]), starts)
    requires forall x :: x in Elems(order) ==> Needs(known, target, x)
    ensures LeanRun(known, target, starts)
  {
    assert Elems(order[..i]) <= Elems(order);
  }

  /** The run after `i` derivations of the order, none of which failed. */
  ghost predicate Underway(known: Known, builder: Builder, order: seq<DrvPath>, i: nat, starts: seq<Start>,
                           present: set<Path>)
    requires i <= |order|
  {
    var done := Elems(order[..i]);
    && GoodRun(builder, starts) && StartsFor(known, done, starts) && Handled(known, done, starts, present)
    && (Honest(known, builder) ==> InPlace(known, done, present))
    && (Honest(known, builder) && InputsFirst(known, order) ==> AllReady(known, starts))
  }

  /** What holds of the runs up to and including one that may have failed. */
  lemma Attempted(known: Known, target: DrvPath, builder: Builder, order: seq<DrvPath>, i: nat, starts: seq<Start>,
                  started: seq<Start>, before: set<Path>)
    requires i < |order| && order[i] in known && Distinct(order)
    requires forall x :: x in Elems(order) ==> Needs(known, target, x)
    requires Underway(known, builder, order, i, starts, before)
    requires started == if AllExist(known, order[i], before) then [] else [Start(order[i], before)]
    ensures StartsFor(known, Elems(order[..i + 1]), starts + started) && LeanRun(known, target, starts + started)
    ensures Honest(known, builder) && InputsFirst(known, order) ==> AllReady(known, starts + started)
    ensures started != [] ==> (starts + started)[..|starts + started| - 1] == starts
    ensures starts + started != [] ==> GoodRun(builder, (starts + started)[..|starts + started| - 1])
  {
    OneMoreStart(known, order, i, starts, started, before);
    StartsAreLean(known, target, order, i + 1, starts + started);
    if Honest(known, builder) && InputsFirst(known, order) {
      InputsInPlace(known, order, i, before);
    }
    if started == [] {
      assert starts + started == starts;
    } else {
      assert (starts + started)[..|starts + started| - 1] == starts;
    }
  }

  /** One more derivation that did not fail. */
  lemma Advance(known: Known, target: DrvPath, builder: Builder, order: seq<DrvPath>, i: nat, starts: seq<Start>,
                started: seq<Start>, before: set<Path>, after: set<Path>)
    requires i < |order| && order[i] in known && Distinct(order)
    requires forall x :: x in Elems(order) ==> Needs(known, target, x)
    requires Underway(known, builder, order, i, starts, before) && before <= after
    requires started == if AllExist(known, order[i], before) then [] else [Start(order[i], before)]
    requires GoodRun(builder, started)
    requires HonestAt(known, builder, order[i], before) ==> OutPaths(known, order[i]) <= after
    ensures Underway(known, builder, order, i + 1, starts + started, after)
  {
    Attempted(known, target, builder, order, i, starts, started, before);
    OneMoreHandled(known, order, i, starts, started, before, after);
    if Honest(known, builder) {
      assert HonestAt(known, builder, order[i], before);
      OneMoreInPlace(known, order, i, before, after);
    }
  }

  class Workshop {
    var present: set<Path>

    /** Run the builder. */
    method Build(builder: Builder, d: DrvPath) returns (r: Result<string, string>)
      modifies this
      ensures r.Success? <==> builder(d, old(present)).Built?
      ensures r.Success? ==>
                r.value == builder(d, old(present)).result && present == old(present) + builder(d, old(present)).created
      ensures r.Failure? ==>
                r.error == builder(d, old(present)).error && present == old(present) + builder(d, old(present)).left
    {
      match builder(d, present)
      case Built(created, result) =>
        present := present + created;
        r := Success(result);
      case Failed(left, error) =>
        present := present + left;
        r := Failure(error);
    }

    /** Skip or build one derivation; `started` is the builder run, if any. */
    method BuildOne(known: Known, target: DrvPath, d: DrvPath, builder: Builder,
                    existing: DrvPath -> Result<string, string>)
      returns (r: Result<Option<string>, BuildError>, ghost started: seq<Start>)
      requires d in known
      modifies this
      ensures old(present) <= present
      ensures started == if AllExist(known, d, old(present)) then [] else [Start(d, old(present))]
      ensures r.Success? ==> GoodRun(builder, started) && (r.value.Some? <==> d == target)
      ensures r.Success? && HonestAt(known, builder, d, old(present)) ==> OutPaths(known, d) <= present
      ensures r.Success? && d == target ==> Explains(builder, existing, target, started, Success(r.value.value))
      ensures r.Failure? ==>
                !r.error.UnknownDerivation? && Explains(builder, existing, target, started, Failure(r.error))
    {
      started := [];
      if AllExist(known, d, present) {
        if d != target {
          return Success(None), [];
        }
        var found := existing(d);
        if found.Failure? {
          return Failure(ReadFailed(found.error)), [];
        }
        return Success(Some(found.value)), [];
      }
      started := [Start(d, present)];
      var result := Build(builder, d);
      if result.Failure? {
        var error := BuildFailed(result.error);
        return Failure(if d != target then DependencyFailed(d, error) else error), started;
      }
      r := Success(if d == target then Some(result.value) else None);
    }

    /** Build the target after everything it needs. `existing` reads the result of a target that is
        already there; `starts` lists the builder runs. */
    method BuildNeeded(known: Known, target: DrvPath, builder: Builder, existing: DrvPath -> Result<string, string>)
      returns (r: Result<string, BuildError>, ghost starts: seq<Start>)
      modifies this
      ensures old(present) <= present
      ensures Acyclic(InputGraph(known)) && Honest(known, builder) ==> AllReady(known, starts)
      ensures LeanRun(known, target, starts)
      ensures r.Success? ==> GoodRun(builder, starts)
      ensures r.Success? ==> forall d :: Needs(known, target, d) ==> Complete(known, d, present) || Started(starts, d)
      ensures starts != [] ==> GoodRun(builder, starts[..|starts| - 1])
      ensures Explains(builder, existing, target, starts, r)
      ensures r.Success? && Honest(known, builder) ==>
                forall d :: Needs(known, target, d) ==> OutPaths(known, d) <= present
      ensures r.Failure? && r.error.UnknownDerivation? <==> exists x :: Needs(known, target, x) && x !in known
      ensures r.Failure? && r.error.UnknownDerivation? ==> present == old(present)
    {
      starts := [];
      var sorted := TopologicalSort(known, target);
      if sorted.Failure? {
        return Failure(UnknownDerivation(sorted.error)), [];
      }
      assert forall x :: x in Elems(sorted.value) <==> Needs(known, target, x);
      r, starts := BuildInOrder(known, target, sorted.value, builder, existing);
    }

    /** One step of the loop; `earlier` are the builder runs before it. */
    method BuildNext(known: Known, target: DrvPath, order: seq<DrvPath>, i: nat, builder: Builder,
                     existing: DrvPath -> Result<string, string>, ghost earlier: seq<Start>)
      returns (r: Result<Option<string>, BuildError>, ghost starts: seq<Start>)
      requires Distinct(order) && i < |order| && order[|order| - 1] == target
      requires forall x :: x in Elems(order) ==> x in known && Needs(known, target, x)
      requires Underway(known, builder, order, i, earlier, present) && NotStarted(target, earlier)
      modifies this
      ensures old(present) <= present && LeanRun(known, target, starts)
      ensures Honest(known, builder) && InputsFirst(known, order) ==> AllReady(known, starts)
      ensures starts != [] ==> GoodRun(builder, starts[..|starts| - 1])
      ensures r.Success? ==> Underway(known, builder, order, i + 1, starts, present)
      ensures r.Success? && i < |order| - 1 ==> r.value.None? && NotStarted(target, starts)
      ensures r.Success? && i == |order| - 1 ==>
                r.value.Some? && Explains(builder, existing, target, starts, Success(r.value.value))
      ensures r.Failure? ==>
                !r.error.UnknownDerivation? && Explains(builder, existing, target, starts, Failure(r.error))
    {
      var d := order[i];
      assert d in Elems(order);
      RepeatedTarget(order, i, target);
      ghost var before, started := present, [];
      r, started := BuildOne(known, target, d, builder, existing);
      starts := earlier + started;
      Attempted(known, target, builder, order, i, earlier, started, before);
      if r.Failure? {
        ExplainsLonger(builder, existing, target, earlier, started, Failure(r.error));
      } else {
        Advance(known, target, builder, order, i, earlier, started, before, present);
        if r.value.Some? {
          ExplainsLonger(builder, existing, target, earlier, started, Success(r.value.value));
        } else {
          NotStartedLonger(target, earlier, started);
        }
      }
    }

    /** The loop over an order that ends with the target. */
    method BuildInOrder(known: Known, target: DrvPath, order: seq<DrvPath>, builder: Builder,
                        existing: DrvPath -> Result<string, string>)
      returns (r: Result<string, BuildError>, ghost starts: seq<Start>)
      requires Distinct(order) && order != [] && order[|order| - 1] == target
      requires forall x :: x in Elems(order) ==> x in known && Needs(known, target, x)
      modifies this
      ensures old(present) <= present && LeanRun(known, target, starts)
      ensures Honest(known, builder) && InputsFirst(known, order) ==> AllReady(known, starts)
      ensures r.Success? ==> GoodRun(builder, starts) && Handled(known, Elems(order), starts, present)
      ensures r.Success? && Honest(known, builder) ==> InPlace(known, Elems(order), present)
      ensures starts != [] ==> GoodRun(builder, starts[..|starts| - 1])
      ensures Explains(builder, existing, target, starts, r)
      ensures r.Failure? ==> !r.error.UnknownDerivation?
    {
      starts := [];
      var last := None;
      for i := 0 to |order|
        invariant old(present) <= present && Underway(known, builder, order, i, starts, present)
        invariant LeanRun(known, target, starts)
        invariant i < |order| ==> NotStarted(target, starts)
        invariant i == |order| ==> last.Some? && Explains(builder, existing, target, starts, Success(last.value))
      {
        var step;
        step, starts := BuildNext(known, target, order, i, builder, existing, starts);
        if step.Failure? {
          return Failure(step.error), starts;
        }
        if step.value.Some? {
          last := step.value;
        }
      }
      assert order[..|order|] == order;
      r := Success(last.value);
    }
  }

  /** The last started build explains the answer, whatever was started before it. */
  lemma ExplainsLonger(builder: Builder, existing: DrvPath -> Result<string, string>, target: DrvPath,
                       earlier: seq<Start>, started: seq<Start>, r: Result<string, BuildError>)
    requires NotStarted(target, earlier) && Explains(builder, existing, target, started, r)
    requires r.Failure? ==> !r.error.UnknownDerivation?
    ensures Explains(builder, existing, target, earlier + started, r)
  {
    if started == [] {
      assert earlier + started == earlier;
    } else {
      assert (earlier + started)[|earlier + started| - 1] == started[|started| - 1];
    }
  }

  lemma NotStartedLonger(target: DrvPath, earlier: seq<Start>, started: seq<Start>)
    requires NotStarted(target, earlier) && NotStarted(target, started)
    ensures NotStarted(target, earlier + started)
  {
    if started == [] {
      assert earlier + started == earlier;
    }
  }

  ghost predicate NotStarted(target: DrvPath, starts: seq<Start>) {
    starts == [] || starts[|starts| - 1].drv != target
  }

  lemma RepeatedTarget(order: seq<DrvPath>, i: nat, target: DrvPath)
    requires Distinct(order) && i < |order| && order[|order| - 1] == target
    ensures order[i] == target <==> i == |order| - 1
  {
    if order[i] == target {
      RepeatedIsNotDistinct(order, i, |order| - 1);
    }
  }
}
