/**
  Ordering of activation scripts by Kahn's algorithm (`topo_sort` in
  snix-redox/src/activate.rs).
 */
module ScriptOrder {
  import opened Results
  import opened Bytes
  import opened Listings
  import opened Graph
  import opened Cycles
  import opened ScriptQueue

  datatype Script = Script(name: Text, deps: seq<Text>)

  datatype SortError = UnknownDep(script: Text, dep: Text) | Cycle(stuck: set<Text>)

  // ----- What a list of scripts means -----

  function NamesOf(scripts: seq<Script>): seq<Text> {
    seq(|scripts|, i requires 0 <= i < |scripts| => scripts[i].name)
  }

  function Names(scripts: seq<Script>): set<Text> {
    set s | s in scripts :: s.name
  }

  /** One occurrence of a dependency in some script's list. */
  datatype Use = Use(script: Text, dep: Text)

  function UsesOf(name: Text, deps: seq<Text>): seq<Use> {
    seq(|deps|, i requires 0 <= i < |deps| => Use(name, deps[i]))
  }

  /** Every occurrence of every dependency, repetitions included. */
  function Uses(scripts: seq<Script>): seq<Use> {
    if scripts == [] then []
    else Uses(scripts[..|scripts| - 1]) + UsesOf(scripts[|scripts| - 1].name, scripts[|scripts| - 1].deps)
  }

  /** The dependency graph: only who depends on whom, without any order. */
  function DepsOf(scripts: seq<Script>): DepMap {
    map n | n in Names(scripts) :: set u | u in Uses(scripts) && u.script == n :: u.dep
  }

  function Edges(m: DepMap): Text -> set<Text> {
    n => if n in m then m[n] else {}
  }

  predicate KnownDeps(scripts: seq<Script>) {
    forall s, d :: s in scripts && d in s.deps ==> d in Names(scripts)
  }

  ghost predicate Sortable(scripts: seq<Script>) {
    Distinct(NamesOf(scripts)) && KnownDeps(scripts) && Acyclic(Edges(DepsOf(scripts)))
  }

  lemma {:induction false} UsesAre(scripts: seq<Script>, n: Text, d: Text)
    ensures Use(n, d) in Uses(scripts) <==> exists s :: s in scripts && s.name == n && d in s.deps
  {
    if scripts != [] {
      var rest, last := scripts[..|scripts| - 1], scripts[|scripts| - 1];
      UsesAre(rest, n, d);
      assert scripts == rest + [last];
      var own := UsesOf(last.name, last.deps);
      if d in last.deps && n == last.name {
        var i :| 0 <= i < |last.deps| && last.deps[i] == d;
        assert own[i] == Use(n, d);
      }
    }
  }

  // ----- Counting dependencies that are still outstanding -----

  function Outstanding(uses: seq<Use>, n: Text, done: set<Text>): nat {
    if uses == [] then 0
    else
      var u := uses[|uses| - 1];
      Outstanding(uses[..|uses| - 1], n, done) + (if u.script == n && u.dep !in done then 1 else 0)
  }

  lemma {:induction false} OutstandingDrop(uses: seq<Use>, n: Text, done: set<Text>, x: Text)
    requires x !in done
    ensures Outstanding(uses, n, done) == Outstanding(uses, n, done + {x}) + multiset(uses)[Use(n, x)]
  {
    if uses != [] {
      var rest, last := uses[..|uses| - 1], uses[|uses| - 1];
      OutstandingDrop(rest, n, done, x);
      assert uses == rest + [last];
    }
  }

  lemma {:induction false} OutstandingZero(uses: seq<Use>, n: Text, done: set<Text>)
    ensures Outstanding(uses, n, done) == 0 <==> forall d :: Use(n, d) in uses ==> d in done
  {
    if uses != [] {
      var rest, last := uses[..|uses| - 1], uses[|uses| - 1];
      OutstandingZero(rest, n, done);
      assert uses == rest + [last];
      if last.script == n && last.dep !in done {
        assert Use(n, last.dep) in uses;
      }
    }
  }

  // ----- Building the tables -----

  function Listed(dependents: map<Text, seq<Text>>, d: Text): seq<Text> {
    if d in dependents then dependents[d] else []
  }

  /** `n` is listed under `d` once for every time it names `d` as a dependency. */
  ghost predicate ListedRight(uses: seq<Use>, dependents: map<Text, seq<Text>>, n: Text, d: Text) {
    multiset(Listed(dependents, d))[n] == multiset(uses)[Use(n, d)]
  }

  ghost predicate Lists(uses: seq<Use>, dependents: map<Text, seq<Text>>) {
    forall n, d :: ListedRight(uses, dependents, n, d)
  }

  ghost predicate Degrees(names: set<Text>, uses: seq<Use>, done: set<Text>, inDegree: map<Text, nat>) {
    && inDegree.Keys == names
    && forall n :: n in names ==> inDegree[n] == Outstanding(uses, n, done)
  }

  lemma AddListed(uses: seq<Use>, dependents: map<Text, seq<Text>>, u: Use)
    requires Lists(uses, dependents)
    ensures Lists(uses + [u], dependents[u.dep := Listed(dependents, u.dep) + [u.script]])
  {
    var after := dependents[u.dep := Listed(dependents, u.dep) + [u.script]];
    forall n, d ensures ListedRight(uses + [u], after, n, d) {
      assert ListedRight(uses, dependents, n, d);
      assert multiset(uses + [u]) == multiset(uses) + multiset{u};
      assert multiset(Listed(dependents, u.dep) + [u.script])
          == multiset(Listed(dependents, u.dep)) + multiset{u.script};
    }
  }

  lemma {:induction false} NoScriptNoDeps(scripts: seq<Script>, n: Text)
    ensures n !in Names(scripts) ==> Outstanding(Uses(scripts), n, {}) == 0
  {
    OutstandingZero(Uses(scripts), n, {});
    if Outstanding(Uses(scripts), n, {}) != 0 {
      var d :| Use(n, d) in Uses(scripts);
      UsesAre(scripts, n, d);
    }
  }

  /** Both tables account for the given occurrences. */
  ghost predicate Tables(names: set<Text>, uses: seq<Use>, inDegree: map<Text, nat>, dependents: map<Text, seq<Text>>) {
    Degrees(names, uses, {}, inDegree) && Lists(uses, dependents)
  }

  method AddUse(u: Use, degrees: map<Text, nat>, lists: map<Text, seq<Text>>, ghost names: set<Text>,
                ghost uses: seq<Use>)
    returns (inDegree: map<Text, nat>, dependents: map<Text, seq<Text>>)
    requires u.script in names && Tables(names, uses, degrees, lists)
    ensures Tables(names, uses + [u], inDegree, dependents)
  {
    AddListed(uses, lists, u);
    inDegree := degrees[u.script := degrees[u.script] + 1];
    dependents := lists[u.dep := Listed(lists, u.dep) + [u.script]];
  }

  /** Enter one script's dependencies into the tables. */
  method AddScript(s: Script, degrees: map<Text, nat>, lists: map<Text, seq<Text>>, ghost names: set<Text>,
                   ghost before: seq<Use>)
    returns (inDegree: map<Text, nat>, dependents: map<Text, seq<Text>>)
    requires s.name in names && Tables(names, before, degrees, lists)
    ensures Tables(names, before + UsesOf(s.name, s.deps), inDegree, dependents)
  {
    inDegree, dependents := degrees, lists;
    assert before == before + UsesOf(s.name, s.deps[..0]);
    for j := 0 to |s.deps|
      invariant Tables(names, before + UsesOf(s.name, s.deps[..j]), inDegree, dependents)
    {
      inDegree, dependents := AddUse(Use(s.name, s.deps[j]), inDegree, dependents, names,
                                     before + UsesOf(s.name, s.deps[..j]));
      UsesGrow(before, s, j);
    }
    assert s.deps[..|s.deps|] == s.deps;
  }

  lemma UsesGrow(before: seq<Use>, s: Script, j: nat)
    requires j < |s.deps|
    ensures before + UsesOf(s.name, s.deps[..j]) + [Use(s.name, s.deps[j])] == before + UsesOf(s.name, s.deps[..j + 1])
  {
  }

  method BuildTables(scripts: seq<Script>) returns (inDegree: map<Text, nat>, dependents: map<Text, seq<Text>>)
    ensures Tables(Names(scripts), Uses(scripts), inDegree, dependents)
  {
    inDegree, dependents := map[], map[];
    for i := 0 to |scripts|
      invariant Tables(Names(scripts[..i]), Uses(scripts[..i]), inDegree, dependents)
    {
      var s := scripts[i];
      ghost var before, names := Uses(scripts[..i]), Names(scripts[..i]) + {s.name};
      NoScriptNoDeps(scripts[..i], s.name);
      if s.name !in inDegree {
        inDegree := inDegree[s.name := 0];
      }
      inDegree, dependents := AddScript(s, inDegree, dependents, names, before);
      OneMoreScript(scripts, i);
    }
    assert scripts[..|scripts|] == scripts;
  }

  lemma OneMoreScript(scripts: seq<Script>, i: nat)
    requires i < |scripts|
    ensures Uses(scripts[..i + 1]) == Uses(scripts[..i]) + UsesOf(scripts[i].name, scripts[i].deps)
    ensures Names(scripts[..i + 1]) == Names(scripts[..i]) + {scripts[i].name}
  {
    assert scripts[..i + 1] == scripts[..i] + [scripts[i]];
    assert scripts[..i + 1][..i] == scripts[..i];
  }

  // ----- The main loop -----

  /** The inner loop after the names in `told` have been notified: `next` holds each of them
      that has nothing outstanding left, once. */
  ghost predicate Told(uses: seq<Use>, done: set<Text>, inDegree: map<Text, nat>, told: multiset<Text>,
                       next: multiset<Text>, n: Text) {
    if n in inDegree then
      && inDegree[n] + told[n] == Outstanding(uses, n, done)
      && next[n] == Once(told[n] > 0 && inDegree[n] == 0)
    else next[n] == 0
  }

  ghost predicate Releasing(uses: seq<Use>, done: set<Text>, inDegree: map<Text, nat>, told: multiset<Text>,
                            next: multiset<Text>) {
    forall n :: Told(uses, done, inDegree, told, next, n)
  }

  lemma ReleaseOne(uses: seq<Use>, done: set<Text>, inDegree: map<Text, nat>, told: multiset<Text>,
                   next: multiset<Text>, n: Text)
    requires Releasing(uses, done, inDegree, told, next)
    requires n in inDegree && told[n] < Outstanding(uses, n, done)
    ensures inDegree[n] > 0
    ensures var after := inDegree[n := inDegree[n] - 1];
            Releasing(uses, done, after, told + multiset{n}, if after[n] == 0 then next + multiset{n} else next)
  {
    assert Told(uses, done, inDegree, told, next, n);
    var after := inDegree[n := inDegree[n] - 1];
    var next' := if after[n] == 0 then next + multiset{n} else next;
    forall x ensures Told(uses, done, after, told + multiset{n}, next', x) {
      assert Told(uses, done, inDegree, told, next, x);
    }
  }

  lemma ReleaseDone(names: set<Text>, uses: seq<Use>, done: set<Text>, inDegree: map<Text, nat>, listed: seq<Text>,
                    next: seq<Text>, name: Text)
    requires Releasing(uses, done, inDegree, multiset(listed), multiset(next)) && name !in done
    requires inDegree.Keys == names
    requires forall n :: multiset(listed)[n] == multiset(uses)[Use(n, name)]
    ensures Degrees(names, uses, done + {name}, inDegree)
    ensures forall n :: multiset(next)[n] == Once(n in names && Use(n, name) in uses && inDegree[n] == 0)
  {
    forall n
      ensures n in names ==> inDegree[n] == Outstanding(uses, n, done + {name})
      ensures multiset(next)[n] == Once(n in names && Use(n, name) in uses && inDegree[n] == 0)
    {
      assert Told(uses, done, inDegree, multiset(listed), multiset(next), n);
      OutstandingDrop(uses, n, done, name);
      assert Use(n, name) in multiset(uses) <==> Use(n, name) in uses;
    }
  }

  /** Lower the in-degree of everything listed under `name`; no in-degree is ever lowered below
      zero, and each script is released once even when it lists `name` repeatedly. */
  method Release(name: Text, listed: seq<Text>, degrees: map<Text, nat>, ghost names: set<Text>, ghost uses: seq<Use>,
                 ghost done: set<Text>)
    returns (inDegree: map<Text, nat>, next: seq<Text>)
    requires Degrees(names, uses, done, degrees) && name !in done
    requires forall n :: n in listed ==> n in names
    requires forall n :: multiset(listed)[n] == multiset(uses)[Use(n, name)]
    ensures Degrees(names, uses, done + {name}, inDegree)
    ensures forall n :: multiset(next)[n] == Once(n in names && Use(n, name) in uses && inDegree[n] == 0)
  {
    inDegree, next := degrees, [];
    for i := 0 to |listed|
      invariant inDegree.Keys == names && Releasing(uses, done, inDegree, multiset(listed[..i]), multiset(next))
    {
      var n := listed[i];
      PrefixCount(uses, done, listed, name, i);
      ReleaseOne(uses, done, inDegree, multiset(listed[..i]), multiset(next), n);
      inDegree := inDegree[n := inDegree[n] - 1];
      if inDegree[n] == 0 {
        next := next + [n];
      }
    }
    assert listed[..|listed|] == listed;
    ReleaseDone(names, uses, done, inDegree, listed, next, name);
  }

  lemma PrefixCount(uses: seq<Use>, done: set<Text>, listed: seq<Text>, name: Text, i: nat)
    requires i < |listed| && name !in done
    requires multiset(listed)[listed[i]] == multiset(uses)[Use(listed[i], name)]
    ensures multiset(listed[..i + 1]) == multiset(listed[..i]) + multiset{listed[i]}
    ensures multiset(listed[..i])[listed[i]] < Outstanding(uses, listed[i], done)
  {
    OutstandingDrop(uses, listed[i], done, name);
    assert listed[..i + 1] == listed[..i] + [listed[i]];
    assert listed == listed[..i + 1] + listed[i + 1..];
  }

  // ----- Whole runs -----

  /** `n` is held in result or queue, once, exactly when nothing it needs is outstanding. */
  ghost predicate Held(m: DepMap, inDegree: map<Text, nat>, held: multiset<Text>, n: Text) {
    held[n] == Once(n in m && n in inDegree && inDegree[n] == 0)
  }

  /** The state between iterations. */
  ghost predicate Progress(m: DepMap, uses: seq<Use>, inDegree: map<Text, nat>, result: seq<Text>, queue: seq<Text>) {
    && Degrees(m.Keys, uses, Elems(result), inDegree)
    && (forall n :: Held(m, inDegree, multiset(result) + multiset(queue), n))
    && DepsFirst(m, result)
  }

  ghost predicate Matches(m: DepMap, uses: seq<Use>) {
    forall n, d :: n in m ==> (d in m[n] <==> Use(n, d) in uses)
  }

  lemma DegreeZero(m: DepMap, uses: seq<Use>, done: set<Text>, inDegree: map<Text, nat>, n: Text)
    requires Matches(m, uses) && Degrees(m.Keys, uses, done, inDegree) && n in m
    ensures inDegree[n] == 0 <==> m[n] <= done
  {
    OutstandingZero(uses, n, done);
  }

  /** The next script in the queue is new and has all its dependencies behind it. */
  lemma HeadIsReady(m: DepMap, uses: seq<Use>, inDegree: map<Text, nat>, result: seq<Text>, queue: seq<Text>)
    requires Matches(m, uses) && Progress(m, uses, inDegree, result, queue) && queue != []
    ensures queue[0] in m && queue[0] !in result && m[queue[0]] <= Elems(result)
    ensures DepsFirst(m, result + [queue[0]])
  {
    var name := queue[0];
    assert queue == [name] + queue[1..];
    assert Held(m, inDegree, multiset(result) + multiset(queue), name);
    DegreeZero(m, uses, Elems(result), inDegree, name);
    DepsFirstExtend(m, result, name);
  }

  lemma DepsFirstExtend(m: DepMap, order: seq<Text>, n: Text)
    requires DepsFirst(m, order) && n in m && m[n] <= Elems(order)
    ensures DepsFirst(m, order + [n])
  {
    var longer := order + [n];
    forall i | 0 <= i < |longer| ensures DepsBefore(m, longer, i) {
      if i < |order| {
        assert DepsBefore(m, order, i);
        assert longer[..i] == order[..i];
      } else {
        assert longer[..i] == order;
      }
    }
  }

  /** Releasing the dependents of `name` queues exactly the scripts that are now ready. */
  lemma NextIsReady(m: DepMap, uses: seq<Use>, done: set<Text>, inDegree: map<Text, nat>, next: seq<Text>, name: Text)
    requires Matches(m, uses) && Degrees(m.Keys, uses, done, inDegree)
    requires forall n :: multiset(next)[n] == Once(n in m.Keys && Use(n, name) in uses && inDegree[n] == 0)
    ensures Distinct(next) && Elems(next) == Ready(m, name, done)
  {
    CountsDistinct(next);
    forall n ensures n in Elems(next) <==> n in Ready(m, name, done) {
      assert n in multiset(next) <==> n in next;
      if n in m { DegreeZero(m, uses, done, inDegree, n); }
    }
  }

  lemma HeldMoves(result: seq<Text>, queue: seq<Text>, batch: seq<Text>)
    requires queue != []
    ensures multiset(result + [queue[0]]) + multiset(queue[1..] + batch)
            == multiset(result) + multiset(queue) + multiset(batch)
  {
    assert queue == [queue[0]] + queue[1..];
  }

  lemma HeldAfter(m: DepMap, uses: seq<Use>, done: set<Text>, name: Text, degrees: map<Text, nat>,
                  inDegree: map<Text, nat>, held: multiset<Text>, batch: seq<Text>)
    requires Matches(m, uses) && Degrees(m.Keys, uses, done, degrees) && Degrees(m.Keys, uses, done + {name}, inDegree)
    requires name !in done
    requires batch == Sorted(Ready(m, name, done + {name}))
    requires forall n :: Held(m, degrees, held, n)
    ensures forall n :: Held(m, inDegree, held + multiset(batch), n)
  {
    forall n ensures Held(m, inDegree, held + multiset(batch), n) {
      SortedCounts(Ready(m, name, done + {name}), n);
      assert Held(m, degrees, held, n);
      HeldStep(m, uses, done, name, degrees, inDegree, n);
    }
  }

  lemma ProgressStep(m: DepMap, uses: seq<Use>, degrees: map<Text, nat>, inDegree: map<Text, nat>, result: seq<Text>,
                     queue: seq<Text>, batch: seq<Text>)
    requires Matches(m, uses) && Progress(m, uses, degrees, result, queue) && queue != []
    requires Degrees(m.Keys, uses, Elems(result + [queue[0]]), inDegree)
    requires batch == Sorted(Ready(m, queue[0], Elems(result + [queue[0]])))
    ensures Progress(m, uses, inDegree, result + [queue[0]], queue[1..] + batch)
  {
    HeadIsReady(m, uses, degrees, result, queue);
    ElemsExtend(result, queue[0]);
    HeldAfter(m, uses, Elems(result), queue[0], degrees, inDegree, multiset(result) + multiset(queue), batch);
    HeldMoves(result, queue, batch);
  }

  lemma HeldStep(m: DepMap, uses: seq<Use>, done: set<Text>, name: Text, degrees: map<Text, nat>,
                 inDegree: map<Text, nat>, n: Text)
    requires Matches(m, uses) && Degrees(m.Keys, uses, done, degrees) && Degrees(m.Keys, uses, done + {name}, inDegree)
    requires name !in done
    ensures Once(n in m && inDegree[n] == 0)
            == Once(n in m && degrees[n] == 0) + Once(n in Ready(m, name, done + {name}))
  {
    if n in m {
      DegreeZero(m, uses, done, degrees, n);
      DegreeZero(m, uses, done + {name}, inDegree, n);
    }
  }

  lemma MatchesUses(scripts: seq<Script>)
    ensures Matches(DepsOf(scripts), Uses(scripts)) && DepsOf(scripts).Keys == Names(scripts)
  {
  }

  lemma ProgressStart(m: DepMap, uses: seq<Use>, inDegree: map<Text, nat>)
    requires Matches(m, uses) && Degrees(m.Keys, uses, {}, inDegree)
    ensures var zero := set n | n in inDegree && inDegree[n] == 0;
            Progress(m, uses, inDegree, [], Sorted(zero)) && zero == set x | x in m && m[x] == {}
  {
    var zero := set n | n in inDegree && inDegree[n] == 0;
    ElemsEmpty<Text>([]);
    forall n ensures Held(m, inDegree, multiset([]) + multiset(Sorted(zero)), n) {
      SortedCounts(zero, n);
    }
    forall n | n in m ensures inDegree[n] == 0 <==> m[n] == {} {
      DegreeZero(m, uses, {}, inDegree, n);
    }
  }

  lemma NamesSize(scripts: seq<Script>)
    ensures Names(scripts) == Elems(NamesOf(scripts))
    ensures |Names(scripts)| <= |scripts| && (|Names(scripts)| == |scripts| <==> Distinct(NamesOf(scripts)))
  {
    var names := NamesOf(scripts);
    forall n ensures n in Names(scripts) <==> n in names {
      if n in Names(scripts) {
        var s :| s in scripts && s.name == n;
        var i :| 0 <= i < |scripts| && scripts[i] == s;
        assert names[i] == n;
      }
      if n in names {
        var i :| 0 <= i < |names| && names[i] == n;
        assert scripts[i] in scripts && scripts[i].name == n;
      }
    }
    ElemsSize(names);
  }

  ghost function Ranks(order: seq<Text>): map<Text, nat> {
    map n | n in Elems(order) :: Position(order, n)
  }

  /** In an order that puts dependencies first every dependency stands lower. */
  lemma OrderRanks(m: DepMap, order: seq<Text>, a: Text, b: Text)
    requires DepsFirst(m, order) && Distinct(order) && a in Elems(order) && b in Edges(m)(a)
    ensures b in Elems(order) && Ranks(order)[b] < Ranks(order)[a]
  {
    var i := Position(order, a);
    assert DepsBefore(m, order, i);
    assert b in Elems(order[..i]);
    var j :| 0 <= j < i && order[j] == b;
    assert order[j] in Elems(order);
    RepeatedIsNotDistinct(order, j, Position(order, b));
  }

  lemma OrderedIsAcyclic(m: DepMap, order: seq<Text>)
    requires DepsFirst(m, order) && Distinct(order) && Elems(order) == m.Keys
    ensures Acyclic(Edges(m))
  {
    forall a, b | a in m.Keys && b in Edges(m)(a) ensures b in m && Ranks(order)[b] < Ranks(order)[a] {
      OrderRanks(m, order, a, b);
    }
    RankedIsAcyclic(Edges(m), m.Keys, Ranks(order));
  }

  /** What has been ordered leads to no cycle. */
  lemma OrderedLeadsToNoCycle(m: DepMap, order: seq<Text>, n: Text)
    requires DepsFirst(m, order) && Distinct(order) && n in Elems(order)
    ensures !LeadsToCycle(Edges(m), n)
  {
    forall a, b | a in Elems(order) && b in Edges(m)(a) ensures b in Elems(order) && Ranks(order)[b] < Ranks(order)[a] {
      OrderRanks(m, order, a, b);
    }
    RankedLeadsToNoCycle(Edges(m), Elems(order), Ranks(order), n);
  }

  ghost function Position(order: seq<Text>, n: Text): (i: nat)
    ensures n in order ==> i < |order| && order[i] == n
  {
    if n in order then var i: nat :| i < |order| && order[i] == n; i else 0
  }

  lemma DrainedMembers(m: DepMap, inDegree: map<Text, nat>, result: seq<Text>)
    requires forall n :: Held(m, inDegree, multiset(result) + multiset([]), n)
    ensures Distinct(result) && forall n :: n in Elems(result) <==> n in m && n in inDegree && inDegree[n] == 0
  {
    forall n ensures multiset(result)[n] == Once(n in m && n in inDegree && inDegree[n] == 0) {
      assert Held(m, inDegree, multiset(result) + multiset([]), n);
    }
    CountsDistinct(result);
    forall n ensures n in Elems(result) <==> n in m && n in inDegree && inDegree[n] == 0 {
      assert n in result <==> n in multiset(result);
    }
  }

  /** Everything that is held up waits for something that is held up. */
  lemma StuckWaits(m: DepMap, uses: seq<Use>, done: set<Text>, inDegree: map<Text, nat>, n: Text)
    requires Matches(m, uses) && Degrees(m.Keys, uses, done, inDegree)
    requires n in m && m[n] <= m.Keys && inDegree[n] > 0
    ensures HasNext(Edges(m), m.Keys - done, n)
  {
    DegreeZero(m, uses, done, inDegree, n);
    var d :| d in m[n] && d !in done;
    assert d in Edges(m)(n) && d in m.Keys - done;
  }

  lemma StuckIsCyclic(m: DepMap, uses: seq<Use>, done: set<Text>, inDegree: map<Text, nat>)
    requires Matches(m, uses) && Degrees(m.Keys, uses, done, inDegree)
    requires forall n :: n in m ==> m[n] <= m.Keys
    requires forall n :: n in done <==> n in m && inDegree[n] == 0
    ensures done != m.Keys ==> !Acyclic(Edges(m))
    ensures forall n :: n in m.Keys - done ==> LeadsToCycle(Edges(m), n)
  {
    var stuck := m.Keys - done;
    forall n | n in stuck ensures HasNext(Edges(m), stuck, n) {
      StuckWaits(m, uses, done, inDegree, n);
    }
    assert forall n :: n in m.Keys && n !in stuck ==> n in done;
    if done != m.Keys {
      NoSinkIsCyclic(Edges(m), stuck);
    }
    forall n | n in stuck ensures LeadsToCycle(Edges(m), n) {
      NoSinkLeadsToCycle(Edges(m), stuck, n);
    }
  }

  lemma NoScriptLeadsNowhere(m: DepMap, n: Text)
    requires n !in m
    ensures !LeadsToCycle(Edges(m), n)
  {
    assert Closed(Edges(m), {n});
    RankedLeadsToNoCycle(Edges(m), {n}, map[n := 0], n);
  }

  /** What is left when the queue is empty: everything was ordered, or the rest is held up by a cycle. */
  lemma Drained(m: DepMap, uses: seq<Use>, inDegree: map<Text, nat>, result: seq<Text>)
    requires Matches(m, uses) && Progress(m, uses, inDegree, result, [])
    requires forall n :: n in m ==> m[n] <= m.Keys
    ensures Distinct(result) && Elems(result) <= m.Keys
    ensures Elems(result) == m.Keys <==> Acyclic(Edges(m))
    ensures (set n | n in inDegree && inDegree[n] > 0) == m.Keys - Elems(result)
    ensures forall n :: n in m.Keys - Elems(result) <==> LeadsToCycle(Edges(m), n)
  {
    DrainedMembers(m, inDegree, result);
    StuckIsCyclic(m, uses, Elems(result), inDegree);
    if Elems(result) == m.Keys {
      OrderedIsAcyclic(m, result);
    }
    forall n ensures n in m.Keys - Elems(result) <==> LeadsToCycle(Edges(m), n) {
      if n in Elems(result) {
        OrderedLeadsToNoCycle(m, result, n);
      } else if n !in m {
        NoScriptLeadsNowhere(m, n);
      }
    }
  }

  /** Reject a dependency on a script that is not in the list. */
  method CheckDeps(scripts: seq<Script>) returns (r: Option<SortError>)
    ensures r.None? <==> KnownDeps(scripts)
    ensures r.Some? ==> r.value.UnknownDep? && r.value.dep !in Names(scripts)
    ensures r.Some? ==> exists s :: s in scripts && s.name == r.value.script && r.value.dep in s.deps
  {
    var names := Names(scripts);
    for i := 0 to |scripts|
      invariant forall k, d :: 0 <= k < i && d in scripts[k].deps ==> d in names
    {
      var s := scripts[i];
      for j := 0 to |s.deps|
        invariant forall l :: 0 <= l < j ==> s.deps[l] in names
      {
        if s.deps[j] !in names {
          assert s in scripts && s.deps[j] in s.deps;
          return Some(UnknownDep(s.name, s.deps[j]));
        }
      }
    }
    r := None;
  }

  /** Kahn's main loop. */
  method ProcessQueue(scripts: seq<Script>, degrees: map<Text, nat>, dependents: map<Text, seq<Text>>)
    returns (result: seq<Text>, inDegree: map<Text, nat>)
    requires Tables(Names(scripts), Uses(scripts), degrees, dependents)
    ensures result == KahnOrder(DepsOf(scripts))
    ensures Progress(DepsOf(scripts), Uses(scripts), inDegree, result, [])
  {
    ghost var m, uses := DepsOf(scripts), Uses(scripts);
    MatchesUses(scripts);
    inDegree := degrees;
    ProgressStart(m, uses, inDegree);
    var queue := Sorted(set n | n in inDegree && inDegree[n] == 0);
    result := [];
    while queue != []
      invariant Progress(m, uses, inDegree, result, queue)
      invariant Drain(m, result, queue) == KahnOrder(m)
      decreases m.Keys - Elems(result)
    {
      var name := queue[0];
      HeadIsReady(m, uses, inDegree, result, queue);
      ElemsExtend(result, name);
      ghost var before := inDegree;
      ListedHere(scripts, dependents, name);
      var next;
      inDegree, next := Release(name, Listed(dependents, name), inDegree, m.Keys, uses, Elems(result));
      NextIsReady(m, uses, Elems(result + [name]), inDegree, next, name);
      SortTextsSorted(next);
      ProgressStep(m, uses, before, inDegree, result, queue, SortTexts(next));
      result := result + [name];
      queue := queue[1..] + SortTexts(next);
    }
  }

  /** The length test at the end separates the sortable lists from the others. */
  lemma LengthTest(scripts: seq<Script>, result: seq<Text>)
    requires KnownDeps(scripts) && Distinct(result) && Elems(result) <= Names(scripts)
    requires Elems(result) == Names(scripts) <==> Acyclic(Edges(DepsOf(scripts)))
    ensures |result| == |scripts| <==> Sortable(scripts)
    ensures |result| == |scripts| ==> multiset(result) == multiset(NamesOf(scripts))
    ensures Names(scripts) - Elems(result) == {} <==> Acyclic(Edges(DepsOf(scripts)))
  {
    NamesSize(scripts);
    SubsetSize(Elems(result), Names(scripts));
    SizesDecide(result, NamesOf(scripts));
  }

  lemma SizesDecide(result: seq<Text>, listing: seq<Text>)
    requires Distinct(result) && Elems(result) <= Elems(listing)
    ensures |result| == |listing| <==> Distinct(listing) && Elems(result) == Elems(listing)
    ensures |result| == |listing| ==> multiset(result) == multiset(listing)
  {
    ElemsSize(result);
    ElemsSize(listing);
    SubsetSize(Elems(result), Elems(listing));
    if |result| == |listing| {
      SameMembersPermute(result, listing);
    }
  }

  /** Kahn's algorithm. */
  method TopoSort(scripts: seq<Script>) returns (r: Result<seq<Text>, SortError>)
    ensures r.Success? <==> Sortable(scripts)
    ensures r.Success? ==> r.value == KahnOrder(DepsOf(scripts))
    ensures r.Success? ==> multiset(r.value) == multiset(NamesOf(scripts))
    ensures r.Success? ==> RunOrder(DepsOf(scripts), r.value)
    ensures r.Failure? && r.error.UnknownDep? ==>
              && r.error.dep !in Names(scripts)
              && exists s :: s in scripts && s.name == r.error.script && r.error.dep in s.deps
    ensures r.Failure? && r.error.Cycle? ==>
              KnownDeps(scripts) && (r.error.stuck == {} <==> Acyclic(Edges(DepsOf(scripts))))
    ensures r.Failure? && r.error.Cycle? ==> r.error.stuck <= Names(scripts)
    ensures r.Failure? && r.error.Cycle? ==> forall n :: n in r.error.stuck <==> LeadsToCycle(Edges(DepsOf(scripts)), n)
  {
    var bad := CheckDeps(scripts);
    if bad.Some? {
      return Failure(bad.value);
    }
    var inDegree, dependents := BuildTables(scripts);
    var result;
    result, inDegree := ProcessQueue(scripts, inDegree, dependents);
    MatchesUses(scripts);
    DepsAreNames(scripts);
    Drained(DepsOf(scripts), Uses(scripts), inDegree, result);
    LengthTest(scripts, result);
    KahnOrderRuns(DepsOf(scripts));
    if |result| != |scripts| {
      r := Failure(Cycle(set n | n in inDegree && inDegree[n] > 0));
    } else {
      r := Success(result);
    }
  }

  lemma ListedHere(scripts: seq<Script>, dependents: map<Text, seq<Text>>, name: Text)
    requires Lists(Uses(scripts), dependents)
    ensures forall n :: multiset(Listed(dependents, name))[n] == multiset(Uses(scripts))[Use(n, name)]
    ensures forall n :: n in Listed(dependents, name) ==> n in Names(scripts)
  {
    forall n
      ensures multiset(Listed(dependents, name))[n] == multiset(Uses(scripts))[Use(n, name)]
      ensures n in Listed(dependents, name) ==> n in Names(scripts)
    {
      assert ListedRight(Uses(scripts), dependents, n, name);
      assert n in Listed(dependents, name) <==> n in multiset(Listed(dependents, name));
      assert Use(n, name) in Uses(scripts) <==> Use(n, name) in multiset(Uses(scripts));
      UsesAre(scripts, n, name);
    }
  }

  lemma DepsAreNames(scripts: seq<Script>)
    requires KnownDeps(scripts)
    ensures forall n :: n in DepsOf(scripts) ==> DepsOf(scripts)[n] <= Names(scripts)
  {
    forall n, d | n in DepsOf(scripts) && d in DepsOf(scripts)[n] ensures d in Names(scripts) {
      UsesAre(scripts, n, d);
    }
  }

  // ----- Determinism -----

  /** A script with the order of its dependency list forgotten. */
  datatype Form = Form(name: Text, deps: multiset<Text>)

  function Forms(scripts: seq<Script>): seq<Form> {
    seq(|scripts|, i requires 0 <= i < |scripts| => Form(scripts[i].name, multiset(scripts[i].deps)))
  }

  /** `b` lists the scripts of `a` in another order, each with its dependencies in another order. */
  predicate Shuffled(a: seq<Script>, b: seq<Script>) {
    multiset(Forms(a)) == multiset(Forms(b))
  }

  lemma UsesByForm(scripts: seq<Script>, n: Text, d: Text)
    ensures Use(n, d) in Uses(scripts) <==> exists f :: f in multiset(Forms(scripts)) && f.name == n && d in f.deps
  {
    UsesAre(scripts, n, d);
    var forms := Forms(scripts);
    if s :| s in scripts && s.name == n && d in s.deps {
      var i :| 0 <= i < |scripts| && scripts[i] == s;
      assert forms[i] in multiset(forms) && d in multiset(s.deps);
    }
    if f :| f in multiset(forms) && f.name == n && d in f.deps {
      assert f in forms;
      var i :| 0 <= i < |forms| && forms[i] == f;
      assert scripts[i] in scripts && d in scripts[i].deps;
    }
  }

  lemma NamesByForm(scripts: seq<Script>, n: Text)
    ensures n in Names(scripts) <==> exists f :: f in multiset(Forms(scripts)) && f.name == n
  {
    var forms := Forms(scripts);
    if n in Names(scripts) {
      var s :| s in scripts && s.name == n;
      var i :| 0 <= i < |scripts| && scripts[i] == s;
      assert forms[i] in multiset(forms);
    }
    if f :| f in multiset(forms) && f.name == n {
      assert f in forms;
      var i :| 0 <= i < |forms| && forms[i] == f;
      assert scripts[i] in scripts;
    }
  }

  lemma ShuffleUses(a: seq<Script>, b: seq<Script>)
    requires Shuffled(a, b)
    ensures Names(a) == Names(b) && |a| == |b|
    ensures forall n, d :: Use(n, d) in Uses(a) <==> Use(n, d) in Uses(b)
  {
    assert |multiset(Forms(a))| == |a| && |multiset(Forms(b))| == |b|;
    forall n ensures n in Names(a) <==> n in Names(b) {
      NamesByForm(a, n);
      NamesByForm(b, n);
    }
    forall n, d ensures Use(n, d) in Uses(a) <==> Use(n, d) in Uses(b) {
      UsesByForm(a, n, d);
      UsesByForm(b, n, d);
    }
  }

  /** The outcome does not depend on the order of the scripts or of their dependency lists. */
  lemma OrderIsDeterministic(a: seq<Script>, b: seq<Script>)
    requires Shuffled(a, b)
    ensures DepsOf(a) == DepsOf(b)
    ensures KahnOrder(DepsOf(a)) == KahnOrder(DepsOf(b))
    ensures Sortable(a) <==> Sortable(b)
  {
    ShuffleUses(a, b);
    MatchesUses(a);
    MatchesUses(b);
    forall n | n in DepsOf(a) ensures DepsOf(a)[n] == DepsOf(b)[n] {
    }
    assert DepsOf(a) == DepsOf(b);
    NamesSize(a);
    NamesSize(b);
    KnownByUses(a);
    KnownByUses(b);
  }

  lemma KnownByUses(scripts: seq<Script>)
    ensures KnownDeps(scripts) <==> forall n, d :: Use(n, d) in Uses(scripts) ==> d in Names(scripts)
  {
    if KnownDeps(scripts) {
      forall n, d | Use(n, d) in Uses(scripts) ensures d in Names(scripts) { UsesAre(scripts, n, d); }
    } else {
      var s, d :| s in scripts && d in s.deps && d !in Names(scripts);
      UsesAre(scripts, s.name, d);
    }
  }
}
