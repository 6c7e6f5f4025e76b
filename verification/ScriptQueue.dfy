/** The order in which activation scripts run, apart from how it is computed. */
module ScriptQueue {
  // The position of a script is decided by the script that frees it, which is the last of its
  // dependencies, and among those freed by the same script by its name. Only one order has this
  // property, and a queue that is served in order produces it (snix-redox/src/activate.rs).

  import opened Bytes
  import opened Listings

  /** Who depends on whom, without any order. */
  type DepMap = map<Text, set<Text>>

  // ----- The order -----

  /** Every dependency stands strictly before its dependent. */
  ghost predicate DepsFirst(m: DepMap, order: seq<Text>) {
    forall i :: 0 <= i < |order| ==> DepsBefore(m, order, i)
  }

  ghost predicate DepsBefore(m: DepMap, order: seq<Text>, i: nat)
    requires i < |order|
  {
    order[i] in m && m[order[i]] <= Elems(order[..i])
  }

  /** The position of the last of some scripts, or -1 when none of them is there. */
  ghost function LastOf(order: seq<Text>, deps: set<Text>): (l: int)
    ensures -1 <= l < |order| && (l >= 0 ==> order[l] in deps)
    ensures forall k :: l < k < |order| ==> order[k] !in deps
  {
    if order == [] then -1
    else if order[|order| - 1] in deps then |order| - 1
    else
      assert forall k :: 0 <= k < |order| - 1 ==> order[k] == order[..|order| - 1][k];
      LastOf(order[..|order| - 1], deps)
  }

  /** The first script is freed earlier, or at the same time and comes first by name. */
  ghost predicate Precedes(m: DepMap, order: seq<Text>, a: Text, b: Text) {
    && a in m && b in m
    && (LastOf(order, m[a]) < LastOf(order, m[b]) || (LastOf(order, m[a]) == LastOf(order, m[b]) && Below(a, b)))
  }

  /** A list is in the sequence in which its members are freed by `order`. */
  ghost predicate FreedInTurn(m: DepMap, order: seq<Text>, s: seq<Text>) {
    forall i, j {:trigger s[i], s[j]} :: 0 <= i < j < |s| ==> Precedes(m, order, s[i], s[j])
  }

  /** The order of all scripts: dependencies first, and everything in the sequence in which it is freed. */
  ghost predicate RunOrder(m: DepMap, order: seq<Text>) {
    Elems(order) == m.Keys && DepsFirst(m, order) && FreedInTurn(m, order, order)
  }

  lemma NotBoth(m: DepMap, order: seq<Text>, a: Text, b: Text)
    requires Precedes(m, order, a, b)
    ensures !Precedes(m, order, b, a) && a != b
  {
    if a == b || Below(b, a) {
      BelowIrreflexive(a);
      if Below(a, b) && Below(b, a) { BelowTransitive(a, b, a); }
    }
  }

  lemma FreedIsDistinct(m: DepMap, order: seq<Text>, s: seq<Text>)
    requires FreedInTurn(m, order, s)
    ensures Distinct(s)
  {
    forall i, j | 0 <= i < j < |s| ensures Differ(s, i, j) {
      NotBoth(m, order, s[i], s[j]);
    }
  }

  /** What is freed by a prefix is freed at the same place by every longer list that does not repeat it. */
  lemma LastOfPrefix(a: seq<Text>, b: seq<Text>, k: nat, deps: set<Text>)
    requires k <= |a| && k <= |b| && a[..k] == b[..k] && Distinct(a) && Distinct(b) && deps <= Elems(a[..k])
    ensures LastOf(a, deps) == LastOf(b, deps)
  {
    LastWithin(a, k, deps);
    LastWithin(b, k, deps);
    assert forall i :: 0 <= i < k ==> a[i] == a[..k][i] && b[i] == b[..k][i];
  }

  lemma LastWithin(a: seq<Text>, k: nat, deps: set<Text>)
    requires k <= |a| && Distinct(a) && deps <= Elems(a[..k])
    ensures LastOf(a, deps) < k
  {
    var l := LastOf(a, deps);
    if l >= k {
      var j :| 0 <= j < k && a[..k][j] == a[l];
      RepeatedIsNotDistinct(a, j, l);
    }
  }

  /** Two such orders agree as long as they can. */
  lemma {:induction false} SamePrefix(m: DepMap, a: seq<Text>, b: seq<Text>, k: nat)
    requires RunOrder(m, a) && RunOrder(m, b) && k <= |a| && k <= |b|
    ensures a[..k] == b[..k]
  {
    if k > 0 {
      SamePrefix(m, a, b, k - 1);
      NextAgrees(m, a, b, k - 1);
      assert a[..k] == a[..k - 1] + [a[k - 1]] && b[..k] == b[..k - 1] + [b[k - 1]];
    }
  }

  lemma NextAgrees(m: DepMap, a: seq<Text>, b: seq<Text>, k: nat)
    requires RunOrder(m, a) && RunOrder(m, b) && k < |a| && k < |b| && a[..k] == b[..k]
    ensures a[k] == b[k]
  {
    FreedIsDistinct(m, a, a);
    FreedIsDistinct(m, b, b);
    var x, y := a[k], b[k];
    if x != y {
      assert DepsBefore(m, a, k) && DepsBefore(m, b, k);
      LastOfPrefix(a, b, k, m[x]);
      LastOfPrefix(a, b, k, m[y]);
      ComesLater(a, b, k);
      ComesLater(b, a, k);
      NotBoth(m, a, x, y);
    }
  }

  /** Where two lists of the same members part, each has the other's next member further on. */
  lemma ComesLater(a: seq<Text>, b: seq<Text>, k: nat)
    requires Elems(a) == Elems(b) && Distinct(b) && k < |a| && k < |b| && a[..k] == b[..k] && a[k] != b[k]
    ensures exists j :: k < j < |a| && a[j] == b[k]
  {
    assert b[k] in Elems(a);
    var j :| 0 <= j < |a| && a[j] == b[k];
    if j < k {
      assert b[j] == b[..k][j] == a[..k][j] == a[j];
      RepeatedIsNotDistinct(b, j, k);
    }
  }

  /** There is one order only. */
  lemma RunOrderUnique(m: DepMap, a: seq<Text>, b: seq<Text>)
    requires RunOrder(m, a) && RunOrder(m, b)
    ensures a == b
  {
    FreedIsDistinct(m, a, a);
    FreedIsDistinct(m, b, b);
    ElemsSize(a);
    ElemsSize(b);
    SamePrefix(m, a, b, |a|);
    assert a[..|a|] == a && b[..|b|] == b;
  }

  // ----- The queue -----

  /** The scripts that become ready when `n` is the last one done. */
  function Ready(m: DepMap, n: Text, done: set<Text>): set<Text> {
    set x | x in m && n in m[x] && m[x] <= done
  }

  /** Process the queue in order, appending each batch of newly ready scripts sorted by name. */
  function Drain(m: DepMap, done: seq<Text>, queue: seq<Text>): seq<Text>
    decreases m.Keys - Elems(done)
  {
    if queue == [] || queue[0] in done || queue[0] !in m then done
    else
      var done' := done + [queue[0]];
      assert queue[0] in Elems(done') && Elems(done) <= Elems(done');
      Drain(m, done', queue[1..] + Sorted(Ready(m, queue[0], Elems(done'))))
  }

  /** The order that activation uses, as a function of the dependency graph alone. */
  function KahnOrder(m: DepMap): seq<Text> {
    Drain(m, [], Sorted(set x | x in m && m[x] == {}))
  }

  /** Everything done or queued has its dependencies done and is in the sequence in which it was freed. */
  ghost predicate InTurn(m: DepMap, done: seq<Text>, queue: seq<Text>) {
    && (forall x :: x in done + queue ==> x in m && m[x] <= Elems(done))
    && FreedInTurn(m, done, done + queue)
  }

  lemma StartInTurn(m: DepMap)
    ensures InTurn(m, [], Sorted(set x | x in m && m[x] == {}))
  {
    var queue := Sorted(set x | x in m && m[x] == {});
    assert [] + queue == queue;
    assert forall x :: x in queue ==> x in Elems(queue);
    assert LastOf([], {}) == -1;
    forall i, j | 0 <= i < j < |queue| ensures Precedes(m, [], queue[i], queue[j]) {
      assert queue[i] in queue && queue[j] in queue && Below(queue[i], queue[j]);
    }
  }

  /** One more script done does not free again what was free before. */
  lemma LastOfMore(done: seq<Text>, n: Text, deps: set<Text>)
    ensures LastOf(done + [n], deps) == if n in deps then |done| else LastOf(done, deps)
  {
    assert (done + [n])[..|done|] == done;
  }

  lemma NextInTurn(m: DepMap, done: seq<Text>, queue: seq<Text>)
    requires InTurn(m, done, queue) && queue != []
    ensures queue[0] in m && queue[0] !in done
    ensures InTurn(m, done + [queue[0]], queue[1..] + Sorted(Ready(m, queue[0], Elems(done + [queue[0]]))))
  {
    var n, all := queue[0], done + queue;
    var done', batch := done + [n], Sorted(Ready(m, n, Elems(done + [n])));
    FreedIsDistinct(m, done, all);
    HeadIsNew(done, queue);
    assert done' + (queue[1..] + batch) == all + batch;
    forall x | x in all ensures x in m && m[x] <= Elems(done') && LastOf(done', m[x]) == LastOf(done, m[x]) < |done| {
      LastOfMore(done, n, m[x]);
      ElemsExtend(done, n);
    }
    forall x | x in batch ensures x in m && m[x] <= Elems(done') && LastOf(done', m[x]) == |done| {
      assert x in Elems(batch);
      LastOfMore(done, n, m[x]);
    }
    FreedJoin(m, done, done', all, batch);
  }

  lemma HeadIsNew(done: seq<Text>, queue: seq<Text>)
    requires Distinct(done + queue) && queue != []
    ensures queue[0] in done + queue && queue[0] !in done
  {
    assert (done + queue)[|done|] == queue[0];
    if queue[0] in done {
      var j :| 0 <= j < |done| && done[j] == queue[0];
      assert (done + queue)[j] == queue[0];
      RepeatedIsNotDistinct(done + queue, j, |done|);
    }
  }

  /** A sorted batch that is freed after everything else comes last. */
  lemma FreedJoin(m: DepMap, done: seq<Text>, done': seq<Text>, all: seq<Text>, batch: seq<Text>)
    requires FreedInTurn(m, done, all) && Ascending(batch)
    requires forall x :: x in all ==> x in m && LastOf(done', m[x]) == LastOf(done, m[x]) < |done|
    requires forall x :: x in batch ==> x in m && LastOf(done', m[x]) == |done|
    ensures FreedInTurn(m, done', all + batch)
  {
    var s := all + batch;
    forall i, j | 0 <= i < j < |s| ensures Precedes(m, done', s[i], s[j]) {
      if j < |all| {
        assert s[i] == all[i] && s[j] == all[j] && Precedes(m, done, all[i], all[j]);
      } else if i < |all| {
        assert s[i] in all && s[j] in batch;
      } else {
        assert s[i] == batch[i - |all|] && s[j] == batch[j - |all|];
        assert s[i] in batch && s[j] in batch;
      }
    }
  }

  /** Whatever the queue is drained to was freed in that sequence. */
  lemma {:induction false} DrainInTurn(m: DepMap, done: seq<Text>, queue: seq<Text>)
    requires InTurn(m, done, queue)
    ensures FreedInTurn(m, Drain(m, done, queue), Drain(m, done, queue))
    decreases m.Keys - Elems(done)
  {
    if queue == [] {
      assert done + queue == done;
    } else {
      var done' := done + [queue[0]];
      NextInTurn(m, done, queue);
      ElemsExtend(done, queue[0]);
      assert queue[0] in m.Keys - Elems(done);
      DrainInTurn(m, done', queue[1..] + Sorted(Ready(m, queue[0], Elems(done'))));
    }
  }

  /** Serving the queue in order gives the order of all scripts, when it reaches them all. */
  lemma KahnOrderRuns(m: DepMap)
    ensures FreedInTurn(m, KahnOrder(m), KahnOrder(m))
  {
    StartInTurn(m);
    DrainInTurn(m, [], Sorted(set x | x in m && m[x] == {}));
  }
}
