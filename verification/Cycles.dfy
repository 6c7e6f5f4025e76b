/**
  Cycles in finite graphs: when they exist and from where they are reached.

  A finite set in which every node has a successor contains a cycle, because a walk that stays in it
  must repeat a node; and edges that all go down in rank close no cycle. The script order uses both
  directions: what it cannot order leads to a cycle, and what it can order does not. Ranks come from
  the order itself.
 */
module Cycles {
  import opened Graph

  ghost predicate Hop<T(!new)>(succ: T -> set<T>, w: seq<T>, i: nat) {
    i + 1 < |w| && w[i + 1] in succ(w[i])
  }

  ghost predicate IsWalk<T(!new)>(succ: T -> set<T>, w: seq<T>) {
    forall i: nat :: i + 1 < |w| ==> Hop(succ, w, i)
  }

  lemma {:induction false} WalkReaches<T(!new)>(succ: T -> set<T>, w: seq<T>, i: nat, j: nat)
    requires IsWalk(succ, w) && i <= j < |w|
    ensures ReachesIn(succ, w[i], w[j], j - i)
    decreases j
  {
    if i < j {
      WalkReaches(succ, w, i, j - 1);
      assert Hop(succ, w, j - 1);
    }
  }

  ghost predicate HasNext<T(!new)>(succ: T -> set<T>, s: set<T>, a: T) {
    exists b :: b in succ(a) && b in s
  }

  /** Every node of the set has a successor in the set. */
  ghost predicate NoSink<T(!new)>(succ: T -> set<T>, s: set<T>) {
    forall a {:trigger HasNext(succ, s, a)} :: a in s ==> HasNext(succ, s, a)
  }

  /** In a set without a sink walks of any length exist. */
  lemma {:induction false} LongWalk<T(!new)>(succ: T -> set<T>, s: set<T>, k: nat) returns (w: seq<T>)
    requires s != {} && NoSink(succ, s)
    ensures |w| == k + 1 && IsWalk(succ, w) && forall i :: 0 <= i < |w| ==> w[i] in s
  {
    if k == 0 {
      var a :| a in s;
      w := [a];
    } else {
      var v := LongWalk(succ, s, k - 1);
      assert HasNext(succ, s, v[k - 1]);
      var b :| b in succ(v[k - 1]) && b in s;
      w := v + [b];
      forall i: nat | i + 1 < |w| ensures Hop(succ, w, i) {
        assert i + 1 < k ==> Hop(succ, v, i);
      }
    }
  }

  lemma {:induction false} DistinctFits<T>(w: seq<T>, s: set<T>)
    requires forall i :: 0 <= i < |w| ==> w[i] in s
    requires forall i, j :: 0 <= i < j < |w| ==> w[i] != w[j]
    ensures |w| <= |s|
    decreases |w|
  {
    if |w| > 0 {
      var last := w[|w| - 1];
      DistinctFits(w[..|w| - 1], s - {last});
    }
  }

  ghost predicate OnCycle<T(!new)>(succ: T -> set<T>, c: T) {
    exists n: nat :: n > 0 && ReachesIn(succ, c, c, n)
  }

  /** Some cycle is reached from the node. */
  ghost predicate LeadsToCycle<T(!new)>(succ: T -> set<T>, a: T) {
    exists c :: Reaches(succ, a, c) && OnCycle(succ, c)
  }

  lemma {:induction false} FindRepeat<T>(w: seq<T>, s: set<T>) returns (i: nat, j: nat)
    requires |w| > |s| && forall i :: 0 <= i < |w| ==> w[i] in s
    ensures i < j < |w| && w[i] == w[j]
  {
    if forall i, j :: 0 <= i < j < |w| ==> w[i] != w[j] {
      DistinctFits(w, s);
      assert false;
    }
    i, j :| 0 <= i < j < |w| && w[i] == w[j];
  }

  /** A finite nonempty set in which every node has a successor contains a node on a cycle. */
  lemma NoSinkHasCycle<T(!new)>(succ: T -> set<T>, s: set<T>) returns (c: T)
    requires s != {} && NoSink(succ, s)
    ensures c in s && OnCycle(succ, c)
  {
    var w := LongWalk(succ, s, |s|);
    var i, j := FindRepeat(w, s);
    WalkReaches(succ, w, i, j);
    c := w[i];
  }

  lemma NoSinkIsCyclic<T(!new)>(succ: T -> set<T>, s: set<T>)
    requires s != {} && NoSink(succ, s)
    ensures !Acyclic(succ)
  {
    var c := NoSinkHasCycle(succ, s);
  }

  ghost function Reached<T(!new)>(succ: T -> set<T>, s: set<T>, a: T): set<T> {
    set x | x in s && Reaches(succ, a, x)
  }

  lemma ReachedNoSink<T(!new)>(succ: T -> set<T>, s: set<T>, a: T)
    requires a in s && NoSink(succ, s)
    ensures a in Reached(succ, s, a) && NoSink(succ, Reached(succ, s, a))
  {
    ReachesSelf(succ, a);
    forall x | x in Reached(succ, s, a) ensures HasNext(succ, Reached(succ, s, a), x) {
      assert HasNext(succ, s, x);
      var y :| y in succ(x) && y in s;
      ReachesStep(succ, a, x, y);
    }
  }

  /** Where every node of a set has a successor in the set, a cycle is reached from each of them. */
  lemma NoSinkLeadsToCycle<T(!new)>(succ: T -> set<T>, s: set<T>, a: T)
    requires a in s && NoSink(succ, s)
    ensures LeadsToCycle(succ, a)
  {
    ReachedNoSink(succ, s, a);
    var c := NoSinkHasCycle(succ, Reached(succ, s, a));
  }

  /** From a closed set whose edges go down in rank no cycle is reached. */
  lemma RankedLeadsToNoCycle<T(!new)>(succ: T -> set<T>, nodes: set<T>, rank: map<T, nat>, a: T)
    requires rank.Keys == nodes && Closed(succ, nodes) && a in nodes
    requires forall a, b :: a in nodes && b in succ(a) ==> rank[b] < rank[a]
    ensures !LeadsToCycle(succ, a)
  {
    ClosedTraps(succ, nodes, a);
    forall c, n: nat | Reaches(succ, a, c) && ReachesIn(succ, c, c, n) ensures n == 0 {
      RankDrops(succ, nodes, rank, c, c, n);
    }
  }

  /** Ranking every edge downwards rules cycles out. */
  lemma RankedIsAcyclic<T(!new)>(succ: T -> set<T>, nodes: set<T>, rank: map<T, nat>)
    requires rank.Keys == nodes && Closed(succ, nodes)
    requires forall a, b :: a in nodes && b in succ(a) ==> rank[b] < rank[a]
    requires forall a :: a !in nodes ==> succ(a) == {}
    ensures Acyclic(succ)
  {
    forall a, n: nat | ReachesIn(succ, a, a, n) ensures n == 0 {
      if n > 0 {
        if a in nodes {
          RankDrops(succ, nodes, rank, a, a, n);
        } else {
          StuckOutside(succ, nodes, a, a, n);
        }
      }
    }
  }

  lemma {:induction false} RankDrops<T(!new)>(succ: T -> set<T>, nodes: set<T>, rank: map<T, nat>, a: T, b: T, n: nat)
    requires rank.Keys == nodes && Closed(succ, nodes)
    requires forall a, b :: a in nodes && b in succ(a) ==> rank[b] < rank[a]
    requires a in nodes && ReachesIn(succ, a, b, n)
    ensures b in nodes && rank[b] + n <= rank[a]
    decreases n
  {
    if n > 0 {
      var m :| ReachesIn(succ, a, m, n - 1) && b in succ(m);
      RankDrops(succ, nodes, rank, a, m, n - 1);
    }
  }

  lemma {:induction false} StuckOutside<T(!new)>(succ: T -> set<T>, nodes: set<T>, a: T, b: T, n: nat)
    requires forall x :: x !in nodes ==> succ(x) == {}
    requires a !in nodes && ReachesIn(succ, a, b, n)
    ensures n == 0
    decreases n
  {
    if n > 0 {
      var m :| ReachesIn(succ, a, m, n - 1) && b in succ(m);
      StuckOutside(succ, nodes, a, m, n - 1);
    }
  }
}
