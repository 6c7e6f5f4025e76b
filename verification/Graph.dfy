/**
  Reachability in a directed graph given by a successor function.

  The store's reference graph, the activation-script graph and the derivation
  graph are all instances: each one supplies a function from a node to the finite set of
  nodes it points at. A breadth-first search that has emptied its queue has visited exactly what
  is reachable, and reachability survives any change that keeps the edges of the reachable part;
  closure computation, fetching and collection rest on these two facts.
 */
module Graph {

  /** `b` is reached from `a` by following exactly `n` edges. */
  ghost predicate ReachesIn<T(!new)>(succ: T -> set<T>, a: T, b: T, n: nat)
    decreases n
  {
    if n == 0 then a == b
    else exists m :: ReachesIn(succ, a, m, n - 1) && b in succ(m)
  }

  /** `b` is reached from `a` by following any number of edges, including none. */
  ghost predicate Reaches<T(!new)>(succ: T -> set<T>, a: T, b: T) {
    exists n: nat :: ReachesIn(succ, a, b, n)
  }

  /** No node lies on a cycle; a self-loop is a cycle of length one. */
  ghost predicate Acyclic<T(!new)>(succ: T -> set<T>) {
    forall a, n: nat :: ReachesIn(succ, a, a, n) ==> n == 0
  }

  ghost predicate Closed<T(!new)>(succ: T -> set<T>, s: set<T>) {
    forall a :: a in s ==> succ(a) <= s
  }

  lemma ReachesSelf<T(!new)>(succ: T -> set<T>, a: T)
    ensures Reaches(succ, a, a)
  {
    assert ReachesIn(succ, a, a, 0);
  }

  lemma ReachesStep<T(!new)>(succ: T -> set<T>, a: T, b: T, c: T)
    requires Reaches(succ, a, b) && c in succ(b)
    ensures Reaches(succ, a, c)
  {
    var n: nat :| ReachesIn(succ, a, b, n);
    assert ReachesIn(succ, a, c, n + 1);
  }

  lemma ReachesEdge<T(!new)>(succ: T -> set<T>, a: T, b: T)
    requires b in succ(a)
    ensures Reaches(succ, a, b)
  {
    ReachesSelf(succ, a);
    ReachesStep(succ, a, a, b);
  }

  lemma {:induction false} ReachesInJoin<T(!new)>(succ: T -> set<T>, a: T, b: T, c: T, m: nat, n: nat)
    requires ReachesIn(succ, a, b, m) && ReachesIn(succ, b, c, n)
    ensures ReachesIn(succ, a, c, m + n)
    decreases n
  {
    if n > 0 {
      var d :| ReachesIn(succ, b, d, n - 1) && c in succ(d);
      ReachesInJoin(succ, a, b, d, m, n - 1);
    }
  }

  lemma ReachesTrans<T(!new)>(succ: T -> set<T>, a: T, b: T, c: T)
    requires Reaches(succ, a, b) && Reaches(succ, b, c)
    ensures Reaches(succ, a, c)
  {
    var m: nat :| ReachesIn(succ, a, b, m);
    var n: nat :| ReachesIn(succ, b, c, n);
    ReachesInJoin(succ, a, b, c, m, n);
  }

  /** An edge that leads back to where its source came from closes a cycle. */
  lemma BackEdgeIsCycle<T(!new)>(succ: T -> set<T>, a: T, b: T)
    requires Reaches(succ, a, b) && a in succ(b)
    ensures !Acyclic(succ)
  {
    var n: nat :| ReachesIn(succ, a, b, n);
    assert ReachesIn(succ, a, a, n + 1);
  }

  lemma {:induction false} ClosedTrapsIn<T(!new)>(succ: T -> set<T>, s: set<T>, a: T, b: T, n: nat)
    requires Closed(succ, s) && a in s && ReachesIn(succ, a, b, n)
    ensures b in s
    decreases n
  {
    if n > 0 {
      var m :| ReachesIn(succ, a, m, n - 1) && b in succ(m);
      ClosedTrapsIn(succ, s, a, m, n - 1);
    }
  }

  /** A set closed under edges contains everything reachable from its members. */
  lemma ClosedTraps<T(!new)>(succ: T -> set<T>, s: set<T>, a: T)
    requires Closed(succ, s) && a in s
    ensures forall b :: Reaches(succ, a, b) ==> b in s
  {
    forall b | Reaches(succ, a, b) ensures b in s {
      var n: nat :| ReachesIn(succ, a, b, n);
      ClosedTrapsIn(succ, s, a, b, n);
    }
  }

  lemma {:induction false} TransferIn<T(!new)>(f: T -> set<T>, g: T -> set<T>, a: T, b: T, n: nat)
    requires forall x :: Reaches(f, a, x) ==> f(x) <= g(x)
    requires ReachesIn(f, a, b, n)
    ensures ReachesIn(g, a, b, n)
    decreases n
  {
    if n > 0 {
      var m :| ReachesIn(f, a, m, n - 1) && b in f(m);
      assert Reaches(f, a, m);
      TransferIn(f, g, a, m, n - 1);
    }
  }

  /** Reachability survives any change that keeps the edges of the reachable part. */
  lemma Transfer<T(!new)>(f: T -> set<T>, g: T -> set<T>, a: T)
    requires forall x :: Reaches(f, a, x) ==> f(x) <= g(x)
    ensures forall b :: Reaches(f, a, b) ==> Reaches(g, a, b)
  {
    forall b | Reaches(f, a, b) ensures Reaches(g, a, b) {
      var n: nat :| ReachesIn(f, a, b, n);
      TransferIn(f, g, a, b, n);
    }
  }

  /** When the reachable part keeps exactly its edges, the same nodes stay reachable. */
  lemma TransferExact<T(!new)>(f: T -> set<T>, g: T -> set<T>, a: T)
    requires forall x :: Reaches(f, a, x) ==> f(x) == g(x)
    ensures forall b :: Reaches(f, a, b) <==> Reaches(g, a, b)
  {
    Transfer(f, g, a);
    forall b | Reaches(g, a, b) ensures Reaches(f, a, b) {
      var n: nat :| ReachesIn(g, a, b, n);
      TransferBackIn(f, g, a, b, n);
    }
  }

  lemma {:induction false} TransferBackIn<T(!new)>(f: T -> set<T>, g: T -> set<T>, a: T, b: T, n: nat)
    requires forall x :: Reaches(f, a, x) ==> f(x) == g(x)
    requires ReachesIn(g, a, b, n)
    ensures Reaches(f, a, b)
    decreases n
  {
    if n == 0 {
      ReachesSelf(f, a);
    } else {
      var m :| ReachesIn(g, a, m, n - 1) && b in g(m);
      TransferBackIn(f, g, a, m, n - 1);
      ReachesStep(f, a, m, b);
    }
  }

  // ----- Breadth-first search -----

  /** The state of a search from `root`: `visited` nodes are expanded, `queue` ones are waiting. */
  ghost predicate Frontier<T(!new)>(succ: T -> set<T>, root: T, visited: set<T>, queue: seq<T>) {
    && (forall p :: p in visited ==> Reaches(succ, root, p))
    && (forall p :: p in queue ==> Reaches(succ, root, p))
    && (forall p, q :: p in visited && q in succ(p) ==> q in visited || q in queue)
    && (root in visited || root in queue)
  }

  lemma FrontierStart<T(!new)>(succ: T -> set<T>, root: T)
    ensures Frontier(succ, root, {}, [root])
  {
    ReachesSelf(succ, root);
  }

  lemma FrontierSkip<T(!new)>(succ: T -> set<T>, root: T, visited: set<T>, queue: seq<T>)
    requires queue != [] && queue[0] in visited && Frontier(succ, root, visited, queue)
    ensures Frontier(succ, root, visited, queue[1..])
  {
  }

  lemma FrontierExpand<T(!new)>(succ: T -> set<T>, root: T, visited: set<T>, queue: seq<T>, more: seq<T>)
    requires queue != [] && Frontier(succ, root, visited, queue)
    requires forall q :: q in more ==> q in succ(queue[0])
    requires forall q :: q in succ(queue[0]) ==> q in more || q in visited || q == queue[0]
    ensures Frontier(succ, root, visited + {queue[0]}, queue[1..] + more)
  {
    var path, rest := queue[0], queue[1..];
    assert forall p :: p in queue ==> p == path || p in rest;
    forall q | q in more ensures Reaches(succ, root, q) {
      ReachesStep(succ, root, path, q);
    }
  }

  /** An exhausted search has visited exactly the reachable nodes. */
  lemma FrontierDone<T(!new)>(succ: T -> set<T>, root: T, visited: set<T>)
    requires Frontier(succ, root, visited, [])
    ensures forall p :: p in visited <==> Reaches(succ, root, p)
  {
    ClosedTraps(succ, visited, root);
  }
}
