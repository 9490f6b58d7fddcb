/**
 * The generation driver: a growth strategy, injected by the caller, is applied
 * to the graph until the graph holds at least the requested number of nodes.
 */
module Generation {
  import opened Graphs

  /** A strategy that adds at least one node on every call; only then is the
      generation loop sure to stop. */
  ghost predicate Productive(grow: Graph -> Graph) {
    forall h :: |grow(h).nodes| > |h.nodes|
  }

  /** A strategy that adds exactly one node on every call. */
  ghost predicate GrowsByOne(grow: Graph -> Graph) {
    forall h :: |grow(h).nodes| == |h.nodes| + 1
  }

  /** A strategy that never removes a node, an adjacency entry or an edge. */
  ghost predicate Monotone(grow: Graph -> Graph) {
    forall h :: Extends(h, grow(h))
  }

  /** A strategy that takes valid graphs to valid graphs. */
  ghost predicate KeepsValid(grow: Graph -> Graph) {
    forall h | Valid(h) :: Valid(grow(h))
  }

  /**
   * Calls `grow` until the size reaches `n`. A strategy that never adds a
   * node loops forever when the target is not already met, so the call is
   * admitted only when the target is met or the strategy is productive.
   */
  function Generate(grow: Graph -> Graph, g: Graph, n: nat): (r: Graph)
    requires n <= Size(g) || Productive(grow)
    ensures Size(r) >= n
    ensures n <= Size(g) ==> r == g
    decreases n - Size(g)
  {
    if Size(g) >= n then g else Generate(grow, grow(g), n)
  }

  /** With a strategy that adds one node per call, generation from a graph no
      larger than the target stops at exactly the target size. */
  lemma {:induction false} GenerateReachesExactly(grow: Graph -> Graph, g: Graph, n: nat)
    requires GrowsByOne(grow)
    requires Size(g) <= n
    ensures Size(Generate(grow, g, n)) == n
    decreases n - Size(g)
  {
    if Size(g) < n {
      assert |grow(g).nodes| == |g.nodes| + 1;
      GenerateReachesExactly(grow, grow(g), n);
    }
  }

  /** Raising the target by one costs exactly one more call of the strategy. */
  lemma {:induction false} GenerateOneMore(grow: Graph -> Graph, g: Graph, n: nat)
    requires GrowsByOne(grow)
    requires Size(g) <= n
    ensures Generate(grow, g, n + 1) == grow(Generate(grow, g, n))
    decreases n - Size(g)
  {
    assert |grow(g).nodes| == |g.nodes| + 1;
    if Size(g) < n {
      GenerateOneMore(grow, grow(g), n);
    }
  }

  /** Generation keeps the graph invariant when the strategy does. */
  lemma {:induction false} GenerateKeepsValid(grow: Graph -> Graph, g: Graph, n: nat)
    requires n <= Size(g) || Productive(grow)
    requires KeepsValid(grow)
    requires Valid(g)
    ensures Valid(Generate(grow, g, n))
    decreases n - Size(g)
  {
    if Size(g) < n {
      assert |grow(g).nodes| > |g.nodes|;
      GenerateKeepsValid(grow, grow(g), n);
    }
  }

  /** Generation removes nothing when the strategy removes nothing. */
  lemma {:induction false} GenerateExtends(grow: Graph -> Graph, g: Graph, n: nat)
    requires n <= Size(g) || Productive(grow)
    requires Monotone(grow)
    ensures Extends(g, Generate(grow, g, n))
    decreases n - Size(g)
  {
    if Size(g) < n {
      assert |grow(g).nodes| > |g.nodes|;
      assert Extends(g, grow(g));
      GenerateExtends(grow, grow(g), n);
      ExtendsTrans(g, grow(g), Generate(grow, grow(g), n));
    } else {
      assert forall k | k in g.adj :: g.adj[k] <= g.adj[k];
    }
  }
}
