/**
 * The four growth strategies the test suite injects, and the graphs that
 * generation from an empty graph produces with each of them.
 */
module Strategies {
  import opened Graphs
  import opened Generation

  datatype Strategy = Trivial | Rope | Isolated | Complete

  /** One call of a strategy (the test suite's four generator lambdas). */
  function Grow(s: Strategy, g: Graph): Graph {
    match s
    case Trivial => g
    case Rope => RopeGrow(g)
    case Isolated => AddFreshNode(g).graph
    case Complete => CompleteGrow(g)
  }

  /** Rope: node 0 first; afterwards a new node, linked to the identifier
      just below it. */
  function RopeGrow(g: Graph): Graph {
    if IsEmpty(g) then AddNode(g, 0) else LinkToPrevious(AddFreshNode(g).graph, AddFreshNode(g).id)
  }

  /** `connect(new_node_id - 1, new_node_id)` right after the insertion. */
  function LinkToPrevious(g: Graph, id: NodeId): (r: Graph)
    requires id >= 1
    ensures r == ConnectSpec(g, id - 1, {id})
  {
    assert {id} + Elems([]) == {id};
    ConnectPack(g, id - 1, id, [])
  }

  /** Complete: node 0 first; afterwards a new node, linked to every node
      present before the call. */
  function CompleteGrow(g: Graph): Graph {
    if IsEmpty(g) then AddNode(g, 0) else ConnectSet(AddFreshNode(g).graph, AddFreshNode(g).id, g.nodes)
  }

  /** Linking two existing nodes adds no node, removes nothing and keeps the invariant. */
  lemma LinkToPreviousFacts(g: Graph, id: NodeId)
    requires id >= 1 && id in g.nodes && id - 1 in g.nodes
    ensures LinkToPrevious(g, id).nodes == g.nodes
    ensures Extends(g, LinkToPrevious(g, id))
    ensures Valid(g) ==> Valid(LinkToPrevious(g, id))
  {
    ConnectSpecValid(g, id - 1, {id});
    ConnectSpecExtends(g, id - 1, {id});
    ConnectSpecKnownNodes(g, id - 1, {id});
  }

  lemma RopeGrowFacts(g: Graph)
    ensures Size(RopeGrow(g)) == Size(g) + 1
    ensures Extends(g, RopeGrow(g))
    ensures Valid(g) ==> Valid(RopeGrow(g))
  {
    if !IsEmpty(g) {
      LinkToPreviousFacts(AddFreshNode(g).graph, AddFreshNode(g).id);
    }
  }

  lemma CompleteGrowFacts(g: Graph)
    ensures Size(CompleteGrow(g)) == Size(g) + 1
    ensures Extends(g, CompleteGrow(g))
    ensures Valid(g) ==> Valid(CompleteGrow(g))
  {
    if !IsEmpty(g) {
      var h := AddFreshNode(g).graph;
      var id := AddFreshNode(g).id;
      ConnectSpecKnownNodes(h, id, g.nodes);
      ConnectSpecExtends(h, id, g.nodes);
      ConnectSpecValid(h, id, g.nodes);
    }
  }

  /** Every call of Rope, Isolated or Complete adds exactly one node (the
      connections only involve identifiers that are nodes already), removes
      nothing and keeps the invariant; Trivial leaves the graph as it is. */
  lemma GrowFacts(s: Strategy, g: Graph)
    ensures s == Trivial ==> Grow(s, g) == g
    ensures s != Trivial ==> Size(Grow(s, g)) == Size(g) + 1
    ensures Extends(g, Grow(s, g))
    ensures Valid(g) ==> Valid(Grow(s, g))
  {
    match s
    case Trivial =>
    case Rope => RopeGrowFacts(g);
    case Isolated =>
    case Complete => CompleteGrowFacts(g);
  }

  /** A strategy as the callable the generation driver receives. */
  function Callable(s: Strategy): Graph -> Graph {
    h => Grow(s, h)
  }

  /** Rope, Isolated and Complete add exactly one node per call, remove
      nothing and keep the invariant. */
  lemma StrategyGrowsByOne(s: Strategy)
    requires s != Trivial
    ensures GrowsByOne(Callable(s)) && Productive(Callable(s)) && KeepsValid(Callable(s))
    ensures Monotone(Callable(s))
  {
    forall h
      ensures Extends(h, Callable(s)(h))
    {
      GrowFacts(s, h);
    }
    forall h
      ensures |Callable(s)(h).nodes| == |h.nodes| + 1
    {
      GrowFacts(s, h);
    }
    forall h | Valid(h)
      ensures Valid(Callable(s)(h))
    {
      GrowFacts(s, h);
    }
  }

  /** The trivial strategy never grows the graph, so generation with it may
      only be asked for a size already reached; it then changes nothing. */
  lemma TrivialIsUnproductive(g: Graph, n: nat)
    requires n <= Size(g)
    ensures !Productive(Callable(Trivial))
    ensures Generate(Callable(Trivial), g, n) == g
  {
    assert Callable(Trivial)(g) == g;
  }

  /** The identifiers 0 .. k-1. */
  function Range(k: nat): (r: set<NodeId>)
    ensures forall x: NodeId :: x in r <==> x < k
  {
    if k == 0 then {} else Range(k - 1) + {k - 1}
  }

  lemma {:induction false} RangeSize(k: nat)
    ensures |Range(k)| == k
  {
    if k > 0 {
      RangeSize(k - 1);
      assert k - 1 !in Range(k - 1);
      assert |Range(k - 1) + {k - 1}| == |Range(k - 1)| + 1;
    }
  }

  /** Expected result of Isolated: k nodes and no adjacency entry at all. */
  function IsolatedGraph(k: nat): Graph {
    Graph(Range(k), map[])
  }

  /** Expected neighbours of node i in a path over 0 .. k-1. */
  function PathNeighbours(i: NodeId, k: nat): set<NodeId> {
    (if 0 < i then {i - 1} else {}) + (if i + 1 < k then {i + 1} else {})
  }

  /** Expected result of Rope: the path 0 - 1 - ... - (k-1); a single node
      is added without any connection, so it has no adjacency entry. */
  function RopeGraph(k: nat): Graph {
    if k < 2 then Graph(Range(k), map[])
    else Graph(Range(k), map i: NodeId | i < k :: PathNeighbours(i, k))
  }

  /** Expected result of Complete: every node is adjacent to every other one. */
  function CompleteGraph(k: nat): Graph {
    if k < 2 then Graph(Range(k), map[])
    else Graph(Range(k), map i: NodeId | i < k :: Range(k) - {i})
  }

  function Expected(s: Strategy, k: nat): Graph
    requires s != Trivial
  {
    match s
    case Rope => RopeGraph(k)
    case Isolated => IsolatedGraph(k)
    case Complete => CompleteGraph(k)
  }

  /** On a graph whose nodes are 0 .. k-1 the auto-assigned identifier is k. */
  lemma FreshOnRange(g: Graph, k: nat)
    requires g.nodes == Range(k)
    ensures AddFreshNode(g).id == k
    ensures AddFreshNode(g).graph == WithNext(g, k)
  {
    if k == 0 {
      assert g.nodes == {};
    } else {
      assert k - 1 in g.nodes;
      assert AddFreshNode(g).id - 1 in Range(k);
    }
    assert Range(k + 1) == Range(k) + {k};
  }

  lemma IsolatedStep(k: nat)
    ensures Grow(Isolated, IsolatedGraph(k)) == IsolatedGraph(k + 1)
  {
    FreshOnRange(IsolatedGraph(k), k);
  }

  /** The graph of k nodes with k inserted but not yet connected. */
  function WithNext(g: Graph, k: nat): Graph {
    Graph(Range(k + 1), g.adj)
  }

  /** The neighbours of every identifier after the Rope step on the path of k nodes. */
  lemma RopeLinkAt(k: nat, i: NodeId)
    requires k >= 1
    ensures Neighbours(ConnectSpec(WithNext(RopeGraph(k), k), k - 1, {k}), i) == Neighbours(RopeGraph(k + 1), i)
  {
    ConnectSpecAt(WithNext(RopeGraph(k), k), k - 1, {k}, i);
  }

  lemma RopeKeys(k: nat)
    ensures RopeGraph(k).adj.Keys == if k < 2 then {} else Range(k)
  {
  }

  lemma RopeLinkKeys(k: nat)
    requires k >= 1
    ensures ConnectSpec(WithNext(RopeGraph(k), k), k - 1, {k}).adj.Keys == Range(k + 1)
  {
    RopeKeys(k);
    if k == 1 {
      assert Range(2) == {0, 1};
    } else {
      assert Range(k + 1) == Range(k) + {k};
    }
  }

  lemma RopeLinkNodes(k: nat)
    requires k >= 1
    ensures ConnectSpec(WithNext(RopeGraph(k), k), k - 1, {k}).nodes == Range(k + 1)
  {
    ConnectSpecKnownNodes(WithNext(RopeGraph(k), k), k - 1, {k});
  }

  lemma RopeLink(k: nat)
    requires k >= 1
    ensures ConnectSpec(WithNext(RopeGraph(k), k), k - 1, {k}) == RopeGraph(k + 1)
  {
    var r := ConnectSpec(WithNext(RopeGraph(k), k), k - 1, {k});
    RopeLinkKeys(k);
    RopeLinkNodes(k);
    RopeKeys(k + 1);
    forall i: NodeId
      ensures Neighbours(r, i) == Neighbours(RopeGraph(k + 1), i)
    {
      RopeLinkAt(k, i);
    }
    GraphEq(r, RopeGraph(k + 1));
  }

  lemma RopeStep(k: nat)
    ensures Grow(Rope, RopeGraph(k)) == RopeGraph(k + 1)
  {
    if k == 0 {
      assert Range(1) == {0};
    } else {
      FreshOnRange(RopeGraph(k), k);
      RopeLink(k);
    }
  }

  /** The neighbours of every identifier after the Complete step on the complete graph of k nodes. */
  lemma CompleteLinkAt(k: nat, i: NodeId)
    requires k >= 1
    ensures Neighbours(ConnectSpec(WithNext(CompleteGraph(k), k), k, Range(k)), i) == Neighbours(CompleteGraph(k + 1), i)
  {
    ConnectSpecAt(WithNext(CompleteGraph(k), k), k, Range(k), i);
    assert Range(k + 1) == Range(k) + {k};
  }

  lemma CompleteLink(k: nat)
    requires k >= 1
    ensures ConnectSpec(WithNext(CompleteGraph(k), k), k, Range(k)) == CompleteGraph(k + 1)
  {
    assert Range(k + 1) == Range(k) + {k};
    forall i: NodeId
      ensures Neighbours(ConnectSpec(WithNext(CompleteGraph(k), k), k, Range(k)), i) == Neighbours(CompleteGraph(k + 1), i)
    {
      CompleteLinkAt(k, i);
    }
    GraphEq(ConnectSpec(WithNext(CompleteGraph(k), k), k, Range(k)), CompleteGraph(k + 1));
  }

  lemma CompleteStep(k: nat)
    ensures Grow(Complete, CompleteGraph(k)) == CompleteGraph(k + 1)
  {
    if k == 0 {
      assert Range(1) == {0};
    } else {
      FreshOnRange(CompleteGraph(k), k);
      CompleteLink(k);
    }
  }

  lemma StrategyStep(s: Strategy, k: nat)
    requires s != Trivial
    ensures Callable(s)(Expected(s, k)) == Expected(s, k + 1)
  {
    assert Callable(s)(Expected(s, k)) == Grow(s, Expected(s, k));
    match s
    case Rope => RopeStep(k);
    case Isolated => IsolatedStep(k);
    case Complete => CompleteStep(k);
  }

  /** Generation from a freshly constructed graph with Rope, Isolated or
      Complete yields the expected graph on exactly k nodes. */
  lemma {:induction false} GenerateFromNew(s: Strategy, k: nat)
    requires s != Trivial
    ensures Productive(Callable(s))
    ensures Generate(Callable(s), New(), k) == Expected(s, k)
  {
    StrategyGrowsByOne(s);
    if k == 0 {
      assert Range(0) == {};
      assert Expected(s, 0) == New();
    } else {
      GenerateFromNew(s, k - 1);
      GenerateOneMore(Callable(s), New(), k - 1);
      StrategyStep(s, k - 1);
    }
  }

  /** Isolated generation: nodes 0 .. k-1 and no edges. */
  lemma IsolatedGenerates(k: nat)
    ensures Productive(Callable(Isolated))
    ensures var g := Generate(Callable(Isolated), New(), k);
      && g.nodes == Range(k) && Size(g) == k
      && g.adj == map[]
      && forall u: NodeId, v: NodeId :: !HasEdge(g, u, v)
  {
    GenerateFromNew(Isolated, k);
    RangeSize(k);
  }

  /** In the path of k nodes, u and v are adjacent exactly when they are consecutive. */
  lemma RopeShape(k: nat)
    ensures forall u: NodeId, v: NodeId :: HasEdge(RopeGraph(k), u, v) <==> u < k && v < k && (u + 1 == v || v + 1 == u)
  {
    forall u: NodeId, v: NodeId
      ensures HasEdge(RopeGraph(k), u, v) <==> u < k && v < k && (u + 1 == v || v + 1 == u)
    {
      if k < 2 && u < k && v < k {
        assert u == 0 && v == 0;
      }
    }
  }

  lemma CompleteKeys(k: nat)
    ensures CompleteGraph(k).adj.Keys == if k < 2 then {} else Range(k)
  {
  }

  lemma CompleteEntry(k: nat, i: NodeId)
    requires k >= 2 && i < k
    ensures CompleteGraph(k).adj[i] == Range(k) - {i}
    ensures |CompleteGraph(k).adj[i]| == k - 1
  {
    RangeSize(k);
    assert i in Range(k);
    assert |Range(k) - {i}| == |Range(k)| - 1;
  }

  /** In the complete graph of k >= 2 nodes, every node has the entry holding
      all the other nodes. */
  lemma CompleteEntries(k: nat)
    requires k >= 2
    ensures CompleteGraph(k).adj.Keys == Range(k)
    ensures forall i | i in Range(k) :: CompleteGraph(k).adj[i] == Range(k) - {i}
  {
    CompleteKeys(k);
  }

  /** ... so every node has k - 1 neighbours. */
  lemma CompleteDegrees(k: nat)
    requires k >= 2
    ensures forall i | i in Range(k) :: |CompleteGraph(k).adj[i]| == k - 1
  {
    forall i | i in Range(k)
      ensures |CompleteGraph(k).adj[i]| == k - 1
    {
      CompleteEntry(k, i);
    }
  }

  /** In the complete graph of k >= 2 nodes, u and v are adjacent exactly when they differ. */
  lemma CompleteEdges(k: nat)
    requires k >= 2
    ensures forall u: NodeId, v: NodeId :: HasEdge(CompleteGraph(k), u, v) <==> u < k && v < k && u != v
  {
    forall u: NodeId, v: NodeId
      ensures HasEdge(CompleteGraph(k), u, v) <==> u < k && v < k && u != v
    {
      CompleteEdge(k, u, v);
    }
  }

  lemma CompleteEdge(k: nat, u: NodeId, v: NodeId)
    requires k >= 2
    ensures HasEdge(CompleteGraph(k), u, v) <==> u < k && v < k && u != v
  {
    CompleteKeys(k);
    if u < k {
      assert CompleteGraph(k).adj[u] == Range(k) - {u};
    }
  }

  /** Rope generation: nodes 0 .. k-1, and u, v are adjacent exactly when
      they are consecutive. */
  lemma RopeGenerates(k: nat)
    ensures Productive(Callable(Rope))
    ensures Generate(Callable(Rope), New(), k).nodes == Range(k)
    ensures Size(Generate(Callable(Rope), New(), k)) == k
    ensures forall u: NodeId, v: NodeId :: HasEdge(Generate(Callable(Rope), New(), k), u, v) <==> u < k && v < k && (u + 1 == v || v + 1 == u)
  {
    GenerateFromNew(Rope, k);
    RangeSize(k);
    RopeShape(k);
  }

  /** Complete generation with at least two nodes yields the complete graph
      on 0 .. k-1 (characterised by CompleteEntries, CompleteDegrees and CompleteEdges). */
  lemma CompleteGenerates(k: nat)
    requires k >= 2
    ensures Productive(Callable(Complete))
    ensures Generate(Callable(Complete), New(), k) == CompleteGraph(k)
    ensures Generate(Callable(Complete), New(), k).nodes == Range(k)
    ensures Size(Generate(Callable(Complete), New(), k)) == k
    ensures Generate(Callable(Complete), New(), k).adj.Keys == Range(k)
  {
    GenerateFromNew(Complete, k);
    RangeSize(k);
    CompleteKeys(k);
  }

  /** The "1 node" generation test: Rope and Isolated each stop at one node. */
  lemma GenerateOneNode()
    ensures Productive(Callable(Rope)) && Productive(Callable(Isolated))
    ensures Size(Generate(Callable(Rope), New(), 1)) == 1
    ensures Size(Generate(Callable(Isolated), New(), 1)) == 1
  {
    StrategyGrowsByOne(Rope);
    StrategyGrowsByOne(Isolated);
    GenerateReachesExactly(Callable(Rope), New(), 1);
    GenerateReachesExactly(Callable(Isolated), New(), 1);
  }
}
