/**
 * The growable undirected graph container: a set of node identifiers and, for
 * every node that has taken part in a connection, the set of its neighbours.
 * Every mutator is a pure function from the old state to the new one.
 */
module Graphs {

  /** Node identifiers; unbounded, so the auto-assigned identifier never wraps. */
  type NodeId = nat

  /** `nodes` is the node set, `adj` the adjacency map. A node added without
      ever being connected has no entry in `adj`. */
  datatype Graph = Graph(nodes: set<NodeId>, adj: map<NodeId, set<NodeId>>)

  /** Result of the auto-assigning insertion: the new state and the new identifier. */
  datatype Fresh = Fresh(graph: Graph, id: NodeId)

  /** The neighbours of `k`, or the empty set when `k` has no adjacency entry. */
  function Neighbours(g: Graph, k: NodeId): set<NodeId> {
    if k in g.adj then g.adj[k] else {}
  }

  predicate HasEdge(g: Graph, u: NodeId, v: NodeId) {
    u in g.adj && v in g.adj[u]
  }

  /** The set of identifiers a container holds, whatever its order and repetitions. */
  function Elems(ns: seq<NodeId>): set<NodeId> {
    set v | v in ns
  }

  /** The container invariant: every adjacency key is a node, every neighbour
      has an entry of its own, and adjacency is symmetric. */
  ghost predicate Valid(g: Graph) {
    && g.adj.Keys <= g.nodes
    && forall u, v | u in g.adj && v in g.adj[u] :: v in g.adj && u in g.adj[v]
  }

  /** `h` keeps every node, every adjacency entry and every edge of `g`. */
  ghost predicate Extends(g: Graph, h: Graph) {
    && g.nodes <= h.nodes
    && g.adj.Keys <= h.adj.Keys
    && forall k | k in g.adj :: g.adj[k] <= h.adj[k]
  }

  /** Extension is transitive: what survives two steps survives their composition. */
  lemma ExtendsTrans(f: Graph, g: Graph, h: Graph)
    requires Extends(f, g) && Extends(g, h)
    ensures Extends(f, h)
  {
  }

  /** A freshly constructed graph. */
  function New(): (g: Graph)
    ensures Valid(g)
    ensures Size(g) == 0 && g.adj == map[]
  {
    Graph({}, map[])
  }

  /** Number of distinct node identifiers (not of adjacency entries). */
  function Size(g: Graph): nat {
    |g.nodes|
  }

  function IsEmpty(g: Graph): (b: bool)
    ensures b <==> Size(g) == 0
  {
    g.nodes == {}
  }

  /** Inserts `id` into the node set; a no-op when it is already there. */
  function AddNode(g: Graph, id: NodeId): (r: Graph)
    ensures id in g.nodes ==> r == g
    ensures id !in g.nodes ==> Size(r) == Size(g) + 1
    ensures r.nodes == g.nodes + {id}
    ensures r.adj == g.adj
    ensures Valid(g) ==> Valid(r)
  {
    if id in g.nodes then g else g.(nodes := g.nodes + {id})
  }

  lemma AddNodeIdempotent(g: Graph, id: NodeId)
    ensures AddNode(AddNode(g, id), id) == AddNode(g, id)
  {
  }

  lemma MaxExists(s: set<NodeId>)
    requires s != {}
    ensures exists m :: m in s && forall x | x in s :: x <= m
    decreases s
  {
    var y :| y in s;
    if s != {y} {
      MaxExists(s - {y});
      var m :| m in s - {y} && forall x | x in s - {y} :: x <= m;
      var top := if y <= m then m else y;
      forall x | x in s
        ensures x <= top
      {
        if x != y {
          assert x in s - {y};
        }
      }
      assert top in s;
    } else {
      assert forall x | x in s :: x <= y;
    }
  }

  /** The largest identifier of a non-empty set (std::max_element). */
  function MaxId(s: set<NodeId>): (m: NodeId)
    requires s != {}
    ensures m in s
    ensures forall x | x in s :: x <= m
  {
    MaxExists(s);
    var m :| m in s && forall x | x in s :: x <= m;
    m
  }

  /** Inserts and returns a new identifier: 0 in an empty graph, otherwise one
      more than the largest identifier present. No adjacency entry is made. */
  function AddFreshNode(g: Graph): (r: Fresh)
    ensures r.id !in g.nodes
    ensures g.nodes == {} ==> r.id == 0
    ensures g.nodes != {} ==> r.id >= 1 && r.id - 1 in g.nodes
    ensures forall x | x in g.nodes :: x < r.id
    ensures r.graph.nodes == g.nodes + {r.id}
    ensures Size(r.graph) == Size(g) + 1
    ensures r.graph.adj == g.adj
    ensures Valid(g) ==> Valid(r.graph)
  {
    var id := if g.nodes == {} then 0 else MaxId(g.nodes) + 1;
    Fresh(g.(nodes := g.nodes + {id}), id)
  }

  /**
   * The state that connecting `node` to every identifier of `s` must produce,
   * stated on sets: `node` and each member of `s` get an adjacency entry,
   * `node` gains `s` as neighbours, each member of `s` gains `node`, and an
   * identifier joins the node set exactly when its adjacency entry is new.
   */
  function ConnectSpec(g: Graph, node: NodeId, s: set<NodeId>): Graph {
    var touched := {node} + s;
    Graph(g.nodes + (touched - g.adj.Keys),
          map k | k in g.adj.Keys + touched ::
            Neighbours(g, k) + (if k == node then s else {}) + (if k in s then {node} else {}))
  }

  /** Looks up or creates the (empty) adjacency entry of `v`; a newly created
      entry also registers `v` as a node. */
  function Touch(g: Graph, v: NodeId): Graph {
    if v in g.adj then g else Graph(g.nodes + {v}, g.adj[v := {}])
  }

  /** Touching is connecting to nothing. */
  lemma TouchSpec(g: Graph, v: NodeId)
    ensures Touch(g, v) == ConnectSpec(g, v, {})
  {
    assert Touch(g, v).adj == ConnectSpec(g, v, {}).adj;
  }

  /** One iteration of the neighbour loop of the container form of connect. */
  function Link(g: Graph, node: NodeId, v: NodeId): Graph
    requires node in g.adj
  {
    var t := Touch(g, v);
    var t1 := t.(adj := t.adj[v := t.adj[v] + {node}]);
    t1.(adj := t1.adj[node := t1.adj[node] + {v}])
  }

  /** One iteration is connecting to a single identifier. */
  lemma LinkSpec(g: Graph, node: NodeId, v: NodeId)
    requires node in g.adj
    ensures Link(g, node, v) == ConnectSpec(g, node, {v})
  {
    assert Link(g, node, v).adj.Keys == ConnectSpec(g, node, {v}).adj.Keys;
    forall k: NodeId
      ensures Neighbours(Link(g, node, v), k) == Neighbours(ConnectSpec(g, node, {v}), k)
    {
      LinkAt(g, node, v, k);
    }
    GraphEq(Link(g, node, v), ConnectSpec(g, node, {v}));
  }

  lemma LinkAt(g: Graph, node: NodeId, v: NodeId, k: NodeId)
    requires node in g.adj
    ensures Neighbours(Link(g, node, v), k) == Neighbours(ConnectSpec(g, node, {v}), k)
  {
    ConnectSpecAt(g, node, {v}, k);
  }

  /** The neighbour loop: links `node` to each element of `ns` in turn. */
  function ConnectAll(g: Graph, node: NodeId, ns: seq<NodeId>): Graph
    requires node in g.adj
    decreases |ns|
  {
    if ns == [] then g else ConnectAll(Link(g, node, ns[0]), node, ns[1..])
  }

  /** The neighbour loop connects `node` to the set of identifiers it visits. */
  lemma {:induction false} ConnectAllSpec(g: Graph, node: NodeId, ns: seq<NodeId>)
    requires node in g.adj
    ensures ConnectAll(g, node, ns) == ConnectSpec(g, node, Elems(ns))
    decreases |ns|
  {
    if ns == [] {
      ConnectSpecNone(g, node);
      assert Elems(ns) == {};
    } else {
      LinkSpec(g, node, ns[0]);
      ConnectAllSpec(Link(g, node, ns[0]), node, ns[1..]);
      ConnectSpecCompose(g, node, {ns[0]}, Elems(ns[1..]));
      assert Elems(ns) == {ns[0]} + Elems(ns[1..]) by {
        assert ns == [ns[0]] + ns[1..];
      }
    }
  }

  /**
   * Container form of connect: creates the entry of `node`, then links it
   * symmetrically to every identifier the container yields.
   */
  function Connect(g: Graph, node: NodeId, ns: seq<NodeId>): (r: Graph)
    ensures r == ConnectSpec(g, node, Elems(ns))
  {
    TouchSpec(g, node);
    ConnectAllSpec(Touch(g, node), node, ns);
    ConnectSpecCompose(g, node, {}, Elems(ns));
    assert {} + Elems(ns) == Elems(ns);
    ConnectAll(Touch(g, node), node, ns)
  }

  /** After connecting, `node` and every identifier of the container are adjacent both ways. */
  lemma ConnectLinks(g: Graph, node: NodeId, ns: seq<NodeId>)
    ensures forall v | v in ns :: HasEdge(Connect(g, node, ns), node, v) && HasEdge(Connect(g, node, ns), v, node)
  {
    ConnectSpecLinks(g, node, Elems(ns));
  }

  /** Connect gives `node` and every neighbour an entry, adds the neighbours
      to the entry of `node` and adds `node` to the entry of every other
      neighbour. */
  lemma ConnectEntries(g: Graph, node: NodeId, ns: seq<NodeId>)
    ensures Connect(g, node, ns).adj.Keys == g.adj.Keys + {node} + Elems(ns)
    ensures Neighbours(Connect(g, node, ns), node) == Neighbours(g, node) + Elems(ns)
    ensures forall v | v in ns && v != node :: Connect(g, node, ns).adj[v] == Neighbours(g, v) + {node}
  {
    ConnectSpecAt(g, node, Elems(ns), node);
    forall v | v in ns && v != node
      ensures Connect(g, node, ns).adj[v] == Neighbours(g, v) + {node}
    {
      ConnectSpecAt(g, node, Elems(ns), v);
    }
  }

  /** Even an empty container creates the entry of `node`, registering it
      as a node when the entry is new. */
  lemma ConnectNone(g: Graph, node: NodeId)
    ensures node in Connect(g, node, []).adj
    ensures Connect(g, node, []).adj[node] == Neighbours(g, node)
    ensures Connect(g, node, []).nodes == if node in g.adj then g.nodes else g.nodes + {node}
  {
    assert Elems([]) == {};
    ConnectSpecAt(g, node, {}, node);
  }

  /** Connect leaves the entry of every identifier it does not touch as it was. */
  lemma ConnectFrame(g: Graph, node: NodeId, ns: seq<NodeId>)
    ensures forall k | k in g.adj && k != node && k !in Elems(ns) :: Connect(g, node, ns).adj[k] == g.adj[k]
  {
    forall k | k in g.adj && k != node && k !in Elems(ns)
      ensures Connect(g, node, ns).adj[k] == g.adj[k]
    {
      ConnectSpecAt(g, node, Elems(ns), k);
    }
  }

  /** Connect registers an identifier as a node exactly when it creates its
      adjacency entry; under the invariant every touched identifier ends up
      in the node set, and identifiers that are nodes already add nothing. */
  lemma ConnectRegistersNodes(g: Graph, node: NodeId, ns: seq<NodeId>)
    ensures var r := Connect(g, node, ns);
      && r.nodes == g.nodes + (({node} + Elems(ns)) - g.adj.Keys)
      && (g.adj.Keys <= g.nodes ==> r.nodes == g.nodes + {node} + Elems(ns))
      && ({node} + Elems(ns) <= g.nodes ==> r.nodes == g.nodes)
  {
  }

  /** Connect removes nothing and keeps the graph invariant. */
  lemma ConnectKeepsValid(g: Graph, node: NodeId, ns: seq<NodeId>)
    ensures Extends(g, Connect(g, node, ns))
    ensures Valid(g) ==> Valid(Connect(g, node, ns))
  {
    ConnectSpecExtends(g, node, Elems(ns));
    ConnectSpecValid(g, node, Elems(ns));
  }

  /** Variadic form `connect(node, n1, rest...)`: packs the arguments into an
      array and hands it to the container form. */
  function ConnectPack(g: Graph, node: NodeId, n1: NodeId, rest: seq<NodeId>): (r: Graph)
    ensures r == ConnectSpec(g, node, {n1} + Elems(rest))
  {
    assert Elems([n1] + rest) == {n1} + Elems(rest);
    Connect(g, node, [n1] + rest)
  }

  /** The variadic form and the container form agree on every container that
      holds the same identifiers, in whatever order and with whatever repetitions. */
  lemma ConnectPackAgrees(g: Graph, node: NodeId, n1: NodeId, rest: seq<NodeId>, ns: seq<NodeId>)
    requires Elems(ns) == {n1} + Elems(rest)
    ensures ConnectPack(g, node, n1, rest) == Connect(g, node, ns)
  {
  }

  /** Container form applied to a hash set, whose iteration order is unspecified. */
  function ConnectSet(g: Graph, node: NodeId, s: set<NodeId>): Graph {
    ConnectSpec(g, node, s)
  }

  /** Every enumeration order of the hash set gives the same state. */
  lemma ConnectSetAnyOrder(g: Graph, node: NodeId, s: set<NodeId>, ns: seq<NodeId>)
    requires Elems(ns) == s
    ensures ConnectSet(g, node, s) == Connect(g, node, ns)
  {
  }

  /** The result of the container form depends only on the set of neighbours. */
  lemma ConnectOrderIrrelevant(g: Graph, node: NodeId, ns: seq<NodeId>, ms: seq<NodeId>)
    requires Elems(ns) == Elems(ms)
    ensures Connect(g, node, ns) == Connect(g, node, ms)
  {
  }

  /** A self-loop is recorded as `node` being its own neighbour. */
  lemma ConnectSelfLoop(g: Graph, node: NodeId)
    ensures HasEdge(Connect(g, node, [node]), node, node)
    ensures Connect(g, node, [node]).adj[node] == Neighbours(g, node) + {node}
  {
    assert Elems([node]) == {node};
    ConnectSpecAt(g, node, {node}, node);
  }

  lemma ConnectSpecNone(g: Graph, node: NodeId)
    requires node in g.adj
    ensures ConnectSpec(g, node, {}) == g
  {
    var r := ConnectSpec(g, node, {});
    assert r.nodes == g.nodes;
    assert r.adj == g.adj;
  }

  /** Connecting to `a` and then to `b` is connecting to `a + b`. */
  lemma ConnectSpecCompose(g: Graph, node: NodeId, a: set<NodeId>, b: set<NodeId>)
    ensures ConnectSpec(ConnectSpec(g, node, a), node, b) == ConnectSpec(g, node, a + b)
  {
    var g1 := ConnectSpec(g, node, a);
    var lhs := ConnectSpec(g1, node, b);
    var rhs := ConnectSpec(g, node, a + b);
    assert lhs.nodes == rhs.nodes;
    assert lhs.adj.Keys == rhs.adj.Keys;
    forall k | k in lhs.adj
      ensures lhs.adj[k] == rhs.adj[k]
    {
      ConnectSpecComposeAt(g, node, a, b, k);
    }
    assert lhs.adj == rhs.adj;
  }

  lemma ConnectSpecComposeAt(g: Graph, node: NodeId, a: set<NodeId>, b: set<NodeId>, k: NodeId)
    ensures Neighbours(ConnectSpec(ConnectSpec(g, node, a), node, b), k) == Neighbours(ConnectSpec(g, node, a + b), k)
  {
    var g1 := ConnectSpec(g, node, a);
    var ka := if k in a then {node} else {};
    var kb := if k in b then {node} else {};
    var kab := if k in a + b then {node} else {};
    assert ka + kb == kab;
    if k == node {
      assert Neighbours(g1, k) == Neighbours(g, k) + a + ka;
    } else if k in g1.adj {
      assert Neighbours(g1, k) == Neighbours(g, k) + ka;
    }
  }

  /** The neighbours of any identifier after connecting. */
  lemma ConnectSpecAt(g: Graph, node: NodeId, s: set<NodeId>, k: NodeId)
    ensures Neighbours(ConnectSpec(g, node, s), k)
         == Neighbours(g, k) + (if k == node then s else {}) + (if k in s then {node} else {})
  {
  }

  lemma ConnectSpecLinks(g: Graph, node: NodeId, s: set<NodeId>)
    ensures forall v | v in s :: HasEdge(ConnectSpec(g, node, s), node, v) && HasEdge(ConnectSpec(g, node, s), v, node)
  {
  }

  /** Two graphs with the same nodes, the same adjacency keys and the same
      neighbours everywhere are equal. */
  lemma GraphEq(a: Graph, b: Graph)
    requires a.nodes == b.nodes && a.adj.Keys == b.adj.Keys
    requires forall k :: Neighbours(a, k) == Neighbours(b, k)
    ensures a == b
  {
    assert forall k | k in a.adj :: a.adj[k] == Neighbours(a, k);
    assert a.adj == b.adj;
  }

  /** Connecting identifiers that are all nodes adds no node. */
  lemma ConnectSpecKnownNodes(g: Graph, node: NodeId, s: set<NodeId>)
    requires {node} + s <= g.nodes
    ensures ConnectSpec(g, node, s).nodes == g.nodes
  {
  }

  lemma ConnectSpecExtends(g: Graph, node: NodeId, s: set<NodeId>)
    ensures Extends(g, ConnectSpec(g, node, s))
  {
  }

  lemma ConnectSpecValid(g: Graph, node: NodeId, s: set<NodeId>)
    ensures Valid(g) ==> Valid(ConnectSpec(g, node, s))
  {
    if !Valid(g) {
      return;
    }
    var r := ConnectSpec(g, node, s);
    forall u, v | u in r.adj && v in r.adj[u]
      ensures v in r.adj && u in r.adj[v]
    {
      if v in Neighbours(g, u) {
        assert u in g.adj[v];
      }
    }
  }
}
