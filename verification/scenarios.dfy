/**
 * The connect scenarios of the test suite, on a graph built with the
 * trivial strategy (which plays no part in connecting). The suite uses the
 * identifiers 1 .. 6; the scenarios hold for any distinct identifiers.
 */
module Scenarios {
  import opened Graphs

  /** Connecting `c` to a set of other identifiers in an empty graph: every
      identifier becomes a node with an entry, `c` is adjacent to the whole
      set and every member of the set only to `c`. */
  lemma ConnectOnEmpty(c: NodeId, s: set<NodeId>)
    requires c !in s
    ensures ConnectSpec(New(), c, s).nodes == {c} + s
    ensures |ConnectSpec(New(), c, s).nodes| == |s| + 1
    ensures ConnectSpec(New(), c, s).adj.Keys == {c} + s
    ensures ConnectSpec(New(), c, s).adj[c] == s
    ensures forall v | v in s :: ConnectSpec(New(), c, s).adj[v] == {c}
  {
    ConnectOnEmptyCentre(c, s);
    forall v | v in s
      ensures ConnectSpec(New(), c, s).adj[v] == {c}
    {
      ConnectOnEmptyMember(c, s, v);
    }
  }

  lemma ConnectOnEmptyCentre(c: NodeId, s: set<NodeId>)
    requires c !in s
    ensures ConnectSpec(New(), c, s).adj[c] == s
  {
    ConnectSpecAt(New(), c, s, c);
  }

  lemma ConnectOnEmptyMember(c: NodeId, s: set<NodeId>, v: NodeId)
    requires c !in s && v in s
    ensures ConnectSpec(New(), c, s).adj[v] == {c}
  {
    ConnectSpecAt(New(), c, s, v);
  }

  /** Connecting `b` to a fresh `f` and to `e`, where `e` is new or only
      adjacent to `c`: `b` gains both, `e` and `f` gain `b`. */
  lemma ConnectSecond(g: Graph, b: NodeId, c: NodeId, e: NodeId, f: NodeId)
    requires b in g.nodes && b in g.adj && g.adj[b] == {c} && f !in g.nodes && f !in g.adj
    requires e != b && e != f && f != b
    requires e in g.adj ==> g.adj[e] == {c}
    requires e in g.nodes <==> e in g.adj
    ensures ConnectSpec(g, b, {e, f}).nodes == g.nodes + {e, f}
    ensures ConnectSpec(g, b, {e, f}).adj[b] == {c, e, f}
    ensures ConnectSpec(g, b, {e, f}).adj[e] == (if e in g.adj then {c, b} else {b})
    ensures ConnectSpec(g, b, {e, f}).adj[f] == {b}
  {
    ConnectSpecAt(g, b, {e, f}, b);
    ConnectSpecAt(g, b, {e, f}, e);
    ConnectSpecAt(g, b, {e, f}, f);
  }

  lemma FourDistinct(a: NodeId, b: NodeId, c: NodeId, d: NodeId)
    requires a != b && a != c && a != d && b != c && b != d && c != d
    ensures |{b, c, d}| == 3
    ensures {a} + {b, c, d} == {a, b, c, d}
  {
  }

  lemma StarFacts(a: NodeId, b: NodeId, c: NodeId, d: NodeId)
    requires a != b && a != c && a != d && b != c && b != d && c != d
    ensures ConnectSpec(New(), a, {b, c, d}).nodes == {a, b, c, d}
    ensures |ConnectSpec(New(), a, {b, c, d}).nodes| == 4
    ensures ConnectSpec(New(), a, {b, c, d}).adj.Keys == {a, b, c, d}
    ensures ConnectSpec(New(), a, {b, c, d}).adj[a] == {b, c, d}
    ensures |ConnectSpec(New(), a, {b, c, d}).adj[a]| == 3
    ensures ConnectSpec(New(), a, {b, c, d}).adj[b] == {a}
    ensures ConnectSpec(New(), a, {b, c, d}).adj[c] == {a}
    ensures ConnectSpec(New(), a, {b, c, d}).adj[d] == {a}
  {
    FourDistinct(a, b, c, d);
    ConnectOnEmpty(a, {b, c, d});
  }

  /** `connect(1, 2, 3, 4)` on an empty graph registers all four identifiers
      and makes 1 the only neighbour of 2, 3 and 4. */
  lemma PackFirst(a: NodeId, b: NodeId, c: NodeId, d: NodeId)
    requires a != b && a != c && a != d && b != c && b != d && c != d
    ensures ConnectPack(New(), a, b, [c, d]).nodes == {a, b, c, d}
    ensures Size(ConnectPack(New(), a, b, [c, d])) == 4
    ensures ConnectPack(New(), a, b, [c, d]).adj.Keys == {a, b, c, d}
    ensures |ConnectPack(New(), a, b, [c, d]).adj| == 4
    ensures ConnectPack(New(), a, b, [c, d]).adj[a] == {b, c, d}
    ensures |ConnectPack(New(), a, b, [c, d]).adj[a]| == 3
    ensures ConnectPack(New(), a, b, [c, d]).adj[b] == {a}
    ensures ConnectPack(New(), a, b, [c, d]).adj[c] == {a}
    ensures ConnectPack(New(), a, b, [c, d]).adj[d] == {a}
  {
    assert {b} + Elems([c, d]) == {b, c, d};
    StarFacts(a, b, c, d);
  }

  lemma SixDistinct(a: NodeId, b: NodeId, c: NodeId, d: NodeId, e: NodeId, f: NodeId)
    requires a != b && a != c && a != d && b != c && b != d && c != d
    requires e !in {a, b, c, d} && f !in {a, b, c, d} && e != f
    ensures {a, b, c, d} + {e, f} == {a, b, c, d, e, f}
    ensures |{a, b, c, d} + {e, f}| == 6
  {
    assert {a, b, c, d} + {e, f} == {a, b, c, d, e, f};
  }

  lemma PackSecondFacts(g: Graph, a: NodeId, b: NodeId, c: NodeId, d: NodeId, e: NodeId, f: NodeId)
    requires g.nodes == {a, b, c, d} && g.adj.Keys == {a, b, c, d} && g.adj[b] == {a}
    requires a != b && a != c && a != d && b != c && b != d && c != d
    requires e !in {a, b, c, d} && f !in {a, b, c, d} && e != f
    ensures ConnectSpec(g, b, {e, f}).nodes == {a, b, c, d, e, f}
    ensures |ConnectSpec(g, b, {e, f}).nodes| == 6
    ensures ConnectSpec(g, b, {e, f}).adj[b] == {a, e, f}
    ensures |ConnectSpec(g, b, {e, f}).adj[b]| == 3
    ensures ConnectSpec(g, b, {e, f}).adj[e] == {b}
    ensures ConnectSpec(g, b, {e, f}).adj[f] == {b}
  {
    ConnectSecond(g, b, a, e, f);
    SixDistinct(a, b, c, d, e, f);
  }

  /** `connect(b, e, f)` on a state shaped like the one the first call leaves. */
  lemma PackSecondOn(g: Graph, a: NodeId, b: NodeId, c: NodeId, d: NodeId, e: NodeId, f: NodeId)
    requires g.nodes == {a, b, c, d} && g.adj.Keys == {a, b, c, d} && g.adj[b] == {a}
    requires a != b && a != c && a != d && b != c && b != d && c != d
    requires e !in {a, b, c, d} && f !in {a, b, c, d} && e != f
    ensures ConnectPack(g, b, e, [f]).nodes == {a, b, c, d, e, f}
    ensures Size(ConnectPack(g, b, e, [f])) == 6
    ensures ConnectPack(g, b, e, [f]).adj[b] == {a, e, f}
    ensures |ConnectPack(g, b, e, [f]).adj[b]| == 3
    ensures ConnectPack(g, b, e, [f]).adj[e] == {b}
    ensures ConnectPack(g, b, e, [f]).adj[f] == {b}
  {
    assert {e} + Elems([f]) == {e, f};
    PackSecondFacts(g, a, b, c, d, e, f);
  }

  /** Then `connect(2, 5, 6)` adds 5 and 6; 2 gains them as neighbours next to 1. */
  lemma PackSecond(a: NodeId, b: NodeId, c: NodeId, d: NodeId, e: NodeId, f: NodeId)
    requires a != b && a != c && a != d && b != c && b != d && c != d
    requires e !in {a, b, c, d} && f !in {a, b, c, d} && e != f
    ensures ConnectPack(ConnectPack(New(), a, b, [c, d]), b, e, [f]).nodes == {a, b, c, d, e, f}
    ensures Size(ConnectPack(ConnectPack(New(), a, b, [c, d]), b, e, [f])) == 6
    ensures ConnectPack(ConnectPack(New(), a, b, [c, d]), b, e, [f]).adj[b] == {a, e, f}
    ensures |ConnectPack(ConnectPack(New(), a, b, [c, d]), b, e, [f]).adj[b]| == 3
    ensures ConnectPack(ConnectPack(New(), a, b, [c, d]), b, e, [f]).adj[e] == {b}
    ensures ConnectPack(ConnectPack(New(), a, b, [c, d]), b, e, [f]).adj[f] == {b}
  {
    PackFirst(a, b, c, d);
    PackSecondOn(ConnectPack(New(), a, b, [c, d]), a, b, c, d, e, f);
  }

  /** `connect(1, {2, 3, 4, 5})` on an empty graph, whatever order the hash
      set yields its members in: all five become nodes, 1 is adjacent to the
      four others and each of them only to 1. */
  lemma SetFirst(c: NodeId, s: set<NodeId>, ns: seq<NodeId>)
    requires c !in s && Elems(ns) == s
    ensures Connect(New(), c, ns) == ConnectSet(New(), c, s)
    ensures Connect(New(), c, ns).nodes == {c} + s
    ensures Size(Connect(New(), c, ns)) == |s| + 1
    ensures Connect(New(), c, ns).adj.Keys == {c} + s
    ensures |Connect(New(), c, ns).adj| == |s| + 1
    ensures Connect(New(), c, ns).adj[c] == s
    ensures forall v | v in s :: Connect(New(), c, ns).adj[v] == {c}
  {
    ConnectOnEmpty(c, s);
  }

  lemma SetSecondFacts(g: Graph, c: NodeId, s: set<NodeId>, b: NodeId, e: NodeId, f: NodeId)
    requires g.nodes == {c} + s && g.adj.Keys == {c} + s && c !in s
    requires b in s && e in s && b != e && f != c && f !in s
    requires g.adj[b] == {c} && g.adj[e] == {c}
    ensures |ConnectSpec(g, b, {e, f}).nodes| == |s| + 2
    ensures f in ConnectSpec(g, b, {e, f}).nodes
    ensures ConnectSpec(g, b, {e, f}).adj[b] == {c, e, f}
    ensures ConnectSpec(g, b, {e, f}).adj[e] == {c, b}
    ensures ConnectSpec(g, b, {e, f}).adj[f] == {b}
  {
    ConnectSecond(g, b, c, e, f);
    assert g.nodes + {e, f} == g.nodes + {f};
  }

  /** Connecting to a set after the first call, by either form. */
  lemma SetSecondOn(g: Graph, c: NodeId, s: set<NodeId>, b: NodeId, e: NodeId, f: NodeId, ms: seq<NodeId>)
    requires g.nodes == {c} + s && g.adj.Keys == {c} + s && c !in s
    requires b in s && e in s && b != e && f != c && f !in s
    requires g.adj[b] == {c} && g.adj[e] == {c}
    requires Elems(ms) == {e, f}
    ensures Size(ConnectPack(g, b, e, [f])) == |s| + 2
    ensures f in ConnectPack(g, b, e, [f]).nodes
    ensures Connect(g, b, ms).adj[b] == {c, e, f}
    ensures Connect(g, b, ms).adj[e] == {c, b}
    ensures Connect(g, b, ms).adj[f] == {b}
  {
    assert {e} + Elems([f]) == {e, f};
    SetSecondFacts(g, c, s, b, e, f);
  }

  /** Then `connect(2, 5, 6)` registers 6 only; and `connect(2, {5, 6})`
      instead leaves 5, already adjacent to 1, adjacent to 1 and 2, and 6
      adjacent to 2 only. */
  lemma SetSecond(c: NodeId, s: set<NodeId>, ns: seq<NodeId>, b: NodeId, e: NodeId, f: NodeId, ms: seq<NodeId>)
    requires c !in s && Elems(ns) == s
    requires b in s && e in s && b != e && f != c && f !in s
    requires Elems(ms) == {e, f}
    ensures Size(ConnectPack(Connect(New(), c, ns), b, e, [f])) == |s| + 2
    ensures f in ConnectPack(Connect(New(), c, ns), b, e, [f]).nodes
    ensures Connect(Connect(New(), c, ns), b, ms).adj[b] == {c, e, f}
    ensures Connect(Connect(New(), c, ns), b, ms).adj[e] == {c, b}
    ensures Connect(Connect(New(), c, ns), b, ms).adj[f] == {b}
  {
    SetFirst(c, s, ns);
    SetSecondOn(Connect(New(), c, ns), c, s, b, e, f, ms);
  }
}
