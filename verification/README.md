# mm::Graph — a Dafny model of a growable undirected graph

The repository provides `mm::Graph`, a header-only C++ container for undirected
graphs. It holds two things:

- a set of node identifiers;
- an adjacency map from an identifier to the set of its neighbours.

It is parameterised by an *iterative generator*: a callable that grows the graph by
one step. `generate(n)` calls it until the graph holds at least `n` nodes. The test
suite defines four generators:

- Trivial: does nothing.
- Rope: builds a path.
- Isolated: builds nodes without edges.
- Complete: builds a complete graph.

It also exercises both forms of `connect`.

This project models the container as an immutable value:

- `Graphs.Graph(nodes, adj)` is the state.
- Every mutator is a pure function from the old state to the new one.

The model files are:

- `graph.dfy` (module `Graphs`): construction, `empty`, `size`, both `addNode`
  overloads and both `connect` overloads. The container form of `connect` is
  modelled as a fold over the sequence in which the container yields its
  elements. A set-based reference definition, `ConnectSpec`, pins it down.
- `generate.dfy` (module `Generation`): the `generate` loop, with the generator
  passed in as a function value.
- `strategies.dfy` (module `Strategies`): the four test generators, and the
  graphs that generation from an empty graph produces with them (path, isolated
  nodes, complete graph).
- `scenarios.dfy` (module `Scenarios`): the `connect` scenarios of the test suite.
  The suite uses the identifiers 1 to 6. Here they are stated for any distinct
  identifiers.

## Model

| member | source | states |
|---|---|---|
| Graphs.New | graph/include/graph.hpp:56-59 | a constructed graph has no node and no adjacency entry, and satisfies the invariant (every key is a node, every neighbour has its own entry, adjacency is symmetric) |
| Graphs.IsEmpty | graph/include/graph.hpp:93-97 | the graph is empty exactly when its size (number of nodes) is zero |
| Graphs.AddNode | graph/include/graph.hpp:118-124 | inserting an id already present changes nothing; otherwise the size grows by one; afterwards the node set is the old one plus the id; adjacency is untouched; the invariant is kept |
| Graphs.AddNodeIdempotent | graph/include/graph.hpp:118-124 | adding the same id twice is the same as adding it once |
| Graphs.MaxId | graph/include/graph.hpp:130-132 | the max_element of a non-empty node set is a member of it and bounds every member |
| Graphs.AddFreshNode | graph/include/graph.hpp:126-136 | the assigned id is 0 in an empty graph; otherwise it is one above the largest id present (so id-1 is a node and every node is below it); the id was not a node before; exactly it is added; adjacency is untouched; the invariant is kept |
| Graphs.TouchSpec | graph/include/graph.hpp:153-158 | creating the entry of `node` (and registering it as a node only when the entry is new) is connecting `node` to nothing in the reference definition |
| Graphs.LinkSpec | graph/include/graph.hpp:160-170 | one iteration of the loop (create the neighbour's entry when absent and register it then, add `node` to it, add the neighbour to `node`'s entry) equals the reference connection to that single neighbour |
| Graphs.ConnectAllSpec | graph/include/graph.hpp:160-170 | the loop over any sequence of neighbours equals the reference connection to the set of its elements |
| Graphs.Connect | graph/include/graph.hpp:148-171 | the container form produces the reference state for the set of the container's elements |
| Graphs.ConnectLinks | graph/include/graph.hpp:163-169 | after connecting, `node` and every identifier of the container are adjacent in both directions |
| Graphs.ConnectEntries | graph/include/graph.hpp:153-169 | the keys become the old keys plus `node` plus the container; `node` gains exactly the container's elements; every other element gains exactly `node` |
| Graphs.ConnectNone | graph/include/graph.hpp:153-158 | an empty container still creates `node`'s entry, keeps its neighbours, and registers `node` only when its entry was new |
| Graphs.ConnectFrame | graph/include/graph.hpp:148-171 | entries of identifiers that are neither `node` nor in the container are unchanged |
| Graphs.ConnectRegistersNodes | graph/include/graph.hpp:156-158 | an identifier joins the node set exactly when its adjacency entry is created; under the invariant every touched id ends up a node; connecting existing nodes adds none |
| Graphs.ConnectKeepsValid | graph/include/graph.hpp:148-171 | connect removes no node, entry or edge, and keeps the invariant |
| Graphs.ConnectPack | graph/include/graph.hpp:138-146 | the variadic form gives the reference state for `{n1}` plus the remaining arguments |
| Graphs.ConnectPackAgrees | graph/include/graph.hpp:138-146 | the variadic form equals the container form on any container holding the same identifiers |
| Graphs.ConnectSetAnyOrder | graph/include/graph.hpp:148-171 | connecting to a hash set gives the same state whatever order the set is enumerated in |
| Graphs.ConnectOrderIrrelevant | graph/include/graph.hpp:160-170 | two containers with the same elements, in any order and with any repetitions, give the same state |
| Graphs.ConnectSelfLoop | graph/include/graph.hpp:163-169 | connecting a node to itself records it as its own neighbour |
| Graphs.ConnectSpecCompose | graph/include/graph.hpp:160-170 | connecting to `a` and then to `b` equals connecting to `a + b` |
| Graphs.ConnectSpecValid | graph/include/graph.hpp:148-171 | the reference connection keeps adjacency symmetric and every key a node |
| Generation.Generate | graph/include/graph.hpp:61-67 | generation stops with at least `n` nodes, and leaves a graph already that large unchanged |
| Generation.GenerateReachesExactly | graph/include/graph.hpp:61-67 | with a generator adding one node per call, generation stops at exactly `n` nodes |
| Generation.GenerateOneMore | graph/include/graph.hpp:61-67 | raising the target by one costs exactly one more generator call |
| Generation.GenerateKeepsValid | graph/include/graph.hpp:61-67 | generation keeps the invariant when the generator does |
| Generation.GenerateExtends | graph/include/graph.hpp:61-67 | generation removes no node, adjacency entry or edge when the generator removes none |
| Strategies.LinkToPrevious | test/src/graph_test.cpp:16-17 | `connect(new_node_id - 1, new_node_id)` links the new id to the one below it and to nothing else |
| Strategies.RopeGrowFacts | test/src/graph_test.cpp:11-18 | one Rope step adds exactly one node, removes nothing and keeps the invariant |
| Strategies.CompleteGrowFacts | test/src/graph_test.cpp:22-30 | one Complete step adds exactly one node, removes nothing and keeps the invariant |
| Strategies.GrowFacts | test/src/graph_test.cpp:9-30 | Trivial leaves the graph unchanged; every other generator adds exactly one node; all of them remove nothing and keep the invariant |
| Strategies.StrategyGrowsByOne | test/src/graph_test.cpp:11-30 | Rope, Isolated and Complete add one node per call (so generation with them terminates), never remove a node, entry or edge, and keep the invariant |
| Strategies.TrivialIsUnproductive | test/src/graph_test.cpp:9 | Trivial never adds a node; generation with it is admissible only for a target already met, and then changes nothing |
| Strategies.IsolatedStep | test/src/graph_test.cpp:20 | one Isolated step takes the k isolated nodes 0..k-1 to k+1 isolated nodes |
| Strategies.RopeStep | test/src/graph_test.cpp:11-18 | one Rope step takes the path over 0..k-1 to the path over 0..k |
| Strategies.CompleteStep | test/src/graph_test.cpp:22-30 | one Complete step takes the complete graph on 0..k-1 to the complete graph on 0..k |
| Strategies.GenerateFromNew | graph/include/graph.hpp:61-67 | generation from a new graph with Rope, Isolated or Complete yields exactly the expected graph on k nodes |
| Strategies.IsolatedGenerates | test/src/graph_test.cpp:20 | Isolated generation yields the nodes 0..k-1, no adjacency entry and no edge |
| Strategies.RopeShape | test/src/graph_test.cpp:11-18 | in the path over 0..k-1, two ids are adjacent exactly when both are below k and consecutive |
| Strategies.RopeGenerates | test/src/graph_test.cpp:11-18 | Rope generation yields nodes 0..k-1 (size k), and two ids are adjacent exactly when they are consecutive |
| Strategies.CompleteEntries | test/src/graph_test.cpp:22-30 | in the complete graph on k >= 2 nodes every node has an entry holding every other node |
| Strategies.CompleteDegrees | test/src/graph_test.cpp:22-30 | in the complete graph on k >= 2 nodes every node has k-1 neighbours |
| Strategies.CompleteEdges | test/src/graph_test.cpp:22-30 | in the complete graph on k >= 2 nodes two ids are adjacent exactly when both are below k and differ |
| Strategies.CompleteGenerates | test/src/graph_test.cpp:22-30 | Complete generation of k >= 2 nodes yields the complete graph on 0..k-1, with size k and an entry for every node |
| Strategies.GenerateOneNode | test/src/graph_test.cpp:165-178 | generating one node with Rope or with Isolated yields a graph of size 1 |
| Scenarios.ConnectOnEmpty | test/src/graph_test.cpp:42-53 | connecting `c` to a set of other ids in an empty graph registers exactly them all; `c` is adjacent to the set and each member only to `c` |
| Scenarios.PackFirst | test/src/graph_test.cpp:62-81 | `connect(a, b, c, d)` on an empty graph: four nodes and four entries; `a` has neighbours b, c, d; each of those has only `a` |
| Scenarios.PackSecond | test/src/graph_test.cpp:55-95 | then `connect(b, e, f)`: the nodes are exactly a, b, c, d, e, f (six of them); `b` has neighbours a, e, f; `e` and `f` each have only `b` |
| Scenarios.SetFirst | test/src/graph_test.cpp:121-145 | connecting `c` to a hash set in an empty graph, in any enumeration order: \|s\|+1 nodes and entries; `c` adjacent to the set; each member only to `c` |
| Scenarios.SetSecond | test/src/graph_test.cpp:147-161 | then `connect(b, e, f)` registers only the new `f`; and the set form `connect(b, {e, f})` gives `b` the neighbours c, e, f, gives `e` the neighbours c, b, and gives `f` only `b` |

## Left out

- Iteration (`begin`/`end`, graph.hpp:69-91): the model exposes the adjacency map as a
  value and does not model iterators over it.
- The accessors `adjacencies()` and `nodes()` (graph.hpp:106-116) are the fields of
  the `Graph` datatype. `size()` (graph.hpp:99-104) is `Graphs.Size`.
- Graphs.AddFreshNode: identifiers are unbounded naturals. The wrap-around of
  `size_t` when the largest id is `SIZE_MAX` is not modelled.
- Generation.Generate: the generator is a parameter rather than a member stored in
  the graph. The call is admitted only when the target is already met or the
  generator is productive (it adds a node on every call). With the Trivial
  generator and a larger target, the source loops forever, and the model
  excludes that call.
- Graphs.ConnectSet: a hash set's iteration order is unspecified. It is modelled
  by the set-based definition, together with the lemma that every enumeration
  order gives that state.
- `constexpr`, `noexcept`, allocation and the test framework's reporting are not modelled.
- Scenarios.PackFirst, Scenarios.PackSecond, Scenarios.SetFirst and
  Scenarios.SetSecond are stated for arbitrary distinct identifiers, not for the
  literal 1 to 6 the suite uses. The literal case is an instance.
- Scenarios.SetSecond states the node count after the variadic second call
  (graph_test.cpp:115-118). It states the entries after the set-form second call
  (graph_test.cpp:147-161). It does not state the cardinalities of the second
  call's entries, because those follow directly from the listed sets.
- Strategies.CompleteGenerates is stated for k >= 2. For k < 2 generation yields
  0..k-1 without entries, which Strategies.GenerateFromNew covers.
