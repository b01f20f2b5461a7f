# DependencyPlan, modelled in Dafny

`DependencyPlan` wraps a networkx `DiGraph` built from a list of
(parent, child) edges and an optional list of extra nodes. It answers
adjacency questions: successors, predecessors, two-hop neighbours, degrees,
the edge list, and the root and leaf reached by following first parents or
first children. It also builds a "dependency plan of order zero": one record
per weakly connected component, `{node, order: 0, child}`. To pick that
record it walks the component's predecessors with a worklist, takes the BFS
distance map of the last node read, and chooses the last key at distance 0.

The project has these modules:

- `Wrappers` (`wrappers.dfy`): `Option`.
- `Digraphs` (`digraph.dfy`): the DiGraph state as a value. It holds the nodes in insertion order and the edges in insertion order, each stored once. It also has the primitives the class calls: `add_node`, `add_edge`, `add_edges_from`, `successors`, `predecessors`, `has_successor`, `has_predecessor`, the degrees, and the `degree()` and `edges()` views. Acyclicity is defined here as the existence of a topological numbering, and walks and reachability are defined here too.
- `WeakComponents` (`components.dfy`): `weakly_connected_components`, in networkx order. The components come in the order of their first node. Each component is the least set holding its seed that no edge crosses.
- `ShortestPaths` (`shortest_paths.dfy`): unweighted `shortest_path_length(G, source)`, a level-by-level BFS. It returns its (node, distance) entries in dictionary insertion order.
- `Worklists` (`worklist.dfy`): the order in which `get_node_dependencies` reads its growing list, and a measure that proves the list is finite on an acyclic graph.
- `DependencyPlans` (`dependency_plan.dfy`): the `DependencyPlan` class, with fields `edgeList`, `dependencyPlan` and `graph`. Its loops are methods with invariants, its queries are functions that read the object, and the plan's specification predicates live at module level.
- `ExamplePlan` (`example_plan.dfy`): the repository's test graph, with "Report k" written as the integer k. Its facts are proved as lemmas: the graph the constructor builds, acyclicity, the components, roots and leaves, degrees, and the plan.
- `ExampleTests` (`example_tests.dfy`): one method per test function. Each builds the object as the test does and calls the same operation, and its `ensures` is the test's assertion.

## Model

| member | source | states |
|---|---|---|
| DependencyPlans.DependencyPlan.constructor | dependency_plan.py:25-36 | keeps the edge list, starts with an empty plan, and leaves the graph as the edges added in order followed by the listed nodes (`InitialGraph`); the graph is well formed |
| DependencyPlans.InitialGraph | dependency_plan.py:30-36 | the initial graph is well formed; its node set is every edge endpoint plus every listed node; its edge set is the given pairs with duplicates collapsed |
| DependencyPlans.NodeListKeepsEdges | dependency_plan.py:30-36 | passing a node list gives the same edges as passing none; the node set only gains the listed nodes |
| DependencyPlans.AddNodesPresent | dependency_plan.py:43-44 | adding nodes that are all present already leaves the graph unchanged |
| DependencyPlans.DependencyPlan.SetNode | dependency_plan.py:38-44 | the graph becomes the old graph with one `add_node` per listed node, in order; the edge list and plan are unchanged |
| Digraphs.Digraph.AddNode | dependency_plan.py:44 | the node set gains the node; edges are unchanged; existing nodes keep their order; well-formedness is preserved |
| Digraphs.Digraph.AddEdge | dependency_plan.py:35 | the node set gains both endpoints and the edge set gains the pair; existing nodes and edges keep their order; well-formedness is preserved |
| Digraphs.Digraph.AddEdgesFrom | dependency_plan.py:35 | the node set gains every endpoint and the edge set gains every pair; well-formedness is preserved |
| Digraphs.Digraph.AddEdgesFromExtends | dependency_plan.py:35 | the existing nodes and edges stay, in their order, as prefixes of the new sequences |
| Digraphs.Digraph.AddEdgesFromOrder | dependency_plan.py:35 | if the edges (nodes) are the first occurrences of E (V), then afterwards they are the first occurrences of E followed by the new pairs (V followed by each new pair's source and target), so new edges and nodes are appended in input order |
| Digraphs.FirstOccurrencesInsert | dependency_plan.py:44 | appending an element only when it is absent keeps a sequence equal to the first occurrences of its source, extended by that element |
| Digraphs.Digraph.AddNodes | dependency_plan.py:43-44 | the node set gains the listed nodes, with the existing nodes kept in order as a prefix; edges are unchanged; well-formedness is preserved |
| Digraphs.Digraph.AddNodesOrder | dependency_plan.py:43-44 | if the nodes are the first occurrences of V, afterwards they are the first occurrences of V followed by the list |
| DependencyPlans.InitialGraphDedup | dependency_plan.py:30-36 | the initial graph is computed directly. Its node list is the edge endpoints (source, then target, edge by edge) followed by the listed nodes, each kept at its first occurrence. Its edge list is the given pairs, each kept at its first occurrence |
| Digraphs.DedupIntoFresh | dependency_plan.py:35 | when nothing repeats, adding elements one at a time unless present appends the whole list |
| Digraphs.DedupIntoSeen | dependency_plan.py:44 | adding elements that are all present already changes nothing |
| DependencyPlans.InitialGraphOrder | dependency_plan.py:30-36 | the initial edges are the distinct pairs of the edge list, in order of first occurrence; the initial nodes are the distinct edge endpoints (source, then target, edge by edge) followed by the listed nodes, in order of first occurrence |
| DependencyPlans.DependencyPlan.GetDependencyPlanOrderZero | dependency_plan.py:46-63 | on an acyclic graph, one record is appended per weakly connected component, in component order; the earlier plan is kept as a prefix; record k names a node of component k with no predecessors, with order 0 and its number of children; graph and edge list are unchanged, and the whole plan is returned |
| DependencyPlans.DependencyPlan.PlanComponent | dependency_plan.py:57-61 | the record built for component i belongs to that component, has no predecessors, has order 0 and carries its successor count |
| DependencyPlans.Elements | dependency_plan.py:57-59 | the list built from a set holds exactly the set's members, once each |
| DependencyPlans.ComponentRecord | dependency_plan.py:57-61 | for any listing of a component, the last node the worklist reads is in the component and has no predecessors, and it is the last key at distance 0 of its own distance map |
| DependencyPlans.PlanExtends | dependency_plan.py:62 | appending component i's record to a plan that covers components 0 to i-1 covers components 0 to i and leaves the earlier entries alone |
| WeakComponents.Closure | dependency_plan.py:55 | the least superset of the seed set within the nodes that no edge crosses |
| WeakComponents.ComponentsPartition | dependency_plan.py:55 | the components are non-empty, closed under edges in both directions, pairwise disjoint, and together hold every node; each is the weakly connected component of each of its members; part i holds the first node, in node order, that lies outside parts 0 to i-1 (networkx's order) |
| WeakComponents.WeaklyConnectedComponents | dependency_plan.py:55 | the components in networkx order, also counted by `get_tree_count` (dependency_plan.py:197). The function has no contract of its own: `WeakComponents.ComponentsPartition` states what it returns |
| WeakComponents.ReachesWithinClosed | dependency_plan.py:55 | a set that no edge crosses holds every node reachable from one of its members |
| WeakComponents.ComponentOfSpanning | dependency_plan.py:55 | suppose a set no edge crosses is listed so that each element after the first shares an edge, in either direction, with an earlier one. Then it is the component of its first element |
| WeakComponents.ComponentsNext | dependency_plan.py:55 | when every node before position k lies in the first i components and node k does not, component i exists and is the component of node k |
| WeakComponents.ComponentsEnd | dependency_plan.py:55 | once the first i components hold every node, there are exactly i components |
| WeakComponents.ComponentOfMember | dependency_plan.py:55 | every member of a component has that same component |
| WeakComponents.ComponentCount | dependency_plan.py:195-199 | there are no more components than nodes, and at least one when the graph has a node |
| DependencyPlans.DependencyPlan.GetTreeCount | dependency_plan.py:195-199 | the count is the number of weakly connected components, at most the number of nodes and at least 1 on a non-empty graph |
| DependencyPlans.DependencyPlan.GetNodeDependencies | dependency_plan.py:65-82 | on an acyclic graph the worklist loop terminates; it returns None for an empty start list, and otherwise the distance map of the last node the worklist reads, a node of the graph |
| DependencyPlans.DependencyPlan.AppendPredecessors | dependency_plan.py:79-81 | the list becomes the old list followed by each predecessor paired with the new depth, in order |
| DependencyPlans.WorklistStep | dependency_plan.py:75-81 | reading entry i and appending its predecessors is one step of `Process`, so what has been read so far stays a prefix of `Process` of the start list |
| DependencyPlans.WorklistShrinks | dependency_plan.py:75-81 | each read strictly lowers the remaining work, so the loop ends on an acyclic graph |
| Worklists.WorkStep | dependency_plan.py:75-81 | reading the head and appending its predecessors leaves exactly one entry less to read |
| Worklists.Process | dependency_plan.py:75-81 | the read order has exactly `Work` entries and begins with the start list |
| Worklists.ProcessLastIsRoot | dependency_plan.py:75-82 | the last entry read has no predecessors |
| Worklists.LastProcessed | dependency_plan.py:75-82 | the last node read is one of the entries read and has no predecessors |
| Worklists.ProcessStaysIn | dependency_plan.py:75-81 | a set that holds the start list and is closed under predecessors holds every entry read |
| Worklists.ProcessAppendsPredecessors | dependency_plan.py:79-81 | every entry past the start list is a predecessor of an entry read before it |
| ShortestPaths.ShortestPathLength | dependency_plan.py:76-77 | the map's first entry is the source at distance 0, every later distance is at least 1, and every key is a node |
| ShortestPaths.ShortestPathLengthKeysDistinct | dependency_plan.py:76-77 | no node appears twice among the keys |
| ShortestPaths.ShortestPathLengthSound | dependency_plan.py:76-77 | each entry's distance is the length of a walk from the source |
| ShortestPaths.ShortestPathLengthComplete | dependency_plan.py:76-77 | every node reached by a walk of length d is a key with distance at most d |
| ShortestPaths.ShortestPathLengthIsDistance | dependency_plan.py:76-77 | the map is the BFS distance map: sound and complete for walks from the source |
| DependencyPlans.DependencyPlan.CleanDependencies | dependency_plan.py:84-98 | the result is the record of the last key whose value is 0, with order 0 and its number of distinct successors, or None when no value is 0 |
| DependencyPlans.LastZero | dependency_plan.py:91-97 | a key found comes with the value 0 |
| DependencyPlans.LastZeroNone | dependency_plan.py:90-98 | no match (None) exactly when no value is 0 |
| DependencyPlans.LastZeroIsLast | dependency_plan.py:91-97 | when position k has value 0 and no later position does, the match is the key at k |
| DependencyPlans.LastZeroOfDistances | dependency_plan.py:76-97 | in a distance map, where the source is the only key at distance 0, the match is the source |
| DependencyPlans.DependencyPlan.GetSuccessors | dependency_plan.py:135-142 | v is in the result exactly when there is a direct edge node -> v |
| DependencyPlans.DependencyPlan.GetPredecessor | dependency_plan.py:144-151 | u is in the result exactly when there is a direct edge u -> node |
| DependencyPlans.DependencyPlan.ValidateSuccessors | dependency_plan.py:153-161 | true exactly when the successor is a direct successor, so a two-edge path does not count |
| DependencyPlans.DependencyPlan.ValidatePredecessor | dependency_plan.py:163-171 | true exactly when the predecessor is a direct predecessor |
| Digraphs.Targets | dependency_plan.py:141 | the successor list holds exactly the targets of the node's out-edges |
| Digraphs.Sources | dependency_plan.py:150 | the predecessor list holds exactly the sources of the node's in-edges |
| Digraphs.TargetsAppend | dependency_plan.py:141 | over an edge list split in two, the successors are those from the first part followed by those from the second |
| Digraphs.TargetsNone | dependency_plan.py:141 | a node that is no edge's source has no successors |
| Digraphs.TargetsDistinct | dependency_plan.py:141 | over an edge list without repeats, each successor appears once |
| Digraphs.SourcesDistinct | dependency_plan.py:150 | over an edge list without repeats, each predecessor appears once |
| DependencyPlans.DependencyPlan.GetSuccessorsOfSuccessors | dependency_plan.py:173-182 | w is in the result exactly when there is a successor s of node with w a successor of s |
| DependencyPlans.DependencyPlan.GetPredecessorsOfPredecessors | dependency_plan.py:184-193 | u is in the result exactly when there is a predecessor p of node with u a predecessor of p |
| DependencyPlans.DependencyPlan.FindRootNode | dependency_plan.py:201-206 | on an acyclic graph the recursion ends at a node with no predecessors from which the argument is reachable |
| DependencyPlans.DependencyPlan.FindLeafNode | dependency_plan.py:208-213 | on an acyclic graph the recursion ends at a node with no successors that is reachable from the argument |
| DependencyPlans.DependencyPlan.FindRootAndLeafAreFixed | dependency_plan.py:201-213 | applying either walk to its own result gives the same node back |
| DependencyPlans.DependencyPlan.GetDegree | dependency_plan.py:215-217 | one entry per node in node order; the degree is in-degree plus out-degree, which on the well-formed graph is the number of distinct predecessors plus distinct successors (0 for an isolate) |
| Digraphs.Digraph.DegreeIsInPlusOut | dependency_plan.py:216 | `degree(n)`, counted as edge ends at n, equals in-degree plus out-degree |
| Digraphs.Digraph.DegreeView | dependency_plan.py:216 | the view pairs each node, in node order, with its in-degree plus out-degree |
| DependencyPlans.DependencyPlan.GetInDegree | dependency_plan.py:219-221 | the in-degree is the number of distinct predecessors |
| DependencyPlans.DependencyPlan.GetOutDegree | dependency_plan.py:223-225 | the out-degree is the number of distinct successors |
| Digraphs.Digraph.SuccessorSetSize | dependency_plan.py:224 | on a well-formed graph the successor list has no repeats, and its set has out-degree members |
| Digraphs.Digraph.PredecessorSetSize | dependency_plan.py:220 | on a well-formed graph the predecessor list has no repeats, and its set has in-degree members |
| DependencyPlans.DependencyPlan.GetEdgesList | dependency_plan.py:227-228 | holds exactly the graph's edges; on the well-formed graph it lists each edge once, so its length is the number of edges |
| Digraphs.Digraph.OutEdges | dependency_plan.py:228 | the edges out of the given nodes are exactly the graph's edges whose source is among them |
| Digraphs.Digraph.EdgeViewIsEdges | dependency_plan.py:228 | the edge view lists every edge exactly once |
| DependencyPlans.DependencyPlan.GetNeighbors | dependency_plan.py:230-232 | holds exactly the direct successors, in the order their edges were inserted, without repeats, as many as the out-degree |
| Digraphs.TargetsInOrder | dependency_plan.py:232 | successors appear in the order their edges were inserted |
| DependencyPlans.SuccessorsFollowEdgeList | dependency_plan.py:230-232 | when the graph's edges are the first occurrences of an edge list (as `InitialGraphOrder` gives for a new plan), successors come in the order their edges first occur in that list |
| DependencyPlans.DependencyPlan.GetConnectedNodes | dependency_plan.py:234-240 | the first part holds exactly the successor set and the rest holds exactly the predecessor set; the length is the size of the two sets together, which on the well-formed graph is the out-degree plus the in-degree |
| Digraphs.DistinctSameMultiset | test_dependency_plan.py:232 | two lists without repeats that have the same members are permutations of each other, which is what comparing the sorted lists checks |
| ExamplePlan.ExampleIsInitial | test_dependency_plan.py:3-39 | the constructor on the test's edge list and node list builds the nodes 1, 5, 3, 2, 4, 6, 7, 9, 8, 10, 11 and the nine edges in their listed order; the graph is well formed |
| ExamplePlan.EdgesOnlyIsInitial | test_dependency_plan.py:240 | without a node list, the constructor builds the same nine edges over the edge endpoints only |
| ExamplePlan.ExampleAcyclic | test_dependency_plan.py:3-13 | the test graph has no cycle, so the plan and the root and leaf walks apply to it |
| ExamplePlan.ExampleComponents | test_dependency_plan.py:153-160 | the test graph's components are {1, 5, 3, 8, 10}, {2, 4, 6, 7, 9} and {11}, in that order |
| ExamplePlan.SuccessorsOfReport1 | test_dependency_plan.py:245-252 | Report 1's successor list is [5, 3] |
| ExamplePlan.TwoHopsFromReport1 | test_dependency_plan.py:131-139 | the nodes two edges after Report 1 are exactly {8} |
| ExamplePlan.TwoHopsIntoReport3 | test_dependency_plan.py:142-150 | the nodes two edges before Report 3 are exactly {5} |
| ExamplePlan.RootAboveReport10 | test_dependency_plan.py:163-170 | the only node with no predecessors from which Report 10 is reachable is Report 1 |
| ExamplePlan.LeafBelowReport4 | test_dependency_plan.py:173-180 | the only node with no successors reachable from Report 4 is Report 9 |
| ExamplePlan.ExampleDegreeList | test_dependency_plan.py:183-202 | any list that pairs each node, in node order, with its in-degree plus out-degree is the expected degree table |
| ExamplePlan.ExampleDegreeView | test_dependency_plan.py:183-202 | the degree view of the test graph is the expected degree table |
| ExamplePlan.InDegreeOfReport3 | test_dependency_plan.py:205-212 | Report 3 has in-degree 2 |
| ExamplePlan.OutDegreeOfReport8 | test_dependency_plan.py:215-222 | Report 8 has out-degree 2 |
| ExamplePlan.ExamplePlanRecords | test_dependency_plan.py:42-66 | every plan covering the three components in order is [(Report 1, order 0, child 2), (Report 2, order 0, child 1), (Report 11, order 0, child 0)]. The root choice is forced, because each component has exactly one node without predecessors |
| ExamplePlan.ConnectedOfReport8 | test_dependency_plan.py:255-262 | a three-element list whose first two elements are the set {10, 3} and whose last is 5 is a permutation of 5, 3, 10 |
| ExampleTests.TestDependencyPlan | test_dependency_plan.py:42-66 | the plan of a new object over the test lists is the expected three records |
| ExampleTests.TestGetSuccessor | test_dependency_plan.py:69-77 | `get_successors(Report 1)` is {5, 3} |
| ExampleTests.TestGetPredecessors | test_dependency_plan.py:80-88 | `get_predecessor(Report 3)` is {1, 8} |
| ExampleTests.TestValidateSuccessor | test_dependency_plan.py:91-98 | Report 5 is validated as a successor of Report 1 |
| ExampleTests.TestInvalidSuccessor | test_dependency_plan.py:101-108 | Report 8, two edges away, is not validated as a successor of Report 1 |
| ExampleTests.TestValidatePredecessors | test_dependency_plan.py:111-118 | Report 1 is validated as a predecessor of Report 3 |
| ExampleTests.TestInvalidPredecessor | test_dependency_plan.py:121-128 | Report 12, which is not a node, is not validated as a predecessor of Report 8 |
| ExampleTests.TestGetSuccessorsOfSuccessor | test_dependency_plan.py:131-139 | the successors of Report 1's successors are {8} |
| ExampleTests.TestGetPredecessorsOfPredecessor | test_dependency_plan.py:142-150 | the predecessors of Report 3's predecessors are {5} |
| ExampleTests.TestGetTreeCount | test_dependency_plan.py:153-160 | the tree count is 3 |
| ExampleTests.TestFindRootNode | test_dependency_plan.py:163-170 | the root found from Report 10 is Report 1 |
| ExampleTests.TestFindLeafNode | test_dependency_plan.py:173-180 | the leaf found from Report 4 is Report 9 |
| ExampleTests.TestGetDegree | test_dependency_plan.py:183-202 | the degree list is the expected table, each node in node order with its degree |
| ExampleTests.TestGetInDegree | test_dependency_plan.py:205-212 | `get_in_degree(Report 3)` is 2 |
| ExampleTests.TestGetOutDegree | test_dependency_plan.py:215-222 | `get_out_degree(Report 8)` is 2 |
| ExampleTests.TestGetEdgeList | test_dependency_plan.py:225-232 | the edge list is a permutation of the nine test edges |
| ExampleTests.TestGraphWithoutNodeList | test_dependency_plan.py:235-242 | without a node list, the edge list is still a permutation of the nine test edges |
| ExampleTests.TestGetNeighbours | test_dependency_plan.py:245-252 | `get_neighbors(Report 1)` is [5, 3], in that order |
| ExampleTests.TestGetConnectedNodes | test_dependency_plan.py:255-262 | `get_connected_nodes(Report 8)` is a permutation of 5, 3, 10 |

## Left out

- `draw_dependency` (dependency_plan.py:100-133): matplotlib drawing, with no result. It is left out.
- The commented-out demonstration block at the end of dependency_plan.py is not live code.
- networkx internals: node and edge attribute dictionaries, and the `DegreeView`/`EdgeView` objects. The views are modelled as the sequences they iterate, and edges as pairs where the tests pass 2-element lists.
- Missing nodes: networkx raises an error when `successors`, `predecessors`, `neighbors` or `shortest_path_length` is given a node that is not in the graph. The model makes membership a precondition instead:
  - for `GetSuccessors`, `GetPredecessor`, the two-hop queries, `GetNeighbors`, `GetConnectedNodes`, `FindRootNode` and `FindLeafNode`;
  - for `GetNodeDependencies`, on every start node;
  - for `CleanDependencies`, only on the keys at distance 0.
- DependencyPlans.DependencyPlan.GetInDegree and GetOutDegree require the node to be present. For an absent label, networkx's `in_degree(node)` and `out_degree(node)` return a degree view over whichever of the label's items are nodes, typically empty, instead of a number. That view-valued result is not modelled.
- Cyclic graphs: on a cycle, `find_root_node`, `find_leaf_node` and the `get_node_dependencies` worklist do not terminate. Acyclicity is a precondition of those operations and of `GetDependencyPlanOrderZero`.
- Python set iteration order is left open (`Elements` picks an arbitrary order). This covers turning a component into `start_nodes` and the two loops of `get_connected_nodes`. Hash order is not modelled.
- The `tree` counter in `get_dependency_plan_order_zero` and the depths stored in the worklist are kept, but nothing reads them, as in the source.
- The test graph's labels "Report 1" to "Report 12" are modelled as the integers 1 to 12, and the tests' 2-element lists as pairs. Comparing sorted lists (`get_edges_list`, `get_connected_nodes`) is stated as equality of multisets. `dict(degrees) == expected_degree` is stated as equality with the list of (node, degree) pairs in node order, which implies it.
- DependencyPlans.DependencyPlan.FindRootNode: states that the result is a root from which the argument is reachable, not that the walk goes through first predecessors.
- DependencyPlans.DependencyPlan.FindLeafNode: states that the result is a leaf reachable from the argument, not that the walk goes through first successors.
- DependencyPlans.DependencyPlan.GetDependencyPlanOrderZero: the source returns the list object `self.dependency_plan` itself (dependency_plan.py:63), so a later call also extends the list an earlier caller holds. The model returns the sequence's value at the time of the call, so that aliasing is not captured.
- DependencyPlans.DependencyPlan.GetDependencyPlanOrderZero: states that each record names some node of its component with no predecessors. It does not say which one, because that depends on the set iteration order of the component.
- DependencyPlans.DependencyPlan.GetConnectedNodes: the two parts are described as sets, since their order is set iteration order.
- DependencyPlans.DependencyPlan.GetDegree, GetInDegree, GetOutDegree, GetEdgesList and GetNeighbors: the counts by distinct neighbours and the edges without repeats are stated under `Valid()`. `Valid()` holds after construction, and no method breaks it.
