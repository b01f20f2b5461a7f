/**
 * The repository's tests, one method each: the object is built as the test
 * builds it, the queried operation is called, and the method's contract is
 * the test's assertion.
 */
module ExampleTests {

  import opened Wrappers
  import opened Digraphs
  import opened WeakComponents
  import opened DependencyPlans
  import opened ExamplePlan

  /** `DependencyPlan(EDGE_LIST, NODE_LIST)`, with the example graph in it. */
  method NewExamplePlan() returns (ddObj: DependencyPlan<int>)
    ensures fresh(ddObj) && ddObj.graph == Example && ddObj.dependencyPlan == []
  {
    ddObj := new DependencyPlan(ReportEdges, Some(ReportNodes));
    ExampleIsInitial();
  }

  /** `DependencyPlan(EDGE_LIST)`: the graph has the same edges, in the same order. */
  method NewEdgesOnlyPlan() returns (ddObj: DependencyPlan<int>)
    ensures fresh(ddObj) && ddObj.Valid() && ddObj.graph.edges == ReportEdges
  {
    ddObj := new DependencyPlan(ReportEdges, None);
    EdgesOnlyIsInitial();
  }

  // What the set-valued queries return, for any plan object whose graph has
  // the given edges at n (the object is left abstract, so that nothing is
  // evaluated on the literal graph).

  lemma SuccessorsAre(p: DependencyPlan<int>, n: int, S: set<int>)
    requires n in p.graph.nodes
    requires forall v :: (n, v) in p.graph.edges <==> v in S
    ensures p.GetSuccessors(n) == S
  {
    var r := p.GetSuccessors(n);
    forall v
      ensures v in r <==> v in S
    {
      assert v in r <==> p.graph.HasSuccessor(n, v);
    }
  }

  lemma PredecessorsAre(p: DependencyPlan<int>, n: int, S: set<int>)
    requires n in p.graph.nodes
    requires forall u :: (u, n) in p.graph.edges <==> u in S
    ensures p.GetPredecessor(n) == S
  {
    var r := p.GetPredecessor(n);
    forall u
      ensures u in r <==> u in S
    {
      assert u in r <==> p.graph.HasPredecessor(n, u);
    }
  }

  /** test_dependency_plan: one record per tree, in tree order. */
  method TestDependencyPlan() returns (plan: seq<Option<PlanRecord<int>>>)
    ensures plan == ReportPlan
  {
    var ddObj := NewExamplePlan();
    ExampleValid();
    ExampleAcyclic();
    plan := ddObj.GetDependencyPlanOrderZero();
    assert plan[0..] == plan;
    ExampleComponents();
    ExamplePlanRecords(plan);
  }

  /** test_get_successor */
  method TestGetSuccessor() returns (nodes: set<int>)
    ensures nodes == {5, 3}
  {
    var ddObj := NewExamplePlan();
    QueriedReports(ddObj.graph);
    SuccessorSetOfReport1(ddObj.graph);
    SuccessorsAre(ddObj, 1, {5, 3});
    nodes := ddObj.GetSuccessors(1);
  }

  /** test_get_predecessors */
  method TestGetPredecessors() returns (nodes: set<int>)
    ensures nodes == {1, 8}
  {
    var ddObj := NewExamplePlan();
    QueriedReports(ddObj.graph);
    PredecessorsOfReport3(ddObj.graph);
    PredecessorsAre(ddObj, 3, {1, 8});
    nodes := ddObj.GetPredecessor(3);
  }

  /** test_validate_successor */
  method TestValidateSuccessor() returns (result: bool)
    ensures result
  {
    var ddObj := NewExamplePlan();
    result := ddObj.ValidateSuccessors(1, 5);
    SuccessorsOfReport1();
  }

  /** test_invalid_successor */
  method TestInvalidSuccessor() returns (result: bool)
    ensures !result
  {
    var ddObj := NewExamplePlan();
    result := ddObj.ValidateSuccessors(1, 8);
    SuccessorsOfReport1();
  }

  /** test_validate_predecessors */
  method TestValidatePredecessors() returns (result: bool)
    ensures result
  {
    var ddObj := NewExamplePlan();
    result := ddObj.ValidatePredecessor(3, 1);
    PredecessorsOfReport3(ddObj.graph);
  }

  /** test_invalid_predecessor: Report 12 is not in the graph at all. */
  method TestInvalidPredecessor() returns (result: bool)
    ensures !result
  {
    var ddObj := NewExamplePlan();
    result := ddObj.ValidatePredecessor(8, 12);
    PredecessorsOfReport8(ddObj.graph);
  }

  /** test_get_successors_of_successor */
  method TestGetSuccessorsOfSuccessor() returns (nodes: set<int>)
    ensures nodes == {8}
  {
    var ddObj := NewExamplePlan();
    QueriedReports(ddObj.graph);
    nodes := ddObj.GetSuccessorsOfSuccessors(1);
    TwoHopsFromReport1(ddObj.graph, nodes);
  }

  /** test_get_predecessors_of_predecessor */
  method TestGetPredecessorsOfPredecessor() returns (nodes: set<int>)
    ensures nodes == {5}
  {
    var ddObj := NewExamplePlan();
    QueriedReports(ddObj.graph);
    nodes := ddObj.GetPredecessorsOfPredecessors(3);
    TwoHopsIntoReport3(ddObj.graph, nodes);
  }

  /** test_get_tree_count */
  method TestGetTreeCount() returns (count: nat)
    ensures count == 3
  {
    var ddObj := NewExamplePlan();
    ExampleValid();
    count := ddObj.GetTreeCount();
    ExampleComponents();
  }

  /** test_find_root_node */
  method TestFindRootNode() returns (node: int)
    ensures node == 1
  {
    var ddObj := NewExamplePlan();
    ExampleValid();
    ExampleAcyclic();
    SpanningEdges();
    node := ddObj.FindRootNode(10);
    RootAboveReport10(node);
  }

  /** test_find_leaf_node */
  method TestFindLeafNode() returns (node: int)
    ensures node == 9
  {
    var ddObj := NewExamplePlan();
    ExampleValid();
    ExampleAcyclic();
    SpanningEdges();
    node := ddObj.FindLeafNode(4);
    LeafBelowReport4(node);
  }

  /** test_get_degree */
  method TestGetDegree() returns (degrees: seq<(int, nat)>)
    ensures degrees == ReportDegrees
  {
    var ddObj := NewExamplePlan();
    degrees := ddObj.GetDegree();
    ExampleDegreeList(degrees);
  }

  /** test_get_in_degree */
  method TestGetInDegree() returns (degree: nat)
    ensures degree == 2
  {
    var ddObj := NewExamplePlan();
    QueriedReports(ddObj.graph);
    degree := ddObj.GetInDegree(3);
    InDegreeOfReport3();
  }

  /** test_get_out_degree */
  method TestGetOutDegree() returns (degree: nat)
    ensures degree == 2
  {
    var ddObj := NewExamplePlan();
    QueriedReports(ddObj.graph);
    degree := ddObj.GetOutDegree(8);
    OutDegreeOfReport8();
  }

  /** The edge list of a valid graph over the example's edges is a permutation of them. */
  lemma EdgeListIsPermutation(g: Digraph<int>, result: seq<(int, int)>)
    requires g.Valid() && g.edges == ReportEdges
    requires forall e :: e in result <==> e.0 in g.nodes && e in g.edges
    requires Distinct(result)
    ensures multiset(result) == multiset(ReportEdges)
  {
    DistinctSameMultiset(result, ReportEdges);
  }

  /** test_get_edge_list: sorting both sides compares them as multisets. */
  method TestGetEdgeList() returns (result: seq<(int, int)>)
    ensures multiset(result) == multiset(ReportEdges)
  {
    var ddObj := NewExamplePlan();
    ExampleValid();
    result := ddObj.GetEdgesList();
    EdgeListIsPermutation(ddObj.graph, result);
  }

  /** test_graph_without_node_list */
  method TestGraphWithoutNodeList() returns (result: seq<(int, int)>)
    ensures multiset(result) == multiset(ReportEdges)
  {
    var ddObj := NewEdgesOnlyPlan();
    result := ddObj.GetEdgesList();
    EdgeListIsPermutation(ddObj.graph, result);
  }

  /** test_get_neighbours: successors in the order their edges were listed. */
  method TestGetNeighbours() returns (nodes: seq<int>)
    ensures nodes == [5, 3]
  {
    var ddObj := NewExamplePlan();
    QueriedReports(ddObj.graph);
    nodes := ddObj.GetNeighbors(1);
    SuccessorsOfReport1();
  }

  /**
   * `get_connected_nodes(n)` on a plan object whose graph has successor set S
   * and predecessor set P at n: S's members come first, then P's.
   */
  method ConnectedNodesAre(ddObj: DependencyPlan<int>, n: int, S: set<int>, P: set<int>) returns (nodes: seq<int>)
    requires n in ddObj.graph.nodes
    requires forall v :: (n, v) in ddObj.graph.edges <==> v in S
    requires forall u :: (u, n) in ddObj.graph.edges <==> u in P
    ensures |nodes| == |S| + |P|
    ensures (set v | v in nodes[..|S|]) == S && (set u | u in nodes[|S|..]) == P
  {
    SuccessorsAre(ddObj, n, S);
    PredecessorsAre(ddObj, n, P);
    nodes := ddObj.GetConnectedNodes(n);
  }

  /** test_get_connected_nodes: sorting both sides compares them as multisets. */
  method TestGetConnectedNodes() returns (nodes: seq<int>)
    ensures multiset(nodes) == multiset{5, 3, 10}
  {
    var ddObj := NewExamplePlan();
    QueriedReports(ddObj.graph);
    SuccessorsOfReport8(ddObj.graph);
    PredecessorsOfReport8(ddObj.graph);
    nodes := ConnectedNodesAre(ddObj, 8, {10, 3}, {5});
    ConnectedOfReport8(nodes);
  }
}
