/**
 * The graph of the repository's tests, "Report k" written as k: nine edges
 * and the node list Report 1 to Report 11, of which Report 11 has no edges.
 * The values the tests expect are proved about the graph the constructor
 * builds from those two lists.
 */
module ExamplePlan {

  import opened Wrappers
  import opened Digraphs
  import opened WeakComponents
  import opened DependencyPlans

  /** The test edge list, in order. */
  const ReportEdges: seq<(int, int)> := [(1, 5), (1, 3), (2, 4), (4, 6), (6, 7), (7, 9), (8, 10), (5, 8), (8, 3)]

  /** The test node list. */
  const ReportNodes: seq<int> := [1, 2, 3, 4, 5, 6, 7, 8, 9, 10, 11]

  /** The edge endpoints, each at its first occurrence. */
  const EndpointNodes: seq<int> := [1, 5, 3, 2, 4, 6, 7, 9, 8, 10]

  /** The graph built from both lists. */
  const Example: Digraph<int> := Digraph(EndpointNodes + [11], ReportEdges)

  /** The three weakly connected components. */
  const ReportsFrom1: set<int> := {1, 5, 3, 8, 10}
  const ReportsFrom2: set<int> := {2, 4, 6, 7, 9}

  lemma EndpointsInOrder()
    ensures EndpointList(ReportEdges) == [1, 5, 1, 3] + [2, 4, 4, 6] + [6, 7, 7, 9] + [8, 10, 5, 8] + [8, 3]
  {
  }

  lemma NodeOrderPart1() ensures DedupInto([], [1, 5, 1, 3]) == [1, 5, 3] {}
  lemma NodeOrderPart2() ensures DedupInto([1, 5, 3], [2, 4, 4, 6]) == [1, 5, 3, 2, 4, 6] {}
  lemma NodeOrderPart3() ensures DedupInto([1, 5, 3, 2, 4, 6], [6, 7, 7, 9]) == [1, 5, 3, 2, 4, 6, 7, 9] {}
  lemma NodeOrderPart4() ensures DedupInto([1, 5, 3, 2, 4, 6, 7, 9], [8, 10, 5, 8]) == EndpointNodes {}
  lemma NodeOrderPart5() ensures DedupInto(EndpointNodes, [8, 3]) == EndpointNodes {}

  /** The endpoints in first-occurrence order. */
  lemma EndpointsDedup()
    ensures DedupInto([], EndpointList(ReportEdges)) == EndpointNodes
  {
    EndpointsInOrder();
    NodeOrderPart1();
    NodeOrderPart2();
    NodeOrderPart3();
    NodeOrderPart4();
    NodeOrderPart5();
    var c1, c2, c3, c4, c5 := [1, 5, 1, 3], [2, 4, 4, 6], [6, 7, 7, 9], [8, 10, 5, 8], [8, 3];
    DedupIntoAppend([], c1 + c2 + c3 + c4, c5);
    DedupIntoAppend([], c1 + c2 + c3, c4);
    DedupIntoAppend([], c1 + c2, c3);
    DedupIntoAppend([], c1, c2);
  }

  lemma ListedNodesPart1() ensures DedupInto(EndpointNodes, [1, 2, 3, 4]) == EndpointNodes {}
  lemma ListedNodesPart2() ensures DedupInto(EndpointNodes, [5, 6, 7, 8]) == EndpointNodes {}
  lemma ListedNodesPart3() ensures DedupInto(EndpointNodes, [9, 10, 11]) == EndpointNodes + [11] {}

  /** Of the listed nodes only Report 11 is new. */
  lemma ListedNodesDedup()
    ensures DedupInto(EndpointNodes, ReportNodes) == Example.nodes
  {
    ListedNodesPart1();
    ListedNodesPart2();
    ListedNodesPart3();
    assert ReportNodes == [1, 2, 3, 4] + [5, 6, 7, 8] + [9, 10, 11];
    DedupIntoAppend(EndpointNodes, [1, 2, 3, 4] + [5, 6, 7, 8], [9, 10, 11]);
    DedupIntoAppend(EndpointNodes, [1, 2, 3, 4], [5, 6, 7, 8]);
  }

  /** No edge is listed twice. */
  lemma EdgesDedup()
    ensures DedupInto([], ReportEdges) == ReportEdges
  {
    assert Distinct([] + ReportEdges);
    DedupIntoFresh([], ReportEdges);
  }

  /** `DependencyPlan(EDGE_LIST, NODE_LIST)` holds the example graph. */
  lemma ExampleIsInitial()
    ensures InitialGraph(ReportEdges, Some(ReportNodes)) == Example
    ensures Example.Valid()
  {
    InitialGraphDedup(ReportEdges, Some(ReportNodes));
    EndpointsDedup();
    ListedNodesDedup();
    EdgesDedup();
    DedupIntoAppend([], EndpointList(ReportEdges), ReportNodes);
  }

  /** The example graph is a well-formed DiGraph. */
  lemma ExampleValid()
    ensures Example.Valid()
  {
    ExampleIsInitial();
  }

  lemma EndpointsOnlyDedup()
    ensures DedupInto([], EndpointList(ReportEdges) + NodeList(None)) == EndpointNodes
  {
    EndpointsDedup();
    assert EndpointList(ReportEdges) + NodeList(None) == EndpointList(ReportEdges);
  }

  /** `DependencyPlan(EDGE_LIST)` holds the endpoints only, so no Report 11. */
  lemma EdgesOnlyIsInitial()
    ensures InitialGraph(ReportEdges, None) == Digraph(EndpointNodes, ReportEdges)
  {
    InitialGraphDedup(ReportEdges, None);
    EndpointsOnlyDedup();
    EdgesDedup();
  }

  /** The nine edges, one by one. */
  lemma EdgeCases(e: (int, int))
    requires e in ReportEdges
    ensures e == (1, 5) || e == (1, 3) || e == (2, 4) || e == (4, 6) || e == (6, 7)
         || e == (7, 9) || e == (8, 10) || e == (5, 8) || e == (8, 3)
  {
  }

  /** A topological numbering of the reports. */
  const Ranks: map<int, nat> := map[1 := 0, 2 := 1, 4 := 2, 5 := 3, 6 := 4, 8 := 5, 3 := 6, 7 := 7, 9 := 8, 10 := 9, 11 := 10]

  lemma RanksCoverNodes()
    ensures forall n :: n in Example.nodes ==> n in Ranks && Ranks[n] < |Example.nodes|
  {
  }

  lemma RanksClimbEdges()
    ensures forall i :: 0 <= i < |ReportEdges| ==>
              ReportEdges[i].0 in Ranks && ReportEdges[i].1 in Ranks && Ranks[ReportEdges[i].0] < Ranks[ReportEdges[i].1]
  {
  }

  /** The example graph has no cycle. */
  lemma ExampleAcyclic()
    ensures Example.Acyclic()
  {
    RanksCoverNodes();
    RanksClimbEdges();
    assert Example.IsTopologicalRank(Ranks);
  }

  lemma TargetsOfReport1(es: seq<(int, int)>, rest: seq<(int, int)>)
    requires es == [(1, 5), (1, 3)] + rest
    requires forall i :: 0 <= i < |rest| ==> rest[i].0 != 1
    ensures Targets(es, 1) == [5, 3]
  {
    TargetsAppend([(1, 5), (1, 3)], rest, 1);
    TargetsNone(rest, 1);
  }

  /** `get_neighbors(Report 1)`: Report 5, then Report 3, as the edges were listed. */
  lemma SuccessorsOfReport1()
    ensures Example.Successors(1) == [5, 3]
  {
    TargetsOfReport1(ReportEdges, ReportEdges[2..]);
  }

  /** Report 1's component is closed: no edge leaves it. */
  lemma ReportsFrom1Closed()
    ensures Closed(Example, ReportsFrom1)
  {
    forall e | e in Example.edges
      ensures e.0 in ReportsFrom1 <==> e.1 in ReportsFrom1
    {
      EdgeCases(e);
    }
  }

  lemma ReportsFrom2Closed()
    ensures Closed(Example, ReportsFrom2)
  {
    forall e | e in Example.edges
      ensures e.0 in ReportsFrom2 <==> e.1 in ReportsFrom2
    {
      EdgeCases(e);
    }
  }

  lemma Report11Closed()
    ensures Closed(Example, {11})
  {
    forall e | e in Example.edges
      ensures e.0 in {11} <==> e.1 in {11}
    {
      EdgeCases(e);
    }
  }

  /**
   * The component of `order[0]` in any valid graph with the edges that join
   * `order` (checked one by one, over a graph left abstract so that nothing
   * is evaluated on the literal).
   */
  lemma SpanningComponent(g: Digraph<int>, order: seq<int>, parent: seq<nat>, S: set<int>)
    requires g.Valid() && order != [] && order[0] in g.nodes && S == set x | x in order && Closed(g, S)
    requires |parent| == |order|
    requires forall i :: 0 < i < |order| ==>
               parent[i] < i && (order[parent[i]], order[i]) in g.edges
    ensures Component(g, order[0]) == S
  {
    ComponentOfSpanning(g, order, parent);
  }

  lemma ReportsFrom1Spanned(g: Digraph<int>)
    requires g.Valid() && 1 in g.nodes && Closed(g, ReportsFrom1)
    requires (1, 5) in g.edges && (1, 3) in g.edges && (5, 8) in g.edges && (8, 10) in g.edges
    ensures Component(g, 1) == ReportsFrom1
  {
    SpanningComponent(g, [1, 5, 3, 8, 10], [0, 0, 0, 1, 3], ReportsFrom1);
  }

  lemma ReportsFrom2Spanned(g: Digraph<int>)
    requires g.Valid() && 2 in g.nodes && Closed(g, ReportsFrom2)
    requires (2, 4) in g.edges && (4, 6) in g.edges && (6, 7) in g.edges && (7, 9) in g.edges
    ensures Component(g, 2) == ReportsFrom2
  {
    SpanningComponent(g, [2, 4, 6, 7, 9], [0, 0, 1, 2, 3], ReportsFrom2);
  }

  lemma Report11Spanned(g: Digraph<int>)
    requires g.Valid() && 11 in g.nodes && Closed(g, {11})
    ensures Component(g, 11) == {11}
  {
    SpanningComponent(g, [11], [0], {11});
  }

  lemma ComponentOfReport1()
    ensures Example.Valid() && 1 in Example.nodes
    ensures Component(Example, 1) == ReportsFrom1
  {
    ExampleValid();
    ReportsFrom1Closed();
    ReportsFrom1Spanned(Example);
  }

  lemma ComponentOfReport2()
    ensures Example.Valid() && 2 in Example.nodes
    ensures Component(Example, 2) == ReportsFrom2
  {
    ExampleValid();
    ReportsFrom2Closed();
    ReportsFrom2Spanned(Example);
  }

  lemma ComponentOfReport11()
    ensures Example.Valid() && 11 in Example.nodes
    ensures Component(Example, 11) == {11}
  {
    ExampleValid();
    Report11Closed();
    Report11Spanned(Example);
  }

  /**
   * Three components listed in seed order, for a graph left abstract: the
   * first three nodes lie in c1 and the fourth does not, the first ten in
   * c1 or c2 and the eleventh in neither.
   */
  lemma ThreeComponents(g: Digraph<int>, c1: set<int>, c2: set<int>, c3: set<int>)
    requires g.Valid() && |g.nodes| == 11
    requires g.nodes[0] == 1 && g.nodes[3] == 2 && g.nodes[10] == 11
    requires Component(g, 1) == c1 && Component(g, 2) == c2 && Component(g, 11) == c3
    requires (forall j :: 0 <= j < 3 ==> g.nodes[j] in c1) && g.nodes[3] !in c1
    requires (forall j :: 0 <= j < 10 ==> g.nodes[j] in c1 + c2) && g.nodes[10] !in c1 + c2
    requires forall j :: 0 <= j < 11 ==> g.nodes[j] in c1 + c2 + c3
    ensures WeaklyConnectedComponents(g) == [c1, c2, c3]
  {
    var cs := WeaklyConnectedComponents(g);
    assert cs[..0] == [];
    ComponentsNext(g, 0, 0);
    UnionPrefix(cs, 0);
    ComponentsNext(g, 1, 3);
    UnionPrefix(cs, 1);
    ComponentsNext(g, 2, 10);
    UnionPrefix(cs, 2);
    ComponentsEnd(g, 3);
  }

  /** Where the seeds sit in the node order, and which part each node falls in. */
  lemma SeedPositions()
    ensures |Example.nodes| == 11 && Example.nodes[0] == 1 && Example.nodes[3] == 2 && Example.nodes[10] == 11
    ensures (forall j :: 0 <= j < 3 ==> Example.nodes[j] in ReportsFrom1) && Example.nodes[3] !in ReportsFrom1
    ensures (forall j :: 0 <= j < 10 ==> Example.nodes[j] in ReportsFrom1 + ReportsFrom2)
    ensures Example.nodes[10] !in ReportsFrom1 + ReportsFrom2
    ensures forall j :: 0 <= j < 11 ==> Example.nodes[j] in ReportsFrom1 + ReportsFrom2 + {11}
  {
  }

  /** `get_tree_count` splits the reports into these three trees, Report 1's first. */
  lemma ExampleComponents()
    ensures Example.Valid()
    ensures WeaklyConnectedComponents(Example) == [ReportsFrom1, ReportsFrom2, {11}]
  {
    ComponentOfReport1();
    ComponentOfReport2();
    ComponentOfReport11();
    SeedPositions();
    ThreeComponents(Example, ReportsFrom1, ReportsFrom2, {11});
  }

  /** The reports outside Report 1's component form a closed set too. */
  const OutsideReportsFrom1: set<int> := {2, 4, 6, 7, 9, 11}

  lemma OutsideReportsFrom1Closed()
    ensures Closed(Example, OutsideReportsFrom1)
  {
    forall e | e in Example.edges
      ensures e.0 in OutsideReportsFrom1 <==> e.1 in OutsideReportsFrom1
    {
      EdgeCases(e);
    }
  }

  // The direct neighbours of the reports the tests ask about, as sets. Each
  // is stated for a graph equal to the example, so that a caller holding the
  // graph under another name (an object's field) can use it unchanged.

  lemma SuccessorSetOfReport1(g: Digraph<int>)
    requires g == Example
    ensures forall v :: (1, v) in g.edges <==> v in {5, 3}
  {
  }

  lemma SuccessorsOfReport2(g: Digraph<int>)
    requires g == Example
    ensures forall v :: (2, v) in g.edges <==> v in {4}
  {
  }

  lemma SuccessorsOfReport8(g: Digraph<int>)
    requires g == Example
    ensures forall v :: (8, v) in g.edges <==> v in {10, 3}
  {
  }

  lemma PredecessorsOfReport3(g: Digraph<int>)
    requires g == Example
    ensures forall u :: (u, 3) in g.edges <==> u in {1, 8}
  {
  }

  lemma PredecessorsOfReport8(g: Digraph<int>)
    requires g == Example
    ensures forall u :: (u, 8) in g.edges <==> u in {5}
  {
  }

  lemma SuccessorsOfReport11(g: Digraph<int>)
    requires g == Example
    ensures forall v :: (11, v) in g.edges <==> v in {}
  {
  }

  /** The reports the tests query are nodes of the example. */
  lemma QueriedReports(g: Digraph<int>)
    requires g == Example
    ensures 1 in g.nodes && 3 in g.nodes && 4 in g.nodes && 8 in g.nodes && 10 in g.nodes
  {
  }

  /** Over a valid graph, the set of targets of n gives its out-degree. */
  lemma OutDegreeFromSet(g: Digraph<int>, n: int, out: set<int>)
    requires g.Valid()
    requires forall v :: (n, v) in g.edges <==> v in out
    ensures (set v | v in g.Successors(n)) == out && g.OutDegree(n) == |out|
  {
    var targets := set v | v in g.Successors(n);
    forall v
      ensures v in targets <==> v in out
    {
      assert v in g.Successors(n) <==> (n, v) in g.edges;
    }
    assert targets == out;
    g.SuccessorSetSize(n);
  }

  /** Two edges after Report 1 there is only Report 8 (through Report 5). */
  lemma TwoHopsFromReport1(g: Digraph<int>, results: set<int>)
    requires g == Example
    requires forall w :: w in results <==> exists s :: g.HasSuccessor(1, s) && g.HasSuccessor(s, w)
    ensures results == {8}
  {
    forall w | w in results
      ensures w == 8
    {
      var s :| g.HasSuccessor(1, s) && g.HasSuccessor(s, w);
      EdgeCases((1, s));
      EdgeCases((s, w));
    }
    assert g.HasSuccessor(1, 5) && g.HasSuccessor(5, 8);
  }

  /** Two edges before Report 3 there is only Report 5 (through Report 8). */
  lemma TwoHopsIntoReport3(g: Digraph<int>, results: set<int>)
    requires g == Example
    requires forall u :: u in results <==> exists p :: g.HasPredecessor(3, p) && g.HasPredecessor(p, u)
    ensures results == {5}
  {
    forall u | u in results
      ensures u == 5
    {
      var p :| g.HasPredecessor(3, p) && g.HasPredecessor(p, u);
      EdgeCases((p, 3));
      EdgeCases((u, p));
    }
    assert g.HasPredecessor(3, 8) && g.HasPredecessor(8, 5);
  }

  /** A node with no predecessors has no edge into it. */
  lemma NoSources<N(!new)>(g: Digraph<N>, r: N)
    requires g.Predecessors(r) == []
    ensures forall u :: (u, r) !in g.edges
  {
  }

  lemma NoTargets<N(!new)>(g: Digraph<N>, r: N)
    requires g.Successors(r) == []
    ensures forall v :: (r, v) !in g.edges
  {
  }

  /** The edges that join each of the two larger components. */
  lemma SpanningEdges()
    ensures (1, 5) in Example.edges && (1, 3) in Example.edges && (5, 8) in Example.edges && (8, 10) in Example.edges
    ensures (2, 4) in Example.edges && (4, 6) in Example.edges && (6, 7) in Example.edges && (7, 9) in Example.edges
  {
  }

  /** In a graph with Report 1's edges, Report 1 is the only node of that component with no predecessor. */
  lemma RootAmong1(g: Digraph<int>, r: int)
    requires (1, 5) in g.edges && (1, 3) in g.edges && (5, 8) in g.edges && (8, 10) in g.edges
    requires r in ReportsFrom1 && g.Predecessors(r) == []
    ensures r == 1
  {
    NoSources(g, r);
  }

  lemma RootAmong2(g: Digraph<int>, r: int)
    requires (2, 4) in g.edges && (4, 6) in g.edges && (6, 7) in g.edges && (7, 9) in g.edges
    requires r in ReportsFrom2 && g.Predecessors(r) == []
    ensures r == 2
  {
    NoSources(g, r);
  }

  lemma LeafAmong2(g: Digraph<int>, r: int)
    requires (2, 4) in g.edges && (4, 6) in g.edges && (6, 7) in g.edges && (7, 9) in g.edges
    requires r in ReportsFrom2 && g.Successors(r) == []
    ensures r == 9
  {
    NoTargets(g, r);
  }

  lemma RootOfReportsFrom1(r: int)
    requires r in ReportsFrom1 && Example.Predecessors(r) == []
    ensures r == 1
  {
    SpanningEdges();
    RootAmong1(Example, r);
  }

  lemma LeafOfReportsFrom2(r: int)
    requires r in ReportsFrom2 && Example.Successors(r) == []
    ensures r == 9
  {
    SpanningEdges();
    LeafAmong2(Example, r);
  }

  /** In a graph whose nodes all lie in the three components, a node that reaches Report 10 is in Report 1's. */
  lemma ReachingReport10(g: Digraph<int>, r: int)
    requires Closed(g, OutsideReportsFrom1) && |g.nodes| == 11
    requires forall j :: 0 <= j < 11 ==> g.nodes[j] in ReportsFrom1 + ReportsFrom2 + {11}
    requires r in g.nodes && g.Reaches(r, 10)
    ensures r in ReportsFrom1
  {
    if r !in ReportsFrom1 {
      var j :| 0 <= j < 11 && g.nodes[j] == r;
      ReachesWithinClosed(g, OutsideReportsFrom1, r, 10);
      assert false;
    }
  }

  /** A root that reaches Report 10 is Report 1. */
  lemma RootAboveReport10(r: int)
    requires r in Example.nodes && Example.Predecessors(r) == [] && Example.Reaches(r, 10)
    ensures r == 1
  {
    OutsideReportsFrom1Closed();
    SeedPositions();
    ReachingReport10(Example, r);
    RootOfReportsFrom1(r);
  }

  /** A leaf that Report 4 reaches is Report 9. */
  lemma LeafBelowReport4(r: int)
    requires Example.Successors(r) == [] && Example.Reaches(4, r)
    ensures r == 9
  {
    ReportsFrom2Closed();
    ReachesWithinClosed(Example, ReportsFrom2, 4, r);
    LeafOfReportsFrom2(r);
  }

  /** `get_degree()` on the example, in node order. */
  const ReportDegrees: seq<(int, nat)> :=
    [(1, 2), (5, 2), (3, 2), (2, 1), (4, 2), (6, 2), (7, 2), (9, 1), (8, 3), (10, 1), (11, 0)]

  lemma DegreeOfReport1()
    ensures Example.Degree(1) == 2
  {
  }

  lemma DegreeOfReport5()
    ensures Example.Degree(5) == 2
  {
  }

  /** Report 3 has two incoming edges, from Reports 1 and 8. */
  lemma InDegreeOfReport3()
    ensures Example.InDegree(3) == 2
  {
  }

  /** Report 8 has two outgoing edges, to Reports 10 and 3. */
  lemma OutDegreeOfReport8()
    ensures Example.OutDegree(8) == 2
  {
  }

  lemma DegreeOfReport3()
    ensures Example.Degree(3) == 2
  {
  }

  lemma DegreeOfReport2()
    ensures Example.Degree(2) == 1
  {
  }

  lemma DegreeOfReport4()
    ensures Example.Degree(4) == 2
  {
  }

  lemma DegreeOfReport6()
    ensures Example.Degree(6) == 2
  {
  }

  lemma DegreeOfReport7()
    ensures Example.Degree(7) == 2
  {
  }

  lemma DegreeOfReport9()
    ensures Example.Degree(9) == 1
  {
  }

  lemma DegreeOfReport8()
    ensures Example.Degree(8) == 3
  {
  }

  lemma DegreeOfReport10()
    ensures Example.Degree(10) == 1
  {
  }

  lemma DegreeOfReport11()
    ensures Example.Degree(11) == 0
  {
  }

  /**
   * Node by node, the degree list of any graph with the example's node order
   * and degrees (left abstract, so that nothing is evaluated on the literal).
   */
  lemma DegreeListOf(g: Digraph<int>, r: seq<(int, nat)>)
    requires |g.nodes| == |ReportDegrees|
    requires forall i :: 0 <= i < |ReportDegrees| ==> g.nodes[i] == ReportDegrees[i].0 && g.Degree(g.nodes[i]) == ReportDegrees[i].1
    requires |r| == |g.nodes|
    requires forall i :: 0 <= i < |r| ==> r[i].0 == g.nodes[i] && r[i].1 == g.InDegree(r[i].0) + g.OutDegree(r[i].0)
    ensures r == ReportDegrees
  {
    g.DegreeIsInPlusOutEverywhere();
  }

  /** The eleven degrees, read as a table indexed like the node list. */
  lemma DegreeTableOf(g: Digraph<int>)
    requires |g.nodes| == 11
    requires forall i :: 0 <= i < 11 ==> g.nodes[i] == ReportDegrees[i].0
    requires g.Degree(1) == 2 && g.Degree(5) == 2 && g.Degree(3) == 2 && g.Degree(2) == 1
    requires g.Degree(4) == 2 && g.Degree(6) == 2 && g.Degree(7) == 2 && g.Degree(9) == 1
    requires g.Degree(8) == 3 && g.Degree(10) == 1 && g.Degree(11) == 0
    ensures |g.nodes| == |ReportDegrees|
    ensures forall i :: 0 <= i < |ReportDegrees| ==> g.nodes[i] == ReportDegrees[i].0 && g.Degree(g.nodes[i]) == ReportDegrees[i].1
  {
    forall i | 0 <= i < |ReportDegrees|
      ensures g.Degree(ReportDegrees[i].0) == ReportDegrees[i].1
    {
      if i == 0 { } else if i == 1 { } else if i == 2 { } else if i == 3 { }
      else if i == 4 { } else if i == 5 { } else if i == 6 { } else if i == 7 { }
      else if i == 8 { } else if i == 9 { } else { assert i == 10; }
    }
  }

  lemma NodePositions()
    ensures |Example.nodes| == 11
    ensures forall i :: 0 <= i < 11 ==> Example.nodes[i] == ReportDegrees[i].0
  {
  }

  /** Any list pairing each node, in order, with its degree is the expected one. */
  lemma ExampleDegreeList(r: seq<(int, nat)>)
    requires |r| == |Example.nodes|
    requires forall i :: 0 <= i < |r| ==>
               r[i].0 == Example.nodes[i] && r[i].1 == Example.InDegree(r[i].0) + Example.OutDegree(r[i].0)
    ensures r == ReportDegrees
  {
    NodePositions();
    DegreeOfReport1();
    DegreeOfReport5();
    DegreeOfReport3();
    DegreeOfReport2();
    DegreeOfReport4();
    DegreeOfReport6();
    DegreeOfReport7();
    DegreeOfReport9();
    DegreeOfReport8();
    DegreeOfReport10();
    DegreeOfReport11();
    DegreeTableOf(Example);
    DegreeListOf(Example, r);
  }

  /** `degree()` on the example graph. */
  lemma ExampleDegreeView()
    ensures Example.DegreeView() == ReportDegrees
  {
    ExampleDegreeList(Example.DegreeView());
  }

  /** The plan the test expects: one root record per component, with its child count. */
  const ReportPlan: seq<Option<PlanRecord<int>>> :=
    [Some(PlanRecord(1, 0, 2)), Some(PlanRecord(2, 0, 1)), Some(PlanRecord(11, 0, 0))]

  /** Over a valid graph, k targets of n give a child count of k. */
  lemma ChildCountFromTargets(g: Digraph<int>, n: int, out: set<int>, k: nat)
    requires g.Valid() && |out| == k
    requires forall v :: (n, v) in g.edges <==> v in out
    ensures |set v | v in g.Successors(n)| == k
  {
    OutDegreeFromSet(g, n, out);
  }

  /**
   * The record of each component, first for any valid graph with the
   * example's edges around the root (so that nothing is evaluated on the
   * literal), then for the example.
   */
  lemma RecordAmong1(g: Digraph<int>, entry: Option<PlanRecord<int>>)
    requires g.Valid() && IsComponentPlan(g, entry, ReportsFrom1)
    requires (1, 5) in g.edges && (1, 3) in g.edges && (5, 8) in g.edges && (8, 10) in g.edges
    requires forall v :: (1, v) in g.edges <==> v in {5, 3}
    ensures entry == Some(PlanRecord(1, 0, 2))
  {
    RootAmong1(g, entry.value.node);
    ChildCountFromTargets(g, 1, {5, 3}, 2);
  }

  lemma RecordAmong2(g: Digraph<int>, entry: Option<PlanRecord<int>>)
    requires g.Valid() && IsComponentPlan(g, entry, ReportsFrom2)
    requires (2, 4) in g.edges && (4, 6) in g.edges && (6, 7) in g.edges && (7, 9) in g.edges
    requires forall v :: (2, v) in g.edges <==> v in {4}
    ensures entry == Some(PlanRecord(2, 0, 1))
  {
    RootAmong2(g, entry.value.node);
    ChildCountFromTargets(g, 2, {4}, 1);
  }

  lemma RecordAmong11(g: Digraph<int>, entry: Option<PlanRecord<int>>)
    requires g.Valid() && IsComponentPlan(g, entry, {11})
    requires forall v :: (11, v) in g.edges <==> v in {}
    ensures entry == Some(PlanRecord(11, 0, 0))
  {
    ChildCountFromTargets(g, 11, {}, 0);
  }

  lemma RecordOfReportsFrom1(entry: Option<PlanRecord<int>>)
    requires IsComponentPlan(Example, entry, ReportsFrom1)
    ensures entry == Some(PlanRecord(1, 0, 2))
  {
    ExampleValid();
    SpanningEdges();
    SuccessorSetOfReport1(Example);
    RecordAmong1(Example, entry);
  }

  lemma RecordOfReportsFrom2(entry: Option<PlanRecord<int>>)
    requires IsComponentPlan(Example, entry, ReportsFrom2)
    ensures entry == Some(PlanRecord(2, 0, 1))
  {
    ExampleValid();
    SpanningEdges();
    SuccessorsOfReport2(Example);
    RecordAmong2(Example, entry);
  }

  lemma RecordOfReport11(entry: Option<PlanRecord<int>>)
    requires IsComponentPlan(Example, entry, {11})
    ensures entry == Some(PlanRecord(11, 0, 0))
  {
    ExampleValid();
    SuccessorsOfReport11(Example);
    RecordAmong11(Example, entry);
  }

  /** The three records of a plan covering three components. */
  lemma CoverThree(g: Digraph<int>, records: seq<Option<PlanRecord<int>>>, comps: seq<set<int>>)
    requires PlanCovers(g, records, comps) && |comps| == 3
    ensures |records| == 3
    ensures IsComponentPlan(g, records[0], comps[0]) && IsComponentPlan(g, records[1], comps[1])
    ensures IsComponentPlan(g, records[2], comps[2])
  {
  }

  lemma ThreeRecords(records: seq<Option<PlanRecord<int>>>)
    requires |records| == 3
    requires records[0] == Some(PlanRecord(1, 0, 2)) && records[1] == Some(PlanRecord(2, 0, 1))
    requires records[2] == Some(PlanRecord(11, 0, 0))
    ensures records == ReportPlan
  {
  }

  /** Any records covering the example's components are exactly the expected plan. */
  lemma ExamplePlanRecords(records: seq<Option<PlanRecord<int>>>)
    requires PlanCovers(Example, records, [ReportsFrom1, ReportsFrom2, {11}])
    ensures records == ReportPlan
  {
    CoverThree(Example, records, [ReportsFrom1, ReportsFrom2, {11}]);
    RecordOfReportsFrom1(records[0]);
    RecordOfReportsFrom2(records[1]);
    RecordOfReport11(records[2]);
    ThreeRecords(records);
  }

  /** Permuting a list of three: Report 8's successors first, then its predecessor. */
  lemma ConnectedOfReport8(s: seq<int>)
    requires |s| == 3
    requires (set v | v in s[..2]) == {10, 3} && (set u | u in s[2..]) == {5}
    ensures multiset(s) == multiset{3, 5, 10}
  {
    assert s[2] in (set u | u in s[2..]);
    assert s[0] in (set v | v in s[..2]) && s[1] in (set v | v in s[..2]);
    assert 10 in (set v | v in s[..2]) && 3 in (set v | v in s[..2]);
    assert s == [s[0], s[1], s[2]];
  }
}
