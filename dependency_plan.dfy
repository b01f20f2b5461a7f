/**
 * The `DependencyPlan` class: a directed graph built from (parent, child)
 * edges, queried for successors, predecessors and degrees, and turned into a
 * "dependency plan" with one record per weakly connected component.
 */
module DependencyPlans {

  import opened Wrappers
  import opened Digraphs
  import opened WeakComponents
  import opened ShortestPaths
  import opened Worklists

  /** One entry of the plan: a node, its order (always 0) and its number of children. */
  datatype PlanRecord<N> = PlanRecord(node: N, order: int, child: nat)

  /** `list_of_node` with `None` read as the empty list. */
  function NodeList<N>(listOfNode: Option<seq<N>>): seq<N> {
    if listOfNode.None? then [] else listOfNode.value
  }

  /** The graph a new DependencyPlan holds: the edges added in order, then the listed nodes. */
  function InitialGraph<N(==, !new)>(connectedEdgeList: seq<(N, N)>, listOfNode: Option<seq<N>>): (g: Digraph<N>)
    ensures g.Valid()
    ensures g.NodeSet() == Endpoints(connectedEdgeList) + set n | n in NodeList(listOfNode)
    ensures g.EdgeSet() == set e | e in connectedEdgeList
  {
    var empty: Digraph<N> := Digraph([], []);
    assert empty.Valid() && empty.NodeSet() == {} && empty.EdgeSet() == {};
    var withEdges := empty.AddEdgesFrom(connectedEdgeList);
    assert withEdges.Valid() && withEdges.NodeSet() == Endpoints(connectedEdgeList);
    withEdges.AddNodes(NodeList(listOfNode))
  }

  /** Leaving out the node list changes the nodes only: the edges come out the same. */
  lemma NodeListKeepsEdges<N(!new)>(connectedEdgeList: seq<(N, N)>, listOfNode: seq<N>)
    ensures InitialGraph(connectedEdgeList, Some(listOfNode)).edges == InitialGraph(connectedEdgeList, None).edges
    ensures InitialGraph(connectedEdgeList, Some(listOfNode)).NodeSet()
         == InitialGraph(connectedEdgeList, None).NodeSet() + set n | n in listOfNode
  {
    var base := Digraph([], []).AddEdgesFrom(connectedEdgeList);
    assert InitialGraph(connectedEdgeList, None) == base.AddNodes([]) == base;
  }

  /**
   * The order the initial graph keeps: each distinct pair once, in the order
   * of its first occurrence in the edge list; each node once, in the order it
   * first occurs among the edge endpoints (source, then target) and then the
   * listed nodes.
   */
  lemma InitialGraphOrder<N(!new)>(connectedEdgeList: seq<(N, N)>, listOfNode: Option<seq<N>>)
    ensures FirstOccurrences(InitialGraph(connectedEdgeList, listOfNode).edges, connectedEdgeList)
    ensures FirstOccurrences(InitialGraph(connectedEdgeList, listOfNode).nodes,
                             EndpointList(connectedEdgeList) + NodeList(listOfNode))
  {
    var empty: Digraph<N> := Digraph([], []);
    empty.AddEdgesFromOrder(connectedEdgeList, [], []);
    assert [] + connectedEdgeList == connectedEdgeList && [] + EndpointList(connectedEdgeList) == EndpointList(connectedEdgeList);
    var withEdges := empty.AddEdgesFrom(connectedEdgeList);
    withEdges.AddNodesOrder(NodeList(listOfNode), EndpointList(connectedEdgeList));
  }

  /**
   * The initial graph computed directly: the edge endpoints (source, then
   * target, edge by edge) and then the listed nodes, each kept at its first
   * occurrence; the pairs of the edge list, each kept at its first occurrence.
   */
  lemma InitialGraphDedup<N(!new)>(connectedEdgeList: seq<(N, N)>, listOfNode: Option<seq<N>>)
    ensures InitialGraph(connectedEdgeList, listOfNode)
         == Digraph(DedupInto([], EndpointList(connectedEdgeList) + NodeList(listOfNode)), DedupInto([], connectedEdgeList))
  {
    var empty: Digraph<N> := Digraph([], []);
    empty.AddEdgesFromDedup(connectedEdgeList);
    var withEdges := empty.AddEdgesFrom(connectedEdgeList);
    withEdges.AddNodesDedup(NodeList(listOfNode));
    DedupIntoAppend([], EndpointList(connectedEdgeList), NodeList(listOfNode));
  }

  /** When the edges are the first occurrences of es, successors come in the order their edges first occur in es. */
  lemma SuccessorsFollowEdgeList<N(!new)>(g: Digraph<N>, es: seq<(N, N)>, u: N)
    requires FirstOccurrences(g.edges, es)
    ensures forall i, j :: 0 <= i < j < |g.Successors(u)| ==>
              FirstsBefore(es, (u, g.Successors(u)[i]), (u, g.Successors(u)[j]))
  {
    TargetsInOrder(g.edges, u);
    var t := g.Successors(u);
    forall i, j | 0 <= i < j < |t|
      ensures FirstsBefore(es, (u, t[i]), (u, t[j]))
    {
      assert EarlierEdge(g.edges, (u, t[i]), (u, t[j]));
      var a, b :| 0 <= a < b < |g.edges| && g.edges[a] == (u, t[i]) && g.edges[b] == (u, t[j]);
    }
  }

  /** Adding nodes that are all present already changes nothing. */
  lemma {:induction false} AddNodesPresent<N(!new)>(g: Digraph<N>, ns: seq<N>)
    requires forall n :: n in ns ==> n in g.nodes
    ensures g.AddNodes(ns) == g
    decreases |ns|
  {
    if ns != [] {
      AddNodesPresent(g, ns[..|ns| - 1]);
    }
  }

  /** The last key of the entry list whose value is 0, if any (the dictionary is read in order). */
  function LastZero<N>(dependencies: seq<(N, nat)>): (r: Option<N>)
    ensures r.Some? ==> (r.value, 0) in dependencies
  {
    if dependencies == [] then None
    else if dependencies[|dependencies| - 1].1 == 0 then Some(dependencies[|dependencies| - 1].0)
    else LastZero(dependencies[..|dependencies| - 1])
  }

  /** LastZero is None exactly when no value is 0. */
  lemma {:induction false} LastZeroNone<N>(dependencies: seq<(N, nat)>)
    ensures LastZero(dependencies).None? <==> forall k :: 0 <= k < |dependencies| ==> dependencies[k].1 != 0
  {
    if dependencies != [] {
      var init := dependencies[..|dependencies| - 1];
      LastZeroNone(init);
      assert forall k :: 0 <= k < |init| ==> init[k] == dependencies[k];
    }
  }

  /** LastZero finds the last match: the key at the last position whose value is 0. */
  lemma {:induction false} LastZeroIsLast<N>(dependencies: seq<(N, nat)>, k: nat)
    requires k < |dependencies| && dependencies[k].1 == 0
    requires forall k' :: k < k' < |dependencies| ==> dependencies[k'].1 != 0
    ensures LastZero(dependencies) == Some(dependencies[k].0)
  {
    var n := |dependencies| - 1;
    if k < n {
      var init := dependencies[..n];
      assert forall k' :: k < k' < n ==> init[k'] == dependencies[k'];
      LastZeroIsLast(init, k);
    }
  }

  /** In a distance map from v, v is the only key at distance 0, so it is the last one. */
  lemma LastZeroOfDistances<N>(r: seq<(N, nat)>, v: N)
    requires |r| >= 1 && r[0] == (v, 0)
    requires forall k :: 1 <= k < |r| ==> r[k].1 >= 1
    ensures LastZero(r) == Some(v)
  {
    LastZeroIsLast(r, 0);
  }

  /** The members of a set one at a time, in an order the model leaves open (Python set iteration). */
  method Elements<T(!new)>(s: set<T>) returns (xs: seq<T>)
    ensures (set x | x in xs) == s && |xs| == |s|
  {
    xs := [];
    var rest := s;
    while rest != {}
      invariant rest <= s && (set x | x in xs) == s - rest && |xs| + |rest| == |s|
      decreases |rest|
    {
      var x :| x in rest;
      assert (set y | y in xs + [x]) == (set y | y in xs) + {x};
      xs := xs + [x];
      rest := rest - {x};
    }
  }

  /** The nodes of a worklist of (node, depth) entries. */
  function Firsts<N, D>(entries: seq<(N, D)>): (r: seq<N>)
    ensures |r| == |entries| && forall k :: 0 <= k < |entries| ==> r[k] == entries[k].0
  {
    seq(|entries|, k requires 0 <= k < |entries| => entries[k].0)
  }

  /** Each node of xs with the depth d. */
  function Tagged<N>(xs: seq<N>, d: int): (r: seq<(N, int)>)
    ensures |r| == |xs| && forall k :: 0 <= k < |xs| ==> r[k] == (xs[k], d)
  {
    seq(|xs|, k requires 0 <= k < |xs| => (xs[k], d))
  }

  /** The entries of a worklist before position i are what Process has read of the start list. */
  ghost predicate ReadUpTo<N(!new)>(g: Digraph<N>, nodes: seq<(N, int)>, i: nat, startNodes: seq<N>)
    requires g.Acyclic() && i <= |nodes|
  {
    Firsts(nodes[..i]) + Process(g, Firsts(nodes[i..])) == Process(g, startNodes)
  }

  /** How the read and unread parts of a worklist move when entry i is read and xs appended. */
  lemma FirstsStep<N>(nodes: seq<(N, int)>, i: nat, xs: seq<N>, d: int)
    requires i < |nodes|
    ensures var nodes' := nodes + Tagged(xs, d);
      && Firsts(nodes'[i + 1..]) == Firsts(nodes[i..])[1..] + xs
      && Firsts(nodes'[..i + 1]) == Firsts(nodes[..i]) + [nodes[i].0]
  {
    var nodes' := nodes + Tagged(xs, d);
    assert Firsts(nodes'[i + 1..]) == Firsts(nodes[i..])[1..] + xs;
    assert Firsts(nodes'[..i + 1]) == Firsts(nodes[..i]) + [nodes[i].0];
  }

  /** Reading entry i and appending its predecessors leaves less work on the list. */
  lemma WorklistShrinks<N(!new)>(g: Digraph<N>, nodes: seq<(N, int)>, i: nat, d: int)
    requires g.Acyclic() && i < |nodes|
    ensures Work(g, Firsts((nodes + Tagged(g.Predecessors(nodes[i].0), d))[i + 1..])) < Work(g, Firsts(nodes[i..]))
  {
    FirstsStep(nodes, i, g.Predecessors(nodes[i].0), d);
    WorkStep(g, Firsts(nodes[i..]));
  }

  /** Reading entry i and appending its predecessors (with depth d) is one step of Process. */
  lemma WorklistStep<N(!new)>(g: Digraph<N>, nodes: seq<(N, int)>, i: nat, d: int, startNodes: seq<N>)
    requires g.Acyclic() && i < |nodes| && ReadUpTo(g, nodes, i, startNodes)
    ensures ReadUpTo(g, nodes + Tagged(g.Predecessors(nodes[i].0), d), i + 1, startNodes)
  {
    var preds := g.Predecessors(nodes[i].0);
    FirstsStep(nodes, i, preds, d);
    var read := Firsts(nodes[..i]);
    var q := Firsts(nodes[i..]);
    ProcessStep(g, q);
    var rest := Process(g, q[1..] + preds);
    assert (read + [q[0]]) + rest == read + ([q[0]] + rest);
  }

  /** Before anything is read, the worklist is the start list at depth 0. */
  lemma WorklistStart<N(!new)>(g: Digraph<N>, startNodes: seq<N>)
    requires g.Acyclic()
    ensures ReadUpTo(g, Tagged(startNodes, 0), 0, startNodes)
  {
    var nodes := Tagged(startNodes, 0);
    assert Firsts(nodes[..0]) == [] && Firsts(nodes[0..]) == startNodes;
  }

  /** Appending predecessors keeps every entry of the worklist a node of the graph. */
  lemma AppendedInNodes<N(!new)>(g: Digraph<N>, nodes: seq<(N, int)>, node: N, d: int)
    requires g.EdgesInNodes() && forall k :: 0 <= k < |nodes| ==> nodes[k].0 in g.nodes
    ensures var nodes' := nodes + Tagged(g.Predecessors(node), d);
      forall k :: 0 <= k < |nodes'| ==> nodes'[k].0 in g.nodes
  {
    var preds := g.Predecessors(node);
    var nodes' := nodes + Tagged(preds, d);
    forall k | |nodes| <= k < |nodes'|
      ensures nodes'[k].0 in g.nodes
    {
      var p := preds[k - |nodes|];
      assert nodes'[k] == (p, d) && p in preds && (p, node) in g.edges;
    }
  }

  /** The last entry of a worklist has its node read last. */
  lemma WorklistDone<N(!new)>(g: Digraph<N>, nodes: seq<(N, int)>, startNodes: seq<N>)
    requires g.Acyclic() && startNodes != []
    requires ReadUpTo(g, nodes, |nodes|, startNodes)
    ensures |nodes| > 0 && nodes[|nodes| - 1].0 == LastProcessed(g, startNodes)
  {
    assert nodes[..|nodes|] == nodes;
    assert Firsts(nodes[|nodes|..]) == [];
  }

  /** The plan record of a node of order 0: the node with its number of successors. */
  function PlanOf<N(==, !new)>(g: Digraph<N>, node: Option<N>): Option<PlanRecord<N>> {
    if node.None? then None else Some(PlanRecord(node.value, 0, |set v | v in g.Successors(node.value)|))
  }

  /** A record for a component: a node of it with no predecessors, of order 0, with its child count. */
  ghost predicate IsComponentPlan<N(!new)>(g: Digraph<N>, entry: Option<PlanRecord<N>>, comp: set<N>) {
    && entry.Some?
    && entry.value.node in comp && entry.value.node in g.nodes
    && g.Predecessors(entry.value.node) == []
    && entry.value.order == 0
    && entry.value.child == |set v | v in g.Successors(entry.value.node)|
  }

  /** The record the plan gets for component i, whatever order its nodes are listed in. */
  lemma ComponentRecord<N(!new)>(g: Digraph<N>, comps: seq<set<N>>, i: nat, startNodes: seq<N>)
    requires g.Valid() && g.Acyclic()
    requires comps == WeaklyConnectedComponents(g) && i < |comps|
    requires (set x | x in startNodes) == comps[i]
    ensures startNodes != [] && forall x :: x in startNodes ==> x in g.nodes
    ensures var v := LastProcessed(g, startNodes);
      && v in g.nodes
      && LastZero(ShortestPathLength(g, v)) == Some(v)
      && IsComponentPlan(g, PlanOf(g, Some(v)), comps[i])
  {
    var comp := comps[i];
    ComponentsPartition(g);
    assert comp != {} && comp <= g.NodeSet() && Closed(g, comp);
    assert startNodes != [] by {
      var x :| x in comp;
      assert x in set y | y in startNodes;
    }
    ProcessStaysIn(g, startNodes, comp);
    var v := LastProcessed(g, startNodes);
    LastZeroOfDistances(ShortestPathLength(g, v), v);
  }

  /** The records are those of the components, one each and in the same order. */
  ghost predicate PlanCovers<N(!new)>(g: Digraph<N>, records: seq<Option<PlanRecord<N>>>, comps: seq<set<N>>) {
    |records| == |comps| && forall k :: 0 <= k < |comps| ==> IsComponentPlan(g, records[k], comps[k])
  }

  /** Appending the record of component i to a plan that has those of components 0 to i-1. */
  lemma PlanExtends<N(!new)>(g: Digraph<N>, comps: seq<set<N>>, plan: seq<Option<PlanRecord<N>>>, base: nat, i: nat,
                             entry: Option<PlanRecord<N>>)
    requires i < |comps| && base <= |plan|
    requires PlanCovers(g, plan[base..], comps[..i])
    requires IsComponentPlan(g, entry, comps[i])
    ensures (plan + [entry])[..base] == plan[..base]
    ensures PlanCovers(g, (plan + [entry])[base..], comps[..i + 1])
  {
    var records, records' := plan[base..], (plan + [entry])[base..];
    assert records' == records + [entry];
    forall k | 0 <= k < i + 1
      ensures IsComponentPlan(g, records'[k], comps[..i + 1][k])
    {
      if k < i {
        assert records'[k] == records[k] && comps[..i + 1][k] == comps[..i][k];
      }
    }
  }

  class DependencyPlan<N(==, !new)> {
    var edgeList: seq<(N, N)>
    var dependencyPlan: seq<Option<PlanRecord<N>>>
    var graph: Digraph<N>

    /** The graph is a well-formed DiGraph. */
    ghost predicate Valid()
      reads this
    {
      graph.Valid()
    }

    /** `__init__`: the edges are added in order, then the nodes of `list_of_node`. */
    constructor (connectedEdgeList: seq<(N, N)>, listOfNode: Option<seq<N>>)
      ensures edgeList == connectedEdgeList && dependencyPlan == []
      ensures graph == InitialGraph(connectedEdgeList, listOfNode)
      ensures Valid()
    {
      var nodeList := NodeList(listOfNode);
      edgeList := connectedEdgeList;
      dependencyPlan := [];
      graph := Digraph([], []).AddEdgesFrom(connectedEdgeList);
      new;
      SetNode(nodeList);
    }

    /** `set_node`: one `add_node` per listed node, in order. */
    method SetNode(listOfNode: seq<N>)
      modifies this
      ensures graph == old(graph).AddNodes(listOfNode)
      ensures edgeList == old(edgeList) && dependencyPlan == old(dependencyPlan)
    {
      for i := 0 to |listOfNode|
        invariant graph == old(graph).AddNodes(listOfNode[..i])
        invariant edgeList == old(edgeList) && dependencyPlan == old(dependencyPlan)
      {
        assert listOfNode[..i + 1][..i] == listOfNode[..i];
        graph := graph.AddNode(listOfNode[i]);
      }
      assert listOfNode[..|listOfNode|] == listOfNode;
    }

    /** `get_successors`: the set of targets of direct edges out of node. */
    function GetSuccessors(node: N): (r: set<N>)
      reads this
      requires node in graph.nodes
      ensures forall v :: v in r <==> graph.HasSuccessor(node, v)
    {
      set v | v in graph.Successors(node)
    }

    /** `get_predecessor`: the set of sources of direct edges into node. */
    function GetPredecessor(node: N): (r: set<N>)
      reads this
      requires node in graph.nodes
      ensures forall u :: u in r <==> graph.HasPredecessor(node, u)
    {
      set u | u in graph.Predecessors(node)
    }

    /** `validate_successors`: a direct edge node -> successor, whether or not node is present. */
    function ValidateSuccessors(node: N, successor: N): (r: bool)
      reads this
      ensures r <==> successor in graph.Successors(node)
    {
      graph.HasSuccessor(node, successor)
    }

    /** `validate_predecessor`: a direct edge predecessor -> node. */
    function ValidatePredecessor(node: N, predecessor: N): (r: bool)
      reads this
      ensures r <==> predecessor in graph.Predecessors(node)
    {
      graph.HasPredecessor(node, predecessor)
    }

    /** `get_successors_of_successors`: the nodes two edges after node. */
    method GetSuccessorsOfSuccessors(node: N) returns (results: set<N>)
      requires node in graph.nodes
      ensures forall w :: w in results <==> exists s :: graph.HasSuccessor(node, s) && graph.HasSuccessor(s, w)
    {
      results := {};
      var successors := graph.Successors(node);
      for i := 0 to |successors|
        invariant forall w :: w in results <==> exists k :: 0 <= k < i && (successors[k], w) in graph.edges
      {
        results := results + set w | w in graph.Successors(successors[i]);
      }
      forall w | w in results
        ensures exists s :: graph.HasSuccessor(node, s) && graph.HasSuccessor(s, w)
      {
        var k :| 0 <= k < |successors| && (successors[k], w) in graph.edges;
        assert graph.HasSuccessor(node, successors[k]);
      }
      forall w | exists s :: graph.HasSuccessor(node, s) && graph.HasSuccessor(s, w)
        ensures w in results
      {
        var s :| graph.HasSuccessor(node, s) && graph.HasSuccessor(s, w);
        assert s in successors;
        var k :| 0 <= k < |successors| && successors[k] == s;
      }
    }

    /** `get_predecessors_of_predecessors`: the nodes two edges before node. */
    method GetPredecessorsOfPredecessors(node: N) returns (results: set<N>)
      requires node in graph.nodes
      ensures forall u :: u in results <==> exists p :: graph.HasPredecessor(node, p) && graph.HasPredecessor(p, u)
    {
      results := {};
      var predecessors := graph.Predecessors(node);
      for i := 0 to |predecessors|
        invariant forall u :: u in results <==> exists k :: 0 <= k < i && (u, predecessors[k]) in graph.edges
      {
        results := results + set u | u in graph.Predecessors(predecessors[i]);
      }
      forall u | u in results
        ensures exists p :: graph.HasPredecessor(node, p) && graph.HasPredecessor(p, u)
      {
        var k :| 0 <= k < |predecessors| && (u, predecessors[k]) in graph.edges;
        assert graph.HasPredecessor(node, predecessors[k]);
      }
      forall u | exists p :: graph.HasPredecessor(node, p) && graph.HasPredecessor(p, u)
        ensures u in results
      {
        var p :| graph.HasPredecessor(node, p) && graph.HasPredecessor(p, u);
        assert p in predecessors;
        var k :| 0 <= k < |predecessors| && predecessors[k] == p;
      }
    }

    /** `get_tree_count`: the number of weakly connected components. */
    method GetTreeCount() returns (count: nat)
      requires Valid()
      ensures count == |WeaklyConnectedComponents(graph)|
      ensures count <= |graph.nodes| && (graph.nodes != [] ==> count >= 1)
    {
      var trees: seq<set<N>> := [];
      var comps := WeaklyConnectedComponents(graph);
      for i := 0 to |comps|
        invariant trees == comps[..i]
      {
        trees := trees + [comps[i]];
      }
      assert trees == comps;
      count := |trees|;
      ComponentCount(graph);
    }

    /** `find_root_node`: follow first predecessors up to a node with none. */
    function FindRootNode(child: N): (r: N)
      reads this
      requires Valid() && graph.Acyclic() && child in graph.nodes
      ensures r in graph.nodes && graph.Predecessors(r) == []
      ensures graph.Reaches(r, child)
      decreases graph.RankOf(child)
    {
      var parent := graph.Predecessors(child);
      if |parent| == 0 then
        graph.ReachesItself(child);
        child
      else
        graph.NeighboursClimb(child);
        assert parent[0] in parent && (parent[0], child) in graph.edges;
        var r := FindRootNode(parent[0]);
        graph.ReachesThenEdge(r, parent[0], child);
        r
    }

    /** `find_leaf_node`: follow first successors down to a node with none. */
    function FindLeafNode(parent: N): (r: N)
      reads this
      requires Valid() && graph.Acyclic() && parent in graph.nodes
      ensures r in graph.nodes && graph.Successors(r) == []
      ensures graph.Reaches(parent, r)
      decreases |graph.nodes| - graph.RankOf(parent)
    {
      var child := graph.Successors(parent);
      if |child| == 0 then
        graph.ReachesItself(parent);
        parent
      else
        graph.NeighboursClimb(parent);
        assert child[0] in child && (parent, child[0]) in graph.edges;
        var r := FindLeafNode(child[0]);
        graph.EdgeThenReaches(parent, child[0], r);
        r
    }

    /** A root is its own root, and a leaf its own leaf. */
    lemma FindRootAndLeafAreFixed(n: N)
      requires Valid() && graph.Acyclic() && n in graph.nodes
      ensures FindRootNode(FindRootNode(n)) == FindRootNode(n)
      ensures FindLeafNode(FindLeafNode(n)) == FindLeafNode(n)
    {
    }

    /** `get_degree`: every node with its number of incident edge ends. */
    function GetDegree(): (r: seq<(N, nat)>)
      reads this
      ensures |r| == |graph.nodes|
      ensures forall i :: 0 <= i < |r| ==> r[i].0 == graph.nodes[i] && r[i].1 == graph.InDegree(r[i].0) + graph.OutDegree(r[i].0)
      ensures Valid() ==> forall i :: 0 <= i < |r| ==>
        r[i].1 == |GetPredecessor(r[i].0)| + |GetSuccessors(r[i].0)|
    {
      var r := graph.DegreeView();
      assert Valid() ==> (forall n :: n in graph.nodes ==>
          graph.InDegree(n) + graph.OutDegree(n) == |GetPredecessor(n)| + |GetSuccessors(n)|) by {
        if Valid() {
          forall n | n in graph.nodes
            ensures graph.InDegree(n) + graph.OutDegree(n) == |GetPredecessor(n)| + |GetSuccessors(n)|
          {
            graph.SuccessorSetSize(n);
            graph.PredecessorSetSize(n);
          }
        }
      }
      r
    }

    /** `get_in_degree`: the number of predecessors of node. */
    function GetInDegree(node: N): (r: nat)
      reads this
      requires node in graph.nodes
      ensures Valid() ==> r == |GetPredecessor(node)|
    {
      assert Valid() ==> graph.InDegree(node) == |GetPredecessor(node)| by {
        if Valid() { graph.PredecessorSetSize(node); }
      }
      graph.InDegree(node)
    }

    /** `get_out_degree`: the number of successors of node. */
    function GetOutDegree(node: N): (r: nat)
      reads this
      requires node in graph.nodes
      ensures Valid() ==> r == |GetSuccessors(node)|
    {
      assert Valid() ==> graph.OutDegree(node) == |GetSuccessors(node)| by {
        if Valid() { graph.SuccessorSetSize(node); }
      }
      graph.OutDegree(node)
    }

    /** `get_edges_list`: every edge once, grouped by source node. */
    function GetEdgesList(): (r: seq<(N, N)>)
      reads this
      ensures forall e :: e in r <==> e.0 in graph.nodes && e in graph.edges
      ensures Valid() ==> (set e | e in r) == graph.EdgeSet() && Distinct(r) && |r| == |graph.edges|
    {
      assert Valid() ==>
          (set e | e in graph.EdgeView()) == graph.EdgeSet() && Distinct(graph.EdgeView()) && |graph.EdgeView()| == |graph.edges| by {
        if Valid() { graph.EdgeViewIsEdges(); }
      }
      graph.EdgeView()
    }

    /** `get_neighbors`: the successors of node as a list, in edge-insertion order. */
    function GetNeighbors(node: N): (r: seq<N>)
      reads this
      requires node in graph.nodes
      ensures forall v :: v in r <==> graph.HasSuccessor(node, v)
      ensures Valid() ==> Distinct(r) && |r| == GetOutDegree(node)
      ensures forall i, j :: 0 <= i < j < |r| ==> EarlierEdge(graph.edges, (node, r[i]), (node, r[j]))
    {
      TargetsInOrder(graph.edges, node);
      assert graph.Successors(node) == Targets(graph.edges, node);
      assert Valid() ==> Distinct(graph.Successors(node)) && |graph.Successors(node)| == GetOutDegree(node) by {
        if Valid() { graph.SuccessorSetSize(node); }
      }
      graph.Successors(node)
    }

    /** `get_connected_nodes`: the successors of node, then its predecessors, each set in some order. */
    method GetConnectedNodes(node: N) returns (allConnectedNodes: seq<N>)
      requires node in graph.nodes
      ensures var k := |GetSuccessors(node)|;
        && k <= |allConnectedNodes|
        && (set v | v in allConnectedNodes[..k]) == GetSuccessors(node)
        && (set u | u in allConnectedNodes[k..]) == GetPredecessor(node)
        && |allConnectedNodes| == k + |GetPredecessor(node)|
      ensures Valid() ==> |allConnectedNodes| == GetOutDegree(node) + GetInDegree(node)
    {
      allConnectedNodes := [];
      var successors := Elements(GetSuccessors(node));
      for i := 0 to |successors|
        invariant allConnectedNodes == successors[..i]
      {
        allConnectedNodes := allConnectedNodes + [successors[i]];
      }
      var predecessors := Elements(GetPredecessor(node));
      for i := 0 to |predecessors|
        invariant allConnectedNodes == successors + predecessors[..i]
      {
        allConnectedNodes := allConnectedNodes + [predecessors[i]];
      }
      assert allConnectedNodes[..|successors|] == successors;
      assert allConnectedNodes[|successors|..] == predecessors;
    }

    /** The inner loop of `get_node_dependencies`: append each predecessor with the given depth. */
    static method AppendPredecessors(nodes: seq<(N, int)>, predecessors: seq<N>, thisDepth: int) returns (nodes': seq<(N, int)>)
      ensures nodes' == nodes + Tagged(predecessors, thisDepth)
    {
      nodes' := nodes;
      for j := 0 to |predecessors|
        invariant nodes' == nodes + Tagged(predecessors[..j], thisDepth)
      {
        assert Tagged(predecessors[..j + 1], thisDepth) == Tagged(predecessors[..j], thisDepth) + [(predecessors[j], thisDepth)];
        nodes' := nodes' + [(predecessors[j], thisDepth)];
      }
      assert predecessors[..|predecessors|] == predecessors;
    }

    /**
     * `get_node_dependencies`: read the worklist of (node, depth) entries,
     * appending each node's predecessors one level shallower, and return the
     * BFS distance map of the last node read; None for an empty start list.
     */
    static method GetNodeDependencies(graph: Digraph<N>, startNodes: seq<N>) returns (shortestPathLength: Option<seq<(N, nat)>>)
      requires graph.Valid() && graph.Acyclic()
      requires forall x :: x in startNodes ==> x in graph.nodes
      ensures startNodes == [] ==> shortestPathLength == None
      ensures startNodes != [] ==>
        && LastProcessed(graph, startNodes) in graph.nodes
        && shortestPathLength == Some(ShortestPathLength(graph, LastProcessed(graph, startNodes)))
    {
      var nodes := Tagged(startNodes, 0);
      shortestPathLength := None;
      WorklistStart(graph, startNodes);
      var i := 0;
      while i < |nodes|
        invariant 0 <= i <= |nodes|
        invariant forall k :: 0 <= k < |nodes| ==> nodes[k].0 in graph.nodes
        invariant ReadUpTo(graph, nodes, i, startNodes)
        invariant i == 0 ==> shortestPathLength == None
        invariant i > 0 ==> shortestPathLength == Some(ShortestPathLength(graph, nodes[i - 1].0))
        decreases Work(graph, Firsts(nodes[i..]))
      {
        var (node, depth) := nodes[i];
        shortestPathLength := Some(ShortestPathLength(graph, node));
        var thisDepth := depth - 1;
        var predecessors := graph.Predecessors(node);
        WorklistShrinks(graph, nodes, i, thisDepth);
        WorklistStep(graph, nodes, i, thisDepth, startNodes);
        AppendedInNodes(graph, nodes, node, thisDepth);
        nodes := AppendPredecessors(nodes, predecessors, thisDepth);
        i := i + 1;
      }
      if startNodes != [] {
        WorklistDone(graph, nodes, startNodes);
      }
    }

    /** `clean_dependencies`: the record of the last key whose value is 0, or None. */
    method CleanDependencies(dependencies: seq<(N, nat)>) returns (finalExecutionOrder: Option<PlanRecord<N>>)
      requires forall k :: 0 <= k < |dependencies| && dependencies[k].1 == 0 ==> dependencies[k].0 in graph.nodes
      ensures finalExecutionOrder == PlanOf(graph, LastZero(dependencies))
    {
      finalExecutionOrder := None;
      for k := 0 to |dependencies|
        invariant finalExecutionOrder == PlanOf(graph, LastZero(dependencies[..k]))
      {
        assert dependencies[..k + 1][..k] == dependencies[..k];
        var (node, order) := dependencies[k];
        if order == 0 {
          finalExecutionOrder := Some(PlanRecord(node, order, |GetSuccessors(node)|));
        }
      }
      assert dependencies[..|dependencies|] == dependencies;
    }

    /**
     * One turn of the component loop of `get_dependency_plan_order_zero`:
     * list the component's nodes, walk their dependencies and keep the
     * record of the last node reached.
     */
    method PlanComponent(comps: seq<set<N>>, i: nat) returns (weaklyDependencyPlan: Option<PlanRecord<N>>)
      requires Valid() && graph.Acyclic()
      requires comps == WeaklyConnectedComponents(graph) && i < |comps|
      ensures IsComponentPlan(graph, weaklyDependencyPlan, comps[i])
    {
      var startNodes := Elements(comps[i]);
      ComponentRecord(graph, comps, i, startNodes);
      var dependencies := GetNodeDependencies(graph, startNodes);
      weaklyDependencyPlan := CleanDependencies(dependencies.value);
    }

    /**
     * `get_dependency_plan_order_zero`: one record appended per weakly
     * connected component, in component order; the whole plan is returned.
     */
    method GetDependencyPlanOrderZero() returns (plan: seq<Option<PlanRecord<N>>>)
      requires Valid() && graph.Acyclic()
      modifies this
      ensures graph == old(graph) && edgeList == old(edgeList)
      ensures plan == dependencyPlan
      ensures |old(dependencyPlan)| <= |dependencyPlan| && dependencyPlan[..|old(dependencyPlan)|] == old(dependencyPlan)
      ensures PlanCovers(graph, dependencyPlan[|old(dependencyPlan)|..], WeaklyConnectedComponents(graph))
    {
      var tree := 0;
      var comps := WeaklyConnectedComponents(graph);
      ghost var base := |dependencyPlan|;
      assert dependencyPlan[base..] == [] && comps[..0] == [];
      for i := 0 to |comps|
        invariant tree == i
        invariant graph == old(graph) && edgeList == old(edgeList)
        invariant base <= |dependencyPlan| && dependencyPlan[..base] == old(dependencyPlan)
        invariant PlanCovers(graph, dependencyPlan[base..], comps[..i])
      {
        tree := tree + 1;
        var weaklyDependencyPlan := PlanComponent(comps, i);
        PlanExtends(graph, comps, dependencyPlan, base, i, weaklyDependencyPlan);
        dependencyPlan := dependencyPlan + [weaklyDependencyPlan];
      }
      assert comps[..|comps|] == comps;
      plan := dependencyPlan;
    }
  }
}
