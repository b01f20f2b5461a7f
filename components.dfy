/**
 * networkx's `weakly_connected_components`: edges are taken as undirected, and
 * the components are produced in the order of their first node in node order.
 * A component is the least set containing its seed that no edge crosses.
 */
module WeakComponents {

  import opened Digraphs

  /** No edge has exactly one endpoint in S. */
  ghost predicate Closed<N(!new)>(g: Digraph<N>, S: set<N>) {
    forall e :: e in g.edges ==> (e.0 in S <==> e.1 in S)
  }

  /** S and every node one edge away from S (either direction). */
  function Expand<N(==, !new)>(g: Digraph<N>, S: set<N>): (r: set<N>)
    ensures S <= r
    ensures forall e :: e in g.edges && (e.0 in S || e.1 in S) ==> e.0 in r && e.1 in r
    ensures forall T :: S <= T && Closed(g, T) ==> r <= T
  {
    S + (set e | e in g.edges && e.0 in S :: e.1) + (set e | e in g.edges && e.1 in S :: e.0)
  }

  /** The least superset of S that no edge crosses. */
  function Closure<N(==, !new)>(g: Digraph<N>, S: set<N>): (r: set<N>)
    requires g.Valid() && S <= g.NodeSet()
    ensures S <= r <= g.NodeSet()
    ensures Closed(g, r)
    ensures forall T :: S <= T && Closed(g, T) ==> r <= T
    decreases |g.NodeSet() - S|
  {
    var bigger := Expand(g, S);
    if bigger == S then S
    else
      StrictSubsetCardinality(g.NodeSet() - bigger, g.NodeSet() - S);
      Closure(g, bigger)
  }

  /** The weakly connected component of v. */
  function Component<N(==, !new)>(g: Digraph<N>, v: N): set<N>
    requires g.Valid() && v in g.nodes
  {
    Closure(g, {v})
  }

  /** `weakly_connected_components(G)`, in networkx's order. */
  function WeaklyConnectedComponents<N(==, !new)>(g: Digraph<N>): seq<set<N>>
    requires g.Valid()
  {
    ComponentsFrom(g, g.nodes, {})
  }

  /** One component per node of `rest` not yet `seen`, in order. */
  function ComponentsFrom<N(==, !new)>(g: Digraph<N>, rest: seq<N>, seen: set<N>): seq<set<N>>
    requires g.Valid() && forall x :: x in rest ==> x in g.nodes
  {
    if rest == [] then []
    else if rest[0] in seen then ComponentsFrom(g, rest[1..], seen)
    else
      var c := Component(g, rest[0]);
      [c] + ComponentsFrom(g, rest[1..], seen + c)
  }

  function Union<N>(cs: seq<set<N>>): set<N> {
    if cs == [] then {} else cs[0] + Union(cs[1..])
  }

  lemma {:induction false} UnionMembers<N>(cs: seq<set<N>>, x: N)
    ensures x in Union(cs) <==> exists i :: 0 <= i < |cs| && x in cs[i]
  {
    if cs != [] {
      UnionMembers(cs[1..], x);
      if x in cs[0] {
        assert x in cs[0];
      } else if x in Union(cs[1..]) {
        var i :| 0 <= i < |cs[1..]| && x in cs[1..][i];
        assert x in cs[i + 1];
      }
    }
  }

  /** The sets are non-empty, pairwise disjoint and each is closed. */
  ghost predicate DisjointClosedParts<N(!new)>(g: Digraph<N>, cs: seq<set<N>>) {
    && (forall i :: 0 <= i < |cs| ==> cs[i] != {} && cs[i] <= g.NodeSet() && Closed(g, cs[i]))
    && (forall i, j :: 0 <= i < j < |cs| ==> cs[i] !! cs[j])
  }

  /** The nodes outside a closed set form a closed set. */
  lemma ComplementClosed<N(!new)>(g: Digraph<N>, S: set<N>)
    requires g.Valid() && Closed(g, S)
    ensures Closed(g, g.NodeSet() - S)
  {
  }

  lemma {:induction false} ComponentsFromPartition<N(!new)>(g: Digraph<N>, rest: seq<N>, seen: set<N>)
    requires g.Valid() && forall x :: x in rest ==> x in g.nodes
    requires seen <= g.NodeSet() && Closed(g, seen)
    ensures var cs := ComponentsFrom(g, rest, seen);
      && DisjointClosedParts(g, cs)
      && (forall i :: 0 <= i < |cs| ==> cs[i] !! seen)
      && (forall x :: x in rest ==> x in seen || x in Union(cs))
    decreases |rest|
  {
    if rest != [] {
      if rest[0] in seen {
        ComponentsFromPartition(g, rest[1..], seen);
      } else {
        var c := Component(g, rest[0]);
        ComplementClosed(g, seen);
        assert c <= g.NodeSet() - seen;
        ComponentsFromPartition(g, rest[1..], seen + c);
        var tail := ComponentsFrom(g, rest[1..], seen + c);
        var cs := [c] + tail;
        assert cs == ComponentsFrom(g, rest, seen);
        forall i | 0 <= i < |cs|
          ensures cs[i] != {} && cs[i] <= g.NodeSet() && Closed(g, cs[i]) && cs[i] !! seen
        {
          if i > 0 {
            assert cs[i] == tail[i - 1];
          }
        }
        forall i, j | 0 <= i < j < |cs|
          ensures cs[i] !! cs[j]
        {
          assert cs[j] == tail[j - 1];
          if i > 0 {
            assert cs[i] == tail[i - 1];
          }
        }
        forall x | x in rest
          ensures x in seen || x in Union(cs)
        {
        }
      }
    }
  }

  /** Each set is the weakly connected component of each of its members. */
  ghost predicate PartsAreComponents<N(!new)>(g: Digraph<N>, cs: seq<set<N>>)
    requires g.Valid()
  {
    forall i, x :: 0 <= i < |cs| && x in cs[i] ==> x in g.nodes && cs[i] == Component(g, x)
  }

  /** Each part ComponentsFrom produces is the component of each of its members. */
  lemma {:induction false} ComponentsFromAreComponents<N(!new)>(g: Digraph<N>, rest: seq<N>, seen: set<N>)
    requires g.Valid() && forall x :: x in rest ==> x in g.nodes
    ensures PartsAreComponents(g, ComponentsFrom(g, rest, seen))
    decreases |rest|
  {
    if rest != [] {
      if rest[0] in seen {
        ComponentsFromAreComponents(g, rest[1..], seen);
      } else {
        var c := Component(g, rest[0]);
        ComponentsFromAreComponents(g, rest[1..], seen + c);
        var tail := ComponentsFrom(g, rest[1..], seen + c);
        var cs := [c] + tail;
        assert cs == ComponentsFrom(g, rest, seen);
        forall i, x | 0 <= i < |cs| && x in cs[i]
          ensures x in g.nodes && cs[i] == Component(g, x)
        {
          if i == 0 {
            ComponentOfMember(g, rest[0], x);
          } else {
            assert cs[i] == tail[i - 1];
          }
        }
      }
    }
  }

  /**
   * networkx's order: part i holds a node of `nodes` before which every node
   * is in `seen` or in parts 0 to i-1, that is the first node outside them.
   */
  ghost predicate SeededInOrder<N(!new)>(nodes: seq<N>, seen: set<N>, cs: seq<set<N>>) {
    forall i :: 0 <= i < |cs| ==>
      exists k :: 0 <= k < |nodes| && nodes[k] in cs[i] && forall k' :: 0 <= k' < k ==> nodes[k'] in seen + Union(cs[..i])
  }

  lemma UnionCons<N>(c: set<N>, tail: seq<set<N>>, i: nat)
    requires 0 < i <= |tail| + 1
    ensures Union(([c] + tail)[..i]) == c + Union(tail[..i - 1])
  {
    var cs := [c] + tail;
    assert cs[..i][0] == c && cs[..i][1..] == tail[..i - 1];
  }

  /** Reading g.nodes from position m, with every earlier node seen, yields the parts in networkx's order. */
  lemma {:induction false} ComponentsFromSeeds<N(!new)>(g: Digraph<N>, m: nat, seen: set<N>)
    requires g.Valid() && m <= |g.nodes|
    requires forall k :: 0 <= k < m ==> g.nodes[k] in seen
    ensures SeededInOrder(g.nodes, seen, ComponentsFrom(g, g.nodes[m..], seen))
    decreases |g.nodes| - m
  {
    if m < |g.nodes| {
      var rest := g.nodes[m..];
      assert rest[0] == g.nodes[m] && rest[1..] == g.nodes[m + 1..];
      var v := g.nodes[m];
      if v in seen {
        ComponentsFromSeeds(g, m + 1, seen);
      } else {
        var c := Component(g, v);
        var seen' := seen + c;
        ComponentsFromSeeds(g, m + 1, seen');
        var tail := ComponentsFrom(g, g.nodes[m + 1..], seen');
        var cs := [c] + tail;
        assert cs == ComponentsFrom(g, rest, seen);
        forall i | 0 <= i < |cs|
          ensures exists k :: 0 <= k < |g.nodes| && g.nodes[k] in cs[i]
                    && forall k' :: 0 <= k' < k ==> g.nodes[k'] in seen + Union(cs[..i])
        {
          if i == 0 {
            assert g.nodes[m] in cs[0];
          } else {
            assert cs[i] == tail[i - 1];
            var k :| 0 <= k < |g.nodes| && g.nodes[k] in tail[i - 1]
                     && forall k' :: 0 <= k' < k ==> g.nodes[k'] in seen' + Union(tail[..i - 1]);
            UnionCons(c, tail, i);
            assert g.nodes[k] in cs[i];
          }
        }
      }
    }
  }

  /**
   * The components partition the node set: each is non-empty and closed, no
   * two share a node, and together they hold every node.  Each part is the
   * weakly connected component of each of its members, and part i is the
   * component of the first node (in node order) outside parts 0 to i-1.
   */
  lemma ComponentsPartition<N(!new)>(g: Digraph<N>)
    requires g.Valid()
    ensures var cs := WeaklyConnectedComponents(g);
      && DisjointClosedParts(g, cs)
      && Union(cs) == g.NodeSet()
      && PartsAreComponents(g, cs)
      && SeededInOrder(g.nodes, {}, cs)
  {
    var cs := WeaklyConnectedComponents(g);
    ComponentsFromAreComponents(g, g.nodes, {});
    ComponentsFromSeeds(g, 0, {});
    assert g.nodes[0..] == g.nodes;
    ComponentsFromPartition(g, g.nodes, {});
    forall x | x in Union(cs)
      ensures x in g.NodeSet()
    {
      UnionMembers(cs, x);
    }
  }

  /**
   * Weak connectivity is an equivalence: every member of a component has that
   * same component.
   */
  lemma ComponentOfMember<N(!new)>(g: Digraph<N>, v: N, x: N)
    requires g.Valid() && v in g.nodes && x in Component(g, v)
    ensures x in g.nodes && Component(g, x) == Component(g, v)
  {
    var cv, cx := Component(g, v), Component(g, x);
    assert cx <= cv;
    ComplementClosed(g, cx);
  }

  /** Disjoint non-empty parts are no more numerous than the nodes they cover. */
  lemma {:induction false} PartsCount<N(!new)>(g: Digraph<N>, cs: seq<set<N>>)
    requires DisjointClosedParts(g, cs)
    ensures |cs| <= |Union(cs)|
  {
    if cs != [] {
      var tail := cs[1..];
      assert forall i :: 0 <= i < |tail| ==> tail[i] == cs[i + 1];
      PartsCount(g, tail);
      forall x | x in cs[0]
        ensures x !in Union(tail)
      {
        UnionMembers(tail, x);
      }
      assert |Union(cs)| == |cs[0]| + |Union(tail)|;
    }
  }

  /** There are at most as many components as nodes, and at least one when there is a node. */
  lemma ComponentCount<N(!new)>(g: Digraph<N>)
    requires g.Valid()
    ensures |WeaklyConnectedComponents(g)| <= |g.nodes|
    ensures g.nodes != [] ==> |WeaklyConnectedComponents(g)| >= 1
  {
    var cs := WeaklyConnectedComponents(g);
    ComponentsPartition(g);
    PartsCount(g, cs);
    DistinctCardinality(g.nodes);
    if g.nodes != [] {
      assert g.nodes[0] in Union(cs);
    }
  }

  /** Every node of a walk that starts in a closed set lies in that set. */
  lemma {:induction false} WalkInClosed<N(!new)>(g: Digraph<N>, S: set<N>, p: seq<N>, i: nat)
    requires Closed(g, S) && g.IsWalk(p) && p[0] in S && i < |p|
    ensures p[i] in S
    decreases i
  {
    if i > 0 {
      WalkInClosed(g, S, p, i - 1);
      assert (p[i - 1], p[i]) in g.edges;
    }
  }

  /** Nothing outside a closed set is reachable from inside it: reachability stays within a component. */
  lemma ReachesWithinClosed<N(!new)>(g: Digraph<N>, S: set<N>, u: N, v: N)
    requires Closed(g, S) && u in S && g.Reaches(u, v)
    ensures v in S
  {
    var p :| g.IsWalk(p) && p[0] == u && p[|p| - 1] == v;
    WalkInClosed(g, S, p, |p| - 1);
  }

  /**
   * A closed set is the component of its first listed member when every other
   * member is joined by an edge, in either direction, to a member listed
   * earlier (parent[i] < i names it).
   */
  lemma ComponentOfSpanning<N(!new)>(g: Digraph<N>, order: seq<N>, parent: seq<nat>)
    requires g.Valid() && order != [] && order[0] in g.nodes
    requires |parent| == |order|
    requires forall i :: 0 < i < |order| ==>
               parent[i] < i &&
               ((order[parent[i]], order[i]) in g.edges || (order[i], order[parent[i]]) in g.edges)
    requires Closed(g, set x | x in order)
    ensures Component(g, order[0]) == set x | x in order
  {
    var c := Component(g, order[0]);
    forall i | 0 <= i < |order|
      ensures order[i] in c
    {
      SpanningInClosed(g, c, order, parent, i);
    }
  }

  lemma {:induction false} SpanningInClosed<N(!new)>(g: Digraph<N>, S: set<N>, order: seq<N>, parent: seq<nat>, i: nat)
    requires Closed(g, S) && order != [] && order[0] in S && |parent| == |order|
    requires forall i :: 0 < i < |order| ==>
               parent[i] < i &&
               ((order[parent[i]], order[i]) in g.edges || (order[i], order[parent[i]]) in g.edges)
    requires i < |order|
    ensures order[i] in S
    decreases i
  {
    if i > 0 {
      SpanningInClosed(g, S, order, parent, parent[i]);
    }
  }

  /** The union of the first i + 1 parts adds part i to that of the first i. */
  lemma {:induction false} UnionPrefix<N>(cs: seq<set<N>>, i: nat)
    requires i < |cs|
    ensures Union(cs[..i + 1]) == Union(cs[..i]) + cs[i]
    decreases i
  {
    if i == 0 {
      assert cs[..1][0] == cs[0] && cs[..1][1..] == [] && cs[..0] == [];
    } else {
      UnionPrefix(cs[1..], i - 1);
      assert cs == [cs[0]] + cs[1..];
      UnionCons(cs[0], cs[1..], i + 1);
      UnionCons(cs[0], cs[1..], i);
      assert cs[1..][i - 1] == cs[i];
    }
  }

  lemma InPrefixUnion<N>(cs: seq<set<N>>, i: nat, p: nat, x: N)
    requires p < i <= |cs| && x in cs[p]
    ensures x in Union(cs[..i])
  {
    UnionMembers(cs[..i], x);
    assert cs[..i][p] == cs[p];
  }

  /** A member of a later part lies in none of the earlier ones. */
  lemma NotInPrefixUnion<N(!new)>(g: Digraph<N>, cs: seq<set<N>>, i: nat, p: nat, x: N)
    requires DisjointClosedParts(g, cs) && i <= p < |cs| && x in cs[p]
    ensures x !in Union(cs[..i])
  {
    UnionMembers(cs[..i], x);
    forall j | 0 <= j < i
      ensures x !in cs[..i][j]
    {
      assert cs[..i][j] == cs[j];
    }
  }

  /**
   * networkx's order: component i is the component of the first node, in
   * node order, that components 0 to i-1 do not contain.
   */
  lemma ComponentsNext<N(!new)>(g: Digraph<N>, i: nat, k: nat)
    requires g.Valid() && k < |g.nodes| && i <= |WeaklyConnectedComponents(g)|
    requires forall j :: 0 <= j < k ==> g.nodes[j] in Union(WeaklyConnectedComponents(g)[..i])
    requires g.nodes[k] !in Union(WeaklyConnectedComponents(g)[..i])
    ensures i < |WeaklyConnectedComponents(g)|
    ensures WeaklyConnectedComponents(g)[i] == Component(g, g.nodes[k])
  {
    var cs := WeaklyConnectedComponents(g);
    ComponentsPartition(g);
    var x := g.nodes[k];
    assert x in Union(cs);
    UnionMembers(cs, x);
    var p :| 0 <= p < |cs| && x in cs[p];
    if p < i {
      InPrefixUnion(cs, i, p, x);
      assert false;
    }
    var k' :| 0 <= k' < |g.nodes| && g.nodes[k'] in cs[i] && forall k'' :: 0 <= k'' < k' ==> g.nodes[k''] in {} + Union(cs[..i]);
    if k < k' {
      assert false;
    }
    if k' < k {
      NotInPrefixUnion(g, cs, i, i, g.nodes[k']);
      assert false;
    }
  }

  /** Once components 0 to i-1 hold every node, there are no more. */
  lemma ComponentsEnd<N(!new)>(g: Digraph<N>, i: nat)
    requires g.Valid() && i <= |WeaklyConnectedComponents(g)|
    requires forall j :: 0 <= j < |g.nodes| ==> g.nodes[j] in Union(WeaklyConnectedComponents(g)[..i])
    ensures |WeaklyConnectedComponents(g)| == i
  {
    var cs := WeaklyConnectedComponents(g);
    ComponentsPartition(g);
    if i < |cs| {
      var y :| y in cs[i];
      NotInPrefixUnion(g, cs, i, i, y);
      assert false;
    }
  }
}
