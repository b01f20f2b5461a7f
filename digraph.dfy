/**
 * The directed graph that a DependencyPlan wraps (a networkx DiGraph), kept as
 * finite state: the nodes in insertion order and the edges in insertion order,
 * each stored once.  Only the primitives DependencyPlan calls are modelled:
 * adding nodes and edges, successors, predecessors, adjacency tests, degrees
 * and the edge and degree views.
 */
module Digraphs {

  /** No element occurs twice. */
  ghost predicate Distinct<T>(s: seq<T>) {
    forall i, j :: 0 <= i < j < |s| ==> s[i] != s[j]
  }

  lemma {:induction false} DistinctCardinality<T>(s: seq<T>)
    requires Distinct(s)
    ensures |set x | x in s| == |s|
  {
    if s != [] {
      DistinctCardinality(s[1..]);
      assert (set x | x in s) == {s[0]} + (set x | x in s[1..]);
      assert s[0] !in (set x | x in s[1..]);
    }
  }

  /** In a sequence without repeats, each member occurs exactly once. */
  lemma {:induction false} DistinctMultiplicity<T>(s: seq<T>)
    requires Distinct(s)
    ensures forall x :: multiset(s)[x] == if x in s then 1 else 0
  {
    if s != [] {
      DistinctMultiplicity(s[1..]);
      assert s == [s[0]] + s[1..];
      assert s[0] !in s[1..];
    }
  }

  /** Two sequences without repeats and with the same members are permutations of each other. */
  lemma DistinctSameMultiset<T>(a: seq<T>, b: seq<T>)
    requires Distinct(a) && Distinct(b)
    requires forall x :: x in a <==> x in b
    ensures multiset(a) == multiset(b)
  {
    DistinctMultiplicity(a);
    DistinctMultiplicity(b);
  }

  lemma DistinctConcat<T>(a: seq<T>, b: seq<T>)
    requires Distinct(a) && Distinct(b) && forall x :: x in a ==> x !in b
    ensures Distinct(a + b)
  {
    forall i, j | 0 <= i < j < |a + b|
      ensures (a + b)[i] != (a + b)[j]
    {
      if j >= |a| && i < |a| {
        assert (a + b)[i] in a && (a + b)[j] in b;
      }
    }
  }

  lemma {:induction false} SubsetCardinality<T>(a: set<T>, b: set<T>)
    requires a <= b
    ensures |a| <= |b|
    decreases a
  {
    if a != {} {
      var x :| x in a;
      SubsetCardinality(a - {x}, b - {x});
    }
  }

  lemma StrictSubsetCardinality<T>(a: set<T>, b: set<T>)
    requires a < b
    ensures |a| < |b|
  {
    assert b - a != {};
    var x :| x in b - a;
    SubsetCardinality(a, b - {x});
  }

  /** A prefix of a prefix is a prefix. */
  lemma PrefixOfPrefix<T>(a: seq<T>, b: seq<T>, c: seq<T>)
    requires |a| <= |b| <= |c| && c[..|b|] == b && b[..|a|] == a
    ensures c[..|a|] == a
  {
    assert c[..|a|] == c[..|b|][..|a|];
  }

  lemma ConsAppend<T>(a: seq<T>, s: seq<T>)
    requires s != []
    ensures a + [s[0]] + s[1..] == a + s
  {
    assert s == [s[0]] + s[1..];
  }

  lemma SnocAppend<T>(a: seq<T>, s: seq<T>)
    requires s != []
    ensures a + s[..|s| - 1] + [s[|s| - 1]] == a + s
  {
    assert s == s[..|s| - 1] + [s[|s| - 1]];
  }

  /** The nodes an edge list mentions. */
  function Endpoints<N(!new)>(es: seq<(N, N)>): set<N> {
    (set e | e in es :: e.0) + (set e | e in es :: e.1)
  }

  lemma EndpointsCons<N(!new)>(es: seq<(N, N)>)
    requires es != []
    ensures Endpoints(es) == {es[0].0, es[0].1} + Endpoints(es[1..])
    ensures (set f | f in es) == {es[0]} + (set f | f in es[1..])
  {
    assert es == [es[0]] + es[1..];
  }

  lemma EndpointsSnoc<N(!new)>(es: seq<(N, N)>, e: (N, N))
    ensures Endpoints(es + [e]) == Endpoints(es) + {e.0, e.1}
    ensures (set f | f in es + [e]) == (set f | f in es) + {e}
  {
  }

  /** Targets of the edges of `es` that leave `u`, in edge order. */
  function Targets<N(==, !new)>(es: seq<(N, N)>, u: N): (r: seq<N>)
    ensures forall v :: v in r <==> (u, v) in es
  {
    if es == [] then []
    else (if es[0].0 == u then [es[0].1] else []) + Targets(es[1..], u)
  }

  /** Over an edge list without repeats, each target occurs once. */
  lemma {:induction false} TargetsDistinct<N(!new)>(es: seq<(N, N)>, u: N)
    requires Distinct(es)
    ensures Distinct(Targets(es, u))
  {
    if es != [] {
      assert es[0] !in es[1..];
      TargetsDistinct(es[1..], u);
      DistinctConcat(if es[0].0 == u then [es[0].1] else [], Targets(es[1..], u));
    }
  }

  /** e occurs in es before f does. */
  ghost predicate EarlierEdge<N>(es: seq<(N, N)>, e: (N, N), f: (N, N)) {
    exists a, b :: 0 <= a < b < |es| && es[a] == e && es[b] == f
  }

  /** An order between two edges of the tail is an order in the whole list. */
  lemma EarlierInTail<N>(es: seq<(N, N)>, e: (N, N), f: (N, N))
    requires es != [] && EarlierEdge(es[1..], e, f)
    ensures EarlierEdge(es, e, f)
  {
    var a, b :| 0 <= a < b < |es[1..]| && es[1..][a] == e && es[1..][b] == f;
    assert es[a + 1] == e && es[b + 1] == f;
  }

  /** The head edge comes before every edge of the tail. */
  lemma EarlierThanTail<N>(es: seq<(N, N)>, f: (N, N))
    requires es != [] && f in es[1..]
    ensures EarlierEdge(es, es[0], f)
  {
    var b :| 0 <= b < |es[1..]| && es[1..][b] == f;
    assert es[b + 1] == f;
  }

  /** The targets of u in a concatenation: those of the first part, then those of the second. */
  lemma {:induction false} TargetsAppend<N(!new)>(a: seq<(N, N)>, b: seq<(N, N)>, u: N)
    ensures Targets(a + b, u) == Targets(a, u) + Targets(b, u)
    decreases |a|
  {
    if a == [] {
      assert a + b == b;
    } else {
      assert (a + b)[0] == a[0] && (a + b)[1..] == a[1..] + b;
      TargetsAppend(a[1..], b, u);
    }
  }

  /** No edge of es leaves u: u has no targets. */
  lemma {:induction false} TargetsNone<N(!new)>(es: seq<(N, N)>, u: N)
    requires forall i :: 0 <= i < |es| ==> es[i].0 != u
    ensures Targets(es, u) == []
  {
    if es != [] {
      TargetsNone(es[1..], u);
    }
  }

  /** Targets lists the targets of u in the order their edges occur. */
  lemma {:induction false} TargetsInOrder<N(!new)>(es: seq<(N, N)>, u: N)
    ensures forall i, j :: 0 <= i < j < |Targets(es, u)| ==>
              EarlierEdge(es, (u, Targets(es, u)[i]), (u, Targets(es, u)[j]))
  {
    if es != [] {
      TargetsInOrder(es[1..], u);
      var t, t' := Targets(es, u), Targets(es[1..], u);
      if es[0].0 == u {
        assert t == [es[0].1] + t';
        forall i, j | 0 <= i < j < |t|
          ensures EarlierEdge(es, (u, t[i]), (u, t[j]))
        {
          assert t[j] == t'[j - 1] && t'[j - 1] in t';
          if i > 0 {
            assert t[i] == t'[i - 1];
            EarlierInTail(es, (u, t[i]), (u, t[j]));
          } else {
            EarlierThanTail(es, (u, t[j]));
          }
        }
      } else {
        assert t == t';
        forall i, j | 0 <= i < j < |t|
          ensures EarlierEdge(es, (u, t[i]), (u, t[j]))
        {
          EarlierInTail(es, (u, t[i]), (u, t[j]));
        }
      }
    }
  }

  /** Sources of the edges of `es` that enter `v`, in edge order. */
  function Sources<N(==, !new)>(es: seq<(N, N)>, v: N): (r: seq<N>)
    ensures forall u :: u in r <==> (u, v) in es
  {
    if es == [] then []
    else (if es[0].1 == v then [es[0].0] else []) + Sources(es[1..], v)
  }

  /** Over an edge list without repeats, each source occurs once. */
  lemma {:induction false} SourcesDistinct<N(!new)>(es: seq<(N, N)>, v: N)
    requires Distinct(es)
    ensures Distinct(Sources(es, v))
  {
    if es != [] {
      assert es[0] !in es[1..];
      SourcesDistinct(es[1..], v);
      DistinctConcat(if es[0].1 == v then [es[0].0] else [], Sources(es[1..], v));
    }
  }

  /** The pairs (u, v) for the v of vs, in order. */
  function Pairs<N(!new)>(u: N, vs: seq<N>): (r: seq<(N, N)>)
    ensures forall e :: e in r <==> e.0 == u && e.1 in vs
  {
    if vs == [] then [] else [(u, vs[0])] + Pairs(u, vs[1..])
  }

  lemma {:induction false} PairsDistinct<N(!new)>(u: N, vs: seq<N>)
    requires Distinct(vs)
    ensures Distinct(Pairs(u, vs))
  {
    if vs != [] {
      assert vs[0] !in vs[1..];
      PairsDistinct(u, vs[1..]);
      DistinctConcat([(u, vs[0])], Pairs(u, vs[1..]));
    }
  }

  /** Number of edge ends of `es` at `n`; a self-loop meets `n` twice. */
  function Incidences<N(==, !new)>(es: seq<(N, N)>, n: N): nat {
    if es == [] then 0
    else (if es[0].0 == n then 1 else 0) + (if es[0].1 == n then 1 else 0) + Incidences(es[1..], n)
  }

  lemma {:induction false} IncidencesSplit<N(!new)>(es: seq<(N, N)>, n: N)
    ensures Incidences(es, n) == |Targets(es, n)| + |Sources(es, n)|
  {
    if es != [] {
      IncidencesSplit(es[1..], n);
    }
  }

  /** The endpoints of each edge of `es`, source then target, edge by edge. */
  function EndpointList<N>(es: seq<(N, N)>): (r: seq<N>)
    ensures |r| == 2 * |es|
  {
    if es == [] then [] else [es[0].0, es[0].1] + EndpointList(es[1..])
  }

  lemma EndpointListCons<N>(a: seq<N>, es: seq<(N, N)>)
    requires es != []
    ensures a + [es[0].0] + [es[0].1] + EndpointList(es[1..]) == a + EndpointList(es)
  {
  }

  /** e occurs in src before any occurrence of f. */
  ghost predicate FirstsBefore<T>(src: seq<T>, e: T, f: T) {
    exists a :: 0 <= a < |src| && src[a] == e && f !in src[..a]
  }

  /** r lists the elements of src once each, in the order of their first occurrence in src. */
  ghost predicate FirstOccurrences<T(!new)>(r: seq<T>, src: seq<T>) {
    && Distinct(r)
    && (forall x :: x in r <==> x in src)
    && (forall i, j :: 0 <= i < j < |r| ==> FirstsBefore(src, r[i], r[j]))
  }

  lemma FirstsBeforeExtend<T>(src: seq<T>, y: T, e: T, f: T)
    requires FirstsBefore(src, e, f)
    ensures FirstsBefore(src + [y], e, f)
  {
    var a :| 0 <= a < |src| && src[a] == e && f !in src[..a];
    assert (src + [y])[a] == e && (src + [y])[..a] == src[..a];
  }

  /** Appending x unless it is present keeps r the first occurrences of src + [x]. */
  lemma FirstOccurrencesInsert<T(!new)>(r: seq<T>, src: seq<T>, x: T)
    requires FirstOccurrences(r, src)
    ensures FirstOccurrences(if x in r then r else r + [x], src + [x])
  {
    var src' := src + [x];
    forall i, j | 0 <= i < j < |r|
      ensures FirstsBefore(src', r[i], r[j])
    {
      FirstsBeforeExtend(src, x, r[i], r[j]);
    }
    if x !in r {
      var r' := r + [x];
      forall i | 0 <= i < |r|
        ensures FirstsBefore(src', r[i], x)
      {
        assert r[i] in src;
        var a :| 0 <= a < |src| && src[a] == r[i];
        assert src'[a] == r[i] && src'[..a] == src[..a];
      }
      forall i, j | 0 <= i < j < |r'|
        ensures FirstsBefore(src', r'[i], r'[j])
      {
        assert r'[i] == r[i];
        if j < |r| {
          assert r'[j] == r[j];
        }
      }
      DistinctConcat(r, [x]);
    }
  }

  /** s with x appended unless it is present already. */
  function Insert<T(==)>(s: seq<T>, x: T): seq<T> {
    if x in s then s else s + [x]
  }

  /** The elements of src appended to acc one at a time, each unless present already. */
  function DedupInto<T(==)>(acc: seq<T>, src: seq<T>): seq<T>
    decreases |src|
  {
    if src == [] then acc else DedupInto(Insert(acc, src[0]), src[1..])
  }

  lemma {:induction false} DedupIntoSnoc<T>(acc: seq<T>, s: seq<T>, x: T)
    ensures DedupInto(acc, s + [x]) == Insert(DedupInto(acc, s), x)
    decreases |s|
  {
    if s == [] {
      assert [] + [x] == [x];
    } else {
      assert (s + [x])[0] == s[0] && (s + [x])[1..] == s[1..] + [x];
      DedupIntoSnoc(Insert(acc, s[0]), s[1..], x);
    }
  }

  lemma {:induction false} DedupIntoAppend<T>(acc: seq<T>, a: seq<T>, b: seq<T>)
    ensures DedupInto(acc, a + b) == DedupInto(DedupInto(acc, a), b)
    decreases |a|
  {
    if a == [] {
      assert a + b == b;
    } else {
      assert (a + b)[0] == a[0] && (a + b)[1..] == a[1..] + b;
      DedupIntoAppend(Insert(acc, a[0]), a[1..], b);
    }
  }

  /** Without repeats nothing is dropped: every element of src is appended. */
  lemma {:induction false} DedupIntoFresh<T>(acc: seq<T>, src: seq<T>)
    requires Distinct(acc + src)
    ensures DedupInto(acc, src) == acc + src
    decreases |src|
  {
    if src != [] {
      assert src[0] == (acc + src)[|acc|];
      assert src[0] !in acc by {
        forall i | 0 <= i < |acc|
          ensures acc[i] != src[0]
        {
          assert acc[i] == (acc + src)[i];
        }
      }
      assert Insert(acc, src[0]) + src[1..] == acc + src;
      DedupIntoFresh(Insert(acc, src[0]), src[1..]);
    }
  }

  /** Elements already present add nothing. */
  lemma {:induction false} DedupIntoSeen<T>(acc: seq<T>, src: seq<T>)
    requires forall i :: 0 <= i < |src| ==> src[i] in acc
    ensures DedupInto(acc, src) == acc
    decreases |src|
  {
    if src != [] {
      DedupIntoSeen(acc, src[1..]);
    }
  }

  /** DedupInto keeps first-occurrence order: it lists A + src's elements once each, as they first occur. */
  lemma {:induction false} DedupIntoOrder<T(!new)>(acc: seq<T>, A: seq<T>, src: seq<T>)
    requires FirstOccurrences(acc, A)
    ensures FirstOccurrences(DedupInto(acc, src), A + src)
    decreases |src|
  {
    if src == [] {
      assert A + src == A;
    } else {
      FirstOccurrencesInsert(acc, A, src[0]);
      DedupIntoOrder(Insert(acc, src[0]), A + [src[0]], src[1..]);
      ConsAppend(A, src);
    }
  }

  datatype Digraph<N(==, !new)> = Digraph(nodes: seq<N>, edges: seq<(N, N)>)
  {
    /** The DiGraph invariant: nodes and edges stored once, every edge between nodes. */
    ghost predicate Valid() {
      Distinct(nodes) && Distinct(edges) && EdgesInNodes()
    }

    ghost predicate EdgesInNodes() {
      forall e :: e in edges ==> e.0 in nodes && e.1 in nodes
    }

    function NodeSet(): set<N> {
      set x | x in nodes
    }

    function EdgeSet(): set<(N, N)> {
      set e | e in edges
    }

    /** `add_node`: a node not yet present is appended; a present one changes nothing. */
    function AddNode(n: N): (g: Digraph<N>)
      ensures g.NodeSet() == NodeSet() + {n}
      ensures g.edges == edges
      ensures |nodes| <= |g.nodes| && g.nodes[..|nodes|] == nodes
      ensures Valid() ==> g.Valid()
    {
      if n in nodes then this else Digraph(nodes + [n], edges)
    }

    /** `add_edge`: both endpoints are added as nodes (u first), the edge once. */
    function AddEdge(u: N, v: N): (g: Digraph<N>)
      ensures g.NodeSet() == NodeSet() + {u, v}
      ensures g.EdgeSet() == EdgeSet() + {(u, v)}
      ensures |nodes| <= |g.nodes| && g.nodes[..|nodes|] == nodes
      ensures |edges| <= |g.edges| && g.edges[..|edges|] == edges
      ensures Valid() ==> g.Valid()
    {
      var withEnds := AddNode(u).AddNode(v);
      Digraph(withEnds.nodes, if (u, v) in edges then edges else edges + [(u, v)])
    }

    /** `add_edges_from`: the edges of `es` in order. */
    function AddEdgesFrom(es: seq<(N, N)>): (g: Digraph<N>)
      ensures g.NodeSet() == NodeSet() + Endpoints(es)
      ensures g.EdgeSet() == EdgeSet() + set e | e in es
      ensures Valid() ==> g.Valid()
      decreases |es|
    {
      if es == [] then this
      else
        EndpointsCons(es);
        var first := AddEdge(es[0].0, es[0].1);
        first.AddEdgesFrom(es[1..])
    }

    /** Adding edges keeps the existing nodes and edges, in order, as prefixes. */
    lemma {:induction false} AddEdgesFromExtends(es: seq<(N, N)>)
      ensures |nodes| <= |AddEdgesFrom(es).nodes| && AddEdgesFrom(es).nodes[..|nodes|] == nodes
      ensures |edges| <= |AddEdgesFrom(es).edges| && AddEdgesFrom(es).edges[..|edges|] == edges
      decreases |es|
    {
      if es != [] {
        var first := AddEdge(es[0].0, es[0].1);
        first.AddEdgesFromExtends(es[1..]);
        var g := first.AddEdgesFrom(es[1..]);
        PrefixOfPrefix(nodes, first.nodes, g.nodes);
        PrefixOfPrefix(edges, first.edges, g.edges);
      }
    }

    /** One `add_node` per element of `ns`, in order. */
    function AddNodes(ns: seq<N>): (g: Digraph<N>)
      ensures g.NodeSet() == NodeSet() + set n | n in ns
      ensures g.edges == edges
      ensures |nodes| <= |g.nodes| && g.nodes[..|nodes|] == nodes
      ensures Valid() ==> g.Valid()
      decreases |ns|
    {
      if ns == [] then this
      else
        assert ns == ns[..|ns| - 1] + [ns[|ns| - 1]];
        AddNodes(ns[..|ns| - 1]).AddNode(ns[|ns| - 1])
    }

    /**
     * Adding the edges of `es` keeps both sequences in first-occurrence order:
     * the edges of `E + es`, and the nodes of `V` then of every endpoint of `es`.
     */
    lemma {:induction false} AddEdgesFromOrder(es: seq<(N, N)>, E: seq<(N, N)>, V: seq<N>)
      requires FirstOccurrences(edges, E) && FirstOccurrences(nodes, V)
      ensures FirstOccurrences(AddEdgesFrom(es).edges, E + es)
      ensures FirstOccurrences(AddEdgesFrom(es).nodes, V + EndpointList(es))
      decreases |es|
    {
      if es == [] {
        assert E + es == E && V + EndpointList(es) == V;
      } else {
        var u, v := es[0].0, es[0].1;
        var withU := AddNode(u);
        var first := AddEdge(u, v);
        FirstOccurrencesInsert(edges, E, (u, v));
        FirstOccurrencesInsert(nodes, V, u);
        FirstOccurrencesInsert(withU.nodes, V + [u], v);
        assert first.edges == if (u, v) in edges then edges else edges + [(u, v)];
        assert first.nodes == if v in withU.nodes then withU.nodes else withU.nodes + [v];
        first.AddEdgesFromOrder(es[1..], E + [es[0]], V + [u] + [v]);
        ConsAppend(E, es);
        EndpointListCons(V, es);
      }
    }

    /** Adding edges is deduplicating their endpoints into the nodes and the pairs into the edges. */
    lemma {:induction false} AddEdgesFromDedup(es: seq<(N, N)>)
      ensures AddEdgesFrom(es) == Digraph(DedupInto(nodes, EndpointList(es)), DedupInto(edges, es))
      decreases |es|
    {
      if es != [] {
        var u, v := es[0].0, es[0].1;
        var first := AddEdge(u, v);
        assert first == Digraph(Insert(Insert(nodes, u), v), Insert(edges, (u, v)));
        first.AddEdgesFromDedup(es[1..]);
        var ends := EndpointList(es);
        assert ends[0] == u && ends[1..][0] == v && ends[1..][1..] == EndpointList(es[1..]);
      }
    }

    /** Adding nodes is deduplicating them into the node list. */
    lemma {:induction false} AddNodesDedup(ns: seq<N>)
      ensures AddNodes(ns) == Digraph(DedupInto(nodes, ns), edges)
      decreases |ns|
    {
      if ns != [] {
        var init, last := ns[..|ns| - 1], ns[|ns| - 1];
        AddNodesDedup(init);
        var h := AddNodes(init);
        assert AddNodes(ns) == h.AddNode(last);
        assert h.AddNode(last) == Digraph(Insert(h.nodes, last), h.edges);
        DedupIntoSnoc(nodes, init, last);
        SnocAppend([], ns);
        assert [] + init + [last] == ns;
      }
    }

    /** Adding the nodes of `ns` keeps the nodes the first occurrences of `V + ns`. */
    lemma {:induction false} AddNodesOrder(ns: seq<N>, V: seq<N>)
      requires FirstOccurrences(nodes, V)
      ensures FirstOccurrences(AddNodes(ns).nodes, V + ns)
      decreases |ns|
    {
      if ns == [] {
        assert V + ns == V;
      } else {
        var init, last := ns[..|ns| - 1], ns[|ns| - 1];
        AddNodesOrder(init, V);
        var h := AddNodes(init);
        FirstOccurrencesInsert(h.nodes, V + init, last);
        assert h.AddNode(last).nodes == if last in h.nodes then h.nodes else h.nodes + [last];
        SnocAppend(V, ns);
      }
    }

    /** `successors(u)`: the targets of u's out-edges, in edge-insertion order. */
    function Successors(u: N): seq<N> {
      Targets(edges, u)
    }

    /** `predecessors(v)`: the sources of v's in-edges, in edge-insertion order. */
    function Predecessors(v: N): seq<N> {
      Sources(edges, v)
    }

    /** `has_successor(u, v)`: a direct edge u -> v. */
    predicate HasSuccessor(u: N, v: N) {
      (u, v) in edges
    }

    /** `has_predecessor(u, v)`: a direct edge v -> u. */
    predicate HasPredecessor(u: N, v: N) {
      (v, u) in edges
    }

    function OutDegree(n: N): nat {
      |Successors(n)|
    }

    function InDegree(n: N): nat {
      |Predecessors(n)|
    }

    /** `degree(n)`: the number of edge ends at n. */
    function Degree(n: N): nat {
      Incidences(edges, n)
    }

    lemma DegreeIsInPlusOut(n: N)
      ensures Degree(n) == InDegree(n) + OutDegree(n)
    {
      IncidencesSplit(edges, n);
    }

    lemma DegreeIsInPlusOutEverywhere()
      ensures forall n :: Degree(n) == InDegree(n) + OutDegree(n)
    {
      forall n {
        DegreeIsInPlusOut(n);
      }
    }

    /** `degree()` over all nodes, in node order. */
    function DegreeView(): (r: seq<(N, nat)>)
      ensures |r| == |nodes|
      ensures forall i :: 0 <= i < |r| ==>
                r[i].0 == nodes[i] && r[i].1 == InDegree(nodes[i]) + OutDegree(nodes[i])
    {
      DegreeIsInPlusOutEverywhere();
      seq(|nodes|, i requires 0 <= i < |nodes| => (nodes[i], Degree(nodes[i])))
    }

    /** `edges()`: the out-edges of each node in node order, each in successor order. */
    function EdgeView(): seq<(N, N)> {
      OutEdges(nodes)
    }

    function OutEdges(ns: seq<N>): (r: seq<(N, N)>)
      ensures forall e :: e in r <==> e.0 in ns && e in edges
    {
      if ns == [] then [] else Pairs(ns[0], Successors(ns[0])) + OutEdges(ns[1..])
    }

    lemma {:induction false} OutEdgesDistinct(ns: seq<N>)
      requires Distinct(ns) && Distinct(edges)
      ensures Distinct(OutEdges(ns))
    {
      if ns != [] {
        OutEdgesDistinct(ns[1..]);
        TargetsDistinct(edges, ns[0]);
        PairsDistinct(ns[0], Successors(ns[0]));
        assert ns[0] !in ns[1..];
        DistinctConcat(Pairs(ns[0], Successors(ns[0])), OutEdges(ns[1..]));
      }
    }

    /** The edge view lists every edge exactly once. */
    lemma EdgeViewIsEdges()
      requires Valid()
      ensures (set e | e in EdgeView()) == EdgeSet()
      ensures Distinct(EdgeView()) && |EdgeView()| == |edges|
    {
      OutEdgesDistinct(nodes);
      DistinctCardinality(EdgeView());
      DistinctCardinality(edges);
    }

    /** Over a valid graph the successor list has no repeats, so its set has OutDegree members. */
    lemma SuccessorSetSize(u: N)
      requires Valid()
      ensures Distinct(Successors(u)) && |set v | v in Successors(u)| == OutDegree(u)
    {
      TargetsDistinct(edges, u);
      DistinctCardinality(Successors(u));
    }

    lemma PredecessorSetSize(v: N)
      requires Valid()
      ensures Distinct(Predecessors(v)) && |set u | u in Predecessors(v)| == InDegree(v)
    {
      SourcesDistinct(edges, v);
      DistinctCardinality(Predecessors(v));
    }

    // Acyclicity, stated as the existence of a topological numbering.

    /** `rank` numbers the nodes below |nodes| so that every edge climbs. */
    ghost predicate IsTopologicalRank(rank: map<N, nat>) {
      && (forall n :: n in nodes ==> n in rank && rank[n] < |nodes|)
      && (forall e :: e in edges ==> e.0 in rank && e.1 in rank && rank[e.0] < rank[e.1])
    }

    ghost predicate Acyclic() {
      exists rank :: IsTopologicalRank(rank)
    }

    ghost function Rank(): (rank: map<N, nat>)
      requires Acyclic()
      ensures IsTopologicalRank(rank)
    {
      var rank :| IsTopologicalRank(rank); rank
    }

    ghost function RankOf(n: N): nat
      requires Acyclic()
    {
      if n in Rank() then Rank()[n] else 0
    }

    lemma EdgeClimbs(u: N, v: N)
      requires Acyclic() && (u, v) in edges
      ensures RankOf(u) < RankOf(v)
    {
    }

    /** Predecessors rank below a node and successors above it. */
    lemma NeighboursClimb(v: N)
      requires Acyclic()
      ensures forall u :: u in Predecessors(v) ==> RankOf(u) < RankOf(v)
      ensures forall w :: w in Successors(v) ==> RankOf(v) < RankOf(w)
    {
      forall u | u in Predecessors(v)
        ensures RankOf(u) < RankOf(v)
      {
        EdgeClimbs(u, v);
      }
      forall w | w in Successors(v)
        ensures RankOf(v) < RankOf(w)
      {
        EdgeClimbs(v, w);
      }
    }

    // Directed walks.

    /** p is a walk along edges (a single node is a walk of length 0). */
    ghost predicate IsWalk(p: seq<N>) {
      |p| >= 1 && forall i :: 0 < i < |p| ==> (p[i - 1], p[i]) in edges
    }

    ghost predicate Reaches(u: N, v: N) {
      exists p :: IsWalk(p) && p[0] == u && p[|p| - 1] == v
    }

    lemma ReachesItself(u: N)
      ensures Reaches(u, u)
    {
      assert IsWalk([u]);
    }

    /** A walk can be extended by an edge at its end. */
    lemma ReachesThenEdge(u: N, v: N, w: N)
      requires Reaches(u, v) && (v, w) in edges
      ensures Reaches(u, w)
    {
      var p :| IsWalk(p) && p[0] == u && p[|p| - 1] == v;
      var q := p + [w];
      forall i | 0 < i < |q|
        ensures (q[i - 1], q[i]) in edges
      {
        if i < |p| {
          assert q[i - 1] == p[i - 1] && q[i] == p[i];
        }
      }
      assert IsWalk(q) && q[0] == u && q[|q| - 1] == w;
    }

    /** A walk can be extended by an edge at its start. */
    lemma EdgeThenReaches(u: N, v: N, w: N)
      requires (u, v) in edges && Reaches(v, w)
      ensures Reaches(u, w)
    {
      var p :| IsWalk(p) && p[0] == v && p[|p| - 1] == w;
      var q := [u] + p;
      forall i | 0 < i < |q|
        ensures (q[i - 1], q[i]) in edges
      {
        if i > 1 {
          assert q[i - 1] == p[i - 2] && q[i] == p[i - 1];
        }
      }
      assert IsWalk(q) && q[0] == u && q[|q| - 1] == w;
    }
  }
}
