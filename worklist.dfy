/**
 * The worklist of `DependencyPlan.get_node_dependencies`: a list that is read
 * front to back while the predecessors of every entry read are appended to its
 * end.  On an acyclic graph the list is finite; `Process` is the order in which
 * its entries are read, and `Work` counts them in advance.
 */
module Worklists {

  import opened Digraphs

  /**
   * The number of backward walks that end at v, the trivial one included: the
   * entries that reading v eventually puts on the list, v itself counted.
   */
  ghost function PathCount<N(!new)>(g: Digraph<N>, v: N): nat
    requires g.Acyclic()
    decreases g.RankOf(v), 1, 0
  {
    g.NeighboursClimb(v);
    1 + PredCount(g, g.Predecessors(v), g.RankOf(v))
  }

  /** PathCount summed over `ps`, whose entries all rank below `bound`. */
  ghost function PredCount<N(!new)>(g: Digraph<N>, ps: seq<N>, bound: nat): nat
    requires g.Acyclic() && forall p :: p in ps ==> g.RankOf(p) < bound
    decreases bound, 0, |ps|
  {
    if ps == [] then 0 else PathCount(g, ps[0]) + PredCount(g, ps[1..], bound)
  }

  /** PathCount summed over a whole queue. */
  ghost function Work<N(!new)>(g: Digraph<N>, q: seq<N>): nat
    requires g.Acyclic()
  {
    if q == [] then 0 else PathCount(g, q[0]) + Work(g, q[1..])
  }

  lemma {:induction false} PredCountIsWork<N(!new)>(g: Digraph<N>, ps: seq<N>, bound: nat)
    requires g.Acyclic() && forall p :: p in ps ==> g.RankOf(p) < bound
    ensures PredCount(g, ps, bound) == Work(g, ps)
  {
    if ps != [] {
      PredCountIsWork(g, ps[1..], bound);
    }
  }

  lemma {:induction false} WorkAppend<N(!new)>(g: Digraph<N>, a: seq<N>, b: seq<N>)
    requires g.Acyclic()
    ensures Work(g, a + b) == Work(g, a) + Work(g, b)
  {
    if a != [] {
      assert (a + b)[1..] == a[1..] + b;
      WorkAppend(g, a[1..], b);
    } else {
      assert a + b == b;
    }
  }

  /** Reading the head of the queue and appending its predecessors leaves one entry less to read. */
  lemma WorkStep<N(!new)>(g: Digraph<N>, q: seq<N>)
    requires g.Acyclic() && q != []
    ensures Work(g, q[1..] + g.Predecessors(q[0])) == Work(g, q) - 1
  {
    g.NeighboursClimb(q[0]);
    PredCountIsWork(g, g.Predecessors(q[0]), g.RankOf(q[0]));
    WorkAppend(g, q[1..], g.Predecessors(q[0]));
  }

  /**
   * The entries of the worklist in the order they are read, starting from the
   * queue q: its head, then the rest of the queue with the head's
   * predecessors appended.
   */
  ghost function Process<N(!new)>(g: Digraph<N>, q: seq<N>): (r: seq<N>)
    requires g.Acyclic()
    ensures |r| == Work(g, q)
    ensures |q| <= |r| && forall i :: 0 <= i < |q| ==> r[i] == q[i]
    decreases Work(g, q)
  {
    if q == [] then []
    else
      WorkStep(g, q);
      var rest := q[1..] + g.Predecessors(q[0]);
      [q[0]] + Process(g, rest)
  }

  /** One read of the worklist. */
  lemma ProcessStep<N(!new)>(g: Digraph<N>, q: seq<N>)
    requires g.Acyclic() && q != []
    ensures Process(g, q) == [q[0]] + Process(g, q[1..] + g.Predecessors(q[0]))
  {
  }

  /** The last entry read after one step: the head itself, or the last entry read from the rest. */
  lemma ProcessLast<N(!new)>(g: Digraph<N>, q: seq<N>)
    requires g.Acyclic() && q != []
    ensures var rest := q[1..] + g.Predecessors(q[0]);
      && Work(g, rest) < Work(g, q)
      && (rest == [] ==> g.Predecessors(q[0]) == [] && Process(g, q)[|Process(g, q)| - 1] == q[0])
      && (rest != [] ==> Process(g, q)[|Process(g, q)| - 1] == Process(g, rest)[|Process(g, rest)| - 1])
  {
    WorkStep(g, q);
    var rest := q[1..] + g.Predecessors(q[0]);
    var tail := Process(g, rest);
    var r := Process(g, q);
    assert r == [q[0]] + tail;
    assert rest == [] ==> tail == [];
  }

  /** The last entry read has no predecessors: otherwise they would be read after it. */
  lemma {:induction false} ProcessLastIsRoot<N(!new)>(g: Digraph<N>, q: seq<N>)
    requires g.Acyclic() && q != []
    ensures g.Predecessors(Process(g, q)[|Process(g, q)| - 1]) == []
    decreases Work(g, q)
  {
    ProcessLast(g, q);
    var rest := q[1..] + g.Predecessors(q[0]);
    if rest != [] {
      ProcessLastIsRoot(g, rest);
    }
  }

  /** A set that holds the queue and the predecessors of its members holds every entry read. */
  lemma {:induction false} ProcessStaysIn<N(!new)>(g: Digraph<N>, q: seq<N>, S: set<N>)
    requires g.Acyclic()
    requires forall x :: x in q ==> x in S
    requires forall e :: e in g.edges && e.1 in S ==> e.0 in S
    ensures forall y :: y in Process(g, q) ==> y in S
    decreases Work(g, q)
  {
    if q != [] {
      WorkStep(g, q);
      var rest := q[1..] + g.Predecessors(q[0]);
      ProcessStaysIn(g, rest, S);
    }
  }

  /**
   * The list only grows by predecessors of entries already read: every entry
   * past the starting queue is a predecessor of an earlier entry.
   */
  lemma {:induction false} ProcessAppendsPredecessors<N(!new)>(g: Digraph<N>, q: seq<N>, k: nat)
    requires g.Acyclic() && |q| <= k < |Process(g, q)|
    ensures exists j :: 0 <= j < k && (Process(g, q)[k], Process(g, q)[j]) in g.edges
    decreases Work(g, q)
  {
    WorkStep(g, q);
    var preds := g.Predecessors(q[0]);
    var rest := q[1..] + preds;
    var r := Process(g, q);
    var r' := Process(g, rest);
    assert r[k] == r'[k - 1];
    if k - 1 < |rest| {
      assert r'[k - 1] == rest[k - 1] == preds[k - |q|];
      assert (r[k], r[0]) in g.edges;
    } else {
      ProcessAppendsPredecessors(g, rest, k - 1);
      var j :| 0 <= j < k - 1 && (r'[k - 1], r'[j]) in g.edges;
      assert r'[j] == r[j + 1];
    }
  }

  /** The last entry read (the worklist is never empty when the queue is not). */
  ghost function LastProcessed<N(!new)>(g: Digraph<N>, q: seq<N>): (v: N)
    requires g.Acyclic() && q != []
    ensures v in Process(g, q)
    ensures g.Predecessors(v) == []
  {
    ProcessLastIsRoot(g, q);
    Process(g, q)[|Process(g, q)| - 1]
  }
}
