/**
 * networkx's unweighted `shortest_path_length(G, source)`: a breadth-first
 * search level by level, producing the (node, distance) entries of the result
 * dictionary in the order they are discovered.
 *
 * The search functions carry few quantified postconditions of their own; what
 * they compute is stated by small lemmas about one node at a time.
 */
module ShortestPaths {

  import opened Digraphs

  /** The nodes of an entry list occur once each (they are dictionary keys). */
  ghost predicate DistinctKeys<N>(r: seq<(N, nat)>) {
    forall i, j :: 0 <= i < j < |r| ==> r[i].0 != r[j].0
  }

  /** There is a walk with exactly d edges from src to w. */
  ghost predicate WalkOfLength<N(!new)>(g: Digraph<N>, src: N, w: N, d: nat)
    decreases d
  {
    if d == 0 then w == src
    else exists v :: (v, w) in g.edges && WalkOfLength(g, src, v, d - 1)
  }

  /** Every node of xs is reached by a walk of exactly d edges. */
  ghost predicate AllReachedIn<N(!new)>(g: Digraph<N>, src: N, xs: seq<N>, d: nat) {
    forall v :: v in xs ==> WalkOfLength(g, src, v, d)
  }

  /** w is a key of r with a distance no larger than d. */
  ghost predicate KeyWithin<N>(r: seq<(N, nat)>, w: N, d: nat) {
    exists d' :: (w, d') in r && d' <= d
  }

  /** `seen` with the nodes of `xs` added. */
  function Mark<N(!new)>(seen: set<N>, xs: seq<N>): (r: set<N>)
    ensures forall x :: x in r <==> x in seen || x in xs
  {
    seen + set x | x in xs
  }

  /** The number of entries of `ns` outside `seen`: the search's termination measure. */
  function Unseen<N>(ns: seq<N>, seen: set<N>): nat {
    if ns == [] then 0 else (if ns[0] in seen then 0 else 1) + Unseen(ns[1..], seen)
  }

  /** Seeing more never raises the count; seeing a new entry of `ns` lowers it. */
  lemma {:induction false} UnseenShrinks<N>(ns: seq<N>, seen: set<N>, seen': set<N>, x: N)
    requires seen <= seen'
    ensures Unseen(ns, seen') <= Unseen(ns, seen)
    ensures x in ns && x in seen' && x !in seen ==> Unseen(ns, seen') < Unseen(ns, seen)
  {
    if ns != [] {
      UnseenShrinks(ns[1..], seen, seen', x);
    }
  }

  /** The entries of `ws` (the successors of one node) not yet seen, in order. */
  function ScanSuccessors<N(==, !new)>(ws: seq<N>, seen: set<N>): (r: seq<N>)
    ensures forall x :: x in r ==> x in ws && x !in seen
    ensures forall x :: x in ws ==> x in seen || x in r
  {
    if ws == [] then []
    else if ws[0] in seen then ScanSuccessors(ws[1..], seen)
    else [ws[0]] + ScanSuccessors(ws[1..], seen + {ws[0]})
  }

  /** A scan lists each node once: a node taken is seen for the rest of the scan. */
  lemma {:induction false} ScanSuccessorsDistinct<N(!new)>(ws: seq<N>, seen: set<N>)
    ensures Distinct(ScanSuccessors(ws, seen))
  {
    if ws != [] {
      if ws[0] in seen {
        ScanSuccessorsDistinct(ws[1..], seen);
      } else {
        ScanSuccessorsDistinct(ws[1..], seen + {ws[0]});
        DistinctConcat([ws[0]], ScanSuccessors(ws[1..], seen + {ws[0]}));
      }
    }
  }

  /** The next BFS level: the unseen successors of the frontier, frontier in order. */
  function NextLevel<N(==, !new)>(g: Digraph<N>, frontier: seq<N>, seen: set<N>): seq<N> {
    if frontier == [] then []
    else
      var here := ScanSuccessors(g.Successors(frontier[0]), seen);
      here + NextLevel(g, frontier[1..], Mark(seen, here))
  }

  /** A node of the next level is unseen and one edge beyond the frontier. */
  lemma {:induction false} NextLevelFrom<N(!new)>(g: Digraph<N>, frontier: seq<N>, seen: set<N>, x: N)
    requires x in NextLevel(g, frontier, seen)
    ensures x !in seen && exists v :: v in frontier && (v, x) in g.edges
  {
    var here := ScanSuccessors(g.Successors(frontier[0]), seen);
    if x !in here {
      NextLevelFrom(g, frontier[1..], Mark(seen, here), x);
      var v :| v in frontier[1..] && (v, x) in g.edges;
      assert v in frontier;
    }
  }

  /** Every successor of a frontier node is seen already or on the next level. */
  lemma {:induction false} NextLevelCovers<N(!new)>(g: Digraph<N>, frontier: seq<N>, seen: set<N>, v: N, x: N)
    requires v in frontier && (v, x) in g.edges
    ensures x in seen || x in NextLevel(g, frontier, seen)
  {
    var here := ScanSuccessors(g.Successors(frontier[0]), seen);
    if v != frontier[0] {
      NextLevelCovers(g, frontier[1..], Mark(seen, here), v, x);
    }
  }

  /** A level lists each of its nodes once. */
  lemma {:induction false} NextLevelDistinct<N(!new)>(g: Digraph<N>, frontier: seq<N>, seen: set<N>)
    ensures Distinct(NextLevel(g, frontier, seen))
  {
    if frontier != [] {
      var here := ScanSuccessors(g.Successors(frontier[0]), seen);
      var later := NextLevel(g, frontier[1..], Mark(seen, here));
      NextLevelDistinct(g, frontier[1..], Mark(seen, here));
      ScanSuccessorsDistinct(g.Successors(frontier[0]), seen);
      forall x | x in later
        ensures x !in here
      {
        NextLevelFrom(g, frontier[1..], Mark(seen, here), x);
      }
      DistinctConcat(here, later);
    }
  }

  /** The nodes of one level, each at the distance `level`. */
  function Label<N>(xs: seq<N>, level: nat): (r: seq<(N, nat)>)
    ensures |r| == |xs|
  {
    seq(|xs|, k requires 0 <= k < |xs| => (xs[k], level))
  }

  lemma LabelMember<N>(xs: seq<N>, level: nat, x: N, d: nat)
    requires (x, d) in Label(xs, level)
    ensures x in xs && d == level
  {
    var k :| 0 <= k < |xs| && Label(xs, level)[k] == (x, d);
  }

  lemma LabelHas<N>(xs: seq<N>, level: nat, x: N)
    requires x in xs
    ensures (x, level) in Label(xs, level)
  {
    var k :| 0 <= k < |xs| && xs[k] == x;
    assert Label(xs, level)[k] == (x, level);
  }

  /** A non-empty next level lowers the count of unseen nodes. */
  lemma NextLevelGrows<N(!new)>(g: Digraph<N>, frontier: seq<N>, seen: set<N>)
    requires g.EdgesInNodes() && NextLevel(g, frontier, seen) != []
    ensures Unseen(g.nodes, Mark(seen, NextLevel(g, frontier, seen))) < Unseen(g.nodes, seen)
  {
    var next := NextLevel(g, frontier, seen);
    NextLevelFrom(g, frontier, seen, next[0]);
    UnseenShrinks(g.nodes, seen, Mark(seen, next), next[0]);
  }

  /** The entries of the levels from `level` on, given the level before it. */
  function Levels<N(==, !new)>(g: Digraph<N>, frontier: seq<N>, level: nat, seen: set<N>): seq<(N, nat)>
    requires g.EdgesInNodes()
    decreases Unseen(g.nodes, seen)
  {
    var next := NextLevel(g, frontier, seen);
    if next == [] then []
    else
      NextLevelGrows(g, frontier, seen);
      Label(next, level) + Levels(g, next, level + 1, Mark(seen, next))
  }

  /** One step of Levels: the next level labelled, then the levels after it. */
  lemma LevelsUnfold<N(!new)>(g: Digraph<N>, frontier: seq<N>, level: nat, seen: set<N>)
    requires g.EdgesInNodes() && NextLevel(g, frontier, seen) != []
    ensures var next := NextLevel(g, frontier, seen);
      && Unseen(g.nodes, Mark(seen, next)) < Unseen(g.nodes, seen)
      && Levels(g, frontier, level, seen) == Label(next, level) + Levels(g, next, level + 1, Mark(seen, next))
  {
    NextLevelGrows(g, frontier, seen);
  }

  /** An entry belongs to Levels exactly when it is on the next level or a later one. */
  lemma LevelsSplit<N(!new)>(g: Digraph<N>, frontier: seq<N>, level: nat, seen: set<N>, p: (N, nat))
    requires g.EdgesInNodes()
    ensures var next := NextLevel(g, frontier, seen);
      p in Levels(g, frontier, level, seen) <==>
        next != [] && (p in Label(next, level) || p in Levels(g, next, level + 1, Mark(seen, next)))
  {
    if NextLevel(g, frontier, seen) != [] {
      LevelsUnfold(g, frontier, level, seen);
    }
  }

  /** Membership in Levels, level by level, without the entry sequence. */
  ghost predicate InLevels<N(!new)>(g: Digraph<N>, frontier: seq<N>, level: nat, seen: set<N>, x: N, dist: nat)
    requires g.EdgesInNodes()
    decreases Unseen(g.nodes, seen)
  {
    var next := NextLevel(g, frontier, seen);
    if next == [] then false
    else
      NextLevelGrows(g, frontier, seen);
      (x in next && dist == level) || InLevels(g, next, level + 1, Mark(seen, next), x, dist)
  }

  lemma {:induction false} InLevelsIff<N(!new)>(g: Digraph<N>, frontier: seq<N>, level: nat, seen: set<N>, x: N, dist: nat)
    requires g.EdgesInNodes()
    ensures (x, dist) in Levels(g, frontier, level, seen) <==> InLevels(g, frontier, level, seen, x, dist)
    decreases Unseen(g.nodes, seen)
  {
    var next := NextLevel(g, frontier, seen);
    LevelsSplit(g, frontier, level, seen, (x, dist));
    if next != [] {
      NextLevelGrows(g, frontier, seen);
      var level', seen' := level + 1, Mark(seen, next);
      InLevelsIff(g, next, level', seen', x, dist);
      if (x, dist) in Label(next, level) {
        LabelMember(next, level, x, dist);
      }
      if x in next && dist == level {
        LabelHas(next, level, x);
      }
    }
  }

  /** Every key is a node not seen before, each once, at a distance of at least `level`. */
  lemma {:induction false} LevelsKeys<N(!new)>(g: Digraph<N>, frontier: seq<N>, level: nat, seen: set<N>)
    requires g.EdgesInNodes()
    ensures var r := Levels(g, frontier, level, seen);
      && (forall k :: 0 <= k < |r| ==> r[k].0 in g.nodes && r[k].0 !in seen && r[k].1 >= level)
      && DistinctKeys(r)
    decreases Unseen(g.nodes, seen)
  {
    var next := NextLevel(g, frontier, seen);
    if next != [] {
      var seen' := Mark(seen, next);
      LevelsUnfold(g, frontier, level, seen);
      LevelsKeys(g, next, level + 1, seen');
      NextLevelDistinct(g, frontier, seen);
      forall x | x in next
        ensures x in g.nodes && x !in seen
      {
        NextLevelFrom(g, frontier, seen, x);
      }
      LevelsConcat(next, level, Levels(g, next, level + 1, seen'), seen, seen', g.nodes);
    }
  }

  lemma LevelsConcat<N>(next: seq<N>, level: nat, tail: seq<(N, nat)>, seen: set<N>, seen': set<N>, nodes: seq<N>)
    requires Distinct(next) && DistinctKeys(tail)
    requires forall x :: x in next ==> x in seen' && x in nodes && x !in seen
    requires seen <= seen'
    requires forall k :: 0 <= k < |tail| ==> tail[k].0 in nodes && tail[k].0 !in seen' && tail[k].1 >= level + 1
    ensures var r := Label(next, level) + tail;
      && DistinctKeys(r)
      && forall k :: 0 <= k < |r| ==> r[k].0 in nodes && r[k].0 !in seen && r[k].1 >= level
  {
    var head := Label(next, level);
    var r := head + tail;
    forall i, j | 0 <= i < j < |r|
      ensures r[i].0 != r[j].0
    {
      if j < |head| {
        assert r[i] == (next[i], level) && r[j] == (next[j], level);
      } else if i < |head| {
        assert r[i].0 == next[i] && r[j] == tail[j - |head|];
      } else {
        assert r[i] == tail[i - |head|] && r[j] == tail[j - |head|];
      }
    }
    forall k | 0 <= k < |r|
      ensures r[k].0 in nodes && r[k].0 !in seen && r[k].1 >= level
    {
      if k < |head| {
        assert r[k] == (next[k], level);
      } else {
        assert r[k] == tail[k - |head|];
      }
    }
  }

  /** `shortest_path_length(G, source)` as its ordered (node, distance) entries. */
  function ShortestPathLength<N(==, !new)>(g: Digraph<N>, source: N): (r: seq<(N, nat)>)
    requires g.Valid() && source in g.nodes
    ensures |r| >= 1 && r[0] == (source, 0)
    ensures forall k :: 1 <= k < |r| ==> r[k].1 >= 1
    ensures forall k :: 0 <= k < |r| ==> r[k].0 in g.nodes
  {
    LevelsKeys(g, [source], 1, {source});
    [(source, 0)] + Levels(g, [source], 1, {source})
  }

  /** Every node occurs once among the keys of `shortest_path_length`. */
  lemma ShortestPathLengthKeysDistinct<N(!new)>(g: Digraph<N>, source: N)
    requires g.Valid() && source in g.nodes
    ensures DistinctKeys(ShortestPathLength(g, source))
  {
    var tail := Levels(g, [source], 1, {source});
    LevelsKeys(g, [source], 1, {source});
    var r := [(source, 0)] + tail;
    forall i, j | 0 <= i < j < |r|
      ensures r[i].0 != r[j].0
    {
      assert r[j] == tail[j - 1];
      if i > 0 {
        assert r[i] == tail[i - 1];
      }
    }
  }

  // Walk bookkeeping.

  lemma WalkExtend<N(!new)>(g: Digraph<N>, src: N, v: N, w: N, d: nat)
    requires WalkOfLength(g, src, v, d) && (v, w) in g.edges
    ensures WalkOfLength(g, src, w, d + 1)
  {
  }

  /** A walk that starts in a successor-closed set stays in it. */
  lemma {:induction false} WalkStaysIn<N(!new)>(g: Digraph<N>, src: N, w: N, d: nat, S: set<N>)
    requires src in S && forall e :: e in g.edges && e.0 in S ==> e.1 in S
    requires WalkOfLength(g, src, w, d)
    ensures w in S
  {
    if d > 0 {
      var v :| (v, w) in g.edges && WalkOfLength(g, src, v, d - 1);
      WalkStaysIn(g, src, v, d - 1, S);
    }
  }

  // Soundness: every entry's distance is the length of a walk to it.

  /** A node of the next level is one edge beyond a frontier node reached in `dist` edges. */
  lemma NextLevelWalk<N(!new)>(g: Digraph<N>, src: N, frontier: seq<N>, dist: nat, seen: set<N>, x: N)
    requires AllReachedIn(g, src, frontier, dist)
    requires x in NextLevel(g, frontier, seen)
    ensures WalkOfLength(g, src, x, dist + 1)
  {
    NextLevelFrom(g, frontier, seen, x);
    var v :| v in frontier && (v, x) in g.edges;
    WalkExtend(g, src, v, x, dist);
  }

  /** With the frontier `dist` edges away, each entry from the next level on is reached by a walk of its length. */
  lemma {:induction false} LevelsSound<N(!new)>(g: Digraph<N>, src: N, frontier: seq<N>, dist: nat, seen: set<N>, x: N, d: nat)
    requires g.EdgesInNodes()
    requires AllReachedIn(g, src, frontier, dist)
    requires (x, d) in Levels(g, frontier, dist + 1, seen)
    ensures WalkOfLength(g, src, x, d)
    decreases Unseen(g.nodes, seen)
  {
    var next := NextLevel(g, frontier, seen);
    var seen' := Mark(seen, next);
    LevelsSplit(g, frontier, dist + 1, seen, (x, d));
    NextLevelGrows(g, frontier, seen);
    if (x, d) in Levels(g, next, dist + 1 + 1, seen') {
      forall v | v in next
        ensures WalkOfLength(g, src, v, dist + 1)
      {
        NextLevelWalk(g, src, frontier, dist, seen, v);
      }
      LevelsSound(g, src, next, dist + 1, seen', x, d);
    } else {
      LabelMember(next, dist + 1, x, d);
      NextLevelWalk(g, src, frontier, dist, seen, x);
    }
  }

  // Completeness: every node a walk reaches is a key, no further than the walk.

  /**
   * The state the BFS keeps between levels: every node within level - 1 steps
   * is seen, the frontier is seen, and a seen node off the frontier has all its
   * successors seen.
   */
  ghost predicate LevelState<N(!new)>(g: Digraph<N>, src: N, frontier: seq<N>, level: nat, seen: set<N>) {
    && level >= 1
    && (forall v :: v in frontier ==> v in seen)
    && (forall x, d: nat :: d < level && WalkOfLength(g, src, x, d) ==> x in seen)
    && (forall e :: e in g.edges && e.0 in seen && e.0 !in frontier ==> e.1 in seen)
  }

  /** When no next level exists, everything a walk reaches has been seen. */
  lemma LevelStateExhausted<N(!new)>(g: Digraph<N>, src: N, frontier: seq<N>, level: nat, seen: set<N>, x: N, d: nat)
    requires LevelState(g, src, frontier, level, seen) && NextLevel(g, frontier, seen) == []
    requires WalkOfLength(g, src, x, d)
    ensures x in seen
  {
    assert WalkOfLength(g, src, src, 0);
    forall e | e in g.edges && e.0 in seen
      ensures e.1 in seen
    {
      if e.0 in frontier {
        NextLevelCovers(g, frontier, seen, e.0, e.1);
      }
    }
    WalkStaysIn(g, src, x, d, seen);
  }

  /** A node not yet seen is at least `level` edges away. */
  lemma LevelStateFar<N(!new)>(g: Digraph<N>, src: N, frontier: seq<N>, level: nat, seen: set<N>, x: N, d: nat)
    requires LevelState(g, src, frontier, level, seen)
    requires WalkOfLength(g, src, x, d) && x !in seen
    ensures level <= d
  {
  }

  /** One BFS level keeps LevelState. */
  lemma LevelStateStep<N(!new)>(g: Digraph<N>, src: N, frontier: seq<N>, level: nat, seen: set<N>)
    requires LevelState(g, src, frontier, level, seen)
    ensures var next := NextLevel(g, frontier, seen);
      LevelState(g, src, next, level + 1, Mark(seen, next))
  {
    var next := NextLevel(g, frontier, seen);
    var seen' := Mark(seen, next);
    forall x, d: nat | d < level + 1 && WalkOfLength(g, src, x, d)
      ensures x in seen'
    {
      if d == level {
        var v :| (v, x) in g.edges && WalkOfLength(g, src, v, d - 1);
        assert v in seen;
        if v in frontier {
          NextLevelCovers(g, frontier, seen, v, x);
        }
      }
    }
    forall e | e in g.edges && e.0 in seen' && e.0 !in next
      ensures e.1 in seen'
    {
      if e.0 in frontier {
        NextLevelCovers(g, frontier, seen, e.0, e.1);
      }
    }
  }

  /** With a node still unseen that a walk reaches, the next level is not empty. */
  lemma LevelsCompleteCase<N(!new)>(g: Digraph<N>, src: N, frontier: seq<N>, level: nat, seen: set<N>, x: N, d: nat)
    requires g.EdgesInNodes()
    requires LevelState(g, src, frontier, level, seen)
    requires WalkOfLength(g, src, x, d) && x !in seen
    ensures NextLevel(g, frontier, seen) != []
  {
    if NextLevel(g, frontier, seen) == [] {
      LevelStateExhausted(g, src, frontier, level, seen, x, d);
      assert false;
    }
  }

  /**
   * A node a walk of length d reaches and that is not yet seen is a key; `dist`
   * is its entry's distance, no more than d.
   */
  lemma {:induction false} LevelsComplete<N(!new)>(g: Digraph<N>, src: N, frontier: seq<N>, level: nat, seen: set<N>, x: N, d: nat)
    returns (dist: nat)
    requires g.EdgesInNodes()
    requires LevelState(g, src, frontier, level, seen)
    requires WalkOfLength(g, src, x, d) && x !in seen
    ensures InLevels(g, frontier, level, seen, x, dist) && dist <= d
    decreases Unseen(g.nodes, seen), 1
  {
    LevelsCompleteCase(g, src, frontier, level, seen, x, d);
    if x in NextLevel(g, frontier, seen) {
      LevelStateFar(g, src, frontier, level, seen, x, d);
      dist := level;
    } else {
      dist := LevelsCompleteLater(g, src, frontier, level, seen, x, d);
    }
  }

  /** The same for a node that is not on the next level: its entry comes from a later level. */
  lemma {:induction false} LevelsCompleteLater<N(!new)>(g: Digraph<N>, src: N, frontier: seq<N>, level: nat, seen: set<N>, x: N, d: nat)
    returns (dist: nat)
    requires g.EdgesInNodes()
    requires LevelState(g, src, frontier, level, seen)
    requires WalkOfLength(g, src, x, d) && x !in seen
    requires x !in NextLevel(g, frontier, seen)
    ensures InLevels(g, frontier, level, seen, x, dist) && dist <= d
    decreases Unseen(g.nodes, seen), 0
  {
    LevelsCompleteCase(g, src, frontier, level, seen, x, d);
    NextLevelGrows(g, frontier, seen);
    LevelStateStep(g, src, frontier, level, seen);
    var next := NextLevel(g, frontier, seen);
    var level', seen' := level + 1, Mark(seen, next);
    dist := LevelsComplete(g, src, next, level', seen', x, d);
  }

  /** Each entry's distance is the length of some walk from the source. */
  lemma ShortestPathLengthSound<N(!new)>(g: Digraph<N>, source: N, x: N, d: nat)
    requires g.Valid() && source in g.nodes
    requires (x, d) in ShortestPathLength(g, source)
    ensures WalkOfLength(g, source, x, d)
  {
    var rest := Levels(g, [source], 1, {source});
    assert ShortestPathLength(g, source) == [(source, 0)] + rest;
    if (x, d) != (source, 0) {
      assert (x, d) in rest;
      LevelsSound(g, source, [source], 0, {source}, x, d);
    }
  }

  /** Every node a walk of length d reaches is a key, with a distance of at most d. */
  lemma ShortestPathLengthComplete<N(!new)>(g: Digraph<N>, source: N, x: N, d: nat)
    requires g.Valid() && source in g.nodes
    requires WalkOfLength(g, source, x, d)
    ensures KeyWithin(ShortestPathLength(g, source), x, d)
  {
    var r := ShortestPathLength(g, source);
    var rest := Levels(g, [source], 1, {source});
    assert r == [(source, 0)] + rest;
    if x == source {
      assert (source, 0) in r;
    } else {
      forall y, e: nat | e < 1 && WalkOfLength(g, source, y, e)
        ensures y in {source}
      {
      }
      assert LevelState(g, source, [source], 1, {source});
      var dist := LevelsComplete(g, source, [source], 1, {source}, x, d);
      InLevelsIff(g, [source], 1, {source}, x, dist);
      assert (x, dist) in r;
    }
  }

  /**
   * The entries are exactly the BFS distance map: each distance is the length
   * of some walk from the source, and every node a walk reaches is present
   * with a distance no longer than that walk.
   */
  lemma ShortestPathLengthIsDistance<N(!new)>(g: Digraph<N>, source: N)
    requires g.Valid() && source in g.nodes
    ensures var r := ShortestPathLength(g, source);
      && (forall x, d :: (x, d) in r ==> WalkOfLength(g, source, x, d))
      && (forall x, d :: WalkOfLength(g, source, x, d) ==> KeyWithin(r, x, d))
  {
    forall x, d | (x, d) in ShortestPathLength(g, source)
      ensures WalkOfLength(g, source, x, d)
    {
      ShortestPathLengthSound(g, source, x, d);
    }
    forall x, d | WalkOfLength(g, source, x, d)
      ensures KeyWithin(ShortestPathLength(g, source), x, d)
    {
      ShortestPathLengthComplete(g, source, x, d);
    }
  }
}
