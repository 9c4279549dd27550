/**
 * Degree-2 lines (elements/network.py, `find_degree_2_lines` and
 * `spacewalk`): maximal runs of degree-2 stations, each extended by the
 * station at either end of the run.
 *
 * The source marks visited stations in a dictionary keyed by name; names
 * are unique in a well-formed graph, so a set of station indices stands in
 * for it here and is threaded through the calls instead of being mutated.
 */
module Lines {
  import opened Topology

  /** Edge `e` joins `a` and `b`, in either direction. */
  predicate Links(e: Edge, a: NodeRef, b: NodeRef)
  {
    (e.v0 == a && e.v1 == b) || (e.v0 == b && e.v1 == a)
  }

  ghost predicate Adjacent(g: Graph, a: NodeRef, b: NodeRef)
  {
    exists e :: 0 <= e < |g.edges| && Links(g.edges[e], a, b)
  }

  /** Every two consecutive entries of `w` are joined by an edge. */
  ghost predicate Chained(g: Graph, w: seq<NodeRef>)
  {
    forall j {:trigger StepLinked(g, w, j)} :: 0 < j < |w| ==> StepLinked(g, w, j)
  }

  /** Entry `j` of `w` is joined by an edge to the entry before it. */
  ghost predicate StepLinked(g: Graph, w: seq<NodeRef>, j: nat)
    requires 0 < j < |w|
  {
    Adjacent(g, w[j - 1], w[j])
  }

  ghost predicate AllValid(g: Graph, w: seq<NodeRef>)
  {
    forall j :: 0 <= j < |w| ==> ValidNode(g, w[j])
  }

  function Reverse(w: seq<NodeRef>): (r: seq<NodeRef>)
    ensures |r| == |w| && forall j :: 0 <= j < |w| ==> r[j] == w[|w| - 1 - j]
  {
    if w == [] then [] else Reverse(w[1..]) + [w[0]]
  }

  /** A station and the one across any of its edges are adjacent. */
  lemma NeighbourIsAdjacent(g: Graph, v: NodeRef, k: nat)
    requires Navigable(g) && ValidNode(g, v) && k < Degree(g, v)
    ensures Adjacent(g, v, Neighbour(g, v, k))
  {
    var e := g.nodes[v].edges[k];
    FollowEntry(g, v, k);
    assert Links(g.edges[e], v, Neighbour(g, v, k));
  }

  /**
   * `spacewalk(v, prev, seen)`: mark `v`, and if it has degree 2 continue
   * away from `prev`. The walk lists the far end first and `v` last; the
   * second component is the updated set of marked stations.
   */
  function Spacewalk(g: Graph, v: NodeRef, prev: NodeRef, seen: set<NodeRef>): (res: (seq<NodeRef>, set<NodeRef>))
    requires Navigable(g) && ValidNode(g, v)
    decreases AllNodes(g) - (seen + {v}), 1
    ensures res.0 != [] && res.0[|res.0| - 1] == v
  {
    if Degree(g, v) == 2 then WalkOn(g, v, prev, seen + {v}) else ([v], seen + {v})
  }

  /**
   * The rest of `spacewalk` at a marked degree-2 station `v`: an unmarked
   * degree-2 successor is walked recursively, a marked one ends the walk,
   * and any other successor is listed without being marked.
   */
  function WalkOn(g: Graph, v: NodeRef, prev: NodeRef, marked: set<NodeRef>): (res: (seq<NodeRef>, set<NodeRef>))
    requires Navigable(g) && ValidNode(g, v) && Degree(g, v) == 2 && v in marked
    decreases AllNodes(g) - marked, 0
    ensures res.0 != [] && res.0[|res.0| - 1] == v
  {
    var next := Successor(g, v, prev);
    if Degree(g, next) != 2 then ([next, v], marked)
    else if next in marked then ([v], marked)
    else
      var (w, after) := Spacewalk(g, next, v, marked);
      (w + [v], after)
  }

  /**
   * The neighbour of degree-2 station `v` that is not `prev`: the second
   * one unless that is `prev`, so `prev` itself only when both are.
   */
  function Successor(g: Graph, v: NodeRef, prev: NodeRef): (next: NodeRef)
    requires Navigable(g) && ValidNode(g, v) && Degree(g, v) == 2
    ensures ValidNode(g, next) && Adjacent(g, v, next)
    ensures next == Neighbour(g, v, 0) || next == Neighbour(g, v, 1)
    ensures next == prev <==> Neighbour(g, v, 0) == prev && Neighbour(g, v, 1) == prev
    ensures Neighbour(g, v, 1) != prev ==> next == Neighbour(g, v, 1)
  {
    NeighbourIsAdjacent(g, v, 0);
    NeighbourIsAdjacent(g, v, 1);
    var v0 := Neighbour(g, v, 0);
    var v1 := Neighbour(g, v, 1);
    if v1 == prev then v0 else v1
  }

  /** A walk consists of existing stations, each joined to the next by an edge. */
  lemma {:induction false} SpacewalkIsChained(g: Graph, v: NodeRef, prev: NodeRef, seen: set<NodeRef>)
    requires Navigable(g) && ValidNode(g, v)
    decreases AllNodes(g) - (seen + {v}), 1
    ensures GoodLine(g, Spacewalk(g, v, prev, seen).0)
  {
    if Degree(g, v) == 2 {
      WalkOnIsChained(g, v, prev, seen + {v});
    }
  }

  lemma {:induction false} WalkOnIsChained(g: Graph, v: NodeRef, prev: NodeRef, marked: set<NodeRef>)
    requires Navigable(g) && ValidNode(g, v) && Degree(g, v) == 2 && v in marked
    decreases AllNodes(g) - marked, 0
    ensures GoodLine(g, WalkOn(g, v, prev, marked).0)
  {
    var next := Successor(g, v, prev);
    AdjacentSymmetric(g, v, next);
    if Degree(g, next) != 2 {
      ChainedSnoc(g, [next], v);
    } else if next !in marked {
      SpacewalkIsChained(g, next, v, marked);
      ChainedSnoc(g, Spacewalk(g, next, v, marked).0, v);
    }
  }

  /** The marks grow by `v` and otherwise only by stations on the walk. */
  lemma {:induction false} SpacewalkMarks(g: Graph, v: NodeRef, prev: NodeRef, seen: set<NodeRef>)
    requires Navigable(g) && ValidNode(g, v)
    decreases AllNodes(g) - (seen + {v}), 1
    ensures MarksGrowAlong(seen + {v}, Spacewalk(g, v, prev, seen))
  {
    if Degree(g, v) == 2 {
      WalkOnMarks(g, v, prev, seen + {v});
    }
  }

  lemma {:induction false} WalkOnMarks(g: Graph, v: NodeRef, prev: NodeRef, marked: set<NodeRef>)
    requires Navigable(g) && ValidNode(g, v) && Degree(g, v) == 2 && v in marked
    decreases AllNodes(g) - marked, 0
    ensures MarksGrowAlong(marked, WalkOn(g, v, prev, marked))
  {
    var next := Successor(g, v, prev);
    if Degree(g, next) == 2 && next !in marked {
      SpacewalkMarks(g, next, v, marked);
      var (w, after) := Spacewalk(g, next, v, marked);
      forall u | u in after
        ensures u in marked || u in w + [v]
      {
      }
    }
  }

  /** The marks after a walk include `before` and otherwise only stations on the walk. */
  ghost predicate MarksGrowAlong(before: set<NodeRef>, res: (seq<NodeRef>, set<NodeRef>))
  {
    && before <= res.1
    && (forall u :: u in res.1 ==> u in before || u in res.0)
  }

  lemma AdjacentSymmetric(g: Graph, a: NodeRef, b: NodeRef)
    requires Adjacent(g, a, b)
    ensures Adjacent(g, b, a)
  {
    var e :| 0 <= e < |g.edges| && Links(g.edges[e], a, b);
    assert Links(g.edges[e], b, a);
  }

  lemma ReverseChained(g: Graph, w: seq<NodeRef>)
    requires Chained(g, w) && AllValid(g, w)
    ensures Chained(g, Reverse(w)) && AllValid(g, Reverse(w))
  {
    var r := Reverse(w);
    forall j | 0 < j < |r|
      ensures StepLinked(g, r, j)
    {
      var i := |w| - j;
      assert r[j - 1] == w[i] && r[j] == w[i - 1];
      assert StepLinked(g, w, i);
      AdjacentSymmetric(g, w[i - 1], w[i]);
    }
  }

  /**
   * The line through an unmarked degree-2 station `v`: walk from its first
   * neighbour, then from its second, and join the first walk, `v` and the
   * reversed second walk. Also returns the updated marks.
   */
  function LineThrough(g: Graph, v: NodeRef, seen: set<NodeRef>): (res: (seq<NodeRef>, set<NodeRef>))
    requires Navigable(g) && ValidNode(g, v) && Degree(g, v) == 2
  {
    var (path1, after1) := Spacewalk(g, Neighbour(g, v, 0), v, seen + {v});
    var (path2, after2) := Spacewalk(g, Neighbour(g, v, 1), v, after1);
    (path1 + [v] + Reverse(path2), after2)
  }

  /** The line through `v` contains `v` and is chained. */
  lemma LineThroughChained(g: Graph, v: NodeRef, seen: set<NodeRef>)
    requires Navigable(g) && ValidNode(g, v) && Degree(g, v) == 2
    ensures var line := LineThrough(g, v, seen).0; v in line && GoodLine(g, line)
  {
    var (path1, after1) := Spacewalk(g, Neighbour(g, v, 0), v, seen + {v});
    var path2 := Spacewalk(g, Neighbour(g, v, 1), v, after1).0;
    SpacewalkIsChained(g, Neighbour(g, v, 0), v, seen + {v});
    SpacewalkIsChained(g, Neighbour(g, v, 1), v, after1);
    NeighbourIsAdjacent(g, v, 0);
    NeighbourIsAdjacent(g, v, 1);
    AdjacentSymmetric(g, v, Neighbour(g, v, 0));
    ReverseChained(g, path2);
    JoinChained(g, path1, v, Reverse(path2));
    assert (path1 + [v] + Reverse(path2))[|path1|] == v;
  }

  /** The marks grow by `v` and otherwise only by stations on the line through `v`. */
  lemma LineThroughMarks(g: Graph, v: NodeRef, seen: set<NodeRef>)
    requires Navigable(g) && ValidNode(g, v) && Degree(g, v) == 2
    ensures var res := LineThrough(g, v, seen);
            && seen + {v} <= res.1
            && (forall u :: u in res.1 ==> u in seen || u in res.0)
  {
    var (path1, after1) := Spacewalk(g, Neighbour(g, v, 0), v, seen + {v});
    var (path2, after2) := Spacewalk(g, Neighbour(g, v, 1), v, after1);
    SpacewalkMarks(g, Neighbour(g, v, 0), v, seen + {v});
    SpacewalkMarks(g, Neighbour(g, v, 1), v, after1);
    JoinHolds(path1, v, path2);
  }

  /** Every station of `a`, `v` and `b` is on `a + [v] + Reverse(b)`. */
  lemma JoinHolds(a: seq<NodeRef>, v: NodeRef, b: seq<NodeRef>)
    ensures forall u :: u in a || u == v || u in b ==> u in a + [v] + Reverse(b)
  {
    var line := a + [v] + Reverse(b);
    forall u | u in a || u == v || u in b
      ensures u in line
    {
      if u in a {
        var j :| 0 <= j < |a| && a[j] == u;
        assert line[j] == u;
      } else if u == v {
        assert line[|a|] == u;
      } else {
        var j :| 0 <= j < |b| && b[j] == u;
        assert line[|a| + 1 + (|b| - 1 - j)] == u;
      }
    }
  }

  /** Both halves of what `find_degree_2_lines` needs of a line. */
  lemma LineThroughFacts(g: Graph, v: NodeRef, seen: set<NodeRef>)
    requires Navigable(g) && ValidNode(g, v) && Degree(g, v) == 2
    ensures var res := LineThrough(g, v, seen);
            && v in res.0 && GoodLine(g, res.0)
            && seen + {v} <= res.1
            && (forall u :: u in res.1 ==> u in seen || u in res.0)
  {
    LineThroughChained(g, v, seen);
    LineThroughMarks(g, v, seen);
  }

  lemma ChainedSnoc(g: Graph, w: seq<NodeRef>, v: NodeRef)
    requires Chained(g, w) && AllValid(g, w) && ValidNode(g, v)
    requires w != [] && Adjacent(g, w[|w| - 1], v)
    ensures Chained(g, w + [v]) && AllValid(g, w + [v])
  {
    var x := w + [v];
    forall j | 0 < j < |x|
      ensures StepLinked(g, x, j)
    {
      if j < |w| {
        assert StepLinked(g, w, j);
        assert x[j - 1] == w[j - 1] && x[j] == w[j];
      }
    }
  }

  lemma JoinChained(g: Graph, a: seq<NodeRef>, v: NodeRef, b: seq<NodeRef>)
    requires Chained(g, a) && Chained(g, b) && AllValid(g, a) && AllValid(g, b) && ValidNode(g, v)
    requires a != [] ==> Adjacent(g, a[|a| - 1], v)
    requires b != [] ==> Adjacent(g, v, b[0])
    ensures Chained(g, a + [v] + b) && AllValid(g, a + [v] + b)
  {
    var w := a + [v] + b;
    forall j | 0 < j < |w|
      ensures StepLinked(g, w, j)
    {
      if j < |a| {
        assert StepLinked(g, a, j);
        assert w[j - 1] == a[j - 1] && w[j] == a[j];
      } else if j == |a| {
      } else if j == |a| + 1 {
      } else {
        assert StepLinked(g, b, j - 1 - |a|);
        assert w[j - 1] == b[j - 2 - |a|] && w[j] == b[j - 1 - |a|];
      }
    }
  }

  /**
   * The loop of `find_degree_2_lines` from station index `i` on: every
   * unmarked degree-2 station starts a new line; other stations are
   * skipped.
   */
  function LinesFrom(g: Graph, i: nat, seen: set<NodeRef>): (lines: seq<seq<NodeRef>>)
    requires Navigable(g) && i <= |g.nodes|
    decreases |g.nodes| - i, 1
    ensures i == |g.nodes| ==> lines == []
  {
    if i == |g.nodes| then [] else LinesAt(g, i, seen)
  }

  /** One round of the loop, at station `i`, followed by the rest of the loop. */
  function LinesAt(g: Graph, i: nat, seen: set<NodeRef>): (lines: seq<seq<NodeRef>>)
    requires Navigable(g) && i < |g.nodes|
    decreases |g.nodes| - i, 0
  {
    if i in seen || Degree(g, i) != 2 then LinesFrom(g, i + 1, seen)
    else
      var (line, after) := LineThrough(g, i, seen);
      [line] + LinesFrom(g, i + 1, after)
  }

  /** A marked station, or one whose degree is not 2, starts no line. */
  lemma LinesFromSkip(g: Graph, i: nat, seen: set<NodeRef>)
    requires Navigable(g) && i < |g.nodes| && (i in seen || Degree(g, i) != 2)
    ensures LinesFrom(g, i, seen) == LinesFrom(g, i + 1, seen)
  {
    assert LinesFrom(g, i, seen) == LinesAt(g, i, seen);
  }

  /** An unmarked degree-2 station starts the next line. */
  lemma LinesFromStart(g: Graph, i: nat, seen: set<NodeRef>)
    requires Navigable(g) && i < |g.nodes| && i !in seen && Degree(g, i) == 2
    ensures LinesFrom(g, i, seen) == [LineThrough(g, i, seen).0] + LinesFrom(g, i + 1, LineThrough(g, i, seen).1)
  {
    assert LinesFrom(g, i, seen) == LinesAt(g, i, seen);
  }

  /** A line of existing stations, each joined to the next by an edge. */
  ghost predicate GoodLine(g: Graph, w: seq<NodeRef>)
  {
    AllValid(g, w) && Chained(g, w)
  }

  /** Every one of `lines` is a good line. */
  ghost predicate AllGoodLines(g: Graph, lines: seq<seq<NodeRef>>)
  {
    forall k {:trigger GoodLineAt(g, lines, k)} :: 0 <= k < |lines| ==> GoodLineAt(g, lines, k)
  }

  ghost predicate GoodLineAt(g: Graph, lines: seq<seq<NodeRef>>, k: nat)
    requires k < |lines|
  {
    GoodLine(g, lines[k])
  }

  lemma ConsGoodLines(g: Graph, line: seq<NodeRef>, rest: seq<seq<NodeRef>>)
    requires GoodLine(g, line) && AllGoodLines(g, rest)
    ensures AllGoodLines(g, [line] + rest)
  {
    var all := [line] + rest;
    forall k | 0 <= k < |all|
      ensures GoodLineAt(g, all, k)
    {
      if k > 0 {
        assert GoodLineAt(g, rest, k - 1);
        assert all[k] == rest[k - 1];
      }
    }
  }

  lemma GoodLinesEach(g: Graph, lines: seq<seq<NodeRef>>)
    requires AllGoodLines(g, lines)
    ensures forall k :: 0 <= k < |lines| ==> AllValid(g, lines[k]) && Chained(g, lines[k])
  {
    forall k | 0 <= k < |lines|
      ensures AllValid(g, lines[k]) && Chained(g, lines[k])
    {
      assert GoodLineAt(g, lines, k);
    }
  }

  /** Every line found consists of existing stations joined by edges. */
  lemma {:induction false} LinesFromChained(g: Graph, i: nat, seen: set<NodeRef>)
    requires Navigable(g) && i <= |g.nodes|
    decreases |g.nodes| - i
    ensures AllGoodLines(g, LinesFrom(g, i, seen))
  {
    if i < |g.nodes| {
      if i in seen || Degree(g, i) != 2 {
        LinesFromChained(g, i + 1, seen);
        LinesFromSkip(g, i, seen);
      } else {
        LinesFromChained(g, i + 1, LineThrough(g, i, seen).1);
        ChainedStart(g, i, seen);
      }
    } else {
      assert LinesFrom(g, i, seen) == [];
    }
  }

  /** The inductive step of `LinesFromChained` at a station that starts a line. */
  lemma ChainedStart(g: Graph, i: nat, seen: set<NodeRef>)
    requires Navigable(g) && i < |g.nodes| && i !in seen && Degree(g, i) == 2
    requires AllGoodLines(g, LinesFrom(g, i + 1, LineThrough(g, i, seen).1))
    ensures AllGoodLines(g, LinesFrom(g, i, seen))
  {
    var res := LineThrough(g, i, seen);
    LineThroughFacts(g, i, seen);
    LinesFromStart(g, i, seen);
    ConsGoodLines(g, res.0, LinesFrom(g, i + 1, res.1));
  }

  /** Station `u` is a degree-2 station not yet marked in `seen`. */
  ghost predicate Pending(g: Graph, seen: set<NodeRef>, u: NodeRef)
  {
    ValidNode(g, u) && u !in seen && Degree(g, u) == 2
  }

  /** Every pending station from index `i` on lies on one of `lines`. */
  ghost predicate CoversFrom(g: Graph, lines: seq<seq<NodeRef>>, i: nat, seen: set<NodeRef>)
  {
    forall u {:trigger Pending(g, seen, u)} :: i <= u && Pending(g, seen, u) ==> OnSomeLine(lines, u)
  }

  /** Every unmarked degree-2 station from `i` on lies on some line found. */
  lemma {:induction false} LinesFromCover(g: Graph, i: nat, seen: set<NodeRef>)
    requires Navigable(g) && i <= |g.nodes|
    decreases |g.nodes| - i
    ensures CoversFrom(g, LinesFrom(g, i, seen), i, seen)
  {
    if i < |g.nodes| {
      if i in seen || Degree(g, i) != 2 {
        LinesFromCover(g, i + 1, seen);
        LinesFromSkip(g, i, seen);
        CoverSkip(g, i, seen, LinesFrom(g, i + 1, seen));
      } else {
        LinesFromCover(g, i + 1, LineThrough(g, i, seen).1);
        CoverStart(g, i, seen);
      }
    }
  }

  /** The inductive step of `LinesFromCover` at a station that starts a line. */
  lemma CoverStart(g: Graph, i: nat, seen: set<NodeRef>)
    requires Navigable(g) && i < |g.nodes| && i !in seen && Degree(g, i) == 2
    requires CoversFrom(g, LinesFrom(g, i + 1, LineThrough(g, i, seen).1), i + 1, LineThrough(g, i, seen).1)
    ensures CoversFrom(g, LinesFrom(g, i, seen), i, seen)
  {
    var res := LineThrough(g, i, seen);
    LineThroughFacts(g, i, seen);
    LinesFromStart(g, i, seen);
    LinesCover(g, i, seen, res.0, res.1, LinesFrom(g, i + 1, res.1));
  }

  /** A station that is not pending needs no line. */
  lemma CoverSkip(g: Graph, i: nat, seen: set<NodeRef>, lines: seq<seq<NodeRef>>)
    requires !Pending(g, seen, i) && CoversFrom(g, lines, i + 1, seen)
    ensures CoversFrom(g, lines, i, seen)
  {
    forall u | i <= u && Pending(g, seen, u)
      ensures OnSomeLine(lines, u)
    {
      assert i + 1 <= u;
    }
  }

  /** A station unmarked before a line was walked is on that line or still unmarked after it. */
  lemma LinesCover(g: Graph, i: nat, seen: set<NodeRef>, line: seq<NodeRef>, after: set<NodeRef>,
                   rest: seq<seq<NodeRef>>)
    requires i in line
    requires forall u :: u in after ==> u in seen || u in line
    requires CoversFrom(g, rest, i + 1, after)
    ensures CoversFrom(g, [line] + rest, i, seen)
  {
    var all := [line] + rest;
    forall u | i <= u && Pending(g, seen, u)
      ensures OnSomeLine(all, u)
    {
      if u in line || u == i {
        assert all[0] == line;
      } else {
        assert Pending(g, after, u);
        var k :| 0 <= k < |rest| && u in rest[k];
        assert all[k + 1] == rest[k];
      }
    }
  }

  /** Station `u` appears in one of the lines. */
  ghost predicate OnSomeLine(lines: seq<seq<NodeRef>>, u: NodeRef)
  {
    exists k :: 0 <= k < |lines| && u in lines[k]
  }

  lemma CoversAll(g: Graph, lines: seq<seq<NodeRef>>)
    requires CoversFrom(g, lines, 0, {})
    ensures forall u :: ValidNode(g, u) && Degree(g, u) == 2 ==> OnSomeLine(lines, u)
  {
    forall u | ValidNode(g, u) && Degree(g, u) == 2
      ensures OnSomeLine(lines, u)
    {
      assert Pending(g, {}, u);
    }
  }

  /** `Network.find_degree_2_lines`: the degree-2 lines, in discovery order. */
  function FindDegree2Lines(g: Graph): (lines: seq<seq<NodeRef>>)
    requires GoodGraph(g)
    ensures forall k :: 0 <= k < |lines| ==> AllValid(g, lines[k]) && Chained(g, lines[k])
    ensures forall u :: ValidNode(g, u) && Degree(g, u) == 2 ==> OnSomeLine(lines, u)
  {
    LinesFromChained(g, 0, {});
    GoodLinesEach(g, LinesFrom(g, 0, {}));
    LinesFromCover(g, 0, {});
    CoversAll(g, LinesFrom(g, 0, {}));
    LinesFrom(g, 0, {})
  }

  // ---------------------------------------------------------------------
  // Two graph shapes whose lines are known exactly
  // ---------------------------------------------------------------------

  /** The stations `lo`, ..., `hi - 1` in ascending order. */
  function Span(lo: nat, hi: nat): (w: seq<NodeRef>)
    decreases hi - lo
    ensures |w| == if lo <= hi then hi - lo else 0
    ensures forall j :: 0 <= j < |w| ==> w[j] == lo + j
  {
    if hi <= lo then [] else [lo] + Span(lo + 1, hi)
  }

  /** The stations `hi - 1`, ..., `lo` in descending order. */
  function Down(hi: nat, lo: nat): (w: seq<NodeRef>)
    decreases hi - lo
    ensures |w| == if lo <= hi then hi - lo else 0
    ensures forall j :: 0 <= j < |w| ==> w[j] == hi - 1 - j
  {
    if hi <= lo then [] else Down(hi, lo + 1) + [lo]
  }

  lemma ReverseDown(hi: nat, lo: nat)
    requires lo <= hi
    ensures Reverse(Down(hi, lo)) == Span(lo, hi)
  {
  }

  /** `Spacewalk` from a station of degree other than 2 lists just that station. */
  lemma SpacewalkAtEnd(g: Graph, v: NodeRef, prev: NodeRef, seen: set<NodeRef>)
    requires Navigable(g) && ValidNode(g, v) && Degree(g, v) != 2
    ensures Spacewalk(g, v, prev, seen) == ([v], seen + {v})
  {
  }

  /** `Spacewalk` whose successor is not of degree 2 lists the successor, then `v`. */
  lemma SpacewalkToEnd(g: Graph, v: NodeRef, prev: NodeRef, seen: set<NodeRef>)
    requires Navigable(g) && ValidNode(g, v) && Degree(g, v) == 2
    requires Degree(g, Successor(g, v, prev)) != 2
    ensures Spacewalk(g, v, prev, seen) == ([Successor(g, v, prev), v], seen + {v})
  {
  }

  /** `Spacewalk` whose degree-2 successor is already marked lists just `v`. */
  lemma SpacewalkToMarked(g: Graph, v: NodeRef, prev: NodeRef, seen: set<NodeRef>)
    requires Navigable(g) && ValidNode(g, v) && Degree(g, v) == 2
    requires Degree(g, Successor(g, v, prev)) == 2 && Successor(g, v, prev) in seen + {v}
    ensures Spacewalk(g, v, prev, seen) == ([v], seen + {v})
  {
  }

  /**
   * `Spacewalk` from `v` whose successor `next` is an unmarked degree-2
   * station walks on from `next` with `v` marked.
   */
  lemma SpacewalkOn(g: Graph, v: NodeRef, prev: NodeRef, seen: set<NodeRef>, next: NodeRef, marked: set<NodeRef>)
    requires Navigable(g) && ValidNode(g, v) && Degree(g, v) == 2
    requires next == Successor(g, v, prev) && marked == seen + {v}
    requires Degree(g, next) == 2 && next !in marked
    ensures Spacewalk(g, v, prev, seen) == (Spacewalk(g, next, v, marked).0 + [v], Spacewalk(g, next, v, marked).1)
  {
    assert Spacewalk(g, v, prev, seen) == WalkOn(g, v, prev, marked);
  }

  /**
   * A path of n >= 3 stations numbered along it: edge k joins stations k
   * and k + 1, and every station lists its edges in that order.
   */
  ghost predicate IsPathGraph(g: Graph)
  {
    var n := |g.nodes|;
    && n >= 3 && |g.edges| == n - 1
    && (forall k {:trigger PathStep(g, k)} :: 0 <= k < n - 1 ==> PathStep(g, k))
    && |g.nodes[0].edges| == 1 && g.nodes[0].edges[0] == 0
    && |g.nodes[n - 1].edges| == 1 && g.nodes[n - 1].edges[0] == n - 2
  }

  /**
   * Edge k of a path joins k and k + 1, and station k + 1, unless it is
   * the last, lists edges k and k + 1 in that order.
   */
  ghost predicate PathStep(g: Graph, k: nat)
  {
    && k < |g.edges| && k + 1 < |g.nodes|
    && g.edges[k].v0 == k && g.edges[k].v1 == k + 1
    && (k + 2 < |g.nodes| ==>
          |g.nodes[k + 1].edges| == 2 && g.nodes[k + 1].edges[0] == k && g.nodes[k + 1].edges[1] == k + 1)
  }

  /** Inside a path, station k continues from k - 1 to k + 1. */
  lemma PathSuccessor(g: Graph, k: nat)
    requires Navigable(g) && IsPathGraph(g) && 0 < k < |g.nodes| - 1
    ensures Degree(g, k) == 2 && Neighbour(g, k, 0) == k - 1 && Neighbour(g, k, 1) == k + 1
    ensures Successor(g, k, k - 1) == k + 1
  {
    assert PathStep(g, k - 1) && PathStep(g, k);
  }

  /**
   * On a path, walking from station k away from k - 1 with the stations
   * below k marked runs to the far end, listing it first.
   */
  lemma {:induction false} PathWalk(g: Graph, k: nat)
    requires Navigable(g) && IsPathGraph(g) && 2 <= k < |g.nodes|
    decreases |g.nodes| - k
    ensures PathWalkFacts(g, k)
  {
    if k == |g.nodes| - 1 {
      PathWalkAtFarEnd(g, k);
    } else if k == |g.nodes| - 2 {
      PathWalkBeforeFarEnd(g, k);
    } else {
      PathWalk(g, k + 1);
      PathWalkInner(g, k);
    }
  }

  /** The outcome of walking a path from station k, as `PathWalk` states it. */
  ghost predicate PathWalkFacts(g: Graph, k: nat)
    requires Navigable(g) && IsPathGraph(g) && 2 <= k < |g.nodes|
  {
    && Spacewalk(g, k, k - 1, NodesBelow(k)).0 == Down(|g.nodes|, k)
    && NodesBelow(|g.nodes| - 1) <= Spacewalk(g, k, k - 1, NodesBelow(k)).1
  }

  lemma PathWalkAtFarEnd(g: Graph, k: nat)
    requires Navigable(g) && IsPathGraph(g) && 2 <= k == |g.nodes| - 1
    ensures PathWalkFacts(g, k)
  {
    SpacewalkAtEnd(g, k, k - 1, NodesBelow(k));
    assert Down(|g.nodes|, k) == [k];
  }

  lemma PathWalkBeforeFarEnd(g: Graph, k: nat)
    requires Navigable(g) && IsPathGraph(g) && 2 <= k == |g.nodes| - 2
    ensures PathWalkFacts(g, k)
  {
    PathSuccessor(g, k);
    SpacewalkToEnd(g, k, k - 1, NodesBelow(k));
    assert Down(|g.nodes|, k) == [k + 1, k];
  }

  /** The inductive step of `PathWalk`, for a station two or more before the end. */
  lemma PathWalkInner(g: Graph, k: nat)
    requires Navigable(g) && IsPathGraph(g) && 2 <= k < |g.nodes| - 2
    requires PathWalkFacts(g, k + 1)
    ensures PathWalkFacts(g, k)
  {
    PathWalkStep(g, k);
    assert Down(|g.nodes|, k) == Down(|g.nodes|, k + 1) + [k];
  }

  /** Walking on from station k continues with station k + 1, k now marked. */
  lemma PathWalkStep(g: Graph, k: nat)
    requires Navigable(g) && IsPathGraph(g) && 2 <= k < |g.nodes| - 2
    ensures var rest := Spacewalk(g, k + 1, k, NodesBelow(k + 1));
            Spacewalk(g, k, k - 1, NodesBelow(k)) == (rest.0 + [k], rest.1)
  {
    PathSuccessor(g, k);
    PathSuccessor(g, k + 1);
    assert NodesBelow(k) + {k} == NodesBelow(k + 1);
    SpacewalkOn(g, k, k - 1, NodesBelow(k), k + 1, NodesBelow(k + 1));
  }

  /** No unmarked degree-2 station from `i` on: no further lines. */
  lemma {:induction false} NoMoreLines(g: Graph, i: nat, seen: set<NodeRef>)
    requires Navigable(g) && i <= |g.nodes|
    requires forall u :: i <= u < |g.nodes| ==> u in seen || Degree(g, u) != 2
    decreases |g.nodes| - i
    ensures LinesFrom(g, i, seen) == []
  {
    if i < |g.nodes| {
      NoMoreLines(g, i + 1, seen);
    }
  }

  /** `LineThrough` assembled from the results of its two walks. */
  lemma LineThroughOf(g: Graph, v: NodeRef, seen: set<NodeRef>,
                      path1: seq<NodeRef>, after1: set<NodeRef>, path2: seq<NodeRef>, after2: set<NodeRef>)
    requires Navigable(g) && ValidNode(g, v) && Degree(g, v) == 2
    requires Spacewalk(g, Neighbour(g, v, 0), v, seen + {v}) == (path1, after1)
    requires Spacewalk(g, Neighbour(g, v, 1), v, after1) == (path2, after2)
    ensures LineThrough(g, v, seen) == (path1 + [v] + Reverse(path2), after2)
  {
  }

  /** On a path, the walk from station 1 back to station 0 stops there at once. */
  lemma PathStart(g: Graph)
    requires Navigable(g) && IsPathGraph(g)
    ensures Spacewalk(g, 0, 1, {} + {1}) == ([0], NodesBelow(2))
  {
    SpacewalkAtEnd(g, 0, 1, {} + {1});
    assert {} + {1} + {0} == NodesBelow(2);
  }

  lemma SpanFromTwo(n: nat)
    requires n >= 2
    ensures [0] + [1] + Span(2, n) == Span(0, n)
  {
    assert Span(0, n) == [0] + Span(1, n);
    assert Span(1, n) == [1] + Span(2, n);
  }

  /** On a path, the line through station 1 runs end to end and marks all but the last station. */
  lemma PathLineThrough(g: Graph)
    requires Navigable(g) && IsPathGraph(g)
    ensures Degree(g, 1) == 2
    ensures LineThrough(g, 1, {}).0 == Span(0, |g.nodes|)
    ensures NodesBelow(|g.nodes| - 1) <= LineThrough(g, 1, {}).1
  {
    var n := |g.nodes|;
    PathSuccessor(g, 1);
    PathStart(g);
    PathWalk(g, 2);
    var after2 := Spacewalk(g, 2, 1, NodesBelow(2)).1;
    LineThroughOf(g, 1, {}, [0], NodesBelow(2), Down(n, 2), after2);
    ReverseDown(n, 2);
    SpanFromTwo(n);
  }

  /** A path yields exactly one line: all its stations, end to end. */
  lemma PathGraphHasOneLine(g: Graph)
    requires GoodGraph(g) && IsPathGraph(g)
    ensures FindDegree2Lines(g) == [Span(0, |g.nodes|)]
  {
    PathSuccessor(g, 1);
    PathLineThrough(g);
    LinesFromSkip(g, 0, {});
    LinesFromStart(g, 1, {});
    PathRestMarked(g, LineThrough(g, 1, {}).1);
    NoMoreLines(g, 2, LineThrough(g, 1, {}).1);
  }

  /** With all but the last station of a path marked, no station from 2 on is pending. */
  lemma PathRestMarked(g: Graph, marks: set<NodeRef>)
    requires IsPathGraph(g) && NodesBelow(|g.nodes| - 1) <= marks
    ensures forall u :: 2 <= u < |g.nodes| ==> u in marks || Degree(g, u) != 2
  {
  }

  /**
   * A simple cycle of n >= 3 stations numbered around it: edge k joins
   * station k to k + 1, the last edge closing the ring back to station 0,
   * which lists its edges as [0, n - 1]; every other station k lists
   * [k - 1, k].
   */
  ghost predicate IsCycleGraph(g: Graph)
  {
    var n := |g.nodes|;
    && n >= 3 && |g.edges| == n
    && (forall k {:trigger CycleStep(g, k)} :: 0 <= k < n ==> CycleStep(g, k))
    && |g.nodes[0].edges| == 2 && g.nodes[0].edges[0] == 0 && g.nodes[0].edges[1] == n - 1
  }

  /** Edge k of a cycle joins k to its successor; station k > 0 lists edges k - 1 and k. */
  ghost predicate CycleStep(g: Graph, k: nat)
  {
    && k < |g.edges| && k < |g.nodes|
    && g.edges[k].v0 == k && g.edges[k].v1 == (if k + 1 < |g.nodes| then k + 1 else 0)
    && (0 < k ==> |g.nodes[k].edges| == 2 && g.nodes[k].edges[0] == k - 1 && g.nodes[k].edges[1] == k)
  }

  /** Around a cycle, station k continues from k - 1 to k + 1, wrapping to 0. */
  lemma CycleSuccessor(g: Graph, k: nat)
    requires Navigable(g) && IsCycleGraph(g) && 0 < k < |g.nodes|
    ensures Degree(g, k) == 2 && Neighbour(g, k, 0) == k - 1
    ensures Neighbour(g, k, 1) == (if k + 1 < |g.nodes| then k + 1 else 0)
    ensures Successor(g, k, k - 1) == Neighbour(g, k, 1)
  {
    assert CycleStep(g, k - 1) && CycleStep(g, k);
  }

  /** Around a cycle, walking on from station k runs until the marked station 0. */
  lemma {:induction false} CycleWalk(g: Graph, k: nat)
    requires Navigable(g) && IsCycleGraph(g) && 1 <= k < |g.nodes|
    decreases |g.nodes| - k
    ensures CycleWalkFacts(g, k)
  {
    if k == |g.nodes| - 1 {
      CycleWalkBackToStart(g, k);
    } else {
      CycleWalk(g, k + 1);
      CycleWalkInner(g, k);
    }
  }

  ghost predicate CycleWalkFacts(g: Graph, k: nat)
    requires Navigable(g) && IsCycleGraph(g) && 1 <= k < |g.nodes|
  {
    && Spacewalk(g, k, k - 1, NodesBelow(k)).0 == Down(|g.nodes|, k)
    && Spacewalk(g, k, k - 1, NodesBelow(k)).1 == NodesBelow(|g.nodes|)
  }

  lemma CycleWalkBackToStart(g: Graph, k: nat)
    requires Navigable(g) && IsCycleGraph(g) && k == |g.nodes| - 1
    ensures CycleWalkFacts(g, k)
  {
    CycleSuccessor(g, k);
    assert Degree(g, 0) == 2;
    assert NodesBelow(k) + {k} == NodesBelow(k + 1);
    SpacewalkToMarked(g, k, k - 1, NodesBelow(k));
    assert Down(k + 1, k) == [k];
  }

  /** The inductive step of `CycleWalk`. */
  lemma CycleWalkInner(g: Graph, k: nat)
    requires Navigable(g) && IsCycleGraph(g) && 1 <= k < |g.nodes| - 1
    requires CycleWalkFacts(g, k + 1)
    ensures CycleWalkFacts(g, k)
  {
    CycleSuccessor(g, k);
    CycleSuccessor(g, k + 1);
    WalkExtendsDown(g, k, |g.nodes|);
  }

  /** One more station walked before a descending run of stations extends the run by one. */
  lemma WalkExtendsDown(g: Graph, k: nat, n: nat)
    requires Navigable(g) && 1 <= k && k + 1 < n == |g.nodes|
    requires Degree(g, k) == 2 && Degree(g, k + 1) == 2 && Successor(g, k, k - 1) == k + 1
    requires Spacewalk(g, k + 1, k, NodesBelow(k + 1)) == (Down(n, k + 1), NodesBelow(n))
    ensures Spacewalk(g, k, k - 1, NodesBelow(k)) == (Down(n, k), NodesBelow(n))
  {
    NodesBelowSnoc(k);
    SpacewalkOn(g, k, k - 1, NodesBelow(k), k + 1, NodesBelow(k + 1));
    DownSnoc(n, k);
  }

  lemma NodesBelowSnoc(k: nat)
    ensures NodesBelow(k) + {k} == NodesBelow(k + 1)
  {
  }

  lemma DownSnoc(hi: nat, lo: nat)
    requires lo < hi
    ensures Down(hi, lo) == Down(hi, lo + 1) + [lo]
  {
  }

  /** Around a cycle, the walk from station 0 through station n - 1 stops at once. */
  lemma CycleBackWalk(g: Graph)
    requires Navigable(g) && IsCycleGraph(g)
    ensures Spacewalk(g, |g.nodes| - 1, 0, NodesBelow(|g.nodes|)) == ([|g.nodes| - 1], NodesBelow(|g.nodes|))
  {
    var n := |g.nodes|;
    CycleSuccessor(g, n - 1);
    CycleSuccessor(g, n - 2);
    assert Successor(g, n - 1, 0) == n - 2;
    SpacewalkToMarked(g, n - 1, 0, NodesBelow(n));
    assert NodesBelow(n) + {n - 1} == NodesBelow(n);
  }

  /** The one line of a cycle: n - 1 down to 0, then n - 1 again. */
  lemma CycleLine(g: Graph)
    requires GoodGraph(g) && IsCycleGraph(g)
    ensures FindDegree2Lines(g) == [Down(|g.nodes|, 1) + [0] + [|g.nodes| - 1]]
  {
    var n := |g.nodes|;
    assert CycleStep(g, 0) && CycleStep(g, n - 1);
    assert Neighbour(g, 0, 0) == 1 && Neighbour(g, 0, 1) == n - 1;
    assert NodesBelow(1) == {} + {0};
    CycleWalk(g, 1);
    CycleBackWalk(g);
    LineThroughOf(g, 0, {}, Down(n, 1), NodesBelow(n), [n - 1], NodesBelow(n));
    assert Reverse([n - 1]) == [n - 1];
    LinesFromStart(g, 0, {});
    NoMoreLines(g, 1, NodesBelow(n));
  }

  /**
   * A simple cycle yields exactly one line of n + 1 entries that starts and
   * ends at the same station, and every station is on it.
   */
  lemma CycleGraphHasOneClosedLine(g: Graph)
    requires GoodGraph(g) && IsCycleGraph(g)
    ensures |FindDegree2Lines(g)| == 1
    ensures var line := FindDegree2Lines(g)[0];
            |line| == |g.nodes| + 1 && line[0] == line[|g.nodes|]
    ensures forall u :: ValidNode(g, u) ==> u in FindDegree2Lines(g)[0]
  {
    var n := |g.nodes|;
    CycleLine(g);
    var line := Down(n, 1) + [0] + [n - 1];
    forall u | ValidNode(g, u)
      ensures u in line
    {
      if u == 0 {
        assert line[n - 1] == 0;
      } else {
        assert line[n - 1 - u] == u;
      }
    }
  }
}
