/**
 * Bends at degree-2 stations (elements/network.py): the straight-through
 * and right-angle tests and `smoothen`, which turns a right angle into a
 * straight line by rotating each of the two edges one step.
 */
module Bends {
  import opened Optional
  import opened Ports
  import opened Topology
  import opened Occupancy

  /** The port the `k`-th edge of station `v` records at `v`. */
  function EdgePort(g: Graph, s: Layout, v: NodeRef, k: nat): Option<Port>
    requires WellFormed(g, s) && ValidNode(g, v) && k < Degree(g, v)
  {
    FollowEntry(g, v, k);
    PortAt(g, s, g.nodes[v].edges[k], v)
  }

  /** The port the `k`-th edge of station `v` records at its other end. */
  function FarPort(g: Graph, s: Layout, v: NodeRef, k: nat): Option<Port>
    requires WellFormed(g, s) && ValidNode(g, v) && k < Degree(g, v)
  {
    FollowEntry(g, v, k);
    PortAt(g, s, g.nodes[v].edges[k], Neighbour(g, v, k))
  }

  /** At a degree-2 station both edges have a port there. */
  predicate BothPortsKnown(g: Graph, s: Layout, v: NodeRef)
    requires WellFormed(g, s) && ValidNode(g, v)
  {
    Degree(g, v) == 2 ==> EdgePort(g, s, v, 0).Some? && EdgePort(g, s, v, 1).Some?
  }

  /**
   * `Node.is_straight_through`: a degree-2 station whose first edge leaves
   * opposite to its second. The source answers `None` (falsy) for other
   * degrees and cannot take the opposite of an unassigned second port.
   */
  function IsStraightThrough(g: Graph, s: Layout, v: NodeRef): (b: bool)
    requires WellFormed(g, s) && ValidNode(g, v)
    requires Degree(g, v) == 2 ==> EdgePort(g, s, v, 1).Some?
    ensures b <==> Degree(g, v) == 2 && EdgePort(g, s, v, 0).Some?
                   && Steps(EdgePort(g, s, v, 0).value, EdgePort(g, s, v, 1).value) == 4
  {
    Degree(g, v) == 2 && EdgePort(g, s, v, 0) == Some(Opposite(EdgePort(g, s, v, 1).value))
  }

  /** Two ports a quarter turn apart, in the source's formulation. */
  predicate QuarterApart(a: Port, b: Port)
  {
    (a + 2) % 8 == b || (b + 2) % 8 == a
  }

  lemma QuarterApartIsTwoSteps(a: Port, b: Port)
    ensures QuarterApart(a, b) <==> Steps(a, b) == 2
  {
  }

  /**
   * `Node.is_right_angle`: a degree-2 station whose two edges leave 90
   * degrees apart; false for any other degree.
   */
  function IsRightAngle(g: Graph, s: Layout, v: NodeRef): (b: bool)
    requires WellFormed(g, s) && ValidNode(g, v) && BothPortsKnown(g, s, v)
    ensures b <==> Degree(g, v) == 2 && Steps(EdgePort(g, s, v, 0).value, EdgePort(g, s, v, 1).value) == 2
  {
    if Degree(g, v) == 2 then
      QuarterApartIsTwoSteps(EdgePort(g, s, v, 0).value, EdgePort(g, s, v, 1).value);
      QuarterApart(EdgePort(g, s, v, 0).value, EdgePort(g, s, v, 1).value)
    else false
  }

  /**
   * The new port of the first edge in `smoothen`: one step away from the
   * second edge. The source computes `(a-1)%8` with Python's `%`, which
   * like Dafny's never yields a negative result for a positive divisor.
   */
  function SmoothTurn(a: Port, b: Port): Port
  {
    if (a + 2) % 8 == b then (a - 1) % 8 else (a + 1) % 8
  }

  /**
   * For two ports a quarter turn apart, the turned first port and its
   * opposite are each one step from the port they replace, and neither
   * coincides with either old port.
   */
  lemma SmoothTurnMovesOneStep(a: Port, b: Port)
    requires QuarterApart(a, b)
    ensures Steps(a, SmoothTurn(a, b)) == 1 && Steps(b, Opposite(SmoothTurn(a, b))) == 1
    ensures SmoothTurn(a, b) != b && Opposite(SmoothTurn(a, b)) != a
  {
    // `b` is a quarter turn after `a`, or before it.
    var t := SmoothTurn(a, b);
    if (a + 2) % 8 == b {
      assert t == (a + 7) % 8;
      assert Opposite(t) == (a + 3) % 8;
    } else {
      assert a == (b + 2) % 8;
      assert t == (a + 1) % 8;
      assert Opposite(t) == (a + 5) % 8;
    }
  }

  /**
   * `Node.smoothen`: at a right-angled station, move the first edge one
   * step away from the second and the second edge to the opposite of that,
   * both without force. Each move happens exactly when its target slot was
   * empty; when both happen the station is straight through (the source
   * yields a straight line here, not a 45-degree bend). No bend point
   * changes, and any other station and connection is left as it is.
   */
  method Smoothen(g: Graph, s: Layout, v: NodeRef) returns (r: Layout)
    requires WellFormed(g, s) && ValidNode(g, v) && BothPortsKnown(g, s, v)
    ensures WellFormed(g, r)
    ensures !IsRightAngle(g, s, v) ==> r == s
    ensures IsRightAngle(g, s, v) ==>
              var t := SmoothTurn(EdgePort(g, s, v, 0).value, EdgePort(g, s, v, 1).value);
              && EdgePort(g, r, v, 0) ==
                   (if s.nodes[v].ports[t] == Empty then Some(t) else EdgePort(g, s, v, 0))
              && EdgePort(g, r, v, 1) ==
                   (if s.nodes[v].ports[Opposite(t)] == Empty then Some(Opposite(t)) else EdgePort(g, s, v, 1))
              && (s.nodes[v].ports[t] == Empty && s.nodes[v].ports[Opposite(t)] == Empty ==>
                    IsStraightThrough(g, r, v))
    ensures IsRightAngle(g, s, v) ==> FarPort(g, r, v, 0) == FarPort(g, s, v, 0) && FarPort(g, r, v, 1) == FarPort(g, s, v, 1)
    ensures IsRightAngle(g, s, v) ==> forall f :: 0 <= f < |s.edges| && f != g.nodes[v].edges[0] && f != g.nodes[v].edges[1] ==>
              r.edges[f] == s.edges[f]
    ensures forall f :: 0 <= f < |s.edges| ==> r.edges[f].bend == s.edges[f].bend
    ensures r.nodes[v].labelPort == s.nodes[v].labelPort
    ensures forall u :: 0 <= u < |s.nodes| && u != v ==> r.nodes[u] == s.nodes[u]
  {
    if !IsRightAngle(g, s, v) {
      return s;
    }
    var e0, e1 := g.nodes[v].edges[0], g.nodes[v].edges[1];
    FollowEntry(g, v, 0);
    FollowEntry(g, v, 1);
    var a, b := EdgePort(g, s, v, 0).value, EdgePort(g, s, v, 1).value;
    var t := SmoothTurn(a, b);
    SmoothTurnMovesOneStep(a, b);
    OppositeIsInvolution(t);
    SlotFacts(g, s, v, t);
    SlotFacts(g, s, v, Opposite(t));
    var _, s1 := Assign(g, s, v, e0, t, false);
    assert s1.nodes[v].ports[Opposite(t)] == s.nodes[v].ports[Opposite(t)];
    var _, s2 := Assign(g, s1, v, e1, Opposite(t), false);
    r := s2;
  }
}
