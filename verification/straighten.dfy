/**
 * `Node.straighten_deg2` (elements/network.py): from one edge of a
 * station, walk along the chain of degree-2 stations behind it, move the
 * label of every station on the chain to one common port, and lay every
 * chain edge after the first straight, in the direction the first edge
 * leaves the start.
 *
 * The walk depends on the graph only, so it is defined first as a pair of
 * sequences: the stations `cs` it visits (`cs[0]` the start) and the edges
 * `es` it follows (`es[j]` joins `cs[j]` and `cs[j + 1]`).
 */
module Straighten {
  import opened Optional
  import opened Ports
  import opened Topology
  import opened Occupancy
  import opened Bends

  // ---------------------------------------------------------------------
  // The walk
  // ---------------------------------------------------------------------

  /** The edge of degree-2 station `v` other than `prev`: its first edge unless that is `prev`. */
  function OtherEdge(g: Graph, v: NodeRef, prev: EdgeRef): EdgeRef
    requires ValidNode(g, v) && Degree(g, v) == 2
  {
    if g.nodes[v].edges[0] != prev then g.nodes[v].edges[0] else g.nodes[v].edges[1]
  }

  /** An edge ending at a station is in that station's adjacency list. */
  lemma ListedAt(g: Graph, f: EdgeRef, v: NodeRef)
    requires GoodGraph(g) && ValidEdge(g, f) && Incident(g.edges[f], v)
    ensures ValidNode(g, v) && f in g.nodes[v].edges
  {
    assert Listed(g, f);
  }

  /** At a degree-2 station the edge other than `prev` is its remaining edge. */
  lemma OtherEdgeFacts(g: Graph, v: NodeRef, prev: EdgeRef)
    requires GoodGraph(g) && ValidNode(g, v) && Degree(g, v) == 2 && prev in g.nodes[v].edges
    ensures OtherEdge(g, v, prev) != prev
    ensures ValidEdge(g, OtherEdge(g, v, prev)) && Incident(g.edges[OtherEdge(g, v, prev)], v)
    ensures (g.nodes[v].edges[0] == prev && g.nodes[v].edges[1] == OtherEdge(g, v, prev))
         || (g.nodes[v].edges[1] == prev && g.nodes[v].edges[0] == OtherEdge(g, v, prev))
  {
    FollowEntry(g, v, 0);
    FollowEntry(g, v, 1);
  }

  /** Step `j` of a walk: edge `es[j]` leads from station `cs[j]` to station `cs[j + 1]`. */
  ghost predicate Leads(g: Graph, cs: seq<NodeRef>, es: seq<EdgeRef>, j: nat)
    requires j < |es| && |cs| == |es| + 1
  {
    && ValidEdge(g, es[j]) && Incident(g.edges[es[j]], cs[j]) && Incident(g.edges[es[j]], cs[j + 1])
    && cs[j + 1] == OtherEnd(g.edges[es[j]], cs[j])
  }

  /**
   * The walk went on past station `cs[j]`: a degree-2 station other than
   * the start, left by the edge it was not reached by.
   */
  ghost predicate PassesOn(g: Graph, cs: seq<NodeRef>, es: seq<EdgeRef>, j: nat)
    requires 1 <= j < |es| && |cs| == |es| + 1
  {
    ValidNode(g, cs[j]) && Degree(g, cs[j]) == 2 && cs[j] != cs[0] && es[j] == OtherEdge(g, cs[j], es[j - 1])
  }

  ghost predicate Apart(cs: seq<NodeRef>, a: nat, b: nat)
    requires a < |cs| && b < |cs|
  {
    cs[a] != cs[b]
  }

  /**
   * A walk of the shape `straighten_deg2` takes: at least one step, every
   * step along an edge, every inner station passed on, and no station
   * after the start visited twice.
   */
  ghost predicate IsWalk(g: Graph, cs: seq<NodeRef>, es: seq<EdgeRef>)
  {
    && |es| >= 1 && |cs| == |es| + 1
    && (forall j {:trigger cs[j]} :: 0 <= j < |cs| ==> ValidNode(g, cs[j]))
    && (forall j {:trigger Leads(g, cs, es, j)} :: 0 <= j < |es| ==> Leads(g, cs, es, j))
    && (forall j {:trigger PassesOn(g, cs, es, j)} :: 1 <= j < |es| ==> PassesOn(g, cs, es, j))
    && (forall a, b {:trigger Apart(cs, a, b)} :: 1 <= a < b < |cs| ==> Apart(cs, a, b))
  }

  /** The loop of `straighten_deg2` ends at the last station: not of degree 2, or the start again. */
  ghost predicate Stops(g: Graph, cs: seq<NodeRef>)
    requires |cs| >= 1 && ValidNode(g, cs[|cs| - 1])
  {
    Degree(g, cs[|cs| - 1]) != 2 || cs[|cs| - 1] == cs[0]
  }

  ghost function Elems(cs: seq<NodeRef>): set<NodeRef>
  {
    set x | x in cs
  }

  lemma ElemsSnoc(cs: seq<NodeRef>, w: NodeRef)
    ensures Elems(cs + [w]) == Elems(cs) + {w}
  {
    assert forall x :: x in cs + [w] <==> x in cs || x == w;
  }

  /** The edge the walk follows next from its last station. */
  ghost function NextEdge(g: Graph, cs: seq<NodeRef>, es: seq<EdgeRef>): (f: EdgeRef)
    requires GoodGraph(g) && IsWalk(g, cs, es) && !Stops(g, cs)
    ensures ValidEdge(g, f) && Incident(g.edges[f], cs[|cs| - 1]) && f != es[|es| - 1]
  {
    var k := |es|;
    assert Leads(g, cs, es, k - 1);
    ListedAt(g, es[k - 1], cs[k]);
    OtherEdgeFacts(g, cs[k], es[k - 1]);
    OtherEdge(g, cs[k], es[k - 1])
  }

  /** The station the walk reaches next. */
  ghost function NextStation(g: Graph, cs: seq<NodeRef>, es: seq<EdgeRef>): (w: NodeRef)
    requires GoodGraph(g) && IsWalk(g, cs, es) && !Stops(g, cs)
    ensures ValidNode(g, w) && Incident(g.edges[NextEdge(g, cs, es)], w) && w != cs[|cs| - 1]
  {
    OtherEnd(g.edges[NextEdge(g, cs, es)], cs[|cs| - 1])
  }

  /** A walk's edge ends only at the two stations it joins. */
  lemma NotEndOf(g: Graph, cs: seq<NodeRef>, es: seq<EdgeRef>, j: nat, x: NodeRef)
    requires IsWalk(g, cs, es) && j < |es| && x != cs[j] && x != cs[j + 1]
    ensures ValidEdge(g, es[j]) && !Incident(g.edges[es[j]], x)
  {
    assert Leads(g, cs, es, j);
  }

  /** A station the walk passed on has exactly the edges it arrived and left by. */
  lemma TwoEdges(g: Graph, cs: seq<NodeRef>, es: seq<EdgeRef>, j: nat)
    requires GoodGraph(g) && IsWalk(g, cs, es) && 1 <= j < |es|
    ensures Degree(g, cs[j]) == 2 && es[j] != es[j - 1]
    ensures (g.nodes[cs[j]].edges[0] == es[j - 1] && g.nodes[cs[j]].edges[1] == es[j])
         || (g.nodes[cs[j]].edges[1] == es[j - 1] && g.nodes[cs[j]].edges[0] == es[j])
  {
    assert Leads(g, cs, es, j - 1);
    assert PassesOn(g, cs, es, j);
    ListedAt(g, es[j - 1], cs[j]);
    OtherEdgeFacts(g, cs[j], es[j - 1]);
  }

  /** The next edge was not followed before. */
  lemma NextEdgeIsNew(g: Graph, cs: seq<NodeRef>, es: seq<EdgeRef>, j: nat)
    requires GoodGraph(g) && IsWalk(g, cs, es) && !Stops(g, cs) && j < |es|
    ensures NextEdge(g, cs, es) != es[j]
  {
    var k := |es|;
    if j < k - 1 {
      assert Apart(cs, j + 1, k);
      if j > 0 {
        assert Apart(cs, j, k);
      }
      NotEndOf(g, cs, es, j, cs[k]);
    }
  }

  /** The next station is none of the stations after the start visited so far. */
  lemma NextStationIsNew(g: Graph, cs: seq<NodeRef>, es: seq<EdgeRef>, j: nat)
    requires GoodGraph(g) && IsWalk(g, cs, es) && !Stops(g, cs) && 1 <= j < |cs|
    ensures NextStation(g, cs, es) != cs[j]
  {
    var k := |es|;
    var v, f := cs[k], NextEdge(g, cs, es);
    if j < k {
      // `f` ends at `v`, which is neither end of the two edges of `cs[j]`.
      TwoEdges(g, cs, es, j);
      assert Apart(cs, j, k);
      if j + 1 < k {
        assert Apart(cs, j + 1, k);
        NotEndOf(g, cs, es, j, v);
      }
      if j > 1 {
        assert Apart(cs, j - 1, k);
      }
      NotEndOf(g, cs, es, j - 1, v);
      if Incident(g.edges[f], cs[j]) {
        ListedAt(g, f, cs[j]);
        assert false;
      }
    }
  }

  /** One more step keeps the shape of a walk. */
  lemma WalkGoesOn(g: Graph, cs: seq<NodeRef>, es: seq<EdgeRef>)
    requires GoodGraph(g) && IsWalk(g, cs, es) && !Stops(g, cs)
    ensures IsWalk(g, cs + [NextStation(g, cs, es)], es + [NextEdge(g, cs, es)])
    ensures NextStation(g, cs, es) == cs[0] || NextStation(g, cs, es) !in cs
  {
    var k := |es|;
    var f, w := NextEdge(g, cs, es), NextStation(g, cs, es);
    var cs', es' := cs + [w], es + [f];
    forall j | 0 <= j < |es'|
      ensures Leads(g, cs', es', j)
    {
      if j < k {
        assert Leads(g, cs, es, j);
      }
    }
    forall j | 1 <= j < |es'|
      ensures PassesOn(g, cs', es', j)
    {
      if j < k {
        assert PassesOn(g, cs, es, j);
      }
    }
    forall a, b | 1 <= a < b < |cs'|
      ensures Apart(cs', a, b)
    {
      if b < |cs| {
        assert Apart(cs, a, b);
      } else {
        NextStationIsNew(g, cs, es, a);
      }
    }
    forall j | 1 <= j < |cs|
      ensures cs[j] != w
    {
      NextStationIsNew(g, cs, es, j);
    }
  }

  /** The walk goes on from `(cs, es)` until it stops. */
  ghost function Finish(g: Graph, cs: seq<NodeRef>, es: seq<EdgeRef>): (r: (seq<NodeRef>, seq<EdgeRef>))
    requires GoodGraph(g) && IsWalk(g, cs, es)
    decreases AllNodes(g) - Elems(cs), if Stops(g, cs) then 0 else 2
    ensures IsWalk(g, r.0, r.1) && Stops(g, r.0)
    ensures cs <= r.0 && es <= r.1
  {
    if Stops(g, cs) then (cs, es) else Go(g, cs, es)
  }

  ghost function Go(g: Graph, cs: seq<NodeRef>, es: seq<EdgeRef>): (r: (seq<NodeRef>, seq<EdgeRef>))
    requires GoodGraph(g) && IsWalk(g, cs, es) && !Stops(g, cs)
    decreases AllNodes(g) - Elems(cs), 1
    ensures IsWalk(g, r.0, r.1) && Stops(g, r.0)
    ensures cs + [NextStation(g, cs, es)] <= r.0 && es <= r.1
  {
    WalkGoesOn(g, cs, es);
    ElemsSnoc(cs, NextStation(g, cs, es));
    Finish(g, cs + [NextStation(g, cs, es)], es + [NextEdge(g, cs, es)])
  }

  /** The first step, along edge `e` away from station `v`. */
  lemma StartWalk(g: Graph, v: NodeRef, e: EdgeRef)
    requires GoodGraph(g) && ValidNode(g, v) && ValidEdge(g, e) && Incident(g.edges[e], v)
    ensures IsWalk(g, [v, OtherEnd(g.edges[e], v)], [e])
  {
    var cs, es := [v, OtherEnd(g.edges[e], v)], [e];
    assert Leads(g, cs, es, 0);
  }

  /**
   * The walk `straighten_deg2` takes from station `v` along its edge `e`:
   * it passes on through degree-2 stations and stops at the first station
   * of another degree or back at `v`.
   */
  ghost function Chain(g: Graph, v: NodeRef, e: EdgeRef): (r: (seq<NodeRef>, seq<EdgeRef>))
    requires GoodGraph(g) && ValidNode(g, v) && ValidEdge(g, e) && Incident(g.edges[e], v)
    ensures IsWalk(g, r.0, r.1) && Stops(g, r.0)
    ensures r.0[..2] == [v, OtherEnd(g.edges[e], v)] && r.1[0] == e
  {
    StartWalk(g, v, e);
    Finish(g, [v, OtherEnd(g.edges[e], v)], [e])
  }

  // ---------------------------------------------------------------------
  // Straightening
  // ---------------------------------------------------------------------

  /** One step on, a walk still finishes the same way, and the station it reached is on the final walk. */
  lemma WalkOnChain(g: Graph, cs: seq<NodeRef>, es: seq<EdgeRef>)
    requires GoodGraph(g) && IsWalk(g, cs, es) && !Stops(g, cs)
    ensures IsWalk(g, cs + [NextStation(g, cs, es)], es + [NextEdge(g, cs, es)])
    ensures Finish(g, cs + [NextStation(g, cs, es)], es + [NextEdge(g, cs, es)]) == Finish(g, cs, es)
    ensures Finish(g, cs, es).0[|cs|] == NextStation(g, cs, es)
    ensures var cs' := cs + [NextStation(g, cs, es)];
            AllNodes(g) - Elems(cs') < AllNodes(g) - Elems(cs)
            || (AllNodes(g) - Elems(cs') == AllNodes(g) - Elems(cs) && Stops(g, cs'))
  {
    var w := NextStation(g, cs, es);
    WalkGoesOn(g, cs, es);
    ElemsSnoc(cs, w);
    assert Finish(g, cs, es) == Go(g, cs, es);
  }

  /**
   * The port every label on the chain moves to: the start station's label
   * port, unless that is opposite the starting edge's port, in which case
   * the first free port other than it.
   */
  function LabelTarget(g: Graph, s: Layout, v: NodeRef, e: EdgeRef): Option<Port>
    requires WellFormed(g, s) && ValidNode(g, v) && ValidEdge(g, e) && Incident(g.edges[e], v)
    requires PortAt(g, s, e, v).Some?
  {
    var lp := s.nodes[v].labelPort;
    if lp == Some(Opposite(PortAt(g, s, e, v).value)) then FirstFreePort(s.nodes[v], [lp.value]) else lp
  }

  /**
   * The label target is neither the starting edge's port nor its opposite,
   * and at the start it is free or already the label's.
   */
  lemma LabelTargetAvoids(g: Graph, s: Layout, v: NodeRef, e: EdgeRef)
    requires WellFormed(g, s) && ValidNode(g, v) && ValidEdge(g, e) && Incident(g.edges[e], v)
    requires PortAt(g, s, e, v).Some? && LabelTarget(g, s, v, e).Some?
    ensures var p, q := PortAt(g, s, e, v).value, LabelTarget(g, s, v, e).value;
            q != p && q != Opposite(p) && (s.nodes[v].ports[q] == Empty || s.nodes[v].ports[q] == LabelOcc)
  {
    var p, q := PortAt(g, s, e, v).value, LabelTarget(g, s, v, e).value;
    RecordedPortIsOccupied(g, s, v, e);
    SlotFacts(g, s, v, q);
  }

  /** No station of the walk after the start holds an edge in slot `q`. */
  ghost predicate LabelRoom(g: Graph, s: Layout, cs: seq<NodeRef>, q: Port)
  {
    forall j :: 1 <= j < |cs| && cs[j] < |s.nodes| ==> !s.nodes[cs[j]].ports[q].EdgeOcc?
  }

  /** Edge `es[j]` leaves `cs[j]` at port `p` and reaches `cs[j + 1]` at the opposite port. */
  ghost predicate Straightened(g: Graph, r: Layout, cs: seq<NodeRef>, es: seq<EdgeRef>, j: nat, p: Port)
    requires Fits(g, r) && j < |es| && |cs| == |es| + 1 && Leads(g, cs, es, j)
  {
    PortAt(g, r, es[j], cs[j]) == Some(p) && PortAt(g, r, es[j], cs[j + 1]) == Some(Opposite(p))
  }

  /**
   * What `straighten_deg2` has done to layout `s0` once its walk has come
   * as far as `(cs, es)`, giving layout `r`: every edge after the first
   * runs in direction `p`, every station after the start carries its label
   * at port `q`, and every other station is as it was.
   */
  ghost predicate Laid(g: Graph, s0: Layout, r: Layout, cs: seq<NodeRef>, es: seq<EdgeRef>, p: Port, q: Port)
    requires Fits(g, s0) && Fits(g, r) && IsWalk(g, cs, es)
  {
    && (forall j {:trigger Straightened(g, r, cs, es, j, p)} :: 1 <= j < |es| ==> Straightened(g, r, cs, es, j, p))
    && (forall j :: 1 <= j < |cs| ==> r.nodes[cs[j]].labelPort == Some(q))
    && (forall u :: 0 <= u < |s0.nodes| && u !in cs[1..] ==> r.nodes[u] == s0.nodes[u])
  }

  /**
   * Every connection with neither end at a station after the start of the
   * walk `cs` has in `r` the ports and bend point it had in `s0`.
   */
  ghost predicate OffWalkKept(g: Graph, s0: Layout, r: Layout, cs: seq<NodeRef>)
    requires |cs| >= 1 && |s0.edges| == |g.edges| && |r.edges| == |g.edges|
  {
    forall f :: 0 <= f < |g.edges| && g.edges[f].v0 !in cs[1..] && g.edges[f].v1 !in cs[1..] ==>
      r.edges[f] == s0.edges[f]
  }

  /** One pass of the loop: label the next station, then lay the next edge straight. */
  method StraightenStep(g: Graph, s0: Layout, r: Layout, ghost cs: seq<NodeRef>, ghost es: seq<EdgeRef>,
                        v: NodeRef, prev: EdgeRef, p: Port, q: Port)
    returns (r': Layout, w: NodeRef, f: EdgeRef)
    requires WellFormed(g, r) && Fits(g, s0) && IsWalk(g, cs, es) && !Stops(g, cs)
    requires v == cs[|cs| - 1] && prev == es[|es| - 1]
    requires Laid(g, s0, r, cs, es, p, q) && q != p && q != Opposite(p)
    requires !s0.nodes[NextStation(g, cs, es)].ports[q].EdgeOcc?
    requires OffWalkKept(g, s0, r, cs)
    ensures w == NextStation(g, cs, es) && f == NextEdge(g, cs, es)
    ensures WellFormed(g, r') && IsWalk(g, cs + [w], es + [f])
    ensures Laid(g, s0, r', cs + [w], es + [f], p, q)
    ensures OffWalkKept(g, s0, r', cs + [w])
  {
    ghost var k := |es|;
    f := OtherEdge(g, v, prev);
    w := OtherEnd(g.edges[f], v);
    ghost var cs', es' := cs + [w], es + [f];
    WalkGoesOn(g, cs, es);
    assert w !in cs[1..] by {
      forall j | 1 <= j < |cs| ensures cs[j] != w {
        NextStationIsNew(g, cs, es, j);
      }
    }
    var r1 := AssignLabel(g, r, w, q);
    assert r1.nodes[v].labelPort == Some(q);
    SlotFacts(g, r1, v, p);
    SlotFacts(g, r1, w, Opposite(p));
    r' := AssignBothEnds(g, r1, v, f, p, true);
    LaidAfterStep(g, s0, r, r1, r', cs, es, p, q);
    OffWalkAfterStep(g, s0, r, r1, r', cs, v, w, f, p);
  }

  /**
   * A step only touches the new chain edge and whatever it evicts from the
   * two slots it takes, and each of those ends at the last station or the
   * next one, so a connection off the longer walk is still as it was.
   */
  lemma OffWalkAfterStep(g: Graph, s0: Layout, r: Layout, r1: Layout, r': Layout, cs: seq<NodeRef>,
                         v: NodeRef, w: NodeRef, f: EdgeRef, p: Port)
    requires WellFormed(g, r1) && Fits(g, s0) && Fits(g, r) && Fits(g, r')
    requires |cs| >= 2 && v == cs[|cs| - 1] && ValidNode(g, w)
    requires ValidEdge(g, f) && Incident(g.edges[f], v) && Incident(g.edges[f], w)
    requires OffWalkKept(g, s0, r, cs) && r1.edges == r.edges
    requires forall x :: 0 <= x < |r1.edges| && x != f && r1.nodes[v].ports[p] != EdgeOcc(x)
                         && r1.nodes[w].ports[Opposite(p)] != EdgeOcc(x) ==>
               r'.edges[x] == r1.edges[x]
    ensures OffWalkKept(g, s0, r', cs + [w])
  {
    var cs' := cs + [w];
    assert cs'[1..] == cs[1..] + [w];
    assert v in cs'[1..] by { assert cs'[|cs| - 1] == v; }
    SlotFacts(g, r1, v, p);
    SlotFacts(g, r1, w, Opposite(p));
    forall x | 0 <= x < |g.edges| && g.edges[x].v0 !in cs'[1..] && g.edges[x].v1 !in cs'[1..]
      ensures r'.edges[x] == s0.edges[x]
    {
      assert !Incident(g.edges[x], v) && !Incident(g.edges[x], w);
    }
  }

  /** The loop invariant `Laid` carries over one step of the walk. */
  lemma LaidAfterStep(g: Graph, s0: Layout, r: Layout, r1: Layout, r': Layout,
                      cs: seq<NodeRef>, es: seq<EdgeRef>, p: Port, q: Port)
    requires GoodGraph(g) && IsWalk(g, cs, es) && !Stops(g, cs)
    requires Fits(g, s0) && Fits(g, r) && WellFormed(g, r1) && Fits(g, r')
    requires Laid(g, s0, r, cs, es, p, q)
    requires forall j' :: 1 <= j' < |cs| ==> cs[j'] != NextStation(g, cs, es)
    requires r1.edges == r.edges && r1.nodes[NextStation(g, cs, es)].labelPort == Some(q)
    requires forall u :: 0 <= u < |r.nodes| && u != NextStation(g, cs, es) ==> r1.nodes[u] == r.nodes[u]
    requires PortAt(g, r', NextEdge(g, cs, es), cs[|es|]) == Some(p)
    requires PortAt(g, r', NextEdge(g, cs, es), NextStation(g, cs, es)) == Some(Opposite(p))
    requires forall u :: 0 <= u < |r1.nodes| ==> r'.nodes[u].labelPort == r1.nodes[u].labelPort
    requires forall u :: 0 <= u < |r1.nodes| && u != cs[|es|] && u != NextStation(g, cs, es) ==>
               r'.nodes[u] == r1.nodes[u]
    requires forall x :: 0 <= x < |r1.edges| && x != NextEdge(g, cs, es) && r1.nodes[cs[|es|]].ports[p] != EdgeOcc(x)
                         && r1.nodes[NextStation(g, cs, es)].ports[Opposite(p)] != EdgeOcc(x) ==>
               r'.edges[x] == r1.edges[x]
    ensures IsWalk(g, cs + [NextStation(g, cs, es)], es + [NextEdge(g, cs, es)])
    ensures Laid(g, s0, r', cs + [NextStation(g, cs, es)], es + [NextEdge(g, cs, es)], p, q)
  {
    var w := NextStation(g, cs, es);
    var cs', es' := cs + [w], es + [NextEdge(g, cs, es)];
    WalkGoesOn(g, cs, es);
    forall j | 1 <= j < |es'|
      ensures Straightened(g, r', cs', es', j, p)
    {
      StraightenedAfterStep(g, r, r1, r', cs, es, p, j);
    }
    forall j | 1 <= j < |cs'|
      ensures r'.nodes[cs'[j]].labelPort == Some(q)
    {
      if j < |cs| {
        assert cs'[j] == cs[j];
      }
    }
    forall u | 0 <= u < |s0.nodes| && u !in cs'[1..]
      ensures r'.nodes[u] == s0.nodes[u]
    {
      assert cs'[1..] == cs[1..] + [w];
    }
  }

  /** After a step, the new chain edge and every earlier one after the first run in direction `p`. */
  lemma StraightenedAfterStep(g: Graph, r: Layout, r1: Layout, r': Layout, cs: seq<NodeRef>, es: seq<EdgeRef>,
                              p: Port, j: nat)
    requires GoodGraph(g) && IsWalk(g, cs, es) && !Stops(g, cs) && 1 <= j <= |es|
    requires WellFormed(g, r1) && Fits(g, r) && Fits(g, r') && r1.edges == r.edges
    requires forall j' {:trigger Straightened(g, r, cs, es, j', p)} ::
               1 <= j' < |es| ==> Straightened(g, r, cs, es, j', p)
    requires forall j' :: 1 <= j' < |cs| ==> cs[j'] != NextStation(g, cs, es)
    requires PortAt(g, r', NextEdge(g, cs, es), cs[|es|]) == Some(p)
    requires PortAt(g, r', NextEdge(g, cs, es), NextStation(g, cs, es)) == Some(Opposite(p))
    requires forall x :: 0 <= x < |r1.edges| && x != NextEdge(g, cs, es) && r1.nodes[cs[|es|]].ports[p] != EdgeOcc(x)
                         && r1.nodes[NextStation(g, cs, es)].ports[Opposite(p)] != EdgeOcc(x) ==>
               r'.edges[x] == r1.edges[x]
    ensures IsWalk(g, cs + [NextStation(g, cs, es)], es + [NextEdge(g, cs, es)])
    ensures Straightened(g, r', cs + [NextStation(g, cs, es)], es + [NextEdge(g, cs, es)], j, p)
  {
    var cs', es' := cs + [NextStation(g, cs, es)], es + [NextEdge(g, cs, es)];
    WalkGoesOn(g, cs, es);
    assert Leads(g, cs', es', j);
    if j < |es| {
      assert Leads(g, cs, es, j);
      assert Straightened(g, r, cs, es, j, p);
      KeptStraight(g, r, r1, r', cs, es, j, p, NextEdge(g, cs, es));
    }
  }

  /** Laying edge `f` straight from the last station leaves the earlier chain edges where they were. */
  lemma KeptStraight(g: Graph, r: Layout, r1: Layout, r': Layout, cs: seq<NodeRef>, es: seq<EdgeRef>,
                     j: nat, p: Port, f: EdgeRef)
    requires GoodGraph(g) && IsWalk(g, cs, es) && !Stops(g, cs) && 1 <= j < |es|
    requires WellFormed(g, r1) && Fits(g, r) && r1.edges == r.edges
    requires f == NextEdge(g, cs, es) && Leads(g, cs, es, j) && Straightened(g, r, cs, es, j, p)
    requires forall j' :: 1 <= j' < |cs| ==> cs[j'] != NextStation(g, cs, es)
    requires |r'.edges| == |r1.edges|
    requires forall x :: 0 <= x < |r1.edges| && x != f && r1.nodes[cs[|es|]].ports[p] != EdgeOcc(x)
                         && r1.nodes[NextStation(g, cs, es)].ports[Opposite(p)] != EdgeOcc(x) ==>
               r'.edges[x] == r1.edges[x]
    ensures r'.edges[es[j]] == r.edges[es[j]]
  {
    var k := |es|;
    var v, w := cs[k], NextStation(g, cs, es);
    NextEdgeIsNew(g, cs, es, j);
    // Slot `p` of `v` cannot hold `es[j]`: either `es[j]` does not end at
    // `v`, or it records the opposite port there.
    assert Apart(cs, j, k);
    if j + 1 < k {
      assert Apart(cs, j + 1, k);
      NotEndOf(g, cs, es, j, v);
    }
    SlotFacts(g, r1, v, p);
    // Slot `Opposite(p)` of `w` cannot hold `es[j]`: it does not end at `w`.
    NotEndOf(g, cs, es, j, w);
    SlotFacts(g, r1, w, Opposite(p));
  }

  /**
   * `Node.straighten_deg2`: walk from station `v` along its edge `e`;
   * give every station reached its label at the label target, and give
   * every edge after `e` the port `e` has at `v` at its near end and the
   * opposite port at its far end, by forced assignment. Every other
   * station keeps its slots and label.
   *
   * The source fails when `e` has no port at `v` and when there is no
   * label target; those are preconditions. When a station of the walk
   * holds an edge in the label target's slot, the source does not fail
   * but breaks the occupancy invariant: the label overwrites the slot
   * while the edge still records that port, and when that edge is the
   * chain edge laid next, its forced assignment clears the label's slot.
   * `LabelRoom` excludes that case too.
   *
   * Every connection with no end at a station after the start keeps its
   * ports and bend point.
   */
  method StraightenDeg2(g: Graph, s: Layout, v: NodeRef, e: EdgeRef) returns (r: Layout)
    requires WellFormed(g, s) && ValidNode(g, v) && ValidEdge(g, e) && Incident(g.edges[e], v)
    requires PortAt(g, s, e, v).Some? && LabelTarget(g, s, v, e).Some?
    requires LabelRoom(g, s, Chain(g, v, e).0, LabelTarget(g, s, v, e).value)
    ensures WellFormed(g, r)
    ensures Laid(g, s, r, Chain(g, v, e).0, Chain(g, v, e).1, PortAt(g, s, e, v).value, LabelTarget(g, s, v, e).value)
    ensures forall j :: 2 <= j < |Chain(g, v, e).1| ==>
              var c := Chain(g, v, e).0[j];
              Degree(g, c) == 2 && EdgePort(g, r, c, 1).Some? && IsStraightThrough(g, r, c)
    ensures |r.edges| == |s.edges| && OffWalkKept(g, s, r, Chain(g, v, e).0)
  {
    var p := PortAt(g, s, e, v).value;
    var q := LabelTarget(g, s, v, e).value;
    LabelTargetAvoids(g, s, v, e);
    StartWalk(g, v, e);
    var w := OtherEnd(g.edges[e], v);
    ghost var cs, es := [v, w], [e];
    assert Chain(g, v, e).0[1] == w;
    var r1 := AssignLabel(g, s, w, q);
    r := StraightenFrom(g, s, r1, cs, es, v, w, e, p, q);
    forall j | 2 <= j < |Chain(g, v, e).1|
      ensures var c := Chain(g, v, e).0[j];
              Degree(g, c) == 2 && EdgePort(g, r, c, 1).Some? && IsStraightThrough(g, r, c)
    {
      InteriorIsStraight(g, s, r, Chain(g, v, e).0, Chain(g, v, e).1, p, q, j);
    }
  }

  /**
   * A station the walk passed on, other than the first one after the
   * start, has both its edges laid in direction `p`: it is straight
   * through.
   */
  lemma InteriorIsStraight(g: Graph, s0: Layout, r: Layout, cs: seq<NodeRef>, es: seq<EdgeRef>,
                           p: Port, q: Port, j: nat)
    requires WellFormed(g, r) && Fits(g, s0) && IsWalk(g, cs, es) && Laid(g, s0, r, cs, es, p, q)
    requires 2 <= j < |es|
    ensures Degree(g, cs[j]) == 2 && EdgePort(g, r, cs[j], 1).Some? && IsStraightThrough(g, r, cs[j])
  {
    TwoEdges(g, cs, es, j);
    assert Leads(g, cs, es, j - 1) && Leads(g, cs, es, j);
    assert Straightened(g, r, cs, es, j - 1, p) && Straightened(g, r, cs, es, j, p);
    StepsToOpposite(p);
    StepsSymmetric(p, Opposite(p));
  }

  /** The loop of `straighten_deg2`, from the point the walk `(cs, es)` has reached. */
  method StraightenFrom(g: Graph, s: Layout, r0: Layout, ghost cs0: seq<NodeRef>, ghost es0: seq<EdgeRef>,
                        v: NodeRef, w0: NodeRef, e0: EdgeRef, p: Port, q: Port)
    returns (r: Layout)
    requires WellFormed(g, r0) && Fits(g, s) && IsWalk(g, cs0, es0)
    requires cs0[0] == v && cs0[|cs0| - 1] == w0 && es0[|es0| - 1] == e0
    requires Laid(g, s, r0, cs0, es0, p, q) && q != p && q != Opposite(p)
    requires LabelRoom(g, s, Finish(g, cs0, es0).0, q) && OffWalkKept(g, s, r0, cs0)
    ensures WellFormed(g, r) && Laid(g, s, r, Finish(g, cs0, es0).0, Finish(g, cs0, es0).1, p, q)
    ensures OffWalkKept(g, s, r, Finish(g, cs0, es0).0)
  {
    ghost var final := Finish(g, cs0, es0);
    ghost var cs, es := cs0, es0;
    var w, cur := w0, e0;
    r := r0;
    while Degree(g, w) == 2 && w != v
      invariant IsWalk(g, cs, es) && cs[0] == v && cs[|cs| - 1] == w && es[|es| - 1] == cur
      invariant Finish(g, cs, es) == final
      invariant WellFormed(g, r) && Laid(g, s, r, cs, es, p, q) && OffWalkKept(g, s, r, cs)
      decreases AllNodes(g) - Elems(cs), if Stops(g, cs) then 0 else 1
    {
      r, w, cur := StraightenAdvance(g, s, r, cs, es, v, w, cur, p, q, final);
      cs, es := cs + [w], es + [cur];
    }
  }

  /** One pass of the loop of `StraightenFrom`, with the walk it follows. */
  method StraightenAdvance(g: Graph, s: Layout, r: Layout, ghost cs: seq<NodeRef>, ghost es: seq<EdgeRef>,
                           v: NodeRef, w: NodeRef, cur: EdgeRef, p: Port, q: Port, ghost final: (seq<NodeRef>, seq<EdgeRef>))
    returns (r': Layout, w': NodeRef, cur': EdgeRef)
    requires WellFormed(g, r) && Fits(g, s) && IsWalk(g, cs, es)
    requires cs[0] == v && cs[|cs| - 1] == w && es[|es| - 1] == cur && Degree(g, w) == 2 && w != v
    requires Finish(g, cs, es) == final && Laid(g, s, r, cs, es, p, q) && q != p && q != Opposite(p)
    requires LabelRoom(g, s, final.0, q) && OffWalkKept(g, s, r, cs)
    ensures IsWalk(g, cs + [w'], es + [cur']) && Finish(g, cs + [w'], es + [cur']) == final
    ensures WellFormed(g, r') && Laid(g, s, r', cs + [w'], es + [cur'], p, q)
    ensures OffWalkKept(g, s, r', cs + [w'])
    ensures AllNodes(g) - Elems(cs + [w']) < AllNodes(g) - Elems(cs)
            || (AllNodes(g) - Elems(cs + [w']) == AllNodes(g) - Elems(cs) && Stops(g, cs + [w']))
  {
    WalkOnChain(g, cs, es);
    assert !s.nodes[final.0[|cs|]].ports[q].EdgeOcc?;
    r', w', cur' := StraightenStep(g, s, r, cs, es, w, cur, p, q);
  }
}
