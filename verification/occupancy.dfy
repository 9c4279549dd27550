/**
 * Port bookkeeping on a single station (Node.assign, assign_both_ends,
 * evict, try_evict, assign_label, evict_label) and the two network-wide
 * sweeps (Network.evict_all_edges, evict_all_labels) of elements/network.py.
 *
 * Every operation takes a well-formed layout to a well-formed layout of the
 * same graph, and says exactly which slots and edge records it touches.
 */
module Occupancy {
  import opened Optional
  import opened Ports
  import opened Topology

  // ---------------------------------------------------------------------
  // Evicting and placing one edge end
  // ---------------------------------------------------------------------

  /** The state change `Node.evict` makes. */
  function EvictUpdate(g: Graph, s: Layout, v: NodeRef, e: EdgeRef): (r: Layout)
    requires Fits(g, s) && e < |g.edges| && Incident(g.edges[e], v) && v < |g.nodes|
    requires PortAt(g, s, e, v).Some?
    ensures Fits(g, r)
  {
    var k := EndIndex(g.edges[e], v);
    var n := s.nodes[v];
    Layout(s.nodes[v := n.(ports := n.ports[PortAt(g, s, e, v).value := Empty])],
           s.edges[e := WithPortAt(s.edges[e], k, None).(bend := None)])
  }

  lemma EvictUpdateKeepsSlotsAgree(g: Graph, s: Layout, v: NodeRef, e: EdgeRef)
    requires Fits(g, s) && e < |g.edges| && Incident(g.edges[e], v) && v < |g.nodes|
    requires PortAt(g, s, e, v).Some? && g.edges[e].v0 != g.edges[e].v1
    requires SlotsAgree(g, s)
    ensures SlotsAgree(g, EvictUpdate(g, s, v, e))
  {
    var r := EvictUpdate(g, s, v, e);
    forall u, q: Port | 0 <= u < |r.nodes| && r.nodes[u].ports[q].EdgeOcc?
      ensures SlotAgrees(g, r, u, q)
    {
      var f := r.nodes[u].ports[q].edge;
      assert s.nodes[u].ports[q] == r.nodes[u].ports[q];
      assert SlotAgrees(g, s, u, q);
      if f == e {
        assert u != v;
        assert PortAt(g, r, e, u) == PortAt(g, s, e, u);
      } else {
        assert r.edges[f] == s.edges[f];
      }
    }
  }

  lemma EvictUpdateKeepsRecordsBacked(g: Graph, s: Layout, v: NodeRef, e: EdgeRef)
    requires Fits(g, s) && e < |g.edges| && Incident(g.edges[e], v) && v < |g.nodes|
    requires PortAt(g, s, e, v).Some? && g.edges[e].v0 != g.edges[e].v1
    requires RecordsBacked(g, s)
    ensures RecordsBacked(g, EvictUpdate(g, s, v, e))
  {
    var r := EvictUpdate(g, s, v, e);
    var k := EndIndex(g.edges[e], v);
    forall f, j: End | 0 <= f < |r.edges| && PortOfEnd(r.edges[f], j).Some?
      ensures RecordBacked(g, r, f, j)
    {
      if f == e {
        assert j != k;
        assert PortOfEnd(r.edges[f], j) == PortOfEnd(s.edges[e], j);
        assert RecordBacked(g, s, e, j);
        assert Endpoint(g.edges[e], j) != v;
      } else {
        assert r.edges[f] == s.edges[f];
        assert RecordBacked(g, s, f, j);
        assert k == 0 || k == 1;
        assert Endpoint(g.edges[f], j) == v ==>
          PortOfEnd(s.edges[f], j).value != PortOfEnd(s.edges[e], k).value
          by {
            assert RecordBacked(g, s, e, k);
          }
      }
    }
  }

  lemma EvictUpdateKeepsLabelsAgree(g: Graph, s: Layout, v: NodeRef, e: EdgeRef)
    requires Fits(g, s) && e < |g.edges| && Incident(g.edges[e], v) && v < |g.nodes|
    requires PortAt(g, s, e, v).Some?
    requires s.nodes[v].ports[PortAt(g, s, e, v).value] == EdgeOcc(e)
    requires LabelsAgree(s)
    ensures LabelsAgree(EvictUpdate(g, s, v, e))
  {
  }

  /**
   * `Node.evict`: empty the slot the edge holds at `v`, forget the edge's
   * port there and drop its bend point. The source fails on an edge that is
   * free at `v` (it indexes the port list with `None`).
   */
  method Evict(g: Graph, s: Layout, v: NodeRef, e: EdgeRef) returns (r: Layout)
    requires WellFormed(g, s) && ValidEdge(g, e) && Incident(g.edges[e], v)
    requires PortAt(g, s, e, v).Some?
    ensures WellFormed(g, r) && ValidNode(g, v)
    ensures FreeAt(g, r, e, v) && r.edges[e].bend == None
    ensures PortAt(g, r, e, OtherEnd(g.edges[e], v)) == PortAt(g, s, e, OtherEnd(g.edges[e], v))
    ensures r.nodes[v].ports[PortAt(g, s, e, v).value] == Empty
    ensures forall q: Port :: Some(q) != PortAt(g, s, e, v) ==> r.nodes[v].ports[q] == s.nodes[v].ports[q]
    ensures r.nodes[v].labelPort == s.nodes[v].labelPort
    ensures forall u :: 0 <= u < |s.nodes| && u != v ==> r.nodes[u] == s.nodes[u]
    ensures forall f :: 0 <= f < |s.edges| && f != e ==> r.edges[f] == s.edges[f]
  {
    RecordedPortIsOccupied(g, s, v, e);
    r := EvictUpdate(g, s, v, e);
    EvictUpdateKeepsSlotsAgree(g, s, v, e);
    EvictUpdateKeepsRecordsBacked(g, s, v, e);
    EvictUpdateKeepsLabelsAgree(g, s, v, e);
  }

  /** The state change of a successful `Node.assign` onto an empty slot. */
  function PlaceUpdate(g: Graph, s: Layout, v: NodeRef, e: EdgeRef, i: Port): (r: Layout)
    requires Fits(g, s) && e < |g.edges| && Incident(g.edges[e], v) && v < |g.nodes|
    ensures Fits(g, r)
  {
    var k := EndIndex(g.edges[e], v);
    var n := s.nodes[v];
    var old_port := PortAt(g, s, e, v);
    var cleared: Slots := if old_port.Some? then n.ports[old_port.value := Empty] else n.ports;
    Layout(s.nodes[v := n.(ports := cleared[i := EdgeOcc(e)])],
           s.edges[e := WithPortAt(s.edges[e], k, Some(i))])
  }

  lemma PlaceUpdateSlots(g: Graph, s: Layout, v: NodeRef, e: EdgeRef, i: Port)
    requires Fits(g, s) && e < |g.edges| && Incident(g.edges[e], v) && v < |g.nodes|
    requires s.nodes[v].ports[i] == Empty
    requires PortAt(g, s, e, v).Some? ==> s.nodes[v].ports[PortAt(g, s, e, v).value] == EdgeOcc(e)
    requires SlotsAgree(g, s) && LabelsAgree(s)
    ensures var r := PlaceUpdate(g, s, v, e, i);
            forall q: Port :: q != i ==>
              r.nodes[v].ports[q] == (if s.nodes[v].ports[q] == EdgeOcc(e) then Empty else s.nodes[v].ports[q])
    ensures LabelsAgree(PlaceUpdate(g, s, v, e, i))
  {
    var r := PlaceUpdate(g, s, v, e, i);
    forall q: Port | q != i
      ensures r.nodes[v].ports[q] == (if s.nodes[v].ports[q] == EdgeOcc(e) then Empty else s.nodes[v].ports[q])
    {
      if s.nodes[v].ports[q] == EdgeOcc(e) {
        assert SlotAgrees(g, s, v, q);
      }
    }
  }

  lemma PlaceUpdateKeepsSlotsAgree(g: Graph, s: Layout, v: NodeRef, e: EdgeRef, i: Port)
    requires Fits(g, s) && e < |g.edges| && Incident(g.edges[e], v) && v < |g.nodes|
    requires s.nodes[v].ports[i] == Empty && g.edges[e].v0 != g.edges[e].v1
    requires SlotsAgree(g, s)
    ensures SlotsAgree(g, PlaceUpdate(g, s, v, e, i))
  {
    var r := PlaceUpdate(g, s, v, e, i);
    forall u, q: Port | 0 <= u < |r.nodes| && r.nodes[u].ports[q].EdgeOcc?
      ensures SlotAgrees(g, r, u, q)
    {
      var f := r.nodes[u].ports[q].edge;
      if u == v && q == i {
        assert f == e;
      } else {
        assert s.nodes[u].ports[q] == r.nodes[u].ports[q];
        assert SlotAgrees(g, s, u, q);
        if f == e {
          assert u != v;
          assert PortAt(g, r, e, u) == PortAt(g, s, e, u);
        } else {
          assert r.edges[f] == s.edges[f];
        }
      }
    }
  }

  lemma PlaceUpdateKeepsRecordsBacked(g: Graph, s: Layout, v: NodeRef, e: EdgeRef, i: Port)
    requires Fits(g, s) && e < |g.edges| && Incident(g.edges[e], v) && v < |g.nodes|
    requires s.nodes[v].ports[i] == Empty && g.edges[e].v0 != g.edges[e].v1
    requires RecordsBacked(g, s)
    ensures RecordsBacked(g, PlaceUpdate(g, s, v, e, i))
  {
    var r := PlaceUpdate(g, s, v, e, i);
    var k := EndIndex(g.edges[e], v);
    forall f, j: End | 0 <= f < |r.edges| && PortOfEnd(r.edges[f], j).Some?
      ensures RecordBacked(g, r, f, j)
    {
      if f == e {
        if j != k {
          assert PortOfEnd(r.edges[f], j) == PortOfEnd(s.edges[e], j);
          assert RecordBacked(g, s, e, j);
          assert Endpoint(g.edges[e], j) != v;
        }
      } else {
        assert r.edges[f] == s.edges[f];
        assert RecordBacked(g, s, f, j);
        var w := Endpoint(g.edges[f], j);
        var p := PortOfEnd(s.edges[f], j).value;
        if w == v {
          assert p != i;
          if PortOfEnd(s.edges[e], k).Some? {
            assert RecordBacked(g, s, e, k);
          }
        }
      }
    }
  }

  lemma RecordedSlotHoldsEdge(g: Graph, s: Layout, v: NodeRef, e: EdgeRef)
    requires WellFormed(g, s) && ValidEdge(g, e) && Incident(g.edges[e], v)
    ensures ValidNode(g, v)
    ensures PortAt(g, s, e, v).Some? ==> s.nodes[v].ports[PortAt(g, s, e, v).value] == EdgeOcc(e)
  {
    if PortAt(g, s, e, v).Some? {
      RecordedPortIsOccupied(g, s, v, e);
    }
  }

  /**
   * The second half of `Node.assign`: with slot `i` of `v` empty, move the
   * edge there, emptying the slot it used before at `v`.
   */
  method Place(g: Graph, s: Layout, v: NodeRef, e: EdgeRef, i: Port) returns (r: Layout)
    requires WellFormed(g, s) && ValidEdge(g, e) && Incident(g.edges[e], v)
    requires ValidNode(g, v) && s.nodes[v].ports[i] == Empty
    ensures WellFormed(g, r)
    ensures r.nodes[v].ports[i] == EdgeOcc(e) && PortAt(g, r, e, v) == Some(i)
    ensures PortAt(g, r, e, OtherEnd(g.edges[e], v)) == PortAt(g, s, e, OtherEnd(g.edges[e], v))
    ensures r.edges[e].bend == s.edges[e].bend
    ensures forall q: Port :: q != i ==>
              r.nodes[v].ports[q] == (if s.nodes[v].ports[q] == EdgeOcc(e) then Empty else s.nodes[v].ports[q])
    ensures r.nodes[v].labelPort == s.nodes[v].labelPort
    ensures forall u :: 0 <= u < |s.nodes| && u != v ==> r.nodes[u] == s.nodes[u]
    ensures forall f :: 0 <= f < |s.edges| && f != e ==> r.edges[f] == s.edges[f]
  {
    r := PlaceUpdate(g, s, v, e, i);
    RecordedSlotHoldsEdge(g, s, v, e);
    PlaceUpdateSlots(g, s, v, e, i);
    PlaceUpdateKeepsSlotsAgree(g, s, v, e, i);
    PlaceUpdateKeepsRecordsBacked(g, s, v, e, i);
  }

  // ---------------------------------------------------------------------
  // Node.assign and friends
  // ---------------------------------------------------------------------

  /**
   * `Node.assign(e, i, force)`. An occupied target slot makes a non-forced
   * assignment fail without any change; a forced one first evicts the edge
   * there (the source fails when the occupant is a label, since it asks the
   * label for its edge end), even when that edge is `e` itself. On success
   * the edge sits in slot `i`, its previous slot at `v` is empty, and a
   * displaced edge is free at `v` without a bend point. Nothing else
   * changes.
   */
  method Assign(g: Graph, s: Layout, v: NodeRef, e: EdgeRef, i: Port, force: bool) returns (ok: bool, r: Layout)
    requires WellFormed(g, s) && ValidEdge(g, e) && Incident(g.edges[e], v)
    requires ValidNode(g, v)
    requires force ==> s.nodes[v].ports[i] != LabelOcc
    ensures WellFormed(g, r)
    ensures ok <==> force || s.nodes[v].ports[i] == Empty
    ensures !ok ==> r == s
    ensures ok ==> r.nodes[v].ports[i] == EdgeOcc(e) && PortAt(g, r, e, v) == Some(i)
    ensures ok ==> forall q: Port :: q != i ==>
              r.nodes[v].ports[q] == (if s.nodes[v].ports[q] == EdgeOcc(e) then Empty else s.nodes[v].ports[q])
    ensures r.nodes[v].labelPort == s.nodes[v].labelPort
    ensures forall u :: 0 <= u < |s.nodes| && u != v ==> r.nodes[u] == s.nodes[u]
    ensures PortAt(g, r, e, OtherEnd(g.edges[e], v)) == PortAt(g, s, e, OtherEnd(g.edges[e], v))
    ensures r.edges[e].bend == if force && s.nodes[v].ports[i] == EdgeOcc(e) then None else s.edges[e].bend
    ensures forall f :: 0 <= f < |s.edges| && f != e && s.nodes[v].ports[i] != EdgeOcc(f) ==>
              r.edges[f] == s.edges[f]
    ensures ok && s.nodes[v].ports[i].EdgeOcc? && s.nodes[v].ports[i] != EdgeOcc(e) ==>
              var f := s.nodes[v].ports[i].edge;
              && ValidEdge(g, f) && Incident(g.edges[f], v)
              && FreeAt(g, r, f, v) && r.edges[f].bend == None
              && PortAt(g, r, f, OtherEnd(g.edges[f], v)) == PortAt(g, s, f, OtherEnd(g.edges[f], v))
  {
    var slot := s.nodes[v].ports[i];
    if slot == Empty {
      ok := true;
      r := Place(g, s, v, e, i);
    } else if !force {
      ok := false;
      r := s;
    } else {
      ok := true;
      SlotFacts(g, s, v, i);
      var cleared := Evict(g, s, v, slot.edge);
      r := Place(g, cleared, v, e, i);
    }
  }

  /**
   * `Node.assign_both_ends`: assign port `i` at `v`, then the opposite port
   * at the other endpoint `w`, with the same `force`. Each end moves exactly
   * when its own assignment goes through; when both do (always when
   * forced) the edge is consistent. A forced assignment that finds the
   * edge itself in a target slot clears its bend; one that finds another
   * edge there evicts it: that edge is freed at that end, loses its bend,
   * and keeps its far end unless the other assignment evicted it there.
   */
  method AssignBothEnds(g: Graph, s: Layout, v: NodeRef, e: EdgeRef, i: Port, force: bool) returns (r: Layout)
    requires WellFormed(g, s) && ValidEdge(g, e) && Incident(g.edges[e], v)
    requires force ==> s.nodes[v].ports[i] != LabelOcc
    requires force ==> s.nodes[OtherEnd(g.edges[e], v)].ports[Opposite(i)] != LabelOcc
    ensures WellFormed(g, r)
    ensures PortAt(g, r, e, v) ==
              if force || s.nodes[v].ports[i] == Empty then Some(i) else PortAt(g, s, e, v)
    ensures var w := OtherEnd(g.edges[e], v);
            PortAt(g, r, e, w) ==
              if force || s.nodes[w].ports[Opposite(i)] == Empty then Some(Opposite(i)) else PortAt(g, s, e, w)
    ensures var w := OtherEnd(g.edges[e], v);
            force || (s.nodes[v].ports[i] == Empty && s.nodes[w].ports[Opposite(i)] == Empty) ==>
              r.edges[e].port1.Some? && ConsistentPorts(r.edges[e])
    ensures forall u :: 0 <= u < |s.nodes| ==> r.nodes[u].labelPort == s.nodes[u].labelPort
    ensures forall u :: 0 <= u < |s.nodes| && u != v && u != OtherEnd(g.edges[e], v) ==> r.nodes[u] == s.nodes[u]
    ensures forall f :: 0 <= f < |s.edges| && f != e && s.nodes[v].ports[i] != EdgeOcc(f)
                        && s.nodes[OtherEnd(g.edges[e], v)].ports[Opposite(i)] != EdgeOcc(f) ==>
              r.edges[f] == s.edges[f]
    ensures var w := OtherEnd(g.edges[e], v);
            r.edges[e].bend ==
              if force && (s.nodes[v].ports[i] == EdgeOcc(e) || s.nodes[w].ports[Opposite(i)] == EdgeOcc(e))
              then None else s.edges[e].bend
    ensures force && s.nodes[v].ports[i].EdgeOcc? && s.nodes[v].ports[i] != EdgeOcc(e) ==>
              var f, w := s.nodes[v].ports[i].edge, OtherEnd(g.edges[e], v);
              && ValidEdge(g, f) && Incident(g.edges[f], v)
              && FreeAt(g, r, f, v) && r.edges[f].bend == None
              && (s.nodes[w].ports[Opposite(i)] != EdgeOcc(f) ==>
                    PortAt(g, r, f, OtherEnd(g.edges[f], v)) == PortAt(g, s, f, OtherEnd(g.edges[f], v)))
    ensures var w := OtherEnd(g.edges[e], v);
            force && s.nodes[w].ports[Opposite(i)].EdgeOcc? && s.nodes[w].ports[Opposite(i)] != EdgeOcc(e) ==>
              var f := s.nodes[w].ports[Opposite(i)].edge;
              && ValidEdge(g, f) && Incident(g.edges[f], w)
              && FreeAt(g, r, f, w) && r.edges[f].bend == None
              && (s.nodes[v].ports[i] != EdgeOcc(f) ==>
                    PortAt(g, r, f, OtherEnd(g.edges[f], w)) == PortAt(g, s, f, OtherEnd(g.edges[f], w)))
  {
    var w := OtherEnd(g.edges[e], v);
    assert w != v;
    var _, first := Assign(g, s, v, e, i, force);
    assert first.nodes[w] == s.nodes[w];
    var _, second := Assign(g, first, w, e, Opposite(i), force);
    r := second;
    ConsistentFromBothEnds(g, r, e, v, i);
    if force && s.nodes[v].ports[i].EdgeOcc? && s.nodes[v].ports[i] != EdgeOcc(e) {
      var f := s.nodes[v].ports[i].edge;
      if s.nodes[w].ports[Opposite(i)] == EdgeOcc(f) {
        SlotFacts(g, s, w, Opposite(i));
        FarEndOfParallel(g.edges[f], v, w);
      }
    }
    if force && s.nodes[w].ports[Opposite(i)].EdgeOcc? && s.nodes[w].ports[Opposite(i)] != EdgeOcc(e) {
      var f := s.nodes[w].ports[Opposite(i)].edge;
      SlotFacts(g, s, w, Opposite(i));
      if s.nodes[v].ports[i] == EdgeOcc(f) {
        SlotFacts(g, s, v, i);
        FarEndOfParallel(g.edges[f], v, w);
      }
    }
  }

  /** An edge with ends at two different stations leads from each to the other. */
  lemma FarEndOfParallel(f: Edge, v: NodeRef, w: NodeRef)
    requires v != w && Incident(f, v) && Incident(f, w)
    ensures OtherEnd(f, v) == w && OtherEnd(f, w) == v
  {
  }

  lemma ConsistentFromBothEnds(g: Graph, s: Layout, e: EdgeRef, v: NodeRef, i: Port)
    requires Fits(g, s) && e < |g.edges| && Incident(g.edges[e], v) && g.edges[e].v0 != g.edges[e].v1
    ensures PortAt(g, s, e, v) == Some(i) && PortAt(g, s, e, OtherEnd(g.edges[e], v)) == Some(Opposite(i)) ==>
              s.edges[e].port1.Some? && ConsistentPorts(s.edges[e])
  {
    OppositeIsInvolution(i);
  }

  /** `Node.try_evict`: evict the edge at `v` unless it is already free there. */
  method TryEvict(g: Graph, s: Layout, v: NodeRef, e: EdgeRef) returns (r: Layout)
    requires WellFormed(g, s) && ValidEdge(g, e) && Incident(g.edges[e], v)
    ensures WellFormed(g, r) && ValidNode(g, v)
    ensures FreeAt(g, r, e, v)
    ensures FreeAt(g, s, e, v) ==> r == s
    ensures r.edges[e].bend == if FreeAt(g, s, e, v) then s.edges[e].bend else None
    ensures PortAt(g, r, e, OtherEnd(g.edges[e], v)) == PortAt(g, s, e, OtherEnd(g.edges[e], v))
    ensures forall q: Port ::
              r.nodes[v].ports[q] == (if s.nodes[v].ports[q] == EdgeOcc(e) then Empty else s.nodes[v].ports[q])
    ensures r.nodes[v].labelPort == s.nodes[v].labelPort
    ensures forall u :: 0 <= u < |s.nodes| && u != v ==> r.nodes[u] == s.nodes[u]
    ensures forall f :: 0 <= f < |s.edges| && f != e ==> r.edges[f] == s.edges[f]
  {
    if FreeAt(g, s, e, v) {
      FreeEdgeHoldsNoSlot(g, s, v, e);
      r := s;
    } else {
      RecordedPortIsOccupied(g, s, v, e);
      r := Evict(g, s, v, e);
      forall q: Port ensures r.nodes[v].ports[q] ==
        (if s.nodes[v].ports[q] == EdgeOcc(e) then Empty else s.nodes[v].ports[q])
      {
        if q != PortAt(g, s, e, v).value && s.nodes[v].ports[q] == EdgeOcc(e) {
          SlotFacts(g, s, v, q);
        }
      }
    }
  }

  // ---------------------------------------------------------------------
  // Labels
  // ---------------------------------------------------------------------

  /** The state change of `Node.assign_label`. */
  function LabelUpdate(s: Layout, v: NodeRef, q: Port): (r: Layout)
    requires v < |s.nodes|
    ensures |r.nodes| == |s.nodes| && r.edges == s.edges
  {
    var n := s.nodes[v];
    var cleared: Slots :=
      if n.labelPort.Some? && n.ports[n.labelPort.value] == LabelOcc then n.ports[n.labelPort.value := Empty]
      else n.ports;
    s.(nodes := s.nodes[v := NodeLayout(cleared[q := LabelOcc], Some(q))])
  }

  /** The state change of `Node.evict_label`. */
  function UnlabelUpdate(s: Layout, v: NodeRef): (r: Layout)
    requires v < |s.nodes|
    ensures |r.nodes| == |s.nodes| && r.edges == s.edges
  {
    var n := s.nodes[v];
    match n.labelPort
    case None => s
    case Some(p) => s.(nodes := s.nodes[v := NodeLayout(n.ports[p := Empty], None)])
  }

  /**
   * Rewriting only label slots of one station keeps the occupancy
   * invariant, provided no edge slot is touched and the label slot ends up
   * where the station's `labelPort` says.
   */
  lemma RelabelKeepsOccupancy(g: Graph, s: Layout, r: Layout, v: NodeRef)
    requires WellFormed(g, s) && ValidNode(g, v) && |r.nodes| == |s.nodes| && r.edges == s.edges
    requires forall u :: 0 <= u < |s.nodes| && u != v ==> r.nodes[u] == s.nodes[u]
    requires forall p: Port :: s.nodes[v].ports[p].EdgeOcc? <==> r.nodes[v].ports[p].EdgeOcc?
    requires forall p: Port :: s.nodes[v].ports[p].EdgeOcc? ==> r.nodes[v].ports[p] == s.nodes[v].ports[p]
    requires forall p: Port :: r.nodes[v].ports[p] == LabelOcc <==> r.nodes[v].labelPort == Some(p)
    ensures WellFormed(g, r)
  {
    forall u, p: Port | 0 <= u < |r.nodes| && r.nodes[u].ports[p].EdgeOcc?
      ensures SlotAgrees(g, r, u, p)
    {
      assert s.nodes[u].ports[p] == r.nodes[u].ports[p];
      assert SlotAgrees(g, s, u, p);
    }
    forall f, k: End | 0 <= f < |r.edges| && PortOfEnd(r.edges[f], k).Some?
      ensures RecordBacked(g, r, f, k)
    {
      assert RecordBacked(g, s, f, k);
    }
  }

  /**
   * `Node.assign_label`: move the station's label to slot `q`, emptying its
   * old slot. The source overwrites whatever `q` holds without telling an
   * edge it has lost its slot, so the target must be empty or hold the label.
   */
  method AssignLabel(g: Graph, s: Layout, v: NodeRef, q: Port) returns (r: Layout)
    requires WellFormed(g, s) && ValidNode(g, v)
    requires s.nodes[v].ports[q] == Empty || s.nodes[v].ports[q] == LabelOcc
    ensures WellFormed(g, r)
    ensures r.nodes[v].labelPort == Some(q) && r.nodes[v].ports[q] == LabelOcc
    ensures forall p: Port :: p != q ==>
              r.nodes[v].ports[p] == (if s.nodes[v].ports[p] == LabelOcc then Empty else s.nodes[v].ports[p])
    ensures forall u :: 0 <= u < |s.nodes| && u != v ==> r.nodes[u] == s.nodes[u]
    ensures r.edges == s.edges
  {
    r := LabelUpdate(s, v, q);
    forall p: Port | p != q
      ensures r.nodes[v].ports[p] == (if s.nodes[v].ports[p] == LabelOcc then Empty else s.nodes[v].ports[p])
    {
      SlotFacts(g, s, v, p);
    }
    RelabelKeepsOccupancy(g, s, r, v);
  }

  /** `Node.evict_label`: take the label off its slot, if it has one. */
  method EvictLabel(g: Graph, s: Layout, v: NodeRef) returns (r: Layout)
    requires WellFormed(g, s) && ValidNode(g, v)
    ensures WellFormed(g, r)
    ensures r.nodes[v].labelPort == None
    ensures forall p: Port ::
              r.nodes[v].ports[p] == (if s.nodes[v].ports[p] == LabelOcc then Empty else s.nodes[v].ports[p])
    ensures forall u :: 0 <= u < |s.nodes| && u != v ==> r.nodes[u] == s.nodes[u]
    ensures r.edges == s.edges
  {
    r := UnlabelUpdate(s, v);
    forall p: Port
      ensures r.nodes[v].ports[p] == (if s.nodes[v].ports[p] == LabelOcc then Empty else s.nodes[v].ports[p])
    {
      SlotFacts(g, s, v, p);
    }
    RelabelKeepsOccupancy(g, s, r, v);
  }

  // ---------------------------------------------------------------------
  // Network-wide sweeps
  // ---------------------------------------------------------------------

  /**
   * Edge `f` of `r` is `f` of `s` after (if `done`) or during the sweep at
   * `v`: freed at `v` and without a bend point if it had a port there, its
   * other end unchanged; edges not at `v` are untouched.
   */
  ghost predicate SweptAt(g: Graph, s: Layout, r: Layout, v: NodeRef, f: EdgeRef, done: bool)
    requires Fits(g, s) && Fits(g, r) && f < |g.edges|
  {
    if !Incident(g.edges[f], v) then r.edges[f] == s.edges[f]
    else
      && (done || PortAt(g, r, f, v) == PortAt(g, s, f, v) || FreeAt(g, r, f, v))
      && (done ==> FreeAt(g, r, f, v))
      && PortAt(g, r, f, OtherEnd(g.edges[f], v)) == PortAt(g, s, f, OtherEnd(g.edges[f], v))
      && r.edges[f].bend == if PortAt(g, s, f, v).Some? && FreeAt(g, r, f, v) then None else s.edges[f].bend
  }

  /** One `try_evict` keeps the sweep description of every edge. */
  lemma SweepStep(g: Graph, s: Layout, r: Layout, next: Layout, v: NodeRef, e: EdgeRef)
    requires Fits(g, s) && Fits(g, r) && Fits(g, next) && e < |g.edges| && Incident(g.edges[e], v)
    requires forall f {:trigger SweptAt(g, s, r, v, f, false)} ::
               0 <= f < |g.edges| ==> SweptAt(g, s, r, v, f, false)
    requires FreeAt(g, next, e, v)
    requires next.edges[e].bend == if FreeAt(g, r, e, v) then r.edges[e].bend else None
    requires FreeAt(g, r, e, v) ==> next.edges[e] == r.edges[e]
    requires PortAt(g, next, e, OtherEnd(g.edges[e], v)) == PortAt(g, r, e, OtherEnd(g.edges[e], v))
    requires forall f :: 0 <= f < |r.edges| && f != e ==> next.edges[f] == r.edges[f]
    ensures forall f {:trigger SweptAt(g, s, next, v, f, false)} ::
              0 <= f < |g.edges| ==> SweptAt(g, s, next, v, f, false)
  {
    forall f | 0 <= f < |g.edges|
      ensures SweptAt(g, s, next, v, f, false)
    {
      assert SweptAt(g, s, r, v, f, false);
    }
  }

  /**
   * The inner loop of `Network.evict_all_edges` for one station `v`: every
   * edge incident to `v` ends up free there, losing its bend point if it
   * had a port at `v`; the other ends keep their ports and other edges are
   * untouched.
   */
  method EvictEdgesAt(g: Graph, s: Layout, v: NodeRef) returns (r: Layout)
    requires WellFormed(g, s) && ValidNode(g, v)
    ensures WellFormed(g, r)
    ensures forall f :: 0 <= f < |g.edges| ==> SweptAt(g, s, r, v, f, true)
    ensures forall u :: 0 <= u < |s.nodes| ==> r.nodes[u].labelPort == s.nodes[u].labelPort
  {
    var adj := g.nodes[v].edges;
    r := s;
    var j := 0;
    while j < |adj|
      invariant 0 <= j <= |adj|
      invariant WellFormed(g, r)
      invariant forall f {:trigger SweptAt(g, s, r, v, f, false)} ::
                  0 <= f < |g.edges| ==> SweptAt(g, s, r, v, f, false)
      invariant forall idx :: 0 <= idx < j ==> EntryIncident(g, v, idx) && FreeAt(g, r, adj[idx], v)
      invariant forall u :: 0 <= u < |s.nodes| ==> r.nodes[u].labelPort == s.nodes[u].labelPort
    {
      FollowEntry(g, v, j);
      var next := TryEvict(g, r, v, adj[j]);
      SweepStep(g, s, r, next, v, adj[j]);
      r := next;
      j := j + 1;
    }
    forall f | 0 <= f < |g.edges|
      ensures SweptAt(g, s, r, v, f, true)
    {
      assert SweptAt(g, s, r, v, f, false);
      if Incident(g.edges[f], v) {
        assert Listed(g, f);
        var idx :| 0 <= idx < |adj| && adj[idx] == f;
      }
    }
  }

  /** Edge `f` once the sweep has visited the stations before `i`. */
  ghost predicate SweptBefore(g: Graph, s: Layout, r: Layout, i: nat, f: EdgeRef)
    requires Fits(g, s) && Fits(g, r) && f < |g.edges|
  {
    var e := g.edges[f];
    var l := s.edges[f];
    && r.edges[f].port0 == (if e.v0 < i then None else l.port0)
    && r.edges[f].port1 == (if e.v1 < i then None else l.port1)
    && r.edges[f].bend == if (e.v0 < i && l.port0.Some?) || (e.v1 < i && l.port1.Some?) then None else l.bend
  }

  /**
   * `Network.evict_all_edges`: every edge end is freed and every edge that
   * held a port anywhere loses its bend point; slots that held edges are
   * empty and label slots are kept.
   */
  method EvictAllEdges(g: Graph, s: Layout) returns (r: Layout)
    requires WellFormed(g, s)
    ensures WellFormed(g, r)
    ensures forall f :: 0 <= f < |s.edges| ==> r.edges[f].port0 == None && r.edges[f].port1 == None
    ensures forall f :: 0 <= f < |s.edges| ==>
              r.edges[f].bend == if s.edges[f].port0.Some? || s.edges[f].port1.Some? then None else s.edges[f].bend
    ensures forall u, q: Port :: 0 <= u < |s.nodes| ==>
              r.nodes[u].ports[q] == if s.nodes[u].ports[q].EdgeOcc? then Empty else s.nodes[u].ports[q]
    ensures forall u :: 0 <= u < |s.nodes| ==> r.nodes[u].labelPort == s.nodes[u].labelPort
  {
    r := s;
    var i := 0;
    while i < |g.nodes|
      invariant 0 <= i <= |g.nodes|
      invariant WellFormed(g, r)
      invariant forall f {:trigger SweptBefore(g, s, r, i, f)} :: 0 <= f < |g.edges| ==> SweptBefore(g, s, r, i, f)
      invariant forall u :: 0 <= u < |s.nodes| ==> r.nodes[u].labelPort == s.nodes[u].labelPort
    {
      var next := EvictEdgesAt(g, r, i);
      var i' := i + 1;
      forall f | 0 <= f < |g.edges|
        ensures SweptBefore(g, s, next, i', f)
      {
        assert SweptBefore(g, s, r, i, f);
        assert SweptAt(g, r, next, i, f, true);
      }
      r := next;
      i := i + 1;
    }
    forall f | 0 <= f < |g.edges|
      ensures r.edges[f].port0 == None && r.edges[f].port1 == None
      ensures r.edges[f].bend == if s.edges[f].port0.Some? || s.edges[f].port1.Some? then None else s.edges[f].bend
    {
      assert SweptBefore(g, s, r, i, f);
    }
    forall u, q: Port | 0 <= u < |s.nodes|
      ensures r.nodes[u].ports[q] == if s.nodes[u].ports[q].EdgeOcc? then Empty else s.nodes[u].ports[q]
    {
      SlotFacts(g, s, u, q);
      SlotFacts(g, r, u, q);
    }
  }

  /** `Network.evict_all_labels`: every label leaves its slot; edges are untouched. */
  method EvictAllLabels(g: Graph, s: Layout) returns (r: Layout)
    requires WellFormed(g, s)
    ensures WellFormed(g, r) && r.edges == s.edges
    ensures forall u :: 0 <= u < |s.nodes| ==> r.nodes[u].labelPort == None
    ensures forall u, q: Port :: 0 <= u < |s.nodes| ==>
              r.nodes[u].ports[q] == if s.nodes[u].ports[q] == LabelOcc then Empty else s.nodes[u].ports[q]
  {
    r := s;
    var i := 0;
    while i < |g.nodes|
      invariant 0 <= i <= |g.nodes|
      invariant WellFormed(g, r) && r.edges == s.edges
      invariant forall u :: i <= u < |s.nodes| ==> r.nodes[u] == s.nodes[u]
      invariant forall u :: 0 <= u < i ==> r.nodes[u].labelPort == None
      invariant forall u, q: Port :: 0 <= u < i ==>
                  r.nodes[u].ports[q] == if s.nodes[u].ports[q] == LabelOcc then Empty else s.nodes[u].ports[q]
    {
      r := EvictLabel(g, r, i);
      i := i + 1;
    }
  }
}
