/**
 * The station graph of the schematizer (elements/network.py) and its port
 * layout.
 *
 * A network is split into the part the port machinery never changes, the
 * `Graph` (stations, their connections, names, positions, colours), and the
 * part it does change, the `Layout`: which of the eight port slots of every
 * station holds which connection or the station's label, which port every
 * connection records at each of its ends, and its optional bend point.
 *
 * Both parts are arenas: stations and connections live in sequences and
 * refer to each other by index. A station's label is folded into its
 * layout as the single field `labelPort`, the port the label occupies.
 */
module Topology {
  import opened Optional
  import opened Ports

  type NodeRef = nat
  type EdgeRef = nat

  /** Which of its two endpoints an edge is looked at from (`Edge.id`). */
  type End = k: int | 0 <= k < 2

  /** A coordinate pair; only ever copied, never computed with, in this model. */
  datatype Point = Point(x: real, y: real)

  /** The fixed part of a station. */
  datatype Node = Node(name: string, text: string, pos: Point, geo: Point, edges: seq<EdgeRef>)

  /** The fixed part of a connection between two stations. */
  datatype Edge = Edge(v0: NodeRef, v1: NodeRef, color: string, lineId: string)

  datatype Graph = Graph(nodes: seq<Node>, edges: seq<Edge>, midpoint: Point)

  /** What a port slot of a station holds: nothing, one edge, or the station's own label. */
  datatype Slot = Empty | EdgeOcc(edge: EdgeRef) | LabelOcc

  type Slots = s: seq<Slot> | |s| == 8
    witness [Empty, Empty, Empty, Empty, Empty, Empty, Empty, Empty]

  const AllEmpty: Slots := [Empty, Empty, Empty, Empty, Empty, Empty, Empty, Empty]

  /** The port slots of one station and the port its label sits on. */
  datatype NodeLayout = NodeLayout(ports: Slots, labelPort: Option<Port>)

  /** The ports an edge records at its two ends (`Edge.port`) and its bend point. */
  datatype EdgeLayout = EdgeLayout(port0: Option<Port>, port1: Option<Port>, bend: Option<Point>)

  datatype Layout = Layout(nodes: seq<NodeLayout>, edges: seq<EdgeLayout>)

  /** The whole `Network` object: a graph together with a layout of it. */
  datatype Network = Network(graph: Graph, layout: Layout)

  // ---------------------------------------------------------------------
  // Edge ends
  // ---------------------------------------------------------------------

  function Endpoint(e: Edge, k: End): NodeRef
  {
    if k == 0 then e.v0 else e.v1
  }

  function PortOfEnd(l: EdgeLayout, k: End): Option<Port>
  {
    if k == 0 then l.port0 else l.port1
  }

  function WithPortAt(l: EdgeLayout, k: End, p: Option<Port>): (m: EdgeLayout)
    ensures PortOfEnd(m, k) == p && PortOfEnd(m, 1 - k) == PortOfEnd(l, 1 - k)
    ensures m.bend == l.bend
  {
    if k == 0 then l.(port0 := p) else l.(port1 := p)
  }

  predicate Incident(e: Edge, v: NodeRef)
  {
    v == e.v0 || v == e.v1
  }

  /** `Edge.id`: the end at which `v` sits; the first one if both do. */
  function EndIndex(e: Edge, v: NodeRef): (k: End)
    requires Incident(e, v)
    ensures Endpoint(e, k) == v
    ensures k == 1 ==> e.v0 != v
  {
    if e.v0 == v then 0 else 1
  }

  /** `Edge.other`: the endpoint that is not `v`. */
  function OtherEnd(e: Edge, v: NodeRef): (w: NodeRef)
    requires Incident(e, v)
    ensures multiset{v, w} == multiset{e.v0, e.v1}
  {
    if e.v0 == v then e.v1 else e.v0
  }

  /** `Edge.port_at`: the port edge `f` records at its endpoint `v`. */
  function PortAt(g: Graph, s: Layout, f: EdgeRef, v: NodeRef): (p: Option<Port>)
    requires f < |g.edges| && f < |s.edges| && Incident(g.edges[f], v)
    ensures p == PortOfEnd(s.edges[f], EndIndex(g.edges[f], v))
  {
    if g.edges[f].v0 == v then s.edges[f].port0 else s.edges[f].port1
  }

  /** `Edge.free_at`: edge `f` has no port at endpoint `v`. */
  predicate FreeAt(g: Graph, s: Layout, f: EdgeRef, v: NodeRef)
    requires f < |g.edges| && f < |s.edges| && Incident(g.edges[f], v)
  {
    PortAt(g, s, f, v) == None
  }

  /**
   * `Edge.consistent_ports`: the edge leaves its two endpoints in opposite
   * directions. The source computes `opposite_port` of the second end's
   * port, which fails on an unassigned second end; the first end may be
   * unassigned (the comparison is then false).
   */
  function ConsistentPorts(l: EdgeLayout): (b: bool)
    requires l.port1.Some?
    ensures b <==> l.port0.Some? && Steps(l.port0.value, l.port1.value) == 4
  {
    l.port0 == Some(Opposite(l.port1.value))
  }

  // ---------------------------------------------------------------------
  // Well-formedness
  // ---------------------------------------------------------------------

  predicate ValidNode(g: Graph, v: int)
  {
    0 <= v < |g.nodes|
  }

  predicate ValidEdge(g: Graph, e: int)
  {
    0 <= e < |g.edges|
  }

  /**
   * The shape of the graph: endpoints exist and differ, adjacency lists hold
   * exactly the incident edges without repetition, names are unique (they
   * are the keys of the source's node dictionary).
   */
  ghost predicate GoodGraph(g: Graph)
  {
    && Navigable(g)
    && (forall e {:trigger Listed(g, e)} :: 0 <= e < |g.edges| ==> Listed(g, e))
    && (forall v, j, k :: 0 <= v < |g.nodes| && 0 <= j < k < |g.nodes[v].edges| ==>
          g.nodes[v].edges[j] != g.nodes[v].edges[k])
    && (forall v, w :: 0 <= v < w < |g.nodes| ==> g.nodes[v].name != g.nodes[w].name)
  }

  /**
   * The part of `GoodGraph` that following edges needs: edges join two
   * different existing stations, and adjacency lists name existing edges
   * that end at the station.
   */
  ghost predicate Navigable(g: Graph)
  {
    && (forall e :: 0 <= e < |g.edges| ==>
          g.edges[e].v0 < |g.nodes| && g.edges[e].v1 < |g.nodes| && g.edges[e].v0 != g.edges[e].v1)
    && (forall v, k {:trigger EntryIncident(g, v, k)} ::
          0 <= v < |g.nodes| && 0 <= k < |g.nodes[v].edges| ==> EntryIncident(g, v, k))
  }

  /** The `k`-th entry of `v`'s adjacency list is an existing edge ending at `v`. */
  ghost predicate EntryIncident(g: Graph, v: NodeRef, k: nat)
    requires v < |g.nodes| && k < |g.nodes[v].edges|
  {
    g.nodes[v].edges[k] < |g.edges| && Incident(g.edges[g.nodes[v].edges[k]], v)
  }

  /** Following the `k`-th edge of `v` leads to an existing station. */
  lemma FollowEntry(g: Graph, v: NodeRef, k: nat)
    requires Navigable(g) && v < |g.nodes| && k < |g.nodes[v].edges|
    ensures g.nodes[v].edges[k] < |g.edges| && Incident(g.edges[g.nodes[v].edges[k]], v)
    ensures OtherEnd(g.edges[g.nodes[v].edges[k]], v) < |g.nodes|
  {
    assert EntryIncident(g, v, k);
  }

  /** The station across the `k`-th edge of `v` (`v.edges[k].other(v)`). */
  function Neighbour(g: Graph, v: NodeRef, k: nat): (w: NodeRef)
    requires Navigable(g) && v < |g.nodes| && k < |g.nodes[v].edges|
    ensures w < |g.nodes| && w != v && EntryIncident(g, v, k)
    ensures w == OtherEnd(g.edges[g.nodes[v].edges[k]], v)
  {
    FollowEntry(g, v, k);
    OtherEnd(g.edges[g.nodes[v].edges[k]], v)
  }

  /** Both endpoints of edge `e` list it among their edges. */
  ghost predicate Listed(g: Graph, e: EdgeRef)
    requires e < |g.edges|
    requires g.edges[e].v0 < |g.nodes| && g.edges[e].v1 < |g.nodes|
  {
    e in g.nodes[g.edges[e].v0].edges && e in g.nodes[g.edges[e].v1].edges
  }

  /** A layout of `g`: one entry per station and per connection. */
  predicate Fits(g: Graph, s: Layout)
  {
    |s.nodes| == |g.nodes| && |s.edges| == |g.edges|
  }

  /**
   * The occupancy invariant, in three parts: a slot holding an edge agrees
   * with the edge's own record of its port there, every recorded port is
   * backed by that slot, and the label slot is exactly the one `labelPort`
   * names.
   */
  ghost predicate GoodOccupancy(g: Graph, s: Layout)
    requires Fits(g, s)
  {
    SlotsAgree(g, s) && RecordsBacked(g, s) && LabelsAgree(s)
  }

  ghost predicate SlotsAgree(g: Graph, s: Layout)
    requires Fits(g, s)
  {
    forall v, p: Port {:trigger SlotAgrees(g, s, v, p)} ::
      0 <= v < |s.nodes| && s.nodes[v].ports[p].EdgeOcc? ==> SlotAgrees(g, s, v, p)
  }

  /** The edge in slot `p` of `v` exists, ends at `v`, and records port `p` there. */
  ghost predicate SlotAgrees(g: Graph, s: Layout, v: NodeRef, p: Port)
    requires Fits(g, s) && v < |s.nodes| && s.nodes[v].ports[p].EdgeOcc?
  {
    var e := s.nodes[v].ports[p].edge;
    e < |g.edges| && Incident(g.edges[e], v) && PortAt(g, s, e, v) == Some(p)
  }

  ghost predicate RecordsBacked(g: Graph, s: Layout)
    requires Fits(g, s)
  {
    forall e, k: End {:trigger RecordBacked(g, s, e, k)} ::
      0 <= e < |s.edges| && PortOfEnd(s.edges[e], k).Some? ==> RecordBacked(g, s, e, k)
  }

  /** The port edge `e` records at its end `k` holds `e` in that endpoint's slots. */
  ghost predicate RecordBacked(g: Graph, s: Layout, e: EdgeRef, k: End)
    requires Fits(g, s) && e < |s.edges| && PortOfEnd(s.edges[e], k).Some?
  {
    var v := Endpoint(g.edges[e], k);
    v < |s.nodes| && s.nodes[v].ports[PortOfEnd(s.edges[e], k).value] == EdgeOcc(e)
  }

  ghost predicate LabelsAgree(s: Layout)
  {
    forall v, p: Port :: 0 <= v < |s.nodes| ==>
      (s.nodes[v].ports[p] == LabelOcc <==> s.nodes[v].labelPort == Some(p))
  }

  /** Every connection of `s` keeps its bend point in `r`. */
  predicate BendsKept(s: Layout, r: Layout)
  {
    |r.edges| == |s.edges| && forall f :: 0 <= f < |s.edges| ==> r.edges[f].bend == s.edges[f].bend
  }

  /** A well-formed layout of a well-formed graph. */
  ghost predicate WellFormed(g: Graph, s: Layout)
  {
    GoodGraph(g) && Fits(g, s) && GoodOccupancy(g, s)
  }

  /** Every station of `g`, as a set of indices. */
  function AllNodes(g: Graph): (r: set<NodeRef>)
    ensures forall v :: v in r <==> ValidNode(g, v)
  {
    NodesBelow(|g.nodes|)
  }

  function NodesBelow(n: nat): (r: set<NodeRef>)
    ensures forall v :: v in r <==> 0 <= v < n
  {
    if n == 0 then {} else NodesBelow(n - 1) + {n - 1}
  }

  function Degree(g: Graph, v: NodeRef): nat
    requires ValidNode(g, v)
  {
    |g.nodes[v].edges|
  }

  /** Occupancy facts about one slot of a well-formed layout. */
  lemma SlotFacts(g: Graph, s: Layout, v: NodeRef, p: Port)
    requires WellFormed(g, s) && ValidNode(g, v)
    ensures s.nodes[v].ports[p].EdgeOcc? ==> SlotAgrees(g, s, v, p)
    ensures s.nodes[v].ports[p] == LabelOcc <==> s.nodes[v].labelPort == Some(p)
  {
  }

  /** In a well-formed layout every port an edge records is backed by its slot. */
  lemma RecordedPortIsOccupied(g: Graph, s: Layout, v: NodeRef, e: EdgeRef)
    requires WellFormed(g, s) && ValidEdge(g, e) && Incident(g.edges[e], v)
    requires PortAt(g, s, e, v).Some?
    ensures ValidNode(g, v)
    ensures s.nodes[v].ports[PortAt(g, s, e, v).value] == EdgeOcc(e)
  {
    var k := EndIndex(g.edges[e], v);
    assert PortOfEnd(s.edges[e], k).Some?;
    assert RecordBacked(g, s, e, k);
  }

  /** An edge free at `v` occupies no slot of `v`. */
  lemma FreeEdgeHoldsNoSlot(g: Graph, s: Layout, v: NodeRef, e: EdgeRef)
    requires WellFormed(g, s) && ValidEdge(g, e) && Incident(g.edges[e], v)
    requires FreeAt(g, s, e, v)
    ensures ValidNode(g, v)
    ensures forall q: Port :: s.nodes[v].ports[q] != EdgeOcc(e)
  {
    forall q: Port
      ensures s.nodes[v].ports[q] != EdgeOcc(e)
    {
      SlotFacts(g, s, v, q);
    }
  }

  // ---------------------------------------------------------------------
  // Free-port queries (Node.get_free_ports, Node.first_free_port)
  // ---------------------------------------------------------------------

  /** The empty slots from index `i` on, in ascending order. */
  function FreePortsFrom(ports: Slots, i: nat): (r: seq<Port>)
    requires i <= 8
    decreases 8 - i
    ensures forall j, k :: 0 <= j < k < |r| ==> r[j] < r[k]
    ensures forall j :: 0 <= j < |r| ==> i <= r[j] && ports[r[j]] == Empty
    ensures forall p: Port :: i <= p && ports[p] == Empty ==> p in r
  {
    if i == 8 then []
    else if ports[i] == Empty then [i as Port] + FreePortsFrom(ports, i + 1)
    else FreePortsFrom(ports, i + 1)
  }

  /** `get_free_ports`: every empty slot index, ascending. */
  function FreePorts(n: NodeLayout): (r: seq<Port>)
    ensures forall j, k :: 0 <= j < k < |r| ==> r[j] < r[k]
    ensures forall p: Port :: p in r <==> n.ports[p] == Empty
  {
    FreePortsFrom(n.ports, 0)
  }

  /** The lowest slot index from `i` on that is empty and not excepted. */
  function FirstFreeFrom(ports: Slots, exceptions: seq<int>, i: nat): (r: Option<Port>)
    requires i <= 8
    decreases 8 - i
    ensures r.None? <==> forall p: Port :: i <= p ==> p in exceptions || ports[p] != Empty
    ensures r.Some? ==> i <= r.value && r.value !in exceptions && ports[r.value] == Empty
    ensures r.Some? ==> forall p: Port :: i <= p < r.value ==> p in exceptions || ports[p] != Empty
  {
    if i == 8 then None
    else if i in exceptions then FirstFreeFrom(ports, exceptions, i + 1)
    else if ports[i] == Empty then Some(i)
    else FirstFreeFrom(ports, exceptions, i + 1)
  }

  /**
   * `first_free_port(exceptions)`: the least empty slot not excepted, or
   * `None` exactly when every slot is taken or excepted.
   */
  function FirstFreePort(n: NodeLayout, exceptions: seq<int>): (r: Option<Port>)
    ensures r.None? <==> forall p: Port :: p in exceptions || n.ports[p] != Empty
    ensures r.Some? ==> r.value !in exceptions && n.ports[r.value] == Empty
    ensures r.Some? ==> forall p: Port :: p < r.value ==> p in exceptions || n.ports[p] != Empty
  {
    FirstFreeFrom(n.ports, exceptions, 0)
  }

  /** With no exceptions, the first free port heads the list of free ports. */
  lemma FirstFreeIsHeadOfFreePorts(n: NodeLayout)
    ensures FirstFreePort(n, []) == if FreePorts(n) == [] then None else Some(FreePorts(n)[0])
  {
    var r := FreePorts(n);
    if r != [] {
      assert n.ports[r[0]] == Empty;
    }
  }
}
