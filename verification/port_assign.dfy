/**
 * The three port-assignment strategies of helpers/port_assign.py, as far
 * as they change the network: each clears the edge ports and then commits
 * a chosen port for every edge end, station by station, in adjacency
 * order, with non-forced `Node.assign`. What differs is where the choice
 * comes from: rounding each edge's bearing, a per-station assignment
 * problem that also places the label, or the solution of an integer
 * program. The geometry and the solvers are parameters.
 */
module PortAssign {
  import opened Optional
  import opened Ports
  import opened Topology
  import opened Occupancy

  /** A port for the `k`-th edge end at station `v`. */
  type Choice = (NodeRef, nat) -> Port

  /** No edge end holds a port. */
  predicate Unplaced(s: Layout)
  {
    forall f :: 0 <= f < |s.edges| ==> s.edges[f].port0 == None && s.edges[f].port1 == None
  }

  /** An earlier edge end at `v` (one of the first `k`) was chosen for, and holds, port `c`. */
  ghost predicate TakenBefore(g: Graph, r: Layout, choice: Choice, v: NodeRef, k: nat, c: Port)
    requires Fits(g, r) && ValidNode(g, v) && k <= Degree(g, v)
  {
    exists j :: 0 <= j < k && choice(v, j) == c && EntryIncident(g, v, j)
                && PortAt(g, r, g.nodes[v].edges[j], v) == Some(c)
  }

  /**
   * The `k`-th edge end at `v` after its turn: it holds its chosen port,
   * or it is free and the slot was taken when its turn came, by the label
   * (`held` is where the label sat) or by an earlier end at `v`.
   */
  ghost predicate Committed(g: Graph, r: Layout, choice: Choice, held: Option<Port>, v: NodeRef, k: nat)
    requires Fits(g, r) && ValidNode(g, v) && k < Degree(g, v)
  {
    && EntryIncident(g, v, k)
    && var e, c := g.nodes[v].edges[k], choice(v, k);
       || PortAt(g, r, e, v) == Some(c)
       || (PortAt(g, r, e, v) == None && (held == Some(c) || TakenBefore(g, r, choice, v, k, c)))
  }

  /** The state inside the turn of station `v`, once its first `k` edge ends have been committed. */
  ghost predicate StationUpTo(g: Graph, s: Layout, r: Layout, choice: Choice, v: NodeRef, k: nat)
    requires Fits(g, s) && Fits(g, r) && ValidNode(g, v) && k <= Degree(g, v)
  {
    && (forall j {:trigger Committed(g, r, choice, s.nodes[v].labelPort, v, j)} ::
          0 <= j < k ==> Committed(g, r, choice, s.nodes[v].labelPort, v, j))
    && (forall j :: k <= j < Degree(g, v) ==>
          EntryIncident(g, v, j) && FreeAt(g, r, g.nodes[v].edges[j], v))
    && r.nodes[v].labelPort == s.nodes[v].labelPort
    && (forall u :: 0 <= u < |g.nodes| && u != v ==> r.nodes[u] == s.nodes[u])
    && (forall f, u :: 0 <= f < |g.edges| && Incident(g.edges[f], u) && u != v ==>
          PortAt(g, r, f, u) == PortAt(g, s, f, u))
  }

  /** A slot of `v` that holds an edge holds one of `v`'s listed edges. */
  lemma SlotHoldsListedEdge(g: Graph, s: Layout, v: NodeRef, p: Port) returns (j: nat)
    requires WellFormed(g, s) && ValidNode(g, v) && s.nodes[v].ports[p].EdgeOcc?
    ensures j < Degree(g, v) && g.nodes[v].edges[j] == s.nodes[v].ports[p].edge
    ensures EntryIncident(g, v, j) && PortAt(g, s, g.nodes[v].edges[j], v) == Some(p)
  {
    SlotFacts(g, s, v, p);
    var f := s.nodes[v].ports[p].edge;
    assert Listed(g, f);
    j :| 0 <= j < |g.nodes[v].edges| && g.nodes[v].edges[j] == f;
    FollowEntry(g, v, j);
  }

  /** One turn: the `k`-th edge end at `v` is assigned its chosen port without force. */
  method CommitEnd(g: Graph, s: Layout, r: Layout, choice: Choice, v: NodeRef, k: nat) returns (r': Layout)
    requires WellFormed(g, s) && WellFormed(g, r) && ValidNode(g, v) && k < Degree(g, v)
    requires StationUpTo(g, s, r, choice, v, k)
    ensures WellFormed(g, r') && StationUpTo(g, s, r', choice, v, k + 1)
    ensures BendsKept(r, r')
  {
    FollowEntry(g, v, k);
    var e, c := g.nodes[v].edges[k], choice(v, k);
    var ok;
    ok, r' := Assign(g, r, v, e, c, false);
    if ok {
      forall f | 0 <= f < |g.edges| && f != e
        ensures r'.edges[f] == r.edges[f]
      {
        assert r.nodes[v].ports[c] == Empty;
      }
    }
    CommittedAfterAssign(g, s.nodes[v].labelPort, r, r', choice, v, k, ok);
    forall j | k + 1 <= j < Degree(g, v)
      ensures EntryIncident(g, v, j) && FreeAt(g, r', g.nodes[v].edges[j], v)
    {
      FollowEntry(g, v, j);
      assert g.nodes[v].edges[j] != e;
    }
  }

  /** The outcome of every end at `v` up to the `k`-th, once the `k`-th has had its turn. */
  lemma CommittedAfterAssign(g: Graph, held: Option<Port>, r: Layout, r': Layout, choice: Choice, v: NodeRef, k: nat, ok: bool)
    requires WellFormed(g, r) && Fits(g, r') && ValidNode(g, v) && k < Degree(g, v) && EntryIncident(g, v, k)
    requires r.nodes[v].labelPort == held
    requires forall j {:trigger Committed(g, r, choice, held, v, j)} :: 0 <= j < k ==> Committed(g, r, choice, held, v, j)
    requires forall j :: k <= j < Degree(g, v) ==> EntryIncident(g, v, j) && FreeAt(g, r, g.nodes[v].edges[j], v)
    requires ok <==> r.nodes[v].ports[choice(v, k)] == Empty
    requires !ok ==> r' == r
    requires ok ==> PortAt(g, r', g.nodes[v].edges[k], v) == Some(choice(v, k))
    requires ok ==> forall f :: 0 <= f < |g.edges| && f != g.nodes[v].edges[k] ==> r'.edges[f] == r.edges[f]
    ensures forall j {:trigger Committed(g, r', choice, held, v, j)} :: 0 <= j <= k ==> Committed(g, r', choice, held, v, j)
  {
    var c := choice(v, k);
    if ok {
      forall j | 0 <= j < k
        ensures Committed(g, r', choice, held, v, j)
      {
        EarlierEndKept(g, r, r', choice, held, v, j, k);
      }
    } else if r.nodes[v].ports[c].EdgeOcc? {
      var i := SlotHoldsListedEdge(g, r, v, c);
      assert Committed(g, r, choice, held, v, i);
      assert TakenBefore(g, r', choice, v, k, c);
    } else {
      SlotFacts(g, r, v, c);
    }
  }

  /**
   * An edge end that was committed before the `k`-th keeps its outcome
   * when only the `k`-th edge's record changes.
   */
  lemma EarlierEndKept(g: Graph, r: Layout, r': Layout, choice: Choice, held: Option<Port>, v: NodeRef, j: nat, k: nat)
    requires GoodGraph(g) && Fits(g, r) && Fits(g, r') && ValidNode(g, v) && j < k < Degree(g, v)
    requires forall f :: 0 <= f < |g.edges| && f != g.nodes[v].edges[k] ==> r'.edges[f] == r.edges[f]
    requires Committed(g, r, choice, held, v, j)
    ensures Committed(g, r', choice, held, v, j)
  {
    var c := choice(v, j);
    if PortAt(g, r, g.nodes[v].edges[j], v) == None && held != Some(c) {
      var i :| 0 <= i < j && choice(v, i) == c && EntryIncident(g, v, i)
               && PortAt(g, r, g.nodes[v].edges[i], v) == Some(c);
      assert PortAt(g, r', g.nodes[v].edges[i], v) == Some(c);
    }
  }

  /** The outcome of an end depends only on the records of the ends at `v` up to it. */
  lemma CommittedKept(g: Graph, r: Layout, r': Layout, choice: Choice, held: Option<Port>, v: NodeRef, k: nat)
    requires Fits(g, r) && Fits(g, r') && ValidNode(g, v) && k < Degree(g, v)
    requires forall j :: 0 <= j <= k && EntryIncident(g, v, j) ==>
               PortAt(g, r', g.nodes[v].edges[j], v) == PortAt(g, r, g.nodes[v].edges[j], v)
    requires Committed(g, r, choice, held, v, k)
    ensures Committed(g, r', choice, held, v, k)
  {
    var c := choice(v, k);
    if PortAt(g, r, g.nodes[v].edges[k], v) == None && held != Some(c) {
      var i :| 0 <= i < k && choice(v, i) == c && EntryIncident(g, v, i)
               && PortAt(g, r, g.nodes[v].edges[i], v) == Some(c);
      assert PortAt(g, r', g.nodes[v].edges[i], v) == Some(c);
    }
  }

  /** No end at `v` holds port `q` when none was chosen for it. */
  lemma UnchosenSlotHoldsNoEdge(g: Graph, r: Layout, choice: Choice, held: Option<Port>, v: NodeRef, q: Port)
    requires WellFormed(g, r) && ValidNode(g, v)
    requires forall j {:trigger Committed(g, r, choice, held, v, j)} :: 0 <= j < Degree(g, v) ==> Committed(g, r, choice, held, v, j)
    requires forall j :: 0 <= j < Degree(g, v) ==> choice(v, j) != q
    ensures r.nodes[v].ports[q] == Empty || r.nodes[v].ports[q] == LabelOcc
  {
    forall j | 0 <= j < Degree(g, v)
      ensures EntryIncident(g, v, j) && PortAt(g, r, g.nodes[v].edges[j], v) != Some(q)
    {
      assert Committed(g, r, choice, held, v, j);
    }
    if r.nodes[v].ports[q].EdgeOcc? {
      var i := SlotHoldsListedEdge(g, r, v, q);
      assert false;
    }
  }

  /**
   * The turn of station `v`: each of its edge ends in adjacency order, then,
   * if one is given, the label moves to `target`.
   */
  method CommitStation(g: Graph, s: Layout, choice: Choice, target: Option<Port>, v: NodeRef) returns (r: Layout)
    requires WellFormed(g, s) && ValidNode(g, v)
    requires forall j :: 0 <= j < Degree(g, v) ==> EntryIncident(g, v, j) && FreeAt(g, s, g.nodes[v].edges[j], v)
    requires target.Some? ==> forall j :: 0 <= j < Degree(g, v) ==> choice(v, j) != target.value
    ensures WellFormed(g, r)
    ensures forall j {:trigger Committed(g, r, choice, s.nodes[v].labelPort, v, j)} ::
              0 <= j < Degree(g, v) ==> Committed(g, r, choice, s.nodes[v].labelPort, v, j)
    ensures r.nodes[v].labelPort == if target.Some? then target else s.nodes[v].labelPort
    ensures forall u :: 0 <= u < |g.nodes| && u != v ==> r.nodes[u] == s.nodes[u]
    ensures forall f, u :: 0 <= f < |g.edges| && Incident(g.edges[f], u) && u != v ==>
              PortAt(g, r, f, u) == PortAt(g, s, f, u)
    ensures BendsKept(s, r)
  {
    var held := s.nodes[v].labelPort;
    r := s;
    var k := 0;
    while k < Degree(g, v)
      invariant k <= Degree(g, v) && WellFormed(g, r)
      invariant StationUpTo(g, s, r, choice, v, k)
      invariant BendsKept(s, r)
    {
      r := CommitEnd(g, s, r, choice, v, k);
      k := k + 1;
    }
    if target.Some? {
      UnchosenSlotHoldsNoEdge(g, r, choice, held, v, target.value);
      var r' := AssignLabel(g, r, v, target.value);
      forall j | 0 <= j < Degree(g, v)
        ensures Committed(g, r', choice, held, v, j)
      {
        CommittedKept(g, r, r', choice, held, v, j);
      }
      r := r';
    }
  }

  /**
   * Every station's turn in index order (the order of the network's node
   * dictionary), starting from a layout in which no edge end holds a port.
   * `labels` says where each station's label goes after its edges, if
   * anywhere; it must not be a port chosen for one of its edges.
   */
  method CommitPorts(g: Graph, s: Layout, choice: Choice, labels: NodeRef -> Option<Port>) returns (r: Layout)
    requires WellFormed(g, s) && Unplaced(s)
    requires forall v, j :: 0 <= v < |g.nodes| && 0 <= j < Degree(g, v) && labels(v).Some? ==> choice(v, j) != labels(v).value
    ensures WellFormed(g, r)
    ensures forall v, k {:trigger Committed(g, r, choice, s.nodes[v].labelPort, v, k)} ::
              0 <= v < |g.nodes| && 0 <= k < Degree(g, v) ==> Committed(g, r, choice, s.nodes[v].labelPort, v, k)
    ensures forall v :: 0 <= v < |g.nodes| ==>
              r.nodes[v].labelPort == if labels(v).Some? then labels(v) else s.nodes[v].labelPort
    ensures forall f :: 0 <= f < |s.edges| ==> r.edges[f].bend == s.edges[f].bend
  {
    r := s;
    var i := 0;
    while i < |g.nodes|
      invariant i <= |g.nodes| && WellFormed(g, r) && BendsKept(s, r)
      invariant forall v, k {:trigger Committed(g, r, choice, s.nodes[v].labelPort, v, k)} ::
                  0 <= v < i && 0 <= k < Degree(g, v) ==> Committed(g, r, choice, s.nodes[v].labelPort, v, k)
      invariant forall v :: 0 <= v < i ==>
                  r.nodes[v].labelPort == if labels(v).Some? then labels(v) else s.nodes[v].labelPort
      invariant forall v :: i <= v < |g.nodes| ==> r.nodes[v] == s.nodes[v]
      invariant forall f, u :: 0 <= f < |g.edges| && Incident(g.edges[f], u) && i <= u ==> FreeAt(g, r, f, u)
    {
      forall j | 0 <= j < Degree(g, i)
        ensures EntryIncident(g, i, j) && FreeAt(g, r, g.nodes[i].edges[j], i)
      {
        FollowEntry(g, i, j);
      }
      var r' := CommitStation(g, r, choice, labels(i), i);
      forall v, k | 0 <= v < i && 0 <= k < Degree(g, v)
        ensures Committed(g, r', choice, s.nodes[v].labelPort, v, k)
      {
        forall j | 0 <= j <= k && EntryIncident(g, v, j)
          ensures PortAt(g, r', g.nodes[v].edges[j], v) == PortAt(g, r, g.nodes[v].edges[j], v)
        {
        }
        CommittedKept(g, r, r', choice, s.nodes[v].labelPort, v, k);
      }
      r := r';
      i := i + 1;
    }
  }

  /**
   * In the final layout, with the label still where it was, an end is free
   * exactly when its chosen slot holds the label or an earlier end at `v`.
   */
  lemma CommittedExactly(g: Graph, r: Layout, choice: Choice, v: NodeRef, k: nat)
    requires WellFormed(g, r) && ValidNode(g, v) && k < Degree(g, v)
    requires Committed(g, r, choice, r.nodes[v].labelPort, v, k)
    ensures var c := choice(v, k);
            PortAt(g, r, g.nodes[v].edges[k], v) ==
              if r.nodes[v].labelPort == Some(c) || TakenBefore(g, r, choice, v, k, c) then None else Some(c)
  {
    var e, c := g.nodes[v].edges[k], choice(v, k);
    SlotFacts(g, r, v, c);
    if PortAt(g, r, e, v).Some? {
      RecordedPortIsOccupied(g, r, v, e);
    }
    if TakenBefore(g, r, choice, v, k, c) {
      var j :| 0 <= j < k && choice(v, j) == c && EntryIncident(g, v, j)
               && PortAt(g, r, g.nodes[v].edges[j], v) == Some(c);
      RecordedPortIsOccupied(g, r, v, g.nodes[v].edges[j]);
      assert g.nodes[v].edges[j] != e;
    }
  }

  /**
   * An end whose port differs from those of the earlier ends at `v` and
   * from the label's slot gets it.
   */
  lemma CommittedWhenDistinct(g: Graph, r: Layout, choice: Choice, held: Option<Port>, v: NodeRef, k: nat)
    requires Fits(g, r) && ValidNode(g, v) && k < Degree(g, v)
    requires Committed(g, r, choice, held, v, k)
    requires forall j :: 0 <= j < k ==> choice(v, j) != choice(v, k)
    requires held != Some(choice(v, k))
    ensures PortAt(g, r, g.nodes[v].edges[k], v) == Some(choice(v, k))
  {
  }

  // ---------------------------------------------------------------------
  // Rounding
  // ---------------------------------------------------------------------

  /** Each edge end gets the port nearest the edge's bearing (degrees) seen from the station. */
  function Rounding(g: Graph, bearing: (NodeRef, EdgeRef) -> real): Choice
  {
    (v, k) => RoundedPort(g, bearing, v, k)
  }

  function RoundedPort(g: Graph, bearing: (NodeRef, EdgeRef) -> real, v: NodeRef, k: nat): Port
  {
    if v < |g.nodes| && k < |g.nodes[v].edges| then RoundAngleToPort(bearing(v, g.nodes[v].edges[k])) else 0
  }

  /**
   * `assign_by_rounding`: free every edge end, then give each end its
   * rounded port without force. An end stays free exactly when that slot
   * is taken by the station's label or by an earlier edge of the station
   * rounded to the same port; labels are neither moved nor placed.
   */
  method AssignByRounding(g: Graph, s: Layout, bearing: (NodeRef, EdgeRef) -> real) returns (r: Layout)
    requires WellFormed(g, s)
    ensures WellFormed(g, r)
    ensures forall v :: 0 <= v < |g.nodes| ==> r.nodes[v].labelPort == s.nodes[v].labelPort
    ensures forall v, k :: 0 <= v < |g.nodes| && 0 <= k < Degree(g, v) ==>
              && EntryIncident(g, v, k)
              && var e := g.nodes[v].edges[k];
                 var c := RoundAngleToPort(bearing(v, e));
                 PortAt(g, r, e, v) ==
                   if s.nodes[v].labelPort == Some(c) || TakenBefore(g, r, Rounding(g, bearing), v, k, c) then None else Some(c)
    ensures forall f :: 0 <= f < |s.edges| ==>
              r.edges[f].bend == if s.edges[f].port0.Some? || s.edges[f].port1.Some? then None else s.edges[f].bend
  {
    var cleared := EvictAllEdges(g, s);
    r := CommitPorts(g, cleared, Rounding(g, bearing), _ => None);
    forall v, k | 0 <= v < |g.nodes| && 0 <= k < Degree(g, v)
      ensures EntryIncident(g, v, k)
      ensures var e := g.nodes[v].edges[k];
              var c := RoundAngleToPort(bearing(v, e));
              PortAt(g, r, e, v) ==
                if s.nodes[v].labelPort == Some(c) || TakenBefore(g, r, Rounding(g, bearing), v, k, c) then None else Some(c)
    {
      assert Committed(g, r, Rounding(g, bearing), cleared.nodes[v].labelPort, v, k);
      CommittedExactly(g, r, Rounding(g, bearing), v, k);
    }
  }

  // ---------------------------------------------------------------------
  // Local matching
  // ---------------------------------------------------------------------

  /**
   * The label's row of `cost_matrix_labels`, with `strength` the label
   * strength: `left` is a station at or left of the network's midpoint.
   */
  function LabelRow(strength: real, left: bool): seq<real>
  {
    var w0, w1, w2 := 0.01 * strength, 0.02 * strength, 0.03 * strength;
    if left then [w0 / 2.0, w1 / 2.0, w2, w1, w0, w1, w2, w1 / 2.0]
    else [w0, w1, w2, w1 / 2.0, w0 / 2.0, w1 / 2.0, w2, w1]
  }

  /**
   * For a non-negative strength: a station on the left prefers port 0, at
   * cost 0.005 times the strength; the vertical ports 2 and 6 cost most,
   * 0.03 times the strength; and the row of a station on the right is the
   * left row mirrored left-to-right, so it prefers port 4.
   */
  lemma LabelRowShape(strength: real, p: Port)
    requires strength >= 0.0
    ensures |LabelRow(strength, true)| == 8 && |LabelRow(strength, false)| == 8
    ensures LabelRow(strength, true)[0] == 0.005 * strength <= LabelRow(strength, true)[p]
    ensures LabelRow(strength, false)[4] == 0.005 * strength <= LabelRow(strength, false)[p]
    ensures LabelRow(strength, true)[p] <= LabelRow(strength, true)[2] == LabelRow(strength, true)[6] == 0.03 * strength
    ensures LabelRow(strength, false)[p] <= LabelRow(strength, false)[2] == LabelRow(strength, false)[6] == 0.03 * strength
    ensures LabelRow(strength, false)[p] == LabelRow(strength, true)[(4 - p) % 8]
  {
  }

  /**
   * `cost_matrix_labels` for station `v`: one row per edge, in adjacency
   * order, holding the geometric costs of its eight ports (`edgeCost`,
   * the squared angle error), then the label row, compared against the
   * midpoint's x.
   */
  function CostMatrix(g: Graph, v: NodeRef, edgeCost: (NodeRef, EdgeRef, Port) -> real, strength: real): (m: seq<seq<real>>)
    requires ValidNode(g, v)
    ensures |m| == Degree(g, v) + 1 && forall i :: 0 <= i < |m| ==> |m[i]| == 8
    ensures m[Degree(g, v)] == LabelRow(strength, g.nodes[v].geo.x <= g.midpoint.x)
  {
    seq(Degree(g, v), k requires 0 <= k < Degree(g, v) => seq(8, (p: int) requires 0 <= p < 8 => edgeCost(v, g.nodes[v].edges[k], p)))
    + [LabelRow(strength, g.nodes[v].geo.x <= g.midpoint.x)]
  }

  /** A one-to-one choice of columns (ports), one per row. */
  predicate IsMatching(cols: seq<int>)
  {
    && (forall i :: 0 <= i < |cols| ==> 0 <= cols[i] < 8)
    && (forall i, j :: 0 <= i < j < |cols| ==> cols[i] != cols[j])
  }

  /** The columns the assignment solver (`linear_sum_assignment`) returns for station `v`'s cost matrix. */
  function Columns(g: Graph, edgeCost: (NodeRef, EdgeRef, Port) -> real, strength: real,
                   solve: seq<seq<real>> -> seq<int>, v: NodeRef): seq<int>
  {
    if v < |g.nodes| then solve(CostMatrix(g, v, edgeCost, strength)) else []
  }

  function MatchedPort(cols: seq<int>, k: nat): Port
  {
    if k < |cols| && 0 <= cols[k] < 8 then cols[k] else 0
  }

  function MatchedLabel(cols: seq<int>): Option<Port>
  {
    if |cols| > 0 && 0 <= cols[|cols| - 1] < 8 then Some(cols[|cols| - 1]) else None
  }

  /**
   * `assign_by_local_matching`: take every label and every edge off its
   * port, then, station by station, give the `i`-th edge the `i`-th column
   * the assignment solver picks for the station's cost matrix and the
   * label the last one. With the solver returning a one-to-one choice,
   * every assignment goes through.
   */
  method AssignByLocalMatching(g: Graph, s: Layout, strength: real, edgeCost: (NodeRef, EdgeRef, Port) -> real,
                               solve: seq<seq<real>> -> seq<int>) returns (r: Layout)
    requires WellFormed(g, s)
    requires forall v :: 0 <= v < |g.nodes| ==>
               |Columns(g, edgeCost, strength, solve, v)| == Degree(g, v) + 1 && IsMatching(Columns(g, edgeCost, strength, solve, v))
    ensures WellFormed(g, r)
    ensures forall v, k :: 0 <= v < |g.nodes| && 0 <= k < Degree(g, v) ==>
              && EntryIncident(g, v, k)
              && var p := PortAt(g, r, g.nodes[v].edges[k], v);
                 p.Some? && p.value == Columns(g, edgeCost, strength, solve, v)[k]
    ensures forall v :: 0 <= v < |g.nodes| ==>
              var l := r.nodes[v].labelPort;
              l.Some? && l.value == Columns(g, edgeCost, strength, solve, v)[Degree(g, v)]
    ensures forall f :: 0 <= f < |s.edges| ==>
              r.edges[f].bend == if s.edges[f].port0.Some? || s.edges[f].port1.Some? then None else s.edges[f].bend
  {
    var unlabelled := EvictAllLabels(g, s);
    var cleared := EvictAllEdges(g, unlabelled);
    var cols := (v: NodeRef) => Columns(g, edgeCost, strength, solve, v);
    var choice: Choice := (v, k) => MatchedPort(cols(v), k);
    var labels := (v: NodeRef) => MatchedLabel(cols(v));
    forall v, j | 0 <= v < |g.nodes| && 0 <= j < Degree(g, v) && labels(v).Some?
      ensures choice(v, j) != labels(v).value
    {
      assert IsMatching(cols(v));
    }
    r := CommitPorts(g, cleared, choice, labels);
    forall v, k | 0 <= v < |g.nodes| && 0 <= k < Degree(g, v)
      ensures EntryIncident(g, v, k)
      ensures var p := PortAt(g, r, g.nodes[v].edges[k], v);
              p.Some? && p.value == Columns(g, edgeCost, strength, solve, v)[k]
    {
      assert IsMatching(cols(v));
      assert Committed(g, r, choice, cleared.nodes[v].labelPort, v, k);
      CommittedWhenDistinct(g, r, choice, None, v, k);
    }
    forall v | 0 <= v < |g.nodes|
      ensures var l := r.nodes[v].labelPort;
              l.Some? && l.value == Columns(g, edgeCost, strength, solve, v)[Degree(g, v)]
    {
      assert IsMatching(cols(v));
    }
  }

  // ---------------------------------------------------------------------
  // Integer linear program
  // ---------------------------------------------------------------------

  /** The value the solver reports for the variable of port `p` of edge `e` at station `v`. */
  type PortValues = (NodeRef, EdgeRef, Port) -> real

  function Sum(a: seq<real>): real
  {
    if |a| == 0 then 0.0 else Sum(a[..|a| - 1]) + a[|a| - 1]
  }

  predicate Binary(x: real)
  {
    x == 0.0 || x == 1.0
  }

  /** The eight port variables of edge `e` at station `v`. */
  function PortRow(x: PortValues, v: NodeRef, e: EdgeRef): (a: seq<real>)
    ensures |a| == 8 && forall p: Port :: a[p] == x(v, e, p)
  {
    seq(8, (p: int) requires 0 <= p < 8 => x(v, e, p))
  }

  /** The variables of port `p` for the edges of station `v`. */
  function PortColumn(g: Graph, x: PortValues, v: NodeRef, p: Port): (a: seq<real>)
    requires ValidNode(g, v)
    ensures |a| == Degree(g, v) && forall k :: 0 <= k < Degree(g, v) ==> a[k] == x(v, g.nodes[v].edges[k], p)
  {
    seq(Degree(g, v), k requires 0 <= k < Degree(g, v) => x(v, g.nodes[v].edges[k], p))
  }

  /**
   * The constraints `assign_by_ilp` hands the solver, for 0/1 values:
   * every edge end takes exactly one port, every port of a station hosts at
   * most one edge, the two ends of an edge take opposite ports, and at a
   * station of degree two the bend variable is at least the variable of
   * the first edge's port minus that of the opposite port for the second.
   */
  ghost predicate IlpFeasible(g: Graph, x: PortValues, bend: NodeRef -> real)
  {
    && (forall v, e, p: Port {:trigger x(v, e, p)} ::
          0 <= v < |g.nodes| && e in g.nodes[v].edges ==> Binary(x(v, e, p)))
    && (forall v, e {:trigger PortRow(x, v, e)} ::
          0 <= v < |g.nodes| && e in g.nodes[v].edges ==> Sum(PortRow(x, v, e)) == 1.0)
    && (forall v, p: Port {:trigger PortColumn(g, x, v, p)} ::
          0 <= v < |g.nodes| ==> Sum(PortColumn(g, x, v, p)) <= 1.0)
    && (forall e, p: Port {:trigger x(g.edges[e].v0, e, p)} ::
          0 <= e < |g.edges| ==> x(g.edges[e].v0, e, p) == x(g.edges[e].v1, e, Opposite(p)))
    && (forall v :: 0 <= v < |g.nodes| && Degree(g, v) == 2 ==> Binary(bend(v)))
    && (forall v, p: Port :: 0 <= v < |g.nodes| && Degree(g, v) == 2 ==>
          bend(v) >= x(v, g.nodes[v].edges[0], p) - x(v, g.nodes[v].edges[1], Opposite(p)))
  }

  lemma {:induction false} SumNonNegative(a: seq<real>)
    requires forall i :: 0 <= i < |a| ==> a[i] >= 0.0
    ensures Sum(a) >= 0.0
  {
    if |a| > 0 {
      SumNonNegative(a[..|a| - 1]);
    }
  }

  lemma {:induction false} SumOfZeros(a: seq<real>)
    requires forall i :: 0 <= i < |a| ==> a[i] == 0.0
    ensures Sum(a) == 0.0
  {
    if |a| > 0 {
      SumOfZeros(a[..|a| - 1]);
    }
  }

  /** A sum of non-negative terms is at least any one of them. */
  lemma {:induction false} SumAtLeastTerm(a: seq<real>, i: nat)
    requires i < |a| && forall j :: 0 <= j < |a| ==> a[j] >= 0.0
    ensures Sum(a) >= a[i]
  {
    var init := a[..|a| - 1];
    if i == |a| - 1 {
      SumNonNegative(init);
    } else {
      SumAtLeastTerm(init, i);
    }
  }

  /** A sum of non-negative terms is at least any two of them together. */
  lemma {:induction false} SumAtLeastTwoTerms(a: seq<real>, i: nat, j: nat)
    requires i < j < |a| && forall k :: 0 <= k < |a| ==> a[k] >= 0.0
    ensures Sum(a) >= a[i] + a[j]
  {
    var init := a[..|a| - 1];
    if j == |a| - 1 {
      SumAtLeastTerm(init, i);
    } else {
      SumAtLeastTwoTerms(init, i, j);
    }
  }

  /** The first port from `p` on whose variable exceeds one half (port 0 if none does). */
  function PickFrom(x: PortValues, v: NodeRef, e: EdgeRef, p: nat): Port
    requires p <= 8
    decreases 8 - p
  {
    if p == 8 then 0 else if x(v, e, p) > 0.5 then p else PickFrom(x, v, e, p + 1)
  }

  /** The port the committed solution gives edge `e` at station `v`. */
  function Picked(x: PortValues, v: NodeRef, e: EdgeRef): Port
  {
    PickFrom(x, v, e, 0)
  }

  lemma {:induction false} PickFromFinds(x: PortValues, v: NodeRef, e: EdgeRef, p: nat, q: Port)
    requires p <= q && x(v, e, q) > 0.5
    requires forall r: Port :: p <= r < q ==> x(v, e, r) <= 0.5
    decreases 8 - p
    ensures PickFrom(x, v, e, p) == q
  {
    if p < q {
      PickFromFinds(x, v, e, p + 1, q);
    }
  }

  /**
   * In a feasible solution exactly one variable of an edge end exceeds one
   * half, so the commit loop over the eight ports assigns that end once.
   */
  lemma IlpPicksOnePort(g: Graph, x: PortValues, bend: NodeRef -> real, v: NodeRef, e: EdgeRef)
    requires IlpFeasible(g, x, bend) && ValidNode(g, v) && e in g.nodes[v].edges
    ensures x(v, e, Picked(x, v, e)) == 1.0
    ensures forall p: Port :: x(v, e, p) > 0.5 <==> p == Picked(x, v, e)
  {
    var row := PortRow(x, v, e);
    assert Sum(row) == 1.0;
    if forall p: Port :: x(v, e, p) == 0.0 {
      SumOfZeros(row);
      assert false;
    }
    var q: Port :| x(v, e, q) != 0.0;
    assert x(v, e, q) == 1.0;
    forall r: Port | r != q
      ensures x(v, e, r) == 0.0
    {
      assert Binary(x(v, e, r));
      if x(v, e, r) == 1.0 {
        if r < q {
          SumAtLeastTwoTerms(row, r, q);
        } else {
          SumAtLeastTwoTerms(row, q, r);
        }
        assert false;
      }
    }
    PickFromFinds(x, v, e, 0, q);
  }

  /** In a feasible solution the edges of a station take different ports. */
  lemma IlpPortsDistinct(g: Graph, x: PortValues, bend: NodeRef -> real, v: NodeRef, i: nat, j: nat)
    requires IlpFeasible(g, x, bend) && ValidNode(g, v) && i < j < Degree(g, v)
    ensures Picked(x, v, g.nodes[v].edges[i]) != Picked(x, v, g.nodes[v].edges[j])
  {
    var ei, ej := g.nodes[v].edges[i], g.nodes[v].edges[j];
    IlpPicksOnePort(g, x, bend, v, ei);
    IlpPicksOnePort(g, x, bend, v, ej);
    var p := Picked(x, v, ei);
    if Picked(x, v, ej) == p {
      var col := PortColumn(g, x, v, p);
      assert Sum(col) <= 1.0;
      forall k | 0 <= k < |col|
        ensures col[k] >= 0.0
      {
        assert Binary(x(v, g.nodes[v].edges[k], p));
      }
      SumAtLeastTwoTerms(col, i, j);
      assert false;
    }
  }

  /** In a feasible solution the two ends of an edge take opposite ports. */
  lemma IlpEndsOpposite(g: Graph, x: PortValues, bend: NodeRef -> real, e: EdgeRef)
    requires IlpFeasible(g, x, bend) && GoodGraph(g) && ValidEdge(g, e)
    ensures Picked(x, g.edges[e].v1, e) == Opposite(Picked(x, g.edges[e].v0, e))
  {
    var v0, v1 := g.edges[e].v0, g.edges[e].v1;
    assert Listed(g, e);
    IlpPicksOnePort(g, x, bend, v0, e);
    IlpPicksOnePort(g, x, bend, v1, e);
    var p := Picked(x, v0, e);
    assert x(v1, e, Opposite(p)) == x(v0, e, p);
  }

  /**
   * At a station of degree two whose edges are not in opposite ports, a
   * feasible solution sets the bend variable.
   */
  lemma IlpBendForced(g: Graph, x: PortValues, bend: NodeRef -> real, v: NodeRef)
    requires IlpFeasible(g, x, bend) && ValidNode(g, v) && Degree(g, v) == 2
    requires Picked(x, v, g.nodes[v].edges[1]) != Opposite(Picked(x, v, g.nodes[v].edges[0]))
    ensures bend(v) == 1.0
  {
    var e0, e1 := g.nodes[v].edges[0], g.nodes[v].edges[1];
    IlpPicksOnePort(g, x, bend, v, e0);
    IlpPicksOnePort(g, x, bend, v, e1);
    var p := Picked(x, v, e0);
    assert Binary(x(v, e1, Opposite(p)));
    assert bend(v) >= x(v, e0, p) - x(v, e1, Opposite(p));
  }

  /** The solution's port for the `k`-th edge end at each station. */
  function IlpChoice(g: Graph, x: PortValues): Choice
  {
    (v, k) => IlpPort(g, x, v, k)
  }

  function IlpPort(g: Graph, x: PortValues, v: NodeRef, k: nat): Port
  {
    if v < |g.nodes| && k < |g.nodes[v].edges| then Picked(x, v, g.nodes[v].edges[k]) else 0
  }

  /** Neither end of edge `e` has the station's label in the solution's port. */
  predicate LabelsClear(g: Graph, s: Layout, x: PortValues, e: EdgeRef)
    requires Fits(g, s) && ValidEdge(g, e) && g.edges[e].v0 < |g.nodes| && g.edges[e].v1 < |g.nodes|
  {
    var v0, v1 := g.edges[e].v0, g.edges[e].v1;
    s.nodes[v0].labelPort != Some(Picked(x, v0, e)) && s.nodes[v1].labelPort != Some(Picked(x, v1, e))
  }

  /** Where an edge end stands after the solution's ports have been committed. */
  lemma IlpEndOutcome(g: Graph, r: Layout, x: PortValues, bend: NodeRef -> real, e: EdgeRef, v: NodeRef)
    requires IlpFeasible(g, x, bend) && WellFormed(g, r) && ValidEdge(g, e) && Incident(g.edges[e], v)
    requires forall k {:trigger Committed(g, r, IlpChoice(g, x), r.nodes[v].labelPort, v, k)} ::
               0 <= k < Degree(g, v) ==> Committed(g, r, IlpChoice(g, x), r.nodes[v].labelPort, v, k)
    ensures PortAt(g, r, e, v) == if r.nodes[v].labelPort == Some(Picked(x, v, e)) then None else Some(Picked(x, v, e))
  {
    var choice := IlpChoice(g, x);
    assert Listed(g, e);
    var k :| 0 <= k < |g.nodes[v].edges| && g.nodes[v].edges[k] == e;
    forall j | 0 <= j < k
      ensures choice(v, j) != choice(v, k)
    {
      IlpPortsDistinct(g, x, bend, v, j, k);
    }
    assert Committed(g, r, choice, r.nodes[v].labelPort, v, k);
    CommittedExactly(g, r, choice, v, k);
    NotTakenWhenDistinct(g, r, choice, v, k);
  }

  /** No earlier end at `v` was chosen for the port of the `k`-th when the choices there differ. */
  lemma NotTakenWhenDistinct(g: Graph, r: Layout, choice: Choice, v: NodeRef, k: nat)
    requires Fits(g, r) && ValidNode(g, v) && k < Degree(g, v)
    requires forall j :: 0 <= j < k ==> choice(v, j) != choice(v, k)
    ensures !TakenBefore(g, r, choice, v, k, choice(v, k))
  {
  }

  /**
   * The commit step of `assign_by_ilp`. On status 0 (optimal) every edge
   * end is freed and then takes the port of its solution variable above
   * one half, without force: it gets that port unless the station's label
   * sits there, and an edge whose two ports are both clear of labels ends
   * consistent. Labels stay. Any other status changes nothing.
   */
  method AssignByIlp(g: Graph, s: Layout, status: int, x: PortValues, bend: NodeRef -> real) returns (r: Layout)
    requires WellFormed(g, s)
    requires status == 0 ==> IlpFeasible(g, x, bend)
    ensures WellFormed(g, r)
    ensures status != 0 ==> r == s
    ensures status == 0 ==> forall v :: 0 <= v < |g.nodes| ==> r.nodes[v].labelPort == s.nodes[v].labelPort
    ensures status == 0 ==> forall e, v: NodeRef :: 0 <= e < |g.edges| && Incident(g.edges[e], v) ==>
              PortAt(g, r, e, v) == if s.nodes[v].labelPort == Some(Picked(x, v, e)) then None else Some(Picked(x, v, e))
    ensures status == 0 ==> forall e :: 0 <= e < |g.edges| && LabelsClear(g, s, x, e) ==>
              r.edges[e].port1.Some? && ConsistentPorts(r.edges[e])
    ensures status == 0 ==> forall f :: 0 <= f < |s.edges| ==>
              r.edges[f].bend == if s.edges[f].port0.Some? || s.edges[f].port1.Some? then None else s.edges[f].bend
  {
    if status != 0 {
      return s;
    }
    var cleared := EvictAllEdges(g, s);
    var choice := IlpChoice(g, x);
    r := CommitPorts(g, cleared, choice, _ => None);
    forall e, v: NodeRef | 0 <= e < |g.edges| && Incident(g.edges[e], v)
      ensures PortAt(g, r, e, v) == if s.nodes[v].labelPort == Some(Picked(x, v, e)) then None else Some(Picked(x, v, e))
    {
      IlpEndOutcome(g, r, x, bend, e, v);
    }
    forall e | 0 <= e < |g.edges| && LabelsClear(g, s, x, e)
      ensures r.edges[e].port1.Some? && ConsistentPorts(r.edges[e])
    {
      var v0 := g.edges[e].v0;
      IlpEndsOpposite(g, x, bend, e);
      assert PortAt(g, r, e, v0) == Some(Picked(x, v0, e));
      assert PortAt(g, r, e, g.edges[e].v1) == Some(Picked(x, g.edges[e].v1, e));
      ConsistentFromBothEnds(g, r, e, v0, Picked(x, v0, e));
    }
  }
}
