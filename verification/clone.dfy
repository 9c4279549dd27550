/**
 * `Network.clone` (elements/network.py): a copy of the network that keeps
 * every station, connection, port record and bend. The copy rebuilds each
 * station's adjacency list in connection order, and its labels start
 * afresh: every station gets a new label without a port, and the slot
 * remapping knows only connections, so a slot that held the label comes
 * out empty.
 */
module Snapshot {
  import opened Optional
  import opened Ports
  import opened Topology

  /**
   * The adjacency list the copy builds for station `v` from connection `i`
   * on: each connection once per end at `v`, in connection order.
   */
  function EndsFrom(edges: seq<Edge>, v: NodeRef, i: nat): seq<EdgeRef>
    requires i <= |edges|
    decreases |edges| - i
  {
    if i == |edges| then []
    else
      (if edges[i].v0 == v then [i] else []) + (if edges[i].v1 == v then [i] else [])
      + EndsFrom(edges, v, i + 1)
  }

  /** The rebuilt list holds exactly the connections from `i` on that end at `v`. */
  lemma {:induction false} EndsFromExactly(edges: seq<Edge>, v: NodeRef, i: nat)
    requires i <= |edges|
    decreases |edges| - i
    ensures var r := EndsFrom(edges, v, i);
            && (forall k :: 0 <= k < |r| ==> i <= r[k] < |edges| && Incident(edges[r[k]], v))
            && (forall k :: i <= k < |edges| && Incident(edges[k], v) ==> k in r)
  {
    if i < |edges| {
      EndsFromExactly(edges, v, i + 1);
      var head := (if edges[i].v0 == v then [i] else []) + (if edges[i].v1 == v then [i] else []);
      var rest := EndsFrom(edges, v, i + 1);
      assert EndsFrom(edges, v, i) == head + rest;
      forall k | 0 <= k < |head + rest|
        ensures i <= (head + rest)[k] < |edges| && Incident(edges[(head + rest)[k]], v)
      {
        if k >= |head| {
          assert (head + rest)[k] == rest[k - |head|];
        }
      }
    }
  }

  predicate Increasing(r: seq<nat>)
  {
    forall a, b :: 0 <= a < b < |r| ==> r[a] < r[b]
  }

  lemma IncreasingCons(i: nat, rest: seq<nat>)
    requires Increasing(rest) && forall k :: 0 <= k < |rest| ==> i < rest[k]
    ensures Increasing([i] + rest)
  {
    forall a, b | 0 <= a < b < |rest| + 1
      ensures ([i] + rest)[a] < ([i] + rest)[b]
    {
      assert ([i] + rest)[b] == rest[b - 1];
    }
  }

  /** Without self-loops the rebuilt list is strictly increasing, so no connection appears twice. */
  lemma {:induction false} EndsFromIncreasing(edges: seq<Edge>, v: NodeRef, i: nat)
    requires i <= |edges|
    requires forall k :: i <= k < |edges| ==> edges[k].v0 != edges[k].v1
    decreases |edges| - i
    ensures Increasing(EndsFrom(edges, v, i))
  {
    if i < |edges| {
      EndsFromIncreasing(edges, v, i + 1);
      var rest := EndsFrom(edges, v, i + 1);
      EndsFromExactly(edges, v, i + 1);
      if Incident(edges[i], v) {
        assert EndsFrom(edges, v, i) == [i] + rest;
        IncreasingCons(i, rest);
      } else {
        assert EndsFrom(edges, v, i) == rest;
      }
    }
  }

  /** A slot of the copy: a connection of the network stays, anything else (the label) becomes empty. */
  function CloneSlot(x: Slot, m: nat): Slot
  {
    match x
    case EdgeOcc(k) => if k < m then x else Empty
    case _ => Empty
  }

  function CloneGraph(g: Graph): Graph
  {
    Graph(seq(|g.nodes|, v requires 0 <= v < |g.nodes| => g.nodes[v].(edges := EndsFrom(g.edges, v, 0))),
          seq(|g.edges|, k requires 0 <= k < |g.edges| => g.edges[k].(lineId := "")),
          g.midpoint)
  }

  function CloneLayout(g: Graph, s: Layout): Layout
  {
    Layout(seq(|s.nodes|, v requires 0 <= v < |s.nodes| =>
             NodeLayout(seq(8, p requires 0 <= p < 8 => CloneSlot(s.nodes[v].ports[p], |g.edges|)), None)),
           s.edges)
  }

  /**
   * `Network.clone`: every station keeps its name, label text and both
   * positions; every connection keeps its endpoints and colour, its port
   * records and its bend; the midpoint is kept. Each slot that held a
   * connection still holds it, every other slot is empty, and no label
   * has a port.
   */
  function Clone(n: Network): (c: Network)
    ensures |c.graph.nodes| == |n.graph.nodes| && c.graph.midpoint == n.graph.midpoint
    ensures forall v :: 0 <= v < |n.graph.nodes| ==>
              var a, b := n.graph.nodes[v], c.graph.nodes[v];
              b.name == a.name && b.text == a.text && b.pos == a.pos && b.geo == a.geo
    ensures |c.graph.edges| == |n.graph.edges|
    ensures forall k :: 0 <= k < |n.graph.edges| ==>
              var a, b := n.graph.edges[k], c.graph.edges[k];
              b.v0 == a.v0 && b.v1 == a.v1 && b.color == a.color
    ensures c.layout.edges == n.layout.edges && |c.layout.nodes| == |n.layout.nodes|
    ensures forall v, p: Port :: 0 <= v < |n.layout.nodes| ==>
              c.layout.nodes[v].labelPort == None
              && c.layout.nodes[v].ports[p] ==
                   if n.layout.nodes[v].ports[p].EdgeOcc? && n.layout.nodes[v].ports[p].edge < |n.graph.edges|
                   then n.layout.nodes[v].ports[p] else Empty
  {
    Network(CloneGraph(n.graph), CloneLayout(n.graph, n.layout))
  }

  /**
   * The copy of a well-formed graph is well-formed, and every station has
   * the same connections as before (possibly listed in another order).
   */
  lemma CloneGoodGraph(g: Graph)
    requires GoodGraph(g)
    ensures GoodGraph(CloneGraph(g))
    ensures forall v, k :: 0 <= v < |g.nodes| ==> (k in CloneGraph(g).nodes[v].edges <==> k in g.nodes[v].edges)
  {
    var c := CloneGraph(g);
    forall v | 0 <= v < |g.nodes|
      ensures var r := c.nodes[v].edges;
              && (forall k :: 0 <= k < |r| ==> r[k] < |g.edges| && Incident(g.edges[r[k]], v))
              && (forall k :: 0 <= k < |g.edges| && Incident(g.edges[k], v) ==> k in r)
    {
      EndsFromExactly(g.edges, v, 0);
    }
    forall v, k | 0 <= v < |c.nodes| && 0 <= k < |c.nodes[v].edges|
      ensures EntryIncident(c, v, k)
    {
    }
    forall e | 0 <= e < |c.edges|
      ensures Listed(c, e)
    {
    }
    forall v | 0 <= v < |g.nodes|
      ensures forall a, b :: 0 <= a < b < |c.nodes[v].edges| ==> c.nodes[v].edges[a] != c.nodes[v].edges[b]
    {
      assert c.nodes[v].edges == EndsFrom(g.edges, v, 0);
      EndsFromIncreasing(g.edges, v, 0);
      assert Increasing(c.nodes[v].edges);
    }
    forall v, k | 0 <= v < |g.nodes|
      ensures k in c.nodes[v].edges <==> k in g.nodes[v].edges
    {
      if k in g.nodes[v].edges {
        var j :| 0 <= j < |g.nodes[v].edges| && g.nodes[v].edges[j] == k;
        assert EntryIncident(g, v, j);
      }
      if k in c.nodes[v].edges {
        assert Listed(g, k);
      }
    }
  }

  /**
   * The copy of a well-formed layout is well-formed: connection slots and
   * port records are kept, the labels are gone.
   */
  lemma CloneOccupancy(g: Graph, s: Layout)
    requires WellFormed(g, s)
    ensures WellFormed(CloneGraph(g), CloneLayout(g, s))
    ensures forall v, p: Port :: 0 <= v < |s.nodes| ==>
              CloneLayout(g, s).nodes[v].ports[p] == if s.nodes[v].ports[p] == LabelOcc then Empty else s.nodes[v].ports[p]
    ensures forall v :: 0 <= v < |s.nodes| ==> CloneLayout(g, s).nodes[v].labelPort == None
  {
    var c, t := CloneGraph(g), CloneLayout(g, s);
    CloneGoodGraph(g);
    forall v, p: Port | 0 <= v < |s.nodes|
      ensures t.nodes[v].ports[p] == if s.nodes[v].ports[p] == LabelOcc then Empty else s.nodes[v].ports[p]
    {
      SlotFacts(g, s, v, p);
    }
    forall v, p: Port | 0 <= v < |t.nodes| && t.nodes[v].ports[p].EdgeOcc?
      ensures SlotAgrees(c, t, v, p)
    {
      SlotFacts(g, s, v, p);
    }
    forall e, k: End | 0 <= e < |t.edges| && PortOfEnd(t.edges[e], k).Some?
      ensures RecordBacked(c, t, e, k)
    {
      assert RecordBacked(g, s, e, k);
    }
  }

  /** Copying twice gives the same network as copying once. */
  lemma CloneIdempotent(n: Network)
    ensures Clone(Clone(n)) == Clone(n)
  {
    var c := Clone(n);
    var cc := Clone(c);
    assert cc.graph.edges == c.graph.edges;
    forall v | 0 <= v < |n.graph.nodes|
      ensures cc.graph.nodes[v] == c.graph.nodes[v]
    {
      EndsFromSameEnds(c.graph.edges, n.graph.edges, v, 0);
    }
    assert cc.graph == c.graph;
    forall v | 0 <= v < |n.layout.nodes|
      ensures cc.layout.nodes[v] == c.layout.nodes[v]
    {
      assert cc.layout.nodes[v].ports == c.layout.nodes[v].ports;
    }
  }

  /** The rebuilt adjacency depends only on the connections' endpoints. */
  lemma {:induction false} EndsFromSameEnds(a: seq<Edge>, b: seq<Edge>, v: NodeRef, i: nat)
    requires |a| == |b| && i <= |a|
    requires forall k :: 0 <= k < |a| ==> a[k].v0 == b[k].v0 && a[k].v1 == b[k].v1
    decreases |a| - i
    ensures EndsFrom(a, v, i) == EndsFrom(b, v, i)
  {
    if i < |a| {
      EndsFromSameEnds(a, b, v, i + 1);
      assert a[i].v0 == b[i].v0 && a[i].v1 == b[i].v1;
    }
  }
}
