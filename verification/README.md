# Port bookkeeping of a metro-map schematizer, in Dafny

This project models the core of an octilinear metro-map schematizer. Every
edge that leaves a station, and every station's text label, takes one of
eight compass directions ("ports") around that station. The model covers:

- the station graph and its port occupancy (`Topology`, `Occupancy`):
  - `assign`, `assign_both_ends`, `evict`, `try_evict`;
  - `assign_label`, `evict_label`;
  - `evict_all_edges`, `evict_all_labels`;
  - free-port queries and edge-end helpers;
- bends at degree-2 stations (`Bends`): `is_straight_through`,
  `is_right_angle` and `smoothen`;
- `straighten_deg2`, which lays a chain of degree-2 stations straight and
  moves their labels along (`Straighten`);
- `find_degree_2_lines` and `spacewalk`, which split the network into
  degree-2 lines (`Lines`);
- `Network.clone` (`Snapshot`);
- the commit logic of the three port assigners (`PortAssign`): rounding,
  per-station matching and the integer program;
- the canvas's undo/redo history (`History`).

A network is split into two parts:

- a `Graph`: stations, connections, names, positions and colours, which the
  port operations never change;
- a `Layout`: the eight slots of every station, the label port, the port
  each connection records at each end, and its bend.

Stations and connections are held in sequences and refer to each other by
index. The index order of the stations is the insertion order of the
source's node dictionary. `WellFormed` is the occupancy invariant every
operation keeps: a slot holds an edge exactly when that edge records the
port there, and it holds the label exactly when the label records it.

Operations that change the layout are methods whose contracts say what
changed and what stayed as it was, bend points included; where a contract
leaves an outcome open, "## Left out" names it. Geometric inputs are
parameters:

- the bearing of an edge at a station;
- the squared angle errors of the cost matrix;
- the assignment solver's column choice;
- the integer program's solution values and status.

Angles are exact reals in degrees.

## Model

| member | source | states |
|---|---|---|
| Ports.Opposite | elements/network.py:11-12 | the opposite port differs from the port and lies four steps away |
| Ports.OppositeIsInvolution | elements/network.py:11-12 | taking the opposite twice gives back the port |
| Ports.Steps | elements/network.py:216-227 | the short-way distance between two ports is at most 4, and it is 0 exactly for equal ports |
| Ports.StepsToOpposite | elements/network.py:11-12 | a port and its opposite are four steps apart |
| Ports.Wrap360 | elements/network.py:340-341 | Python's floored remainder by a full turn lies in [0, 360) and differs from the input by whole turns |
| Ports.RoundAngleToPort | elements/network.py:340-341 | less some whole number of turns, the bearing lies in the half-open 45-degree window centred on the port it rounds to |
| Ports.RoundAngleToPortIsNearest | elements/network.py:340-341 | every bearing within half a sector of port q, in any turn, rounds to q |
| Ports.RoundAngleOnPortDirection | elements/network.py:340-341 | the bearing of port k, in whole 45-degree steps, rounds to k mod 8 |
| Topology.EndIndex | elements/network.py:300-303 | `Edge.id` names the end that is the given station, and the first one when both are |
| Topology.OtherEnd | elements/network.py:305-308 | `Edge.other` returns the other endpoint: together the two make up the edge's endpoints |
| Topology.PortAt | elements/network.py:310-313 | `Edge.port_at` is the port recorded at the station's end |
| Topology.ConsistentPorts | elements/network.py:337-338 | an edge is consistent exactly when both ends have ports four steps apart |
| Topology.Neighbour | elements/network.py:144-145 | the neighbour along the k-th adjacency entry is a different, existing station at the other end of that edge |
| Topology.FreePorts | elements/network.py:239-243 | the free ports are exactly the empty slots, in increasing order |
| Topology.FirstFreePort | elements/network.py:245-251 | the first empty slot that is not an exception, or None exactly when there is none |
| Topology.FirstFreeIsHeadOfFreePorts | elements/network.py:239-251 | without exceptions, the first free port is the head of the free-port list |
| Topology.FreeEdgeHoldsNoSlot | elements/network.py:315-317 | `Edge.free_at`: an edge free at a station occupies none of that station's slots in a well-formed layout |
| Topology.RecordedPortIsOccupied | elements/network.py:171-175 | in a well-formed layout, the slot an edge records at a station holds that edge |
| Occupancy.Evict | elements/network.py:171-176 | the end is freed, its slot emptied and the edge's bend cleared; nothing else changes |
| Occupancy.Assign | elements/network.py:156-165 | succeeds exactly when forced or the slot is empty; on success the edge moves to the slot and its old slot is emptied; a forced assign evicts the slot's previous edge, clearing its bend; on failure nothing changes |
| Occupancy.AssignBothEnds | elements/network.py:167-169 | each end gets the port, or at the far end the opposite, when forced or free; when both succeed the edge ends consistent; the edge loses its bend only when a forced end finds it already in the target slot; an edge a forced end evicts is freed there with no bend and keeps its far end unless the other end evicted it too; every other edge is unchanged |
| Occupancy.ConsistentFromBothEnds | elements/network.py:167-169 | ports i and opposite(i) at the two ends make the edge consistent |
| Occupancy.TryEvict | elements/network.py:190-192 | the end ends up free; an end that was already free leaves the layout unchanged |
| Occupancy.AssignLabel | elements/network.py:178-183 | the label sits on the new port, its old slot is emptied, and nothing else changes |
| Occupancy.EvictLabel | elements/network.py:185-188 | the label has no port, its slot is emptied, and nothing else changes |
| Occupancy.EvictEdgesAt | elements/network.py:68-71 | after one station's turn of `evict_all_edges`, every edge end at that station is free and loses its bend if it had a port; far ends and other edges are untouched |
| Occupancy.EvictAllEdges | elements/network.py:68-71 | every edge end is free; exactly the edge slots are emptied; a bend is cleared exactly when its edge had a port; labels stay |
| Occupancy.EvictAllLabels | elements/network.py:73-75 | every label has no port; exactly the label slots are emptied; edges stay |
| Bends.IsStraightThrough | elements/network.py:216-220 | true exactly for a degree-2 station whose two edge ports are opposite |
| Bends.QuarterApartIsTwoSteps | elements/network.py:226 | the right-angle test `(a+2)%8==b or (b+2)%8==a` holds exactly when the ports are two steps apart |
| Bends.IsRightAngle | elements/network.py:222-227 | true exactly for a degree-2 station whose edge ports are two steps apart |
| Bends.SmoothTurnMovesOneStep | elements/network.py:233-234 | `SmoothTurn`: the smoothed port is one step from the first edge's port, and its opposite one step from the second's |
| Bends.Smoothen | elements/network.py:229-237 | a right angle becomes a straight line when both target slots are free; the far ends and other stations are unchanged; every other connection is unchanged and no bend point changes |
| Straighten.LabelTargetAvoids | elements/network.py:198-203 | `LabelTarget`: the label target is neither the edge's port nor its opposite, and it is free or already the label's |
| Straighten.WalkOnChain | elements/network.py:207-214 | one more step of the walk reaches the next station of the final walk, and the walk moves toward termination |
| Straighten.StraightenStep | elements/network.py:209-214 | one pass labels the next station and lays the next edge from port p to its opposite |
| Straighten.StraightenDeg2 | elements/network.py:197-214 | every edge after the first runs from p to opposite(p); every station reached carries its label at the target; stations off the walk are unchanged; connections with no end on the walk keep their ports and bend points; interior stations are straight through |
| Straighten.InteriorIsStraight | elements/network.py:207-214 | a station passed on, other than the first, is straight through afterwards |
| Lines.Spacewalk | elements/network.py:351-365 | a walk is non-empty and ends at the station it started from |
| Lines.WalkOn | elements/network.py:355-365 | the rest of a walk from a marked degree-2 station is non-empty and ends at that station |
| Lines.Successor | elements/network.py:355-357 | the next station is one of the two neighbours; it is `prev` only when both neighbours are, and it is the second neighbour unless that one is `prev` |
| Lines.SpacewalkIsChained | elements/network.py:351-365 | a walk lists existing stations, each adjacent to the next |
| Lines.SpacewalkMarks | elements/network.py:351-365 | a walk marks its start and otherwise only stations on the walk |
| Lines.LineThroughChained | elements/network.py:113-118 | `LineThrough`: the line through a degree-2 station contains it and is chained |
| Lines.LineThroughMarks | elements/network.py:113-118 | `LineThrough`: the marks grow by the station and otherwise only by stations on its line |
| Lines.LinesFromChained | elements/network.py:107-121 | `LinesFrom`: every line the loop finds from a given station on is chained |
| Lines.CoversAll | elements/network.py:107-121 | every degree-2 station lies on some line |
| Lines.FindDegree2Lines | elements/network.py:107-121 | the lines are chained and cover every degree-2 station |
| Lines.PathGraphHasOneLine | elements/network.py:107-121 | a path numbered along itself yields exactly one line, all its stations end to end |
| Lines.CycleGraphHasOneClosedLine | elements/network.py:107-121 | a simple cycle yields one line of n + 1 entries that starts and ends at the same station and contains every station |
| Snapshot.Clone | elements/network.py:36-59 | the copy keeps names, label texts, positions, midpoint, endpoints, colours, port records and bends; connection slots stay, label slots empty, and no label has a port |
| Snapshot.EndsFromExactly | elements/network.py:46-54 | the rebuilt adjacency lists exactly the connections ending at the station |
| Snapshot.EndsFromIncreasing | elements/network.py:46-54 | without self-loops the rebuilt adjacency has no repeats |
| Snapshot.CloneGoodGraph | elements/network.py:36-59 | the copy of a well-formed graph is well-formed and every station keeps the same set of connections |
| Snapshot.CloneOccupancy | elements/network.py:36-59 | the copy of a well-formed layout is well-formed, keeps every edge slot, and has no label ports |
| Snapshot.CloneIdempotent | elements/network.py:36-59 | copying a copy gives the same network |
| History.Start | elements/canvas.py:28-30 | a new history is valid and empty, with the cursor before the start |
| History.Checkpoint | elements/canvas.py:336-344 | the future is dropped; the entries up to the cursor are kept; a copy of the live network is appended; the cursor moves onto it |
| History.Fetch | elements/canvas.py:378-379 | the live network becomes a copy of the entry under the cursor; the entries stay |
| History.Undo | elements/canvas.py:362-368 | the cursor steps back and the live network is a copy of that entry |
| History.Redo | elements/canvas.py:370-376 | the cursor steps forward and the live network is a copy of that entry |
| History.ActionsMatchOperations | elements/canvas.py:346-360 | `UndoAction` and `RedoAction`: undo is enabled exactly when there is an earlier entry, and redo exactly when there is a later one; the captions name the entry stepped over |
| History.CheckpointDisablesRedo | elements/canvas.py:336-360 | right after a checkpoint redo is disabled, and undo is offered under the new caption exactly when an entry came before |
| History.UndoThenRedo | elements/canvas.py:362-379 | undo followed by redo fetches the same entry again |
| History.RedoThenUndo | elements/canvas.py:362-379 | redo followed by undo fetches the same entry again |
| History.EditsNeverReachHistory | elements/canvas.py:336-344 | editing the live network between checkpoints leaves every recorded entry as it was |
| History.UndoRestoresCheckpoint | elements/canvas.py:336-379 | after two checkpoints, undo restores a copy of the network as it stood at the first, and it is well-formed |
| PortAssign.CommitPorts | helpers/port_assign.py:38-41 | every edge end takes its chosen port, in station and adjacency order, without force; labels then go where given; no bend point changes |
| PortAssign.CommittedExactly | helpers/port_assign.py:38-41 | an end ends up free exactly when its chosen slot holds the label or an earlier end of the station |
| PortAssign.CommittedWhenDistinct | helpers/port_assign.py:38-41 | an end whose port differs from the earlier ends' ports and from the label's gets it |
| PortAssign.AssignByRounding | helpers/port_assign.py:35-41 | every end takes its rounded port unless the label or an earlier end at the station took it; labels stay; a connection loses its bend point exactly when it had a port at either end |
| PortAssign.LabelRowShape | helpers/port_assign.py:26-31 | `LabelRow`: the left row is cheapest at port 0, the right row at port 4; ports 2 and 6 cost most; the right row mirrors the left |
| PortAssign.CostMatrix | helpers/port_assign.py:22-31 | one row of eight per edge, then the label row for the station's side of the midpoint |
| PortAssign.AssignByLocalMatching | helpers/port_assign.py:47-59 | with a one-to-one column choice, the i-th edge gets the i-th column and the label the last one; a connection loses its bend point exactly when it had a port at either end |
| PortAssign.IlpPicksOnePort | helpers/port_assign.py:78-82 | in a feasible solution exactly one port variable of an edge end exceeds one half, and it equals 1 |
| PortAssign.IlpPortsDistinct | helpers/port_assign.py:84-86 | in a feasible solution the edges of a station pick different ports |
| PortAssign.IlpEndsOpposite | helpers/port_assign.py:88-91 | in a feasible solution the two ends of an edge pick opposite ports |
| PortAssign.IlpBendForced | helpers/port_assign.py:93-101 | a degree-2 station whose edges are not opposite has its bend variable set |
| PortAssign.IlpEndOutcome | helpers/port_assign.py:109-114 | after the commit, an end holds its picked port unless the station's label sits there |
| PortAssign.AssignByIlp | helpers/port_assign.py:109-117 | on status 0 every end takes its picked port unless a label sits there, and an edge clear of labels ends consistent; labels stay; a connection loses its bend point exactly when it had a port at either end; any other status changes nothing |

## Left out

- Rendering, pointer and gesture handling, menus, file I/O, the console `print` calls and `perf_counter` timing are not modelled.
- Label geometry is not modelled: text width, rectangles, overlaps and `get_rectangle_port`. Neither are `scale_by_shortest_edge` and `calculate_mid_point` (floating-point geometry). The midpoint is a given field.
- `Edge.angle`, `geo_angle` and `angle_error` are inputs: a bearing in degrees, or a cost per port. Radians, `atan2` and floating-point rounding are not modelled.
- `linear_sum_assignment` and the SCIP solver are oracles given as parameters. Optimality of their answers is not modelled. Only feasibility of the integer program's solution and what the commit does with it are.
- PortAssign.AssignByLocalMatching: requires the solver to return degree + 1 distinct columns in 0..7. That is what `linear_sum_assignment` returns when a station has at most seven edges. For a station of eight or more edges, the solver matches only eight of the rows. The source then pairs columns with the wrong edges, and this model does not cover that case.
- PortAssign.AssignByIlp: the commit loop over eight ports per end is modelled as one assignment of the port whose variable exceeds one half. Under feasibility it is the only one. The integer program's objective and bend cost are not modelled.
- PortAssign.AssignByRounding: places no labels, like the source. The contract names which ends stay free, not which port they would have wanted beyond that.
- Bends.IsStraightThrough: returns false where the source returns `None` (a station not of degree 2). It requires the second port at a degree-2 station, where the source would fail on `None + 4`.
- Bends.Smoothen: the source's two moves (a-1 and a+1) both turn the right angle into a straight line (opposite ports), not into a 45-degree bend. The contract follows the code. It requires both ports to be set, where the source's arithmetic on `None` would fail.
- Straighten.StraightenDeg2: requires the edge's port at the start, a label target, and no edge in the target slot on the walk. The source crashes in the first two cases (`opposite_port(None)`, `ports[None]`). In the third it runs on but breaks the occupancy invariant (elements/network.py:178-183, 159-162): the label overwrites the edge in the slot while the edge still records that port, and when that edge is the next chain edge its forced assignment empties the label's slot, leaving a label without its slot. The model does not cover that broken state. No straightness is claimed for the first station after the start, or for a walk that closes back on the start. Connections with an end on the walk may be evicted or relaid; the contract says which ones are laid and that all others keep their ports and bend points, not what happens to an evicted one.
- Straighten.StraightenStep: likewise states the chain edge it lays and keeps every connection off the walk, but not the outcome for a connection its forced assignment evicts; `Occupancy.AssignBothEnds` states that outcome for one step in isolation.
- Occupancy.Assign: requires that a forced assign does not land on the label's slot. There the source calls `evict` on the `Label`, which has no `id`.
- Occupancy.AssignBothEnds: inherits that requirement at both ends: a forced call must not land on the label's slot at either station, where the source would fail the same way.
- Occupancy.AssignLabel: requires the target slot to be empty or the label's. The source would overwrite an edge in that slot and break the occupancy invariant.
- History.Undo: requires the cursor at 1 or above, the condition under which the undo item is enabled. At index 0 the source would fetch entry -1, the last entry in Python.
- Snapshot.Clone: each station gets a fresh label without a port, so the copy's label slots are empty. The copy's `line_id` is reset, and its adjacency lists are rebuilt in connection order. This follows the code, not a deep copy.
- Lines.CycleGraphHasOneClosedLine: the line of an n-station cycle has n + 1 entries, with the start listed at both ends, as the code produces. The path and cycle lemmas assume stations and edges numbered along the line.
- Lines.PathGraphHasOneLine: proved only for a path numbered along itself, with edge k joining stations k and k + 1 and every station listing its edges in that order. A path numbered or listed otherwise is not covered: which end the line starts from then depends on the dictionary order, and the lemma would need a renumbering argument.
- Self-loops: `Navigable`, and so every well-formed graph, requires the two ends of an edge to differ, while the source's `Edge(a, a)` accepts one. For such an edge `Edge.id` answers 0 at both ends (elements/network.py:300-303), so its second port is never used, and `clone` appends it twice to the station's adjacency list (elements/network.py:52-53). The model leaves that degenerate case out.
- `seen` is keyed by station index rather than name. Names are unique, so the two agree.
- Strings are `seq<char>`. Reals are exact, so `0.01 * strength` and its halves carry no rounding.
- The `locked` flag, `left_line`, `sort_edges`, `set_label` and `get_label_nodes` are outside the modelled core.
