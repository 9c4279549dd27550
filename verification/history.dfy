/**
 * The canvas's undo/redo history (elements/canvas.py): a list of
 * (caption, snapshot) entries, a cursor into it, and the live network,
 * which is always a fresh copy of an entry rather than the entry itself.
 * Generic in the snapshot type; the copying operation is a parameter.
 */
module History {
  import opened Topology
  import opened Snapshot
  /** One checkpoint: the caption of the action that led to it, and a snapshot. */
  datatype Entry<T> = Entry(text: string, snapshot: T)

  /** `history`, `history_index` and the live `network` of the canvas. */
  datatype Timeline<T> = Timeline(entries: seq<Entry<T>>, index: int, live: T)

  /** A menu item: whether it is enabled, and its caption. */
  datatype Action = Action(enabled: bool, caption: string)

  /** The cursor is on an entry, or before the first one while there are none yet. */
  predicate Valid<T>(h: Timeline<T>)
  {
    -1 <= h.index < |h.entries| && (h.index == -1 ==> h.entries == [])
  }

  /** A new canvas: no entries, the cursor before the start. */
  function Start<T>(live: T): (h: Timeline<T>)
    ensures Valid(h) && h.live == live && |h.entries| == 0
  {
    Timeline([], -1, live)
  }

  /**
   * `history_checkpoint`: drop the entries after the cursor, append a copy
   * of the live network under `text`, and move the cursor onto it.
   */
  function Checkpoint<T>(h: Timeline<T>, text: string, clone: T -> T): (r: Timeline<T>)
    requires Valid(h)
    ensures Valid(r) && r.live == h.live
    ensures |r.entries| == h.index + 2 && r.index == h.index + 1
    ensures forall i :: 0 <= i <= h.index ==> i < |r.entries| && r.entries[i] == h.entries[i]
    ensures |r.entries| > 0 && r.entries[|r.entries| - 1] == Entry(text, clone(h.live))
  {
    Timeline(h.entries[..h.index + 1] + [Entry(text, clone(h.live))], h.index + 1, h.live)
  }

  /** `update_history_actions`, the undo item. */
  function UndoAction<T>(h: Timeline<T>): Action
    requires Valid(h)
  {
    if h.index < 1 then Action(false, "Undo") else Action(true, "Undo " + h.entries[h.index].text)
  }

  /** `update_history_actions`, the redo item. */
  function RedoAction<T>(h: Timeline<T>): Action
    requires Valid(h)
  {
    if h.index == |h.entries| - 1 then Action(false, "Redo") else Action(true, "Redo " + h.entries[h.index + 1].text)
  }

  /** `fetch_history`: the live network becomes a copy of the entry under the cursor. */
  function Fetch<T>(h: Timeline<T>, clone: T -> T): (r: Timeline<T>)
    requires Valid(h) && h.index >= 0
    ensures Valid(r) && r.entries == h.entries && r.index == h.index
    ensures r.live == clone(h.entries[h.index].snapshot)
  {
    h.(live := clone(h.entries[h.index].snapshot))
  }

  /** `undo`: step the cursor back (never before the first entry) and fetch. */
  function Undo<T>(h: Timeline<T>, clone: T -> T): (r: Timeline<T>)
    requires Valid(h) && h.index >= 1
    ensures Valid(r) && r.entries == h.entries && r.index == h.index - 1
    ensures r.live == clone(h.entries[h.index - 1].snapshot)
  {
    Fetch(h.(index := h.index - 1), clone)
  }

  /** `redo`: step the cursor forward (only while a later entry exists) and fetch. */
  function Redo<T>(h: Timeline<T>, clone: T -> T): (r: Timeline<T>)
    requires Valid(h) && h.index < |h.entries| - 1
    ensures Valid(r) && r.entries == h.entries && r.index == h.index + 1
    ensures r.live == clone(h.entries[h.index + 1].snapshot)
  {
    Fetch(h.(index := h.index + 1), clone)
  }

  /**
   * The undo item is enabled exactly when undo may be called, and then its
   * caption names the entry undo steps away from; the redo item is enabled
   * exactly when redo may be called, and then its caption names the entry
   * redo steps to.
   */
  lemma ActionsMatchOperations<T>(h: Timeline<T>, clone: T -> T)
    requires Valid(h)
    ensures UndoAction(h).enabled <==> h.index >= 1
    ensures UndoAction(h).enabled ==> UndoAction(h).caption == "Undo " + h.entries[Undo(h, clone).index + 1].text
    ensures !UndoAction(h).enabled ==> UndoAction(h).caption == "Undo"
    ensures RedoAction(h).enabled <==> h.index < |h.entries| - 1
    ensures RedoAction(h).enabled ==> RedoAction(h).caption == "Redo " + h.entries[Redo(h, clone).index].text
    ensures !RedoAction(h).enabled ==> RedoAction(h).caption == "Redo"
  {
  }

  /**
   * Right after a checkpoint there is nothing to redo, and undo is offered
   * exactly when there was an entry before, captioned with the new text.
   */
  lemma CheckpointDisablesRedo<T>(h: Timeline<T>, text: string, clone: T -> T)
    requires Valid(h)
    ensures RedoAction(Checkpoint(h, text, clone)) == Action(false, "Redo")
    ensures UndoAction(Checkpoint(h, text, clone)) ==
              if h.index >= 0 then Action(true, "Undo " + text) else Action(false, "Undo")
  {
  }

  /** Undo followed by redo returns to the same entry and fetches it again. */
  lemma UndoThenRedo<T>(h: Timeline<T>, clone: T -> T)
    requires Valid(h) && h.index >= 1
    ensures Undo(h, clone).index < |Undo(h, clone).entries| - 1
    ensures Redo(Undo(h, clone), clone) == Fetch(h, clone)
  {
  }

  /** Redo followed by undo returns to the same entry and fetches it again. */
  lemma RedoThenUndo<T>(h: Timeline<T>, clone: T -> T)
    requires Valid(h) && h.index < |h.entries| - 1 && h.index >= 0
    ensures Redo(h, clone).index >= 1
    ensures Undo(Redo(h, clone), clone) == Fetch(h, clone)
  {
  }

  /**
   * Whatever happens to the live network between checkpoints (`edit`),
   * the entries already recorded stay as they were: a checkpoint keeps
   * every entry up to the cursor and undo or redo change none. This is
   * a corollary of `Checkpoint`'s contract, applied to the edited live
   * network.
   */
  lemma EditsNeverReachHistory<T>(h: Timeline<T>, edit: T -> T, text: string, clone: T -> T)
    requires Valid(h) && h.index >= 0
    ensures var r := Checkpoint(h.(live := edit(h.live)), text, clone);
            r.entries[..h.index + 1] == h.entries[..h.index + 1] && r.entries[h.index].snapshot == h.entries[h.index].snapshot
  {
    var r := Checkpoint(h.(live := edit(h.live)), text, clone);
    assert r.entries[h.index] == r.entries[..h.index + 1][h.index];
  }

  /**
   * With the canvas's own copy, `Network.clone`: after two checkpoints,
   * undo restores a copy of the network exactly as it stood at the first,
   * whatever was edited in between (a copy of a copy is the copy), and it
   * is well-formed when that network was.
   */
  lemma UndoRestoresCheckpoint(h: Timeline<Network>, t1: string, edited: Network, t2: string)
    requires Valid(h)
    ensures var h2 := Checkpoint(Checkpoint(h, t1, Clone).(live := edited), t2, Clone);
            h2.index >= 1 && Undo(h2, Clone).live == Clone(h.live)
    ensures WellFormed(h.live.graph, h.live.layout) ==>
              var r := Clone(h.live); WellFormed(r.graph, r.layout)
  {
    CloneIdempotent(h.live);
    if WellFormed(h.live.graph, h.live.layout) {
      CloneOccupancy(h.live.graph, h.live.layout);
    }
  }
}
