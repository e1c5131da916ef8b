/**
 * The editor (`Winnie`): the scene it edits, the undo history and the
 * operations that record edits in it.
 *
 * The history keeps, as ghost state, the scene before and after every
 * recorded edit; the edits before the cursor are applied, the ones from
 * the cursor on are not, and each state is well formed under a ranking
 * that rules out cycles. Undo and redo walk this chain.
 */
module Editor {
  import opened Wrappers
  import opened JsArray
  import opened Names
  import opened Geometry
  import opened SceneTree
  import opened Removal
  import opened Commands

  /** `edits` after the oldest ones are shifted out to keep at most `depth`. */
  function Evicted(h: seq<Command>, depth: nat): seq<Command> {
    if |h| > depth then h[|h| - depth..] else h
  }

  /** Evicting before appending drops nothing that evicting after would keep. */
  lemma EvictedAppend(h: seq<Command>, x: seq<Command>, depth: nat)
    ensures Evicted(Evicted(h, depth) + x, depth) == Evicted(h + x, depth)
  {
    if |h| > depth {
      var e := h[|h| - depth..];
      if |e + x| > depth {
        assert (e + x)[|e + x| - depth..] == (h + x)[|h + x| - depth..];
      }
    }
  }

  /** With room for one edit, the last edit appended is the last one kept. */
  lemma EvictedKeepsLast(h: seq<Command>, c: Command, depth: nat)
    requires depth > 0
    ensures |Evicted(h + [c], depth)| > 0 && Evicted(h + [c], depth)[|Evicted(h + [c], depth)| - 1] == c
  {
  }

  /**
   * `edits` at `cursor` are what recording `es`, one edit after another,
   * makes of the history `e0` at `c0`: that history unchanged when `es` is
   * empty, otherwise the edits before `c0` followed by `es`, at most
   * `depth` of them kept, the cursor at the end.
   */
  predicate Records(e0: seq<Command>, c0: int, es: seq<Command>, edits: seq<Command>, cursor: int, depth: nat)
    requires 0 <= c0 <= |e0|
  {
    if es == [] then edits == e0 && cursor == c0
    else edits == Evicted(e0[..c0] + es, depth) && cursor == |edits|
  }

  /** Recording `es1` and then `es2` is recording `es1 + es2`. */
  lemma RecordsChain(e0: seq<Command>, c0: int, es1: seq<Command>, e1: seq<Command>, c1: int,
                     es2: seq<Command>, e2: seq<Command>, c2: int, depth: nat)
    requires 0 <= c0 <= |e0| && 0 <= c1 <= |e1|
    requires Records(e0, c0, es1, e1, c1, depth) && Records(e1, c1, es2, e2, c2, depth)
    ensures Records(e0, c0, es1 + es2, e2, c2, depth)
  {
    if es1 == [] {
      assert es1 + es2 == es2;
    } else if es2 == [] {
      assert es1 + es2 == es1;
    } else {
      assert e1[..c1] == e1;
      EvictedAppend(e0[..c0] + es1, es2, depth);
      assert e0[..c0] + es1 + es2 == e0[..c0] + (es1 + es2);
    }
  }

  /** Every node id below the next fresh one. */
  ghost predicate Below(s: Scene, next: nat) {
    forall id :: id in s.nodes ==> id < next
  }

  /** The i-th state is well formed and uses only ids below `next`. */
  ghost predicate StateOk(states: seq<Scene>, ranks: seq<map<Id, nat>>, i: int, next: nat)
    requires 0 <= i < |states| && |ranks| == |states|
  {
    WellFormed(states[i], ranks[i]) && Below(states[i], next)
  }

  /** The i-th edit took the i-th state to the next one and can be undone. */
  ghost predicate DoneAt(states: seq<Scene>, edits: seq<Command>, i: int)
    requires 0 <= i < |edits| && |states| == |edits| + 1
  {
    Done(states[i], edits[i], states[i + 1])
  }

  /** The i-th edit, not applied, would take the i-th state to the next one. */
  ghost predicate UndoneAt(states: seq<Scene>, edits: seq<Command>, i: int)
    requires 0 <= i < |edits| && |states| == |edits| + 1
  {
    Undone(states[i], edits[i], states[i + 1])
  }

  /**
   * The undo history: `states[i]` and `states[i + 1]` are the scenes
   * before and after `edits[i]`, applied below the cursor and not applied
   * from it on; every state is well formed under its ranking.
   */
  ghost predicate History(states: seq<Scene>, ranks: seq<map<Id, nat>>, edits: seq<Command>, cursor: int, next: nat) {
    |states| == |edits| + 1 && |ranks| == |states| && 0 <= cursor <= |edits| &&
    (forall i :: 0 <= i < |states| ==> StateOk(states, ranks, i, next)) &&
    (forall i :: 0 <= i < cursor ==> DoneAt(states, edits, i)) &&
    (forall i :: cursor <= i < |edits| ==> UndoneAt(states, edits, i))
  }

  /** Recording an applied edit at the cursor drops the edits after it. */
  lemma HistoryRecord(states: seq<Scene>, ranks: seq<map<Id, nat>>, edits: seq<Command>, cursor: int, next: nat,
                      c: Command, t: Scene, rt: map<Id, nat>)
    requires History(states, ranks, edits, cursor, next)
    requires Done(states[cursor], c, t) && WellFormed(t, rt) && Below(t, next)
    ensures History(states[..cursor + 1] + [t], ranks[..cursor + 1] + [rt], edits[..cursor] + [c], cursor + 1, next)
  {
    RecordKeepsStates(states, ranks, cursor, next, t, rt, states[..cursor + 1] + [t], ranks[..cursor + 1] + [rt]);
    RecordKeepsDone(states, edits, cursor, c, t, states[..cursor + 1] + [t], edits[..cursor] + [c]);
  }

  /** The states kept by a recording, and the new one, are well formed. */
  lemma RecordKeepsStates(states: seq<Scene>, ranks: seq<map<Id, nat>>, cursor: int, next: nat,
                          t: Scene, rt: map<Id, nat>, st: seq<Scene>, rs: seq<map<Id, nat>>)
    requires |states| == |ranks| && 0 <= cursor < |states|
    requires forall i :: 0 <= i < |states| ==> StateOk(states, ranks, i, next)
    requires WellFormed(t, rt) && Below(t, next)
    requires st == states[..cursor + 1] + [t] && rs == ranks[..cursor + 1] + [rt]
    ensures forall i :: 0 <= i < |st| ==> StateOk(st, rs, i, next)
  {
    forall i | 0 <= i < |st| ensures StateOk(st, rs, i, next) {
      if i <= cursor {
        assert st[i] == states[i] && rs[i] == ranks[i];
        assert StateOk(states, ranks, i, next);
      }
    }
  }

  /** The edits kept by a recording, and the new one, are applied. */
  lemma RecordKeepsDone(states: seq<Scene>, edits: seq<Command>, cursor: int, c: Command, t: Scene,
                         st: seq<Scene>, ed: seq<Command>)
    requires |states| == |edits| + 1 && 0 <= cursor <= |edits|
    requires forall i :: 0 <= i < cursor ==> DoneAt(states, edits, i)
    requires Done(states[cursor], c, t)
    requires st == states[..cursor + 1] + [t] && ed == edits[..cursor] + [c]
    ensures forall i :: 0 <= i < cursor + 1 ==> DoneAt(st, ed, i)
  {
    forall i | 0 <= i < cursor + 1 ensures DoneAt(st, ed, i) {
      if i < cursor {
        assert st[i] == states[i] && st[i + 1] == states[i + 1] && ed[i] == edits[i];
        assert DoneAt(states, edits, i);
      }
    }
  }

  /** Shifting out the oldest applied edit. */
  lemma HistoryShift(states: seq<Scene>, ranks: seq<map<Id, nat>>, edits: seq<Command>, cursor: int, next: nat)
    requires History(states, ranks, edits, cursor, next) && cursor > 0
    ensures History(states[1..], ranks[1..], edits[1..], cursor - 1, next)
  {
    var st := states[1..];
    var rs := ranks[1..];
    var ed := edits[1..];
    forall i | 0 <= i < |st| ensures StateOk(st, rs, i, next) {
      assert StateOk(states, ranks, i + 1, next);
    }
    forall i | 0 <= i < cursor - 1 ensures DoneAt(st, ed, i) {
      assert DoneAt(states, edits, i + 1);
    }
    forall i | cursor - 1 <= i < |ed| ensures UndoneAt(st, ed, i) {
      assert UndoneAt(states, edits, i + 1);
    }
  }

  /** Replacing the edit at `j` keeps every other applied edit in `lo..hi` applied. */
  lemma DoneElsewhere(states: seq<Scene>, edits: seq<Command>, j: int, ed: seq<Command>, lo: int, hi: int)
    requires |states| == |edits| + 1 && 0 <= j < |edits| && 0 <= lo <= hi <= |edits| && (j < lo || hi <= j)
    requires forall i :: lo <= i < hi ==> DoneAt(states, edits, i)
    requires |ed| == |edits| && ed == edits[j := ed[j]]
    ensures forall i :: lo <= i < hi ==> DoneAt(states, ed, i)
  {
    forall i | lo <= i < hi ensures DoneAt(states, ed, i) {
      assert DoneAt(states, edits, i);
    }
  }

  /** Replacing the edit at `j` keeps every other pending edit in `lo..hi` pending. */
  lemma UndoneElsewhere(states: seq<Scene>, edits: seq<Command>, j: int, ed: seq<Command>, lo: int, hi: int)
    requires |states| == |edits| + 1 && 0 <= j < |edits| && 0 <= lo <= hi <= |edits| && (j < lo || hi <= j)
    requires forall i :: lo <= i < hi ==> UndoneAt(states, edits, i)
    requires |ed| == |edits| && ed == edits[j := ed[j]]
    ensures forall i :: lo <= i < hi ==> UndoneAt(states, ed, i)
  {
    forall i | lo <= i < hi ensures UndoneAt(states, ed, i) {
      assert UndoneAt(states, edits, i);
    }
  }

  /** Undoing the edit before the cursor goes back one state; `c'` is that edit afterwards. */
  lemma HistoryUndo(states: seq<Scene>, ranks: seq<map<Id, nat>>, edits: seq<Command>, cursor: int, next: nat,
                    c': Command)
    requires History(states, ranks, edits, cursor, next) && cursor > 0
    requires Undone(states[cursor - 1], c', states[cursor])
    ensures History(states, ranks, edits[cursor - 1 := c'], cursor - 1, next)
  {
    var ed := edits[cursor - 1 := c'];
    DoneElsewhere(states, edits, cursor - 1, ed, 0, cursor - 1);
    UndoneElsewhere(states, edits, cursor - 1, ed, cursor, |edits|);
    assert ed[cursor - 1] == c' && UndoneAt(states, ed, cursor - 1);
    assert forall i :: cursor - 1 <= i < |ed| ==> UndoneAt(states, ed, i);
  }

  /** Redoing the edit at the cursor goes forward one state; `c'` is that edit afterwards. */
  lemma HistoryRedo(states: seq<Scene>, ranks: seq<map<Id, nat>>, edits: seq<Command>, cursor: int, next: nat,
                    c': Command)
    requires History(states, ranks, edits, cursor, next) && cursor < |edits|
    requires Done(states[cursor], c', states[cursor + 1])
    ensures History(states, ranks, edits[cursor := c'], cursor + 1, next)
  {
    var ed := edits[cursor := c'];
    DoneElsewhere(states, edits, cursor, ed, 0, cursor);
    UndoneElsewhere(states, edits, cursor, ed, cursor + 1, |edits|);
    assert ed[cursor] == c' && DoneAt(states, ed, cursor);
    DoneUpTo(states, ed, cursor);
  }

  /** Applied edits below `k`, and the one at `k`, are applied edits below `k + 1`. */
  lemma DoneUpTo(states: seq<Scene>, edits: seq<Command>, k: int)
    requires |states| == |edits| + 1 && 0 <= k < |edits|
    requires forall i :: 0 <= i < k ==> DoneAt(states, edits, i)
    requires DoneAt(states, edits, k)
    ensures forall i :: 0 <= i < k + 1 ==> DoneAt(states, edits, i)
  {
  }

  /** What `edit` records for `c`: a property edit keeps the old value it found. */
  lemma RecordedIsDone(s: Scene, c: Command, t: Scene, v: Option<string>)
    requires Undone(s, c, t)
    ensures Runnable(s, c) && RedoOn(s, c).0 == t
    ensures Done(s, if c.PropertyCmd? then c.(oldValue := v) else RedoOn(s, c).1, t)
  {
    RedoOfUndone(s, c, t);
  }

  /** Undoing the edit before the cursor gives back the state before it and keeps the history. */
  lemma UndoAtCursor(states: seq<Scene>, ranks: seq<map<Id, nat>>, edits: seq<Command>, cursor: int, next: nat)
    requires History(states, ranks, edits, cursor, next) && cursor > 0
    ensures var c := edits[cursor - 1];
      Runnable(states[cursor], c) && UndoOn(states[cursor], c).0 == states[cursor - 1] &&
      History(states, ranks, edits[cursor - 1 := UndoOn(states[cursor], c).1], cursor - 1, next)
  {
    assert DoneAt(states, edits, cursor - 1);
    UndoOfDone(states[cursor - 1], edits[cursor - 1], states[cursor]);
    HistoryUndo(states, ranks, edits, cursor, next, UndoOn(states[cursor], edits[cursor - 1]).1);
  }

  /** Redoing the edit at the cursor gives back the state after it and keeps the history. */
  lemma RedoAtCursor(states: seq<Scene>, ranks: seq<map<Id, nat>>, edits: seq<Command>, cursor: int, next: nat,
                   v: Option<string>)
    requires History(states, ranks, edits, cursor, next) && cursor < |edits|
    ensures var c := edits[cursor];
      Runnable(states[cursor], c) && RedoOn(states[cursor], c).0 == states[cursor + 1] &&
      History(states, ranks, edits[cursor := if c.PropertyCmd? then c.(oldValue := v) else RedoOn(states[cursor], c).1],
              cursor + 1, next)
  {
    var c := edits[cursor];
    assert UndoneAt(states, edits, cursor);
    RecordedIsDone(states[cursor], c, states[cursor + 1], v);
    HistoryRedo(states, ranks, edits, cursor, next, if c.PropertyCmd? then c.(oldValue := v) else RedoOn(states[cursor], c).1);
  }

  /** What a move that fits records and leaves behind. */
  lemma MoveRecorded(s: Scene, r: map<Id, nat>, w: Id, source: Option<Id>, removeAt: int, dest: Option<Id>, addAt: int, next: nat)
    requires WellFormed(s, r) && Below(s, next) && MoveFits(s, w, source, removeAt, dest, addAt)
    requires dest.Some? ==> !ProperAncestor(s, w, dest.value)
    ensures var t := MoveRedo(s, w, source, removeAt, dest, addAt);
      Undone(s, MoveCmd(w, source, removeAt, dest, addAt), t) &&
      WellFormed(t, Rerank(s, r, w, dest)) && Below(t, next)
  {
    MoveKeepsWellFormed(s, r, w, source, removeAt, dest, addAt);
    MoveEffect(s, w, source, removeAt, dest, addAt);
  }

  /** Two records of the same node that agree on everything but its place in the tree. */
  predicate SameRecord(n: Node, m: Node) {
    n.name == m.name && n.kind == m.kind && n.capacity == m.capacity && n.delegate == m.delegate
  }

  /** Where a move that fits leaves the parent links, the attached nodes and the destination. */
  lemma MoveRedoEffect(s: Scene, w: Id, source: Option<Id>, removeAt: int, dest: Option<Id>, addAt: int)
    requires Linked(s) && MoveFits(s, w, source, removeAt, dest, addAt)
    ensures var t := MoveRedo(s, w, source, removeAt, dest, addAt);
      t.nodes[w].parent == dest &&
      (forall id :: id in s.nodes && id != w ==> t.nodes[id].parent == s.nodes[id].parent) &&
      (forall x :: Attached(s, x) ==> Attached(t, x)) &&
      |Holder(t, dest)| >= |Holder(s, dest)|
  {
    MoveEffect(s, w, source, removeAt, dest, addAt);
    MoveGrowsDestination(s, w, source, removeAt, dest, addAt);
    forall x | Attached(s, x) ensures Attached(MoveRedo(s, w, source, removeAt, dest, addAt), x) {
      MoveKeepsAttachedForward(s, w, source, removeAt, dest, addAt, x);
    }
  }

  /**
   * What `move` leaves behind, whether or not it moved: every other node
   * under its old parent, every attached node still attached, `w` under
   * `dest` when it moved, and the destination not shorter.
   */
  lemma MoveSceneEffect(s: Scene, r: map<Id, nat>, w: Id, dest: Option<Id>, addAt: int)
    requires WellFormed(s, r) && Attached(s, w) && (dest.Some? ==> dest.value in s.nodes)
    requires 0 <= addAt <= |Holder(s, dest)|
    ensures var t := MoveScene(s, w, dest, addAt);
      (Decide(s, w, dest, addAt).Moves? ==> t.nodes[w].parent == dest) &&
      (!Decide(s, w, dest, addAt).Moves? ==> t == s) &&
      (forall id :: id in s.nodes && id != w ==> t.nodes[id].parent == s.nodes[id].parent) &&
      (forall x :: Attached(s, x) ==> Attached(t, x)) &&
      |Holder(t, dest)| >= |Holder(s, dest)|
  {
    var m := Decide(s, w, dest, addAt);
    if m.Moves? {
      DecideFits(s, r, w, dest, addAt);
      MoveRedoEffect(s, w, m.source, m.removeAt, dest, m.addAt);
    }
  }

  /** A move changes no node's name, kind, capacity or delegate. */
  lemma MoveSceneKeepsRecords(s: Scene, r: map<Id, nat>, w: Id, dest: Option<Id>, addAt: int)
    requires WellFormed(s, r) && Attached(s, w) && (dest.Some? ==> dest.value in s.nodes)
    requires 0 <= addAt <= |Holder(s, dest)|
    ensures forall id :: id in s.nodes ==> SameRecord(MoveScene(s, w, dest, addAt).nodes[id], s.nodes[id])
  {
    var m := Decide(s, w, dest, addAt);
    if m.Moves? {
      DecideFits(s, r, w, dest, addAt);
      MoveEffect(s, w, m.source, m.removeAt, dest, m.addAt);
    }
  }

  /** The nodes dropped: the selection when `w` is in it, else `w` alone. */
  function Dragged(w: Id, selected: seq<Id>): (r: seq<Id>)
    ensures w in r && (forall x :: x in r ==> x == w || x in selected)
  {
    if w in selected then selected else [w]
  }

  /**
   * The scene after moving `items` into `dest` one after another, each at
   * `addAt`, or at the end of `dest` (its current count) when `addAt` is
   * None. A node or destination missing from the scene is passed over; the
   * editor's drops never meet one.
   */
  ghost function Dropped(s: Scene, items: seq<Id>, dest: Option<Id>, addAt: Option<int>): (t: Scene)
    ensures t.nodes.Keys == s.nodes.Keys && t.widgets == s.widgets
    decreases |items|
  {
    if |items| == 0 then s
    else
      var u := Dropped(s, items[..|items| - 1], dest, addAt);
      var w := items[|items| - 1];
      if w in u.nodes && (dest.Some? ==> dest.value in u.nodes) then
        MoveScene(u, w, dest, if addAt.Some? then addAt.value else |Holder(u, dest)|)
      else u
  }

  /** The edit `move(w, dest, addAt)` records: one when the move passes its checks, none otherwise. */
  ghost function MoveRecord(s: Scene, w: Id, dest: Option<Id>, addAt: int): (r: seq<Command>)
    requires w in s.nodes && (dest.Some? ==> dest.value in s.nodes)
    ensures r != [] <==> Decide(s, w, dest, addAt).Moves?
    ensures forall c :: c in r ==> c.MoveCmd? && c.w == w && c.dest == dest
  {
    match Decide(s, w, dest, addAt)
    case Moves(source, removeAt, at) => [MoveCmd(w, source, removeAt, dest, at)]
    case _ => []
  }

  /**
   * The edits a run of drops records, in order: one move edit for each
   * move that passes its checks, none for the others.
   */
  ghost function DropEdits(s: Scene, items: seq<Id>, dest: Option<Id>, addAt: Option<int>): (r: seq<Command>)
    ensures |r| <= |items| && forall c :: c in r ==> c.MoveCmd? && c.w in items && c.dest == dest
    decreases |items|
  {
    if |items| == 0 then []
    else
      var init := items[..|items| - 1];
      var u := Dropped(s, init, dest, addAt);
      var w := items[|items| - 1];
      var before := DropEdits(s, init, dest, addAt);
      assert forall c :: c in before ==> c.w in items;
      before +
        if w in u.nodes && (dest.Some? ==> dest.value in u.nodes) then
          MoveRecord(u, w, dest, if addAt.Some? then addAt.value else |Holder(u, dest)|)
        else []
  }

  /**
   * What a run of drops keeps from the scene it started in: attached nodes
   * stay attached, and a node is under its old parent or, when it is one of
   * the nodes moved so far, under `dest`.
   */
  ghost predicate DropKeeps(s0: Scene, u: Scene, moved: seq<Id>, dest: Option<Id>)
    requires u.nodes.Keys == s0.nodes.Keys
  {
    (forall x :: Attached(s0, x) ==> Attached(u, x)) &&
    (forall x :: x in s0.nodes ==> u.nodes[x].parent == s0.nodes[x].parent || (x in moved && u.nodes[x].parent == dest))
  }

  /** A move extends what a run of drops keeps by the node it moves. */
  lemma KeepsAfterMove(s0: Scene, u: Scene, r: map<Id, nat>, moved: seq<Id>, w: Id, dest: Option<Id>, at: int)
    requires u.nodes.Keys == s0.nodes.Keys && DropKeeps(s0, u, moved, dest)
    requires WellFormed(u, r) && Attached(u, w) && (dest.Some? ==> dest.value in u.nodes)
    requires 0 <= at <= |Holder(u, dest)|
    ensures DropKeeps(s0, MoveScene(u, w, dest, at), moved + [w], dest)
  {
    MoveSceneEffect(u, r, w, dest, at);
    var t := MoveScene(u, w, dest, at);
    forall x | x in s0.nodes
      ensures t.nodes[x].parent == s0.nodes[x].parent || (x in moved + [w] && t.nodes[x].parent == dest)
    {
      if x != w {
        assert t.nodes[x].parent == u.nodes[x].parent;
      }
    }
  }

  /** One more drop of a run: the next node is attached and its move extends what the run keeps. */
  lemma DropStep(s0: Scene, r: map<Id, nat>, items: seq<Id>, i: int, dest: Option<Id>, addAt: Option<int>)
    requires 0 <= i < |items| && Attached(s0, items[i])
    requires dest.Some? ==> dest.value in s0.nodes
    requires var u := Dropped(s0, items[..i], dest, addAt);
      WellFormed(u, r) && DropKeeps(s0, u, items[..i], dest) &&
      (addAt.Some? ==> 0 <= addAt.value <= |Holder(u, dest)|)
    ensures var u := Dropped(s0, items[..i], dest, addAt);
      var at := if addAt.Some? then addAt.value else |Holder(u, dest)|;
      var t := Dropped(s0, items[..i + 1], dest, addAt);
      Attached(u, items[i]) && 0 <= at <= |Holder(u, dest)| &&
      t == MoveScene(u, items[i], dest, at) && DropKeeps(s0, t, items[..i + 1], dest) &&
      (addAt.Some? ==> addAt.value <= |Holder(t, dest)|)
  {
    var u := Dropped(s0, items[..i], dest, addAt);
    var at := if addAt.Some? then addAt.value else |Holder(u, dest)|;
    assert Attached(u, items[i]);
    DroppedLast(s0, items, i, dest, addAt);
    KeepsAfterMove(s0, u, r, items[..i], items[i], dest, at);
    MoveSceneEffect(u, r, items[i], dest, at);
  }

  /** The drops of all the items' prefix of full length are the drops of the items. */
  lemma DroppedAll(s0: Scene, items: seq<Id>, dest: Option<Id>, addAt: Option<int>)
    ensures items[..|items|] == items
    ensures Dropped(s0, items[..|items|], dest, addAt) == Dropped(s0, items, dest, addAt)
    ensures DropEdits(s0, items[..|items|], dest, addAt) == DropEdits(s0, items, dest, addAt)
  {
    assert items[..|items|] == items;
  }

  /** The drops of the first i + 1 items are those of the first i, then the move of item i. */
  lemma DroppedLast(s0: Scene, items: seq<Id>, i: int, dest: Option<Id>, addAt: Option<int>)
    requires 0 <= i < |items|
    ensures items[..i + 1] == items[..i] + [items[i]]
    ensures var u := Dropped(s0, items[..i], dest, addAt);
      var w := items[i];
      Dropped(s0, items[..i + 1], dest, addAt) ==
        if w in u.nodes && (dest.Some? ==> dest.value in u.nodes) then
          MoveScene(u, w, dest, if addAt.Some? then addAt.value else |Holder(u, dest)|)
        else u
    ensures var u := Dropped(s0, items[..i], dest, addAt);
      var w := items[i];
      DropEdits(s0, items[..i + 1], dest, addAt) == DropEdits(s0, items[..i], dest, addAt) +
        if w in u.nodes && (dest.Some? ==> dest.value in u.nodes) then
          MoveRecord(u, w, dest, if addAt.Some? then addAt.value else |Holder(u, dest)|)
        else []
  {
    var p := items[..i + 1];
    assert p[..|p| - 1] == items[..i];
    assert p[|p| - 1] == items[i];
  }

  /** Widening the id bound keeps the history. */
  lemma HistoryGrow(states: seq<Scene>, ranks: seq<map<Id, nat>>, edits: seq<Command>, cursor: int, next: nat, next': nat)
    requires History(states, ranks, edits, cursor, next) && next <= next'
    ensures History(states, ranks, edits, cursor, next')
  {
    forall i | 0 <= i < |states| ensures StateOk(states, ranks, i, next') {
      assert StateOk(states, ranks, i, next);
    }
  }

  /**
   * Where `addWidget` puts the new node: into the last selected node when
   * it is a container, else into its parent when that is a container.
   */
  function AddTarget(s: Scene, wasSelected: Option<Id>): (r: Option<Id>)
    ensures r.Some? ==> r.value in s.nodes && s.nodes[r.value].kind.ContainerKind?
    ensures r.Some? ==>
      wasSelected.Some? && (r == wasSelected || (wasSelected.value in s.nodes && s.nodes[wasSelected.value].parent == r))
  {
    if wasSelected.None? || wasSelected.value !in s.nodes then None
    else if s.nodes[wasSelected.value].kind.ContainerKind? then wasSelected
    else match s.nodes[wasSelected.value].parent
      case Some(p) => if p in s.nodes && s.nodes[p].kind.ContainerKind? then Some(p) else None
      case None => None
  }

  /** The actions `removeSelected` records: one per selected node, with the parent it had. */
  function RemoveActions(s: Scene, selected: seq<Id>): (acts: seq<RemoveAction>)
    ensures |acts| == |selected|
    ensures forall i :: 0 <= i < |selected| ==> acts[i].item == selected[i]
    ensures forall i :: 0 <= i < |selected| && selected[i] in s.nodes ==> acts[i].holder == s.nodes[selected[i]].parent
  {
    seq(|selected|, i requires 0 <= i < |selected| =>
      RemoveAction(selected[i], if selected[i] in s.nodes then s.nodes[selected[i]].parent else None, 0))
  }

  /** What recording the new node of `addWidget` takes and leaves. */
  lemma AddRecorded(s: Scene, r: map<Id, nat>, next: nat, name: string, record: Node)
    requires WellFormed(s, r) && Below(s, next) && name !in s.widgets
    requires record.name == name && record.parent == None && record.children == []
    ensures var t := AddRedo(s, next, name, record);
      Undone(s, AddCmd(next, name, record), t) && WellFormed(t, r[next := 0]) && Below(t, next + 1) &&
      Attached(t, next) && t.nodes[next] == record && t.widgets == s.widgets[name := next] &&
      (forall id :: id in s.nodes ==> id in t.nodes && t.nodes[id] == s.nodes[id])
  {
    AddKeepsWellFormed(s, r, next, name, record);
  }

  /** What the edit of `removeSelected` takes and leaves. */
  lemma RemoveRecorded(s: Scene, r: map<Id, nat>, next: nat, selected: seq<Id>)
    requires WellFormed(s, r) && Below(s, next)
    requires forall i :: 0 <= i < |selected| ==> Attached(s, selected[i])
    requires forall i, j :: 0 <= i < j < |selected| ==> selected[i] != selected[j]
    ensures var acts := RemoveActions(s, selected);
      var x := set y | y in selected;
      var t := RemovedScene(s, x);
      Undone(s, RemoveCmd(acts), t) && AllIn(s, acts) && WellFormed(t, r) && Below(t, next) &&
      (forall y :: y in selected ==> !Attached(t, y) && s.nodes[y].name !in t.widgets) &&
      (forall y :: y in s.nodes && y !in selected && Attached(s, y) ==> Attached(t, y) && t.nodes[y].parent == s.nodes[y].parent)
  {
    var acts := RemoveActions(s, selected);
    var x := set y | y in selected;
    assert Items(acts) == x by {
      forall y | y in x ensures y in Items(acts) {
        var i :| 0 <= i < |selected| && selected[i] == y;
        assert acts[i].item == y;
      }
    }
    RemovedKeepsWellFormed(s, r, x);
    RemovedDetaches(s, x);
    ReadyAllIn(s, acts);
  }

  /**
   * The boxes `d.width = d.height = side` passes through: JavaScript
   * assigns right to left, so the height is written first.
   */
  function Squared(b: Box, side: int): (r: seq<Box>)
    ensures |r| == 2 && r[1] == b.(width := side, height := side)
  {
    [b.(height := side), b.(height := side, width := side)]
  }

  /** The side `addWidget` leaves a new widget's delegate with: 100 when placed, 300 as the visual root, else 0. */
  function AddSide(kind: Kind, visualRootPresent: bool, placed: bool): nat {
    if !kind.ContainerKind? then 0 else if placed then 100 else if !visualRootPresent then 300 else 0
  }

  /**
   * The boxes a new widget's delegate passes through in `addWidget`: a
   * container that becomes the visual root is squared to 300, then a
   * container placed into a target is squared to 100.
   */
  function AddSizing(kind: Kind, visualRootPresent: bool, placed: bool): (r: seq<Box>)
    ensures |r| == 0 <==> AddSide(kind, visualRootPresent, placed) == 0
    ensures |r| > 0 ==> r[|r| - 1] == Box(0, 0, AddSide(kind, visualRootPresent, placed), AddSide(kind, visualRootPresent, placed))
  {
    var root := if kind.ContainerKind? && !visualRootPresent then Squared(Box(0, 0, 0, 0), 300) else [];
    var from := if |root| > 0 then root[1] else Box(0, 0, 0, 0);
    root + if kind.ContainerKind? && placed then Squared(from, 100) else []
  }

  /** The layout of a node's parent container, if its parent is a container. */
  function ParentPane(s: Scene, id: Id): Option<Pane>
    requires id in s.nodes
  {
    match s.nodes[id].parent
    case Some(p) => if p in s.nodes && s.nodes[p].kind.ContainerKind? then Some(s.nodes[p].kind.pane) else None
    case None => None
  }

  /**
   * The resize handles `decorate` shows, as the code is written: the
   * second `Box` test repeats the vertical one, so a horizontal box gets
   * none.
   */
  function HandleSetAsWritten(attached: bool, parent: Option<Pane>): seq<Handle> {
    if !attached then []
    else match parent
      case Some(AnchorsPane) => [LeftTop, LeftMiddle, LeftBottom, MiddleTop, MiddleBottom, RightTop, RightMiddle, RightBottom]
      case Some(FlowPane) => [MiddleBottom, RightMiddle, RightBottom]
      case Some(ScrollPane) => [MiddleBottom, RightMiddle, RightBottom]
      case Some(BoxPane(Vertical)) => [MiddleBottom]
      case _ => []
  }

  /** A horizontal box offers no handle, a vertical one the bottom handle. */
  lemma HorizontalBoxUndecorated()
    ensures HandleSetAsWritten(true, Some(BoxPane(Horizontal))) == []
    ensures HandleSetAsWritten(true, Some(BoxPane(Vertical))) == [MiddleBottom]
  {
  }

  /** The handles with the second `Box` test read as the horizontal case: the right-middle handle. */
  function HandleSet(attached: bool, parent: Option<Pane>): (r: seq<Handle>)
    ensures !attached || parent.None? ==> r == []
    ensures parent.Some? && parent.value != BoxPane(Horizontal) ==> r == HandleSetAsWritten(attached, parent)
  {
    if attached && parent == Some(BoxPane(Horizontal)) then [RightMiddle]
    else HandleSetAsWritten(attached, parent)
  }

  /**
   * The handles follow the parent's layout: outside an anchors pane no
   * handle moves the widget's origin, and a box offers exactly the handle
   * that grows the child along the box's orientation.
   */
  lemma HandlesFollowLayout(attached: bool, p: Pane, h: Handle, prev: Box, cur: Box, diff: Point)
    ensures p != AnchorsPane && h in HandleSet(attached, Some(p)) ==>
      Resized(h, prev, cur, diff).left == cur.left && Resized(h, prev, cur, diff).top == cur.top
    ensures attached && p.BoxPane? ==>
      HandleSet(attached, Some(p)) == [if p.orientation == Vertical then MiddleBottom else RightMiddle]
    ensures attached && p == AnchorsPane ==> forall g: Handle :: g in HandleSet(attached, Some(p))
  {
    ResizedEdges(h, prev, cur, diff);
    if attached && p == AnchorsPane {
      forall g: Handle ensures g in HandleSet(attached, Some(p)) {
        match g
        case LeftTop => case LeftMiddle => case LeftBottom => case MiddleTop =>
        case MiddleBottom => case RightTop => case RightMiddle => case RightBottom =>
      }
    }
  }

  /**
   * What the handle set as written keeps of the layout rule: outside an
   * anchors pane no handle it offers moves the widget's origin, a vertical
   * box offers the bottom handle, and an anchors pane offers all eight.
   */
  lemma HandlesAsWrittenFollowLayout(attached: bool, p: Pane, h: Handle, prev: Box, cur: Box, diff: Point)
    ensures p != AnchorsPane && h in HandleSetAsWritten(attached, Some(p)) ==>
      Resized(h, prev, cur, diff).left == cur.left && Resized(h, prev, cur, diff).top == cur.top
    ensures attached && p == BoxPane(Vertical) ==> HandleSetAsWritten(attached, Some(p)) == [MiddleBottom]
    ensures attached && p == AnchorsPane ==> forall g: Handle :: g in HandleSetAsWritten(attached, Some(p))
  {
    HandlesFollowLayout(attached, p, h, prev, cur, diff);
    if attached && p == AnchorsPane {
      assert HandleSet(attached, Some(p)) == HandleSetAsWritten(attached, Some(p));
    }
  }

  /** Placements that agree at the last position of every delegate agree everywhere. */
  lemma LastDecides(subjects: seq<Delegate>, a: seq<Placement>, b: seq<Placement>)
    requires |a| == |subjects| && |b| == |subjects|
    requires forall j, k :: 0 <= j < |subjects| && 0 <= k < |subjects| && subjects[j] == subjects[k] ==>
      a[j] == a[k] && b[j] == b[k]
    requires forall k :: 0 <= k < |subjects| && LastIn(subjects, k) ==> a[k] == b[k]
    ensures a == b
  {
    forall k | 0 <= k < |subjects|
      ensures a[k] == b[k]
    {
      LastOccurrence(subjects, k);
      var j :| k <= j < |subjects| && subjects[j] == subjects[k] && LastIn(subjects, j);
    }
  }

  /**
   * The sizing `addWidget` gives a new delegate before placing it: a
   * container that becomes the visual root gets height, then width 300.
   */
  method SizeAdded(d: Delegate, kind: Kind, visualRootPresent: bool)
    requires d.Bounds() == Box(0, 0, 0, 0) && d.style == Unanchored
    modifies d
    ensures d.Bounds() == Box(0, 0, AddSide(kind, visualRootPresent, false), AddSide(kind, visualRootPresent, false))
    ensures d.style == Restyled(d.restyle, Unanchored, AddSizing(kind, visualRootPresent, false))
    ensures d.props == old(d.props)
  {
    if kind.ContainerKind? && !visualRootPresent {
      ghost var written := d.Write(Box(0, 0, 0, 300), Unanchored, []);
      written := d.Write(Box(0, 0, 300, 300), Unanchored, written);
      assert written == AddSizing(kind, visualRootPresent, false);
    }
  }

  /** The moved items `endItemsMove` records: each with its start and its current snapshot. */
  function Ended(items: seq<Moving>): (r: seq<MovedItem>)
    reads set m | m in items :: m.item.delegate
    ensures |r| == |items|
    ensures forall k :: 0 <= k < |items| ==>
      r[k] == MovedItem(items[k].item.delegate, items[k].start, SizeLocationSnapshot(items[k].item.delegate))
  {
    if |items| == 0 then []
    else [MovedItem(items[0].item.delegate, items[0].start, SizeLocationSnapshot(items[0].item.delegate))] + Ended(items[1..])
  }

  /** The delegates the recorded move-items edit writes are those of the items. */
  lemma DelegatesOfEnded(items: seq<Moving>, ms: seq<MovedItem>)
    requires |ms| == |items| && forall k :: 0 <= k < |items| ==> ms[k].delegate == items[k].item.delegate
    ensures Delegates(MoveItemsCmd(ms)) == set m | m in items :: m.item.delegate
  {
    forall m | m in items ensures m.item.delegate in Delegates(MoveItemsCmd(ms)) {
      var k :| 0 <= k < |items| && items[k] == m;
      assert ms[k] in ms;
    }
  }

  /**
   * When every occurrence of a delegate carries the same end snapshot,
   * applying the last one of each gives every item its own end anchors.
   */
  lemma SameEndsApplied(ms: seq<MovedItem>)
    requires forall k, j :: 0 <= k < |ms| && 0 <= j < |ms| && ms[k].delegate == ms[j].delegate ==> ms[k].end == ms[j].end
    requires forall k :: 0 <= k < |ms| && LastIn(MoveSubjects(ms), k) ==> ms[k].delegate.style == ms[k].end.anchors
    ensures forall k :: 0 <= k < |ms| ==> ms[k].delegate.style == ms[k].end.anchors
  {
    forall k | 0 <= k < |ms|
      ensures ms[k].delegate.style == ms[k].end.anchors
    {
      LastOccurrence(MoveSubjects(ms), k);
      var j :| k <= j < |ms| && MoveSubjects(ms)[j] == MoveSubjects(ms)[k] && LastIn(MoveSubjects(ms), j);
    }
  }

  class Winnie {
    var forest: seq<Id>
    var nodes: map<Id, Node>
    var widgets: map<string, Id>
    var edits: seq<Command>
    var editsCursor: int
    const undoDepth: nat
    const grid: Point
    /** The id the next created node gets. */
    var nextId: nat
    /** The resize handles shown for the selected widget. */
    var decors: seq<Handle>
    ghost var states: seq<Scene>
    ghost var ranks: seq<map<Id, nat>>

    function Current(): Scene
      reads this
    {
      Scene(forest, nodes, widgets)
    }

    ghost predicate Valid()
      reads this
    {
      grid.x > 0 && grid.y > 0 && undoDepth > 0 &&
      History(states, ranks, edits, editsCursor, nextId) && |edits| <= undoDepth &&
      states[editsCursor] == Current()
    }

    /** A fresh editor: empty scene, empty history, the default settings. */
    constructor ()
      ensures Valid() && Current() == Scene([], map[], map[])
      ensures edits == [] && editsCursor == 0 && decors == []
      ensures undoDepth == 1024 * 1024 && grid == Point(10, 10)
    {
      forest, nodes, widgets := [], map[], map[];
      edits, editsCursor := [], 0;
      undoDepth := 1024 * 1024;
      grid := Point(10, 10);
      nextId := 0;
      decors := [];
      states := [Scene([], map[], map[])];
      ranks := [map[]];
    }

    /** `canUndo`. */
    predicate CanUndo()
      reads this
      ensures Valid() ==> (CanUndo() <==> editsCursor > 0)
    {
      editsCursor > 0 && editsCursor <= |edits|
    }

    /** `canRedo`. */
    predicate CanRedo()
      reads this
      ensures Valid() ==> (CanRedo() <==> editsCursor < |edits|)
    {
      editsCursor >= 0 && editsCursor < |edits|
    }

    /** Runs a command's redo on the scene and on its delegates. */
    method RunRedo(c: Command) returns (c': Command)
      requires Runnable(Current(), c)
      modifies this`forest, this`nodes, this`widgets, Delegates(c)
      ensures Current() == RedoOn(old(Current()), c).0
      ensures c' == if c.PropertyCmd? then c.(oldValue := old(Lookup(c.delegate.props, c.key))) else RedoOn(old(Current()), c).1
      ensures RedoneOnDelegates(c)
      ensures nextId == old(nextId) && decors == old(decors)
      ensures edits == old(edits) && editsCursor == old(editsCursor) && states == old(states) && ranks == old(ranks)
    {
      var (t, next) := RedoOn(Current(), c);
      forest, nodes, widgets := t.forest, t.nodes, t.widgets;
      c' := next;
      match c {
        case PropertyCmd(d, key, value, _) =>
          c' := c.(oldValue := Lookup(d.props, key));
          d.props := SetProp(d.props, key, Some(value));
        case ResizeCmd(d, _, next) =>
          d.style := next;
        case MoveItemsCmd(ms) =>
          assert (set x | x in MoveSubjects(ms)) == Delegates(c);
          ApplySnapshots(Ends(ms), MoveSubjects(ms));
        case _ =>
      }
    }

    /** Runs a command's undo on the scene and on its delegates. */
    method RunUndo(c: Command) returns (c': Command)
      requires Runnable(Current(), c)
      modifies this`forest, this`nodes, this`widgets, Delegates(c)
      ensures Current() == UndoOn(old(Current()), c).0
      ensures c' == UndoOn(old(Current()), c).1
      ensures UndoneOnDelegates(c)
      ensures nextId == old(nextId) && decors == old(decors)
      ensures edits == old(edits) && editsCursor == old(editsCursor) && states == old(states) && ranks == old(ranks)
    {
      var (s, prev) := UndoOn(Current(), c);
      forest, nodes, widgets := s.forest, s.nodes, s.widgets;
      c' := prev;
      match c {
        case PropertyCmd(d, key, _, oldValue) =>
          d.props := SetProp(d.props, key, oldValue);
        case ResizeCmd(d, prev, _) =>
          d.style := prev;
        case MoveItemsCmd(ms) =>
          assert (set x | x in MoveSubjects(ms)) == Delegates(c);
          ApplySnapshots(Starts(ms), MoveSubjects(ms));
        case _ =>
      }
    }

    /**
     * `edit(body)`: run the redo, drop the edits after the cursor, append
     * the edit, advance the cursor, then shift out the oldest edits while
     * more than `undoDepth` are kept.
     */
    method Edit(c: Command, ghost t: Scene, ghost rt: map<Id, nat>)
      requires Valid() && Undone(Current(), c, t) && WellFormed(t, rt) && Below(t, nextId)
      modifies this, Delegates(c)
      ensures Valid() && Current() == t
      ensures nextId == old(nextId) && decors == old(decors)
      ensures Runnable(old(Current()), c) &&
        var recorded := if c.PropertyCmd? then c.(oldValue := old(Lookup(c.delegate.props, c.key))) else RedoOn(old(Current()), c).1;
        edits == Evicted(old(edits[..editsCursor]) + [recorded], undoDepth)
      ensures editsCursor == |edits|
      ensures RedoneOnDelegates(c)
    {
      RecordedIsDone(Current(), c, t, if c.PropertyCmd? then Lookup(c.delegate.props, c.key) else None);
      var recorded := RunRedo(c);
      Push(recorded, t, rt);
    }

    /** Records an edit whose redo has just taken the scene to `t`, then evicts. */
    method Push(recorded: Command, ghost t: Scene, ghost rt: map<Id, nat>)
      requires History(states, ranks, edits, editsCursor, nextId) && grid.x > 0 && grid.y > 0 && undoDepth > 0
      requires Done(states[editsCursor], recorded, t) && WellFormed(t, rt) && Below(t, nextId) && Current() == t
      modifies this`edits, this`editsCursor, this`states, this`ranks
      ensures Valid() && Current() == t
      ensures edits == Evicted(old(edits[..editsCursor]) + [recorded], undoDepth) && editsCursor == |edits|
      ensures nextId == old(nextId) && decors == old(decors)
    {
      var cursor := editsCursor;
      HistoryRecord(states, ranks, edits, cursor, nextId, recorded, t, rt);
      Store(edits[..cursor] + [recorded], states[..cursor + 1] + [t], ranks[..cursor + 1] + [rt]);
    }

    /** Installs a new history whose cursor is at its end, then evicts. */
    method Store(es: seq<Command>, ghost st: seq<Scene>, ghost rs: seq<map<Id, nat>>)
      requires History(st, rs, es, |es|, nextId) && grid.x > 0 && grid.y > 0 && undoDepth > 0 && st[|es|] == Current()
      modifies this`edits, this`editsCursor, this`states, this`ranks
      ensures Valid() && Current() == old(Current())
      ensures edits == Evicted(es, undoDepth) && editsCursor == |edits|
      ensures nextId == old(nextId) && decors == old(decors)
    {
      edits, states, ranks, editsCursor := es, st, rs, |es|;
      Evict();
    }

    /** The eviction loop of `edit`: shift out the oldest edits while more than `undoDepth` are kept. */
    method Evict()
      requires History(states, ranks, edits, editsCursor, nextId) && editsCursor == |edits|
      requires grid.x > 0 && grid.y > 0 && undoDepth > 0 && states[editsCursor] == Current()
      modifies this`edits, this`editsCursor, this`states, this`ranks
      ensures Valid() && edits == Evicted(old(edits), undoDepth)
      ensures editsCursor == |edits|
      ensures nextId == old(nextId) && decors == old(decors) && Current() == old(Current())
    {
      ghost var full := edits;
      while |edits| > undoDepth
        invariant |edits| <= |full| && edits == full[|full| - |edits|..]
        invariant |full| > undoDepth ==> |edits| >= undoDepth
        invariant |full| <= undoDepth ==> edits == full
        invariant editsCursor == |edits| && History(states, ranks, edits, editsCursor, nextId)
        invariant states[editsCursor] == Current()
        decreases |edits|
      {
        HistoryShift(states, ranks, edits, editsCursor, nextId);
        assert states[1..][editsCursor - 1] == states[editsCursor];
        assert full[|full| - |edits|..][1..] == full[|full| - (|edits| - 1)..];
        edits, editsCursor, states, ranks := edits[1..], editsCursor - 1, states[1..], ranks[1..];
      }
    }

    /** `undo()`: step the cursor back and run that edit's undo. */
    method Undo()
      requires Valid()
      modifies this, if CanUndo() then Delegates(edits[editsCursor - 1]) else {}
      ensures Valid()
      ensures !old(CanUndo()) ==> unchanged(this)
      ensures old(CanUndo()) ==>
        editsCursor == old(editsCursor) - 1 && states == old(states) && ranks == old(ranks) &&
        Current() == states[editsCursor] &&
        old(Runnable(Current(), edits[editsCursor - 1])) &&
        edits == old(edits[editsCursor - 1 := UndoOn(Current(), edits[editsCursor - 1]).1]) &&
        UndoneOnDelegates(old(edits[editsCursor - 1]))
      ensures nextId == old(nextId) && decors == old(decors)
    {
      if CanUndo() {
        UndoStep();
      }
    }

    /** The enabled branch of `undo()`. */
    method UndoStep()
      requires Valid() && CanUndo()
      modifies this, Delegates(edits[editsCursor - 1])
      ensures Valid()
      ensures editsCursor == old(editsCursor) - 1 && states == old(states) && ranks == old(ranks)
      ensures Current() == states[editsCursor] && old(Runnable(Current(), edits[editsCursor - 1]))
      ensures edits == old(edits[editsCursor - 1 := UndoOn(Current(), edits[editsCursor - 1]).1])
      ensures UndoneOnDelegates(old(edits[editsCursor - 1]))
      ensures nextId == old(nextId) && decors == old(decors)
    {
      var cursor, es := editsCursor, edits;
      ghost var s0 := Current();
      UndoAtCursor(states, ranks, es, cursor, nextId);
      var c' := RunUndo(es[cursor - 1]);
      assert Current() == states[cursor - 1] && c' == UndoOn(s0, es[cursor - 1]).1;
      edits := es[cursor - 1 := c'];
      editsCursor := cursor - 1;
    }

    /** `redo()`: run the edit at the cursor and step the cursor forward. */
    method Redo()
      requires Valid()
      modifies this, if CanRedo() then Delegates(edits[editsCursor]) else {}
      ensures Valid()
      ensures !old(CanRedo()) ==> unchanged(this)
      ensures old(CanRedo()) ==>
        editsCursor == old(editsCursor) + 1 && states == old(states) && ranks == old(ranks) &&
        Current() == states[editsCursor] &&
        RedoneOnDelegates(old(edits[editsCursor])) &&
        old(Runnable(Current(), edits[editsCursor])) &&
        var c := old(edits[editsCursor]);
        edits == old(edits)[old(editsCursor) := if c.PropertyCmd? then c.(oldValue := old(Lookup(c.delegate.props, c.key)))
                                                else old(RedoOn(Current(), c).1)]
      ensures nextId == old(nextId) && decors == old(decors)
    {
      if CanRedo() {
        var cursor, es := editsCursor, edits;
        var c := es[cursor];
        ghost var v := if c.PropertyCmd? then Lookup(c.delegate.props, c.key) else None;
        ghost var s0 := Current();
        RedoAtCursor(states, ranks, es, cursor, nextId, v);
        var c' := RunRedo(c);
        assert Current() == states[cursor + 1] && c' == if c.PropertyCmd? then c.(oldValue := v) else RedoOn(s0, c).1;
        edits := es[cursor := c'];
        editsCursor := cursor + 1;
      }
    }

    /**
     * `move(w, dest, addAt)`: the checks of `Choose`, then one recorded
     * edit that detaches `w` from its holder and attaches it to `dest`
     * (None: the forest).
     */
    method Move(w: Id, dest: Option<Id>, addAt: int) returns (moved: bool)
      requires Valid() && Attached(Current(), w) && (dest.Some? ==> dest.value in nodes)
      requires 0 <= addAt <= |Holder(Current(), dest)|
      modifies this
      ensures Valid()
      ensures moved <==> old(Decide(Current(), w, dest, addAt)).Moves?
      ensures Current() == old(MoveScene(Current(), w, dest, addAt))
      ensures nextId == old(nextId) && decors == old(decors)
      ensures Records(old(edits), old(editsCursor), old(MoveRecord(Current(), w, dest, addAt)), edits, editsCursor, undoDepth)
    {
      var m := Choose(w, dest, addAt);
      moved := m.Moves?;
      if moved {
        assert StateOk(states, ranks, editsCursor, nextId);
        DecideFits(Current(), ranks[editsCursor], w, dest, addAt);
        Commit(w, m.source, m.removeAt, dest, m.addAt);
      }
    }

    /**
     * The checks of `move` in the source's order: kinds, into itself, into
     * a descendant, a full destination, the same position.
     */
    method Choose(w: Id, dest: Option<Id>, addAt: int) returns (m: MoveOutcome)
      requires Valid() && Attached(Current(), w) && (dest.Some? ==> dest.value in nodes)
      ensures m == Decide(Current(), w, dest, addAt)
    {
      if dest.Some? && !Accepts(nodes[dest.value].kind, nodes[w].kind) {
        return Incompatible;
      }
      if dest == Some(w) {
        return IntoItself;
      }
      if dest.Some? {
        assert StateOk(states, ranks, editsCursor, nextId);
        var below := IsParent(Current(), ranks[editsCursor], w, dest.value);
        if below {
          return IntoDescendant;
        }
      }
      var source := nodes[w].parent;
      if dest.Some? && Full(Current(), dest.value) && dest != source {
        return DestinationFull;
      }
      var removeAt := IndexOf(Holder(Current(), source), w);
      var at := if source == dest && addAt > removeAt then addAt - 1 else addAt;
      if source == dest && removeAt == at {
        return AlreadyThere;
      }
      return Moves(source, removeAt, at);
    }

    /** The recorded edit of a move that `move` decided to make. */
    method Commit(w: Id, source: Option<Id>, removeAt: int, dest: Option<Id>, at: int)
      requires Valid() && MoveFits(Current(), w, source, removeAt, dest, at)
      requires dest.Some? ==> !ProperAncestor(Current(), w, dest.value)
      modifies this
      ensures Valid() && Current() == old(MoveRedo(Current(), w, source, removeAt, dest, at))
      ensures nextId == old(nextId) && decors == old(decors)
      ensures edits == Evicted(old(edits[..editsCursor]) + [MoveCmd(w, source, removeAt, dest, at)], undoDepth)
      ensures editsCursor == |edits|
    {
      ghost var s := Current();
      ghost var r := ranks[editsCursor];
      assert StateOk(states, ranks, editsCursor, nextId);
      MoveRecorded(s, r, w, source, removeAt, dest, at, nextId);
      Edit(MoveCmd(w, source, removeAt, dest, at), MoveRedo(s, w, source, removeAt, dest, at), Rerank(s, r, w, dest));
    }

    /**
     * The `forEach(m => move(m, dest, addAt))` of the explorer's drop
     * handlers: `items` moved one after another, each at `addAt`, or at the
     * end of `dest` when `addAt` is None. Every node ends under its old
     * parent or, when it is one of `items`, under `dest`.
     */
    method MoveEach(items: seq<Id>, dest: Option<Id>, addAt: Option<int>)
      requires Valid() && (forall i :: 0 <= i < |items| ==> Attached(Current(), items[i]))
      requires dest.Some? ==> dest.value in nodes
      requires addAt.Some? ==> 0 <= addAt.value <= |Holder(Current(), dest)|
      modifies this
      ensures Valid() && Current() == old(Dropped(Current(), items, dest, addAt))
      ensures forall x :: x in old(nodes) ==>
        nodes[x].parent == old(nodes[x].parent) || (x in items && nodes[x].parent == dest)
      ensures forall x :: old(Attached(Current(), x)) ==> Attached(Current(), x)
      ensures Records(old(edits), old(editsCursor), old(DropEdits(Current(), items, dest, addAt)), edits, editsCursor, undoDepth)
      ensures nextId == old(nextId) && decors == old(decors)
    {
      ghost var s0 := Current();
      ghost var e0, c0 := edits, editsCursor;
      var i := 0;
      while i < |items|
        invariant 0 <= i <= |items| && 0 <= c0 <= |e0|
        invariant Valid() && nextId == old(nextId) && decors == old(decors)
        invariant Dropping(s0, e0, c0, items, i, dest, addAt)
      {
        DropNext(s0, e0, c0, items, i, dest, addAt);
        i := i + 1;
      }
      DroppedAll(s0, items, dest, addAt);
      assert Dropping(s0, e0, c0, items, |items|, dest, addAt);
    }

    /**
     * Where a run of drops from `s0` stands after its first `i` moves: the
     * scene they make, what they keep, the edits they record onto the
     * history `e0` at `c0`.
     */
    ghost predicate Dropping(s0: Scene, e0: seq<Command>, c0: int, items: seq<Id>, i: int, dest: Option<Id>, addAt: Option<int>)
      reads this
      requires 0 <= i <= |items| && 0 <= c0 <= |e0|
    {
      Current() == Dropped(s0, items[..i], dest, addAt) &&
      DropKeeps(s0, Current(), items[..i], dest) &&
      Records(e0, c0, DropEdits(s0, items[..i], dest, addAt), edits, editsCursor, undoDepth) &&
      (addAt.Some? ==> addAt.value <= |Holder(Current(), dest)|)
    }

    /** One turn of the drop loop: `move(items[i], dest, addAt)`. */
    method DropNext(ghost s0: Scene, ghost e0: seq<Command>, ghost c0: int,
                    items: seq<Id>, i: int, dest: Option<Id>, addAt: Option<int>)
      requires 0 <= i < |items| && Attached(s0, items[i]) && (dest.Some? ==> dest.value in s0.nodes)
      requires addAt.Some? ==> 0 <= addAt.value
      requires Valid() && 0 <= c0 <= |e0| && Dropping(s0, e0, c0, items, i, dest, addAt)
      modifies this
      ensures Valid() && nextId == old(nextId) && decors == old(decors)
      ensures Dropping(s0, e0, c0, items, i + 1, dest, addAt)
    {
      assert StateOk(states, ranks, editsCursor, nextId);
      DropStep(s0, ranks[editsCursor], items, i, dest, addAt);
      DroppedLast(s0, items, i, dest, addAt);
      var at := if addAt.Some? then addAt.value else |Holder(Current(), dest)|;
      ghost var e1, c1, u := edits, editsCursor, Current();
      var _ := Move(items[i], dest, at);
      RecordsChain(e0, c0, DropEdits(s0, items[..i], dest, addAt), e1, c1,
                   MoveRecord(u, items[i], dest, at), edits, editsCursor, undoDepth);
    }

    /** `onDropInto(w, dest)`: the dragged nodes, each moved to the end of `dest`. */
    method DropInto(w: Id, dest: Id, selected: seq<Id>)
      requires Valid() && Attached(Current(), w) && dest in nodes
      requires forall x :: x in selected ==> Attached(Current(), x)
      modifies this
      ensures Valid() && Current() == old(Dropped(Current(), Dragged(w, selected), Some(dest), None))
      ensures forall x :: x in old(nodes) ==>
        nodes[x].parent == old(nodes[x].parent) || (x in Dragged(w, selected) && nodes[x].parent == Some(dest))
      ensures Records(old(edits), old(editsCursor), old(DropEdits(Current(), Dragged(w, selected), Some(dest), None)),
                      edits, editsCursor, undoDepth)
      ensures nextId == old(nextId) && decors == old(decors)
    {
      MoveEach(Dragged(w, selected), Some(dest), None);
    }

    /**
     * `onDropBefore(w, before)`: the dragged nodes, in reverse order, each
     * moved into the holder of `before` at the index `before` had.
     */
    method DropBefore(w: Id, before: Id, selected: seq<Id>)
      requires Valid() && Attached(Current(), w) && Attached(Current(), before)
      requires forall x :: x in selected ==> Attached(Current(), x)
      modifies this
      ensures var dest := old(nodes[before].parent);
        Valid() &&
        Current() == old(Dropped(Current(), Reverse(Dragged(w, selected)), dest,
                                 Some(IndexOf(Holder(Current(), dest), before))))
      ensures forall x :: x in old(nodes) ==>
        nodes[x].parent == old(nodes[x].parent) || (x in Dragged(w, selected) && nodes[x].parent == old(nodes[before].parent))
      ensures var dest := old(nodes[before].parent);
        Records(old(edits), old(editsCursor),
                old(DropEdits(Current(), Reverse(Dragged(w, selected)), dest, Some(IndexOf(Holder(Current(), dest), before)))),
                edits, editsCursor, undoDepth)
      ensures nextId == old(nextId) && decors == old(decors)
    {
      var dest := nodes[before].parent;
      var addAt := IndexOf(Holder(Current(), dest), before);
      var items := Reverse(Dragged(w, selected));
      assert forall x :: x in items ==> x in Dragged(w, selected);
      MoveEach(items, dest, Some(addAt));
    }

    /** The index just past `after` in its holder. */
    static function PastIndex(s: Scene, after: Id): (r: int)
      requires Attached(s, after)
      ensures 1 <= r <= |Holder(s, s.nodes[after].parent)| && Holder(s, s.nodes[after].parent)[r - 1] == after
    {
      IndexOf(Holder(s, s.nodes[after].parent), after) + 1
    }

    /**
     * `onDropAfter(w, after)`: the dragged nodes, in reverse order, each
     * moved into the holder of `after` just past the index `after` had.
     */
    method DropAfter(w: Id, after: Id, selected: seq<Id>)
      requires Valid() && Attached(Current(), w) && Attached(Current(), after)
      requires forall x :: x in selected ==> Attached(Current(), x)
      modifies this
      ensures Valid() &&
        Current() == old(Dropped(Current(), Reverse(Dragged(w, selected)), nodes[after].parent,
                                 Some(PastIndex(Current(), after))))
      ensures forall x :: x in old(nodes) ==>
        nodes[x].parent == old(nodes[x].parent) || (x in Dragged(w, selected) && nodes[x].parent == old(nodes[after].parent))
      ensures Records(old(edits), old(editsCursor),
                      old(DropEdits(Current(), Reverse(Dragged(w, selected)), nodes[after].parent, Some(PastIndex(Current(), after)))),
                      edits, editsCursor, undoDepth)
      ensures nextId == old(nextId) && decors == old(decors)
    {
      var items := Reverse(Dragged(w, selected));
      assert forall x :: x in items ==> x in Dragged(w, selected);
      MoveEach(items, nodes[after].parent, Some(PastIndex(Current(), after)));
    }

    /** `move(w, dest, dest.count)`: what the move into the end of `dest` keeps. */
    method MoveToEnd(w: Id, dest: Id)
      requires Valid() && Attached(Current(), w) && dest in nodes
      modifies this
      ensures Valid() && Attached(Current(), w)
      ensures Current() == old(MoveScene(Current(), w, Some(dest), |Holder(Current(), Some(dest))|))
      ensures nodes[w].parent == Some(dest) || nodes[w].parent == old(nodes[w].parent)
      ensures nodes.Keys == old(nodes.Keys) && widgets == old(widgets)
      ensures forall id :: id in old(nodes) ==> SameRecord(nodes[id], old(nodes[id]))
      ensures forall id :: id in old(nodes) && id != w ==> nodes[id].parent == old(nodes[id].parent)
      ensures Records(old(edits), old(editsCursor), old(MoveRecord(Current(), w, Some(dest), |Holder(Current(), Some(dest))|)),
                      edits, editsCursor, undoDepth)
      ensures nextId == old(nextId) && decors == old(decors)
    {
      assert StateOk(states, ranks, editsCursor, nextId);
      var at := |Holder(Current(), Some(dest))|;
      MoveSceneEffect(Current(), ranks[editsCursor], w, Some(dest), at);
      MoveSceneKeepsRecords(Current(), ranks[editsCursor], w, Some(dest), at);
      var _ := Move(w, Some(dest), at);
    }

    /**
     * The end of `addWidget`: with a target, `move(w, target, target.count)`,
     * and a container moved there is sized 100 by 100.
     */
    method Place(w: Id, target: Option<Id>)
      requires Valid() && Attached(Current(), w) && (target.Some? ==> target.value in nodes)
      modifies this, nodes[w].delegate
      ensures Valid() && Attached(Current(), w)
      ensures Current() == if target.Some? then old(MoveScene(Current(), w, target, |Holder(Current(), target)|)) else old(Current())
      ensures nodes[w].parent == old(nodes[w].parent) || nodes[w].parent == target
      ensures target.None? ==> nodes[w].parent == old(nodes[w].parent)
      ensures nodes.Keys == old(nodes.Keys) && widgets == old(widgets)
      ensures forall id :: id in old(nodes) ==> SameRecord(nodes[id], old(nodes[id]))
      ensures forall id :: id in old(nodes) && id != w ==> nodes[id].parent == old(nodes[id].parent)
      ensures Records(old(edits), old(editsCursor),
                      if target.Some? then old(MoveRecord(Current(), w, target, |Holder(Current(), target)|)) else [],
                      edits, editsCursor, undoDepth)
      ensures nextId == old(nextId) && decors == old(decors)
      ensures var d := old(nodes[w].delegate);
        d.props == old(d.props) &&
        if target.Some? && nodes[w].kind.ContainerKind? then
          d.Bounds() == old(d.Bounds()).(width := 100, height := 100) &&
          d.style == Restyled(d.restyle, old(d.style), Squared(old(d.Bounds()), 100))
        else d.Bounds() == old(d.Bounds()) && d.style == old(d.style)
    {
      if target.Some? {
        var d := nodes[w].delegate;
        MoveToEnd(w, target.value);
        if nodes[w].kind.ContainerKind? {
          var b0 := d.Bounds();
          ghost var s0 := d.style;
          ghost var written := d.Write(b0.(height := 100), s0, []);
          written := d.Write(b0.(height := 100, width := 100), s0, written);
          assert written == Squared(b0, 100);
        }
      }
    }

    /**
     * The edit `addWidget` records: under the next id, `record` is pushed
     * onto the forest and registered under `name`.
     */
    method RecordAdd(name: string, record: Node) returns (created: Id)
      requires Valid() && name !in widgets
      requires record.name == name && record.parent == None && record.children == []
      modifies this
      ensures Valid()
      ensures created == old(nextId) && nextId == old(nextId) + 1 && created !in old(nodes)
      ensures Current() == AddRedo(old(Current()), created, name, record) && Attached(Current(), created)
      ensures edits == Evicted(old(edits[..editsCursor]) + [AddCmd(created, name, record)], undoDepth)
      ensures editsCursor == |edits| && decors == old(decors)
    {
      ghost var s := Current();
      created := nextId;
      assert StateOk(states, ranks, editsCursor, nextId);
      AddRecorded(s, ranks[editsCursor], created, name, record);
      HistoryGrow(states, ranks, edits, editsCursor, nextId, nextId + 1);
      nextId := nextId + 1;
      Edit(AddCmd(created, name, record), AddRedo(s, created, name, record), ranks[editsCursor][created := 0]);
    }

    /**
     * The part of `addWidget` before the move: the first free name, a
     * fresh node and delegate, the recorded add, and the 300 by 300 size
     * of a container that becomes the visual root.
     */
    method Create(constructorName: string, kind: Kind, capacity: Option<nat>, visualRootPresent: bool,
                  restyle: (Anchors, Box) -> Anchors)
      returns (created: Id, ghost attempt: nat)
      requires Valid()
      modifies this
      ensures Valid()
      ensures created == old(nextId) && nextId == old(nextId) + 1 && created !in old(nodes)
      ensures created in nodes && Attached(Current(), created) && nodes[created].parent == None
      ensures nodes[created].kind == kind && nodes[created].capacity == capacity
      ensures fresh(nodes[created].delegate)
      ensures nodes[created].name !in old(widgets) && widgets == old(widgets)[nodes[created].name := created]
      ensures nodes[created].name == Candidate(LowerFirst(constructorName), attempt)
      ensures forall j :: 0 <= j < attempt ==> Candidate(LowerFirst(constructorName), j) in old(widgets)
      ensures forall id :: id in old(nodes) ==> id in nodes && nodes[id] == old(nodes[id])
      ensures var n := nodes[created];
        Current() == AddRedo(old(Current()), created, n.name, Node(n.name, kind, capacity, None, [], n.delegate)) &&
        Records(old(edits), old(editsCursor), [AddCmd(created, n.name, Node(n.name, kind, capacity, None, [], n.delegate))],
                edits, editsCursor, undoDepth)
      ensures var d := nodes[created].delegate;
        d.props == map[] && d.restyle == restyle &&
        d.Bounds() == Box(0, 0, AddSide(kind, visualRootPresent, false), AddSide(kind, visualRootPresent, false)) &&
        d.style == Restyled(restyle, Unanchored, AddSizing(kind, visualRootPresent, false))
      ensures decors == old(decors)
    {
      var name;
      name, attempt := FreeName(widgets, LowerFirst(constructorName));
      var d := new Delegate(restyle);
      created := RecordAdd(name, Node(name, kind, capacity, None, [], d));
      SizeAdded(d, kind, visualRootPresent);
    }

    /**
     * `addWidget(item)`: a fresh node under the first free name derived
     * from the widget's constructor name, recorded as one edit that pushes
     * it onto the forest; a container becomes the visual root (300 by 300)
     * when there is none; then it is moved into the last selected
     * container, or into the last selected node's container, and a
     * container is sized 100 by 100 there, whether or not the move passed.
     */
    method AddWidget(constructorName: string, kind: Kind, capacity: Option<nat>,
                     wasSelected: Option<Id>, visualRootPresent: bool,
                     restyle: (Anchors, Box) -> Anchors) returns (created: Id)
      requires Valid() && (wasSelected.Some? ==> wasSelected.value in nodes)
      modifies this
      ensures Valid()
      ensures created == old(nextId) && nextId == old(nextId) + 1 && created !in old(nodes)
      ensures created in nodes && Attached(Current(), created)
      ensures nodes[created].kind == kind && nodes[created].capacity == capacity
      ensures fresh(nodes[created].delegate)
      ensures nodes[created].name !in old(widgets) && widgets == old(widgets)[nodes[created].name := created]
      ensures exists k: nat ::
        nodes[created].name == Candidate(LowerFirst(constructorName), k) &&
        forall j :: 0 <= j < k ==> Candidate(LowerFirst(constructorName), j) in old(widgets)
      ensures nodes[created].parent == None || nodes[created].parent == AddTarget(old(Current()), wasSelected)
      ensures AddTarget(old(Current()), wasSelected).None? ==> nodes[created].parent == None
      ensures forall id :: id in old(nodes) ==> id in nodes && nodes[id].parent == old(nodes[id].parent)
      ensures var n := nodes[created];
        var added := AddRedo(old(Current()), created, n.name, Node(n.name, kind, capacity, None, [], n.delegate));
        var target := AddTarget(old(Current()), wasSelected);
        Records(old(edits), old(editsCursor),
                [AddCmd(created, n.name, Node(n.name, kind, capacity, None, [], n.delegate))] +
                  if target.Some? then MoveRecord(added, created, target, |Holder(added, target)|) else [],
                edits, editsCursor, undoDepth) &&
        Current() == if target.Some? then MoveScene(added, created, target, |Holder(added, target)|) else added
      ensures var d := nodes[created].delegate;
        var placed := AddTarget(old(Current()), wasSelected).Some?;
        d.props == map[] && d.restyle == restyle &&
        d.Bounds() == Box(0, 0, AddSide(kind, visualRootPresent, placed), AddSide(kind, visualRootPresent, placed)) &&
        d.style == Restyled(restyle, Unanchored, AddSizing(kind, visualRootPresent, placed))
      ensures decors == old(decors)
    {
      var target := AddTarget(Current(), wasSelected);
      ghost var e0, c0 := edits, editsCursor;
      ghost var attempt;
      created, attempt := Create(constructorName, kind, capacity, visualRootPresent, restyle);
      ghost var n := nodes[created];
      PlaceAdded(created, target, visualRootPresent, e0, c0, [AddCmd(created, n.name, Node(n.name, kind, capacity, None, [], n.delegate))]);
    }

    /**
     * The second half of `addWidget`: the freshly added widget placed into
     * `target`, its move recorded after the addition `add`, a container
     * sized on from its first sizing.
     */
    method PlaceAdded(created: Id, target: Option<Id>, visualRootPresent: bool,
                      ghost e0: seq<Command>, ghost c0: int, ghost add: seq<Command>)
      requires Valid() && Attached(Current(), created) && (target.Some? ==> target.value in nodes)
      requires 0 <= c0 <= |e0| && add != [] && Records(e0, c0, add, edits, editsCursor, undoDepth)
      requires var d := nodes[created].delegate; var kind := nodes[created].kind;
        d.Bounds() == Box(0, 0, AddSide(kind, visualRootPresent, false), AddSide(kind, visualRootPresent, false)) &&
        d.style == Restyled(d.restyle, Unanchored, AddSizing(kind, visualRootPresent, false))
      modifies this, nodes[created].delegate
      ensures Valid() && Attached(Current(), created)
      ensures Current() == if target.Some? then old(MoveScene(Current(), created, target, |Holder(Current(), target)|)) else old(Current())
      ensures nodes[created].parent == old(nodes[created].parent) || nodes[created].parent == target
      ensures target.None? ==> nodes[created].parent == old(nodes[created].parent)
      ensures nodes.Keys == old(nodes.Keys) && widgets == old(widgets)
      ensures forall id :: id in old(nodes) ==> SameRecord(nodes[id], old(nodes[id]))
      ensures forall id :: id in old(nodes) && id != created ==> nodes[id].parent == old(nodes[id].parent)
      ensures Records(e0, c0, add + if target.Some? then old(MoveRecord(Current(), created, target, |Holder(Current(), target)|)) else [],
                      edits, editsCursor, undoDepth)
      ensures nextId == old(nextId) && decors == old(decors)
      ensures var d := old(nodes[created].delegate); var kind := old(nodes[created].kind);
        d.props == old(d.props) &&
        d.Bounds() == Box(0, 0, AddSide(kind, visualRootPresent, target.Some?), AddSide(kind, visualRootPresent, target.Some?)) &&
        d.style == Restyled(d.restyle, Unanchored, AddSizing(kind, visualRootPresent, target.Some?))
    {
      ghost var e1, c1, added := edits, editsCursor, Current();
      ghost var d := nodes[created].delegate;
      ghost var kind := nodes[created].kind;
      ghost var b1 := d.Bounds();
      Place(created, target);
      RecordsChain(e0, c0, add, e1, c1,
                   if target.Some? then MoveRecord(added, created, target, |Holder(added, target)|) else [],
                   edits, editsCursor, undoDepth);
      if target.Some? && kind.ContainerKind? {
        assert AddSizing(kind, visualRootPresent, true) == AddSizing(kind, visualRootPresent, false) + Squared(b1, 100);
        RestyledConcat(d.restyle, Unanchored, AddSizing(kind, visualRootPresent, false), Squared(b1, 100));
      }
    }

    /**
     * The rename callback: a name already in use, or one that is not an
     * identifier, is refused and the current name returned; otherwise one
     * recorded edit moves the node's index entry to the new name.
     */
    method Rename(node: Id, newName: string) returns (result: string)
      requires Valid() && Attached(Current(), node)
      modifies this
      ensures Valid()
      ensures result == if newName in old(widgets) || !IsIdentifier(newName) then old(nodes[node].name) else newName
      ensures newName in old(widgets) || !IsIdentifier(newName) ==>
        Current() == old(Current()) && edits == old(edits) && editsCursor == old(editsCursor)
      ensures newName !in old(widgets) && IsIdentifier(newName) ==>
        Current() == old(RenameRedo(Current(), node, nodes[node].name, newName)) &&
        widgets[newName] == node && old(nodes[node].name) !in widgets &&
        edits == Evicted(old(edits[..editsCursor]) + [RenameCmd(node, old(nodes[node].name), newName)], undoDepth) &&
        editsCursor == |edits|
      ensures nextId == old(nextId) && decors == old(decors)
    {
      if newName in widgets {
        return nodes[node].name;
      }
      if !IsIdentifier(newName) {
        return nodes[node].name;
      }
      var oldName := nodes[node].name;
      assert StateOk(states, ranks, editsCursor, nextId);
      RenameKeepsWellFormed(Current(), ranks[editsCursor], node, oldName, newName);
      Edit(RenameCmd(node, oldName, newName), RenameRedo(Current(), node, oldName, newName), ranks[editsCursor]);
      result := newName;
    }

    /**
     * `removeSelected()`: one recorded edit that takes every selected node
     * out of its holder and out of the name index. An empty selection is
     * left alone.
     */
    method RemoveSelected(selected: seq<Id>)
      requires Valid() && (forall i :: 0 <= i < |selected| ==> Attached(Current(), selected[i]))
      requires forall i, j :: 0 <= i < j < |selected| ==> selected[i] != selected[j]
      modifies this
      ensures Valid()
      ensures |selected| == 0 ==> Current() == old(Current()) && edits == old(edits) && editsCursor == old(editsCursor)
      ensures |selected| > 0 ==>
        Current() == old(RemovedScene(Current(), set x | x in selected)) &&
        old(AllIn(Current(), RemoveActions(Current(), selected))) &&
        edits == Evicted(old(edits[..editsCursor]) +
                         [RemoveCmd(old(RedoChain(Current(), RemoveActions(Current(), selected)).1))], undoDepth) &&
        editsCursor == |edits|
      ensures forall x :: x in selected ==> !Attached(Current(), x) && old(nodes[x].name) !in widgets
      ensures forall x :: x in old(nodes) && x !in selected && old(Attached(Current(), x)) ==>
        Attached(Current(), x) && nodes[x].parent == old(nodes[x].parent)
      ensures nextId == old(nextId) && decors == old(decors)
    {
      if |selected| == 0 {
        return;
      }
      ghost var s := Current();
      assert StateOk(states, ranks, editsCursor, nextId);
      RemoveRecorded(s, ranks[editsCursor], nextId, selected);
      var acts := RemoveActions(Current(), selected);
      Edit(RemoveCmd(acts), RemovedScene(s, set y | y in selected), ranks[editsCursor]);
    }

    /** A property sheet edit: `delegate[key] = newValue`, recorded with the value it replaces. */
    method SetProperty(node: Id, key: string, value: string)
      requires Valid() && node in nodes
      modifies this, nodes[node].delegate
      ensures Valid() && Current() == old(Current())
      ensures var d := nodes[node].delegate;
        d.props == SetProp(old(d.props), key, Some(value)) &&
        d.style == old(d.style) && d.Bounds() == old(d.Bounds()) &&
        edits == Evicted(old(edits[..editsCursor]) + [PropertyCmd(d, key, value, old(Lookup(d.props, key)))], undoDepth) &&
        editsCursor == |edits|
      ensures nextId == old(nextId) && decors == old(decors)
    {
      var d := nodes[node].delegate;
      assert StateOk(states, ranks, editsCursor, nextId);
      Edit(PropertyCmd(d, key, value, None), Current(), ranks[editsCursor]);
    }

    /**
     * The end of a resize gesture: unless the pointer came back where it
     * was pressed, one edit recording the anchors at pointer-down and the
     * current ones; recording it leaves the delegate as it is.
     */
    method EndResize(node: Id, prevState: Snapshot, diff: Point)
      requires Valid() && node in nodes
      modifies this, nodes[node].delegate
      ensures Valid() && Current() == old(Current())
      ensures var d := nodes[node].delegate;
        d.style == old(d.style) && d.props == old(d.props) && d.Bounds() == old(d.Bounds())
      ensures diff == Point(0, 0) ==> edits == old(edits) && editsCursor == old(editsCursor)
      ensures diff != Point(0, 0) ==> var d := nodes[node].delegate;
        edits == Evicted(old(edits[..editsCursor]) + [ResizeCmd(d, prevState.anchors, old(d.style))], undoDepth) &&
        editsCursor == |edits|
      ensures nextId == old(nextId) && decors == old(decors)
    {
      if diff.x != 0 || diff.y != 0 {
        var d := nodes[node].delegate;
        var newState := d.style;
        assert StateOk(states, ranks, editsCursor, nextId);
        Edit(ResizeCmd(d, prevState.anchors, newState), Current(), ranks[editsCursor]);
      }
    }

    /** The end snapshots `endItemsMove` takes, one per item in order. */
    method EndSnapshots(items: seq<Moving>) returns (ms: seq<MovedItem>)
      ensures ms == Ended(items)
    {
      ms := [];
      for i := 0 to |items|
        invariant |ms| == i
        invariant forall k :: 0 <= k < i ==>
          ms[k] == MovedItem(items[k].item.delegate, items[k].start, SizeLocationSnapshot(items[k].item.delegate))
      {
        ms := ms + [MovedItem(items[i].item.delegate, items[i].start, SizeLocationSnapshot(items[i].item.delegate))];
      }
    }

    /**
     * `endItemsMove(model, items)`: when any item took part, each gets its
     * end snapshot and one edit records them; recording it leaves the
     * delegates' anchors as they are.
     */
    method EndItemsMove(items: seq<Moving>)
      requires Valid()
      modifies this, set m | m in items :: m.item.delegate
      ensures Valid() && Current() == old(Current())
      ensures |items| == 0 ==> edits == old(edits) && editsCursor == old(editsCursor)
      ensures |items| > 0 ==>
        edits == Evicted(old(edits[..editsCursor]) + [MoveItemsCmd(old(Ended(items)))], undoDepth) && editsCursor == |edits|
      ensures forall m :: m in items ==>
        m.item.delegate.style == old(m.item.delegate.style) && m.item.delegate.Bounds() == old(m.item.delegate.Bounds()) &&
        m.item.delegate.props == old(m.item.delegate.props)
      ensures nextId == old(nextId) && decors == old(decors)
    {
      if |items| > 0 {
        var ms := EndSnapshots(items);
        DelegatesOfEnded(items, ms);
        assert StateOk(states, ranks, editsCursor, nextId);
        Edit(MoveItemsCmd(ms), Current(), ranks[editsCursor]);
        SameEndsApplied(ms);
      }
    }

    /**
     * A released resize, then `undo()`, then `redo()`: the undo puts back
     * the anchors the delegate had at pointer-down, the redo the anchors
     * it had at release.
     */
    method ResizeRoundTrip(node: Id, prevState: Snapshot, diff: Point)
      returns (released: Anchors, undone: Anchors, redone: Anchors)
      requires Valid() && node in nodes && diff != Point(0, 0)
      modifies this, nodes[node].delegate
      ensures Valid()
      ensures released == old(nodes[node].delegate.style)
      ensures undone == prevState.anchors && redone == released
      ensures var d := old(nodes[node].delegate);
        d.style == released && d.Bounds() == old(d.Bounds()) && d.props == old(d.props)
      ensures editsCursor == |edits| && |edits| > 0 &&
        edits[|edits| - 1] == ResizeCmd(old(nodes[node].delegate), prevState.anchors, released)
    {
      var d := nodes[node].delegate;
      released := d.style;
      EndResize(node, prevState, diff);
      ghost var c := ResizeCmd(d, prevState.anchors, released);
      EvictedKeepsLast(old(edits[..editsCursor]), c, undoDepth);
      assert edits[editsCursor - 1] == c && Delegates(c) == {d};
      Undo();
      undone := d.style;
      assert edits[editsCursor] == c;
      Redo();
      redone := d.style;
    }

    /**
     * A released move of items, then `undo()`, then `redo()`: the undo
     * puts back the anchors of each delegate's last start snapshot, the
     * redo the anchors every delegate had at release.
     */
    method ItemsMoveRoundTrip(items: seq<Moving>)
      returns (released: seq<Placement>, undone: seq<Placement>, redone: seq<Placement>)
      requires Valid() && |items| > 0
      modifies this, set m | m in items :: m.item.delegate
      ensures Valid()
      ensures released == old(Placements(Subjects(items)))
      ensures |undone| == |items| &&
        forall k :: 0 <= k < |items| && LastIn(Subjects(items), k) ==>
          undone[k] == Placement(released[k].box, items[k].start.anchors)
      ensures redone == released && Placements(Subjects(items)) == released
      ensures editsCursor == |edits| && |edits| > 0 && edits[|edits| - 1] == MoveItemsCmd(old(Ended(items)))
    {
      ghost var ms := Ended(items);
      released, undone := UndoItemsMove(items);
      redone := RedoItemsMove(items, ms, released);
    }

    /** The second half of `ItemsMoveRoundTrip`: the undone move redone. */
    method RedoItemsMove(items: seq<Moving>, ghost ms: seq<MovedItem>, released: seq<Placement>) returns (redone: seq<Placement>)
      requires Valid() && |released| == |items| && Coherent(released, items) && MoveSubjects(ms) == Subjects(items)
      requires 0 <= editsCursor < |edits| && editsCursor + 1 == |edits| && edits[editsCursor] == MoveItemsCmd(ms)
      requires forall k :: 0 <= k < |items| ==> ms[k].end.anchors == released[k].style
      requires forall k :: 0 <= k < |items| ==> items[k].item.delegate.Bounds() == released[k].box
      modifies this, set m | m in items :: m.item.delegate
      ensures Valid() && redone == released && Placements(Subjects(items)) == released
      ensures editsCursor == |edits| && |edits| > 0 && edits[|edits| - 1] == MoveItemsCmd(ms)
    {
      var subjects := Subjects(items);
      DelegatesOfEnded(items, ms);
      Redo();
      assert AnchorsApplied(ms, Ends(ms));
      redone := Placements(subjects);
      forall k | 0 <= k < |items|
        ensures redone[k].box == released[k].box
        ensures LastIn(subjects, k) ==> redone[k].style == released[k].style
      {
        assert ms[k].delegate == subjects[k];
      }
      LastDecides(subjects, redone, released);
    }

    /** The first half of `ItemsMoveRoundTrip`: the released move recorded, then undone. */
    method UndoItemsMove(items: seq<Moving>) returns (released: seq<Placement>, undone: seq<Placement>)
      requires Valid() && |items| > 0
      modifies this, set m | m in items :: m.item.delegate
      ensures Valid()
      ensures released == old(Placements(Subjects(items))) && undone == Placements(Subjects(items)) && Coherent(released, items)
      ensures forall k :: 0 <= k < |items| && LastIn(Subjects(items), k) ==>
        undone[k] == Placement(released[k].box, items[k].start.anchors)
      ensures forall k :: 0 <= k < |items| ==> undone[k].box == released[k].box && items[k].item.delegate.Bounds() == released[k].box
      ensures 0 <= editsCursor < |edits| && edits[editsCursor] == MoveItemsCmd(old(Ended(items))) &&
        editsCursor + 1 == |edits| && MoveSubjects(old(Ended(items))) == Subjects(items)
      ensures forall k :: 0 <= k < |items| ==> old(Ended(items))[k].end.anchors == released[k].style
    {
      var subjects := Subjects(items);
      released := Placements(subjects);
      PlacementsCoherent(items);
      ghost var ms := Ended(items);
      EndItemsMove(items);
      ghost var c := MoveItemsCmd(ms);
      EvictedKeepsLast(old(edits[..editsCursor]), c, undoDepth);
      DelegatesOfEnded(items, ms);
      assert MoveSubjects(ms) == subjects;
      assert edits[editsCursor - 1] == c;
      Undo();
      undone := Placements(subjects);
    }

    /**
     * `decorate()`: with exactly one node selected, the handles for the
     * selected node's delegate and its parent's layout. `attached` is what
     * the toolkit reports for that delegate: whether it is on the page.
     */
    method Decorate(lastSelected: Option<Id>, selectedCount: nat, attached: bool)
      requires Valid() && (lastSelected.Some? ==> lastSelected.value in nodes)
      modifies this`decors
      ensures Valid() && Current() == old(Current())
      ensures lastSelected.Some? && selectedCount == 1 ==>
        decors == HandleSetAsWritten(attached, ParentPane(Current(), lastSelected.value))
      ensures !(lastSelected.Some? && selectedCount == 1) ==> decors == old(decors)
    {
      if lastSelected.Some? && selectedCount == 1 {
        var subject := lastSelected.value;
        decors := HandleSetAsWritten(attached, ParentPane(Current(), subject));
      }
    }

    /** `clear()`: empty history, empty forest, empty name index. */
    method Clear()
      requires Valid()
      modifies this
      ensures Valid() && Current() == Scene([], map[], map[]) && edits == [] && editsCursor == 0
      ensures nextId == old(nextId) && decors == old(decors)
    {
      editsCursor := 0;
      edits := [];
      widgets := map[];
      forest := [];
      nodes := map[];
      states := [Current()];
      ranks := [map[]];
      assert StateOk(states, ranks, 0, nextId);
    }
  }
}
