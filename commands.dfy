/**
 * The edits the editor records: each is a command with a redo and an
 * undo. The scene-tree commands are modelled by what they do to a Scene;
 * the commands that only touch a toolkit delegate's fields (a property,
 * a resize, a multi-item move) leave the scene as it is and are run on
 * the delegates by the editor's methods.
 */
module Commands {
  import opened Wrappers
  import opened JsArray
  import opened SceneTree
  import opened Removal
  import Geometry

  /** One item of a multi-item move: its delegate and its snapshots before and after. */
  datatype MovedItem = MovedItem(delegate: Geometry.Delegate, start: Geometry.Snapshot, end: Geometry.Snapshot)

  datatype Command =
    | MoveCmd(w: Id, source: Option<Id>, removeAt: int, dest: Option<Id>, addAt: int)
    | AddCmd(created: Id, name: string, record: Node)
    | RenameCmd(node: Id, oldName: string, newName: string)
    | RemoveCmd(actions: seq<RemoveAction>)
    | PropertyCmd(delegate: Geometry.Delegate, key: string, newValue: string, oldValue: Option<string>)
    | ResizeCmd(delegate: Geometry.Delegate, prevAnchors: Geometry.Anchors, newAnchors: Geometry.Anchors)
    | MoveItemsCmd(moves: seq<MovedItem>)

  /** The commands that do not change the scene tree. */
  predicate OnDelegates(c: Command) {
    c.PropertyCmd? || c.ResizeCmd? || c.MoveItemsCmd?
  }

  /** The delegates a command's redo and undo write. */
  function Delegates(c: Command): set<Geometry.Delegate> {
    match c
    case PropertyCmd(d, _, _, _) => {d}
    case ResizeCmd(d, _, _) => {d}
    case MoveItemsCmd(ms) => set m | m in ms :: m.delegate
    case _ => {}
  }

  // ---------------------------------------------------------------------
  // Adding a widget: push it on the forest and register its name.

  function AddRedo(s: Scene, created: Id, name: string, record: Node): Scene {
    Scene(s.forest + [created], s.nodes[created := record], s.widgets[name := created])
  }

  /** Unregister, then `forest.splice(forest.indexOf(created), 1)`; the node is no longer reachable. */
  function AddUndo(t: Scene, created: Id, name: string): Scene {
    Scene(RemoveAt(t.forest, IndexOf(t.forest, created)), t.nodes - {created}, t.widgets - {name})
  }

  /** A new node, detached, under a free name. */
  predicate AddFits(s: Scene, created: Id, name: string, record: Node) {
    created !in s.nodes && created !in s.forest && name !in s.widgets &&
    record.name == name && record.parent == None && record.children == []
  }

  lemma AddRoundTrip(s: Scene, created: Id, name: string, record: Node)
    requires AddFits(s, created, name, record)
    ensures AddUndo(AddRedo(s, created, name, record), created, name) == s
  {
    var t := AddRedo(s, created, name, record);
    assert IndexOf(t.forest, created) == |s.forest|;
    assert RemoveAt(t.forest, |s.forest|) == s.forest;
    RemoveAdded(s.nodes, created, record);
    RemoveAdded(s.widgets, name, created);
  }

  /** Removing a key just added to a map gives back the map. */
  lemma RemoveAdded<K, V>(m: map<K, V>, k: K, v: V)
    requires k !in m
    ensures m[k := v] - {k} == m
  {
    assert (m[k := v] - {k}).Keys == m.Keys;
  }

  lemma AddKeepsWellFormed(s: Scene, r: map<Id, nat>, created: Id, name: string, record: Node)
    requires WellFormed(s, r) && AddFits(s, created, name, record)
    ensures WellFormed(AddRedo(s, created, name, record), r[created := 0])
  {
    AddKeepsLinked(s, created, name, record);
    AddKeepsNamed(s, created, name, record);
    AddKeepsRanked(s, r, created, name, record);
  }

  lemma AddKeepsLinked(s: Scene, created: Id, name: string, record: Node)
    requires Linked(s) && AddFits(s, created, name, record)
    ensures Linked(AddRedo(s, created, name, record))
  {
    var t := AddRedo(s, created, name, record);
    forall x | x in t.forest ensures x in t.nodes && t.nodes[x].parent == None {
      if x != created { assert x in s.forest; }
    }
    forall p, x | p in t.nodes && x in t.nodes[p].children
      ensures x in t.nodes && t.nodes[x].parent == Some(p)
    {
      assert p != created && x != created;
    }
  }

  lemma AddKeepsNamed(s: Scene, created: Id, name: string, record: Node)
    requires Linked(s) && Named(s) && AddFits(s, created, name, record)
    ensures Named(AddRedo(s, created, name, record))
  {
    var t := AddRedo(s, created, name, record);
    forall id | Attached(t, id)
      ensures t.nodes[id].name in t.widgets && t.widgets[t.nodes[id].name] == id
    {
      if id != created {
        assert Attached(s, id);
      }
    }
  }

  lemma AddKeepsRanked(s: Scene, r: map<Id, nat>, created: Id, name: string, record: Node)
    requires RankedBy(s, r) && AddFits(s, created, name, record)
    ensures RankedBy(AddRedo(s, created, name, record), r[created := 0])
  {
  }

  // ---------------------------------------------------------------------
  // Renaming a widget.

  function RenameRedo(s: Scene, node: Id, oldName: string, newName: string): Scene
    requires node in s.nodes
  {
    Scene(s.forest, s.nodes[node := s.nodes[node].(name := newName)], (s.widgets - {oldName})[newName := node])
  }

  function RenameUndo(t: Scene, node: Id, oldName: string, newName: string): Scene
    requires node in t.nodes
  {
    Scene(t.forest, t.nodes[node := t.nodes[node].(name := oldName)], (t.widgets - {newName})[oldName := node])
  }

  /** The node is registered under its current name and the new name is free. */
  predicate RenameFits(s: Scene, node: Id, oldName: string, newName: string) {
    node in s.nodes && s.nodes[node].name == oldName &&
    oldName in s.widgets && s.widgets[oldName] == node && newName !in s.widgets
  }

  lemma RenameRoundTrip(s: Scene, node: Id, oldName: string, newName: string)
    requires RenameFits(s, node, oldName, newName)
    ensures RenameUndo(RenameRedo(s, node, oldName, newName), node, oldName, newName) == s
  {
    var u := RenameUndo(RenameRedo(s, node, oldName, newName), node, oldName, newName);
    assert u.widgets == s.widgets;
    assert u.nodes == s.nodes;
  }

  lemma RenameKeepsWellFormed(s: Scene, r: map<Id, nat>, node: Id, oldName: string, newName: string)
    requires WellFormed(s, r) && RenameFits(s, node, oldName, newName)
    ensures WellFormed(RenameRedo(s, node, oldName, newName), r)
  {
    var t := RenameRedo(s, node, oldName, newName);
    RenameKeepsLinked(s, node, oldName, newName);
    RenameKeepsNamed(s, node, oldName, newName);
    assert RankedBy(t, r) by {
      forall id | id in t.nodes ensures t.nodes[id].parent == s.nodes[id].parent { }
    }
  }

  lemma RenameKeepsLinked(s: Scene, node: Id, oldName: string, newName: string)
    requires Linked(s) && RenameFits(s, node, oldName, newName)
    ensures Linked(RenameRedo(s, node, oldName, newName))
  {
    var t := RenameRedo(s, node, oldName, newName);
    assert forall id :: id in t.nodes ==> t.nodes[id].parent == s.nodes[id].parent && t.nodes[id].children == s.nodes[id].children;
  }

  lemma RenameKeepsNamed(s: Scene, node: Id, oldName: string, newName: string)
    requires Named(s) && RenameFits(s, node, oldName, newName)
    ensures Named(RenameRedo(s, node, oldName, newName))
  {
    var t := RenameRedo(s, node, oldName, newName);
    forall n | n in t.widgets
      ensures t.widgets[n] in t.nodes && t.nodes[t.widgets[n]].name == n
    {
      if n != newName {
        assert s.widgets[n] != node;
      }
    }
    forall id | Attached(t, id)
      ensures t.nodes[id].name in t.widgets && t.widgets[t.nodes[id].name] == id
    {
      assert Attached(s, id);
    }
  }

  // ---------------------------------------------------------------------
  // Every command on scenes.

  /** What a command's redo and undo need of the scene to be defined. */
  predicate Runnable(s: Scene, c: Command) {
    match c
    case RenameCmd(node, _, _) => node in s.nodes
    case RemoveCmd(acts) => AllIn(s, acts)
    case _ => true
  }

  /** A command's redo on the scene, and the command afterwards. */
  function RedoOn(s: Scene, c: Command): (Scene, Command)
    requires Runnable(s, c)
  {
    match c
    case MoveCmd(w, source, removeAt, dest, addAt) => (MoveRedo(s, w, source, removeAt, dest, addAt), c)
    case AddCmd(created, name, record) => (AddRedo(s, created, name, record), c)
    case RenameCmd(node, oldName, newName) => (RenameRedo(s, node, oldName, newName), c)
    case RemoveCmd(acts) =>
      var (t, acts') := RedoChain(s, acts);
      (t, RemoveCmd(acts'))
    case _ => (s, c)
  }

  /** A command's undo on the scene, and the command afterwards. */
  function UndoOn(t: Scene, c: Command): (Scene, Command)
    requires Runnable(t, c)
  {
    match c
    case MoveCmd(w, source, removeAt, dest, addAt) => (MoveUndo(t, w, source, removeAt, dest, addAt), c)
    case AddCmd(created, name, _) => (AddUndo(t, created, name), c)
    case RenameCmd(node, oldName, newName) => (RenameUndo(t, node, oldName, newName), c)
    case RemoveCmd(acts) =>
      var (s, acts') := RemoveUndo(t, acts);
      (s, RemoveCmd(acts'))
    case _ => (t, c)
  }

  /** `c` is not applied: its redo would take `s` to `t`. */
  ghost predicate Undone(s: Scene, c: Command, t: Scene) {
    match c
    case MoveCmd(w, source, removeAt, dest, addAt) =>
      MoveFits(s, w, source, removeAt, dest, addAt) && t == MoveRedo(s, w, source, removeAt, dest, addAt)
    case AddCmd(created, name, record) =>
      AddFits(s, created, name, record) && t == AddRedo(s, created, name, record)
    case RenameCmd(node, oldName, newName) =>
      RenameFits(s, node, oldName, newName) && t == RenameRedo(s, node, oldName, newName)
    case RemoveCmd(acts) =>
      RemoveReady(s, acts) && t == RemovedScene(s, Items(acts))
    case _ => t == s
  }

  /** `c` has been applied to `s` giving `t`: its undo goes back. */
  ghost predicate Done(s: Scene, c: Command, t: Scene) {
    Undone(s, c, t) && (c.RemoveCmd? ==> RedoChain(s, c.actions).1 == c.actions)
  }

  lemma ReadyAllIn(s: Scene, acts: seq<RemoveAction>)
    requires RemoveReady(s, acts)
    ensures AllIn(s, acts)
  {
  }

  lemma ReadyReversed(s: Scene, acts: seq<RemoveAction>)
    requires RemoveReady(s, acts)
    ensures RemoveReady(s, Reverse(acts)) && Items(Reverse(acts)) == Items(acts)
  {
    var r := Reverse(acts);
    forall y | y in Items(acts) ensures y in Items(r) {
      var i :| 0 <= i < |acts| && acts[i].item == y;
      assert r[|acts| - 1 - i] == acts[i];
    }
    forall i, j | 0 <= i < j < |r| ensures r[i].item != r[j].item {
      assert r[i] == acts[|acts| - 1 - i] && r[j] == acts[|acts| - 1 - j];
    }
  }

  /** Redoing a command that is not applied reaches the recorded scene and leaves it applied. */
  lemma RedoOfUndone(s: Scene, c: Command, t: Scene)
    requires Undone(s, c, t)
    ensures Runnable(s, c) && RedoOn(s, c).0 == t && Done(s, RedoOn(s, c).1, t)
  {
    if c.RemoveCmd? {
      RedoOfUndoneRemove(s, c.actions, t);
    }
  }

  lemma RedoOfUndoneRemove(s: Scene, acts: seq<RemoveAction>, t: Scene)
    requires RemoveReady(s, acts) && t == RemovedScene(s, Items(acts))
    ensures AllIn(s, acts) && RedoChain(s, acts).0 == t && Done(s, RemoveCmd(RedoChain(s, acts).1), t)
  {
    ReadyAllIn(s, acts);
    RedoIsRemoved(s, acts);
    var acts' := RedoChain(s, acts).1;
    RedoIgnoresIndexes(s, acts, acts');
    SameItems(acts, acts');
    assert RemoveReady(s, acts');
  }

  /** Actions on the same nodes remove the same set of nodes. */
  lemma SameItems(acts: seq<RemoveAction>, bs: seq<RemoveAction>)
    requires |bs| == |acts| && forall i :: 0 <= i < |acts| ==> bs[i].item == acts[i].item
    ensures Items(bs) == Items(acts)
  {
    forall y | y in Items(acts) ensures y in Items(bs) {
      var i :| 0 <= i < |acts| && acts[i].item == y;
      assert bs[i].item == y;
    }
  }

  /** Undoing an applied command gives back the scene it was applied to, and leaves it not applied. */
  lemma UndoOfDone(s: Scene, c: Command, t: Scene)
    requires Done(s, c, t)
    ensures Runnable(t, c) && UndoOn(t, c).0 == s && Undone(s, UndoOn(t, c).1, t)
  {
    match c
    case MoveCmd(w, source, removeAt, dest, addAt) =>
      MoveRoundTrip(s, w, source, removeAt, dest, addAt);
    case AddCmd(created, name, record) =>
      AddRoundTrip(s, created, name, record);
    case RenameCmd(node, oldName, newName) =>
      RenameRoundTrip(s, node, oldName, newName);
    case RemoveCmd(acts) =>
      ReadyAllIn(s, acts);
      RedoIsRemoved(s, acts);
      UndoAfterRedo(s, acts);
      ReadyReversed(s, acts);
    case _ =>
  }

  // ---------------------------------------------------------------------
  // The commands on delegates.

  /** `delegate[key] = value`, an undefined value removing the property. */
  function SetProp(props: map<string, string>, key: string, value: Option<string>): (r: map<string, string>)
    ensures value.Some? ==> key in r && r[key] == value.value
    ensures value.None? ==> key !in r
    ensures forall k :: k != key ==> (k in r <==> k in props) && (k in props ==> r[k] == props[k])
  {
    if value.Some? then props[key := value.value] else props - {key}
  }

  /** `delegate[key]`, None when undefined. */
  function Lookup(props: map<string, string>, key: string): Option<string> {
    if key in props then Some(props[key]) else None
  }

  /** Restoring the value read before a property change restores the properties. */
  lemma SetPropRoundTrip(props: map<string, string>, key: string, value: string)
    ensures SetProp(SetProp(props, key, Some(value)), key, Lookup(props, key)) == props
  {
    var r := SetProp(SetProp(props, key, Some(value)), key, Lookup(props, key));
    assert r.Keys == props.Keys;
  }

  function MoveSubjects(ms: seq<MovedItem>): (r: seq<Geometry.Delegate>)
    ensures |r| == |ms| && forall k :: 0 <= k < |ms| ==> r[k] == ms[k].delegate
  {
    seq(|ms|, k requires 0 <= k < |ms| => ms[k].delegate)
  }

  function Starts(ms: seq<MovedItem>): (r: seq<Geometry.Snapshot>)
    ensures |r| == |ms| && forall k :: 0 <= k < |ms| ==> r[k] == ms[k].start
  {
    seq(|ms|, k requires 0 <= k < |ms| => ms[k].start)
  }

  function Ends(ms: seq<MovedItem>): (r: seq<Geometry.Snapshot>)
    ensures |r| == |ms| && forall k :: 0 <= k < |ms| ==> r[k] == ms[k].end
  {
    seq(|ms|, k requires 0 <= k < |ms| => ms[k].end)
  }

  /** Only the anchors of the moved delegates change, the last snapshot of each winning. */
  twostate predicate AnchorsApplied(ms: seq<MovedItem>, snaps: seq<Geometry.Snapshot>)
    requires |snaps| == |ms|
    reads set m | m in ms :: m.delegate
  {
    (forall k :: 0 <= k < |ms| && Geometry.LastIn(MoveSubjects(ms), k) ==> ms[k].delegate.style == snaps[k].anchors) &&
    (forall k :: 0 <= k < |ms| ==>
      ms[k].delegate.Bounds() == old(ms[k].delegate.Bounds()) &&
      ms[k].delegate.props == old(ms[k].delegate.props))
  }

  /** What a command's redo does to the delegates it names. */
  twostate predicate RedoneOnDelegates(c: Command)
    reads Delegates(c)
  {
    match c
    case PropertyCmd(d, key, value, _) =>
      d.props == SetProp(old(d.props), key, Some(value)) &&
      d.style == old(d.style) && d.Bounds() == old(d.Bounds())
    case ResizeCmd(d, _, next) =>
      d.style == next && d.props == old(d.props) && d.Bounds() == old(d.Bounds())
    case MoveItemsCmd(ms) => AnchorsApplied(ms, Ends(ms))
    case _ => true
  }

  /** What a command's undo does to the delegates it names. */
  twostate predicate UndoneOnDelegates(c: Command)
    reads Delegates(c)
  {
    match c
    case PropertyCmd(d, key, _, oldValue) =>
      d.props == SetProp(old(d.props), key, oldValue) &&
      d.style == old(d.style) && d.Bounds() == old(d.Bounds())
    case ResizeCmd(d, prev, _) =>
      d.style == prev && d.props == old(d.props) && d.Bounds() == old(d.Bounds())
    case MoveItemsCmd(ms) => AnchorsApplied(ms, Starts(ms))
    case _ => true
  }
}
