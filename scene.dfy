/**
 * The scene tree the editor edits: the ordered forest of root nodes,
 * every node's ordered children and parent link, and the `widgets`
 * name-to-node index. Node objects are identified by an Id; `nodes` maps
 * each node the editor can still reach to its current record.
 *
 * Containers' `add(w, i)` / `remove(i)` are taken to splice the children
 * like the forest array's `splice`, setting (respectively clearing) the
 * parent link of the child they add (remove).
 */
module SceneTree {
  import opened Wrappers
  import opened JsArray
  import Geometry

  type Id = nat

  datatype Orientation = Horizontal | Vertical

  /** The layout of a container delegate. */
  datatype Pane = AnchorsPane | FlowPane | ScrollPane | BoxPane(orientation: Orientation) | OtherPane

  /** What the delegate is: `Container`, `DataGrid`, `ColumnNode` or another widget. */
  datatype Kind = ContainerKind(pane: Pane) | GridKind | ColumnKind | PlainKind

  /** `delegate instanceof Widget`: everything but grid column nodes. */
  predicate IsWidget(k: Kind) {
    !k.ColumnKind?
  }

  /** The parent/child kind pairs move accepts for a node destination. */
  predicate Accepts(dest: Kind, child: Kind) {
    (dest.ContainerKind? && IsWidget(child)) ||
    (dest.GridKind? && child.ColumnKind?) ||
    (dest.ColumnKind? && child.ColumnKind?)
  }

  datatype Node = Node(name: string, kind: Kind, capacity: Option<nat>, parent: Option<Id>,
                       children: seq<Id>, delegate: Geometry.Delegate)

  datatype Scene = Scene(forest: seq<Id>, nodes: map<Id, Node>, widgets: map<string, Id>)

  /** The array a node is held in: the forest (None) or a container's children. */
  function Holder(s: Scene, h: Option<Id>): seq<Id> {
    if h.None? then s.forest
    else if h.value in s.nodes then s.nodes[h.value].children
    else []
  }

  function WithHolder(s: Scene, h: Option<Id>, a: seq<Id>): Scene {
    if h.None? then s.(forest := a)
    else if h.value in s.nodes then s.(nodes := s.nodes[h.value := s.nodes[h.value].(children := a)])
    else s
  }

  function WithParent(s: Scene, id: Id, p: Option<Id>): Scene {
    if id in s.nodes then s.(nodes := s.nodes[id := s.nodes[id].(parent := p)]) else s
  }

  /** `holder.remove(i)` or `forest.splice(i, 1)`. */
  function Detach(s: Scene, h: Option<Id>, i: int): Scene {
    var a := Holder(s, h);
    var k := SpliceStart(i, |a|);
    var s1 := WithHolder(s, h, RemoveAt(a, i));
    if h.Some? && k < |a| then WithParent(s1, a[k], None) else s1
  }

  /** `holder.add(w, i)` or `forest.splice(i, 0, w)`. */
  function Attach(s: Scene, h: Option<Id>, i: int, w: Id): Scene {
    var s1 := WithHolder(s, h, InsertAt(Holder(s, h), i, w));
    if h.Some? then WithParent(s1, w, h) else s1
  }

  /** The k-th ancestor of `c` along parent links (k = 0 is `c` itself). */
  function Up(s: Scene, c: Id, k: nat): Option<Id> {
    if k == 0 then Some(c)
    else match Up(s, c, k - 1)
      case None => None
      case Some(x) => if x in s.nodes then s.nodes[x].parent else None
  }

  /** `p` is a proper ancestor of `c`. */
  ghost predicate ProperAncestor(s: Scene, p: Id, c: Id) {
    exists k: nat :: 1 <= k && Up(s, c, k) == Some(p)
  }

  /** No node is its own proper ancestor. */
  ghost predicate Acyclic(s: Scene) {
    forall c: Id, k: nat :: 1 <= k && c in s.nodes ==> Up(s, c, k) != Some(c)
  }

  /** `r` ranks the nodes so that every parent ranks below its children. */
  ghost predicate RankedBy(s: Scene, r: map<Id, nat>) {
    forall id :: id in s.nodes ==>
      id in r &&
      (s.nodes[id].parent.Some? ==>
        s.nodes[id].parent.value in s.nodes && s.nodes[id].parent.value in r &&
        r[s.nodes[id].parent.value] < r[id])
  }

  /** The node sits in the array its parent link names. */
  predicate Attached(s: Scene, id: Id) {
    id in s.nodes &&
    match s.nodes[id].parent
    case None => id in s.forest
    case Some(p) => p in s.nodes && id in s.nodes[p].children
  }

  predicate NoDuplicates(a: seq<Id>) {
    forall i, j :: 0 <= i < j < |a| ==> a[i] != a[j]
  }

  /** Parent links and arrays agree, and no array holds a node twice. */
  ghost predicate Linked(s: Scene) {
    NoDuplicates(s.forest) &&
    (forall x :: x in s.forest ==> x in s.nodes && s.nodes[x].parent == None) &&
    (forall p :: p in s.nodes ==> NoDuplicates(s.nodes[p].children)) &&
    (forall p, x :: p in s.nodes && x in s.nodes[p].children ==> x in s.nodes && s.nodes[x].parent == Some(p))
  }

  /**
   * The name index: every key names a node carrying that name, and every
   * attached node is indexed under its name. (The entries of nodes below
   * a removed container stay, as in the editor.)
   */
  ghost predicate Named(s: Scene) {
    (forall n :: n in s.widgets ==> s.widgets[n] in s.nodes && s.nodes[s.widgets[n]].name == n) &&
    (forall id :: Attached(s, id) ==> s.nodes[id].name in s.widgets && s.widgets[s.nodes[id].name] == id)
  }

  /** The well-formed scenes the editor keeps. */
  ghost predicate WellFormed(s: Scene, r: map<Id, nat>) {
    Linked(s) && Named(s) && RankedBy(s, r)
  }

  /** Walking up from `c`, the k-th ancestor exists and ranks at least k below `c`. */
  lemma {:induction false} UpRank(s: Scene, r: map<Id, nat>, c: Id, k: nat)
    requires RankedBy(s, r) && c in s.nodes
    requires Up(s, c, k).Some?
    ensures Up(s, c, k).value in s.nodes && r[Up(s, c, k).value] + k <= r[c]
  {
    if k > 0 {
      UpRank(s, r, c, k - 1);
    }
  }

  /** A ranked scene is acyclic. */
  lemma RankedIsAcyclic(s: Scene, r: map<Id, nat>)
    requires RankedBy(s, r)
    ensures Acyclic(s)
  {
    forall c: Id, k: nat | 1 <= k && c in s.nodes && Up(s, c, k).Some?
      ensures Up(s, c, k) != Some(c)
    {
      UpRank(s, r, c, k);
    }
  }

  /** Once the walk fails it stays failed. */
  lemma {:induction false} UpNoneStays(s: Scene, c: Id, k: nat, j: nat)
    requires Up(s, c, k) == None && k <= j
    ensures Up(s, c, j) == None
  {
    if j > k { UpNoneStays(s, c, k, j - 1); }
  }

  /** The (k+1)-th ancestor of `c` is the k-th ancestor of its parent. */
  lemma {:induction false} UpShift(s: Scene, c: Id, p: Id, k: nat)
    requires c in s.nodes && s.nodes[c].parent == Some(p)
    ensures Up(s, c, k + 1) == Up(s, p, k)
  {
    if k > 0 { UpShift(s, c, p, k - 1); }
  }

  /**
   * isParent(parent, child): walk parent links up from `child`; true iff
   * `parent` is met, that is, iff it is a proper ancestor.
   */
  method IsParent(s: Scene, ghost r: map<Id, nat>, parent: Id, child: Id) returns (b: bool)
    requires RankedBy(s, r) && child in s.nodes
    ensures b <==> ProperAncestor(s, parent, child)
  {
    var c := child;
    ghost var steps: nat := 0;
    while s.nodes[c].parent.Some? && s.nodes[c].parent.value != parent
      invariant c in s.nodes && Up(s, child, steps) == Some(c)
      invariant forall k: nat :: 1 <= k <= steps ==> Up(s, child, k) != Some(parent)
      decreases r[c]
    {
      c := s.nodes[c].parent.value;
      steps := steps + 1;
    }
    b := s.nodes[c].parent.Some?;
    if b {
      assert Up(s, child, steps + 1) == Some(parent);
    } else {
      forall k: nat | 1 <= k ensures Up(s, child, k) != Some(parent) {
        if k > steps {
          assert Up(s, child, steps + 1) == None;
          UpNoneStays(s, child, steps + 1, k);
        }
      }
    }
  }

  // ---------------------------------------------------------------------
  // Effects of the holder operations, one node at a time.

  lemma DetachEffect(s: Scene, h: Option<Id>, i: int)
    requires h.Some? ==> h.value in s.nodes
    requires 0 <= i < |Holder(s, h)|
    ensures var t := Detach(s, h, i);
      t.widgets == s.widgets && t.nodes.Keys == s.nodes.Keys &&
      t.forest == (if h.None? then RemoveAt(s.forest, i) else s.forest) &&
      Holder(t, h) == RemoveAt(Holder(s, h), i) &&
      forall id :: id in s.nodes ==>
        t.nodes[id] == s.nodes[id].(
          children := if h == Some(id) then RemoveAt(s.nodes[id].children, i) else s.nodes[id].children,
          parent := if h.Some? && id == Holder(s, h)[i] then None else s.nodes[id].parent)
  {
  }

  lemma DetachKeepsWidgets(s: Scene, h: Option<Id>, i: int)
    ensures Detach(s, h, i).widgets == s.widgets
  {
  }

  lemma AttachEffect(s: Scene, h: Option<Id>, i: int, w: Id)
    requires h.Some? ==> h.value in s.nodes
    requires w in s.nodes
    ensures var t := Attach(s, h, i, w);
      t.widgets == s.widgets && t.nodes.Keys == s.nodes.Keys &&
      t.forest == (if h.None? then InsertAt(s.forest, i, w) else s.forest) &&
      Holder(t, h) == InsertAt(Holder(s, h), i, w) &&
      forall id :: id in s.nodes ==>
        t.nodes[id] == s.nodes[id].(
          children := if h == Some(id) then InsertAt(s.nodes[id].children, i, w) else s.nodes[id].children,
          parent := if h.Some? && id == w then h else s.nodes[id].parent)
  {
  }

  // ---------------------------------------------------------------------
  // Moving a node: `move(w, dest, addAt)`.

  /** `dest.full`: the destination already holds as many children as it can. */
  predicate Full(s: Scene, d: Id)
    requires d in s.nodes
  {
    s.nodes[d].capacity.Some? && |s.nodes[d].children| >= s.nodes[d].capacity.value
  }

  /** What `move` decides; a destination of None is the forest. */
  datatype MoveOutcome =
    | Moves(source: Option<Id>, removeAt: int, addAt: int)
    | Incompatible
    | IntoItself
    | IntoDescendant
    | DestinationFull
    | AlreadyThere

  /** The checks of `move`, in the order the editor makes them. */
  ghost function Decide(s: Scene, w: Id, dest: Option<Id>, addAt: int): MoveOutcome
    requires w in s.nodes && (dest.Some? ==> dest.value in s.nodes)
  {
    if dest.Some? && !Accepts(s.nodes[dest.value].kind, s.nodes[w].kind) then Incompatible
    else if dest == Some(w) then IntoItself
    else if dest.Some? && ProperAncestor(s, w, dest.value) then IntoDescendant
    else
      var source := s.nodes[w].parent;
      if dest.Some? && Full(s, dest.value) && dest != source then DestinationFull
      else
        var removeAt := IndexOf(Holder(s, source), w);
        var at := if source == dest && addAt > removeAt then addAt - 1 else addAt;
        if source == dest && removeAt == at then AlreadyThere
        else Moves(source, removeAt, at)
  }

  /** The redo of a move command. */
  function MoveRedo(s: Scene, w: Id, source: Option<Id>, removeAt: int, dest: Option<Id>, addAt: int): Scene {
    Attach(Detach(s, source, removeAt), dest, addAt, w)
  }

  /** The undo of a move command. */
  function MoveUndo(t: Scene, w: Id, source: Option<Id>, removeAt: int, dest: Option<Id>, addAt: int): Scene {
    Attach(Detach(t, dest, addAt), source, removeAt, w)
  }

  /** The scenes in which a recorded move's two indexes are the right ones. */
  predicate MoveFits(s: Scene, w: Id, source: Option<Id>, removeAt: int, dest: Option<Id>, addAt: int) {
    w in s.nodes && s.nodes[w].parent == source && source != Some(w) && dest != Some(w) &&
    (source.Some? ==> source.value in s.nodes) && (dest.Some? ==> dest.value in s.nodes) &&
    0 <= removeAt < |Holder(s, source)| && Holder(s, source)[removeAt] == w &&
    0 <= addAt <= |Holder(Detach(s, source, removeAt), dest)|
  }

  /** The four scenes a move and its undo pass through. */
  lemma MoveSteps(s: Scene, w: Id, source: Option<Id>, removeAt: int, dest: Option<Id>, addAt: int)
    requires MoveFits(s, w, source, removeAt, dest, addAt)
    ensures var s1 := Detach(s, source, removeAt);
      var t := Attach(s1, dest, addAt, w);
      var t1 := Detach(t, dest, addAt);
      var s2 := Attach(t1, source, removeAt, w);
      s2 == MoveUndo(MoveRedo(s, w, source, removeAt, dest, addAt), w, source, removeAt, dest, addAt) &&
      s2.widgets == s.widgets && s2.nodes.Keys == s.nodes.Keys &&
      Holder(s1, source) == RemoveAt(Holder(s, source), removeAt) &&
      Holder(t, dest) == InsertAt(Holder(s1, dest), addAt, w) &&
      Holder(t1, dest) == RemoveAt(Holder(t, dest), addAt) &&
      Holder(s2, source) == InsertAt(Holder(t1, source), removeAt, w) &&
      Holder(t, dest)[addAt] == w
  {
    var s1 := Detach(s, source, removeAt);
    DetachEffect(s, source, removeAt);
    var t := Attach(s1, dest, addAt, w);
    AttachEffect(s1, dest, addAt, w);
    DetachEffect(t, dest, addAt);
    AttachEffect(Detach(t, dest, addAt), source, removeAt, w);
  }

  lemma MoveRoundTripForest(s: Scene, w: Id, source: Option<Id>, removeAt: int, dest: Option<Id>, addAt: int)
    requires MoveFits(s, w, source, removeAt, dest, addAt)
    ensures MoveUndo(MoveRedo(s, w, source, removeAt, dest, addAt), w, source, removeAt, dest, addAt).forest == s.forest
  {
    var s1 := Detach(s, source, removeAt);
    DetachEffect(s, source, removeAt);
    var t := Attach(s1, dest, addAt, w);
    AttachEffect(s1, dest, addAt, w);
    var t1 := Detach(t, dest, addAt);
    DetachEffect(t, dest, addAt);
    AttachEffect(t1, source, removeAt, w);
    if source.None? && dest.None? {
      RemoveInserted(RemoveAt(s.forest, removeAt), addAt, w);
      InsertRemoved(s.forest, removeAt);
    } else if source.None? {
      InsertRemoved(s.forest, removeAt);
    } else if dest.None? {
      RemoveInserted(s.forest, addAt, w);
    }
  }

  lemma MoveRoundTripNode(s: Scene, w: Id, source: Option<Id>, removeAt: int, dest: Option<Id>, addAt: int, id: Id)
    requires MoveFits(s, w, source, removeAt, dest, addAt) && id in s.nodes
    ensures var s2 := MoveUndo(MoveRedo(s, w, source, removeAt, dest, addAt), w, source, removeAt, dest, addAt);
      id in s2.nodes && s2.nodes[id] == s.nodes[id]
  {
    var s1 := Detach(s, source, removeAt);
    DetachEffect(s, source, removeAt);
    var t := Attach(s1, dest, addAt, w);
    AttachEffect(s1, dest, addAt, w);
    var t1 := Detach(t, dest, addAt);
    DetachEffect(t, dest, addAt);
    AttachEffect(t1, source, removeAt, w);
    var c := s.nodes[id].children;
    if source == Some(id) && dest == Some(id) {
      RemoveInserted(RemoveAt(c, removeAt), addAt, w);
      InsertRemoved(c, removeAt);
    } else if source == Some(id) {
      InsertRemoved(c, removeAt);
    } else if dest == Some(id) {
      RemoveInserted(c, addAt, w);
    }
  }

  /** Undoing a move restores the scene exactly. */
  lemma MoveRoundTrip(s: Scene, w: Id, source: Option<Id>, removeAt: int, dest: Option<Id>, addAt: int)
    requires MoveFits(s, w, source, removeAt, dest, addAt)
    ensures MoveUndo(MoveRedo(s, w, source, removeAt, dest, addAt), w, source, removeAt, dest, addAt) == s
  {
    var s2 := MoveUndo(MoveRedo(s, w, source, removeAt, dest, addAt), w, source, removeAt, dest, addAt);
    MoveSteps(s, w, source, removeAt, dest, addAt);
    MoveRoundTripForest(s, w, source, removeAt, dest, addAt);
    forall id | id in s.nodes
      ensures s2.nodes[id] == s.nodes[id]
    {
      MoveRoundTripNode(s, w, source, removeAt, dest, addAt, id);
    }
    assert s2.nodes == s.nodes;
  }

  // ---------------------------------------------------------------------
  // A move keeps the scene well formed.

  lemma NoDuplicatesRemoveAt(a: seq<Id>, i: int)
    requires NoDuplicates(a) && 0 <= i < |a|
    ensures NoDuplicates(RemoveAt(a, i)) && a[i] !in RemoveAt(a, i)
  {
    assert RemoveAt(a, i) == a[..i] + a[i + 1..];
  }

  lemma NoDuplicatesInsertAt(a: seq<Id>, i: int, x: Id)
    requires NoDuplicates(a) && x !in a
    ensures NoDuplicates(InsertAt(a, i, x))
  {
    var b := InsertAt(a, i, x);
    var k := SpliceStart(i, |a|);
    forall m, n | 0 <= m < n < |b| ensures b[m] != b[n] {
      if n == k { assert b[m] == a[m]; }
      else if m == k { assert b[n] == a[n - 1]; }
      else {
        var m' := if m < k then m else m - 1;
        var n' := if n < k then n else n - 1;
        assert b[m] == a[m'] && b[n] == a[n'];
      }
    }
  }

  /** What a move does to the array of holder `h`. */
  function MovedArray(a: seq<Id>, h: Option<Id>, w: Id, source: Option<Id>, removeAt: int,
                      dest: Option<Id>, addAt: int): seq<Id> {
    var a1 := if h == source then RemoveAt(a, removeAt) else a;
    if h == dest then InsertAt(a1, addAt, w) else a1
  }

  /** The moved node ends up in the destination array and nowhere else. */
  lemma MovedArrayFacts(a: seq<Id>, h: Option<Id>, w: Id, source: Option<Id>, removeAt: int,
                        dest: Option<Id>, addAt: int)
    requires NoDuplicates(a)
    requires h == source ==> 0 <= removeAt < |a| && a[removeAt] == w
    requires h != source ==> w !in a
    ensures var b := MovedArray(a, h, w, source, removeAt, dest, addAt);
      NoDuplicates(b) && forall x :: x in b <==> (x == w && h == dest) || (x in a && x != w)
  {
    var a1 := if h == source then RemoveAt(a, removeAt) else a;
    if h == source {
      NoDuplicatesRemoveAt(a, removeAt);
      forall x ensures x in a1 <==> x in a && x != w {
        InRemoveAt(a, removeAt, x);
      }
    }
    if h == dest {
      NoDuplicatesInsertAt(a1, addAt, w);
      forall x ensures x in InsertAt(a1, addAt, w) <==> x == w || x in a1 {
        InInsertAt(a1, addAt, w, x);
      }
    }
  }

  /** The scene after the redo of a move, node by node. */
  lemma MoveEffect(s: Scene, w: Id, source: Option<Id>, removeAt: int, dest: Option<Id>, addAt: int)
    requires MoveFits(s, w, source, removeAt, dest, addAt)
    ensures var t := MoveRedo(s, w, source, removeAt, dest, addAt);
      t.widgets == s.widgets && t.nodes.Keys == s.nodes.Keys &&
      t.forest == MovedArray(s.forest, None, w, source, removeAt, dest, addAt) &&
      forall id :: id in s.nodes ==>
        t.nodes[id] == s.nodes[id].(
          children := MovedArray(s.nodes[id].children, Some(id), w, source, removeAt, dest, addAt),
          parent := if id == w then dest else s.nodes[id].parent)
  {
    MoveRedoKeys(s, w, source, removeAt, dest, addAt);
    MoveForest(s, w, source, removeAt, dest, addAt);
    MoveNodes(s, w, source, removeAt, dest, addAt);
  }

  lemma MoveForest(s: Scene, w: Id, source: Option<Id>, removeAt: int, dest: Option<Id>, addAt: int)
    requires MoveFits(s, w, source, removeAt, dest, addAt)
    ensures MoveRedo(s, w, source, removeAt, dest, addAt).forest == MovedArray(s.forest, None, w, source, removeAt, dest, addAt)
  {
    var s1 := Detach(s, source, removeAt);
    DetachEffect(s, source, removeAt);
    assert s1.forest == if source.None? then RemoveAt(s.forest, removeAt) else s.forest;
    AttachEffect(s1, dest, addAt, w);
  }

  lemma MoveNodes(s: Scene, w: Id, source: Option<Id>, removeAt: int, dest: Option<Id>, addAt: int)
    requires MoveFits(s, w, source, removeAt, dest, addAt)
    ensures var t := MoveRedo(s, w, source, removeAt, dest, addAt);
      forall id :: id in s.nodes ==>
        t.nodes[id] == s.nodes[id].(
          children := MovedArray(s.nodes[id].children, Some(id), w, source, removeAt, dest, addAt),
          parent := if id == w then dest else s.nodes[id].parent)
  {
    forall id | id in s.nodes
      ensures MoveRedo(s, w, source, removeAt, dest, addAt).nodes[id] == s.nodes[id].(
        children := MovedArray(s.nodes[id].children, Some(id), w, source, removeAt, dest, addAt),
        parent := if id == w then dest else s.nodes[id].parent)
    {
      MoveNode(s, w, source, removeAt, dest, addAt, id);
    }
  }

  /** The record of one node after the redo of a move. */
  lemma MoveNode(s: Scene, w: Id, source: Option<Id>, removeAt: int, dest: Option<Id>, addAt: int, id: Id)
    requires MoveFits(s, w, source, removeAt, dest, addAt) && id in s.nodes
    ensures var t := MoveRedo(s, w, source, removeAt, dest, addAt);
      id in t.nodes &&
      t.nodes[id] == s.nodes[id].(
        children := MovedArray(s.nodes[id].children, Some(id), w, source, removeAt, dest, addAt),
        parent := if id == w then dest else s.nodes[id].parent)
  {
    var s1 := Detach(s, source, removeAt);
    DetachEffect(s, source, removeAt);
    AttachEffect(s1, dest, addAt, w);
    assert s1.nodes[id].children == if source == Some(id) then RemoveAt(s.nodes[id].children, removeAt) else s.nodes[id].children;
  }

  lemma MoveKeepsLinked(s: Scene, w: Id, source: Option<Id>, removeAt: int, dest: Option<Id>, addAt: int)
    requires Linked(s) && MoveFits(s, w, source, removeAt, dest, addAt)
    ensures Linked(MoveRedo(s, w, source, removeAt, dest, addAt))
  {
    var t := MoveRedo(s, w, source, removeAt, dest, addAt);
    MoveKeepsForestLinked(s, w, source, removeAt, dest, addAt);
    MoveRedoKeys(s, w, source, removeAt, dest, addAt);
    forall p | p in t.nodes
      ensures NoDuplicates(t.nodes[p].children)
      ensures forall x :: x in t.nodes[p].children ==> x in t.nodes && t.nodes[x].parent == Some(p)
    {
      MoveKeepsChildrenLinked(s, w, source, removeAt, dest, addAt, p);
    }
  }

  lemma MoveKeepsForestLinked(s: Scene, w: Id, source: Option<Id>, removeAt: int, dest: Option<Id>, addAt: int)
    requires Linked(s) && MoveFits(s, w, source, removeAt, dest, addAt)
    ensures var t := MoveRedo(s, w, source, removeAt, dest, addAt);
      NoDuplicates(t.forest) && forall x :: x in t.forest ==> x in t.nodes && t.nodes[x].parent == None
  {
    var t := MoveRedo(s, w, source, removeAt, dest, addAt);
    MoveEffect(s, w, source, removeAt, dest, addAt);
    MovedArrayFacts(s.forest, None, w, source, removeAt, dest, addAt);
    forall x | x in t.forest
      ensures x in t.nodes && t.nodes[x].parent == None
    {
      if x != w { assert x in s.forest; }
    }
  }

  lemma MoveKeepsChildrenLinked(s: Scene, w: Id, source: Option<Id>, removeAt: int, dest: Option<Id>, addAt: int, p: Id)
    requires Linked(s) && MoveFits(s, w, source, removeAt, dest, addAt) && p in s.nodes
    ensures var t := MoveRedo(s, w, source, removeAt, dest, addAt);
      p in t.nodes && NoDuplicates(t.nodes[p].children) &&
      forall x :: x in t.nodes[p].children ==> x in t.nodes && t.nodes[x].parent == Some(p)
  {
    var t := MoveRedo(s, w, source, removeAt, dest, addAt);
    MoveNode(s, w, source, removeAt, dest, addAt, p);
    MovedArrayFacts(s.nodes[p].children, Some(p), w, source, removeAt, dest, addAt);
    forall x | x in t.nodes[p].children
      ensures x in t.nodes && t.nodes[x].parent == Some(p)
    {
      if x != w { assert x in s.nodes[p].children; }
      MoveNode(s, w, source, removeAt, dest, addAt, x);
    }
  }

  lemma MoveKeepsAttached(s: Scene, w: Id, source: Option<Id>, removeAt: int, dest: Option<Id>, addAt: int, x: Id)
    requires Linked(s) && MoveFits(s, w, source, removeAt, dest, addAt)
    requires Attached(MoveRedo(s, w, source, removeAt, dest, addAt), x)
    ensures Attached(s, x)
  {
    MoveEffect(s, w, source, removeAt, dest, addAt);
    if x != w {
      match s.nodes[x].parent
      case None =>
        MovedArrayFacts(s.forest, None, w, source, removeAt, dest, addAt);
      case Some(p) =>
        MovedArrayFacts(s.nodes[p].children, Some(p), w, source, removeAt, dest, addAt);
    }
  }

  lemma MoveKeepsNamed(s: Scene, w: Id, source: Option<Id>, removeAt: int, dest: Option<Id>, addAt: int)
    requires Linked(s) && Named(s) && MoveFits(s, w, source, removeAt, dest, addAt)
    ensures Named(MoveRedo(s, w, source, removeAt, dest, addAt))
  {
    var t := MoveRedo(s, w, source, removeAt, dest, addAt);
    MoveEffect(s, w, source, removeAt, dest, addAt);
    forall x | Attached(t, x)
      ensures t.nodes[x].name in t.widgets && t.widgets[t.nodes[x].name] == x
    {
      MoveKeepsAttached(s, w, source, removeAt, dest, addAt, x);
    }
  }

  /** `x` is `w` or lies below it. */
  ghost predicate InSubtree(s: Scene, w: Id, x: Id) {
    x == w || ProperAncestor(s, w, x)
  }

  /** The child of a subtree node lies in the subtree, and the reverse for all but its root. */
  lemma SubtreeStep(s: Scene, w: Id, x: Id, p: Id)
    requires x in s.nodes && s.nodes[x].parent == Some(p)
    ensures InSubtree(s, w, p) ==> InSubtree(s, w, x)
    ensures InSubtree(s, w, x) && x != w ==> InSubtree(s, w, p)
  {
    if InSubtree(s, w, p) {
      if p == w {
        assert Up(s, x, 1) == Some(w);
      } else {
        var k: nat :| 1 <= k && Up(s, p, k) == Some(w);
        UpShift(s, x, p, k);
      }
    }
    if InSubtree(s, w, x) && x != w {
      var k: nat :| 1 <= k && Up(s, x, k) == Some(w);
      UpShift(s, x, p, k - 1);
      if k - 1 == 0 {
      } else {
        assert Up(s, p, k - 1) == Some(w);
      }
    }
  }

  /** The ranking after moving `w` below `dest`: its subtree is lifted above `dest`. */
  ghost function Rerank(s: Scene, r: map<Id, nat>, w: Id, dest: Option<Id>): map<Id, nat>
    requires dest.Some? ==> dest.value in r
  {
    map x | x in r :: if dest.Some? && InSubtree(s, w, x) then r[x] + r[dest.value] + 1 else r[x]
  }

  lemma MoveKeepsRanking(s: Scene, r: map<Id, nat>, w: Id, source: Option<Id>, removeAt: int,
                         dest: Option<Id>, addAt: int)
    requires RankedBy(s, r) && MoveFits(s, w, source, removeAt, dest, addAt)
    requires dest.Some? ==> !ProperAncestor(s, w, dest.value)
    ensures RankedBy(MoveRedo(s, w, source, removeAt, dest, addAt), Rerank(s, r, w, dest))
  {
    var t := MoveRedo(s, w, source, removeAt, dest, addAt);
    var r' := Rerank(s, r, w, dest);
    MoveEffect(s, w, source, removeAt, dest, addAt);
    forall x | x in t.nodes && t.nodes[x].parent.Some?
      ensures t.nodes[x].parent.value in t.nodes && t.nodes[x].parent.value in r' &&
        r'[t.nodes[x].parent.value] < r'[x]
    {
      var p := t.nodes[x].parent.value;
      if x != w {
        SubtreeStep(s, w, x, p);
      }
    }
  }

  /** The redo of a move keeps the scene well formed (with the lifted ranking). */
  lemma MoveKeepsWellFormed(s: Scene, r: map<Id, nat>, w: Id, source: Option<Id>, removeAt: int,
                            dest: Option<Id>, addAt: int)
    requires WellFormed(s, r) && MoveFits(s, w, source, removeAt, dest, addAt)
    requires dest.Some? ==> !ProperAncestor(s, w, dest.value)
    ensures WellFormed(MoveRedo(s, w, source, removeAt, dest, addAt), Rerank(s, r, w, dest))
  {
    MoveKeepsLinked(s, w, source, removeAt, dest, addAt);
    MoveKeepsNamed(s, w, source, removeAt, dest, addAt);
    MoveKeepsRanking(s, r, w, source, removeAt, dest, addAt);
  }

  /** A move keeps every attached node attached (the moved one now in `dest`). */
  lemma MoveKeepsAttachedForward(s: Scene, w: Id, source: Option<Id>, removeAt: int, dest: Option<Id>, addAt: int, x: Id)
    requires Linked(s) && MoveFits(s, w, source, removeAt, dest, addAt)
    requires Attached(s, x)
    ensures Attached(MoveRedo(s, w, source, removeAt, dest, addAt), x)
  {
    MoveEffect(s, w, source, removeAt, dest, addAt);
    var h := if x == w then dest else s.nodes[x].parent;
    if h.None? {
      MovedArrayFacts(s.forest, None, w, source, removeAt, dest, addAt);
    } else {
      MovedArrayFacts(s.nodes[h.value].children, h, w, source, removeAt, dest, addAt);
    }
  }

  /** The holder operations never add or drop nodes. */
  lemma KeysStay(s: Scene, h: Option<Id>, i: int, j: int, w: Id)
    ensures Detach(s, h, i).nodes.Keys == s.nodes.Keys && Detach(s, h, i).widgets == s.widgets
    ensures Attach(s, h, j, w).nodes.Keys == s.nodes.Keys && Attach(s, h, j, w).widgets == s.widgets
  {
    var a := Holder(s, h);
    var s1 := WithHolder(s, h, RemoveAt(a, i));
    UpdateKeys(s, h, RemoveAt(a, i));
    if h.Some? && SpliceStart(i, |a|) < |a| { ParentKeys(s1, a[SpliceStart(i, |a|)], None); }
    var s2 := WithHolder(s, h, InsertAt(a, j, w));
    UpdateKeys(s, h, InsertAt(a, j, w));
    if h.Some? { ParentKeys(s2, w, h); }
  }

  lemma UpdateKeys(s: Scene, h: Option<Id>, a: seq<Id>)
    ensures WithHolder(s, h, a).nodes.Keys == s.nodes.Keys && WithHolder(s, h, a).widgets == s.widgets
  {
    if h.Some? && h.value in s.nodes {
      var n := s.nodes[h.value := s.nodes[h.value].(children := a)];
      assert n.Keys == s.nodes.Keys;
    }
  }

  lemma ParentKeys(s: Scene, id: Id, p: Option<Id>)
    ensures WithParent(s, id, p).nodes.Keys == s.nodes.Keys && WithParent(s, id, p).widgets == s.widgets
  {
    if id in s.nodes {
      var n := s.nodes[id := s.nodes[id].(parent := p)];
      assert n.Keys == s.nodes.Keys;
    }
  }

  /**
   * When `move` decides to move, the recorded indexes fit the scene, the
   * destination is not below `w`, and the move is not a no-op.
   */
  lemma DecideFits(s: Scene, r: map<Id, nat>, w: Id, dest: Option<Id>, addAt: int)
    requires WellFormed(s, r) && Attached(s, w) && (dest.Some? ==> dest.value in s.nodes)
    requires 0 <= addAt <= |Holder(s, dest)|
    requires Decide(s, w, dest, addAt).Moves?
    ensures var m := Decide(s, w, dest, addAt);
      m.source == s.nodes[w].parent &&
      MoveFits(s, w, m.source, m.removeAt, dest, m.addAt) &&
      (dest.Some? ==> !ProperAncestor(s, w, dest.value)) &&
      (m.source == dest ==> m.removeAt != m.addAt)
  {
    var source := s.nodes[w].parent;
    assert source.Some? ==> source.value in s.nodes && source != Some(w) by {
      assert w in s.nodes;
    }
    var removeAt := IndexOf(Holder(s, source), w);
    var at := if source == dest && addAt > removeAt then addAt - 1 else addAt;
    assert Decide(s, w, dest, addAt) == Moves(source, removeAt, at);
    DecidedFits(s, w, source, removeAt, dest, addAt, at);
  }

  /** The indexes `move` computes fit the scene once `w` is attached. */
  lemma DecidedFits(s: Scene, w: Id, source: Option<Id>, removeAt: int, dest: Option<Id>, addAt: int, at: int)
    requires Attached(s, w) && s.nodes[w].parent == source && source != Some(w) && dest != Some(w)
    requires (source.Some? ==> source.value in s.nodes) && (dest.Some? ==> dest.value in s.nodes)
    requires removeAt == IndexOf(Holder(s, source), w)
    requires 0 <= addAt <= |Holder(s, dest)|
    requires at == if source == dest && addAt > removeAt then addAt - 1 else addAt
    ensures MoveFits(s, w, source, removeAt, dest, at)
  {
    var a := Holder(s, source);
    assert w in a;
    DetachEffect(s, source, removeAt);
    assert |Holder(Detach(s, source, removeAt), dest)| == if source == dest then |a| - 1 else |Holder(s, dest)|;
  }

  /** A move keeps the set of node ids and the name index. */
  lemma MoveRedoKeys(s: Scene, w: Id, source: Option<Id>, removeAt: int, dest: Option<Id>, addAt: int)
    ensures MoveRedo(s, w, source, removeAt, dest, addAt).nodes.Keys == s.nodes.Keys
    ensures MoveRedo(s, w, source, removeAt, dest, addAt).widgets == s.widgets
  {
    KeysStay(s, source, removeAt, addAt, w);
    KeysStay(Detach(s, source, removeAt), dest, removeAt, addAt, w);
  }

  /** The scene after `move(w, dest, addAt)`: moved, or unchanged when refused. */
  ghost function MoveScene(s: Scene, w: Id, dest: Option<Id>, addAt: int): (t: Scene)
    requires w in s.nodes && (dest.Some? ==> dest.value in s.nodes)
    ensures t.nodes.Keys == s.nodes.Keys && t.widgets == s.widgets
  {
    match Decide(s, w, dest, addAt)
    case Moves(source, removeAt, at) =>
      MoveRedoKeys(s, w, source, removeAt, dest, at);
      MoveRedo(s, w, source, removeAt, dest, at)
    case _ => s
  }

  /** Moving into `dest` never shortens the destination's array. */
  lemma MoveGrowsDestination(s: Scene, w: Id, source: Option<Id>, removeAt: int, dest: Option<Id>, addAt: int)
    requires MoveFits(s, w, source, removeAt, dest, addAt)
    ensures |Holder(MoveRedo(s, w, source, removeAt, dest, addAt), dest)| ==
      if source == dest then |Holder(s, dest)| else |Holder(s, dest)| + 1
  {
    MoveEffect(s, w, source, removeAt, dest, addAt);
  }
}
