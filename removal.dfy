/**
 * The command `removeSelected` records: one action per selected node.
 * Each action's redo looks its node up afresh in the array of the parent
 * the node had when the command was built, removes it there and drops
 * its name from the index; its undo puts the name back and re-inserts the
 * node at the index that removal used. The command's undo first reverses
 * its action array IN PLACE, so the next redo runs the actions in the
 * other order; the lemmas here show that this is harmless.
 */
module Removal {
  import opened Wrappers
  import opened JsArray
  import opened SceneTree

  /** One action: the node, its parent when recorded, the index its latest redo used. */
  datatype RemoveAction = RemoveAction(item: Id, holder: Option<Id>, removedAt: int)

  /** The redo of one action, and the action afterwards (its index updated). */
  function RemoveStep(s: Scene, a: RemoveAction): (r: (Scene, RemoveAction))
    requires a.item in s.nodes
    ensures r.0.nodes.Keys == s.nodes.Keys
    ensures r.1.item == a.item && r.1.holder == a.holder
  {
    KeysStay(s, a.holder, IndexOf(Holder(s, a.holder), a.item), 0, a.item);
    var at := IndexOf(Holder(s, a.holder), a.item);
    var t := Detach(s, a.holder, at);
    (t.(widgets := t.widgets - {s.nodes[a.item].name}), a.(removedAt := at))
  }

  /** The undo of one action. */
  function UndoStep(t: Scene, a: RemoveAction): (r: Scene)
    requires a.item in t.nodes
    ensures r.nodes.Keys == t.nodes.Keys
  {
    KeysStay(t.(widgets := t.widgets[t.nodes[a.item].name := a.item]), a.holder, 0, a.removedAt, a.item);
    var t1 := t.(widgets := t.widgets[t.nodes[a.item].name := a.item]);
    Attach(t1, a.holder, a.removedAt, a.item)
  }

  predicate AllIn(s: Scene, acts: seq<RemoveAction>) {
    forall i :: 0 <= i < |acts| ==> acts[i].item in s.nodes
  }

  /** The command's redo: the actions in array order; only their indexes change. */
  function RedoChain(s: Scene, acts: seq<RemoveAction>): (r: (Scene, seq<RemoveAction>))
    requires AllIn(s, acts)
    ensures r.0.nodes.Keys == s.nodes.Keys
    ensures |r.1| == |acts|
    ensures forall i :: 0 <= i < |acts| ==> r.1[i].item == acts[i].item && r.1[i].holder == acts[i].holder
    decreases |acts|
  {
    if |acts| == 0 then (s, [])
    else
      var (s1, a1) := RemoveStep(s, acts[0]);
      var (t, rest) := RedoChain(s1, acts[1..]);
      (t, [a1] + rest)
  }

  /** The undos of `acts`, in array order. */
  function UndoChain(t: Scene, acts: seq<RemoveAction>): (r: Scene)
    requires AllIn(t, acts)
    ensures r.nodes.Keys == t.nodes.Keys
    decreases |acts|
  {
    if |acts| == 0 then t else UndoChain(UndoStep(t, acts[0]), acts[1..])
  }

  /** The command's undo: reverse the array in place, then undo in that order. */
  function RemoveUndo(t: Scene, acts: seq<RemoveAction>): (Scene, seq<RemoveAction>)
    requires AllIn(t, acts)
  {
    (UndoChain(t, Reverse(acts)), Reverse(acts))
  }

  function Items(acts: seq<RemoveAction>): set<Id> {
    set i | 0 <= i < |acts| :: acts[i].item
  }

  /** The scenes in which the recorded actions can run: distinct attached nodes under their recorded parents. */
  ghost predicate RemoveReady(s: Scene, acts: seq<RemoveAction>) {
    Linked(s) && Named(s) &&
    (forall i, j :: 0 <= i < j < |acts| ==> acts[i].item != acts[j].item) &&
    (forall i :: 0 <= i < |acts| ==> Attached(s, acts[i].item) && s.nodes[acts[i].item].parent == acts[i].holder)
  }

  /** `a` without the elements of `x`, order kept. */
  function FilterOut(a: seq<Id>, x: set<Id>): (r: seq<Id>)
    ensures forall y :: y in r <==> y in a && y !in x
    ensures NoDuplicates(a) ==> NoDuplicates(r)
  {
    if |a| == 0 then []
    else
      var rest := FilterOut(a[1..], x);
      assert forall y :: y in a[1..] ==> y in a;
      if a[0] in x then rest else [a[0]] + rest
  }

  function Names(s: Scene, x: set<Id>): set<string> {
    set id | id in x && id in s.nodes :: s.nodes[id].name
  }

  /** A node record once the nodes of `x` are removed. */
  function RemovedNode(n: Node, id: Id, x: set<Id>): Node {
    n.(children := FilterOut(n.children, x), parent := if id in x then None else n.parent)
  }

  /**
   * The scene once every node of `x` is removed: out of every array, its
   * parent link cleared, its name unregistered. It does not depend on any
   * order.
   */
  function RemovedScene(s: Scene, x: set<Id>): Scene {
    Scene(FilterOut(s.forest, x),
          map id | id in s.nodes :: RemovedNode(s.nodes[id], id, x),
          s.widgets - Names(s, x))
  }

  // ---------------------------------------------------------------------
  // FilterOut.

  lemma {:induction false} FilterOutNone(a: seq<Id>, x: set<Id>)
    requires forall y :: y in a ==> y !in x
    ensures FilterOut(a, x) == a
  {
    if |a| > 0 {
      assert forall y :: y in a[1..] ==> y in a;
      FilterOutNone(a[1..], x);
    }
  }

  lemma {:induction false} FilterOutCompose(a: seq<Id>, x: set<Id>, y: set<Id>)
    ensures FilterOut(FilterOut(a, x), y) == FilterOut(a, x + y)
  {
    if |a| > 0 {
      FilterOutCompose(a[1..], x, y);
      if a[0] !in x {
        assert FilterOut(a, x) == [a[0]] + FilterOut(a[1..], x);
        assert ([a[0]] + FilterOut(a[1..], x))[1..] == FilterOut(a[1..], x);
      }
    }
  }

  /** Removing the element at `i` of a duplicate-free array filters that element out. */
  lemma {:induction false} RemoveAtIsFilterOut(a: seq<Id>, i: int)
    requires NoDuplicates(a) && 0 <= i < |a|
    ensures RemoveAt(a, i) == FilterOut(a, {a[i]})
  {
    if i == 0 {
      assert RemoveAt(a, i) == a[1..];
      FilterOutNone(a[1..], {a[0]});
    } else {
      var b := a[1..];
      assert NoDuplicates(b);
      RemoveAtIsFilterOut(b, i - 1);
      assert b[i - 1] == a[i];
      assert RemoveAt(a, i) == [a[0]] + RemoveAt(b, i - 1);
    }
  }

  // ---------------------------------------------------------------------
  // One action's redo is the removal of its node.

  lemma StepIsRemovedNode(s: Scene, a: RemoveAction, id: Id)
    requires Linked(s) && Attached(s, a.item) && s.nodes[a.item].parent == a.holder
    requires id in s.nodes
    ensures RemoveStep(s, a).0.nodes[id] == RemovedNode(s.nodes[id], id, {a.item})
  {
    var h := Holder(s, a.holder);
    var at := IndexOf(h, a.item);
    DetachEffect(s, a.holder, at);
    if a.holder == Some(id) {
      RemoveAtIsFilterOut(h, at);
    } else {
      FilterOutNone(s.nodes[id].children, {a.item});
    }
  }

  lemma StepIsRemovedForest(s: Scene, a: RemoveAction)
    requires Linked(s) && Attached(s, a.item) && s.nodes[a.item].parent == a.holder
    ensures RemoveStep(s, a).0.forest == FilterOut(s.forest, {a.item})
  {
    var h := Holder(s, a.holder);
    var at := IndexOf(h, a.item);
    DetachEffect(s, a.holder, at);
    if a.holder.Some? {
      FilterOutNone(s.forest, {a.item});
    } else {
      RemoveAtIsFilterOut(h, at);
    }
  }

  /** One action's redo removes its node and nothing else. */
  lemma StepIsRemoved(s: Scene, a: RemoveAction)
    requires Linked(s) && Attached(s, a.item) && s.nodes[a.item].parent == a.holder
    ensures RemoveStep(s, a).0 == RemovedScene(s, {a.item})
  {
    StepIsRemovedForest(s, a);
    StepIsRemovedNodes(s, a);
    StepWidgets(s, a);
  }

  lemma StepIsRemovedNodes(s: Scene, a: RemoveAction)
    requires Linked(s) && Attached(s, a.item) && s.nodes[a.item].parent == a.holder
    ensures RemoveStep(s, a).0.nodes == RemovedScene(s, {a.item}).nodes
  {
    var t := RemoveStep(s, a).0;
    var u := RemovedScene(s, {a.item});
    forall id | id in s.nodes
      ensures t.nodes[id] == u.nodes[id]
    {
      StepIsRemovedNode(s, a, id);
    }
  }

  lemma StepWidgets(s: Scene, a: RemoveAction)
    requires a.item in s.nodes
    ensures RemoveStep(s, a).0.widgets == s.widgets - Names(s, {a.item})
  {
    DetachKeepsWidgets(s, a.holder, IndexOf(Holder(s, a.holder), a.item));
    assert Names(s, {a.item}) == {s.nodes[a.item].name};
  }

  lemma RemovedKeepsNames(s: Scene, x: set<Id>, y: set<Id>)
    ensures Names(RemovedScene(s, x), y) == Names(s, y)
  {
    var u := RemovedScene(s, x);
    forall n | n in Names(s, y) ensures n in Names(u, y) {
      var id :| id in y && id in s.nodes && s.nodes[id].name == n;
      assert u.nodes[id].name == n;
    }
  }

  lemma NamesUnion(s: Scene, x: set<Id>, y: set<Id>)
    ensures Names(s, x + y) == Names(s, x) + Names(s, y)
  {
  }

  lemma RemovedComposeNodes(s: Scene, x: set<Id>, y: set<Id>)
    ensures RemovedScene(RemovedScene(s, x), y).nodes == RemovedScene(s, x + y).nodes
  {
    var v := RemovedScene(RemovedScene(s, x), y);
    var w := RemovedScene(s, x + y);
    forall id | id in s.nodes
      ensures v.nodes[id] == w.nodes[id]
    {
      FilterOutCompose(s.nodes[id].children, x, y);
    }
  }

  /** Removing one set of nodes and then another is removing both at once. */
  lemma RemovedCompose(s: Scene, x: set<Id>, y: set<Id>)
    ensures RemovedScene(RemovedScene(s, x), y) == RemovedScene(s, x + y)
  {
    var v := RemovedScene(RemovedScene(s, x), y);
    var w := RemovedScene(s, x + y);
    FilterOutCompose(s.forest, x, y);
    RemovedComposeNodes(s, x, y);
    RemovedKeepsNames(s, x, y);
    NamesUnion(s, x, y);
    assert v.widgets == w.widgets;
  }

  /** What removing attached nodes keeps: links, the name index, the ranking. */
  lemma RemovedKeepsWellFormed(s: Scene, r: map<Id, nat>, x: set<Id>)
    requires Linked(s) && Named(s)
    requires forall y :: y in x ==> Attached(s, y)
    ensures Linked(RemovedScene(s, x)) && Named(RemovedScene(s, x))
    ensures RankedBy(s, r) ==> RankedBy(RemovedScene(s, x), r)
    ensures forall id :: id in s.nodes && id !in x && Attached(s, id) ==> Attached(RemovedScene(s, x), id)
    ensures forall id :: id in s.nodes && id !in x ==>
      RemovedScene(s, x).nodes[id].parent == s.nodes[id].parent
  {
    RemovedKeepsLinked(s, x);
    RemovedKeepsNamed(s, x);
    if RankedBy(s, r) {
      RemovedKeepsRanked(s, r, x);
    }
    RemovedKeepsAttached(s, x);
  }

  lemma RemovedKeepsLinked(s: Scene, x: set<Id>)
    requires Linked(s)
    ensures Linked(RemovedScene(s, x))
  {
    var t := RemovedScene(s, x);
    forall c | c in t.forest
      ensures c in t.nodes && t.nodes[c].parent == None
    {
      assert c in s.forest;
    }
    forall p | p in t.nodes
      ensures NoDuplicates(t.nodes[p].children)
      ensures forall c :: c in t.nodes[p].children ==> c in t.nodes && t.nodes[c].parent == Some(p)
    {
      RemovedKeepsChildLinks(s, x, p);
    }
  }

  /** A container's children, once `x` is removed, are distinct and still point to it. */
  lemma RemovedKeepsChildLinks(s: Scene, x: set<Id>, p: Id)
    requires Linked(s) && p in s.nodes
    ensures var t := RemovedScene(s, x);
      NoDuplicates(t.nodes[p].children) &&
      forall c :: c in t.nodes[p].children ==> c in t.nodes && t.nodes[c].parent == Some(p)
  {
    var t := RemovedScene(s, x);
    assert t.nodes[p].children == FilterOut(s.nodes[p].children, x);
    forall c | c in t.nodes[p].children ensures c in t.nodes && t.nodes[c].parent == Some(p) {
      assert c in s.nodes[p].children && c !in x;
      assert t.nodes[c] == RemovedNode(s.nodes[c], c, x);
    }
  }

  lemma RemovedKeepsNamed(s: Scene, x: set<Id>)
    requires Linked(s) && Named(s)
    requires forall y :: y in x ==> Attached(s, y)
    ensures Named(RemovedScene(s, x))
  {
    var t := RemovedScene(s, x);
    forall n | n in t.widgets
      ensures t.widgets[n] in t.nodes && t.nodes[t.widgets[n]].name == n
    {
      assert n in s.widgets;
    }
    forall id | Attached(t, id)
      ensures t.nodes[id].name in t.widgets && t.widgets[t.nodes[id].name] == id
    {
      RemovedAttachedWasAttached(s, x, id);
      forall y | y in x && y in s.nodes
        ensures s.nodes[y].name != s.nodes[id].name
      {
        assert s.widgets[s.nodes[y].name] == y;
      }
    }
  }

  /** A node attached once nodes are removed was attached before and is not one of them. */
  lemma RemovedAttachedWasAttached(s: Scene, x: set<Id>, id: Id)
    requires Attached(RemovedScene(s, x), id)
    ensures id !in x && Attached(s, id)
  {
    var t := RemovedScene(s, x);
    match t.nodes[id].parent
    case None =>
      assert id in t.forest;
    case Some(p) =>
      assert id in t.nodes[p].children;
  }

  lemma RemovedKeepsRanked(s: Scene, r: map<Id, nat>, x: set<Id>)
    requires RankedBy(s, r)
    ensures RankedBy(RemovedScene(s, x), r)
  {
  }

  lemma RemovedKeepsAttached(s: Scene, x: set<Id>)
    ensures forall id :: id in s.nodes && id !in x && Attached(s, id) ==> Attached(RemovedScene(s, x), id)
    ensures forall id :: id in s.nodes && id !in x ==>
      RemovedScene(s, x).nodes[id].parent == s.nodes[id].parent
  {
    var t := RemovedScene(s, x);
    forall id | id in s.nodes && id !in x && Attached(s, id)
      ensures Attached(t, id)
    {
      match s.nodes[id].parent
      case None =>
        assert id in t.forest;
      case Some(p) =>
        assert id in t.nodes[p].children;
    }
  }

  // ---------------------------------------------------------------------
  // The whole redo, in any order, is the removal of the set.

  /** The removed nodes are detached and their names unregistered. */
  lemma RemovedDetaches(s: Scene, x: set<Id>)
    ensures forall y :: y in x ==> !Attached(RemovedScene(s, x), y)
    ensures forall y :: y in x && y in s.nodes ==> s.nodes[y].name !in RemovedScene(s, x).widgets
  {
    forall y | y in x && y in s.nodes ensures s.nodes[y].name in Names(s, x) {
    }
  }

  lemma StepKeepsReady(s: Scene, acts: seq<RemoveAction>)
    requires RemoveReady(s, acts) && |acts| > 0
    ensures RemoveReady(RemoveStep(s, acts[0]).0, acts[1..])
  {
    StepIsRemoved(s, acts[0]);
    RemovedKeepsReady(s, acts);
  }

  lemma RemovedKeepsReady(s: Scene, acts: seq<RemoveAction>)
    requires RemoveReady(s, acts) && |acts| > 0
    ensures RemoveReady(RemovedScene(s, {acts[0].item}), acts[1..])
  {
    var x := acts[0].item;
    assert Attached(s, x);
    RemovedKeepsLinked(s, {x});
    RemovedKeepsNamed(s, {x});
    TailReady(s, acts);
  }

  /** The actions after the first stay distinct and attached once the first has run. */
  lemma TailReady(s: Scene, acts: seq<RemoveAction>)
    requires |acts| > 0
    requires forall i, j :: 0 <= i < j < |acts| ==> acts[i].item != acts[j].item
    requires forall i :: 0 <= i < |acts| ==> Attached(s, acts[i].item) && s.nodes[acts[i].item].parent == acts[i].holder
    ensures var u, rest := RemovedScene(s, {acts[0].item}), acts[1..];
      (forall i, j :: 0 <= i < j < |rest| ==> rest[i].item != rest[j].item) &&
      (forall i :: 0 <= i < |rest| ==> Attached(u, rest[i].item) && u.nodes[rest[i].item].parent == rest[i].holder)
  {
    var x := acts[0].item;
    var u := RemovedScene(s, {x});
    RemovedKeepsAttached(s, {x});
    var rest := acts[1..];
    forall i | 0 <= i < |rest|
      ensures Attached(u, rest[i].item) && u.nodes[rest[i].item].parent == rest[i].holder
    {
      assert rest[i] == acts[i + 1];
      assert Attached(s, acts[i + 1].item) && acts[i + 1].item != x;
    }
    forall i, j | 0 <= i < j < |rest|
      ensures rest[i].item != rest[j].item
    {
      assert rest[i] == acts[i + 1] && rest[j] == acts[j + 1];
    }
  }

  lemma ItemsCons(acts: seq<RemoveAction>)
    requires |acts| > 0
    ensures Items(acts) == {acts[0].item} + Items(acts[1..])
  {
    forall y | y in Items(acts) ensures y in {acts[0].item} + Items(acts[1..]) {
      var i :| 0 <= i < |acts| && acts[i].item == y;
      if i > 0 { assert acts[1..][i - 1] == acts[i]; }
    }
    forall y | y in Items(acts[1..]) ensures y in Items(acts) {
      var i :| 0 <= i < |acts[1..]| && acts[1..][i].item == y;
      assert acts[i + 1] == acts[1..][i];
    }
  }

  /** Removing no node changes nothing. */
  lemma RemovedNothing(s: Scene)
    ensures RemovedScene(s, {}) == s
  {
    var t := RemovedScene(s, {});
    FilterOutNone(s.forest, {});
    forall id | id in s.nodes ensures t.nodes[id] == s.nodes[id] {
      FilterOutNone(s.nodes[id].children, {});
    }
    assert t.nodes == s.nodes;
    assert Names(s, {}) == {};
  }

  /** Whatever the order of the actions, the redo removes exactly their nodes. */
  lemma {:induction false} RedoIsRemoved(s: Scene, acts: seq<RemoveAction>)
    requires RemoveReady(s, acts)
    ensures RedoChain(s, acts).0 == RemovedScene(s, Items(acts))
    decreases |acts|
  {
    if |acts| == 0 {
      assert Items(acts) == {};
      RemovedNothing(s);
    } else {
      var s1 := RemoveStep(s, acts[0]).0;
      assert RedoChain(s, acts).0 == RedoChain(s1, acts[1..]).0;
      StepKeepsReady(s, acts);
      RedoIsRemoved(s1, acts[1..]);
      StepIsRemoved(s, acts[0]);
      RemovedCompose(s, {acts[0].item}, Items(acts[1..]));
      ItemsCons(acts);
    }
  }

  /** The redo depends on the actions' nodes and parents only, not on their stored indexes. */
  lemma {:induction false} RedoIgnoresIndexes(s: Scene, acts: seq<RemoveAction>, bs: seq<RemoveAction>)
    requires AllIn(s, acts) && |bs| == |acts|
    requires forall i :: 0 <= i < |acts| ==> bs[i].item == acts[i].item && bs[i].holder == acts[i].holder
    ensures RedoChain(s, bs) == RedoChain(s, acts)
    decreases |acts|
  {
    if |acts| > 0 {
      RedoIgnoresIndexes(RemoveStep(s, acts[0]).0, acts[1..], bs[1..]);
    }
  }

  // ---------------------------------------------------------------------
  // The undo is the exact inverse of the preceding redo.

  lemma StepUndoneNode(s: Scene, a: RemoveAction, id: Id)
    requires Attached(s, a.item) && s.nodes[a.item].parent == a.holder && id in s.nodes
    ensures UndoStep(RemoveStep(s, a).0, RemoveStep(s, a).1).nodes[id] == s.nodes[id]
  {
    var h := Holder(s, a.holder);
    var at := IndexOf(h, a.item);
    var t := RemoveStep(s, a).0;
    DetachEffect(s, a.holder, at);
    AttachEffect(t.(widgets := t.widgets[t.nodes[a.item].name := a.item]), a.holder, at, a.item);
    if a.holder == Some(id) {
      InsertRemoved(h, at);
    }
  }

  lemma StepUndoneForest(s: Scene, a: RemoveAction)
    requires Attached(s, a.item) && s.nodes[a.item].parent == a.holder
    ensures UndoStep(RemoveStep(s, a).0, RemoveStep(s, a).1).forest == s.forest
  {
    var h := Holder(s, a.holder);
    var at := IndexOf(h, a.item);
    var t := RemoveStep(s, a).0;
    DetachEffect(s, a.holder, at);
    AttachEffect(t.(widgets := t.widgets[t.nodes[a.item].name := a.item]), a.holder, at, a.item);
    if a.holder.None? {
      InsertRemoved(h, at);
    }
  }

  lemma StepUndoneWidgets(s: Scene, a: RemoveAction)
    requires Named(s) && Attached(s, a.item) && s.nodes[a.item].parent == a.holder
    ensures UndoStep(RemoveStep(s, a).0, RemoveStep(s, a).1).widgets == s.widgets
  {
    var at := IndexOf(Holder(s, a.holder), a.item);
    var t := RemoveStep(s, a).0;
    DetachKeepsWidgets(s, a.holder, at);
    DetachEffect(s, a.holder, at);
    var name := s.nodes[a.item].name;
    assert t.nodes[a.item].name == name && t.widgets == s.widgets - {name};
    RestoreRemoved(s.widgets, name);
    var t1 := t.(widgets := t.widgets[name := a.item]);
    KeysStay(t1, a.holder, 0, at, a.item);
  }

  /** Putting back a removed key with its old value gives back the map. */
  lemma RestoreRemoved<K, V>(m: map<K, V>, k: K)
    requires k in m
    ensures (m - {k})[k := m[k]] == m
  {
    assert ((m - {k})[k := m[k]]).Keys == m.Keys;
  }

  /** One action's undo restores the scene its redo started from. */
  lemma StepUndone(s: Scene, a: RemoveAction)
    requires Named(s) && Attached(s, a.item) && s.nodes[a.item].parent == a.holder
    ensures UndoStep(RemoveStep(s, a).0, RemoveStep(s, a).1) == s
  {
    var u := UndoStep(RemoveStep(s, a).0, RemoveStep(s, a).1);
    StepUndoneWidgets(s, a);
    StepUndoneForest(s, a);
    forall id | id in s.nodes ensures u.nodes[id] == s.nodes[id] {
      StepUndoneNode(s, a, id);
    }
    assert u.nodes == s.nodes;
  }

  lemma {:induction false} UndoChainAppend(t: Scene, xs: seq<RemoveAction>, a: RemoveAction)
    requires AllIn(t, xs) && a.item in t.nodes
    ensures AllIn(t, xs + [a])
    ensures UndoChain(t, xs + [a]) == UndoStep(UndoChain(t, xs), a)
    decreases |xs|
  {
    if |xs| > 0 {
      assert (xs + [a])[1..] == xs[1..] + [a];
      UndoChainAppend(UndoStep(t, xs[0]), xs[1..], a);
    } else {
      assert xs + [a] == [a];
    }
  }

  /** Undoing in the reverse of the redo's order restores the scene exactly. */
  lemma {:induction false} UndoAfterRedo(s: Scene, acts: seq<RemoveAction>)
    requires RemoveReady(s, acts)
    ensures AllIn(RedoChain(s, acts).0, Reverse(RedoChain(s, acts).1))
    ensures UndoChain(RedoChain(s, acts).0, Reverse(RedoChain(s, acts).1)) == s
    decreases |acts|
  {
    if |acts| > 0 {
      var (s1, a1) := RemoveStep(s, acts[0]);
      var (t, rest) := RedoChain(s1, acts[1..]);
      StepKeepsReady(s, acts);
      UndoAfterRedo(s1, acts[1..]);
      ReverseCons(a1, rest);
      assert RedoChain(s, acts).1 == [a1] + rest;
      UndoChainAppend(t, Reverse(rest), a1);
      StepUndone(s, acts[0]);
    }
  }
}
