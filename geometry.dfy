/**
 * Geometry of a widget delegate and the pointer-driven transforms of the
 * designer: size/location snapshots, the eight resize handles, grid
 * snapping and the multi-item move.
 *
 * A delegate keeps its box (left, top, width, height) and its element's
 * six raw anchor strings. Writing the box goes through the toolkit's
 * setters, which rewrite the anchor strings; what they write is the
 * toolkit's business, so every delegate carries it as a function.
 */
module Geometry {
  import opened Wrappers

  datatype Point = Point(x: int, y: int)

  /** The six raw constraint strings of a widget element's style. */
  datatype Anchors = Anchors(left: string, width: string, right: string,
                             top: string, height: string, bottom: string)

  datatype Box = Box(left: int, top: int, width: int, height: int)

  /** The anchors of a fresh delegate: no inline style set. */
  const Unanchored := Anchors("", "", "", "", "", "")

  /** A captured size/location state: the derived box and the raw anchors. */
  datatype Snapshot = Snapshot(left: int, top: int, width: int, height: int, anchors: Anchors)
  {
    function Bounds(): Box { Box(left, top, width, height) }
  }

  /** The toolkit widget a node wraps, as far as the editor touches it. */
  class Delegate {
    var left: int
    var top: int
    var width: int
    var height: int
    var style: Anchors
    var props: map<string, string>
    /** The anchor strings the toolkit's box setters leave once the box has become the given one. */
    const restyle: (Anchors, Box) -> Anchors

    constructor (restyle: (Anchors, Box) -> Anchors)
      ensures Bounds() == Box(0, 0, 0, 0) && style == Unanchored
      ensures props == map[] && this.restyle == restyle
    {
      left, top, width, height := 0, 0, 0, 0;
      style := Unanchored;
      props := map[];
      this.restyle := restyle;
    }

    function Bounds(): Box
      reads this
    {
      Box(left, top, width, height)
    }

    /**
     * One box setter (`delegate.left = v`, likewise top, width, height):
     * the box becomes `b` and the toolkit rewrites the anchors for it.
     */
    method SetBounds(b: Box)
      modifies this
      ensures Bounds() == b && style == restyle(old(style), b)
      ensures props == old(props)
    {
      left, top, width, height := b.left, b.top, b.width, b.height;
      style := restyle(style, b);
    }

    /** SetBounds as the next of the writes `done` made since the anchors were `from`. */
    method Write(b: Box, ghost from: Anchors, ghost done: seq<Box>) returns (ghost written: seq<Box>)
      requires style == Restyled(restyle, from, done)
      modifies this
      ensures Bounds() == b && written == done + [b] && style == Restyled(restyle, from, written)
      ensures props == old(props)
    {
      SetBounds(b);
      RestyledSnoc(restyle, from, done, b);
      written := done + [b];
    }
  }

  /** The anchors after the box setters have passed through `boxes`, in order. */
  function Restyled(restyle: (Anchors, Box) -> Anchors, style: Anchors, boxes: seq<Box>): Anchors
    decreases |boxes|
  {
    if |boxes| == 0 then style
    else restyle(Restyled(restyle, style, boxes[..|boxes| - 1]), boxes[|boxes| - 1])
  }

  lemma RestyledSnoc(restyle: (Anchors, Box) -> Anchors, style: Anchors, boxes: seq<Box>, b: Box)
    ensures Restyled(restyle, style, boxes + [b]) == restyle(Restyled(restyle, style, boxes), b)
  {
    assert (boxes + [b])[..|boxes|] == boxes;
  }

  /** Two runs of writes, one after the other, are one run. */
  lemma {:induction false} RestyledConcat(restyle: (Anchors, Box) -> Anchors, style: Anchors, first: seq<Box>, second: seq<Box>)
    ensures Restyled(restyle, style, first + second) == Restyled(restyle, Restyled(restyle, style, first), second)
    decreases |second|
  {
    if |second| == 0 {
      assert first + second == first;
    } else {
      var init := second[..|second| - 1];
      var b := second[|second| - 1];
      assert second == init + [b];
      assert first + second == (first + init) + [b];
      RestyledConcat(restyle, style, first, init);
      RestyledSnoc(restyle, style, first + init, b);
      RestyledSnoc(restyle, Restyled(restyle, style, first), init, b);
    }
  }

  /** sizeLocationSnapshot(subject). */
  function SizeLocationSnapshot(subject: Delegate): (s: Snapshot)
    reads subject
    ensures s.Bounds() == subject.Bounds() && s.anchors == subject.style
  {
    Snapshot(subject.left, subject.top, subject.width, subject.height, subject.style)
  }

  /**
   * applySizeLocationSnapshot(snapshot, subject): writes back exactly the
   * six anchor strings and nothing else, so restoring a snapshot of the
   * subject's own state leaves the subject unchanged.
   */
  method ApplySizeLocationSnapshot(snapshot: Snapshot, subject: Delegate)
    modifies subject
    ensures subject.style == snapshot.anchors
    ensures subject.Bounds() == old(subject.Bounds())
    ensures subject.props == old(subject.props)
    ensures snapshot == old(SizeLocationSnapshot(subject)) ==> unchanged(subject)
  {
    subject.style := Anchors(snapshot.anchors.left, snapshot.anchors.width, snapshot.anchors.right,
                             snapshot.anchors.top, snapshot.anchors.height, snapshot.anchors.bottom);
  }

  /** No later subject in the list is the same object as the k-th. */
  ghost predicate LastIn(subjects: seq<Delegate>, k: int)
    requires 0 <= k < |subjects|
  {
    forall j :: k < j < |subjects| ==> subjects[j] != subjects[k]
  }

  /** Every subject has a last occurrence at or after any of its positions. */
  lemma LastOccurrence(subjects: seq<Delegate>, k: int)
    requires 0 <= k < |subjects|
    ensures exists j :: k <= j < |subjects| && subjects[j] == subjects[k] && LastIn(subjects, j)
    decreases |subjects| - k
  {
    if !LastIn(subjects, k) {
      var j :| k < j < |subjects| && subjects[j] == subjects[k];
      LastOccurrence(subjects, j);
    }
  }

  /**
   * `items.forEach(moved => applySizeLocationSnapshot(snap, delegate))`:
   * every subject ends with the anchors of the last snapshot applied to it.
   */
  method ApplySnapshots(snaps: seq<Snapshot>, subjects: seq<Delegate>)
    requires |snaps| == |subjects|
    modifies set d | d in subjects
    ensures forall k :: 0 <= k < |subjects| && LastIn(subjects, k) ==> subjects[k].style == snaps[k].anchors
    ensures forall d :: d in subjects ==>
      d.Bounds() == old(d.Bounds()) && d.props == old(d.props)
  {
    for i := 0 to |subjects|
      invariant forall k :: 0 <= k < i && (forall j :: k < j < i ==> subjects[j] != subjects[k]) ==>
                  subjects[k].style == snaps[k].anchors
      invariant forall d :: d in subjects ==>
                  d.Bounds() == old(d.Bounds()) && d.props == old(d.props)
    {
      ApplySizeLocationSnapshot(snaps[i], subjects[i]);
    }
  }

  /** The eight resize handles: corners and edge midpoints. */
  datatype Handle = LeftTop | LeftMiddle | LeftBottom | MiddleTop | MiddleBottom
                  | RightTop | RightMiddle | RightBottom

  /**
   * The box after dragging handle `h` by `diff`, from the box `prev`
   * captured at pointer-down; fields the handle does not touch keep their
   * current value `cur`.
   */
  function Resized(h: Handle, prev: Box, cur: Box, diff: Point): Box {
    match h
    case LeftTop => Box(prev.left + diff.x, prev.top + diff.y, prev.width - diff.x, prev.height - diff.y)
    case LeftMiddle => cur.(left := prev.left + diff.x, width := prev.width - diff.x)
    case LeftBottom => cur.(left := prev.left + diff.x, width := prev.width - diff.x, height := prev.height + diff.y)
    case MiddleTop => cur.(top := prev.top + diff.y, height := prev.height - diff.y)
    case MiddleBottom => cur.(height := prev.height + diff.y)
    case RightTop => cur.(top := prev.top + diff.y, width := prev.width + diff.x, height := prev.height - diff.y)
    case RightMiddle => cur.(width := prev.width + diff.x)
    case RightBottom => cur.(width := prev.width + diff.x, height := prev.height + diff.y)
  }

  /** Handles on the left edge move `left`; handles on the top edge move `top`. */
  predicate OnLeftEdge(h: Handle) { h == LeftTop || h == LeftMiddle || h == LeftBottom }
  predicate OnRightEdge(h: Handle) { h == RightTop || h == RightMiddle || h == RightBottom }
  predicate OnTopEdge(h: Handle) { h == LeftTop || h == MiddleTop || h == RightTop }
  predicate OnBottomEdge(h: Handle) { h == LeftBottom || h == MiddleBottom || h == RightBottom }

  /**
   * What each handle does to the box: a left-edge handle keeps the right
   * edge where it was at pointer-down, a top-edge handle keeps the bottom
   * edge, a right or bottom handle grows the size by the pointer delta and
   * leaves the origin alone, and a handle touches no field outside its edges.
   */
  lemma ResizedEdges(h: Handle, prev: Box, cur: Box, diff: Point)
    ensures var r := Resized(h, prev, cur, diff);
      (OnLeftEdge(h) ==> r.left + r.width == prev.left + prev.width && r.left == prev.left + diff.x) &&
      (OnTopEdge(h) ==> r.top + r.height == prev.top + prev.height && r.top == prev.top + diff.y) &&
      (OnRightEdge(h) ==> r.width == prev.width + diff.x) &&
      (OnBottomEdge(h) ==> r.height == prev.height + diff.y) &&
      (!OnLeftEdge(h) ==> r.left == cur.left) &&
      (!OnTopEdge(h) ==> r.top == cur.top) &&
      (!OnLeftEdge(h) && !OnRightEdge(h) ==> r.width == cur.width) &&
      (!OnTopEdge(h) && !OnBottomEdge(h) ==> r.height == cur.height)
  {
  }

  /**
   * The boxes the drag of handle `h` passes through, one per assignment
   * in the order resizeDecor writes them; the last is the handle's
   * transform of the box.
   */
  function HandleSteps(h: Handle, prev: Box, cur: Box, diff: Point): (r: seq<Box>)
    ensures |r| > 0 && r[|r| - 1] == Resized(h, prev, cur, diff)
  {
    match h
    case LeftTop =>
      var b1 := cur.(left := prev.left + diff.x);
      var b2 := b1.(top := prev.top + diff.y);
      var b3 := b2.(width := prev.width - diff.x);
      [b1, b2, b3, b3.(height := prev.height - diff.y)]
    case LeftMiddle =>
      var b1 := cur.(left := prev.left + diff.x);
      [b1, b1.(width := prev.width - diff.x)]
    case LeftBottom =>
      var b1 := cur.(left := prev.left + diff.x);
      var b2 := b1.(width := prev.width - diff.x);
      [b1, b2, b2.(height := prev.height + diff.y)]
    case MiddleTop =>
      var b1 := cur.(top := prev.top + diff.y);
      [b1, b1.(height := prev.height - diff.y)]
    case MiddleBottom =>
      [cur.(height := prev.height + diff.y)]
    case RightTop =>
      var b1 := cur.(top := prev.top + diff.y);
      var b2 := b1.(width := prev.width + diff.x);
      [b1, b2, b2.(height := prev.height - diff.y)]
    case RightMiddle =>
      [cur.(width := prev.width + diff.x)]
    case RightBottom =>
      var b1 := cur.(width := prev.width + diff.x);
      [b1, b1.(height := prev.height + diff.y)]
  }

  /**
   * The drag handler of handle `h` (resizeDecor): assigns the box fields
   * the handle owns, computed from the pointer-down snapshot `prevState`,
   * each through the toolkit's setter.
   */
  method DragHandle(h: Handle, subject: Delegate, prevState: Snapshot, diff: Point)
    modifies subject
    ensures subject.Bounds() == Resized(h, prevState.Bounds(), old(subject.Bounds()), diff)
    ensures subject.style ==
      Restyled(subject.restyle, old(subject.style), HandleSteps(h, prevState.Bounds(), old(subject.Bounds()), diff))
    ensures subject.props == old(subject.props)
  {
    match h {
      case LeftTop => DragLeftTop(subject, prevState, diff);
      case LeftMiddle => DragLeftMiddle(subject, prevState, diff);
      case LeftBottom => DragLeftBottom(subject, prevState, diff);
      case MiddleTop => DragMiddleTop(subject, prevState, diff);
      case MiddleBottom => DragMiddleBottom(subject, prevState, diff);
      case RightTop => DragRightTop(subject, prevState, diff);
      case RightMiddle => DragRightMiddle(subject, prevState, diff);
      case RightBottom => DragRightBottom(subject, prevState, diff);
    }
  }

  /** The drag handler of the left-top handle. */
  method DragLeftTop(subject: Delegate, prevState: Snapshot, diff: Point)
    modifies subject
    ensures subject.Bounds() == Resized(LeftTop, prevState.Bounds(), old(subject.Bounds()), diff)
    ensures subject.style ==
      Restyled(subject.restyle, old(subject.style), HandleSteps(LeftTop, prevState.Bounds(), old(subject.Bounds()), diff))
    ensures subject.props == old(subject.props)
  {
    ghost var w: seq<Box> := [];
    ghost var s0 := subject.style;
    w := subject.Write(subject.Bounds().(left := prevState.left + diff.x), s0, w);
    w := subject.Write(subject.Bounds().(top := prevState.top + diff.y), s0, w);
    w := subject.Write(subject.Bounds().(width := prevState.width - diff.x), s0, w);
    w := subject.Write(subject.Bounds().(height := prevState.height - diff.y), s0, w);
    assert w == [w[0], w[1], w[2], w[3]];
  }

  /** The drag handler of the left-middle handle. */
  method DragLeftMiddle(subject: Delegate, prevState: Snapshot, diff: Point)
    modifies subject
    ensures subject.Bounds() == Resized(LeftMiddle, prevState.Bounds(), old(subject.Bounds()), diff)
    ensures subject.style ==
      Restyled(subject.restyle, old(subject.style), HandleSteps(LeftMiddle, prevState.Bounds(), old(subject.Bounds()), diff))
    ensures subject.props == old(subject.props)
  {
    ghost var w: seq<Box> := [];
    ghost var s0 := subject.style;
    w := subject.Write(subject.Bounds().(left := prevState.left + diff.x), s0, w);
    w := subject.Write(subject.Bounds().(width := prevState.width - diff.x), s0, w);
    assert w == [w[0], w[1]];
  }

  /** The drag handler of the left-bottom handle. */
  method DragLeftBottom(subject: Delegate, prevState: Snapshot, diff: Point)
    modifies subject
    ensures subject.Bounds() == Resized(LeftBottom, prevState.Bounds(), old(subject.Bounds()), diff)
    ensures subject.style ==
      Restyled(subject.restyle, old(subject.style), HandleSteps(LeftBottom, prevState.Bounds(), old(subject.Bounds()), diff))
    ensures subject.props == old(subject.props)
  {
    ghost var w: seq<Box> := [];
    ghost var s0 := subject.style;
    w := subject.Write(subject.Bounds().(left := prevState.left + diff.x), s0, w);
    w := subject.Write(subject.Bounds().(width := prevState.width - diff.x), s0, w);
    w := subject.Write(subject.Bounds().(height := prevState.height + diff.y), s0, w);
    assert w == [w[0], w[1], w[2]];
  }

  /** The drag handler of the middle-top handle. */
  method DragMiddleTop(subject: Delegate, prevState: Snapshot, diff: Point)
    modifies subject
    ensures subject.Bounds() == Resized(MiddleTop, prevState.Bounds(), old(subject.Bounds()), diff)
    ensures subject.style ==
      Restyled(subject.restyle, old(subject.style), HandleSteps(MiddleTop, prevState.Bounds(), old(subject.Bounds()), diff))
    ensures subject.props == old(subject.props)
  {
    ghost var w: seq<Box> := [];
    ghost var s0 := subject.style;
    w := subject.Write(subject.Bounds().(top := prevState.top + diff.y), s0, w);
    w := subject.Write(subject.Bounds().(height := prevState.height - diff.y), s0, w);
    assert w == [w[0], w[1]];
  }

  /** The drag handler of the middle-bottom handle. */
  method DragMiddleBottom(subject: Delegate, prevState: Snapshot, diff: Point)
    modifies subject
    ensures subject.Bounds() == Resized(MiddleBottom, prevState.Bounds(), old(subject.Bounds()), diff)
    ensures subject.style ==
      Restyled(subject.restyle, old(subject.style), HandleSteps(MiddleBottom, prevState.Bounds(), old(subject.Bounds()), diff))
    ensures subject.props == old(subject.props)
  {
    ghost var w: seq<Box> := [];
    ghost var s0 := subject.style;
    w := subject.Write(subject.Bounds().(height := prevState.height + diff.y), s0, w);
    assert w == [w[0]];
  }

  /** The drag handler of the right-top handle. */
  method DragRightTop(subject: Delegate, prevState: Snapshot, diff: Point)
    modifies subject
    ensures subject.Bounds() == Resized(RightTop, prevState.Bounds(), old(subject.Bounds()), diff)
    ensures subject.style ==
      Restyled(subject.restyle, old(subject.style), HandleSteps(RightTop, prevState.Bounds(), old(subject.Bounds()), diff))
    ensures subject.props == old(subject.props)
  {
    ghost var w: seq<Box> := [];
    ghost var s0 := subject.style;
    w := subject.Write(subject.Bounds().(top := prevState.top + diff.y), s0, w);
    w := subject.Write(subject.Bounds().(width := prevState.width + diff.x), s0, w);
    w := subject.Write(subject.Bounds().(height := prevState.height - diff.y), s0, w);
    assert w == [w[0], w[1], w[2]];
  }

  /** The drag handler of the right-middle handle. */
  method DragRightMiddle(subject: Delegate, prevState: Snapshot, diff: Point)
    modifies subject
    ensures subject.Bounds() == Resized(RightMiddle, prevState.Bounds(), old(subject.Bounds()), diff)
    ensures subject.style ==
      Restyled(subject.restyle, old(subject.style), HandleSteps(RightMiddle, prevState.Bounds(), old(subject.Bounds()), diff))
    ensures subject.props == old(subject.props)
  {
    ghost var w: seq<Box> := [];
    ghost var s0 := subject.style;
    w := subject.Write(subject.Bounds().(width := prevState.width + diff.x), s0, w);
    assert w == [w[0]];
  }

  /** The drag handler of the right-bottom handle. */
  method DragRightBottom(subject: Delegate, prevState: Snapshot, diff: Point)
    modifies subject
    ensures subject.Bounds() == Resized(RightBottom, prevState.Bounds(), old(subject.Bounds()), diff)
    ensures subject.style ==
      Restyled(subject.restyle, old(subject.style), HandleSteps(RightBottom, prevState.Bounds(), old(subject.Bounds()), diff))
    ensures subject.props == old(subject.props)
  {
    ghost var w: seq<Box> := [];
    ghost var s0 := subject.style;
    w := subject.Write(subject.Bounds().(width := prevState.width + diff.x), s0, w);
    w := subject.Write(subject.Bounds().(height := prevState.height + diff.y), s0, w);
    assert w == [w[0], w[1]];
  }

  /** `Math.round(v / g)` for integers: the nearest integer, halves rounded up. */
  function Round(v: int, g: int): int
    requires g > 0
  {
    (2 * v + g) / (2 * g)
  }

  /** `Math.round(v / g) * g`: `v` snapped to the grid of pitch `g`. */
  function Snap(v: int, g: int): int
    requires g > 0
  {
    Round(v, g) * g
  }

  /** snapX / snapY: snap only when snapping is switched on. */
  function SnapIf(snap: bool, v: int, g: int): int
    requires g > 0
  {
    if snap then Snap(v, g) else v
  }

  lemma MulAtLeast(b: int, d: int)
    requires b > 0 && d >= 1
    ensures b * d >= b
  {
  }

  lemma DivIsUnique(a: int, b: int, q: int)
    requires b > 0 && b * q <= a < b * q + b
    ensures a / b == q
  {
    var r, m := a / b, a % b;
    assert a == b * r + m && 0 <= m < b;
    assert b * (q - r) <= m < b;
    assert b * (r - q) < b;
    if q - r >= 1 { MulAtLeast(b, q - r); assert false; }
    if r - q >= 1 { MulAtLeast(b, r - q); assert false; }
  }

  /** A snapped value lies on the grid and within half a pitch of the value. */
  lemma SnapIsNearestGridPoint(v: int, g: int)
    requires g > 0
    ensures Snap(v, g) % g == 0
    ensures -g < 2 * (Snap(v, g) - v) <= g
  {
    var q := Round(v, g);
    var r := (2 * v + g) % (2 * g);
    assert 2 * v + g == (2 * g) * q + r && 0 <= r < 2 * g;
    assert 2 * Snap(v, g) == (2 * g) * q;
    assert Snap(v, g) == g * q;
    assert (g * q) % g == 0 by { DivIsUnique(g * q, g, q); }
  }

  /** A value already on the grid is left where it is. */
  lemma SnapKeepsGridPoint(m: int, g: int)
    requires g > 0
    ensures Snap(m * g, g) == m * g
  {
    DivIsUnique(2 * (m * g) + g, 2 * g, m);
  }

  /** Snapping is idempotent. */
  lemma SnapIdempotent(v: int, g: int)
    requires g > 0
    ensures Snap(Snap(v, g), g) == Snap(v, g)
  {
    SnapKeepsGridPoint(Round(v, g), g);
  }

  /**
   * A drag of grid-aligned items by a grid-aligned delta lands exactly on
   * start + delta, with or without snapping.
   */
  lemma AlignedMoveIsExact(start: int, delta: int, g: int, snap: bool)
    requires g > 0 && start % g == 0 && delta % g == 0
    ensures SnapIf(snap, start + delta, g) == start + delta
  {
    var m := (start + delta) / g;
    assert start + delta == m * g by {
      assert start == (start / g) * g && delta == (delta / g) * g;
      assert start + delta == (start / g + delta / g) * g;
      DivIsUnique(start + delta, g, start / g + delta / g);
    }
    SnapKeepsGridPoint(m, g);
  }

  /**
   * A widget the pointer picked or that is selected, as startItemsMove
   * sees it: its node, its delegate, whether the delegate is attached to
   * the page and whether the delegate's parent is an anchors (free-form)
   * container. Both flags are the toolkit's, read when the gesture starts;
   * `inAnchors` stands for the editor's `ParentPane(s, node) == Some(AnchorsPane)`.
   */
  datatype Item = Item(node: nat, delegate: Delegate, attached: bool, inAnchors: bool)

  /** `{item, startSnapshot}`: an item taking part in a move gesture. */
  datatype Moving = Moving(item: Item, start: Snapshot)

  predicate Movable(i: Item) {
    i.attached && i.inAnchors
  }

  /**
   * `items.filter(attached && parent is Anchors).map(snapshot)`: one start
   * snapshot per movable item, in order.
   */
  function StartSnapshots(items: seq<Item>): (r: seq<Moving>)
    reads set i | i in items :: i.delegate
    ensures |r| <= |items|
    ensures forall k :: 0 <= k < |r| ==>
      r[k].item in items && Movable(r[k].item) && r[k].start == SizeLocationSnapshot(r[k].item.delegate)
  {
    if |items| == 0 then []
    else
      var rest := StartSnapshots(items[1..]);
      assert forall i :: i in items[1..] ==> i in items;
      if Movable(items[0]) then [Moving(items[0], SizeLocationSnapshot(items[0].delegate))] + rest
      else rest
  }

  /** The movable items of a selection, in order, filtered from the last one back. */
  function MovableItems(items: seq<Item>): (r: seq<Item>)
    ensures |r| <= |items| && forall x :: x in r ==> x in items && Movable(x)
    decreases |items|
  {
    if |items| == 0 then []
    else
      var init := items[..|items| - 1];
      MovableItems(init) + if Movable(items[|items| - 1]) then [items[|items| - 1]] else []
  }

  /** The filter seen from the front: the first item, if movable, then the movable rest. */
  lemma {:induction false} MovableItemsCons(items: seq<Item>)
    requires |items| > 0
    ensures MovableItems(items) == (if Movable(items[0]) then [items[0]] else []) + MovableItems(items[1..])
    decreases |items|
  {
    if |items| == 1 {
      assert items[..0] == [] && items[1..] == [];
    } else {
      MovableItemsCons(items[..|items| - 1]);
      MovableItemsConsStep(items);
    }
  }

  /** The step of `MovableItemsCons`: its statement for all but the last item gives it for all. */
  lemma MovableItemsConsStep(items: seq<Item>)
    requires |items| > 1
    requires var init := items[..|items| - 1];
      MovableItems(init) == (if Movable(init[0]) then [init[0]] else []) + MovableItems(init[1..])
    ensures MovableItems(items) == (if Movable(items[0]) then [items[0]] else []) + MovableItems(items[1..])
  {
    var last := items[|items| - 1];
    var tail := if Movable(last) then [last] else [];
    var init := items[..|items| - 1];
    assert init[0] == items[0];
    assert init[1..] == items[1..][..|items[1..]| - 1];
    assert items[1..][|items[1..]| - 1] == last;
    var head, mid := if Movable(items[0]) then [items[0]] else [], MovableItems(init[1..]);
    assert MovableItems(items[1..]) == mid + tail;
    assert MovableItems(items) == (head + mid) + tail;
    ConcatAssociates(head, mid, tail);
  }

  /** Concatenation associates. */
  lemma ConcatAssociates<T>(a: seq<T>, b: seq<T>, c: seq<T>)
    ensures (a + b) + c == a + (b + c)
  {
  }

  /** startItemsMove's snapshots are one per movable item of the selection, in order. */
  lemma {:induction false} StartSnapshotsMovable(items: seq<Item>)
    ensures |StartSnapshots(items)| == |MovableItems(items)|
    ensures forall k :: 0 <= k < |StartSnapshots(items)| ==>
      StartSnapshots(items)[k] == Moving(MovableItems(items)[k], SizeLocationSnapshot(MovableItems(items)[k].delegate))
    decreases |items|
  {
    if |items| > 0 {
      var r, rest := StartSnapshots(items), StartSnapshots(items[1..]);
      var m, mrest := MovableItems(items), MovableItems(items[1..]);
      MovableItemsCons(items);
      StartSnapshotsMovable(items[1..]);
      if Movable(items[0]) {
        var first := Moving(items[0], SizeLocationSnapshot(items[0].delegate));
        assert r == [first] + rest && m == [items[0]] + mrest;
        forall k | 1 <= k < |r|
          ensures r[k] == Moving(m[k], SizeLocationSnapshot(m[k].delegate))
        {
          assert r[k] == rest[k - 1];
          assert m[k] == mrest[k - 1];
        }
      } else {
        assert r == rest && m == mrest;
      }
    }
  }

  /** Every movable item of the selection takes part in the gesture. */
  lemma {:induction false} StartSnapshotsCover(items: seq<Item>, j: nat)
    requires j < |items| && Movable(items[j])
    ensures exists k :: 0 <= k < |StartSnapshots(items)| && StartSnapshots(items)[k].item == items[j]
  {
    var rest := StartSnapshots(items[1..]);
    var r := StartSnapshots(items);
    assert r == if Movable(items[0]) then [Moving(items[0], SizeLocationSnapshot(items[0].delegate))] + rest else rest;
    if j == 0 {
      assert r[0].item == items[0];
    } else {
      assert items[1..][j - 1] == items[j];
      StartSnapshotsCover(items[1..], j - 1);
      var k :| 0 <= k < |rest| && rest[k].item == items[j];
      if Movable(items[0]) {
        assert r[k + 1].item == items[j];
      } else {
        assert r[k].item == items[j];
      }
    }
  }

  /**
   * The explorer's `isSelected`: the selection holds the picked node's
   * wrapper, compared by identity, so by node and not by the flags.
   */
  predicate IsSelected(picked: Item, selected: seq<Item>) {
    exists i :: i in selected && i.node == picked.node
  }

  /**
   * startItemsMove: the gesture covers the whole selection when the
   * picked item is selected, otherwise the picked item alone.
   */
  function StartItemsMove(picked: Item, selected: seq<Item>): (r: seq<Moving>)
    reads picked.delegate, set i | i in selected :: i.delegate
    ensures IsSelected(picked, selected) ==> r == StartSnapshots(selected)
    ensures !IsSelected(picked, selected) ==>
      r == (if Movable(picked) then [Moving(picked, SizeLocationSnapshot(picked.delegate))] else [])
  {
    if IsSelected(picked, selected) then StartSnapshots(selected)
    else
      assert [picked][1..] == [];
      StartSnapshots([picked])
  }

  /** The delegates of a move gesture, in order. */
  function Subjects(items: seq<Moving>): (r: seq<Delegate>)
    ensures |r| == |items| && forall k :: 0 <= k < |r| ==> r[k] == items[k].item.delegate
  {
    seq(|items|, k requires 0 <= k < |items| => items[k].item.delegate)
  }

  /**
   * The box one item of proceedItemsMove leaves: left (top) becomes the
   * start left (top) plus the pointer delta, snapped when asked, on an
   * axis the pointer moved on; the rest of `cur` stays.
   */
  function ItemMoved(cur: Box, moved: Moving, diff: Point, snap: bool, grid: Point): Box
    requires grid.x > 0 && grid.y > 0
  {
    cur.(left := if diff.x != 0 then SnapIf(snap, moved.start.left + diff.x, grid.x) else cur.left,
         top := if diff.y != 0 then SnapIf(snap, moved.start.top + diff.y, grid.y) else cur.top)
  }

  /**
   * The boxes one item of proceedItemsMove passes through from `cur`: a
   * left write, then a top write, each only on an axis the pointer moved on.
   */
  function ItemSteps(cur: Box, moved: Moving, diff: Point, snap: bool, grid: Point): (r: seq<Box>)
    requires grid.x > 0 && grid.y > 0
    ensures |r| == (if diff.x != 0 then 1 else 0) + (if diff.y != 0 then 1 else 0)
    ensures (if |r| == 0 then cur else r[|r| - 1]) == ItemMoved(cur, moved, diff, snap, grid)
  {
    var horizontal := if diff.x != 0 then [cur.(left := SnapIf(snap, moved.start.left + diff.x, grid.x))] else [];
    var b := if diff.x != 0 then horizontal[0] else cur;
    horizontal + if diff.y != 0 then [b.(top := SnapIf(snap, moved.start.top + diff.y, grid.y))] else []
  }

  /** What proceedItemsMove changes of a delegate: its box and its anchors. */
  datatype Placement = Placement(box: Box, style: Anchors)

  function Placements(ds: seq<Delegate>): (r: seq<Placement>)
    reads set d | d in ds
    ensures |r| == |ds| && forall k :: 0 <= k < |ds| ==> r[k] == Placement(ds[k].Bounds(), ds[k].style)
  {
    if |ds| == 0 then [] else [Placement(ds[0].Bounds(), ds[0].style)] + Placements(ds[1..])
  }

  /**
   * One item's writes applied to placement `p`: the box `ItemMoved` gives
   * and the anchors the toolkit wrote along the way.
   */
  function Placed(p: Placement, restyle: (Anchors, Box) -> Anchors, moved: Moving, diff: Point, snap: bool, grid: Point): Placement
    requires grid.x > 0 && grid.y > 0
  {
    Placement(ItemMoved(p.box, moved, diff, snap, grid), Restyled(restyle, p.style, ItemSteps(p.box, moved, diff, snap, grid)))
  }

  /**
   * The placements after the first `n` items of proceedItemsMove, from
   * `ps`: the n-th item's writes reach every position holding the same
   * delegate.
   */
  function Proceeded(ps: seq<Placement>, items: seq<Moving>, n: nat, diff: Point, snap: bool, grid: Point): (r: seq<Placement>)
    requires |ps| == |items| && n <= |items| && grid.x > 0 && grid.y > 0
    ensures |r| == |items|
  {
    if n == 0 then ps else ProceedStep(Proceeded(ps, items, n - 1, diff, snap, grid), items, n - 1, diff, snap, grid)
  }

  /** The `i`-th item's writes reach every position holding its delegate. */
  function ProceedStep(prev: seq<Placement>, items: seq<Moving>, i: nat, diff: Point, snap: bool, grid: Point): (r: seq<Placement>)
    requires |prev| == |items| && i < |items| && grid.x > 0 && grid.y > 0
    ensures |r| == |items|
  {
    var d := items[i].item.delegate;
    var next := Placed(prev[i], d.restyle, items[i], diff, snap, grid);
    seq(|items|, j requires 0 <= j < |items| => if items[j].item.delegate == d then next else prev[j])
  }

  /** One item of proceedItemsMove, written through the box setters. */
  method MoveItem(items: seq<Moving>, i: nat, diff: Point, snap: bool, grid: Point)
    requires i < |items| && grid.x > 0 && grid.y > 0
    modifies items[i].item.delegate
    ensures var d := items[i].item.delegate;
      Placement(d.Bounds(), d.style) == Placed(Placement(old(d.Bounds()), old(d.style)), d.restyle, items[i], diff, snap, grid)
    ensures Placements(Subjects(items)) == ProceedStep(old(Placements(Subjects(items))), items, i, diff, snap, grid)
    ensures items[i].item.delegate.props == old(items[i].item.delegate.props)
  {
    ghost var prev := Placements(Subjects(items));
    var moved := items[i];
    var d := moved.item.delegate;
    ghost var w: seq<Box> := [];
    ghost var s0, b0 := d.style, d.Bounds();
    if diff.x != 0 {
      var left := moved.start.left + diff.x;
      w := d.Write(d.Bounds().(left := SnapIf(snap, left, grid.x)), s0, w);
    }
    if diff.y != 0 {
      var top := moved.start.top + diff.y;
      w := d.Write(d.Bounds().(top := SnapIf(snap, top, grid.y)), s0, w);
    }
    assert w == ItemSteps(b0, moved, diff, snap, grid);
    ghost var want := ProceedStep(prev, items, i, diff, snap, grid);
    forall j | 0 <= j < |items|
      ensures Placements(Subjects(items))[j] == want[j]
    {
      assert want[j] == if items[j].item.delegate == d then Placed(prev[i], d.restyle, moved, diff, snap, grid) else prev[j];
    }
  }

  /** Positions holding the same delegate hold the same placement. */
  predicate Coherent(ps: seq<Placement>, items: seq<Moving>)
    requires |ps| == |items|
  {
    forall j, k :: 0 <= j < |items| && 0 <= k < |items| && items[j].item.delegate == items[k].item.delegate ==> ps[j] == ps[k]
  }

  /** The placements read off the delegates are coherent, and every step keeps them so. */
  lemma {:induction false} ProceededCoherent(ps: seq<Placement>, items: seq<Moving>, n: nat, diff: Point, snap: bool, grid: Point)
    requires |ps| == |items| && n <= |items| && grid.x > 0 && grid.y > 0 && Coherent(ps, items)
    ensures Coherent(Proceeded(ps, items, n, diff, snap, grid), items)
  {
    if n > 0 {
      ProceededCoherent(ps, items, n - 1, diff, snap, grid);
    }
  }

  /** Placements read off the delegates agree wherever the delegate is the same. */
  lemma PlacementsCoherent(items: seq<Moving>)
    ensures Coherent(Placements(Subjects(items)), items)
  {
  }

  /** A delegate none of the first `n` items holds keeps its placement. */
  lemma {:induction false} ProceededUntouched(ps: seq<Placement>, items: seq<Moving>, n: nat, diff: Point, snap: bool, grid: Point, k: int)
    requires |ps| == |items| && n <= |items| && grid.x > 0 && grid.y > 0 && 0 <= k < |items|
    requires forall j :: 0 <= j < n ==> items[j].item.delegate != items[k].item.delegate
    ensures Proceeded(ps, items, n, diff, snap, grid)[k] == ps[k]
  {
    if n > 0 {
      ProceededUntouched(ps, items, n - 1, diff, snap, grid, k);
    }
  }

  /**
   * The last item holding a delegate decides its placement: what that
   * item's writes made of the placement before it.
   */
  lemma {:induction false} ProceededLast(ps: seq<Placement>, items: seq<Moving>, n: nat, diff: Point, snap: bool, grid: Point, k: int)
    requires |ps| == |items| && n <= |items| && grid.x > 0 && grid.y > 0 && 0 <= k < n
    requires forall j :: k < j < n ==> items[j].item.delegate != items[k].item.delegate
    ensures Proceeded(ps, items, n, diff, snap, grid)[k] ==
      Placed(Proceeded(ps, items, k, diff, snap, grid)[k], items[k].item.delegate.restyle, items[k], diff, snap, grid)
  {
    if n > k + 1 {
      ProceededLast(ps, items, n - 1, diff, snap, grid, k);
    }
  }

  /** Widths and heights never change, nor an axis the pointer did not move on. */
  lemma {:induction false} ProceededKeeps(ps: seq<Placement>, items: seq<Moving>, n: nat, diff: Point, snap: bool, grid: Point)
    requires |ps| == |items| && n <= |items| && grid.x > 0 && grid.y > 0 && Coherent(ps, items)
    ensures forall k :: 0 <= k < |items| ==>
      var b := Proceeded(ps, items, n, diff, snap, grid)[k].box;
      b.width == ps[k].box.width && b.height == ps[k].box.height &&
      (diff.x == 0 ==> b.left == ps[k].box.left) && (diff.y == 0 ==> b.top == ps[k].box.top)
  {
    if n > 0 {
      ProceededKeeps(ps, items, n - 1, diff, snap, grid);
      var prev := Proceeded(ps, items, n - 1, diff, snap, grid);
      var next := Placed(prev[n - 1], items[n - 1].item.delegate.restyle, items[n - 1], diff, snap, grid);
      var r := Proceeded(ps, items, n, diff, snap, grid);
      forall k | 0 <= k < |items|
        ensures r[k].box.width == ps[k].box.width && r[k].box.height == ps[k].box.height &&
          (diff.x == 0 ==> r[k].box.left == ps[k].box.left) && (diff.y == 0 ==> r[k].box.top == ps[k].box.top)
      {
        assert r[k] == if items[k].item.delegate == items[n - 1].item.delegate then next else prev[k];
      }
    }
  }

  /** The value proceedItemsMove gives the k-th item's left and top. */
  function MovedLeft(items: seq<Moving>, k: int, diff: Point, snap: bool, grid: Point): int
    requires 0 <= k < |items| && grid.x > 0
  {
    SnapIf(snap, items[k].start.left + diff.x, grid.x)
  }

  function MovedTop(items: seq<Moving>, k: int, diff: Point, snap: bool, grid: Point): int
    requires 0 <= k < |items| && grid.y > 0
  {
    SnapIf(snap, items[k].start.top + diff.y, grid.y)
  }

  /** No delegate occurs twice in a gesture. */
  predicate Distinct(subjects: seq<Delegate>)
  {
    forall j, k :: 0 <= j < k < |subjects| ==> subjects[j] != subjects[k]
  }

  /**
   * A moved axis of a delegate ends at the snapped start plus delta of the
   * last item holding it.
   */
  lemma ProceededMoved(ps: seq<Placement>, items: seq<Moving>, diff: Point, snap: bool, grid: Point, k: int)
    requires |ps| == |items| && grid.x > 0 && grid.y > 0 && 0 <= k < |items| && LastIn(Subjects(items), k)
    ensures var b := Proceeded(ps, items, |items|, diff, snap, grid)[k].box;
      (diff.x != 0 ==> b.left == MovedLeft(items, k, diff, snap, grid)) &&
      (diff.y != 0 ==> b.top == MovedTop(items, k, diff, snap, grid))
  {
    ProceededLast(ps, items, |items|, diff, snap, grid, k);
  }

  /** When no delegate occurs twice, each position holds exactly its own item's writes. */
  lemma ProceededDistinct(ps: seq<Placement>, items: seq<Moving>, diff: Point, snap: bool, grid: Point, k: int)
    requires |ps| == |items| && grid.x > 0 && grid.y > 0 && 0 <= k < |items| && Distinct(Subjects(items))
    ensures Proceeded(ps, items, |items|, diff, snap, grid)[k] ==
      Placed(ps[k], items[k].item.delegate.restyle, items[k], diff, snap, grid)
  {
    var subjects := Subjects(items);
    assert forall j :: k < j < |items| ==> subjects[k] != subjects[j];
    ProceededLast(ps, items, |items|, diff, snap, grid, k);
    assert forall j :: 0 <= j < k ==> subjects[j] != subjects[k];
    ProceededUntouched(ps, items, k, diff, snap, grid, k);
  }

  /**
   * proceedItemsMove: the items' writes applied in order, each through
   * the box setters: the delegates end as the fold `Proceeded` says,
   * whose meaning the lemmas above spell out.
   */
  method ProceedItemsMove(items: seq<Moving>, diff: Point, snap: bool, grid: Point)
    requires grid.x > 0 && grid.y > 0
    modifies set k | 0 <= k < |items| :: items[k].item.delegate
    ensures Placements(Subjects(items)) == Proceeded(old(Placements(Subjects(items))), items, |items|, diff, snap, grid)
    ensures forall k :: 0 <= k < |items| ==>
      items[k].item.delegate.props == old(items[k].item.delegate.props)
  {
    ghost var subjects := Subjects(items);
    ghost var p0 := Placements(subjects);
    for i := 0 to |items|
      invariant Placements(subjects) == Proceeded(p0, items, i, diff, snap, grid)
      invariant forall d :: d in subjects ==> d.props == old(d.props)
    {
      MoveItem(items, i, diff, snap, grid);
    }
  }
}
