/**
 * mouseDrag: the per-element pointer gesture. A primary-button press
 * records where the pointer went down and the state `onBegin` returned,
 * and registers document-wide move and up listeners; every move and the
 * final up deliver that state together with `current - down`; the up also
 * releases both listeners. The callbacks are not modelled: what `onBegin`
 * returns is a parameter of MouseDown, and MouseMove / MouseUp return what
 * `onChange` / `onEnd` would be handed.
 */
module Gesture {
  import opened Wrappers
  import opened Geometry

  class MouseDrag<S> {
    var mouseDownAt: Option<Point>
    var prevState: Option<S>
    /** Whether the document-level mouse-up / mouse-move listeners are registered. */
    var onMouseUp: bool
    var onMouseMove: bool

    ghost predicate Valid()
      reads this
    {
      onMouseUp == onMouseMove &&
      (onMouseUp ==> mouseDownAt.Some? && prevState.Some?)
    }

    predicate Dragging()
      reads this
    {
      onMouseUp
    }

    constructor ()
      ensures Valid() && !Dragging() && mouseDownAt == None && prevState == None
    {
      mouseDownAt := None;
      prevState := None;
      onMouseUp := false;
      onMouseMove := false;
    }

    /** The mousedown handler; `begun` is what `onBegin(event)` returned. */
    method MouseDown(button: int, client: Point, begun: S)
      requires Valid()
      modifies this
      ensures Valid()
      ensures button == 0 ==> Dragging() && mouseDownAt == Some(client) && prevState == Some(begun)
      ensures button != 0 ==> unchanged(this)
    {
      if button == 0 {
        mouseDownAt := Some(client);
        prevState := Some(begun);
        if !onMouseUp {
          onMouseUp := true;
        }
        if !onMouseMove {
          onMouseMove := true;
        }
      }
    }

    /**
     * A document mousemove: while dragging, `onChange` receives the
     * pointer-down state and `client - mouseDownAt`; otherwise nothing.
     */
    method MouseMove(client: Point) returns (delivered: Option<(S, Point)>)
      requires Valid()
      ensures delivered.Some? <==> Dragging()
      ensures Dragging() ==> delivered == Some((prevState.value,
                Point(client.x - mouseDownAt.value.x, client.y - mouseDownAt.value.y)))
    {
      if onMouseMove {
        var down := mouseDownAt.value;
        delivered := Some((prevState.value, Point(client.x - down.x, client.y - down.y)));
      } else {
        delivered := None;
      }
    }

    /**
     * A document mouseup: while dragging, releases both listeners and
     * `onEnd` receives the pointer-down state and the final difference.
     */
    method MouseUp(client: Point) returns (delivered: Option<(S, Point)>)
      requires Valid()
      modifies this
      ensures Valid() && !Dragging()
      ensures !old(Dragging()) ==> delivered == None && unchanged(this)
      ensures old(Dragging()) ==> delivered == Some((old(prevState).value,
                Point(client.x - old(mouseDownAt).value.x, client.y - old(mouseDownAt).value.y)))
      ensures mouseDownAt == old(mouseDownAt) && prevState == old(prevState)
    {
      if onMouseUp {
        var down := mouseDownAt.value;
        onMouseUp := false;
        if onMouseMove {
          onMouseMove := false;
        }
        delivered := Some((prevState.value, Point(client.x - down.x, client.y - down.y)));
      } else {
        delivered := None;
      }
    }
  }

  /**
   * A whole resize gesture on handle `h`: press (snapshot taken by
   * onBegin), one drag, release. The drag writes the handle's transform of
   * the pointer-down box through the setters, and the release hands back
   * that same snapshot and the final difference.
   */
  method ResizeGesture(g: MouseDrag<Snapshot>, h: Handle, subject: Delegate, down: Point, to: Point)
      returns (ended: Option<(Snapshot, Point)>)
    requires g.Valid() && !g.Dragging()
    modifies g, subject
    ensures g.Valid() && !g.Dragging()
    ensures subject.Bounds() == Resized(h, old(subject.Bounds()), old(subject.Bounds()), Point(to.x - down.x, to.y - down.y))
    ensures subject.style == Restyled(subject.restyle, old(subject.style),
      HandleSteps(h, old(subject.Bounds()), old(subject.Bounds()), Point(to.x - down.x, to.y - down.y)))
    ensures ended == Some((old(SizeLocationSnapshot(subject)), Point(to.x - down.x, to.y - down.y)))
  {
    g.MouseDown(0, down, SizeLocationSnapshot(subject));
    var moved := g.MouseMove(to);
    DragHandle(h, subject, moved.value.0, moved.value.1);
    ended := g.MouseUp(to);
  }
}
