/** The free-drag positioning of one floating list panel (`TaskBox`,
    static/app.js:51-102): a position, a drag offset and a dragging flag,
    changed by pointer-down, pointer-move and pointer-up. Coordinates are
    client pixels, taken here as integers. */
module PanelDrag {

  datatype Point = Point(x: int, y: int) {
    function Plus(d: Point): Point { Point(x + d.x, y + d.y) }
    function Minus(d: Point): Point { Point(x - d.x, y - d.y) }
  }

  /** `position` is the panel's state; `dragging` and `offset` are the
      `isDragging` and `dragOffset` refs. */
  datatype DragState = DragState(dragging: bool, offset: Point, position: Point)

  /** A freshly mounted panel: at (350, 300), not dragging, zero offset. */
  const Mounted: DragState := DragState(false, Point(0, 0), Point(350, 300))

  /** Pointer-downs on these element tags never start a drag. */
  predicate IsControlTag(tagName: string) {
    tagName == "INPUT" || tagName == "BUTTON"
  }

  /** `startDrag`: a pointer-down at `pointer` on an element with tag
      `tagName`. Outside inputs and buttons it enters dragging mode and
      remembers where on the panel the pointer grabbed it. */
  function StartDrag(s: DragState, tagName: string, pointer: Point): (r: DragState)
    ensures IsControlTag(tagName) ==> r == s
    ensures !IsControlTag(tagName) ==>
              r.dragging && r.position == s.position && r.position.Plus(r.offset) == pointer
  {
    if IsControlTag(tagName) then s
    else s.(dragging := true, offset := pointer.Minus(s.position))
  }

  /** `onDrag`: a pointer-move to `pointer`. While dragging, the panel moves
      so that the grabbed point sits under the pointer again; there is no
      clamping to the viewport. */
  function OnDrag(s: DragState, pointer: Point): (r: DragState)
    ensures !s.dragging ==> r == s
    ensures s.dragging ==>
              r.dragging && r.offset == s.offset && r.position.Plus(s.offset) == pointer
  {
    if !s.dragging then s
    else s.(position := pointer.Minus(s.offset))
  }

  /** `endDrag`: a pointer-up leaves dragging mode where the panel is. */
  function EndDrag(s: DragState): (r: DragState)
    ensures !r.dragging && r.position == s.position && r.offset == s.offset
  {
    s.(dragging := false)
  }

  /** A run of pointer-moves, in order. */
  function OnDragAll(s: DragState, pointers: seq<Point>): DragState
    decreases |pointers|
  {
    if pointers == [] then s else OnDragAll(OnDrag(s, pointers[0]), pointers[1..])
  }

  /** While dragging, a run of moves keeps the offset and leaves the panel
      under the last pointer. */
  lemma {:induction false} MovesWhileDragging(s: DragState, pointers: seq<Point>)
    requires s.dragging && pointers != []
    ensures var r := OnDragAll(s, pointers);
      r.dragging && r.offset == s.offset && r.position == pointers[|pointers| - 1].Minus(s.offset)
    decreases |pointers|
  {
    var next := OnDrag(s, pointers[0]);
    if |pointers| > 1 {
      MovesWhileDragging(next, pointers[1..]);
      assert pointers[1..][|pointers| - 2] == pointers[|pointers| - 1];
    }
  }

  /** When not dragging, pointer-moves do nothing at all. */
  lemma {:induction false} MovesWhileIdle(s: DragState, pointers: seq<Point>)
    requires !s.dragging
    ensures OnDragAll(s, pointers) == s
    decreases |pointers|
  {
    if pointers != [] {
      MovesWhileIdle(s, pointers[1..]);
    }
  }

  /** Dragging is pure translation: grabbing the panel at `start` and moving
      the pointer through `pointers` shifts the panel by exactly the
      pointer's total displacement, with no lower or upper bound. */
  lemma DragTranslates(s: DragState, tagName: string, start: Point, pointers: seq<Point>)
    requires !IsControlTag(tagName) && pointers != []
    ensures OnDragAll(StartDrag(s, tagName, start), pointers).position
         == s.position.Plus(pointers[|pointers| - 1].Minus(start))
  {
    MovesWhileDragging(StartDrag(s, tagName, start), pointers);
  }

  /** After a pointer-up, later moves leave the panel where it was dropped. */
  lemma MovesAfterEnd(s: DragState, pointers: seq<Point>)
    ensures OnDragAll(EndDrag(s), pointers) == EndDrag(s)
    ensures OnDragAll(EndDrag(s), pointers).position == s.position
  {
    MovesWhileIdle(EndDrag(s), pointers);
  }

  /** A pointer-down on the title input or the remove button neither starts
      a drag nor lets later moves shift an idle panel. */
  lemma ControlDoesNotStartDrag(s: DragState, tagName: string, start: Point, pointers: seq<Point>)
    requires IsControlTag(tagName) && !s.dragging
    ensures OnDragAll(StartDrag(s, tagName, start), pointers) == s
  {
    MovesWhileIdle(s, pointers);
  }

  /** The panel can be dragged past the top-left corner of the viewport:
      grabbing a mounted panel 10 px inside its corner and moving the
      pointer to (0, 0) puts it at (-10, -10). */
  lemma NoClamping()
    ensures OnDrag(StartDrag(Mounted, "DIV", Point(360, 310)), Point(0, 0)).position
         == Point(-10, -10)
  {
  }
}
