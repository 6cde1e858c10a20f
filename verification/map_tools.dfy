/**
 * The selection tools of the study map: a move tool (the only one under which
 * the map pans and zooms), a rectangle tool and a freehand tool.  Releasing
 * the mouse with a selection tool zooms the map onto the bounding box of the
 * drawn shape.
 *
 * Shapes are looked up by element id (`rect#currentrect`, `path#currentfree`),
 * which picks the FIRST such element in the document; the model therefore
 * keeps every drawn shape that has not been removed yet, in document order.
 */
module MapTools {
  import opened Common

  datatype Tool = Move | Rect | Free

  datatype Point = Point(x: real, y: real)

  /** An SVG bounding box: top-left corner and size. */
  datatype BBox = BBox(x: real, y: real, width: real, height: real)

  /** The listeners bound on the tools layer for each event. */
  datatype DownHandler = NoDown | DownRect | DownFree
  datatype UpHandler = NoUp | UpRect | UpFree
  datatype MoveHandler = NoMove | MoveRect | MoveFree

  /**
   * A zoom transform `translate(tx, ty) scale(scale)`, or the transform with
   * an infinite scale that a box of zero width and height produces.
   */
  datatype Focus = Zoom(scale: real, tx: real, ty: real) | NonFinite

  /** The share of the view the box is zoomed to. */
  const Margin: real := 0.9

  function Min(a: real, b: real): real { if a <= b then a else b }
  function Max(a: real, b: real): real { if a >= b then a else b }
  function Abs(a: real): real { if a >= 0.0 then a else -a }

  /** The mousedown listener bound by each tool button. */
  function DownFor(t: Tool): DownHandler
  {
    match t
    case Move => NoDown
    case Rect => DownRect
    case Free => DownFree
  }

  /** The mouseup listener bound by each tool button. */
  function UpFor(t: Tool): UpHandler
  {
    match t
    case Move => NoUp
    case Rect => UpRect
    case Free => UpFree
  }

  predicate InBox(b: BBox, p: Point)
  {
    b.x <= p.x <= b.x + b.width && b.y <= p.y <= b.y + b.height
  }

  /** Box `b` contains box `r`. */
  predicate Contains(b: BBox, r: BBox)
  {
    b.x <= r.x && r.x + r.width <= b.x + b.width
    && b.y <= r.y && r.y + r.height <= b.y + b.height
  }

  /**
   * The rectangle drawn while dragging from `start` to `p`: the smallest box
   * holding both corners, with a non-negative size.
   */
  function RectFromDrag(start: Point, p: Point): (r: BBox)
    ensures r.width >= 0.0 && r.height >= 0.0
    ensures InBox(r, start) && InBox(r, p)
    ensures forall b :: InBox(b, start) && InBox(b, p) ==> Contains(b, r)
  {
    BBox(Min(p.x, start.x), Min(p.y, start.y), Abs(p.x - start.x), Abs(p.y - start.y))
  }

  function MinX(ps: seq<Point>): (m: real)
    requires ps != []
    ensures forall i :: 0 <= i < |ps| ==> m <= ps[i].x
    ensures exists i :: 0 <= i < |ps| && ps[i].x == m
  {
    if |ps| == 1 then ps[0].x
    else
      var m := MinX(ps[1..]);
      assert forall i :: 1 <= i < |ps| ==> ps[1..][i - 1] == ps[i];
      Min(ps[0].x, m)
  }

  function MaxX(ps: seq<Point>): (m: real)
    requires ps != []
    ensures forall i :: 0 <= i < |ps| ==> ps[i].x <= m
    ensures exists i :: 0 <= i < |ps| && ps[i].x == m
  {
    if |ps| == 1 then ps[0].x
    else
      var m := MaxX(ps[1..]);
      assert forall i :: 1 <= i < |ps| ==> ps[1..][i - 1] == ps[i];
      Max(ps[0].x, m)
  }

  function MinY(ps: seq<Point>): (m: real)
    requires ps != []
    ensures forall i :: 0 <= i < |ps| ==> m <= ps[i].y
    ensures exists i :: 0 <= i < |ps| && ps[i].y == m
  {
    if |ps| == 1 then ps[0].y
    else
      var m := MinY(ps[1..]);
      assert forall i :: 1 <= i < |ps| ==> ps[1..][i - 1] == ps[i];
      Min(ps[0].y, m)
  }

  function MaxY(ps: seq<Point>): (m: real)
    requires ps != []
    ensures forall i :: 0 <= i < |ps| ==> ps[i].y <= m
    ensures exists i :: 0 <= i < |ps| && ps[i].y == m
  {
    if |ps| == 1 then ps[0].y
    else
      var m := MaxY(ps[1..]);
      assert forall i :: 1 <= i < |ps| ==> ps[1..][i - 1] == ps[i];
      Max(ps[0].y, m)
  }

  /**
   * `getBBox()` of the closed polyline through `ps`: every vertex lies in the
   * box and every side of the box touches a vertex.
   */
  function PathBBox(ps: seq<Point>): (b: BBox)
    requires ps != []
    ensures b.width >= 0.0 && b.height >= 0.0
    ensures forall i :: 0 <= i < |ps| ==> InBox(b, ps[i])
    ensures exists i :: 0 <= i < |ps| && ps[i].x == b.x
    ensures exists i :: 0 <= i < |ps| && ps[i].x == b.x + b.width
    ensures exists i :: 0 <= i < |ps| && ps[i].y == b.y
    ensures exists i :: 0 <= i < |ps| && ps[i].y == b.y + b.height
  {
    var x0 := MinX(ps);
    var y0 := MinY(ps);
    var i :| 0 <= i < |ps| && ps[i].x == x0;
    var j :| 0 <= j < |ps| && ps[j].y == y0;
    BBox(x0, y0, MaxX(ps) - x0, MaxY(ps) - y0)
  }

  /**
   * `Math.min(0.9 * W / bw, 0.9 * H / bh)` with JavaScript's division: a
   * positive number over zero is +Infinity, which `min` ignores unless both
   * are infinite.  `None` stands for the infinite scale.
   */
  function ScaleFactor(viewWidth: real, viewHeight: real, b: BBox): (k: Option<real>)
    requires viewWidth > 0.0 && viewHeight > 0.0 && b.width >= 0.0 && b.height >= 0.0
  {
    if b.width == 0.0 && b.height == 0.0 then None
    else if b.width == 0.0 then Some(Margin * viewHeight / b.height)
    else if b.height == 0.0 then Some(Margin * viewWidth / b.width)
    else Some(Min(Margin * viewWidth / b.width, Margin * viewHeight / b.height))
  }

  /**
   * The view transform that fits box `b` into a `viewWidth` by `viewHeight`
   * view: the largest scale under which the box fits in 90% of the view,
   * with the box's centre moved to the view's centre.
   */
  function BBoxToView(viewWidth: real, viewHeight: real, b: BBox): (f: Focus)
    requires viewWidth > 0.0 && viewHeight > 0.0 && b.width >= 0.0 && b.height >= 0.0
    ensures f.NonFinite? <==> b.width == 0.0 && b.height == 0.0
    ensures f.Zoom? ==> f.scale > 0.0
    ensures f.Zoom? ==> f.scale * (b.x + b.width / 2.0) + f.tx == viewWidth / 2.0
    ensures f.Zoom? ==> f.scale * (b.y + b.height / 2.0) + f.ty == viewHeight / 2.0
    ensures f.Zoom? ==> f.scale * b.width <= Margin * viewWidth && f.scale * b.height <= Margin * viewHeight
    ensures f.Zoom? ==> f.scale * b.width == Margin * viewWidth || f.scale * b.height == Margin * viewHeight
  {
    match ScaleFactor(viewWidth, viewHeight, b)
    case None => NonFinite
    case Some(k) =>
      ScaleFits(viewWidth, viewHeight, b);
      Zoom(k, viewWidth / 2.0 - k * (b.x + b.width / 2.0), viewHeight / 2.0 - k * (b.y + b.height / 2.0))
  }

  /** The finite scale is positive, fits the box in 90% of the view and is the largest that does. */
  lemma ScaleFits(viewWidth: real, viewHeight: real, b: BBox)
    requires viewWidth > 0.0 && viewHeight > 0.0 && b.width >= 0.0 && b.height >= 0.0
    requires ScaleFactor(viewWidth, viewHeight, b).Some?
    ensures var k := ScaleFactor(viewWidth, viewHeight, b).value;
      k > 0.0
      && k * b.width <= Margin * viewWidth && k * b.height <= Margin * viewHeight
      && (k * b.width == Margin * viewWidth || k * b.height == Margin * viewHeight)
  {
    var k := ScaleFactor(viewWidth, viewHeight, b).value;
    var kw := Margin * viewWidth / (if b.width == 0.0 then 1.0 else b.width);
    var kh := Margin * viewHeight / (if b.height == 0.0 then 1.0 else b.height);
    if b.width > 0.0 {
      assert kw * b.width == Margin * viewWidth;
    }
    if b.height > 0.0 {
      assert kh * b.height == Margin * viewHeight;
    }
    if b.width > 0.0 && b.height > 0.0 {
      if kw <= kh {
        assert k == kw;
        MulMono(kw, kh, b.height);
      } else {
        assert k == kh;
        MulMono(kh, kw, b.width);
      }
    }
  }

  lemma MulMono(a: real, c: real, w: real)
    requires a <= c && w >= 0.0
    ensures a * w <= c * w
  {
  }

  /** A click without a drag (mousedown and mouseup at one point) asks for an infinite zoom. */
  lemma ClickWithoutDragIsNonFinite(viewWidth: real, viewHeight: real, p: Point)
    requires viewWidth > 0.0 && viewHeight > 0.0
    ensures BBoxToView(viewWidth, viewHeight, RectFromDrag(p, p)) == NonFinite
    ensures BBoxToView(viewWidth, viewHeight, PathBBox([p])) == NonFinite
  {
  }

  /** The tools of the map view and the state their listeners share. */
  class ToolController {
    /** `ctx.WIDTH` and `ctx.HEIGHT`. */
    const viewWidth: real
    const viewHeight: real

    var selectedTool: Tool
    /** The `aria-pressed` state of the move, rectangle and freehand buttons. */
    var movePressed: bool
    var rectPressed: bool
    var freePressed: bool

    var onDown: DownHandler
    var onUp: UpHandler
    var onMove: MoveHandler

    /** Where the current rectangle drag started; unset until the first one. */
    var startingPoint: Option<Point>
    /** The `rect#currentrect` elements in document order. */
    var rects: seq<BBox>
    /** The points of the freehand stroke being drawn. */
    var pathPoints: seq<Point>
    /** The vertices of the `path#currentfree` elements in document order. */
    var paths: seq<seq<Point>>
    /** The last view transform the map was asked to move to. */
    var focus: Option<Focus>

    ghost predicate Valid()
      reads this
    {
      viewWidth > 0.0 && viewHeight > 0.0
      && onDown == DownFor(selectedTool) && onUp == UpFor(selectedTool)
      && (onMove == MoveRect ==> rects != [] && startingPoint.Some?)
      && (onMove == MoveFree ==> paths != [])
      && (forall i :: 0 <= i < |rects| ==> rects[i].width >= 0.0 && rects[i].height >= 0.0)
      && (forall i :: 0 <= i < |paths| ==> paths[i] != [])
    }

    /**
     * The state after the view is created and the tools are set up: the move
     * tool is selected, no listener is bound yet and nothing is drawn.  The
     * buttons keep the `aria-pressed` state of the page markup.
     */
    constructor(width: real, height: real, move0: bool, rect0: bool, free0: bool)
      requires width > 0.0 && height > 0.0
      ensures Valid()
      ensures viewWidth == width && viewHeight == height
      ensures selectedTool == Move
      ensures movePressed == move0 && rectPressed == rect0 && freePressed == free0
      ensures onDown == NoDown && onUp == NoUp && onMove == NoMove
      ensures startingPoint == None && rects == [] && pathPoints == [] && paths == [] && focus == None
    {
      viewWidth := width;
      viewHeight := height;
      selectedTool := Move;
      movePressed, rectPressed, freePressed := move0, rect0, free0;
      onDown, onUp, onMove := NoDown, NoUp, NoMove;
      startingPoint := None;
      rects := [];
      pathPoints := [];
      paths := [];
      focus := None;
    }

    /** The zoom behaviour's filter: gestures pan and zoom the map only under the move tool. */
    predicate ZoomAccepts()
      reads this
    {
      selectedTool == Move
    }

    /**
     * A click on a tool button: the tool is selected, exactly its button is
     * pressed, and its mousedown/mouseup listeners replace the previous ones.
     * The mousemove listener is left as it is.
     */
    method SelectTool(t: Tool)
      requires Valid()
      modifies this
      ensures Valid()
      ensures selectedTool == t
      ensures movePressed == (t == Move) && rectPressed == (t == Rect) && freePressed == (t == Free)
      ensures ZoomAccepts() <==> t == Move
      ensures onDown == DownFor(t) && onUp == UpFor(t) && onMove == old(onMove)
      ensures startingPoint == old(startingPoint) && rects == old(rects)
      ensures pathPoints == old(pathPoints) && paths == old(paths) && focus == old(focus)
    {
      selectedTool := t;
      movePressed := t == Move;
      rectPressed := t == Rect;
      freePressed := t == Free;
      onDown, onUp := DownFor(t), UpFor(t);
    }

    /**
     * A mousedown at `p`: the rectangle tool starts an empty rectangle at `p`,
     * the freehand tool restarts the stroke with the single point `p`; both
     * then follow the mouse.
     */
    method MouseDown(p: Point)
      requires Valid()
      modifies this
      ensures Valid()
      ensures selectedTool == old(selectedTool) && onDown == old(onDown) && onUp == old(onUp)
      ensures movePressed == old(movePressed) && rectPressed == old(rectPressed)
      ensures freePressed == old(freePressed) && focus == old(focus)
      ensures old(onDown) == NoDown ==>
        onMove == old(onMove) && startingPoint == old(startingPoint) && rects == old(rects)
        && pathPoints == old(pathPoints) && paths == old(paths)
      ensures old(onDown) == DownRect ==>
        onMove == MoveRect && startingPoint == Some(p) && rects == old(rects) + [BBox(p.x, p.y, 0.0, 0.0)]
        && pathPoints == old(pathPoints) && paths == old(paths)
      ensures old(onDown) == DownFree ==>
        onMove == MoveFree && pathPoints == [p] && paths == old(paths) + [[p]]
        && startingPoint == old(startingPoint) && rects == old(rects)
    {
      match onDown {
        case NoDown =>
        case DownRect =>
          startingPoint := Some(p);
          rects := rects + [BBox(p.x, p.y, 0.0, 0.0)];
          onMove := MoveRect;
        case DownFree =>
          pathPoints := [p];
          paths := paths + [[p]];
          onMove := MoveFree;
      }
    }

    /**
     * A mousemove to `p`: the rectangle being dragged (the last one drawn)
     * becomes the box spanning the start point and `p`; the freehand stroke
     * gains `p` at its end and the first freehand path is redrawn with it.
     */
    method MouseMove(p: Point)
      requires Valid()
      modifies this
      ensures Valid()
      ensures selectedTool == old(selectedTool) && onDown == old(onDown) && onUp == old(onUp)
      ensures onMove == old(onMove) && startingPoint == old(startingPoint)
      ensures movePressed == old(movePressed) && rectPressed == old(rectPressed)
      ensures freePressed == old(freePressed) && focus == old(focus)
      ensures old(onMove) == NoMove ==>
        rects == old(rects) && pathPoints == old(pathPoints) && paths == old(paths)
      ensures old(onMove) == MoveRect ==>
        |rects| == |old(rects)| && rects[..|rects| - 1] == old(rects)[..|rects| - 1]
        && rects[|rects| - 1] == RectFromDrag(startingPoint.value, p)
        && pathPoints == old(pathPoints) && paths == old(paths)
      ensures old(onMove) == MoveFree ==>
        pathPoints == old(pathPoints) + [p]
        && |paths| == |old(paths)| && paths[0] == pathPoints && paths[1..] == old(paths)[1..]
        && rects == old(rects)
    {
      match onMove {
        case NoMove =>
        case MoveRect =>
          rects := rects[|rects| - 1 := RectFromDrag(startingPoint.value, p)];
        case MoveFree =>
          pathPoints := pathPoints + [p];
          paths := paths[0 := pathPoints];
      }
    }

    /**
     * A mouseup: the selection tools stop following the mouse and zoom the
     * map onto the first shape of their kind, which is then removed.  With
     * no such shape the listener fails right after unbinding mousemove.
     */
    method MouseUp()
      requires Valid()
      modifies this
      ensures Valid()
      ensures selectedTool == old(selectedTool) && onDown == old(onDown) && onUp == old(onUp)
      ensures startingPoint == old(startingPoint) && pathPoints == old(pathPoints)
      ensures movePressed == old(movePressed) && rectPressed == old(rectPressed)
      ensures freePressed == old(freePressed)
      ensures old(onUp) == NoUp ==>
        onMove == old(onMove) && rects == old(rects) && paths == old(paths) && focus == old(focus)
      ensures old(onUp) != NoUp ==> onMove == NoMove
      ensures old(onUp) == UpRect ==> paths == old(paths)
      ensures old(onUp) == UpRect && old(rects) == [] ==> rects == [] && focus == old(focus)
      ensures old(onUp) == UpRect && old(rects) != [] ==>
        focus == Some(BBoxToView(viewWidth, viewHeight, old(rects)[0])) && rects == old(rects)[1..]
      ensures old(onUp) == UpFree ==> rects == old(rects)
      ensures old(onUp) == UpFree && old(paths) == [] ==> paths == [] && focus == old(focus)
      ensures old(onUp) == UpFree && old(paths) != [] ==>
        focus == Some(BBoxToView(viewWidth, viewHeight, PathBBox(old(paths)[0])))
        && paths == old(paths)[1..]
    {
      match onUp {
        case NoUp =>
        case UpRect =>
          onMove := NoMove;
          if rects != [] {
            focus := Some(BBoxToView(viewWidth, viewHeight, rects[0]));
            rects := rects[1..];
          }
        case UpFree =>
          onMove := NoMove;
          if paths != [] {
            focus := Some(BBoxToView(viewWidth, viewHeight, PathBBox(paths[0])));
            paths := paths[1..];
          }
      }
    }
  }
}
