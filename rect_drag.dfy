/** How a press inside a rectangle annotation is read as a drag intent
    (corner resize, edge resize or whole-rectangle move), and how the rectangle
    is recomputed while the pointer moves. */
module RectDrag {
  import opened Shapes

  /** The `type` names of the click table: the nine cells of a 3 x 3 grid. */
  datatype Handle = TopLeft | Top | TopRight | Left | Whole | Right | BottomLeft | Bottom | BottomRight

  /** The `move` names of the click table: 'corner', 'edge' and 'rect'. */
  datatype Move = Corner | Edge | WholeRect

  datatype ClickType = ClickType(handle: Handle, move: Move)

  /** The table in row-major order: entry 3 * row + col. */
  const RectangleClickTypes: seq<ClickType> := [
    ClickType(TopLeft, Corner), ClickType(Top, Edge), ClickType(TopRight, Corner),
    ClickType(Left, Edge), ClickType(Whole, WholeRect), ClickType(Right, Edge),
    ClickType(BottomLeft, Corner), ClickType(Bottom, Edge), ClickType(BottomRight, Corner)
  ]

  /** Width of the corner and edge bands, as a fraction of the side. */
  const ClickTypePct: real := 0.2

  /** What a drag remembers from its first press: the click type, the press
      point, the rectangle as it was, and the annotation's index. */
  datatype ClickData = ClickData(dragType: ClickType, initClick: Point, initAnnotation: Rect, index: int)

  /** The grid row a handle's name denotes: Top.. is 0, Bottom.. is 2. */
  function HandleRow(h: Handle): int {
    match h
    case TopLeft | Top | TopRight => 0
    case Left | Whole | Right => 1
    case BottomLeft | Bottom | BottomRight => 2
  }

  /** The grid column a handle's name denotes: ..Left is 0, ..Right is 2. */
  function HandleCol(h: Handle): int {
    match h
    case TopLeft | Left | BottomLeft => 0
    case Top | Whole | Bottom => 1
    case TopRight | Right | BottomRight => 2
  }

  /** The handles that name a corner of the rectangle. */
  predicate IsCornerHandle(h: Handle) {
    h == TopLeft || h == TopRight || h == BottomLeft || h == BottomRight
  }

  /** The corner of r that a corner handle names. */
  function NamedCorner(r: Rect, h: Handle): Point
    requires IsCornerHandle(h)
  {
    Point(if HandleCol(h) == 0 then r.x else r.x + r.width,
          if HandleRow(h) == 0 then r.y else r.y + r.height)
  }

  /** The corner handle diagonally across from h. */
  function OppositeHandle(h: Handle): Handle
    requires IsCornerHandle(h)
  {
    match h
    case TopLeft => BottomRight
    case TopRight => BottomLeft
    case BottomLeft => TopRight
    case BottomRight => TopLeft
  }

  /** Position of v along a side that starts at origin and has the given extent, as a fraction. */
  function Fraction(v: real, origin: real, extent: real): real
    requires extent != 0.0
  {
    (v - origin) / extent
  }

  /** 0 below the low band's edge, 2 beyond the high band's edge, 1 otherwise. */
  function Band(d: real): int {
    if d < ClickTypePct then 0 else if d > 1.0 - ClickTypePct then 2 else 1
  }

  /** Classify a press at `click` inside `rect`: the column and row of the 3 x 3
      grid cell (20% bands at each side) select the table entry. */
  function MapClickToClickType(click: Point, rect: Rect): (ct: ClickType)
    requires rect.width != 0.0 && rect.height != 0.0
    ensures ct in RectangleClickTypes
    ensures var dx := Fraction(click.x, rect.x, rect.width);
            && (HandleCol(ct.handle) == 0 <==> dx < 0.2)
            && (HandleCol(ct.handle) == 2 <==> 0.8 < dx)
            && (HandleCol(ct.handle) == 1 <==> 0.2 <= dx <= 0.8)
    ensures var dy := Fraction(click.y, rect.y, rect.height);
            && (HandleRow(ct.handle) == 0 <==> dy < 0.2)
            && (HandleRow(ct.handle) == 2 <==> 0.8 < dy)
            && (HandleRow(ct.handle) == 1 <==> 0.2 <= dy <= 0.8)
    ensures ct.move == WholeRect <==> HandleRow(ct.handle) == 1 && HandleCol(ct.handle) == 1
    ensures ct.move == Edge <==> (HandleRow(ct.handle) == 1) != (HandleCol(ct.handle) == 1)
    ensures ct.move == Corner <==> HandleRow(ct.handle) != 1 && HandleCol(ct.handle) != 1
    ensures Fraction(click.x, rect.x, rect.width) < 0.2 && Fraction(click.y, rect.y, rect.height) < 0.2
            ==> ct.handle == TopLeft
    ensures Fraction(click.x, rect.x, rect.width) > 0.8 && Fraction(click.y, rect.y, rect.height) > 0.8
            ==> ct.handle == BottomRight
  {
    var col := Band(Fraction(click.x, rect.x, rect.width));
    var row := Band(Fraction(click.y, rect.y, rect.height));
    RectangleClickTypes[3 * row + col]
  }

  /** The rectangle spanned by two opposite corners (cx, cy) and (ox, oy). */
  function MakeRectFromOppositeCorners(cx: real, cy: real, ox: real, oy: real): (r: Rect)
    ensures r.width >= 0.0 && r.height >= 0.0
    ensures IsCorner(r, Point(cx, cy)) && IsCorner(r, Point(ox, oy))
    ensures r.x == Min(cx, ox) && r.x + r.width == Max(cx, ox)
    ensures r.y == Min(cy, oy) && r.y + r.height == Max(cy, oy)
  {
    Rect(Min(ox, cx), Min(oy, cy), Abs(ox - cx), Abs(oy - cy))
  }

  /** Swapping the two corners gives the same rectangle. */
  lemma OppositeCornersSymmetric(cx: real, cy: real, ox: real, oy: real)
    ensures MakeRectFromOppositeCorners(cx, cy, ox, oy) == MakeRectFromOppositeCorners(ox, oy, cx, cy)
  {
  }

  /** The rectangle while the pointer is at `click`, for a drag that began as `data` records. */
  function UpdatedAnnotation(click: Point, data: ClickData): (r: Rect)
    ensures data.dragType.move == Corner ==> r.width >= 0.0 && r.height >= 0.0
  {
    var ix, iy := data.initClick.x, data.initClick.y;
    var rx, ry, width, height := data.initAnnotation.x, data.initAnnotation.y,
                                 data.initAnnotation.width, data.initAnnotation.height;
    match data.dragType.move
    case WholeRect =>
      Rect(click.x + (rx - ix), click.y + (ry - iy), width, height)
    case Corner =>
      var corners: (real, real, real, real) :=
        match data.dragType.handle
        case TopLeft => (rx, ry, rx + width, ry + height)
        case TopRight => (rx + width, ry, rx, ry + height)
        case BottomLeft => (rx, ry + height, rx + width, ry)
        case BottomRight => (rx + width, ry + height, rx, ry)
        case _ => (0.0, 0.0, 0.0, 0.0);
      var (cx, cy, ox, oy) := corners;
      MakeRectFromOppositeCorners(click.x + (cx - ix), click.y + (cy - iy), ox, oy)
    case Edge =>
      if data.dragType.handle == Left then
        var nx := click.x + (rx - ix);
        Rect(nx, ry, rx + width - nx, height)
      else if data.dragType.handle == Right then
        var nx := click.x + (rx + width - ix);
        Rect(rx, ry, nx - rx, height)
      else if data.dragType.handle == Top then
        var ny := click.y + (ry - iy);
        Rect(rx, ny, width, ry + height - ny)
      else
        var ny := click.y + (ry + height - iy);
        Rect(rx, ry, width, ny - ry)
  }

  /** A whole-rectangle move keeps the size and translates by the pointer's displacement. */
  lemma RectDragTranslates(click: Point, data: ClickData)
    requires data.dragType.move == WholeRect
    ensures var r := UpdatedAnnotation(click, data);
            && r.width == data.initAnnotation.width && r.height == data.initAnnotation.height
            && r.x == data.initAnnotation.x + (click.x - data.initClick.x)
            && r.y == data.initAnnotation.y + (click.y - data.initClick.y)
  {
  }

  /** A corner resize keeps the opposite corner as a corner of the result, and
      the grabbed corner, moved by the pointer's displacement, is the other one. */
  lemma CornerDragKeepsOppositeCorner(click: Point, data: ClickData)
    requires data.dragType.move == Corner && IsCornerHandle(data.dragType.handle)
    ensures var r := UpdatedAnnotation(click, data);
            && r.width >= 0.0 && r.height >= 0.0
            && IsCorner(r, NamedCorner(data.initAnnotation, OppositeHandle(data.dragType.handle)))
            && var c := NamedCorner(data.initAnnotation, data.dragType.handle);
               IsCorner(r, Point(c.x + (click.x - data.initClick.x), c.y + (click.y - data.initClick.y)))
  {
  }

  /** An edge resize moves only the grabbed side, by the pointer's displacement along it. */
  lemma EdgeDragMovesOneSide(click: Point, data: ClickData)
    requires data.dragType.move == Edge
    ensures var r, a, dx, dy := UpdatedAnnotation(click, data), data.initAnnotation,
                                click.x - data.initClick.x, click.y - data.initClick.y;
            match data.dragType.handle
            case Left =>
              r.x + r.width == a.x + a.width && r.y == a.y && r.height == a.height && r.x == a.x + dx
            case Right =>
              r.x == a.x && r.y == a.y && r.height == a.height && r.x + r.width == a.x + a.width + dx
            case Top =>
              r.y + r.height == a.y + a.height && r.x == a.x && r.width == a.width && r.y == a.y + dy
            case _ =>
              r.y == a.y && r.x == a.x && r.width == a.width && r.y + r.height == a.y + a.height + dy
  {
  }

  /** With no pointer movement, every table drag of a rectangle of non-negative
      size returns that rectangle unchanged. */
  lemma StillPointerKeepsRect(data: ClickData)
    requires data.dragType in RectangleClickTypes
    requires data.initAnnotation.width >= 0.0 && data.initAnnotation.height >= 0.0
    ensures UpdatedAnnotation(data.initClick, data) == data.initAnnotation
  {
  }
}
