/** The display's rules: the picture's placement box in the viewBox, which colour
    covers a path of an SVG graphic, and how an annotation is drawn. */
module GraphicDisplay {
  import opened Shapes
  import ServerCoords

  /** `{ h, w, x, y }`: the picture's placement box, in whole viewBox units. */
  datatype Placement = Placement(h: int, w: int, x: int, y: int)

  /** `getAdjustedPlacement`: a portrait picture fills the height, any other the
      width; the other side is scaled, rounded down and centred. */
  function GetAdjustedPlacement(imageWidth: real, imageHeight: real): (p: Placement)
    requires imageWidth > 0.0 && imageHeight > 0.0
    ensures imageHeight > imageWidth ==> p.h == 100 && p.y == 0
    ensures imageHeight <= imageWidth ==> p.w == 100 && p.x == 0
    ensures 0 <= p.w <= 100 && 0 <= p.h <= 100
    ensures 0 <= p.x && p.x + p.w <= 100 && 0 <= p.y && p.y + p.h <= 100
  {
    if imageHeight > imageWidth then
      ServerCoords.RatioBelowOne(imageWidth, imageHeight);
      var newWidth := (100.0 * (imageWidth / imageHeight)).Floor;
      Placement(100, newWidth, ((100 - newWidth) as real / 2.0).Floor, 0)
    else
      ServerCoords.RatioBelowOne(imageHeight, imageWidth);
      var newHeight := (100.0 * (imageHeight / imageWidth)).Floor;
      Placement(newHeight, 100, 0, ((100 - newHeight) as real / 2.0).Floor)
  }

  /** The browser's placement box equals the server's letterbox. */
  lemma PlacementMatchesServer(imageWidth: real, imageHeight: real)
    requires imageWidth > 0.0 && imageHeight > 0.0
    ensures var p, b := GetAdjustedPlacement(imageWidth, imageHeight),
                        ServerCoords.ComputeLetterbox(imageHeight, imageWidth);
            p.x == b.newX && p.y == b.newY && p.w == b.newWidth && p.h == b.newHeight
  {
  }

  /** A stroke or fill colour of a cover element. */
  datatype Colour =
    | NoColour                    // "none"
    | HighlightBlink(tick: int)   // the highlight colour at the blink alpha of animation tick `tick`
    | SelectColour(alpha: real)   // the selection colour at the given alpha

  datatype Cover = Cover(fill: Colour, stroke: Colour)

  /** A highlight list counts only when it is non-empty (an undefined one is taken as empty). */
  predicate ValidHighlight(highlight: seq<int>) {
    |highlight| > 0
  }

  /** `selected.map((i) => graph.nodes[i].paths).flat()`. */
  function SelectedPathKeys(selected: seq<int>, nodes: map<int, seq<int>>): (keys: seq<int>)
    requires forall k :: 0 <= k < |selected| ==> selected[k] in nodes
    ensures forall key :: key in keys <==> exists k :: 0 <= k < |selected| && key in nodes[selected[k]]
  {
    if selected == [] then []
    else
      var rest := SelectedPathKeys(selected[1..], nodes);
      assert forall k :: 1 <= k < |selected| ==> selected[k] == selected[1..][k - 1];
      nodes[selected[0]] + rest
  }

  /** Path `key` is a path of some selected graph node. */
  ghost predicate KeySelected(key: int, selected: seq<int>, nodes: map<int, seq<int>>)
    requires forall k :: 0 <= k < |selected| ==> selected[k] in nodes
  {
    exists k :: 0 <= k < |selected| && key in nodes[selected[k]]
  }

  /** A colour applied to the fill and stroke the path actually has. */
  function Paint(colour: Colour, fills: bool, strokes: bool): Cover {
    Cover(if fills then colour else NoColour, if strokes then colour else NoColour)
  }

  /** `coverElement`: the overlay drawn over path `key`, if any. `fills` and `strokes`
      say whether the path's own fill and stroke are not "none". */
  function CoverElement(key: int, nodes: map<int, seq<int>>, selected: seq<int>, hover: seq<int>,
                        highlight: seq<int>, tick: int, fills: bool, strokes: bool): (c: Option<Cover>)
    requires forall k :: 0 <= k < |selected| ==> selected[k] in nodes
    ensures c.None? <==> !ValidHighlight(highlight) && !KeySelected(key, selected, nodes) && key !in hover
    ensures key in highlight ==> c == Some(Paint(HighlightBlink(tick), fills, strokes))
    ensures key !in highlight && KeySelected(key, selected, nodes) ==>
              c == Some(Paint(SelectColour(1.0), fills, strokes))
    ensures key !in highlight && !KeySelected(key, selected, nodes) && key in hover ==>
              c == Some(Paint(SelectColour(0.6), fills, strokes))
    ensures ValidHighlight(highlight) && key !in highlight && !KeySelected(key, selected, nodes) && key !in hover ==>
              c == Some(Paint(NoColour, fills, strokes))
  {
    var selectedId := SelectedPathKeys(selected, nodes);
    if !ValidHighlight(highlight) && key !in selectedId && key !in hover then None
    else
      var colour :=
        if ValidHighlight(highlight) && key in highlight then HighlightBlink(tick)
        else if key in selectedId then SelectColour(1.0)
        else if key in hover then SelectColour(0.6)
        else NoColour;
      Some(Paint(colour, fills, strokes))
  }

  /** Half the length of a cross arm, and the length of a corner tick. */
  const CrossSize: real := 0.5

  datatype Segment = Segment(x1: real, y1: real, x2: real, y2: real)

  datatype AnnotationColour = Red | Cyan

  /** What `createAnnotationElement` draws: nothing, a cross of two lines for a
      point, eight corner ticks and a dashed frame for a rectangle, or, for a record
      without coordinates, the same group with every coordinate undefined. */
  datatype AnnotationElement =
    | Empty
    | CrossMark(colour: AnnotationColour, horizontal: Segment, vertical: Segment)
    | FrameMark(colour: AnnotationColour, ticks: seq<Segment>, frame: Rect)
    | UnplacedFrame(colour: AnnotationColour)

  /** An axis-aligned segment of length `len`. */
  predicate AxisAligned(s: Segment, len: real) {
    (s.y1 == s.y2 && Abs(s.x2 - s.x1) == len) || (s.x1 == s.x2 && Abs(s.y2 - s.y1) == len)
  }

  /** `createAnnotationElement` for the annotation in slot `index`. */
  function CreateAnnotationElement(annotation: Option<Annotation>, index: int, selected: seq<int>)
    : (e: AnnotationElement)
    ensures e.Empty? <==> annotation.None?
    ensures !e.Empty? ==> (e.colour == Red <==> index in selected)
    ensures annotation.Some? && annotation.value.PointMark? ==>
              var p := annotation.value.at;
              && e.CrossMark?
              && e.horizontal.y1 == e.horizontal.y2 == p.y
              && e.horizontal.x2 - e.horizontal.x1 == 2.0 * CrossSize
              && (e.horizontal.x1 + e.horizontal.x2) / 2.0 == p.x
              && e.vertical.x1 == e.vertical.x2 == p.x
              && e.vertical.y2 - e.vertical.y1 == 2.0 * CrossSize
              && (e.vertical.y1 + e.vertical.y2) / 2.0 == p.y
    ensures annotation.Some? && annotation.value.RectangleMark? ==>
              e.FrameMark? && e.frame == annotation.value.rect && |e.ticks| == 8
    ensures annotation.Some? && annotation.value.FailedReply? ==> e.UnplacedFrame?
  {
    match annotation
    case None => Empty
    case Some(a) =>
      var colour := if index in selected then Red else Cyan;
      match a
      case PointMark(p) =>
        CrossMark(colour,
                  Segment(p.x - CrossSize, p.y, p.x + CrossSize, p.y),
                  Segment(p.x, p.y - CrossSize, p.x, p.y + CrossSize))
      case RectangleMark(r) =>
        var x, y, w, h := r.x, r.y, r.width, r.height;
        FrameMark(colour, [
            Segment(x, y, x + CrossSize, y),
            Segment(x, y, x, y + CrossSize),
            Segment(x + w, y, x + w - CrossSize, y),
            Segment(x + w, y, x + w, y + CrossSize),
            Segment(x, y + h, x + CrossSize, y + h),
            Segment(x, y + h, x, y + h - CrossSize),
            Segment(x + w, y + h, x + w - CrossSize, y + h),
            Segment(x + w, y + h, x + w, y + h - CrossSize)
          ], r)
      case FailedReply(_) =>
        UnplacedFrame(colour)
  }

  /** Every corner tick of a rectangle starts at a corner of its frame and is an
      axis-aligned line of length CrossSize. */
  lemma FrameTicksAtCorners(r: Rect, index: int, selected: seq<int>)
    ensures var e := CreateAnnotationElement(Some(RectangleMark(r)), index, selected);
            forall i :: 0 <= i < |e.ticks| ==>
              IsCorner(e.frame, Point(e.ticks[i].x1, e.ticks[i].y1)) && AxisAligned(e.ticks[i], CrossSize)
  {
    var e := CreateAnnotationElement(Some(RectangleMark(r)), index, selected);
    forall i | 0 <= i < |e.ticks|
      ensures IsCorner(e.frame, Point(e.ticks[i].x1, e.ticks[i].y1)) && AxisAligned(e.ticks[i], CrossSize)
    {
    }
  }
}
