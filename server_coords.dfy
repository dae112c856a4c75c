/** The server's side of the coordinate contract: the picture is shown letterboxed
    in a 100 x 100 viewBox; clicks arrive in viewBox units and are mapped to pixels,
    segmentation points come back in pixels and are mapped to the viewBox; crops are
    cut from viewBox rectangles. Also the order in which both endpoints reject a request. */
module ServerCoords {
  import opened Shapes

  /** Python's `int(v)` on a float: truncation toward zero. */
  function Trunc(v: real): int {
    if v >= 0.0 then v.Floor else -((-v).Floor)
  }

  /** Where the picture sits in the viewBox: offsets and size, in whole units. */
  datatype Letterbox = Letterbox(newX: int, newY: int, newWidth: int, newHeight: int)

  /** The letterbox both coordinate maps compute: the longer side fills 100 units,
      the shorter is scaled and rounded down, and the picture is centred along it. */
  function ComputeLetterbox(imageHeight: real, imageWidth: real): (b: Letterbox)
    requires imageHeight > 0.0 && imageWidth > 0.0
    ensures imageHeight > imageWidth ==> b.newHeight == 100 && b.newY == 0 && b.newX == (100 - b.newWidth) / 2
    ensures imageHeight <= imageWidth ==> b.newWidth == 100 && b.newX == 0 && b.newY == (100 - b.newHeight) / 2
    ensures imageHeight > imageWidth ==>
              b.newWidth as real <= 100.0 * (imageWidth / imageHeight) < b.newWidth as real + 1.0
    ensures imageHeight <= imageWidth ==>
              b.newHeight as real <= 100.0 * (imageHeight / imageWidth) < b.newHeight as real + 1.0
    ensures 0 <= b.newWidth <= 100 && 0 <= b.newHeight <= 100
    ensures 0 <= b.newX && b.newX + b.newWidth <= 100 && 0 <= b.newY && b.newY + b.newHeight <= 100
  {
    if imageHeight > imageWidth then
      RatioBelowOne(imageWidth, imageHeight);
      var newWidth := Trunc(100.0 * (imageWidth / imageHeight));
      Letterbox(Trunc((100 - newWidth) as real / 2.0), 0, newWidth, 100)
    else
      RatioBelowOne(imageHeight, imageWidth);
      var newHeight := Trunc(100.0 * (imageHeight / imageWidth));
      Letterbox(0, Trunc((100 - newHeight) as real / 2.0), 100, newHeight)
  }

  lemma RatioBelowOne(a: real, b: real)
    requires 0.0 < a <= b
    ensures 0.0 < a / b <= 1.0
    ensures a < b ==> a / b < 1.0
  {
    assert b / b == 1.0;
  }

  lemma MulMonotone(a: real, b: real, c: real)
    requires a <= b && c >= 0.0
    ensures a * c <= b * c
  {
  }

  lemma MulStrict(a: real, b: real, c: real)
    requires a < b && c > 0.0
    ensures a * c < b * c
  {
  }

  /** `image_coord_to_point`: a pixel position to viewBox units. The picture's origin
      lands on the letterbox offset and pixels right of or below it land right of or
      below the offset; `RoundTrip` and `ImageMapsIntoViewBox` give the rest. */
  function ImageCoordToPoint(p: Point, imageHeight: real, imageWidth: real): (q: Point)
    requires imageHeight > 0.0 && imageWidth > 0.0
    ensures p.x == 0.0 ==> q.x == ComputeLetterbox(imageHeight, imageWidth).newX as real
    ensures p.y == 0.0 ==> q.y == ComputeLetterbox(imageHeight, imageWidth).newY as real
    ensures p.x >= 0.0 ==> q.x >= ComputeLetterbox(imageHeight, imageWidth).newX as real
    ensures p.y >= 0.0 ==> q.y >= ComputeLetterbox(imageHeight, imageWidth).newY as real
  {
    var b := ComputeLetterbox(imageHeight, imageWidth);
    var scale := Max(imageHeight, imageWidth);
    Point(p.x * 100.0 / scale + b.newX as real, p.y * 100.0 / scale + b.newY as real)
  }

  /** One coordinate of `point_to_image_coord`: drop the letterbox offset, clamp to
      [0, limit] viewBox units, and scale back to pixels. */
  function ClampScale(v: real, offset: real, limit: real, scale: real): (r: real)
    requires scale > 0.0 && limit >= 0.0
    ensures 0.0 <= r <= (limit / 100.0) * scale
    ensures v <= offset ==> r == 0.0
  {
    var d := Min(limit, Max(0.0, v - offset));
    MulMonotone(0.0, d / 100.0, scale);
    MulMonotone(d / 100.0, limit / 100.0, scale);
    (d / 100.0) * scale
  }

  lemma ClampScaleMonotone(v: real, v': real, offset: real, limit: real, scale: real)
    requires scale > 0.0 && limit >= 0.0 && v <= v'
    ensures ClampScale(v, offset, limit, scale) <= ClampScale(v', offset, limit, scale)
  {
    var d, d' := Min(limit, Max(0.0, v - offset)), Min(limit, Max(0.0, v' - offset));
    var e, e' := d / 100.0, d' / 100.0;
    assert e <= e';
    var a, a' := ClampScale(v, offset, limit, scale), ClampScale(v', offset, limit, scale);
    ScaledOrder(e, e', scale, a, a');
  }

  /** x = a * c and y = b * c keep the order of a and b for c >= 0. */
  lemma ScaledOrder(a: real, b: real, c: real, x: real, y: real)
    requires a <= b && c >= 0.0 && x == a * c && y == b * c
    ensures x <= y
  {
    MulMonotone(a, b, c);
  }

  /** (100 * side / scale / 100) * scale is side. */
  lemma ScaleBackSide(side: real, scale: real)
    requires scale > 0.0
    ensures ((100.0 * side / scale) / 100.0) * scale == side
  {
    var t := 100.0 * side / scale;
    assert t * scale == 100.0 * side;
    assert (t / 100.0) * scale == (t * scale) / 100.0;
  }

  /** `point_to_image_coord`: viewBox units to a pixel position, clamped to the picture. */
  function PointToImageCoord(p: Point, imageHeight: real, imageWidth: real): (q: Point)
    requires imageHeight > 0.0 && imageWidth > 0.0
    ensures 0.0 <= q.x <= imageWidth && 0.0 <= q.y <= imageHeight
    ensures p.x <= ComputeLetterbox(imageHeight, imageWidth).newX as real ==> q.x == 0.0
    ensures p.y <= ComputeLetterbox(imageHeight, imageWidth).newY as real ==> q.y == 0.0
  {
    var b := ComputeLetterbox(imageHeight, imageWidth);
    var scale := Max(imageHeight, imageWidth);
    var limitX := if imageHeight > imageWidth then 100.0 * imageWidth / imageHeight else 100.0;
    var limitY := if imageHeight > imageWidth then 100.0 else 100.0 * imageHeight / imageWidth;
    ScaledLimit(imageWidth, scale, limitX);
    ScaledLimit(imageHeight, scale, limitY);
    Point(ClampScale(p.x, b.newX as real, limitX, scale), ClampScale(p.y, b.newY as real, limitY, scale))
  }

  /** The clamp limit of a side scales back to at most that side. */
  lemma ScaledLimit(side: real, scale: real, limit: real)
    requires 0.0 < side <= scale
    requires limit == 100.0 * side / scale || (side == scale && limit == 100.0)
    ensures limit >= 0.0 && (limit / 100.0) * scale <= side
  {
    ScaleBackSide(side, scale);
    if limit == 100.0 && side == scale {
      assert (limit / 100.0) * scale == scale;
    }
  }

  /** Scaling into the viewBox and back is the identity. */
  lemma ScaleRoundTrip(v: real, scale: real)
    requires scale > 0.0
    ensures ((v * 100.0 / scale) / 100.0) * scale == v
  {
    var t := v * 100.0 / scale;
    assert t * scale == v * 100.0;
    assert (t / 100.0) * scale == (t * scale) / 100.0;
  }

  /** Scaling a value within [0, side] by 100 / scale keeps it within [0, 100 * side / scale]. */
  lemma ScaledWithin(v: real, side: real, scale: real)
    requires scale > 0.0 && 0.0 <= v <= side
    ensures 0.0 <= v * 100.0 / scale <= 100.0 * side / scale
  {
    var t, u := v * 100.0 / scale, 100.0 * side / scale;
    assert t * scale == v * 100.0;
    assert u * scale == 100.0 * side;
    if t < 0.0 {
      MulStrict(t, 0.0, scale);
    }
    if t > u {
      MulStrict(u, t, scale);
    }
  }

  /** Both maps place the picture with the same letterbox, so mapping a pixel inside
      the picture to the viewBox and back returns it exactly. */
  lemma RoundTrip(p: Point, imageHeight: real, imageWidth: real)
    requires imageHeight > 0.0 && imageWidth > 0.0
    requires 0.0 <= p.x <= imageWidth && 0.0 <= p.y <= imageHeight
    ensures PointToImageCoord(ImageCoordToPoint(p, imageHeight, imageWidth), imageHeight, imageWidth) == p
  {
    var scale := Max(imageHeight, imageWidth);
    ScaledWithin(p.x, imageWidth, scale);
    ScaledWithin(p.y, imageHeight, scale);
    ScaleRoundTrip(p.x, scale);
    ScaleRoundTrip(p.y, scale);
    ScaleBackSide(scale, scale);
  }

  /** `point_to_image_coord` is non-decreasing in each coordinate. */
  lemma PointToImageCoordMonotone(p: Point, p': Point, imageHeight: real, imageWidth: real)
    requires imageHeight > 0.0 && imageWidth > 0.0
    ensures p.x <= p'.x ==> PointToImageCoord(p, imageHeight, imageWidth).x <= PointToImageCoord(p', imageHeight, imageWidth).x
    ensures p.y <= p'.y ==> PointToImageCoord(p, imageHeight, imageWidth).y <= PointToImageCoord(p', imageHeight, imageWidth).y
  {
    var b := ComputeLetterbox(imageHeight, imageWidth);
    var scale := Max(imageHeight, imageWidth);
    var limitX := if imageHeight > imageWidth then 100.0 * imageWidth / imageHeight else 100.0;
    var limitY := if imageHeight > imageWidth then 100.0 else 100.0 * imageHeight / imageWidth;
    ScaledWithin(imageWidth, imageWidth, scale);
    ScaledWithin(imageHeight, imageHeight, scale);
    if p.x <= p'.x {
      ClampScaleMonotone(p.x, p'.x, b.newX as real, limitX, scale);
    }
    if p.y <= p'.y {
      ClampScaleMonotone(p.y, p'.y, b.newY as real, limitY, scale);
    }
  }

  /** A pixel inside the picture lands inside the 100 x 100 viewBox. */
  lemma ImageMapsIntoViewBox(p: Point, imageHeight: real, imageWidth: real)
    requires imageHeight > 0.0 && imageWidth > 0.0
    requires 0.0 <= p.x <= imageWidth && 0.0 <= p.y <= imageHeight
    ensures var q := ImageCoordToPoint(p, imageHeight, imageWidth);
            0.0 <= q.x <= 100.0 && 0.0 <= q.y <= 100.0
  {
    var b := ComputeLetterbox(imageHeight, imageWidth);
    if imageHeight > imageWidth {
      ScaledWithin(p.x, imageWidth, imageHeight);
      ScaledWithin(p.y, imageHeight, imageHeight);
      Regroup(imageWidth, imageHeight);
      Regroup(imageHeight, imageHeight);
      RatioBelowOne(imageWidth, imageHeight);
      CentredFits(100.0 * (imageWidth / imageHeight), b.newWidth, b.newX);
    } else {
      ScaledWithin(p.x, imageWidth, imageWidth);
      ScaledWithin(p.y, imageHeight, imageWidth);
      Regroup(imageHeight, imageWidth);
      Regroup(imageWidth, imageWidth);
      RatioBelowOne(imageHeight, imageWidth);
      CentredFits(100.0 * (imageHeight / imageWidth), b.newHeight, b.newY);
    }
  }

  lemma Regroup(a: real, b: real)
    requires b > 0.0
    ensures 100.0 * a / b == 100.0 * (a / b)
    ensures a == b ==> 100.0 * a / b == 100.0
  {
  }

  /** An extent a in (0, 100], rounded down to f and centred at offset (100 - f) / 2,
      ends inside the viewBox: the rounding loss never exceeds the margin. */
  lemma CentredFits(a: real, f: int, off: int)
    requires 0.0 < a <= 100.0
    requires f as real <= a < f as real + 1.0
    requires off == (100 - f) / 2
    ensures a + off as real <= 100.0
  {
    if f <= 98 {
      assert off <= 99 - f;
    } else if f == 99 {
      assert off == 0;
    }
  }

  /** The pixel crop box `(left, top, right, bottom)` of a viewBox rectangle. */
  datatype CropBox = CropBox(left: real, top: real, right: real, bottom: real)

  /** `cropImg`'s box: both corners of the rectangle mapped to pixels. */
  function CropImg(rect: Rect, imgWidth: real, imgHeight: real): (box: CropBox)
    requires imgWidth > 0.0 && imgHeight > 0.0
    ensures 0.0 <= box.left <= imgWidth && 0.0 <= box.right <= imgWidth
    ensures 0.0 <= box.top <= imgHeight && 0.0 <= box.bottom <= imgHeight
    ensures rect.width >= 0.0 && rect.height >= 0.0 ==> box.left <= box.right && box.top <= box.bottom
  {
    var lt := PointToImageCoord(Point(rect.x, rect.y), imgHeight, imgWidth);
    var rb := PointToImageCoord(Point(rect.x + rect.width, rect.y + rect.height), imgHeight, imgWidth);
    PointToImageCoordMonotone(Point(rect.x, rect.y), Point(rect.x + rect.width, rect.y + rect.height),
                              imgHeight, imgWidth);
    CropBox(lt.x, lt.y, rb.x, rb.y)
  }

  /** The viewBox rectangle spanned by the images of pixel corners (left, top) and (right, bottom). */
  function ViewBoxRect(left: real, top: real, right: real, bottom: real, imgWidth: real, imgHeight: real): Rect
    requires imgWidth > 0.0 && imgHeight > 0.0
  {
    var lt := ImageCoordToPoint(Point(left, top), imgHeight, imgWidth);
    var rb := ImageCoordToPoint(Point(right, bottom), imgHeight, imgWidth);
    Rect(lt.x, lt.y, rb.x - lt.x, rb.y - lt.y)
  }

  /** `cropImg` cuts exactly the pixel region whose viewBox image the rectangle is. */
  lemma CropOfPixelBox(left: real, top: real, right: real, bottom: real, imgWidth: real, imgHeight: real)
    requires imgWidth > 0.0 && imgHeight > 0.0
    requires 0.0 <= left <= right <= imgWidth && 0.0 <= top <= bottom <= imgHeight
    ensures CropImg(ViewBoxRect(left, top, right, bottom, imgWidth, imgHeight), imgWidth, imgHeight)
            == CropBox(left, top, right, bottom)
  {
    var r := ViewBoxRect(left, top, right, bottom, imgWidth, imgHeight);
    var rb := ImageCoordToPoint(Point(right, bottom), imgHeight, imgWidth);
    assert Point(r.x + r.width, r.y + r.height) == rb;
    RoundTrip(Point(left, top), imgHeight, imgWidth);
    RoundTrip(Point(right, bottom), imgHeight, imgWidth);
  }

  /** `np.min` of a non-empty column. */
  function MinOf(s: seq<real>): (m: real)
    requires |s| > 0
    ensures exists k :: 0 <= k < |s| && s[k] == m
    ensures forall k :: 0 <= k < |s| ==> m <= s[k]
  {
    if |s| == 1 then s[0]
    else
      var rest := MinOf(s[1..]);
      assert forall k :: 1 <= k < |s| ==> s[k] == s[1..][k - 1];
      Min(s[0], rest)
  }

  /** `np.max` of a non-empty column. */
  function MaxOf(s: seq<real>): (m: real)
    requires |s| > 0
    ensures exists k :: 0 <= k < |s| && s[k] == m
    ensures forall k :: 0 <= k < |s| ==> s[k] <= m
  {
    if |s| == 1 then s[0]
    else
      var rest := MaxOf(s[1..]);
      assert forall k :: 1 <= k < |s| ==> s[k] == s[1..][k - 1];
      Max(s[0], rest)
  }

  /** The bounding box `inference` replies with; none for an empty point list, where numpy raises. */
  function InferenceBox(pts: seq<Point>): (r: Option<Rect>)
    ensures r.None? <==> pts == []
    ensures r.Some? ==> r.value.width >= 0.0 && r.value.height >= 0.0
    ensures r.Some? ==> forall k :: 0 <= k < |pts| ==> Inside(r.value, pts[k])
  {
    if pts == [] then None
    else
      var xs := seq(|pts|, k requires 0 <= k < |pts| => pts[k].x);  // pts[:, 0]
      var ys := seq(|pts|, k requires 0 <= k < |pts| => pts[k].y);  // pts[:, 1]
      assert forall k :: 0 <= k < |pts| ==> xs[k] == pts[k].x && ys[k] == pts[k].y;
      var x, y := MinOf(xs), MinOf(ys);
      var X, Y := MaxOf(xs), MaxOf(ys);
      Some(Rect(x, y, X - x, Y - y))
  }

  /** The box is the smallest one: each of its four sides touches some point. */
  lemma InferenceBoxTight(pts: seq<Point>)
    requires pts != []
    ensures var r := InferenceBox(pts).value;
            && (exists k :: 0 <= k < |pts| && pts[k].x == r.x)
            && (exists k :: 0 <= k < |pts| && pts[k].y == r.y)
            && (exists k :: 0 <= k < |pts| && pts[k].x == r.x + r.width)
            && (exists k :: 0 <= k < |pts| && pts[k].y == r.y + r.height)
  {
    var xs := seq(|pts|, k requires 0 <= k < |pts| => pts[k].x);
    var ys := seq(|pts|, k requires 0 <= k < |pts| => pts[k].y);
    var i :| 0 <= i < |xs| && xs[i] == MinOf(xs);
    var j :| 0 <= j < |ys| && ys[j] == MinOf(ys);
    var i' :| 0 <= i' < |xs| && xs[i'] == MaxOf(xs);
    var j' :| 0 <= j' < |ys| && ys[j'] == MaxOf(ys);
    assert pts[i].x == InferenceBox(pts).value.x;
    assert pts[j].y == InferenceBox(pts).value.y;
  }

  /** The uploaded file part: its name, and whether the upload object is truthy. */
  datatype Upload = Upload(filename: string, truthy: bool)

  /** What the request checks look at: the session id and the `image` file part. */
  datatype Request = Request(hasSessionId: bool, image: Option<Upload>)

  datatype Check = Rejected(message: string) | NoFile | Accepted

  /** The checks `inference` and `cropper` share, as a chain of early returns. */
  function CheckRequest(req: Request): (c: Check)
    ensures !req.hasSessionId ==> c == Rejected("No session ID found")
    ensures req.hasSessionId && req.image.None? ==> c == Rejected("No image part in the request")
    ensures req.hasSessionId && req.image.Some? && req.image.value.filename == "" ==> c == Rejected("No selected file")
    ensures c.Accepted? <==> req.hasSessionId && req.image.Some? && req.image.value.filename != "" && req.image.value.truthy
    ensures c.NoFile? <==> req.hasSessionId && req.image.Some? && req.image.value.filename != "" && !req.image.value.truthy
  {
    if !req.hasSessionId then Rejected("No session ID found")
    else if req.image.None? then Rejected("No image part in the request")
    else if req.image.value.filename == "" then Rejected("No selected file")
    else if req.image.value.truthy then Accepted
    else NoFile
  }

  /** A handler's reply: a 400 with a message, `{success: False}`, a result, or an uncaught exception. */
  datatype Reply<T> = BadRequest(message: string) | Unsuccessful | Ok(value: T) | InternalError

  function Status<T>(r: Reply<T>): int {
    match r
    case BadRequest(_) => 400
    case InternalError => 500
    case _ => 200
  }

  /** The model's answer, point by point, in viewBox units. */
  function ToViewBox(pts: seq<Point>, imageHeight: real, imageWidth: real): seq<Point>
    requires imageHeight > 0.0 && imageWidth > 0.0
  {
    seq(|pts|, k requires 0 <= k < |pts| => ImageCoordToPoint(pts[k], imageHeight, imageWidth))
  }

  /** The `inference` handler: the click goes to the segmentation model (`segment`,
      whose answer is in pixels), and the reply is the viewBox bounding box of the answer. */
  function Inference(req: Request, imageHeight: real, imageWidth: real, click: Point,
                     segment: Point -> seq<Point>): (reply: Reply<Rect>)
    requires imageHeight > 0.0 && imageWidth > 0.0
    ensures CheckRequest(req).Rejected? ==> reply == BadRequest(CheckRequest(req).message) && Status(reply) == 400
    ensures CheckRequest(req).NoFile? ==> reply == Unsuccessful
    ensures CheckRequest(req).Accepted? ==>
              (reply.InternalError? <==> segment(PointToImageCoord(click, imageHeight, imageWidth)) == [])
    ensures CheckRequest(req).Accepted? && segment(PointToImageCoord(click, imageHeight, imageWidth)) != [] ==>
              reply.Ok?
    ensures reply.Ok? ==> reply.value.width >= 0.0 && reply.value.height >= 0.0
    ensures reply.Ok? ==>
              var pts := segment(PointToImageCoord(click, imageHeight, imageWidth));
              forall k :: 0 <= k < |pts| ==> Inside(reply.value, ImageCoordToPoint(pts[k], imageHeight, imageWidth))
    ensures reply.Ok? ==>
              Some(reply.value) == InferenceBox(ToViewBox(segment(PointToImageCoord(click, imageHeight, imageWidth)),
                                                          imageHeight, imageWidth))
  {
    match CheckRequest(req)
    case Rejected(message) => BadRequest(message)
    case NoFile => Unsuccessful
    case Accepted =>
      var pts := segment(PointToImageCoord(click, imageHeight, imageWidth));
      var mapped := ToViewBox(pts, imageHeight, imageWidth);
      assert forall k :: 0 <= k < |pts| ==> mapped[k] == ImageCoordToPoint(pts[k], imageHeight, imageWidth);
      match InferenceBox(mapped)
      case None => InternalError
      case Some(r) => Ok(r)
  }

  /** When the model's points lie in the picture, the rectangle sent back lies in the viewBox. */
  lemma InferenceReplyInViewBox(req: Request, imageHeight: real, imageWidth: real, click: Point,
                                segment: Point -> seq<Point>)
    requires imageHeight > 0.0 && imageWidth > 0.0
    requires CheckRequest(req).Accepted?
    requires var pts := segment(PointToImageCoord(click, imageHeight, imageWidth));
             pts != [] && forall k :: 0 <= k < |pts| ==>
               0.0 <= pts[k].x <= imageWidth && 0.0 <= pts[k].y <= imageHeight
    ensures var reply := Inference(req, imageHeight, imageWidth, click, segment);
            && reply.Ok?
            && 0.0 <= reply.value.x && reply.value.x + reply.value.width <= 100.0
            && 0.0 <= reply.value.y && reply.value.y + reply.value.height <= 100.0
  {
    var pts := segment(PointToImageCoord(click, imageHeight, imageWidth));
    var mapped := ToViewBox(pts, imageHeight, imageWidth);
    forall k | 0 <= k < |mapped|
      ensures 0.0 <= mapped[k].x <= 100.0 && 0.0 <= mapped[k].y <= 100.0
    {
      ImageMapsIntoViewBox(pts[k], imageHeight, imageWidth);
    }
  }

  /** The `cropper` handler: one pixel crop box per annotation rectangle. */
  function Cropper(req: Request, imgWidth: real, imgHeight: real, rects: seq<Rect>): (reply: Reply<seq<CropBox>>)
    requires imgWidth > 0.0 && imgHeight > 0.0
    ensures CheckRequest(req).Rejected? ==> reply == BadRequest(CheckRequest(req).message) && Status(reply) == 400
    ensures CheckRequest(req).NoFile? ==> reply == Unsuccessful
    ensures CheckRequest(req).Accepted? ==> reply.Ok? && |reply.value| == |rects|
    ensures reply.Ok? ==> forall i :: 0 <= i < |reply.value| ==>
              && 0.0 <= reply.value[i].left <= imgWidth && 0.0 <= reply.value[i].right <= imgWidth
              && 0.0 <= reply.value[i].top <= imgHeight && 0.0 <= reply.value[i].bottom <= imgHeight
              && (rects[i].width >= 0.0 && rects[i].height >= 0.0 ==>
                    reply.value[i].left <= reply.value[i].right && reply.value[i].top <= reply.value[i].bottom)
    ensures reply.Ok? ==> forall i :: 0 <= i < |rects| ==> reply.value[i] == CropImg(rects[i], imgWidth, imgHeight)
  {
    match CheckRequest(req)
    case Rejected(message) => BadRequest(message)
    case NoFile => Unsuccessful
    case Accepted => Ok(seq(|rects|, i requires 0 <= i < |rects| => CropImg(rects[i], imgWidth, imgHeight)))
  }

  /** When every rectangle is the viewBox image of a pixel box, `cropper` cuts exactly those boxes. */
  lemma CropperCutsPixelBoxes(req: Request, imgWidth: real, imgHeight: real, boxes: seq<CropBox>)
    requires imgWidth > 0.0 && imgHeight > 0.0
    requires CheckRequest(req).Accepted?
    requires forall i :: 0 <= i < |boxes| ==>
               0.0 <= boxes[i].left <= boxes[i].right <= imgWidth && 0.0 <= boxes[i].top <= boxes[i].bottom <= imgHeight
    ensures var rects := seq(|boxes|, i requires 0 <= i < |boxes| =>
                           ViewBoxRect(boxes[i].left, boxes[i].top, boxes[i].right, boxes[i].bottom, imgWidth, imgHeight));
            Cropper(req, imgWidth, imgHeight, rects) == Ok(boxes)
  {
    var rects := seq(|boxes|, i requires 0 <= i < |boxes| =>
                   ViewBoxRect(boxes[i].left, boxes[i].top, boxes[i].right, boxes[i].bottom, imgWidth, imgHeight));
    var reply := Cropper(req, imgWidth, imgHeight, rects);
    forall i | 0 <= i < |boxes|
      ensures reply.value[i] == boxes[i]
    {
      CropOfPixelBox(boxes[i].left, boxes[i].top, boxes[i].right, boxes[i].bottom, imgWidth, imgHeight);
    }
    assert reply.value == boxes;
  }

  /** The two endpoints reject exactly the same requests, with the same message. */
  lemma SameRejections(req: Request, imageHeight: real, imageWidth: real, click: Point,
                       segment: Point -> seq<Point>, rects: seq<Rect>)
    requires imageHeight > 0.0 && imageWidth > 0.0
    ensures var a, b := Inference(req, imageHeight, imageWidth, click, segment),
                        Cropper(req, imageWidth, imageHeight, rects);
            (a.BadRequest? <==> b.BadRequest?) && (a.BadRequest? ==> a.message == b.message)
  {
  }
}
