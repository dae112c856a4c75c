/** Geometry shared by the annotation editor, its display and the server:
    points and axis-aligned rectangles in the 100 x 100 viewBox, over exact reals. */
module Shapes {

  /** JavaScript's `undefined` next to a present value. */
  datatype Option<+T> = None | Some(value: T)

  datatype Point = Point(x: real, y: real)

  /** `{ x, y, width, height }`; the editor never forces the size to be non-negative. */
  datatype Rect = Rect(x: real, y: real, width: real, height: real)

  /** An annotation record: `{ type: "point", x, y }`, `{ type: "rectangle", x, y, width, height }`,
      or the record an error reply leaves, `{ type: "rectangle", success: false[, message] }`,
      which has no coordinates. */
  datatype Annotation =
    | PointMark(at: Point)
    | RectangleMark(rect: Rect)
    | FailedReply(message: Option<string>)

  function Min(a: real, b: real): real { if a <= b then a else b }

  function Max(a: real, b: real): real { if a >= b then a else b }

  function Abs(a: real): real { if a < 0.0 then -a else a }

  /** p is one of the four corners of r. */
  predicate IsCorner(r: Rect, p: Point) {
    (p.x == r.x || p.x == r.x + r.width) && (p.y == r.y || p.y == r.y + r.height)
  }

  /** p lies in the closed rectangle r (of non-negative size). */
  predicate Inside(r: Rect, p: Point) {
    r.x <= p.x <= r.x + r.width && r.y <= p.y <= r.y + r.height
  }
}
