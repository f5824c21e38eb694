/** Integer points and axis-aligned rectangles (vec2_t and rect_t). */
module Geometry {

  datatype Vec2 = Vec2(x: int, y: int)

  /** A rectangle with its top-left corner at (x, y), w columns wide and h rows high. */
  datatype Rect = Rect(x: int, y: int, w: int, h: int)

  /** vec2_add; subtracting either operand from the sum gives back the other one. */
  function Add(a: Vec2, b: Vec2): (r: Vec2)
    ensures Sub(r, b) == a && Sub(r, a) == b
  {
    Vec2(a.x + b.x, a.y + b.y)
  }

  /** vec2_sub; the difference is the zero vector exactly when the operands are equal. */
  function Sub(a: Vec2, b: Vec2): (r: Vec2)
    ensures Eq(r, Vec2(0, 0)) <==> Eq(a, b)
  {
    Vec2(a.x - b.x, a.y - b.y)
  }

  /** vec2_eq: component-wise comparison, which is equality of points. */
  function Eq(a: Vec2, b: Vec2): (r: bool)
    ensures r <==> a == b
  {
    a.x == b.x && a.y == b.y
  }

  /** rect_contains_vec: the half-open containment test. */
  predicate Contains(a: Rect, b: Vec2) {
    (b.x >= a.x && b.x < a.x + a.w) && (b.y >= a.y && b.y < a.y + a.h)
  }

  /** Rectangle `inner` lies inside `outer`. */
  predicate Within(inner: Rect, outer: Rect) {
    outer.x <= inner.x && inner.x + inner.w <= outer.x + outer.w &&
    outer.y <= inner.y && inner.y + inner.h <= outer.y + outer.h
  }

  /**
   * A point is contained exactly when its unit cell lies inside the rectangle,
   * so a rectangle with no columns or no rows contains nothing.
   */
  lemma ContainsUnitCell(a: Rect, b: Vec2)
    ensures Contains(a, b) <==> Within(Rect(b.x, b.y, 1, 1), a)
    ensures Contains(a, b) ==> a.w >= 1 && a.h >= 1
  {
  }

  /** Every point of a sub-rectangle is a point of the enclosing rectangle. */
  lemma ContainsWithin(inner: Rect, outer: Rect, b: Vec2)
    requires Within(inner, outer)
    ensures Contains(inner, b) ==> Contains(outer, b)
  {
  }
}
