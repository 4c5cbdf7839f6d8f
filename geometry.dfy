/**
 * Pixel positions and pygame's integer rectangles, shared by the figures,
 * the header toolbar and the input state.
 */
module Geometry {
  /** A pixel position or a pixel delta; pygame reports both as integer pairs. */
  datatype Vec = Vec(x: int, y: int)

  /** A point with real coordinates, for line and grid arithmetic. */
  datatype RVec = RVec(x: real, y: real)

  function Add(p: Vec, d: Vec): Vec {
    Vec(p.x + d.x, p.y + d.y)
  }

  function Neg(d: Vec): Vec {
    Vec(-d.x, -d.y)
  }

  function AsReal(p: Vec): RVec {
    RVec(p.x as real, p.y as real)
  }

  /** pygame.Rect(left, top, width, height). */
  datatype Rect = Rect(left: int, top: int, width: int, height: int)

  /** Rect.collidepoint: the left and top edges are inside, the right and bottom edges are not. */
  predicate Contains(r: Rect, p: Vec) {
    r.left <= p.x < r.left + r.width && r.top <= p.y < r.top + r.height
  }

  /** Rect.move_ip(d): the same rectangle, shifted by d. */
  function Translate(r: Rect, d: Vec): (q: Rect)
    ensures q.width == r.width && q.height == r.height
    ensures forall p :: Contains(q, Add(p, d)) <==> Contains(r, p)
  {
    Rect(r.left + d.x, r.top + d.y, r.width, r.height)
  }

  /** `rect.x, rect.y = p`: the same size, with its top-left corner at p. */
  function MoveTopLeft(r: Rect, p: Vec): (q: Rect)
    ensures q.width == r.width && q.height == r.height
    ensures q.left == p.x && q.top == p.y
    ensures Contains(q, p) <==> r.width > 0 && r.height > 0
  {
    Rect(p.x, p.y, r.width, r.height)
  }
}
