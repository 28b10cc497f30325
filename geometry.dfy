/** Axis-aligned rectangles in pixel units and the wall-collision query. */
module Geometry {
  import opened Wrappers

  /** A grid cell (x, y); also the shape of the goal and of a best-path entry. */
  datatype Cell = Cell(x: int, y: int)

  /** A rectangle as `pygame.Rect(x, y, width, height)` stores it. */
  datatype Rect = Rect(x: int, y: int, width: int, height: int)

  /** Pixel (px, py) lies inside `r`. */
  predicate Inside(r: Rect, px: int, py: int) {
    r.x <= px < r.x + r.width && r.y <= py < r.y + r.height
  }

  /** `colliderect`: both rectangles have positive area and their interiors
      overlap; rectangles that only share an edge do not collide. */
  predicate Collide(a: Rect, b: Rect) {
    a.width > 0 && a.height > 0 && b.width > 0 && b.height > 0 &&
    a.x < b.x + b.width && b.x < a.x + a.width &&
    a.y < b.y + b.height && b.y < a.y + a.height
  }

  /** Two rectangles collide exactly when some pixel lies inside both, so
      the test is symmetric and an empty rectangle collides with nothing. */
  lemma CollideSharesPixel(a: Rect, b: Rect)
    ensures Collide(a, b) <==> exists px, py :: Inside(a, px, py) && Inside(b, px, py)
    ensures Collide(a, b) <==> Collide(b, a)
  {
    if Collide(a, b) {
      var px := if a.x < b.x then b.x else a.x;
      var py := if a.y < b.y then b.y else a.y;
      assert Inside(a, px, py) && Inside(b, px, py);
    }
  }

  /** The pixel rectangle of grid cell (x, y): `Rect(x*offset, y*offset, offset, offset)`. */
  function CellRect(x: int, y: int, offset: int): Rect {
    Rect(x * offset, y * offset, offset, offset)
  }

  /** Index of the first wall at or after `k` that collides with `cell`. */
  function FirstCollision(walls: seq<Rect>, cell: Rect, k: nat): (r: Option<nat>)
    requires k <= |walls|
    decreases |walls| - k
    ensures r.Some? ==> k <= r.value < |walls| && Collide(walls[r.value], cell)
    ensures r.Some? ==> forall j :: k <= j < r.value ==> !Collide(walls[j], cell)
    ensures r.None? ==> forall j :: k <= j < |walls| ==> !Collide(walls[j], cell)
  {
    if k == |walls| then None
    else if Collide(walls[k], cell) then Some(k)
    else FirstCollision(walls, cell, k + 1)
  }

  /** `get_collision`: the first wall, in list order, that collides with the
      agent's cell, or none. */
  function GetCollision(walls: seq<Rect>, x: int, y: int, offset: int): (r: Option<Rect>)
    ensures r.None? <==> forall j :: 0 <= j < |walls| ==> !Collide(walls[j], CellRect(x, y, offset))
    ensures r.Some? ==> Collide(r.value, CellRect(x, y, offset))
    ensures r.Some? ==> exists i :: 0 <= i < |walls| && walls[i] == r.value &&
                                    forall j :: 0 <= j < i ==> !Collide(walls[j], CellRect(x, y, offset))
  {
    match FirstCollision(walls, CellRect(x, y, offset), 0)
    case None => None
    case Some(i) => Some(walls[i])
  }
}
