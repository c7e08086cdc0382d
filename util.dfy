/**
 * The coordinate mapper: the flat index of a tile, and the tile under a pixel.
 */
module Util {
  import opened Common

  /** A tile position; `x` picks the column (horizontal), `y` the row. */
  datatype Coord = Coord(x: int, y: int)

  /** Util.coordToIndex: tile (x, y) lives at index x * gridWidth + y of the flat grid array. */
  function CoordToIndex(x: int, y: int, gridWidth: int): int
  {
    x * gridWidth + y
  }

  /** Splitting the index back with division and remainder by the width recovers the tile. */
  lemma CoordToIndexInverse(x: int, y: int, gridWidth: int)
    requires gridWidth > 0 && 0 <= y < gridWidth
    ensures CoordToIndex(x, y, gridWidth) / gridWidth == x
    ensures CoordToIndex(x, y, gridWidth) % gridWidth == y
  {
    var i := CoordToIndex(x, y, gridWidth);
    var q, r := i / gridWidth, i % gridWidth;
    assert i == q * gridWidth + r && 0 <= r < gridWidth;
    assert (q - x) * gridWidth == y - r by {
      assert q * gridWidth - x * gridWidth == (q - x) * gridWidth;
    }
    if q > x {
      AtLeastOneMultiple(q - x, gridWidth);
    } else if q < x {
      AtLeastOneMultiple(x - q, gridWidth);
    }
  }

  /** A positive multiple of a positive number is at least that number. */
  lemma AtLeastOneMultiple(a: int, w: int)
    requires a >= 1 && w > 0
    ensures a * w >= w
  {
    assert a * w == w + (a - 1) * w;
  }

  /** Division by a positive number has a unique quotient and remainder. */
  lemma DivUnique(v: int, d: int, q: int, r: int)
    requires d > 0 && 0 <= r < d && v == d * q + r
    ensures v / d == q && v % d == r
  {
    var q0, r0 := v / d, v % d;
    assert d * (q - q0) == r0 - r;
    if q > q0 {
      AtLeastOneMultiple(q - q0, d);
    } else if q < q0 {
      AtLeastOneMultiple(q0 - q, d);
    }
  }

  /** Tiles whose second coordinate lies in [0, gridWidth) never share an index. */
  lemma CoordToIndexInjective(x1: int, y1: int, x2: int, y2: int, gridWidth: int)
    requires gridWidth > 0 && 0 <= y1 < gridWidth && 0 <= y2 < gridWidth
    requires CoordToIndex(x1, y1, gridWidth) == CoordToIndex(x2, y2, gridWidth)
    ensures x1 == x2 && y1 == y2
  {
    CoordToIndexInverse(x1, y1, gridWidth);
    CoordToIndexInverse(x2, y2, gridWidth);
  }

  /** Every non-negative index is the index of (i div w, i mod w): the split `fromBase64` uses. */
  lemma IndexToCoord(i: int, gridWidth: int)
    requires gridWidth > 0 && i >= 0
    ensures 0 <= i % gridWidth < gridWidth
    ensures CoordToIndex(i / gridWidth, i % gridWidth, gridWidth) == i
  {
  }

  /** A tile of a height-by-width grid has an index inside the flat array of width * height cells. */
  lemma IndexInGrid(x: int, y: int, width: int, height: int)
    requires 0 <= x < height && 0 <= y < width
    ensures 0 <= CoordToIndex(x, y, width) < width * height
  {
    assert x * width <= (height - 1) * width;
  }

  /**
   * The shared test of both pixel mappers: divide by the tile size, round down, and accept
   * the pair only when both halves lie in [0, bound).
   */
  function TileOf(px: real, py: real, dx: real, dy: real, bound: int): (t: Option<Coord>)
    requires dx > 0.0 && dy > 0.0
    ensures t.Some? <==> 0.0 <= px < bound as real * dx && 0.0 <= py < bound as real * dy
    ensures t.Some? ==> 0 <= t.value.x < bound && 0 <= t.value.y < bound
    ensures t.Some? ==> t.value.x as real * dx <= px < (t.value.x + 1) as real * dx
                        && t.value.y as real * dy <= py < (t.value.y + 1) as real * dy
  {
    var xCoord := (px / dx).Floor;
    var yCoord := (py / dy).Floor;
    FloorDivBounds(px, dx);
    FloorDivBounds(py, dy);
    FloorInRange(px, dx, bound);
    FloorInRange(py, dy, bound);
    if xCoord >= bound || yCoord >= bound || xCoord < 0 || yCoord < 0 then None
    else Some(Coord(xCoord, yCoord))
  }

  /**
   * Util.pixelCoordsToTileCoords. Tile width dx is canvasHeight / gridHeight and tile height dy
   * is canvasWidth / gridWidth, and BOTH coordinates are bounded by gridWidth, as in the source.
   */
  function PixelCoordsToTileCoords(x: real, y: real, gridWidth: int, gridHeight: int,
                                   canvasWidth: real, canvasHeight: real): Option<Coord>
    requires gridWidth > 0 && gridHeight > 0 && canvasWidth > 0.0 && canvasHeight > 0.0
  {
    TileOf(x, y, canvasHeight / gridHeight as real, canvasWidth / gridWidth as real, gridWidth)
  }

  /** Rounding down places the pixel inside the tile: t*d <= p < (t+1)*d along each axis. */
  lemma FloorDivBounds(p: real, d: real)
    requires d > 0.0
    ensures (p / d).Floor as real * d <= p < ((p / d).Floor + 1) as real * d
  {
    var q := p / d;
    var t := q.Floor;
    var lo, hi := t as real, (t + 1) as real;
    assert q * d == p;
    assert lo <= q < hi;
    assert (q - lo) * d >= 0.0;
    assert (hi - q) * d > 0.0;
    assert (q - lo) * d == p - lo * d;
    assert (hi - q) * d == hi * d - p;
    assert p < hi * d;
    assert hi == ((p / d).Floor + 1) as real;
  }

  /** The rounded-down quotient p/d lies in [0, bound) exactly when p lies in [0, bound*d). */
  lemma FloorInRange(p: real, d: real, bound: int)
    requires d > 0.0
    ensures 0 <= (p / d).Floor < bound <==> 0.0 <= p < bound as real * d
  {
    var t := (p / d).Floor;
    var lo, hi, b := t as real, (t + 1) as real, bound as real;
    FloorDivBounds(p, d);
    assert lo * d <= p < hi * d;
    if t >= 0 {
      ProductNonNegative(lo, d);
    } else {
      ProductNonNegative(-hi, d);
      assert (-hi) * d == -(hi * d);
    }
    if t < bound {
      ProductNonNegative(b - hi, d);
      assert (b - hi) * d == b * d - hi * d;
    } else {
      ProductNonNegative(lo - b, d);
      assert (lo - b) * d == lo * d - b * d;
    }
  }

  lemma ProductNonNegative(a: real, d: real)
    requires a >= 0.0 && d > 0.0
    ensures a * d >= 0.0
  {
  }

  /**
   * A tile returned by pixelCoordsToTileCoords contains the pixel, and a tile is returned
   * exactly when y lies in [0, canvasWidth) and x in [0, canvasHeight * gridWidth / gridHeight):
   * with the swapped tile sizes and the double gridWidth bound, the x range is the canvas
   * height only for a square grid.
   */
  lemma PixelInReturnedTile(x: real, y: real, gridWidth: int, gridHeight: int,
                            canvasWidth: real, canvasHeight: real)
    requires gridWidth > 0 && gridHeight > 0 && canvasWidth > 0.0 && canvasHeight > 0.0
    ensures var dx := canvasHeight / gridHeight as real;
            var dy := canvasWidth / gridWidth as real;
            var t := PixelCoordsToTileCoords(x, y, gridWidth, gridHeight, canvasWidth, canvasHeight);
            && (t.Some? <==> 0.0 <= x < canvasHeight * gridWidth as real / gridHeight as real
                             && 0.0 <= y < canvasWidth)
            && (t.Some? ==>
                  (t.value.x as real * dx <= x < (t.value.x + 1) as real * dx
                   && t.value.y as real * dy <= y < (t.value.y + 1) as real * dy))
  {
    var dx := canvasHeight / gridHeight as real;
    var dy := canvasWidth / gridWidth as real;
    assert gridWidth as real * dy == canvasWidth;
    assert gridWidth as real * dx == canvasHeight * gridWidth as real / gridHeight as real;
  }

  /** A negative pixel coordinate, such as the reset position (-1, -1), selects no tile. */
  lemma NegativePixelIsOffGrid(x: real, y: real, gridWidth: int, gridHeight: int,
                               canvasWidth: real, canvasHeight: real)
    requires gridWidth > 0 && gridHeight > 0 && canvasWidth > 0.0 && canvasHeight > 0.0
    requires x < 0.0 || y < 0.0
    ensures PixelCoordsToTileCoords(x, y, gridWidth, gridHeight, canvasWidth, canvasHeight) == None
  {
  }
}
