/**
 * tiling/const_size.py: `ConstSizeTiles`, tiles of one fixed extent whose
 * overlap is stretched so that they span the image exactly, with at least
 * `min_overlapping` pixels shared between neighbours.
 *
 * Arithmetic is exact: the source's `1e-10` added to the divisor in the tile
 * count only protects float division from rounding an exact quotient up, so
 * it is left out here, and the float overlap is an exact `real`.
 */
module ConstSize {
  import opened Wrappers
  import opened Rounding
  import opened Base

  /** The fields `ConstSizeTiles.__init__` adds to those of `BaseTiles`. */
  datatype ConstSizeTiles = ConstSizeTiles(
    config: Config,
    minOverlapping: int,
    nx: int,
    ny: int,
    overlapX: real,
    overlapY: real)

  /**
   * `_compute_number_of_tiles(tile_extent, image_size, min_overlapping)`:
   * the least number of tiles, advancing by `extent - minOverlapping`, that
   * reaches `imageSize`, so an exact quotient is not rounded up. The source
   * takes `ceil_int` of a float quotient; it is written here as integer
   * ceiling division, and NumberOfTilesIsCeilInt shows the two agree.
   */
  function NumberOfTiles(extent: int, imageSize: int, minOverlapping: int): (n: int)
    requires minOverlapping < extent
    ensures (n - 1) * (extent - minOverlapping) < imageSize <= n * (extent - minOverlapping)
  {
    var w := extent - minOverlapping;
    var q := (-imageSize) / w;
    assert q * w + (-imageSize) % w == -imageSize;
    -q
  }

  /** The count is `ceil_int(image_size / (tile_extent - min_overlapping))` on the exact quotient. */
  lemma NumberOfTilesIsCeilInt(extent: int, imageSize: int, minOverlapping: int)
    requires minOverlapping < extent
    ensures NumberOfTiles(extent, imageSize, minOverlapping) ==
      CeilInt(imageSize as real / (extent - minOverlapping) as real)
  {
    var w := extent - minOverlapping;
    CeilOfQuotient(imageSize, w);
    LeastReachUnique(NumberOfTiles(extent, imageSize, minOverlapping),
      CeilInt(imageSize as real / w as real), w, imageSize);
  }

  /** Helper: at most one `n` satisfies `(n - 1) * w < a <= n * w` for a positive `w`. */
  lemma LeastReachUnique(n: int, k: int, w: int, a: int)
    requires w > 0
    requires (n - 1) * w < a <= n * w
    requires (k - 1) * w < a <= k * w
    ensures n == k
  {
    if n < k {
      MulMonotone(n, k - 1, w);
    } else if k < n {
      MulMonotone(k, n - 1, w);
    }
  }

  /**
   * `_compute_float_overlapping(tile_size, image_size, n)`: the overlap that
   * makes the `n - 1` gaps between `n` tiles share the excess `extent * n - imageSize`
   * equally; 0 for a single tile.
   */
  function FloatOverlapping(extent: int, imageSize: int, n: int): real
  {
    if n > 1 then (extent * n - imageSize) as real / (n - 1) as real else 0.0
  }

  /**
   * For `n > 1` the overlap times the `n - 1` gaps is the excess
   * `extent * n - imageSize`; a single tile has no overlap. (Stated as a
   * lemma rather than on FloatOverlapping itself, so that this product of
   * reals enters only the proofs that call it.)
   */
  lemma FloatOverlappingShares(extent: int, imageSize: int, n: int)
    ensures n > 1 ==> FloatOverlapping(extent, imageSize, n) * (n - 1) as real == (extent * n - imageSize) as real
    ensures n <= 1 ==> FloatOverlapping(extent, imageSize, n) == 0.0
  {
  }

  /**
   * `_compute_tile_extent(idx, tile_extent, overlapping)`: the pair
   * (offset, extent) of tile `idx` along one axis; the offset is the rounded
   * multiple of the step `extent - overlapping`, the extent is the tile extent itself.
   */
  function AxisTile(idx: int, extent: int, overlapping: real): (r: (int, int))
    ensures r.1 == extent
  {
    RoundIntegral(extent);
    (RoundedMultiple(idx, extent as real - overlapping), Round(extent as real))
  }

  /** The offset of tile `i` along an axis, with the count and overlap the constructor derives. */
  function AxisOffset(i: int, extent: int, imageSize: int, minOverlapping: int): int
    requires minOverlapping < extent
  {
    var n := NumberOfTiles(extent, imageSize, minOverlapping);
    AxisTile(i, extent, FloatOverlapping(extent, imageSize, n)).0
  }

  /** The invariant `ConstSizeTiles.__init__` establishes. */
  predicate Valid(t: ConstSizeTiles)
  {
    var c := t.config;
    ValidConfig(c) &&
    0 <= t.minOverlapping < Min(c.tileExtent.x, c.tileExtent.y) &&
    t.nx == NumberOfTiles(c.tileExtent.x, c.imageSize.x, t.minOverlapping) &&
    t.ny == NumberOfTiles(c.tileExtent.y, c.imageSize.y, t.minOverlapping) &&
    t.overlapX == FloatOverlapping(c.tileExtent.x, c.imageSize.x, t.nx) &&
    t.overlapY == FloatOverlapping(c.tileExtent.y, c.imageSize.y, t.ny)
  }

  /**
   * `ConstSizeTiles.__init__`: the base checks, then
   * `0 <= min_overlapping < min(tile_extent)`, then the grid and the overlaps.
   * The source's two "number of tiles is not positive" checks can never fail
   * (see AtLeastTwoTiles) but are kept in their place.
   */
  function New(imageSize: seq<int>, tileSize: SizeArg, minOverlapping: int, scale: real)
    : (r: Result<ConstSizeTiles, Error>)
    ensures var base := NewConfig(imageSize, tileSize, scale);
      r.Success? <==>
        base.Success? && 0 <= minOverlapping < Min(base.value.tileExtent.x, base.value.tileExtent.y)
    ensures r.Success? ==>
      Valid(r.value) &&
      r.value.config == NewConfig(imageSize, tileSize, scale).value &&
      r.value.minOverlapping == minOverlapping
    ensures NewConfig(imageSize, tileSize, scale).Failure? ==>
      r == Failure(NewConfig(imageSize, tileSize, scale).error)
    ensures NewConfig(imageSize, tileSize, scale).Success? && r.Failure? ==> r.error == ValueError
  {
    var c :- NewConfig(imageSize, tileSize, scale);
    var e := c.tileExtent;
    if !(0 <= minOverlapping < Min(e.x, e.y)) then Failure(ValueError)
    else
      var nx := NumberOfTiles(e.x, c.imageSize.x, minOverlapping);
      var ny := NumberOfTiles(e.y, c.imageSize.y, minOverlapping);
      AtLeastTwoTiles(e.x, c.imageSize.x, minOverlapping);
      AtLeastTwoTiles(e.y, c.imageSize.y, minOverlapping);
      if nx < 1 then Failure(ValueError)
      else if ny < 1 then Failure(ValueError)
      else
        Success(ConstSizeTiles(c, minOverlapping, nx, ny,
          FloatOverlapping(e.x, c.imageSize.x, nx),
          FloatOverlapping(e.y, c.imageSize.y, ny)))
  }

  /** `__len__`: `nx * ny`; at least two tiles per axis, because a tile is smaller than the image. */
  function Len(t: ConstSizeTiles): (count: int)
    requires Valid(t)
    ensures count >= 4
  {
    var c := t.config;
    AtLeastTwoTiles(c.tileExtent.x, c.imageSize.x, t.minOverlapping);
    AtLeastTwoTiles(c.tileExtent.y, c.imageSize.y, t.minOverlapping);
    MulAtLeast(t.nx, t.ny, 2);
    t.nx * t.ny
  }

  /**
   * `__getitem__(idx)`: the tile at a row-major index, negative indices
   * counting from the end; every tile has the full tile extent and the
   * output size `tile_size`.
   */
  function Get(t: ConstSizeTiles, idx: int): (r: Result<Tile, Error>)
    requires Valid(t)
    ensures r.Success? <==> -Len(t) <= idx < Len(t)
    ensures r.Failure? ==> r.error == IndexError
    ensures r.Success? ==>
      r.value.rect.xExtent == t.config.tileExtent.x &&
      r.value.rect.yExtent == t.config.tileExtent.y &&
      r.value.outSize == t.config.tileSize
    ensures r.Success? ==>
      var p := GridIndex(idx, t.nx, t.ny).value;
      r.value.rect.xOffset == AxisOffset(p.x, t.config.tileExtent.x, t.config.imageSize.x, t.minOverlapping) &&
      r.value.rect.yOffset == AxisOffset(p.y, t.config.tileExtent.y, t.config.imageSize.y, t.minOverlapping)
  {
    var p :- GridIndex(idx, t.nx, t.ny);
    StoredOverlaps(t, p.x, p.y);
    var (xOffset, xExtent) := AxisTile(p.x, t.config.tileExtent.x, t.overlapX);
    var (yOffset, yExtent) := AxisTile(p.y, t.config.tileExtent.y, t.overlapY);
    Success(Tile(Rect(xOffset, yOffset, xExtent, yExtent), t.config.tileSize))
  }

  /** Helper: the overlaps stored by the constructor give the offsets of AxisOffset. */
  lemma StoredOverlaps(t: ConstSizeTiles, i: int, j: int)
    requires Valid(t)
    ensures AxisTile(i, t.config.tileExtent.x, t.overlapX).0 ==
      AxisOffset(i, t.config.tileExtent.x, t.config.imageSize.x, t.minOverlapping)
    ensures AxisTile(j, t.config.tileExtent.y, t.overlapY).0 ==
      AxisOffset(j, t.config.tileExtent.y, t.config.imageSize.y, t.minOverlapping)
  {
  }

  // ---------------------------------------------------------------------------
  // One axis

  /** The distance between neighbouring tile offsets along an axis, before rounding. */
  function Step(extent: int, imageSize: int, minOverlapping: int): real
    requires minOverlapping < extent
  {
    extent as real - FloatOverlapping(extent, imageSize, NumberOfTiles(extent, imageSize, minOverlapping))
  }

  /** Helper: the offset of tile `i` is the `i`-th multiple of the step, rounded. */
  lemma AxisOffsetIs(i: int, extent: int, imageSize: int, minOverlapping: int)
    requires minOverlapping < extent
    ensures AxisOffset(i, extent, imageSize, minOverlapping) == RoundedMultiple(i, Step(extent, imageSize, minOverlapping))
  {
  }

  /**
   * Along one axis there are at least two tiles, the overlap is at least
   * `minOverlapping` and below the extent, and the `n - 1` steps of
   * `extent - overlap` add up to exactly `imageSize - extent`.
   */
  lemma AxisGeometry(extent: int, imageSize: int, minOverlapping: int)
    requires 0 <= minOverlapping < extent < imageSize
    ensures var n := NumberOfTiles(extent, imageSize, minOverlapping);
      var overlap := FloatOverlapping(extent, imageSize, n);
      n >= 2 &&
      minOverlapping as real <= overlap < extent as real &&
      (n - 1) as real * Step(extent, imageSize, minOverlapping) == (imageSize - extent) as real
  {
    var n := NumberOfTiles(extent, imageSize, minOverlapping);
    FloatOverlappingShares(extent, imageSize, n);
    var overlap := FloatOverlapping(extent, imageSize, n);
    var step := Step(extent, imageSize, minOverlapping);
    GeometryOf(extent, imageSize, minOverlapping, n, overlap, step);
  }

  /** Helper: AxisGeometry on plain values, from the facts the count and the overlap satisfy. */
  lemma GeometryOf(extent: int, imageSize: int, minOverlapping: int, n: int, overlap: real, step: real)
    requires 0 <= minOverlapping < extent < imageSize
    requires (n - 1) * (extent - minOverlapping) < imageSize <= n * (extent - minOverlapping)
    requires n > 1 ==> overlap * (n - 1) as real == (extent * n - imageSize) as real
    requires step == extent as real - overlap
    ensures n >= 2
    ensures minOverlapping as real <= overlap < extent as real
    ensures (n - 1) as real * step == (imageSize - extent) as real
  {
    CountFacts(extent, imageSize, minOverlapping, n);
    OverlapFacts(extent, imageSize, minOverlapping, n, overlap, step);
  }

  /** Every axis has at least two tiles, since a tile is smaller than the image. */
  lemma AtLeastTwoTiles(extent: int, imageSize: int, minOverlapping: int)
    requires 0 <= minOverlapping < extent < imageSize
    ensures NumberOfTiles(extent, imageSize, minOverlapping) >= 2
  {
    CountFacts(extent, imageSize, minOverlapping, NumberOfTiles(extent, imageSize, minOverlapping));
  }

  /** Helper: a product of two factors of at least `k >= 0` is at least `k * k`. */
  lemma MulAtLeast(a: int, b: int, k: int)
    requires 0 <= k <= a && k <= b
    ensures a * b >= k * k
  {
    MulMonotone(k, a, b);
    MulMonotone(k, b, k);
  }

  /** Helper: the integer facts behind AxisGeometry. */
  lemma CountFacts(extent: int, imageSize: int, minOverlapping: int, n: int)
    requires 0 <= minOverlapping < extent < imageSize
    requires (n - 1) * (extent - minOverlapping) < imageSize <= n * (extent - minOverlapping)
    ensures n >= 2
    ensures minOverlapping * (n - 1) <= extent * n - imageSize < extent * (n - 1)
  {
    var w := extent - minOverlapping;
    assert n * w == (n - 1) * w + w;
    MulSign(n - 1, w);
    assert n * w == extent * n - minOverlapping * n;
    assert minOverlapping * (n - 1) == minOverlapping * n - minOverlapping;
    assert extent * (n - 1) == extent * n - extent;
  }

  /** Helper: the real facts behind AxisGeometry, cancelling the `n - 1` gaps. */
  lemma OverlapFacts(extent: int, imageSize: int, minOverlapping: int, n: int, overlap: real, step: real)
    requires n >= 2 && step == extent as real - overlap
    requires overlap * (n - 1) as real == (extent * n - imageSize) as real
    requires minOverlapping * (n - 1) <= extent * n - imageSize < extent * (n - 1)
    ensures minOverlapping as real <= overlap < extent as real
    ensures (n - 1) as real * step == (imageSize - extent) as real
  {
    var gaps := (n - 1) as real;
    assert (minOverlapping * (n - 1)) as real == minOverlapping as real * gaps;
    assert (extent * (n - 1)) as real == extent as real * gaps;
    MulOrder(minOverlapping as real, overlap, gaps);
    MulOrder(extent as real, overlap, gaps);
    assert gaps * step == extent as real * gaps - overlap * gaps;
    assert extent * (n - 1) - (extent * n - imageSize) == imageSize - extent;
  }

  /**
   * The tiles along an axis lie inside `[0, imageSize)`; the first starts at
   * 0 and the last ends exactly at `imageSize`.
   */
  lemma AxisOffsetBounds(extent: int, imageSize: int, minOverlapping: int, i: int)
    requires 0 <= minOverlapping < extent < imageSize
    requires 0 <= i < NumberOfTiles(extent, imageSize, minOverlapping)
    ensures 0 <= AxisOffset(i, extent, imageSize, minOverlapping) <= imageSize - extent
    ensures i == 0 ==> AxisOffset(i, extent, imageSize, minOverlapping) == 0
    ensures i == NumberOfTiles(extent, imageSize, minOverlapping) - 1 ==>
      AxisOffset(i, extent, imageSize, minOverlapping) == imageSize - extent
  {
    var n := NumberOfTiles(extent, imageSize, minOverlapping);
    AxisGeometry(extent, imageSize, minOverlapping);
    AxisOffsetIs(i, extent, imageSize, minOverlapping);
    RoundedMultipleBounds(i, n, Step(extent, imageSize, minOverlapping), imageSize - extent);
  }

  /**
   * Neighbouring tiles along an axis advance by at least 0 and at most
   * `extent - minOverlapping` pixels, so they overlap by at least `minOverlapping`.
   */
  lemma AxisOffsetStep(extent: int, imageSize: int, minOverlapping: int, i: int)
    requires 0 <= minOverlapping < extent < imageSize
    requires 0 <= i < NumberOfTiles(extent, imageSize, minOverlapping) - 1
    ensures 0 <= AxisOffset(i + 1, extent, imageSize, minOverlapping) - AxisOffset(i, extent, imageSize, minOverlapping)
              <= extent - minOverlapping
  {
    var n := NumberOfTiles(extent, imageSize, minOverlapping);
    AxisGeometry(extent, imageSize, minOverlapping);
    AxisOffsetIs(i, extent, imageSize, minOverlapping);
    AxisOffsetIs(i + 1, extent, imageSize, minOverlapping);
    RoundStep(i, Step(extent, imageSize, minOverlapping), extent - minOverlapping);
  }

  /** Every pixel before the end of tile `k` lies in one of the tiles `0..k`. */
  lemma {:induction false} AxisCoverPrefix(extent: int, imageSize: int, minOverlapping: int, k: int, p: int)
    requires 0 <= minOverlapping < extent < imageSize
    requires 0 <= k < NumberOfTiles(extent, imageSize, minOverlapping)
    requires 0 <= p < AxisOffset(k, extent, imageSize, minOverlapping) + extent
    ensures exists i :: (0 <= i <= k &&
      AxisOffset(i, extent, imageSize, minOverlapping) <= p < AxisOffset(i, extent, imageSize, minOverlapping) + extent)
    decreases k
  {
    if AxisOffset(k, extent, imageSize, minOverlapping) > p {
      AxisOffsetBounds(extent, imageSize, minOverlapping, 0);
      assert k != 0;
      AxisOffsetStep(extent, imageSize, minOverlapping, k - 1);
      AxisCoverPrefix(extent, imageSize, minOverlapping, k - 1, p);
    }
  }

  /** The tiles along an axis cover every pixel of `[0, imageSize)`. */
  lemma AxisCovers(extent: int, imageSize: int, minOverlapping: int, p: int)
    requires 0 <= minOverlapping < extent < imageSize
    requires 0 <= p < imageSize
    ensures exists i :: (0 <= i < NumberOfTiles(extent, imageSize, minOverlapping) &&
      AxisOffset(i, extent, imageSize, minOverlapping) <= p < AxisOffset(i, extent, imageSize, minOverlapping) + extent)
  {
    var n := NumberOfTiles(extent, imageSize, minOverlapping);
    AxisGeometry(extent, imageSize, minOverlapping);
    AxisOffsetBounds(extent, imageSize, minOverlapping, n - 1);
    AxisCoverPrefix(extent, imageSize, minOverlapping, n - 1, p);
  }

  // ---------------------------------------------------------------------------
  // The grid of tiles

  /** Every tile lies inside the image. */
  lemma TileInsideImage(t: ConstSizeTiles, idx: int)
    requires Valid(t) && -Len(t) <= idx < Len(t)
    ensures var r := Get(t, idx).value.rect;
      0 <= r.xOffset && r.xOffset + r.xExtent <= t.config.imageSize.x &&
      0 <= r.yOffset && r.yOffset + r.yExtent <= t.config.imageSize.y
  {
    var p := GridIndex(idx, t.nx, t.ny).value;
    var c := t.config;
    AxisOffsetBounds(c.tileExtent.x, c.imageSize.x, t.minOverlapping, p.x);
    AxisOffsetBounds(c.tileExtent.y, c.imageSize.y, t.minOverlapping, p.y);
  }

  /** Helper: the first tile along an axis is at offset 0. */
  lemma AxisOffsetZero(extent: int, imageSize: int, minOverlapping: int)
    requires minOverlapping < extent
    ensures AxisOffset(0, extent, imageSize, minOverlapping) == 0
  {
    var d := Step(extent, imageSize, minOverlapping);
    AxisOffsetIs(0, extent, imageSize, minOverlapping);
    RoundedMultipleZero(d);
  }

  /** `tiles[0]` starts at `(0, 0)`. */
  lemma FirstTile(t: ConstSizeTiles)
    requires Valid(t)
    ensures Get(t, 0) == Success(Tile(Rect(0, 0, t.config.tileExtent.x, t.config.tileExtent.y), t.config.tileSize))
  {
    var c := t.config;
    GridIndexFirst(t.nx, t.ny);
    AxisOffsetZero(c.tileExtent.x, c.imageSize.x, t.minOverlapping);
    AxisOffsetZero(c.tileExtent.y, c.imageSize.y, t.minOverlapping);
    var r := Get(t, 0);
    assert r.Success?;
    assert r.value.rect == Rect(0, 0, c.tileExtent.x, c.tileExtent.y);
  }

  /** `tiles[-1]` starts inside the image and ends exactly at its right and bottom edges. */
  lemma LastTile(t: ConstSizeTiles)
    requires Valid(t)
    ensures Get(t, -1).Success?
    ensures var r := Get(t, -1).value.rect;
      r.xOffset < t.config.imageSize.x && r.xOffset + r.xExtent == t.config.imageSize.x &&
      r.yOffset < t.config.imageSize.y && r.yOffset + r.yExtent == t.config.imageSize.y
  {
    var c := t.config;
    assert Len(t) >= 1;
    GridIndexLast(t.nx, t.ny);
    AxisOffsetBounds(c.tileExtent.x, c.imageSize.x, t.minOverlapping, t.nx - 1);
    AxisOffsetBounds(c.tileExtent.y, c.imageSize.y, t.minOverlapping, t.ny - 1);
  }

  /** `tiles[-k]` is `tiles[len(tiles) - k]`. */
  lemma NegativeIndex(t: ConstSizeTiles, k: int)
    requires Valid(t) && 1 <= k <= Len(t)
    ensures Get(t, -k) == Get(t, Len(t) - k)
  {
    GridIndexNegative(k, t.nx, t.ny);
  }

  /**
   * From one index to the next, a tile either moves right along its row by
   * 0 to `tile_extent.x - min_overlapping` pixels, or wraps to the start of
   * the next row, 0 to `tile_extent.y - min_overlapping` pixels further down.
   */
  lemma ConsecutiveTiles(t: ConstSizeTiles, idx: int)
    requires Valid(t) && 0 <= idx < Len(t) - 1
    ensures var a, b := Get(t, idx).value.rect, Get(t, idx + 1).value.rect;
      (b.yOffset == a.yOffset && 0 <= b.xOffset - a.xOffset <= t.config.tileExtent.x - t.minOverlapping) ||
      (b.xOffset == 0 && 0 <= b.yOffset - a.yOffset <= t.config.tileExtent.y - t.minOverlapping)
  {
    var c := t.config;
    var p := GridIndex(idx, t.nx, t.ny).value;
    GridIndexNext(idx, t.nx, t.ny);
    if p.x < t.nx - 1 {
      AxisOffsetStep(c.tileExtent.x, c.imageSize.x, t.minOverlapping, p.x);
    } else {
      AxisOffsetBounds(c.tileExtent.x, c.imageSize.x, t.minOverlapping, 0);
      AxisOffsetStep(c.tileExtent.y, c.imageSize.y, t.minOverlapping, p.y);
    }
  }

  /** Every pixel of the image lies in some tile. */
  lemma TilesCoverImage(t: ConstSizeTiles, px: int, py: int)
    requires Valid(t)
    requires 0 <= px < t.config.imageSize.x && 0 <= py < t.config.imageSize.y
    ensures exists idx :: 0 <= idx < Len(t) && Contains(Get(t, idx).value.rect, px, py)
  {
    var c := t.config;
    var m := t.minOverlapping;
    AxisCovers(c.tileExtent.x, c.imageSize.x, m, px);
    var i :| 0 <= i < t.nx &&
      AxisOffset(i, c.tileExtent.x, c.imageSize.x, m) <= px < AxisOffset(i, c.tileExtent.x, c.imageSize.x, m) + c.tileExtent.x;
    AxisCovers(c.tileExtent.y, c.imageSize.y, m, py);
    var j :| 0 <= j < t.ny &&
      AxisOffset(j, c.tileExtent.y, c.imageSize.y, m) <= py < AxisOffset(j, c.tileExtent.y, c.imageSize.y, m) + c.tileExtent.y;
    GridIndexRowMajor(i, j, t.nx, t.ny);
    var idx := j * t.nx + i;
    assert Contains(Get(t, idx).value.rect, px, py);
  }

  /** The worked values of the source's own examples. */
  lemma Examples()
    ensures NumberOfTiles(32, 100, 0) == 4 && NumberOfTiles(32, 100, 7) == 4 && NumberOfTiles(3, 20, 1) == 10
    ensures FloatOverlapping(32, 100, 4) == 28.0 / 3.0
    ensures New([500, 500], Items([256, 256]), -1, 1.0) == Failure(ValueError)
    ensures New([500, 500], Items([256, 256]), 256, 1.0) == Failure(ValueError)
    ensures New([500, 500], Items([256, 256]), 300, 1.0) == Failure(ValueError)
    ensures New([100, 100], Items([32, 32]), 0, 1.0).Success?
    ensures var t := New([100, 100], Items([32, 32]), 0, 1.0).value;
      t.nx == 4 && Len(t) == 16 && Get(t, 0) == Success(Tile(Rect(0, 0, 32, 32), Pair(32, 32)))
  {
    assert Unscale(256, 1.0) == 256;
    assert Unscale(32, 1.0) == 32;
    var t := New([100, 100], Items([32, 32]), 0, 1.0).value;
    FirstTile(t);
  }

  /** An index far past the end is an IndexError. */
  lemma IndexExample()
    ensures New([100, 120], Items([10, 10]), 5, 1.0).Success?
    ensures Get(New([100, 120], Items([10, 10]), 5, 1.0).value, 10000) == Failure(IndexError)
  {
    assert Unscale(10, 1.0) == 10;
    assert NumberOfTiles(10, 100, 5) == 20 && NumberOfTiles(10, 120, 5) == 24;
  }
}
