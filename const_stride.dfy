/**
 * tiling/const_stride.py: `ConstStrideTiles`, tiles whose offsets advance by
 * a fixed stride from a given (possibly negative) origin, either padded with
 * nodata outside the image or clipped to it.
 *
 * Arithmetic is exact: the source's `np.float32` cast of the clipped output
 * size is left out and `scale` is an exact `real`.
 */
module ConstStride {
  import opened Wrappers
  import opened Rounding
  import opened Base

  /** The fields `ConstStrideTiles.__init__` adds to those of `BaseTiles`. */
  datatype ConstStrideTiles = ConstStrideTiles(
    config: Config,
    stride: Pair,
    origin: Pair,
    includeNodata: bool,
    nx: int,
    ny: int)

  /**
   * `_compute_number_of_tiles(image_size, tile_extent, origin, stride)`: the
   * least number of tiles, at least one, such that the last one reaches
   * `imageSize` when it spans `max(extent, stride)` pixels from its offset.
   */
  function NumberOfTiles(imageSize: int, extent: int, origin: int, stride: int): (n: int)
    requires stride >= 1
    ensures n >= 1
    ensures (n - 1) * stride + origin + Max(extent, stride) >= imageSize
    ensures n == 1 || (n - 2) * stride + origin + Max(extent, stride) < imageSize
  {
    var maxExtent := Max(extent, stride);
    var a := imageSize - maxExtent - origin;
    var c := CeilInt(a as real / stride as real);
    CeilOfQuotient(a, stride);
    assert CeilInt(1.0 + a as real / stride as real) == 1 + c;
    MulSign(c, stride);
    assert (c - 1) * stride == c * stride - stride;
    Max(CeilInt(1.0 + a as real / stride as real), 1)
  }

  /**
   * `_compute_tile_extent(idx, tile_extent, stride, origin, image_size, include_nodata)`:
   * the (offset, extent) of tile `idx` along one axis. The offset is
   * `idx * stride + origin`; without nodata the tile is clipped to the image:
   * it starts at `max(offset, 0)`, lies inside the image and is at most
   * `extent` long, and its length is negative only when it starts at or past
   * the end (ClippedIsIntersection gives its pixels).
   */
  function AxisTile(idx: int, extent: int, stride: int, origin: int, imageSize: int, includeNodata: bool)
    : (r: (int, int))
    ensures includeNodata ==> r.1 == extent
    ensures !includeNodata ==> r.0 == Max(idx * stride + origin, 0)
    ensures !includeNodata && 0 <= extent < imageSize ==>
      0 <= r.0 && r.0 + r.1 <= imageSize && r.1 <= extent &&
      (idx * stride + origin < imageSize ==> 0 <= r.1)
  {
    var offset := idx * stride + origin;
    if !includeNodata then
      var clipped := Max(offset + extent, 0) - Max(offset, 0);
      (Max(offset, 0), Min(clipped, imageSize - offset))
    else
      (offset, extent)
  }

  /**
   * `_compute_out_size(computed_extent, tile_extent, tile_size, scale)`: a
   * clipped extent is scaled back to output pixels and rounded up; a full one
   * keeps `tile_size`.
   */
  function OutSize(computedExtent: int, tileExtent: int, tileSize: int, scale: real): (r: int)
    ensures computedExtent < tileExtent ==>
      computedExtent as real * scale <= r as real < computedExtent as real * scale + 1.0
    ensures tileExtent <= computedExtent ==> r == tileSize
  {
    if computedExtent < tileExtent then CeilInt(computedExtent as real * scale)
    else tileSize
  }

  /** The invariant `ConstStrideTiles.__init__` establishes. */
  predicate Valid(t: ConstStrideTiles)
  {
    var c := t.config;
    ValidConfig(c) &&
    t.stride.x >= 1 && t.stride.y >= 1 &&
    t.nx == NumberOfTiles(c.imageSize.x, c.tileExtent.x, t.origin.x, t.stride.x) &&
    t.ny == NumberOfTiles(c.imageSize.y, c.tileExtent.y, t.origin.y, t.stride.y)
  }

  /**
   * `ConstStrideTiles.__init__`: the base checks, then the stride, which must
   * be an int or a pair and, scaled to `floor(stride / scale)`, at least 1
   * on both axes; the source checks the stride with `assert`.
   */
  function New(imageSize: seq<int>, tileSize: SizeArg, stride: SizeArg, scale: real, origin: Pair,
               includeNodata: bool): (r: Result<ConstStrideTiles, Error>)
    ensures var base := NewConfig(imageSize, tileSize, scale);
      r.Success? <==>
        base.Success? && AsPair(stride).Some? &&
        Unscale(AsPair(stride).value.x, scale) >= 1 && Unscale(AsPair(stride).value.y, scale) >= 1
    ensures r.Success? ==>
      Valid(r.value) &&
      r.value.config == NewConfig(imageSize, tileSize, scale).value &&
      r.value.stride == Pair(Unscale(AsPair(stride).value.x, scale), Unscale(AsPair(stride).value.y, scale)) &&
      r.value.origin == origin && r.value.includeNodata == includeNodata
    ensures NewConfig(imageSize, tileSize, scale).Failure? ==>
      r == Failure(NewConfig(imageSize, tileSize, scale).error)
    ensures NewConfig(imageSize, tileSize, scale).Success? && r.Failure? ==> r.error == AssertionError
  {
    var c :- NewConfig(imageSize, tileSize, scale);
    if AsPair(stride).None? then Failure(AssertionError)
    else
      var s := AsPair(stride).value;
      var scaled := Pair(Unscale(s.x, c.scale), Unscale(s.y, c.scale));
      if scaled.x <= 0 || scaled.y <= 0 then Failure(AssertionError)
      else
        Success(ConstStrideTiles(c, scaled, origin, includeNodata,
          NumberOfTiles(c.imageSize.x, c.tileExtent.x, origin.x, scaled.x),
          NumberOfTiles(c.imageSize.y, c.tileExtent.y, origin.y, scaled.y)))
  }

  /** `__len__`: `nx * ny`, never zero. */
  function Len(t: ConstStrideTiles): (count: int)
    requires Valid(t)
    ensures count >= 1
  {
    MulSign(t.nx, t.ny);
    t.nx * t.ny
  }

  /**
   * `__getitem__(idx)`: the tile at a row-major index, negative indices
   * counting from the end. With nodata, tiles sit at `index * stride + origin`
   * with the full extent and output size `tile_size`.
   */
  function Get(t: ConstStrideTiles, idx: int): (r: Result<Tile, Error>)
    requires Valid(t)
    ensures r.Success? <==> -Len(t) <= idx < Len(t)
    ensures r.Failure? ==> r.error == IndexError
    ensures r.Success? && t.includeNodata ==>
      var p := GridIndex(idx, t.nx, t.ny).value;
      r.value == Tile(Rect(p.x * t.stride.x + t.origin.x, p.y * t.stride.y + t.origin.y,
                           t.config.tileExtent.x, t.config.tileExtent.y),
                      t.config.tileSize)
  {
    var c := t.config;
    var p :- GridIndex(idx, t.nx, t.ny);
    var (xOffset, xExtent) := AxisTile(p.x, c.tileExtent.x, t.stride.x, t.origin.x, c.imageSize.x, t.includeNodata);
    var (yOffset, yExtent) := AxisTile(p.y, c.tileExtent.y, t.stride.y, t.origin.y, c.imageSize.y, t.includeNodata);
    var xOutSize := if t.includeNodata then c.tileSize.x else OutSize(xExtent, c.tileExtent.x, c.tileSize.x, c.scale);
    var yOutSize := if t.includeNodata then c.tileSize.y else OutSize(yExtent, c.tileExtent.y, c.tileSize.y, c.scale);
    Success(Tile(Rect(xOffset, yOffset, xExtent, yExtent), Pair(xOutSize, yOutSize)))
  }

  // ---------------------------------------------------------------------------
  // One axis

  /**
   * The last tile along an axis reaches the end of the image, and when the
   * origin lies before the end it also starts before the end.
   */
  lemma LastAxisOffset(imageSize: int, extent: int, origin: int, stride: int)
    requires stride >= 1
    ensures var last := (NumberOfTiles(imageSize, extent, origin, stride) - 1) * stride + origin;
      last + Max(extent, stride) >= imageSize &&
      (origin < imageSize ==> last < imageSize)
  {
    var n := NumberOfTiles(imageSize, extent, origin, stride);
    assert (n - 1) * stride == (n - 2) * stride + stride;
  }

  /**
   * Without nodata a tile is clipped to the image: it starts at
   * `max(offset, 0)` and holds exactly the pixels of the unclipped tile that
   * lie in `[0, imageSize)`.
   */
  lemma ClippedIsIntersection(idx: int, extent: int, stride: int, origin: int, imageSize: int)
    requires 0 <= extent < imageSize
    ensures var offset := idx * stride + origin;
      var r := AxisTile(idx, extent, stride, origin, imageSize, false);
      r.0 == Max(offset, 0) &&
      forall p :: InSpan(p, r.0, r.1) <==> InSpan(p, offset, extent) && InSpan(p, 0, imageSize)
  {
  }

  /**
   * The source clips the extent against `imageSize - offset` with the
   * unclipped offset; with the clipped offset the extent is the same.
   */
  lemma ClipWithClippedOffset(offset: int, extent: int, imageSize: int)
    requires 0 <= extent < imageSize
    ensures var clipped := Max(offset + extent, 0) - Max(offset, 0);
      Min(clipped, imageSize - offset) == Min(clipped, imageSize - Max(offset, 0))
  {
  }

  /**
   * Without nodata the output size is `tile_size` for a full tile and the
   * scaled, rounded-up extent otherwise, never more than `tile_size`.
   */
  lemma OutSizeBounds(computedExtent: int, tileExtent: int, tileSize: int, scale: real)
    requires scale > 0.0 && tileExtent == Unscale(tileSize, scale)
    requires computedExtent <= tileExtent
    ensures computedExtent == tileExtent ==> OutSize(computedExtent, tileExtent, tileSize, scale) == tileSize
    ensures OutSize(computedExtent, tileExtent, tileSize, scale) <= tileSize
    ensures 0 <= computedExtent ==> 0 <= OutSize(computedExtent, tileExtent, tileSize, scale)
  {
    MulOrder(computedExtent as real, tileExtent as real, scale);
  }

  /**
   * When the stride does not exceed the extent, the tiles along an axis
   * leave no gap: every pixel from the origin (or 0) up to the end of the
   * image lies in one of them.
   */
  lemma AxisCovers(imageSize: int, extent: int, origin: int, stride: int, p: int)
    requires 1 <= stride <= extent
    requires origin <= p < imageSize
    ensures exists i :: (0 <= i < NumberOfTiles(imageSize, extent, origin, stride) &&
      InSpan(p, i * stride + origin, extent))
  {
    var n := NumberOfTiles(imageSize, extent, origin, stride);
    var q := (p - origin) / stride;
    var last := n - 1;
    QuotientBounds(p - origin, stride);
    if q < last {
      assert InSpan(p, q * stride + origin, extent);
    } else {
      MulMonotone(last, q, stride);
      assert InSpan(p, last * stride + origin, extent);
    }
  }

  /** Helper: the quotient of a non-negative `a` by `s` brackets `a` between two multiples of `s`. */
  lemma QuotientBounds(a: int, s: int)
    requires a >= 0 && s >= 1
    ensures (a / s) * s <= a < (a / s) * s + s
  {
  }

  // ---------------------------------------------------------------------------
  // The grid of tiles

  /** `tiles[0]` starts at the origin, clipped to `(0, 0)` without nodata. */
  lemma FirstTile(t: ConstStrideTiles)
    requires Valid(t)
    ensures Get(t, 0).Success?
    ensures var r := Get(t, 0).value.rect;
      if t.includeNodata then r.xOffset == t.origin.x && r.yOffset == t.origin.y
      else r.xOffset == Max(t.origin.x, 0) && r.yOffset == Max(t.origin.y, 0)
  {
    GridIndexFirst(t.nx, t.ny);
  }

  /** `tiles[-k]` is `tiles[len(tiles) - k]`. */
  lemma NegativeIndex(t: ConstStrideTiles, k: int)
    requires Valid(t) && 1 <= k <= Len(t)
    ensures Get(t, -k) == Get(t, Len(t) - k)
  {
    GridIndexNegative(k, t.nx, t.ny);
  }

  /**
   * With nodata, from one index to the next a tile moves right by exactly
   * the x stride, or wraps back to the x origin one y stride further down.
   */
  lemma ConsecutiveTiles(t: ConstStrideTiles, idx: int)
    requires Valid(t) && t.includeNodata && 0 <= idx < Len(t) - 1
    ensures var a, b := Get(t, idx).value.rect, Get(t, idx + 1).value.rect;
      (b.yOffset == a.yOffset && b.xOffset - a.xOffset == t.stride.x) ||
      (b.xOffset == t.origin.x && b.yOffset - a.yOffset == t.stride.y)
  {
    var p := GridIndex(idx, t.nx, t.ny).value;
    GridIndexNext(idx, t.nx, t.ny);
    assert (p.x + 1) * t.stride.x == p.x * t.stride.x + t.stride.x;
    assert (p.y + 1) * t.stride.y == p.y * t.stride.y + t.stride.y;
  }

  /**
   * With nodata, `tiles[-1]` reaches the end of the image on both axes once
   * it spans `max(extent, stride)`, and starts before the end when the
   * origin does.
   */
  lemma LastTile(t: ConstStrideTiles)
    requires Valid(t) && t.includeNodata
    ensures Get(t, -1).Success?
    ensures var r, c := Get(t, -1).value.rect, t.config;
      r.xOffset + Max(r.xExtent, t.stride.x) >= c.imageSize.x &&
      r.yOffset + Max(r.yExtent, t.stride.y) >= c.imageSize.y &&
      (t.origin.x < c.imageSize.x ==> r.xOffset < c.imageSize.x) &&
      (t.origin.y < c.imageSize.y ==> r.yOffset < c.imageSize.y)
  {
    var c := t.config;
    GridIndexLast(t.nx, t.ny);
    LastAxisOffset(c.imageSize.x, c.tileExtent.x, t.origin.x, t.stride.x);
    LastAxisOffset(c.imageSize.y, c.tileExtent.y, t.origin.y, t.stride.y);
  }

  /**
   * Without nodata, `tiles[-1]` never passes the end of the image, starts
   * inside it when the origin does, and ends exactly at the end when tiles
   * overlap (stride below extent).
   */
  lemma LastTileClipped(t: ConstStrideTiles)
    requires Valid(t) && !t.includeNodata
    ensures Get(t, -1).Success?
    ensures var r, c := Get(t, -1).value.rect, t.config;
      r.xOffset + r.xExtent <= c.imageSize.x &&
      r.yOffset + r.yExtent <= c.imageSize.y &&
      (t.origin.x < c.imageSize.x ==> r.xOffset < c.imageSize.x) &&
      (t.origin.y < c.imageSize.y ==> r.yOffset < c.imageSize.y) &&
      (t.stride.x < c.tileExtent.x ==> r.xOffset + r.xExtent == c.imageSize.x) &&
      (t.stride.y < c.tileExtent.y ==> r.yOffset + r.yExtent == c.imageSize.y)
  {
    var c := t.config;
    GridIndexLast(t.nx, t.ny);
    LastClippedAxis(c.imageSize.x, c.tileExtent.x, t.origin.x, t.stride.x);
    LastClippedAxis(c.imageSize.y, c.tileExtent.y, t.origin.y, t.stride.y);
  }

  /**
   * Without nodata the last tile along an axis ends inside the image, starts
   * inside it when the origin does, and ends exactly at the end when the
   * stride is below the extent (when the origin lies past the end there is
   * one tile, of negative length, ending there).
   */
  lemma LastClippedAxis(imageSize: int, extent: int, origin: int, stride: int)
    requires 1 <= stride && 0 <= extent < imageSize
    ensures var n := NumberOfTiles(imageSize, extent, origin, stride);
      var r := AxisTile(n - 1, extent, stride, origin, imageSize, false);
      r.0 + r.1 <= imageSize &&
      (origin < imageSize ==> r.0 < imageSize) &&
      (stride < extent ==> r.0 + r.1 == imageSize)
  {
    var n := NumberOfTiles(imageSize, extent, origin, stride);
    LastAxisOffset(imageSize, extent, origin, stride);
    MulSign(n - 1, stride);
    assert (n - 1) * stride == (n - 2) * stride + stride;
  }

  /**
   * Without nodata every tile lies inside the image, is at most the tile
   * extent, and its output size is at most `tile_size` (and exactly
   * `tile_size` for a full tile).
   */
  lemma TileInsideImage(t: ConstStrideTiles, idx: int)
    requires Valid(t) && !t.includeNodata && -Len(t) <= idx < Len(t)
    ensures var tile, c := Get(t, idx).value, t.config;
      0 <= tile.rect.xOffset && tile.rect.xOffset + tile.rect.xExtent <= c.imageSize.x &&
      0 <= tile.rect.yOffset && tile.rect.yOffset + tile.rect.yExtent <= c.imageSize.y &&
      tile.rect.xExtent <= c.tileExtent.x && tile.rect.yExtent <= c.tileExtent.y &&
      tile.outSize.x <= c.tileSize.x && tile.outSize.y <= c.tileSize.y &&
      (tile.rect.xExtent == c.tileExtent.x ==> tile.outSize.x == c.tileSize.x) &&
      (tile.rect.yExtent == c.tileExtent.y ==> tile.outSize.y == c.tileSize.y)
  {
    var c := t.config;
    var p := GridIndex(idx, t.nx, t.ny).value;
    var r := Get(t, idx).value.rect;
    OutSizeBounds(r.xExtent, c.tileExtent.x, c.tileSize.x, c.scale);
    OutSizeBounds(r.yExtent, c.tileExtent.y, c.tileSize.y, c.scale);
  }

  /**
   * Without nodata, `tiles[idx]` is the unclipped tile at
   * `(x * S_x + O_x, y * S_y + O_y)` cut down to the image: it starts at the
   * clipped offset, holds exactly the pixels of the unclipped tile that lie in
   * the image on each axis, and its output size is the clipped extent scaled
   * back by OutSize.
   */
  lemma GetClipped(t: ConstStrideTiles, idx: int)
    requires Valid(t) && !t.includeNodata && -Len(t) <= idx < Len(t)
    ensures var p, c := GridIndex(idx, t.nx, t.ny).value, t.config;
      var tile := Get(t, idx).value;
      var ox, oy := p.x * t.stride.x + t.origin.x, p.y * t.stride.y + t.origin.y;
      tile.rect.xOffset == Max(ox, 0) && tile.rect.yOffset == Max(oy, 0) &&
      (forall px :: InSpan(px, tile.rect.xOffset, tile.rect.xExtent) <==>
        InSpan(px, ox, c.tileExtent.x) && InSpan(px, 0, c.imageSize.x)) &&
      (forall py :: InSpan(py, tile.rect.yOffset, tile.rect.yExtent) <==>
        InSpan(py, oy, c.tileExtent.y) && InSpan(py, 0, c.imageSize.y)) &&
      tile.outSize == Pair(OutSize(tile.rect.xExtent, c.tileExtent.x, c.tileSize.x, c.scale),
                           OutSize(tile.rect.yExtent, c.tileExtent.y, c.tileSize.y, c.scale))
  {
    var p, c := GridIndex(idx, t.nx, t.ny).value, t.config;
    var ax := AxisTile(p.x, c.tileExtent.x, t.stride.x, t.origin.x, c.imageSize.x, false);
    var ay := AxisTile(p.y, c.tileExtent.y, t.stride.y, t.origin.y, c.imageSize.y, false);
    assert Get(t, idx).value == Tile(Rect(ax.0, ay.0, ax.1, ay.1),
      Pair(OutSize(ax.1, c.tileExtent.x, c.tileSize.x, c.scale), OutSize(ay.1, c.tileExtent.y, c.tileSize.y, c.scale)));
    ClippedIsIntersection(p.x, c.tileExtent.x, t.stride.x, t.origin.x, c.imageSize.x);
    ClippedIsIntersection(p.y, c.tileExtent.y, t.stride.y, t.origin.y, c.imageSize.y);
  }

  /**
   * When neither stride exceeds its tile extent, every pixel of the image
   * from the origin on (from 0 when the origin is negative) lies in some
   * tile, with or without nodata.
   */
  lemma TilesCoverImage(t: ConstStrideTiles, px: int, py: int)
    requires Valid(t)
    requires t.stride.x <= t.config.tileExtent.x && t.stride.y <= t.config.tileExtent.y
    requires Max(t.origin.x, 0) <= px < t.config.imageSize.x && Max(t.origin.y, 0) <= py < t.config.imageSize.y
    ensures exists idx :: 0 <= idx < Len(t) && Contains(Get(t, idx).value.rect, px, py)
  {
    var c := t.config;
    AxisCovers(c.imageSize.x, c.tileExtent.x, t.origin.x, t.stride.x, px);
    var i :| 0 <= i < t.nx && InSpan(px, i * t.stride.x + t.origin.x, c.tileExtent.x);
    AxisCovers(c.imageSize.y, c.tileExtent.y, t.origin.y, t.stride.y, py);
    var j :| 0 <= j < t.ny && InSpan(py, j * t.stride.y + t.origin.y, c.tileExtent.y);
    GridIndexRowMajor(i, j, t.nx, t.ny);
    var idx := j * t.nx + i;
    if !t.includeNodata {
      ClippedIsIntersection(i, c.tileExtent.x, t.stride.x, t.origin.x, c.imageSize.x);
      ClippedIsIntersection(j, c.tileExtent.y, t.stride.y, t.origin.y, c.imageSize.y);
    }
    assert Contains(Get(t, idx).value.rect, px, py);
  }

  /** The worked values of the source's own examples. */
  lemma Examples()
    ensures New([100, 120], Items([10, 10]), Items([5, 5]), 1.0, Pair(0, 0), true).Success?
    ensures var t := New([100, 120], Items([10, 10]), Items([5, 5]), 1.0, Pair(0, 0), true).value;
      Get(t, 0) == Success(Tile(Rect(0, 0, 10, 10), Pair(10, 10))) && Get(t, 10000) == Failure(IndexError)
  {
    assert Unscale(10, 1.0) == 10;
    assert Unscale(5, 1.0) == 5;
    assert NumberOfTiles(100, 10, 0, 5) == 19 by {
      assert (100 - 10 - 0) as real / 5 as real == 18.0;
    }
    assert NumberOfTiles(120, 10, 0, 5) == 23 by {
      assert (120 - 10 - 0) as real / 5 as real == 22.0;
    }
    var t := New([100, 120], Items([10, 10]), Items([5, 5]), 1.0, Pair(0, 0), true).value;
    assert t.nx == 19 && t.ny == 23;
    GridIndexFirst(t.nx, t.ny);
  }

  /** The rejected arguments of the source's tests, each with the error the code raises. */
  lemma ErrorExamples()
    ensures New([0, 0], Scalar(1), Scalar(1), 1.0, Pair(0, 0), true) == Failure(ValueError)
    ensures New([100, 100], Scalar(-1), Scalar(1), 1.0, Pair(0, 0), true) == Failure(ValueError)
    ensures New([100, 120], Items([10, -10]), Scalar(1), 1.0, Pair(0, 0), true) == Failure(ValueError)
    ensures New([100, 120], Items([10, 10]), Scalar(1), 0.0, Pair(0, 0), true) == Failure(ValueError)
    ensures New([1, 1], Items([10, 10]), Scalar(1), 1.0, Pair(0, 0), true) == Failure(ValueError)
    ensures New([100, 120], Items([10, 10]), Items([10, -10]), 1.0, Pair(0, 0), true) == Failure(AssertionError)
  {
    assert Unscale(10, 1.0) == 10;
    assert Unscale(-10, 1.0) == -10;
  }
}
