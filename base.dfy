/**
 * What tiling/__init__.py's `BaseTiles` shares between the two tilings:
 * argument validation, the tile extent in source pixels, the tile
 * descriptor, and the row-major decoding of a (possibly negative) index.
 */
module Base {
  import opened Wrappers
  import opened Rounding

  /** The exceptions the constructors and `__getitem__` raise. */
  datatype Error = TypeError | ValueError | IndexError | AssertionError

  /** A (width, height) or (x, y) pair of integers. */
  datatype Pair = Pair(x: int, y: int)

  /** An argument Python accepts as one int (broadcast to both axes) or as a sequence. */
  datatype SizeArg = Scalar(n: int) | Items(items: seq<int>)

  /** `(x_offset, y_offset, x_extent, y_extent)` in source pixels. */
  datatype Rect = Rect(xOffset: int, yOffset: int, xExtent: int, yExtent: int)

  /** What `__getitem__` returns: the source rectangle and the output size. */
  datatype Tile = Tile(rect: Rect, outSize: Pair)

  /** Whether pixel `p` lies in the span of `length` pixels starting at `start`. */
  predicate InSpan(p: int, start: int, length: int)
  {
    start <= p < start + length
  }

  /** Whether pixel `(px, py)` lies in the rectangle. */
  predicate Contains(r: Rect, px: int, py: int)
  {
    InSpan(px, r.xOffset, r.xExtent) && InSpan(py, r.yOffset, r.yExtent)
  }

  /** The fields `BaseTiles.__init__` sets: `image_size`, `tile_size`, `scale`, `tile_extent`. */
  datatype Config = Config(imageSize: Pair, tileSize: Pair, scale: real, tileExtent: Pair)

  function Min(a: int, b: int): int { if a <= b then a else b }

  function Max(a: int, b: int): int { if a <= b then b else a }

  /** The pair an int-or-pair argument denotes, if it has the shape of one. */
  function AsPair(arg: SizeArg): Option<Pair>
  {
    match arg
    case Scalar(n) => Some(Pair(n, n))
    case Items(s) => if |s| == 2 then Some(Pair(s[0], s[1])) else None
  }

  predicate AllPositive(s: seq<int>)
  {
    forall i :: 0 <= i < |s| ==> s[i] >= 1
  }

  /**
   * `floor(length / scale)`: how many whole source pixels a length given in
   * output pixels spans. The largest integer whose scaled length fits in `length`.
   */
  function Unscale(length: int, scale: real): (e: int)
    requires scale > 0.0
    ensures e as real * scale <= length as real < (e + 1) as real * scale
  {
    var q := length as real / scale;
    var e := Floor(q);
    assert q * scale == length as real;
    MulOrder(q, (e + 1) as real, scale);
    MulOrder(e as real, q, scale);
    assert length as real < (e + 1) as real * scale;
    e
  }

  /** The object invariant `BaseTiles.__init__` establishes. */
  predicate ValidConfig(c: Config)
  {
    c.imageSize.x >= 1 && c.imageSize.y >= 1 &&
    c.tileSize.x >= 1 && c.tileSize.y >= 1 &&
    c.scale > 0.0 &&
    c.tileExtent == Pair(Unscale(c.tileSize.x, c.scale), Unscale(c.tileSize.y, c.scale)) &&
    c.tileExtent.x < c.imageSize.x && c.tileExtent.y < c.imageSize.y
  }

  /** The arguments `BaseTiles.__init__` accepts. */
  predicate WellFormed(imageSize: seq<int>, tileSize: SizeArg, scale: real)
  {
    |imageSize| == 2 && AllPositive(imageSize) &&
    AsPair(tileSize).Some? &&
    AsPair(tileSize).value.x >= 1 && AsPair(tileSize).value.y >= 1 &&
    scale > 0.0 &&
    Unscale(AsPair(tileSize).value.x, scale) < imageSize[0] &&
    Unscale(AsPair(tileSize).value.y, scale) < imageSize[1]
  }

  /**
   * `BaseTiles.__init__`: checks the arguments in the source's order and
   * derives `tile_extent`. A wrong shape is a TypeError, a wrong value a ValueError.
   */
  function NewConfig(imageSize: seq<int>, tileSize: SizeArg, scale: real): (r: Result<Config, Error>)
    ensures r.Success? <==> WellFormed(imageSize, tileSize, scale)
    ensures r.Success? ==>
      ValidConfig(r.value) &&
      r.value.imageSize == Pair(imageSize[0], imageSize[1]) &&
      AsPair(tileSize) == Some(r.value.tileSize) &&
      r.value.scale == scale
    ensures r.Failure? ==>
      (r.error == TypeError <==> |imageSize| != 2 || (AllPositive(imageSize) && AsPair(tileSize).None?))
    ensures r.Failure? ==> r.error == TypeError || r.error == ValueError
  {
    if |imageSize| != 2 then Failure(TypeError)
    else if imageSize[0] < 1 || imageSize[1] < 1 then Failure(ValueError)
    else if AsPair(tileSize).None? then Failure(TypeError)
    else
      var ts := AsPair(tileSize).value;
      if ts.x < 1 || ts.y < 1 then Failure(ValueError)
      else if scale <= 0.0 then Failure(ValueError)
      else
        var extent := Pair(Unscale(ts.x, scale), Unscale(ts.y, scale));
        if extent.x >= imageSize[0] || extent.y >= imageSize[1] then Failure(ValueError)
        else Success(Config(Pair(imageSize[0], imageSize[1]), ts, scale, extent))
  }

  /**
   * The index handling of `__getitem__`: an index outside `[-count, count)`
   * is an IndexError, a negative one counts from the end, and the result is
   * split row-major into `(x_index, y_index)` with x varying fastest.
   */
  function GridIndex(idx: int, nx: int, ny: int): (r: Result<Pair, Error>)
    requires nx >= 1 && ny >= 1
    ensures r.Success? <==> -(nx * ny) <= idx < nx * ny
    ensures r.Failure? ==> r.error == IndexError
    ensures r.Success? ==>
      0 <= r.value.x < nx && 0 <= r.value.y < ny &&
      r.value.y * nx + r.value.x == (if idx < 0 then idx + nx * ny else idx)
  {
    var count := nx * ny;
    if idx < -count || idx >= count then Failure(IndexError)
    else
      var k := idx % count;
      ModWrap(idx, count);
      RowMajorBound(k, nx, ny);
      DivMod(k, nx);
      Success(Pair(k % nx, k / nx))
  }

  /** Helper: Euclidean division splits `k` into `(k / n) * n + k % n`. */
  lemma DivMod(k: int, n: int)
    requires n >= 1
    ensures (k / n) * n + k % n == k && 0 <= k % n < n
  {
  }

  /** Helper: a linear index below `nx * ny` lies in one of the `ny` rows. */
  lemma RowMajorBound(k: int, nx: int, ny: int)
    requires nx >= 1 && 0 <= k < nx * ny
    ensures k / nx < ny
  {
    var y := k / nx;
    assert y * nx <= k;
    assert (ny - y) * nx == ny * nx - y * nx;
  }

  /** Helper: scaling by a positive factor keeps an order and reflects it. */
  lemma MulOrder(a: real, b: real, c: real)
    requires c > 0.0
    ensures a <= b <==> a * c <= b * c
    ensures a < b <==> a * c < b * c
  {
  }

  /** Helper: multiplying by a non-negative factor keeps the order. */
  lemma MulMonotone(a: int, b: int, s: int)
    requires a <= b && s >= 0
    ensures a * s <= b * s
  {
  }

  /** Helper: a nonzero multiple of a positive `n` is at least `n` away from 0. */
  lemma MulSign(d: int, n: int)
    requires n > 0
    ensures d >= 1 ==> d * n >= n
    ensures d <= -1 ==> d * n <= -n
  {
  }

  /** Helper: Euclidean remainder of an index in `[-count, count)`. */
  lemma ModWrap(idx: int, count: int)
    requires -count <= idx < count
    ensures idx % count == if idx < 0 then idx + count else idx
  {
  }

  /** A row-major position is determined by its linear index. */
  lemma RowMajorUnique(x1: int, y1: int, x2: int, y2: int, nx: int)
    requires 0 <= x1 < nx && 0 <= x2 < nx
    requires y1 * nx + x1 == y2 * nx + x2
    ensures x1 == x2 && y1 == y2
  {
    assert (y1 - y2) * nx == x2 - x1;
    MulSign(y1 - y2, nx);
  }

  /** Every grid cell `(x, y)` is reached by the linear index `y * nx + x`. */
  lemma GridIndexRowMajor(x: int, y: int, nx: int, ny: int)
    requires 0 <= x < nx && 0 <= y < ny
    ensures 0 <= y * nx + x < nx * ny
    ensures GridIndex(y * nx + x, nx, ny) == Success(Pair(x, y))
  {
    assert y * nx + x < (y + 1) * nx <= ny * nx;
    var r := GridIndex(y * nx + x, nx, ny);
    RowMajorUnique(r.value.x, r.value.y, x, y, nx);
  }

  /** A negative index `-k` denotes the same cell as `count - k`. */
  lemma GridIndexNegative(k: int, nx: int, ny: int)
    requires nx >= 1 && ny >= 1 && 1 <= k <= nx * ny
    ensures GridIndex(-k, nx, ny) == GridIndex(nx * ny - k, nx, ny)
  {
    var a := GridIndex(-k, nx, ny);
    var b := GridIndex(nx * ny - k, nx, ny);
    RowMajorUnique(a.value.x, a.value.y, b.value.x, b.value.y, nx);
  }

  /** Index 0 denotes the first cell of the grid. */
  lemma GridIndexFirst(nx: int, ny: int)
    requires nx >= 1 && ny >= 1
    ensures GridIndex(0, nx, ny) == Success(Pair(0, 0))
  {
    GridIndexRowMajor(0, 0, nx, ny);
    assert 0 * nx + 0 == 0;
  }

  /** Index -1 denotes the last cell of the grid. */
  lemma GridIndexLast(nx: int, ny: int)
    requires nx >= 1 && ny >= 1
    ensures GridIndex(-1, nx, ny) == Success(Pair(nx - 1, ny - 1))
  {
    GridIndexNegative(1, nx, ny);
    GridIndexRowMajor(nx - 1, ny - 1, nx, ny);
    assert (ny - 1) * nx + (nx - 1) == nx * ny - 1;
  }

  /**
   * Consecutive indices move one cell right, or wrap from the end of a row
   * to the start of the next.
   */
  lemma GridIndexNext(idx: int, nx: int, ny: int)
    requires nx >= 1 && ny >= 1 && 0 <= idx < nx * ny - 1
    ensures var p, q := GridIndex(idx, nx, ny).value, GridIndex(idx + 1, nx, ny).value;
      if p.x < nx - 1 then q == Pair(p.x + 1, p.y) else q == Pair(0, p.y + 1)
  {
    var p, q := GridIndex(idx, nx, ny).value, GridIndex(idx + 1, nx, ny).value;
    if p.x < nx - 1 {
      RowMajorUnique(q.x, q.y, p.x + 1, p.y, nx);
    } else {
      var y := p.y;
      var below := y + 1;
      NextRow(y, below, nx);
      RowMajorUnique(q.x, q.y, 0, below, nx);
    }
  }

  /** Helper: the row below `y` starts `nx` indices later. */
  lemma NextRow(y: int, below: int, nx: int)
    requires below == y + 1
    ensures below * nx == y * nx + nx
  {
  }
}
