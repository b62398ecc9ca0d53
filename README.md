# Tiling geometry, modelled in Dafny

This project models the `tiling` package of ImageTilingUtils: a pure
integer-geometry generator that, for an image of `(width, height)` pixels,
enumerates tiles as `(x_offset, y_offset, x_extent, y_extent)` rectangles in
source pixels together with an output size `(out_width, out_height)` in
resampled pixels. It never touches pixel data.

- `rounding.dfy` (module `Rounding`): `math.floor`, `ceil_int` and Python 3's
  `round` (nearest integer, ties to even) on exact reals.
- `base.dfy` (module `Base`): what `BaseTiles` shares: argument validation and
  `tile_extent = floor(tile_size / scale)` (`NewConfig`), the tile descriptor,
  and the index handling of `__getitem__` (range check, negative indices,
  row-major split), with its round-trip lemmas.
- `const_size.dfy` (module `ConstSize`): `ConstSizeTiles`. The tile count per
  axis is the least `n` with `n * (E - m) >= L`; the float overlap spreads the
  excess evenly; tile offsets are rounded multiples of `(L - E) / (n - 1)`.
  Proved: tiles lie inside the image, the first starts at 0, the last ends
  exactly at `L`, neighbours advance by 0 to `E - m` pixels, and every pixel is
  covered.
- `const_stride.dfy` (module `ConstStride`): `ConstStrideTiles`. Offsets are
  `i * S + O`. With nodata every tile has the full extent and output size.
  Without nodata a tile is the intersection of the unclipped tile with the
  image, and its output size shrinks to `ceil(extent * scale)`. Proved: the
  last tile reaches the end, neighbours are exactly one stride apart or wrap,
  and clipped tiles stay inside the image. When the stride is at most the
  extent, the tiles cover the image from the origin on.
- `iteration.dfy` (module `Iteration`): `len`, `tiles[idx]` over either tiling,
  and the class `Tiles`, whose `Next` walks the `_index` cursor exactly as
  `BaseTiles.next` does.

Construction is modelled as functions that return `Success(tiling)` or
`Failure(error)`, because a raising Python constructor leaves no object. The
constructed tilings are immutable values, as their fields are never
reassigned after `__init__`. The cursor `_index` is the only state that
changes, so it is the only class.

Modelling choices:

- `image_size` is a `seq<int>`, so the "not a pair" TypeError is reachable.
  `tile_size` and `stride` are a `SizeArg`, either one int (broadcast to both
  axes) or a sequence of ints. `origin` is a pair and is not validated, as in
  the source.
- `scale` is an exact `real`. `int(tile_dim / scale)` in the validation
  truncates, which equals the floor there because both operands are positive.
- `int(idx * 1.0 / nx)` is modelled as integer division. The index is already
  non-negative at that point.
- `ceil_int` appears twice in the source (tiling/__init__.py:97-98 and
  tiling/const_stride.py:120-121). Both are `Rounding.CeilInt`.
- The `ConstSizeTiles` tile count is written as integer ceiling division,
  and `ConstSize.NumberOfTilesIsCeilInt` proves it equal to `ceil_int` of the
  exact quotient the source computes. This keeps the count free of real
  division in every proof about a constructed tiling.
- `ConstSizeTiles.__getitem__` returns the rectangle together with the output
  size `tile_size` (tiling/const_size.py:109-112), the same pair shape as
  `ConstStrideTiles`.

Where the code and its tests differ, the model follows the code:

- An invalid stride raises AssertionError, because the code checks it with
  `assert`. The tests (tests/test_const_stride.py:40-44) expect TypeError
  and ValueError there.

## Model

| member | source | states |
|---|---|---|
| Rounding.Floor | tiling/__init__.py:62 | `math.floor` is the greatest integer not above its argument |
| Rounding.CeilInt | tiling/__init__.py:97-98 | `ceil_int(x)` is the least integer not below `x`, for either sign |
| Rounding.Round | tiling/const_size.py:82 | `round(x)` is within 1/2 of `x`, and a tie goes to the even integer |
| Rounding.CeilOfQuotient | tiling/const_size.py:118 | the ceiling of an exact quotient `a / b` is the least `n` with `a <= n * b` |
| Rounding.RoundedMultipleBounds | tiling/const_size.py:82 | the rounded multiples `round(i * d)`, `0 <= i < n`, stay within `[0, (n - 1) * d]`, are 0 at `i = 0` and hit an integral end exactly at `i = n - 1` |
| Rounding.CeilExample | tests/test_const_stride.py:236-237 | `ceil_int(1.789) == 2` |
| Rounding.RoundStep | tiling/const_size.py:82 | rounded consecutive multiples of a step in `(0, k]` differ by 0 to `k` |
| Base.Unscale | tiling/__init__.py:59-62 | `tile_extent = floor(tile_size / scale)` is the largest extent whose scaled length fits in `tile_size`, so `tile_extent * scale <= tile_size` |
| Base.NewConfig | tiling/__init__.py:23-64 | construction succeeds exactly on a 2-element positive `image_size`, an int or positive pair `tile_size` (an int broadcast), `scale > 0` and `floor(tile_size / scale) < image_size` on both axes; a wrong shape is a TypeError, a wrong value a ValueError; the result satisfies the base invariant |
| Base.GridIndex | tiling/const_size.py:96-101 | an index outside `[-count, count)` is an IndexError; otherwise `(x, y)` lies in the grid and `y * nx + x` is the index, plus `count` if negative |
| Base.GridIndexRowMajor | tiling/const_stride.py:96-98 | every grid cell `(x, y)` is reached by index `y * nx + x` |
| Base.GridIndexNegative | tiling/const_stride.py:96 | index `-k` gives the same cell as `count - k` |
| Base.GridIndexFirst | tiling/const_size.py:96-101 | index 0 is the cell `(0, 0)` |
| Base.GridIndexLast | tiling/const_size.py:99-101 | index -1 is the last cell `(nx - 1, ny - 1)` |
| Base.GridIndexNext | tiling/const_size.py:100-101 | the next index moves one cell right, or wraps to the first cell of the next row |
| ConstSize.NumberOfTiles | tiling/const_size.py:114-118 | the count is the least `n` with `n * (E - m) >= L`, so an exact quotient is not rounded up |
| ConstSize.NumberOfTilesIsCeilInt | tiling/const_size.py:118 | the integer ceiling division used for the count equals `ceil_int(image_size / (tile_extent - min_overlapping))` on the exact quotient |
| ConstSize.AxisTile | tiling/const_size.py:77-83 | the returned extent `int(round(tile_extent))` is the tile extent itself |
| ConstSize.New | tiling/const_size.py:36-70 | construction succeeds exactly when the base checks pass and `0 <= m < min(tile_extent)`; base errors pass through; otherwise ValueError; the result satisfies the invariant |
| ConstSize.Len | tiling/const_size.py:72-75 | `len(tiles) = nx * ny` is at least 4, since a tile is smaller than the image on both axes |
| ConstSize.Get | tiling/const_size.py:85-112 | `tiles[idx]` exists exactly for `idx` in `[-len, len)` (else IndexError); each tile has extent `tile_extent` and output size `tile_size` at its row-major axis offsets |
| ConstSize.AtLeastTwoTiles | tiling/const_size.py:47-62 | each axis has at least two tiles, so neither "not positive" ValueError can be raised by a constructed tiling |
| ConstSize.AxisGeometry | tiling/const_size.py:120-124 | per axis `n >= 2` (so the "not positive" checks never fire), `m <= overlap < E`, and `(n - 1)` steps of `E - overlap` add up to exactly `L - E` |
| ConstSize.AxisOffsetBounds | tiling/const_size.py:78-83 | every offset is in `[0, L - E]`; tile 0 is at 0 and tile `n - 1` at `L - E` |
| ConstSize.AxisOffsetStep | tiling/const_size.py:82 | consecutive offsets along an axis advance by 0 to `E - m` pixels |
| ConstSize.AxisCoverPrefix | tiling/const_size.py:82 | every pixel before the end of tile `k` lies in one of the tiles `0..k` |
| ConstSize.AxisCovers | tiling/const_size.py:114-124 | the tiles along an axis cover every pixel of `[0, L)` |
| ConstSize.TileInsideImage | tiling/const_size.py:99-112 | every tile lies inside the image |
| ConstSize.FirstTile | tests/test_const_size.py:70-76 | `tiles[0]` is `((0, 0, E_x, E_y), tile_size)` |
| ConstSize.LastTile | tests/test_const_size.py:91-96 | `tiles[-1]` starts inside the image and ends exactly at its right and bottom edges |
| ConstSize.NegativeIndex | tests/test_const_size.py:55-58 | `tiles[-k] == tiles[len - k]` |
| ConstSize.ConsecutiveTiles | tests/test_const_size.py:78-89 | the next tile moves right by 0 to `E_x - m`, or wraps to x = 0 and moves down by 0 to `E_y - m` |
| ConstSize.TilesCoverImage | tiling/const_size.py:85-112 | every pixel of the image lies in some tile |
| ConstSize.Examples | tests/test_const_size.py:11-44 | the source's worked values: counts 4, 4, 10; overlap 28/3; `m` = -1, 256, 300 rejected for 256-pixel tiles; `(100,100)` with 32-pixel tiles gives 4 x 4 tiles and `tiles[0] == (0,0,32,32)` |
| ConstSize.IndexExample | tests/test_const_size.py:26-29 | a `(100, 120)` image with 10-pixel tiles and `m = 5` is accepted, and `tiles[10000]` is an IndexError |
| ConstStride.NumberOfTiles | tiling/const_stride.py:112-117 | the count is the least `n >= 1` whose last tile, spanning `max(E, S)` from `(n - 1) * S + O`, reaches `L` |
| ConstStride.OutSize | tiling/const_stride.py:70-76 | a clipped extent gives `ceil(extent * scale)`; a full extent gives `tile_size` |
| ConstStride.New | tiling/const_stride.py:29-49 | construction succeeds exactly when the base checks pass, the stride is an int or a pair, and `floor(stride / scale) >= 1` on both axes; base errors pass through, stride errors are AssertionError; the result holds the scaled stride and satisfies the invariant |
| ConstStride.Len | tiling/const_stride.py:51-54 | `len(tiles) = nx * ny` is at least 1 |
| ConstStride.Get | tiling/const_stride.py:78-110 | `tiles[idx]` exists exactly for `idx` in `[-len, len)` (else IndexError); with nodata the tile is at `(x * S_x + O_x, y * S_y + O_y)` with extent `tile_extent` and output size `tile_size`; the clipped case is stated by `ConstStride.GetClipped` |
| ConstStride.GetClipped | tiling/const_stride.py:93-110 | without nodata `tiles[idx]` starts at `(max(x * S_x + O_x, 0), max(y * S_y + O_y, 0))`, holds on each axis exactly the pixels of the unclipped tile that lie in the image, and has output size `OutSize` of its clipped extents, i.e. `ceil(extent * scale)` for a shortened axis and `tile_size` for a full one |
| ConstStride.LastAxisOffset | tiling/const_stride.py:113-117 | the last offset plus `max(E, S)` reaches `L`, and it is below `L` when `O < L` |
| ConstStride.ClippedIsIntersection | tiling/const_stride.py:61-68 | without nodata the tile starts at `max(offset, 0)` and holds exactly the pixels of the unclipped tile that lie in `[0, L)` |
| ConstStride.AxisTile | tiling/const_stride.py:56-68 | with nodata the extent is `tile_extent`; without nodata the offset is `max(idx * S + O, 0)`, and the tile has `offset >= 0`, `offset + extent <= L`, `extent <= E`, and `extent >= 0` when the unclipped tile starts before `L` |
| ConstStride.ClipWithClippedOffset | tiling/const_stride.py:63-64 | clipping against `L - offset` with the unclipped offset gives the same extent as with the clipped one |
| ConstStride.OutSizeBounds | tiling/__init__.py:59-61 | the output size is at most `tile_size`, equals it for a full tile, and is non-negative for a non-negative extent |
| ConstStride.AxisCovers | tiling/const_stride.py:113-117 | with `S <= E` the tiles along an axis cover every pixel from the origin up to `L` |
| ConstStride.FirstTile | tests/test_const_stride.py:141-150 | `tiles[0]` is at the origin with nodata, and at `(max(O_x, 0), max(O_y, 0))` without |
| ConstStride.NegativeIndex | tests/test_const_stride.py:120-124 | `tiles[-k] == tiles[len - k]` |
| ConstStride.ConsecutiveTiles | tests/test_const_stride.py:80-91 | with nodata the next tile is exactly one x stride to the right, or back at the x origin one y stride down |
| ConstStride.LastTile | tests/test_const_stride.py:96-102 | with nodata `tiles[-1]` plus `max(extent, stride)` reaches the end on both axes and starts before the end when the origin does |
| ConstStride.LastTileClipped | tests/test_const_stride.py:214-227 | without nodata `tiles[-1]` ends at most at the image edge, starts inside the image when the origin does, and ends exactly at the edge when `S < E` |
| ConstStride.LastClippedAxis | tiling/const_stride.py:112-117 | along one axis the clipped last tile ends at most at `L`, starts below `L` when `O < L`, and ends exactly at `L` when `S < E` (a single tile of negative length when `O >= L`) |
| ConstStride.TileInsideImage | tiling/const_stride.py:61-76 | without nodata every tile starts at or after 0 and ends at or before the image edge, is no larger than `tile_extent`, with output size at most `tile_size` and equal to it for a full tile |
| ConstStride.TilesCoverImage | tiling/const_stride.py:78-110 | with strides at most the extents, every pixel from the origin (or 0) on lies in some tile |
| ConstStride.Examples | tests/test_const_stride.py:46-50 | a `(100, 120)` image with 10-pixel tiles and stride 5 is accepted, `tiles[0] == ((0,0,10,10),(10,10))`, and `tiles[10000]` is an IndexError |
| ConstStride.ErrorExamples | tests/test_const_stride.py:22-44 | each invalid argument of the tests that the model can express is rejected with the error the code raises: ValueError for the values, AssertionError for the stride `(10, -10)` |
| Iteration.Len | tiling/__init__.py:66-69 | the tile count of either tiling is at least 1 |
| Iteration.Get | tiling/__init__.py:71-77 | `tiles[idx]` of either tiling exists exactly for `idx` in `[-len, len)`, else IndexError |
| Iteration.Tiles.constructor | tiling/__init__.py:63-64 | a new tiling object has its cursor at 0 and `_max_index` equal to its length |
| Iteration.Tiles.Next | tiling/__init__.py:79-92 | `next()` returns `tiles[_index]` and advances the cursor by exactly 1; at the end it signals StopIteration and leaves the cursor unchanged; the tiles returned so far are those of indices `0, 1, ...` in order |

## Left out

- The `1e-10` added to the divisor in `_compute_number_of_tiles` (tiling/const_size.py:118). It only keeps float division from rounding an exact quotient up, and the model's arithmetic is exact.
- The `np.float32` cast in `_compute_out_size` (tiling/const_stride.py:75) and float rounding in general. `scale` and overlaps are exact reals, and `int(idx * 1.0 / nx)` is exact integer division.
- Python's dynamic type checks on values other than ints and sequences of ints. For example, a string `tile_size` or a float `image_size` cannot be expressed as a `SizeArg` or a `seq<int>`.
- Fractional tile extents passed directly to the static `_compute_number_of_tiles` (tests/test_const_size.py:36-38). The classes only ever pass integer extents.
- `assert` statements being skipped under `python -O`. The stride checks are modelled as always raising AssertionError.
- Python's fallback `for` loop over `__getitem__` until IndexError. `BaseTiles` defines no `__iter__`, and only `__getitem__` and `next()` are modelled.
- The `__next__ = next` alias, logging, `__version__` and setup.py. None of them affects the geometry.
- The stride checks between clipped tiles without nodata (tests/test_const_stride.py:162-212) are not stated; `ConstStride.ClippedIsIntersection` and `ConstStride.TileInsideImage` describe those tiles instead.
- The constructors' default arguments (`min_overlapping=0` at tiling/const_size.py:36; `stride=(1, 1)`, `scale=1.0`, `origin=(0, 0)`, `include_nodata=True` at tiling/const_stride.py:29, and `tile_size=(128, 128)`, `scale=1.0` at tiling/__init__.py:23). `New` takes every argument explicitly.
- Rounding.Round: models Python 3's `round`, which breaks ties to even. Under Python 2, which the package also supports through `six`, `round` breaks ties away from zero. None of the proved bounds depends on the tie rule.
- The loose test bound `sqrt(len(tiles)) < 1 + (L - O) / S` (tests/test_const_stride.py:68-70 and tests/test_const_stride.py:137-139) is not stated.
