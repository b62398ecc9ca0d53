/**
 * The shared protocol of tiling/__init__.py's `BaseTiles`: `__len__` and
 * `__getitem__`, which each tiling supplies, and `next()`, which walks the
 * `_index` cursor from 0 to `_max_index`.
 */
module Iteration {
  import opened Wrappers
  import opened Base
  import ConstSize
  import ConstStride

  /** A constructed tiling of either kind. */
  datatype Tiling =
    | Size(constSize: ConstSize.ConstSizeTiles)
    | Stride(constStride: ConstStride.ConstStrideTiles)

  predicate ValidTiling(t: Tiling)
  {
    match t
    case Size(s) => ConstSize.Valid(s)
    case Stride(s) => ConstStride.Valid(s)
  }

  /** `len(tiles)`: never zero. */
  function Len(t: Tiling): (count: int)
    requires ValidTiling(t)
    ensures count >= 1
  {
    match t
    case Size(s) => ConstSize.Len(s)
    case Stride(s) => ConstStride.Len(s)
  }

  /** `tiles[idx]`: a tile for every index in `[-len, len)`, an IndexError otherwise. */
  function Get(t: Tiling, idx: int): (r: Result<Tile, Error>)
    requires ValidTiling(t)
    ensures r.Success? <==> -Len(t) <= idx < Len(t)
    ensures r.Failure? ==> r.error == IndexError
  {
    match t
    case Size(s) => ConstSize.Get(s, idx)
    case Stride(s) => ConstStride.Get(s, idx)
  }

  /**
   * A tiling object together with its iteration cursor `_index`.
   * `yielded` records the tiles `next()` has returned so far.
   */
  class Tiles {
    const tiling: Tiling
    const maxIndex: int
    var index: int
    ghost var yielded: seq<Tile>

    ghost predicate Valid()
      reads this
    {
      ValidTiling(tiling) && maxIndex == Len(tiling) &&
      0 <= index <= maxIndex && |yielded| == index &&
      forall i :: 0 <= i < index ==> Get(tiling, i) == Success(yielded[i])
    }

    /** The end of a tiling's constructor: `_index` is 0 and `_max_index` the tile count. */
    constructor (tiling: Tiling)
      requires ValidTiling(tiling)
      ensures Valid()
      ensures this.tiling == tiling && index == 0 && yielded == []
    {
      this.tiling := tiling;
      maxIndex := Len(tiling);
      index := 0;
      yielded := [];
    }

    /**
     * `next()`: the tile at the cursor, advancing the cursor by one; once the
     * cursor has reached `_max_index`, StopIteration (here `None`) and the
     * cursor stays where it is. The tiles returned so far are those of
     * indices `0, 1, ...` in order.
     */
    method Next() returns (r: Option<Tile>)
      requires Valid()
      modifies this
      ensures Valid()
      ensures old(index) < maxIndex ==>
        Get(tiling, old(index)).Success? &&
        r == Some(Get(tiling, old(index)).value) &&
        index == old(index) + 1 && yielded == old(yielded) + [r.value]
      ensures maxIndex <= old(index) ==>
        r == None && index == old(index) && yielded == old(yielded)
    {
      if index < 0 || index >= maxIndex {
        return None;
      }
      var tile := Get(tiling, index).value;
      index := index + 1;
      yielded := yielded + [tile];
      r := Some(tile);
    }
  }
}
