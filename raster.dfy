/** Row-major addressing shared by the pixel buffer and the tile grid:
    cell (x, y) of a grid `w` cells wide lives at index x + y * w. */
module Raster {

  /** Flat index of cell (x, y) in a row-major grid of width `w`. */
  function Index(x: nat, y: nat, w: nat): nat {
    x + y * w
  }

  /** Column of the cell at flat index k of a row-major grid of width w (0 for an empty width). */
  function XOf(k: nat, w: nat): nat {
    if w == 0 then 0 else k % w
  }

  /** Row of the cell at flat index k of a row-major grid of width w (0 for an empty width). */
  function YOf(k: nat, w: nat): nat {
    if w == 0 then 0 else k / w
  }

  /** Product of naturals is monotone in its left factor. */
  lemma MulMono(a: nat, b: nat, c: nat)
    requires a <= b
    ensures a * c <= b * c
  {
  }

  /** Every in-bounds cell of a w-by-h grid has an index below w * h. */
  lemma IndexInBounds(x: nat, y: nat, w: nat, h: nat)
    requires x < w && y < h
    ensures Index(x, y, w) < w * h
  {
    MulMono(y, h - 1, w);
    assert (h - 1) * w == h * w - w;
  }

  /** Row y of a w-by-h grid, the index range [Index(0, y, w), Index(0, y, w) + w), lies inside the grid. */
  lemma RowInBounds(y: nat, w: nat, h: nat)
    requires y < h
    ensures Index(0, y, w) + w <= w * h
  {
    MulMono(y + 1, h, w);
  }

  /** The index of (x, y) decodes back to x (its remainder) and y (its quotient). */
  lemma IndexDecodes(x: nat, y: nat, w: nat)
    requires x < w
    ensures Index(x, y, w) % w == x && Index(x, y, w) / w == y
  {
    var k := Index(x, y, w);
    var q, r := k / w, k % w;
    assert k == q * w + r;
    if q > y {
      MulMono(y + 1, q, w);
      assert false;
    } else if q < y {
      MulMono(q + 1, y, w);
      assert false;
    }
  }

  /** Every index below w * h is the index of exactly the cell (k % w, k / w), which lies in the grid. */
  lemma IndexEncodes(k: nat, w: nat, h: nat)
    requires k < w * h
    ensures w > 0 && k % w < w && k / w < h && Index(k % w, k / w, w) == k
  {
    var q := k / w;
    if q >= h {
      MulMono(h, q, w);
      assert false;
    }
  }

  /** Cells of (x, y) and (x', y') share an index only when they are the same cell. */
  lemma IndexInjective(x: nat, y: nat, x': nat, y': nat, w: nat)
    requires x < w && x' < w
    requires Index(x, y, w) == Index(x', y', w)
    ensures x == x' && y == y'
  {
    IndexDecodes(x, y, w);
    IndexDecodes(x', y', w);
  }

  /** Inside a w-by-h grid, index k is the cell (x, y) exactly when (x, y) is in the grid
      and x + y * w == k. */
  lemma CellOfIndex(k: nat, w: nat, h: nat, x: nat, y: nat)
    requires k < w * h
    ensures w > 0
    ensures (k % w == x && k / w == y) <==> (x < w && y < h && k == Index(x, y, w))
  {
    IndexEncodes(k, w, h);
    if x < w && k == Index(x, y, w) {
      IndexDecodes(x, y, w);
    }
  }

  /** Coordinate x lies in the block [c * size, c * size + size) exactly when x / size == c. */
  lemma InBlock(x: nat, c: nat, size: nat)
    requires size > 0
    ensures (c * size <= x < c * size + size) <==> x / size == c
  {
    IndexDecodes(x % size, x / size, size);
    if c * size <= x < c * size + size {
      IndexDecodes(x - c * size, c, size);
    }
  }

  /** (x, y) lies in the rectangle whose top-left corner is (rx, ry) and whose size is rw by rh. */
  predicate InRect(x: nat, y: nat, rx: nat, ry: nat, rw: nat, rh: nat) {
    rx <= x < rx + rw && ry <= y < ry + rh
  }
}
