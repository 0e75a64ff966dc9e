/** Facts about multiplication and division by a positive number, used for pixel offsets and rounding. */
module Arithmetic {

  /** Multiplying by a positive number keeps an ordering. */
  lemma MulMono(d: int, a: int, b: int)
    requires d > 0 && a <= b
    ensures d * a <= d * b
  {
    assert d * b - d * a == d * (b - a);
  }

  /** A positive factor can be cancelled from both sides of an ordering. */
  lemma MulCancel(d: int, a: int, b: int)
    requires d > 0
    ensures d * a <= d * b ==> a <= b
  {
    if a > b {
      MulMono(d, b + 1, a);
      assert d * (b + 1) == d * b + d;
    }
  }

  /** A positive factor can be cancelled from both sides of a strict ordering. */
  lemma MulLess(d: int, a: int, b: int)
    requires d > 0
    ensures d * a < d * b ==> a < b
  {
    if a >= b {
      MulMono(d, b, a);
    }
  }

  /** Row y, column x of a row-major grid of width w is cell y * w + x, and no other pair names that cell. */
  lemma DivModUnique(q: int, w: int, x: int, y: int)
    requires w > 0 && 0 <= x < w && 0 <= y && q == y * w + x
    ensures q / w == y && q % w == x
  {
    var y', x' := q / w, q % w;
    assert w * y' + x' == w * y + x;
    assert w * (y' + 1) == w * y' + w;
    assert w * (y + 1) == w * y + w;
    MulLess(w, y, y' + 1);
    MulLess(w, y', y + 1);
  }

  /** A cell inside a grid of width w and height h lies inside the grid's w * h cells. */
  lemma CellInGrid(w: int, h: int, x: int, y: int)
    requires 0 <= x < w && 0 <= y < h
    ensures 0 <= y * w + x < w * h
  {
    MulMono(w, y + 1, h);
    assert w * (y + 1) == y * w + w;
  }

  /** The row of cell q of a grid of width w is at least r when q is at or past the start of row r. */
  lemma RowAtLeast(q: int, w: int, r: int)
    requires w > 0 && 0 <= q && r * w <= q
    ensures r <= q / w
  {
    assert w * (q / w + 1) == w * (q / w) + w;
    MulLess(w, r, q / w + 1);
  }

  /** Cell q of a grid of width w and height h lies in a row below h. */
  lemma RowInGrid(q: int, w: int, h: int)
    requires w > 0 && 0 <= q < w * h
    ensures q / w < h
  {
    assert w * (q / w) <= q;
    MulLess(w, q / w, h);
  }
}
