/**
  The "blur" branch of applyFilterToContext: a 7 x 7 box blur. Every pixel
  at least three pixels away from each edge gets, in each colour channel,
  the mean of the 49 pixels around it, read from a copy of the buffer taken
  before any pixel is written; the pixels near the edges and every alpha
  byte are left as they were. The buffer is row-major RGBA: byte c of pixel
  (x, y) is at offset (y * width + x) * 4 + c.
*/
module BoxBlur {
  import opened Arithmetic
  import opened Uint8Clamped

  /** The blur radius: the window reaches this many pixels on each side. */
  const Radius := 3
  /** The side of the square window. */
  const Side := 7
  /** The number of pixels averaged, which is the final value of count. */
  const WindowSize := 49

  /** Whether pixel (x, y) is far enough from every edge for the whole window to fit: only those are blurred. */
  predicate Interior(width: int, height: int, x: int, y: int) {
    Radius <= x < width - Radius && Radius <= y < height - Radius
  }

  /** Interior, for the pixel numbered q in row-major order. */
  predicate InteriorPixel(width: nat, height: nat, q: nat)
    requires width > 0
  {
    Interior(width, height, q % width, q / width)
  }

  /** Byte c of pixel (x, y) of a width x height buffer. */
  function Sample(s: seq<Byte>, width: nat, height: nat, x: nat, y: nat, c: nat): Byte
    requires |s| == width * height * 4 && x < width && y < height && c < 4
  {
    CellInGrid(width, height, x, y);
    s[(y * width + x) * 4 + c]
  }

  /** Channel c summed over the first n pixels of row y of the window centred on column x. */
  function RowSum(s: seq<Byte>, width: nat, height: nat, x: nat, y: nat, c: nat, n: nat): int
    requires |s| == width * height * 4 && Radius <= x && x + Radius < width && y < height && c < 4
    requires n <= Side
  {
    if n == 0 then 0 else RowSum(s, width, height, x, y, c, n - 1) + Sample(s, width, height, x - Radius + n - 1, y, c)
  }

  /** Channel c summed over the first m rows of the window centred on pixel (x, y). */
  function BoxSum(s: seq<Byte>, width: nat, height: nat, x: nat, y: nat, c: nat, m: nat): int
    requires |s| == width * height * 4 && Interior(width, height, x, y) && c < 4 && m <= Side
  {
    if m == 0 then 0 else BoxSum(s, width, height, x, y, c, m - 1) + RowSum(s, width, height, x, y - Radius + m - 1, c, Side)
  }

  /** Channel c summed over the whole 7 x 7 window centred on pixel (x, y). */
  function WindowSum(s: seq<Byte>, width: nat, height: nat, x: nat, y: nat, c: nat): int
    requires |s| == width * height * 4 && Interior(width, height, x, y) && c < 4
  {
    BoxSum(s, width, height, x, y, c, Side)
  }

  /** Byte c of pixel q after the blur: the stored mean for a colour byte of an interior pixel, the old byte otherwise. */
  function BlurredByte(s: seq<Byte>, width: nat, height: nat, q: nat, c: nat): Byte
    requires |s| == width * height * 4 && q < width * height && c < 4
  {
    if c < 3 && InteriorPixel(width, height, q) then
      ToUint8Clamp(WindowSum(s, width, height, q % width, q / width, c), WindowSize)
    else
      s[4 * q + c]
  }

  /** The whole buffer after the blur. */
  function Blurred(s: seq<Byte>, width: nat, height: nat): (t: seq<Byte>)
    requires |s| == width * height * 4
    ensures |t| == |s|
  {
    seq(|s|, j requires 0 <= j < |s| => BlurredByte(s, width, height, j / 4, j % 4))
  }

  /** Byte c of pixel q of the blurred buffer is BlurredByte. */
  lemma BlurredAtPixel(s: seq<Byte>, width: nat, height: nat, q: nat, c: nat)
    requires |s| == width * height * 4 && q < width * height && c < 4
    ensures Blurred(s, width, height)[4 * q + c] == BlurredByte(s, width, height, q, c)
  {
    DivModUnique(4 * q + c, 4, c, q);
  }

  /**
    The blurred buffer in the source's terms: a colour byte of an interior
    pixel holds its window's sum divided by 49, rounded half up; every other
    byte is the original one.
  */
  lemma BlurredAt(s: seq<Byte>, width: nat, height: nat, x: nat, y: nat, c: nat)
    requires |s| == width * height * 4 && x < width && y < height && c < 4
    ensures Sample(Blurred(s, width, height), width, height, x, y, c)
      == if c < 3 && Interior(width, height, x, y) then (WindowSum(s, width, height, x, y, c) + 24) / 49
         else Sample(s, width, height, x, y, c)
  {
    var q := y * width + x;
    CellInGrid(width, height, x, y);
    DivModUnique(q, width, x, y);
    BlurredAtPixel(s, width, height, q, c);
    if c < 3 && Interior(width, height, x, y) {
      WindowSumBounds(s, width, height, x, y, c, 0, 255);
      MeanOf49(WindowSum(s, width, height, x, y, c));
    }
  }

  /** Row sums of samples between lo and hi lie between n * lo and n * hi. */
  lemma {:induction false} RowSumBounds(s: seq<Byte>, width: nat, height: nat, x: nat, y: nat, c: nat, n: nat, lo: int, hi: int)
    requires |s| == width * height * 4 && Radius <= x && x + Radius < width && y < height && c < 4
    requires n <= Side
    requires forall i: nat :: x - Radius <= i < x - Radius + n ==> lo <= Sample(s, width, height, i, y, c) <= hi
    ensures n * lo <= RowSum(s, width, height, x, y, c, n) <= n * hi
  {
    if n > 0 {
      RowSumBounds(s, width, height, x, y, c, n - 1, lo, hi);
      assert n * lo == (n - 1) * lo + lo && n * hi == (n - 1) * hi + hi;
    }
  }

  /** Box sums of samples between lo and hi lie between m * (7 * lo) and m * (7 * hi). */
  lemma {:induction false} BoxSumBounds(s: seq<Byte>, width: nat, height: nat, x: nat, y: nat, c: nat, m: nat, lo: int, hi: int)
    requires |s| == width * height * 4 && Interior(width, height, x, y) && c < 4 && m <= Side
    requires forall i: nat, j: nat :: x - Radius <= i <= x + Radius && y - Radius <= j <= y + Radius ==> lo <= Sample(s, width, height, i, j, c) <= hi
    ensures m * (Side * lo) <= BoxSum(s, width, height, x, y, c, m) <= m * (Side * hi)
  {
    if m > 0 {
      BoxSumBounds(s, width, height, x, y, c, m - 1, lo, hi);
      RowSumBounds(s, width, height, x, y - Radius + m - 1, c, Side, lo, hi);
      var rowLo, rowHi := Side * lo, Side * hi;
      assert m * rowLo == (m - 1) * rowLo + rowLo;
      assert m * rowHi == (m - 1) * rowHi + rowHi;
    }
  }

  /** A window whose samples all lie between lo and hi sums to between 49 * lo and 49 * hi. */
  lemma WindowSumBounds(s: seq<Byte>, width: nat, height: nat, x: nat, y: nat, c: nat, lo: int, hi: int)
    requires |s| == width * height * 4 && Interior(width, height, x, y) && c < 4
    requires forall i: nat, j: nat :: x - Radius <= i <= x + Radius && y - Radius <= j <= y + Radius ==> lo <= Sample(s, width, height, i, j, c) <= hi
    ensures WindowSize * lo <= WindowSum(s, width, height, x, y, c) <= WindowSize * hi
  {
    BoxSumBounds(s, width, height, x, y, c, Side, lo, hi);
  }

  /** The blurred value never leaves the range of the window it averages. */
  lemma BlurStaysInWindowRange(s: seq<Byte>, width: nat, height: nat, x: nat, y: nat, c: nat, lo: Byte, hi: Byte)
    requires |s| == width * height * 4 && Interior(width, height, x, y) && c < 3 && lo <= hi
    requires forall i: nat, j: nat :: x - Radius <= i <= x + Radius && y - Radius <= j <= y + Radius ==> lo <= Sample(s, width, height, i, j, c) <= hi
    ensures lo <= Sample(Blurred(s, width, height), width, height, x, y, c) <= hi
  {
    BlurredAt(s, width, height, x, y, c);
    WindowSumBounds(s, width, height, x, y, c, lo, hi);
    RoundsBetween(WindowSum(s, width, height, x, y, c), WindowSize, lo, hi);
    MeanOf49(WindowSum(s, width, height, x, y, c));
  }

  /** Every offset of a width x height buffer is byte c of some pixel (x, y). */
  lemma PixelOfOffset(j: int, width: nat, height: nat) returns (x: nat, y: nat, c: nat)
    requires 0 <= j < width * height * 4
    ensures x < width && y < height && c < 4 && (y * width + x) * 4 + c == j
  {
    var q := j / 4;
    c := j % 4;
    RowInGrid(q, width, height);
    x, y := q % width, q / width;
  }

  /** Whether every pixel of the image has the colour of pixel (0, 0). */
  ghost predicate Flat(s: seq<Byte>, width: nat, height: nat)
    requires |s| == width * height * 4 && width > 0 && height > 0
  {
    forall x: nat, y: nat, c: nat :: x < width && y < height && c < 4 ==> Sample(s, width, height, x, y, c) == Sample(s, width, height, 0, 0, c)
  }

  /** In a flat image the blur keeps every byte of pixel (x, y). */
  lemma FlatPixelUnchanged(s: seq<Byte>, width: nat, height: nat, x: nat, y: nat, c: nat)
    requires |s| == width * height * 4 && width > 0 && height > 0 && Flat(s, width, height)
    requires x < width && y < height && c < 4
    ensures Sample(Blurred(s, width, height), width, height, x, y, c) == Sample(s, width, height, x, y, c)
  {
    BlurredAt(s, width, height, x, y, c);
    if c < 3 && Interior(width, height, x, y) {
      var v := Sample(s, width, height, 0, 0, c);
      BlurStaysInWindowRange(s, width, height, x, y, c, v, v);
    }
  }

  /** An image of one flat colour comes out of the blur unchanged. */
  lemma FlatImageUnchanged(s: seq<Byte>, width: nat, height: nat)
    requires |s| == width * height * 4 && width > 0 && height > 0 && Flat(s, width, height)
    ensures Blurred(s, width, height) == s
  {
    forall j | 0 <= j < |s|
      ensures Blurred(s, width, height)[j] == s[j]
    {
      var x, y, c := PixelOfOffset(j, width, height);
      FlatPixelUnchanged(s, width, height, x, y, c);
    }
  }

  /**
    The loop invariant of the blur after the first k pixels in row-major
    order: those pixels hold their blurred bytes, the others their original
    ones.
  */
  ghost predicate BlurredUpTo(s: seq<Byte>, b: seq<Byte>, cur: seq<Byte>, k: nat) {
    |cur| == |s| && |b| == |s| &&
    forall j :: 0 <= j < |s| ==> cur[j] == if j < 4 * k then b[j] else s[j]
  }

  /** Pixels that are not interior keep their bytes, so the invariant may skip over them. */
  lemma Skip(s: seq<Byte>, width: nat, height: nat, cur: seq<Byte>, lo: nat, hi: nat)
    requires |s| == width * height * 4 && width > 0 && lo <= hi
    requires BlurredUpTo(s, Blurred(s, width, height), cur, lo)
    requires forall q: nat :: lo <= q < hi && q < width * height ==> !InteriorPixel(width, height, q)
    ensures BlurredUpTo(s, Blurred(s, width, height), cur, hi)
  {
    var b := Blurred(s, width, height);
    forall j | 0 <= j < |s| && 4 * lo <= j < 4 * hi
      ensures b[j] == s[j]
    {
      assert b[j] == BlurredByte(s, width, height, j / 4, j % 4);
    }
  }

  /** The first three rows, and the first three pixels of row three, are not interior. */
  lemma TopOutside(width: nat, height: nat)
    requires width > 2 * Radius
    ensures forall q: nat :: q < Radius * width + Radius ==> !InteriorPixel(width, height, q)
  {
    forall q: nat | q < Radius * width + Radius
      ensures !InteriorPixel(width, height, q)
    {
      if q < Radius * width {
        assert width * (q / width) <= q;
        MulLess(width, q / width, Radius);
      } else {
        DivModUnique(q, width, q - Radius * width, Radius);
      }
    }
  }

  /** From column width - 3 of row y to column 3 of row y + 1, no pixel is interior. */
  lemma RowEndOutside(width: nat, height: nat, y: nat)
    requires width > 2 * Radius
    ensures forall q: nat :: y * width + width - Radius <= q < (y + 1) * width + Radius ==> !InteriorPixel(width, height, q)
  {
    assert (y + 1) * width == y * width + width;
    forall q: nat | y * width + width - Radius <= q < (y + 1) * width + Radius
      ensures !InteriorPixel(width, height, q)
    {
      if q < (y + 1) * width {
        DivModUnique(q, width, q - y * width, y);
      } else {
        DivModUnique(q, width, q - (y + 1) * width, y + 1);
      }
    }
  }

  /** From row y on, when y is among the last three rows, no pixel is interior. */
  lemma BottomOutside(width: nat, height: nat, y: nat)
    requires width > 0 && y >= height - Radius
    ensures forall q: nat :: y * width <= q ==> !InteriorPixel(width, height, q)
  {
    forall q: nat | y * width <= q
      ensures !InteriorPixel(width, height, q)
    {
      RowAtLeast(q, width, y);
    }
  }

  /** Before the loops: every pixel before (3, 3) is already as the blur leaves it. */
  lemma BlurStart(s: seq<Byte>, width: nat, height: nat)
    requires |s| == width * height * 4 && width > 2 * Radius
    ensures BlurredUpTo(s, Blurred(s, width, height), s, Radius * width + Radius)
  {
    TopOutside(width, height);
    Skip(s, width, height, s, 0, Radius * width + Radius);
  }

  /** Storing the three means of interior pixel (x, y) moves the invariant on by one pixel. */
  lemma BlurStep(s: seq<Byte>, width: nat, height: nat, prev: seq<Byte>, cur: seq<Byte>, x: nat, y: nat)
    requires |s| == width * height * 4 && Interior(width, height, x, y)
    requires BlurredUpTo(s, Blurred(s, width, height), prev, y * width + x)
    requires |cur| == |prev| && (y * width + x) * 4 + 3 < |cur|
    requires cur[(y * width + x) * 4] == ToUint8Clamp(WindowSum(s, width, height, x, y, 0), WindowSize)
    requires cur[(y * width + x) * 4 + 1] == ToUint8Clamp(WindowSum(s, width, height, x, y, 1), WindowSize)
    requires cur[(y * width + x) * 4 + 2] == ToUint8Clamp(WindowSum(s, width, height, x, y, 2), WindowSize)
    requires forall j :: 0 <= j < |cur| && (j < (y * width + x) * 4 || (y * width + x) * 4 + 3 <= j) ==> cur[j] == prev[j]
    ensures BlurredUpTo(s, Blurred(s, width, height), cur, y * width + x + 1)
  {
    var q := y * width + x;
    CellInGrid(width, height, x, y);
    DivModUnique(q, width, x, y);
    BlurredAtPixel(s, width, height, q, 0);
    BlurredAtPixel(s, width, height, q, 1);
    BlurredAtPixel(s, width, height, q, 2);
    BlurredAtPixel(s, width, height, q, 3);
  }

  /** At the end of a row: the rest of it and the start of the next one are skipped. */
  lemma BlurRowEnd(s: seq<Byte>, width: nat, height: nat, cur: seq<Byte>, y: nat)
    requires |s| == width * height * 4 && width > 2 * Radius
    requires BlurredUpTo(s, Blurred(s, width, height), cur, y * width + width - Radius)
    ensures BlurredUpTo(s, Blurred(s, width, height), cur, (y + 1) * width + Radius)
  {
    RowEndOutside(width, height, y);
    assert (y + 1) * width == y * width + width;
    Skip(s, width, height, cur, y * width + width - Radius, (y + 1) * width + Radius);
  }

  /** After the last interior row the buffer is the blurred one. */
  lemma BlurFinish(s: seq<Byte>, width: nat, height: nat, cur: seq<Byte>, y: nat)
    requires |s| == width * height * 4 && width > 0 && y >= height - Radius
    requires BlurredUpTo(s, Blurred(s, width, height), cur, y * width + Radius)
    ensures cur == Blurred(s, width, height)
  {
    var k := y * width + Radius;
    if k < width * height {
      BottomOutside(width, height, y);
      Skip(s, width, height, cur, k, width * height);
      k := width * height;
    }
    assert |s| <= 4 * k;
  }

  /** An image too small for any window to fit is left unchanged. */
  lemma SmallImageUnchanged(s: seq<Byte>, width: nat, height: nat)
    requires |s| == width * height * 4 && (width <= 2 * Radius || height <= 2 * Radius)
    ensures Blurred(s, width, height) == s
  {
    forall j | 0 <= j < |s|
      ensures Blurred(s, width, height)[j] == s[j]
    {
      assert Blurred(s, width, height)[j] == BlurredByte(s, width, height, j / 4, j % 4);
    }
  }

  /**
    The sums of the 7 x 7 window around interior pixel (x, y), read from
    the copy: the two inner loops of the blur branch.
  */
  method SumWindow(tempData: seq<Byte>, width: nat, height: nat, x: nat, y: nat) returns (r: int, g: int, b: int, count: int)
    requires |tempData| == width * height * 4 && Interior(width, height, x, y)
    ensures count == WindowSize
    ensures r == WindowSum(tempData, width, height, x, y, 0)
    ensures g == WindowSum(tempData, width, height, x, y, 1)
    ensures b == WindowSum(tempData, width, height, x, y, 2)
  {
    r, g, b, count := 0, 0, 0, 0;
    var dy := -Radius;
    while dy <= Radius
      invariant -Radius <= dy <= Radius + 1
      invariant count == (dy + Radius) * Side
      invariant r == BoxSum(tempData, width, height, x, y, 0, dy + Radius)
      invariant g == BoxSum(tempData, width, height, x, y, 1, dy + Radius)
      invariant b == BoxSum(tempData, width, height, x, y, 2, dy + Radius)
    {
      var dx := -Radius;
      while dx <= Radius
        invariant -Radius <= dx <= Radius + 1
        invariant count == (dy + Radius) * Side + dx + Radius
        invariant r == BoxSum(tempData, width, height, x, y, 0, dy + Radius) + RowSum(tempData, width, height, x, y + dy, 0, dx + Radius)
        invariant g == BoxSum(tempData, width, height, x, y, 1, dy + Radius) + RowSum(tempData, width, height, x, y + dy, 1, dx + Radius)
        invariant b == BoxSum(tempData, width, height, x, y, 2, dy + Radius) + RowSum(tempData, width, height, x, y + dy, 2, dx + Radius)
      {
        CellInGrid(width, height, x + dx, y + dy);
        var idx := ((y + dy) * width + (x + dx)) * 4;
        r := r + tempData[idx];
        g := g + tempData[idx + 1];
        b := b + tempData[idx + 2];
        count := count + 1;
        dx := dx + 1;
      }
      dy := dy + 1;
    }
  }

  /**
    The blur branch: tempData is the copy every window is read from; each
    interior pixel's colour bytes receive sum / count, stored through
    ToUint8Clamp.
  */
  method ApplyBlur(data: array<Byte>, width: nat, height: nat)
    requires data.Length == width * height * 4
    modifies data
    ensures data[..] == Blurred(old(data[..]), width, height)
  {
    var tempData := data[..];
    ghost var big := width > 2 * Radius && height > 2 * Radius;
    if big {
      BlurStart(tempData, width, height);
    }
    var y := Radius;
    while y < height - Radius
      invariant Radius <= y
      invariant big ==> BlurredUpTo(tempData, Blurred(tempData, width, height), data[..], y * width + Radius)
      invariant !big ==> data[..] == tempData
    {
      var x := Radius;
      while x < width - Radius
        invariant Radius <= x && (big ==> x <= width - Radius)
        invariant big ==> BlurredUpTo(tempData, Blurred(tempData, width, height), data[..], y * width + x)
        invariant !big ==> data[..] == tempData
      {
        var r, g, b, count := SumWindow(tempData, width, height, x, y);
        CellInGrid(width, height, x, y);
        var idx := (y * width + x) * 4;
        ghost var prev := data[..];
        data[idx] := ToUint8Clamp(r, count);
        data[idx + 1] := ToUint8Clamp(g, count);
        data[idx + 2] := ToUint8Clamp(b, count);
        BlurStep(tempData, width, height, prev, data[..], x, y);
        x := x + 1;
      }
      if big {
        BlurRowEnd(tempData, width, height, data[..], y);
      }
      y := y + 1;
    }
    if big {
      BlurFinish(tempData, width, height, data[..], y);
    } else {
      SmallImageUnchanged(tempData, width, height);
    }
  }
}
