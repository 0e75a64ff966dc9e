/**
  The five branches of applyFilterToContext that recolour each pixel from
  its own red, green and blue bytes: grayscale, sepia, invert, contrast and
  the purple "goose" tint. The buffer is flat RGBA, four bytes per pixel.
  Each decimal coefficient is written as thousandths, so every value a
  branch computes is the exact rational numerator / 1000.
*/
module PointFilters {
  import opened Uint8Clamped

  datatype PointFilter = Grayscale | Sepia | Invert | Contrast | Goose

  /** The factor of the contrast branch. */
  const ContrastFactor := 2

  function Min(a: int, b: int): int { if a <= b then a else b }
  function Max(a: int, b: int): int { if a <= b then b else a }

  /** The denominator of every decimal coefficient. */
  const Scale := 1000

  /** The weighted luminance (0.299, 0.587, 0.114) the grayscale branch stores into all three channels, in thousandths. */
  function Luminance(r: Byte, g: Byte, b: Byte): int {
    299 * r + 587 * g + 114 * b
  }

  /** One channel of the contrast branch, clamped by Math.min and Math.max. */
  function ContrastChannel(c: Byte): (r: Byte)
    ensures c <= 64 ==> r == 0
    ensures c >= 192 ==> r == 255
    ensures 64 < c < 192 ==> r == 2 * c - 128
  {
    Min(255, Max(0, ContrastFactor * (c - 128) + 128))
  }

  /** What sepia computes for channel c, capped by Math.min(255, ...), in thousandths. */
  function SepiaValue(r: Byte, g: Byte, b: Byte, c: nat): int
    requires c < 3
  {
    if c == 0 then Min(255 * Scale, 393 * r + 769 * g + 189 * b)
    else if c == 1 then Min(255 * Scale, 349 * r + 686 * g + 168 * b)
    else Min(255 * Scale, 272 * r + 534 * g + 131 * b)
  }

  /** What the goose tint computes for channel c of value v, capped by Math.min(255, ...), in thousandths. */
  function GooseValue(v: Byte, c: nat): int
    requires c < 3
  {
    if c == 0 then Min(255 * Scale, 800 * v + 102 * 200)
    else if c == 1 then Min(255 * Scale, 700 * v + 126 * 300)
    else Min(255 * Scale, 700 * v + 234 * 300)
  }

  /** The colour the goose tint pulls towards, channel by channel. */
  function Accent(c: nat): Byte
    requires c < 3
  {
    if c == 0 then 102 else if c == 1 then 126 else 234
  }

  function Pick(r: Byte, g: Byte, b: Byte, c: nat): Byte
    requires c < 3
  {
    if c == 0 then r else if c == 1 then g else b
  }

  /** The byte stored into colour channel c (0 red, 1 green, 2 blue) of a pixel (r, g, b). */
  function Recolor(f: PointFilter, r: Byte, g: Byte, b: Byte, c: nat): Byte
    requires c < 3
  {
    match f
    case Grayscale => ToUint8Clamp(Luminance(r, g, b), Scale)
    case Sepia => ToUint8Clamp(SepiaValue(r, g, b, c), Scale)
    case Invert => 255 - Pick(r, g, b, c)
    case Contrast => ContrastChannel(Pick(r, g, b, c))
    case Goose => ToUint8Clamp(GooseValue(Pick(r, g, b, c), c), Scale)
  }

  /** The four bytes of pixel (r, g, b, a) after filter f: the alpha byte is kept. */
  function RecolorPixel(f: PointFilter, r: Byte, g: Byte, b: Byte, a: Byte): seq<Byte> {
    [Recolor(f, r, g, b, 0), Recolor(f, r, g, b, 1), Recolor(f, r, g, b, 2), a]
  }

  /**
    The whole buffer after filter f, pixel by pixel. An image buffer always
    holds whole pixels; a trailing partial pixel, were there one, is kept.
  */
  function PointFiltered(f: PointFilter, s: seq<Byte>): (t: seq<Byte>)
    ensures |t| == |s|
    decreases |s|
  {
    if |s| < 4 then s else RecolorPixel(f, s[0], s[1], s[2], s[3]) + PointFiltered(f, s[4..])
  }

  /** Filtering a buffer piecewise is filtering it whole: the filter works pixel by pixel. */
  lemma {:induction false} PointFilteredAppend(f: PointFilter, a: seq<Byte>, b: seq<Byte>, k: nat)
    requires |a| == 4 * k
    ensures PointFiltered(f, a + b) == PointFiltered(f, a) + PointFiltered(f, b)
  {
    if k == 0 {
      assert a + b == b;
    } else {
      assert (a + b)[4..] == a[4..] + b;
      PointFilteredAppend(f, a[4..], b, k - 1);
    }
  }

  /** The four bytes after a prefix x of x + y are the first four of y. */
  lemma FourAfter(x: seq<Byte>, y: seq<Byte>)
    requires 4 <= |y|
    ensures (x + y)[|x|..|x| + 4] == y[..4]
  {
  }

  /** Pixel p of the output is pixel p of the input recoloured: its alpha byte is kept and nothing else is read. */
  lemma PointFilteredPixel(f: PointFilter, s: seq<Byte>, p: nat)
    requires 4 * p + 4 <= |s|
    ensures PointFiltered(f, s)[4 * p..4 * p + 4] == RecolorPixel(f, s[4 * p], s[4 * p + 1], s[4 * p + 2], s[4 * p + 3])
  {
    var a, b := s[..4 * p], s[4 * p..];
    assert s == a + b;
    PointFilteredAppend(f, a, b, p);
    var pixel := RecolorPixel(f, b[0], b[1], b[2], b[3]);
    assert PointFiltered(f, b) == pixel + PointFiltered(f, b[4..]);
    assert PointFiltered(f, b)[..4] == pixel;
    FourAfter(PointFiltered(f, a), PointFiltered(f, b));
  }

  /** Contrast never turns a darker channel into a brighter one. */
  lemma ContrastMonotone(c: Byte, d: Byte)
    requires c <= d
    ensures ContrastChannel(c) <= ContrastChannel(d)
  {
  }

  /** After grayscale the red, green and blue bytes of every pixel are equal. */
  lemma GrayscaleEqualChannels(s: seq<Byte>, p: nat)
    requires 4 * p + 4 <= |s|
    ensures var t := PointFiltered(Grayscale, s);
      t[4 * p] == t[4 * p + 1] == t[4 * p + 2]
  {
    var t := PointFiltered(Grayscale, s);
    PointFilteredPixel(Grayscale, s, p);
    assert t[4 * p] == t[4 * p..4 * p + 4][0] && t[4 * p + 1] == t[4 * p..4 * p + 4][1];
    assert t[4 * p + 2] == t[4 * p..4 * p + 4][2];
  }

  /** Inverting twice gives back the original buffer. */
  lemma {:induction false} InvertTwice(s: seq<Byte>)
    ensures PointFiltered(Invert, PointFiltered(Invert, s)) == s
    decreases |s|
  {
    if |s| >= 4 {
      var t := PointFiltered(Invert, s);
      assert t[4..] == PointFiltered(Invert, s[4..]);
      InvertTwice(s[4..]);
      assert s == s[..4] + s[4..];
    }
  }

  /** The grayscale value lies between the darkest and the brightest channel. */
  lemma GrayBetweenChannels(r: Byte, g: Byte, b: Byte)
    ensures Min(r, Min(g, b)) <= Recolor(Grayscale, r, g, b, 0) <= Max(r, Max(g, b))
  {
    RoundsBetween(Luminance(r, g, b), Scale, Min(r, Min(g, b)), Max(r, Max(g, b)));
  }

  /** A pixel that is already gray keeps its value. */
  lemma GrayOfGray(v: Byte)
    ensures Recolor(Grayscale, v, v, v, 0) == v
  {
    assert Luminance(v, v, v) == v * Scale;
    StoresBytesExactly(v, Scale);
  }

  /** Applying grayscale a second time changes nothing. */
  lemma {:induction false} GrayscaleIdempotent(s: seq<Byte>)
    ensures PointFiltered(Grayscale, PointFiltered(Grayscale, s)) == PointFiltered(Grayscale, s)
    decreases |s|
  {
    if |s| >= 4 {
      var t := PointFiltered(Grayscale, s);
      assert t[4..] == PointFiltered(Grayscale, s[4..]);
      GrayscaleIdempotent(s[4..]);
      GrayOfGray(t[0]);
    }
  }

  /** Sepia gives a warm tone: in every pixel red is at least green and green at least blue. */
  lemma SepiaIsWarm(r: Byte, g: Byte, b: Byte)
    ensures Recolor(Sepia, r, g, b, 0) >= Recolor(Sepia, r, g, b, 1) >= Recolor(Sepia, r, g, b, 2)
  {
    Monotone(SepiaValue(r, g, b, 1), SepiaValue(r, g, b, 0), Scale);
    Monotone(SepiaValue(r, g, b, 2), SepiaValue(r, g, b, 1), Scale);
  }

  /**
    The goose tint blends each channel of a pixel with the accent colour, so
    the result lies between the channel and the accent; the cap at 255 never
    applies.
  */
  lemma GooseBlends(r: Byte, g: Byte, b: Byte, c: nat)
    requires c < 3
    ensures GooseValue(Pick(r, g, b, c), c) < 255 * Scale
    ensures var v := Pick(r, g, b, c);
      Min(v, Accent(c)) <= Recolor(Goose, r, g, b, c) <= Max(v, Accent(c))
  {
    var v := Pick(r, g, b, c);
    RoundsBetween(GooseValue(v, c), Scale, Min(v, Accent(c)), Max(v, Accent(c)));
  }

  /**
    The invariant of every per-pixel loop after p pixels: the first 4 * p
    bytes hold the filtered pixels, the rest are still the original ones.
  */
  ghost predicate FilteredUpTo(f: PointFilter, orig: seq<Byte>, cur: seq<Byte>, p: nat) {
    4 * p <= |orig| && |cur| == |orig| &&
    cur[..4 * p] == PointFiltered(f, orig[..4 * p]) && cur[4 * p..] == orig[4 * p..]
  }

  /** Filtering one more whole pixel appends that pixel, recoloured. */
  lemma PointFilteredSnoc(f: PointFilter, s: seq<Byte>, p: nat)
    requires 4 * p + 4 <= |s|
    ensures PointFiltered(f, s[..4 * p + 4])
         == PointFiltered(f, s[..4 * p]) + RecolorPixel(f, s[4 * p], s[4 * p + 1], s[4 * p + 2], s[4 * p + 3])
  {
    var i := 4 * p;
    assert s[..i + 4] == s[..i] + s[i..i + 4];
    PointFilteredAppend(f, s[..i], s[i..i + 4], p);
  }

  /** A prefix four bytes longer is the shorter prefix followed by those four bytes. */
  lemma PrefixByPixel(s: seq<Byte>, i: nat)
    requires i + 4 <= |s|
    ensures s[..i + 4] == s[..i] + [s[i], s[i + 1], s[i + 2], s[i + 3]]
  {
  }

  /** Rewriting the colour bytes of pixel p as filter f does moves the invariant on by one pixel. */
  lemma FilteredUpToStep(f: PointFilter, orig: seq<Byte>, prev: seq<Byte>, cur: seq<Byte>, p: nat)
    requires FilteredUpTo(f, orig, prev, p) && 4 * p + 4 <= |orig|
    requires |cur| == |prev|
    requires cur[4 * p] == Recolor(f, orig[4 * p], orig[4 * p + 1], orig[4 * p + 2], 0)
    requires cur[4 * p + 1] == Recolor(f, orig[4 * p], orig[4 * p + 1], orig[4 * p + 2], 1)
    requires cur[4 * p + 2] == Recolor(f, orig[4 * p], orig[4 * p + 1], orig[4 * p + 2], 2)
    requires forall j :: 0 <= j < |cur| && (j < 4 * p || 4 * p + 3 <= j) ==> cur[j] == prev[j]
    ensures FilteredUpTo(f, orig, cur, p + 1)
  {
    var i := 4 * p;
    assert prev[i..][3] == orig[i..][3];
    StepPrefix(f, orig, prev, cur, p);
    StepSuffix(orig, prev, cur, i);
  }

  /** The prefix half of FilteredUpToStep: the first p + 1 pixels are filtered. */
  lemma StepPrefix(f: PointFilter, orig: seq<Byte>, prev: seq<Byte>, cur: seq<Byte>, p: nat)
    requires 4 * p + 4 <= |orig| && |cur| == |prev| == |orig|
    requires prev[..4 * p] == PointFiltered(f, orig[..4 * p])
    requires cur[4 * p] == Recolor(f, orig[4 * p], orig[4 * p + 1], orig[4 * p + 2], 0)
    requires cur[4 * p + 1] == Recolor(f, orig[4 * p], orig[4 * p + 1], orig[4 * p + 2], 1)
    requires cur[4 * p + 2] == Recolor(f, orig[4 * p], orig[4 * p + 1], orig[4 * p + 2], 2)
    requires cur[4 * p + 3] == orig[4 * p + 3]
    requires forall j :: 0 <= j < 4 * p ==> cur[j] == prev[j]
    ensures cur[..4 * p + 4] == PointFiltered(f, orig[..4 * p + 4])
  {
    var i := 4 * p;
    PointFilteredSnoc(f, orig, p);
    PrefixByPixel(cur, i);
    assert cur[..i] == prev[..i];
  }

  /** The suffix half of FilteredUpToStep: the bytes after pixel p are still the original ones. */
  lemma StepSuffix(orig: seq<Byte>, prev: seq<Byte>, cur: seq<Byte>, i: nat)
    requires i + 4 <= |orig| && |cur| == |prev| == |orig|
    requires prev[i..] == orig[i..]
    requires forall j :: i + 3 <= j < |cur| ==> cur[j] == prev[j]
    ensures cur[i + 4..] == orig[i + 4..]
  {
    assert cur[i + 4..] == prev[i + 4..];
    assert prev[i + 4..] == prev[i..][4..];
  }

  /** Under the loop invariant, pixel p is still the original pixel. */
  lemma NotYetFiltered(f: PointFilter, orig: seq<Byte>, cur: seq<Byte>, p: nat)
    requires FilteredUpTo(f, orig, cur, p) && 4 * p + 4 <= |orig|
    ensures cur[4 * p] == orig[4 * p] && cur[4 * p + 1] == orig[4 * p + 1]
    ensures cur[4 * p + 2] == orig[4 * p + 2] && cur[4 * p + 3] == orig[4 * p + 3]
  {
    var i := 4 * p;
    assert cur[i..][0] == orig[i..][0] && cur[i..][1] == orig[i..][1];
    assert cur[i..][2] == orig[i..][2] && cur[i..][3] == orig[i..][3];
  }

  /** A buffer of whole pixels holds n of them. */
  lemma PixelCount(len: int) returns (n: nat)
    requires 0 <= len && len % 4 == 0
    ensures len == 4 * n
  {
    n := len / 4;
  }

  /** When pixel p starts inside a buffer of n whole pixels, all four of its bytes are inside. */
  lemma NextPixelFits(n: nat, p: nat)
    requires 4 * p < 4 * n
    ensures 4 * p + 4 <= 4 * n
  {
  }

  /** At the end of the buffer the invariant is the postcondition. */
  lemma FilteredUpToEnd(f: PointFilter, orig: seq<Byte>, cur: seq<Byte>, p: nat)
    requires FilteredUpTo(f, orig, cur, p) && 4 * p == |orig|
    ensures cur == PointFiltered(f, orig)
  {
    assert cur == cur[..|orig|] && orig == orig[..|orig|];
  }

  /** The grayscale branch: one luminance value stored into R, G and B. */
  method ApplyGrayscale(data: array<Byte>)
    requires data.Length % 4 == 0
    modifies data
    ensures data[..] == PointFiltered(Grayscale, old(data[..]))
  {
    ghost var S := data[..];
    ghost var n := PixelCount(data.Length);
    var i := 0;
    ghost var p := 0;
    while i < data.Length
      invariant i == 4 * p && FilteredUpTo(Grayscale, S, data[..], p)
    {
      NextPixelFits(n, p);
      NotYetFiltered(Grayscale, S, data[..], p);
      ghost var prev := data[..];
      var gray := Luminance(data[i], data[i + 1], data[i + 2]);
      data[i] := ToUint8Clamp(gray, Scale);
      data[i + 1] := ToUint8Clamp(gray, Scale);
      data[i + 2] := ToUint8Clamp(gray, Scale);
      FilteredUpToStep(Grayscale, S, prev, data[..], p);
      i, p := i + 4, p + 1;
    }
    FilteredUpToEnd(Grayscale, S, data[..], p);
  }

  /** The sepia branch: r, g, b are read before any of them is overwritten. */
  method ApplySepia(data: array<Byte>)
    requires data.Length % 4 == 0
    modifies data
    ensures data[..] == PointFiltered(Sepia, old(data[..]))
  {
    ghost var S := data[..];
    ghost var n := PixelCount(data.Length);
    var i := 0;
    ghost var p := 0;
    while i < data.Length
      invariant i == 4 * p && FilteredUpTo(Sepia, S, data[..], p)
    {
      NextPixelFits(n, p);
      NotYetFiltered(Sepia, S, data[..], p);
      ghost var prev := data[..];
      var r, g, b := data[i], data[i + 1], data[i + 2];
      data[i] := ToUint8Clamp(SepiaValue(r, g, b, 0), Scale);
      data[i + 1] := ToUint8Clamp(SepiaValue(r, g, b, 1), Scale);
      data[i + 2] := ToUint8Clamp(SepiaValue(r, g, b, 2), Scale);
      FilteredUpToStep(Sepia, S, prev, data[..], p);
      i, p := i + 4, p + 1;
    }
    FilteredUpToEnd(Sepia, S, data[..], p);
  }

  /** The invert branch: each colour byte c becomes 255 - c. */
  method ApplyInvert(data: array<Byte>)
    requires data.Length % 4 == 0
    modifies data
    ensures data[..] == PointFiltered(Invert, old(data[..]))
  {
    ghost var S := data[..];
    ghost var n := PixelCount(data.Length);
    var i := 0;
    ghost var p := 0;
    while i < data.Length
      invariant i == 4 * p && FilteredUpTo(Invert, S, data[..], p)
    {
      NextPixelFits(n, p);
      NotYetFiltered(Invert, S, data[..], p);
      ghost var prev := data[..];
      data[i] := 255 - data[i];
      data[i + 1] := 255 - data[i + 1];
      data[i + 2] := 255 - data[i + 2];
      FilteredUpToStep(Invert, S, prev, data[..], p);
      i, p := i + 4, p + 1;
    }
    FilteredUpToEnd(Invert, S, data[..], p);
  }

  /** The contrast branch: factor * (c - 128) + 128, clamped to [0, 255]. */
  method ApplyContrast(data: array<Byte>)
    requires data.Length % 4 == 0
    modifies data
    ensures data[..] == PointFiltered(Contrast, old(data[..]))
  {
    ghost var S := data[..];
    ghost var n := PixelCount(data.Length);
    var i := 0;
    ghost var p := 0;
    while i < data.Length
      invariant i == 4 * p && FilteredUpTo(Contrast, S, data[..], p)
    {
      NextPixelFits(n, p);
      NotYetFiltered(Contrast, S, data[..], p);
      ghost var prev := data[..];
      data[i] := Min(255, Max(0, ContrastFactor * (data[i] as int - 128) + 128));
      data[i + 1] := Min(255, Max(0, ContrastFactor * (data[i + 1] as int - 128) + 128));
      data[i + 2] := Min(255, Max(0, ContrastFactor * (data[i + 2] as int - 128) + 128));
      FilteredUpToStep(Contrast, S, prev, data[..], p);
      i, p := i + 4, p + 1;
    }
    FilteredUpToEnd(Contrast, S, data[..], p);
  }

  /** The goose branch: each channel blended with the accent colour (102, 126, 234). */
  method ApplyGoose(data: array<Byte>)
    requires data.Length % 4 == 0
    modifies data
    ensures data[..] == PointFiltered(Goose, old(data[..]))
  {
    ghost var S := data[..];
    ghost var n := PixelCount(data.Length);
    var i := 0;
    ghost var p := 0;
    while i < data.Length
      invariant i == 4 * p && FilteredUpTo(Goose, S, data[..], p)
    {
      NextPixelFits(n, p);
      NotYetFiltered(Goose, S, data[..], p);
      ghost var prev := data[..];
      data[i] := ToUint8Clamp(GooseValue(data[i], 0), Scale);
      data[i + 1] := ToUint8Clamp(GooseValue(data[i + 1], 1), Scale);
      data[i + 2] := ToUint8Clamp(GooseValue(data[i + 2], 2), Scale);
      FilteredUpToStep(Goose, S, prev, data[..], p);
      i, p := i + 4, p + 1;
    }
    FilteredUpToEnd(Goose, S, data[..], p);
  }
}
