/**
  downloadGrid: the 2 x 2 photo strip. A white canvas with a 100 pixel
  header, the photos 400 x 300 in a grid with 20 pixels of padding, each
  with a numbered badge, exported as a PNG in an image's onload handler.
*/
module GridLayout {

  const PhotoWidth := 400
  const PhotoHeight := 300
  const Padding := 20
  const HeaderHeight := 100

  /** gridCanvas.width: two photos and three paddings. */
  const CanvasWidth := PhotoWidth * 2 + Padding * 3
  /** gridCanvas.height: two photos, three paddings and the header. */
  const CanvasHeight := PhotoHeight * 2 + Padding * 3 + HeaderHeight

  /** An axis-aligned rectangle of the canvas: left, top, width, height. */
  datatype Rect = Rect(x: int, y: int, w: int, h: int)

  /** Whether a lies inside b. */
  predicate Inside(a: Rect, b: Rect) {
    b.x <= a.x && a.x + a.w <= b.x + b.w && b.y <= a.y && a.y + a.h <= b.y + b.h
  }

  /** Whether a and b share no pixel. */
  predicate Disjoint(a: Rect, b: Rect) {
    a.x + a.w <= b.x || b.x + b.w <= a.x || a.y + a.h <= b.y || b.y + b.h <= a.y
  }

  /** The whole canvas. */
  function Canvas(): Rect {
    Rect(0, 0, CanvasWidth, CanvasHeight)
  }

  /** Where the image with the given index is drawn: row index / 2, column index % 2. */
  function CellRect(index: nat): (r: Rect)
    ensures r.w == PhotoWidth && r.h == PhotoHeight
  {
    var row := index / 2;
    var col := index % 2;
    Rect(Padding + col * (PhotoWidth + Padding), HeaderHeight + Padding + row * (PhotoHeight + Padding), PhotoWidth, PhotoHeight)
  }

  /** The 30 x 30 square behind the photo number, near the top right corner of the cell. */
  function BadgeRect(index: nat): Rect {
    var cell := CellRect(index);
    Rect(cell.x + PhotoWidth - 40, cell.y + 10, 30, 30)
  }

  /** The anchor of the centred photo number. */
  function LabelAnchor(index: nat): (int, int) {
    var cell := CellRect(index);
    (cell.x + PhotoWidth - 25, cell.y + 30)
  }

  /** The number written on the badge: photos are numbered from 1. */
  function BadgeLabel(index: nat): nat {
    index + 1
  }

  /** The canvas is 860 x 760. */
  lemma CanvasSize()
    ensures CanvasWidth == 860 && CanvasHeight == 760
  {
  }

  /** Cells of different images never overlap. */
  lemma CellsDisjoint(i: nat, j: nat)
    requires i != j
    ensures Disjoint(CellRect(i), CellRect(j))
  {
    var ri, ci, rj, cj := i / 2, i % 2, j / 2, j % 2;
    assert i == 2 * ri + ci && j == 2 * rj + cj;
    if ri < rj {
      assert ri * (PhotoHeight + Padding) + (PhotoHeight + Padding) <= rj * (PhotoHeight + Padding);
    } else if rj < ri {
      assert rj * (PhotoHeight + Padding) + (PhotoHeight + Padding) <= ri * (PhotoHeight + Padding);
    }
  }

  /** A cell lies on the canvas exactly when it is one of the first four. */
  lemma CellOnCanvas(index: nat)
    ensures Inside(CellRect(index), Canvas()) <==> index < 4
  {
    var row := index / 2;
    if row >= 2 {
      assert row * (PhotoHeight + Padding) >= 2 * (PhotoHeight + Padding);
    }
  }

  /** Every cell sits below the header, with one padding between them. */
  lemma CellBelowHeader(index: nat)
    ensures CellRect(index).y >= HeaderHeight + Padding
  {
    var row := index / 2;
    assert row * (PhotoHeight + Padding) >= 0;
  }

  /** The badge lies inside its photo's cell and the photo number is anchored inside the badge. */
  lemma BadgeInsideCell(index: nat)
    ensures Inside(BadgeRect(index), CellRect(index))
    ensures var (lx, ly) := LabelAnchor(index); var b := BadgeRect(index);
      b.x < lx < b.x + b.w && b.y < ly <= b.y + b.h
    ensures 1 <= BadgeLabel(index) && (index < 4 ==> BadgeLabel(index) <= 4)
  {
  }

  /**
    The order in which the n images finish decoding: each index below n
    exactly once.
  */
  predicate IsDecodeOrder(order: seq<nat>, n: nat) {
    |order| == n &&
    (forall k :: 0 <= k < n ==> order[k] < n) &&
    (forall i :: 0 <= i < n ==> i in order) &&
    (forall k, l :: 0 <= k < l < n ==> order[k] != order[l])
  }

  /** Where index v first appears in order. */
  function Position(order: seq<nat>, v: nat): (p: nat)
    requires v in order
    ensures p < |order| && order[p] == v && v !in order[..p]
  {
    if order[0] == v then 0 else
      assert v in order[1..];
      var p := Position(order[1..], v) + 1;
      assert order[..p] == [order[0]] + order[1..][..p - 1];
      p
  }

  /**
    The forEach of downloadGrid with the onload handlers run in decode
    order: each onload draws its cell and badge, and the onload of index
    n - 1 exports the canvas. Returns whether an export happened and the
    cells drawn when it did.
  */
  method DownloadGrid(n: nat, order: seq<nat>) returns (exported: bool, drawnAtExport: set<nat>)
    requires IsDecodeOrder(order, n)
    ensures exported <==> n > 0
    ensures exported ==> drawnAtExport == set k | 0 <= k <= Position(order, n - 1) :: order[k]
  {
    exported, drawnAtExport := false, {};
    var drawn: set<nat> := {};
    var k := 0;
    while k < |order|
      invariant 0 <= k <= |order|
      invariant drawn == set m | 0 <= m < k :: order[m]
      invariant exported <==> n > 0 && Position(order, n - 1) < k
      invariant exported ==> drawnAtExport == set m | 0 <= m <= Position(order, n - 1) :: order[m]
    {
      var index := order[k];
      drawn := drawn + {index};
      if index == n - 1 {
        assert Position(order, n - 1) == k;
        exported, drawnAtExport := true, drawn;
      }
      k := k + 1;
    }
  }

  /**
    The exported strip holds every photo exactly when image n - 1 is the
    last to finish decoding; any image that finishes after it is missing.
  */
  lemma ExportCompleteIffLastDecodedLast(order: seq<nat>, n: nat)
    requires IsDecodeOrder(order, n) && n > 0
    ensures var drawn := set k | 0 <= k <= Position(order, n - 1) :: order[k];
      (forall i :: 0 <= i < n ==> i in drawn) <==> order[n - 1] == n - 1
  {
    var p := Position(order, n - 1);
    var drawn := set k | 0 <= k <= p :: order[k];
    if order[n - 1] == n - 1 {
      assert p == n - 1;
      forall i | 0 <= i < n
        ensures i in drawn
      {
        assert i in order;
        var k :| 0 <= k < n && order[k] == i;
      }
    } else {
      assert p < n - 1;
      assert order[n - 1] !in drawn;
    }
  }

  /** Four photos decoded in the order 3, 0, 1, 2: the export happens with photo 4 alone on the canvas. */
  lemma ExportCanMissPhotos()
    ensures IsDecodeOrder([3, 0, 1, 2], 4)
    ensures (set k | 0 <= k <= Position([3, 0, 1, 2], 3) :: [3, 0, 1, 2][k]) == {3}
  {
    assert Position([3, 0, 1, 2], 3) == 0;
    var order: seq<nat> := [3, 0, 1, 2];
    forall i | 0 <= i < 4
      ensures i in order
    {
      assert order[(i + 1) % 4] == i;
    }
  }

  /**
    The export as the strip evidently intends it: each onload counts the
    images drawn so far and the one that completes the count exports, so
    the exported canvas holds every photo whatever the decode order.
  */
  method DownloadGridWhenAllDrawn(n: nat, order: seq<nat>) returns (exported: bool, drawnAtExport: set<nat>)
    requires IsDecodeOrder(order, n)
    ensures exported <==> n > 0
    ensures exported ==> forall i :: 0 <= i < n ==> i in drawnAtExport
  {
    exported, drawnAtExport := false, {};
    var drawn: set<nat> := {};
    var loaded := 0;
    while loaded < |order|
      invariant 0 <= loaded <= |order|
      invariant drawn == set m | 0 <= m < loaded :: order[m]
      invariant exported <==> n > 0 && loaded == n
      invariant exported ==> drawnAtExport == drawn
    {
      var index := order[loaded];
      drawn := drawn + {index};
      loaded := loaded + 1;
      if loaded == n {
        exported, drawnAtExport := true, drawn;
      }
    }
    if exported {
      forall i | 0 <= i < n
        ensures i in drawnAtExport
      {
        assert i in order;
        var k :| 0 <= k < n && order[k] == i;
      }
    }
  }
}
