/**
  applyFilterToContext: the switch on the filter id that picks one of the
  branches and runs it over the frame's RGBA buffer in place. The ids are
  those of the filter menu; "none" and any other id leave the buffer as it
  was.
*/
module FilterEngine {
  import opened Optional
  import opened Uint8Clamped
  import opened PointFilters
  import opened BoxBlur

  /** What a branch of the switch does: recolour each pixel, or blur. */
  datatype Filter = Point(f: PointFilter) | Blur

  /** The ids of the filter menu, in menu order. */
  const FilterMenu: seq<string> := ["none", "grayscale", "sepia", "invert", "blur", "contrast", "goose"]

  /** The branch the switch takes for filterId; None for "none" and for the default case. Only menu ids select a branch. */
  function FilterOf(filterId: string): (r: Option<Filter>)
    ensures r.Some? ==> filterId in FilterMenu && filterId != "none"
  {
    if filterId == "grayscale" then Some(Point(Grayscale))
    else if filterId == "sepia" then Some(Point(Sepia))
    else if filterId == "invert" then Some(Point(Invert))
    else if filterId == "blur" then Some(Blur)
    else if filterId == "contrast" then Some(Point(Contrast))
    else if filterId == "goose" then Some(Point(Goose))
    else None
  }

  /** The case label of the branch that does f. */
  function IdOf(f: Filter): (id: string)
    ensures id in FilterMenu && id != "none"
  {
    match f
    case Point(Grayscale) => "grayscale"
    case Point(Sepia) => "sepia"
    case Point(Invert) => "invert"
    case Point(Contrast) => "contrast"
    case Point(Goose) => "goose"
    case Blur => "blur"
  }

  /** Every filter has exactly one id, the one its case label names: FilterOf and IdOf are inverse. */
  lemma FilterIdRoundTrip(filterId: string, f: Filter)
    ensures FilterOf(filterId) == Some(f) <==> IdOf(f) == filterId
  {
    match f
    case Point(p) =>
    case Blur =>
  }

  /** Every id on the menu but "none" selects a filter, and "none" selects none. */
  lemma MenuSelectsFilters(filterId: string)
    requires filterId in FilterMenu
    ensures FilterOf(filterId) == None <==> filterId == "none"
  {
  }

  /** The buffer after applyFilterToContext with filterId on a width x height frame. */
  function Filtered(s: seq<Byte>, width: nat, height: nat, filterId: string): (t: seq<Byte>)
    requires |s| == width * height * 4
    ensures |t| == |s|
  {
    match FilterOf(filterId)
    case None => s
    case Some(Point(f)) => PointFiltered(f, s)
    case Some(Blur) => Blurred(s, width, height)
  }

  /** "none", and any id the switch has no case for, leave the buffer as it was; every other menu id selects a filter branch. */
  lemma NoneKeepsBuffer(s: seq<Byte>, width: nat, height: nat, filterId: string)
    requires |s| == width * height * 4
    ensures filterId == "none" || filterId !in FilterMenu ==> Filtered(s, width, height, filterId) == s
    ensures filterId in FilterMenu && filterId != "none" ==> FilterOf(filterId).Some?
  {
    if filterId == "none" || filterId !in FilterMenu {
      assert FilterOf(filterId) == None;
    }
  }

  /** Whatever the filter, the alpha byte of every pixel is kept. */
  lemma FilterKeepsAlpha(s: seq<Byte>, width: nat, height: nat, filterId: string, q: nat)
    requires |s| == width * height * 4 && q < width * height
    ensures Filtered(s, width, height, filterId)[4 * q + 3] == s[4 * q + 3]
  {
    match FilterOf(filterId)
    case None =>
    case Some(Point(f)) =>
      PointFilteredPixel(f, s, q);
      assert PointFiltered(f, s)[4 * q + 3] == PointFiltered(f, s)[4 * q..4 * q + 4][3];
    case Some(Blur) =>
      BlurredAtPixel(s, width, height, q, 3);
  }

  /** A width x height RGBA buffer holds whole pixels. */
  lemma WholePixels(width: nat, height: nat)
    ensures (width * height * 4) % 4 == 0
  {
  }

  /** The switch of applyFilterToContext, run on the frame's buffer. */
  method ApplyFilterToContext(data: array<Byte>, width: nat, height: nat, filterId: string)
    requires data.Length == width * height * 4
    modifies data
    ensures data[..] == Filtered(old(data[..]), width, height, filterId)
  {
    WholePixels(width, height);
    if filterId == "grayscale" {
      ApplyGrayscale(data);
    } else if filterId == "sepia" {
      ApplySepia(data);
    } else if filterId == "invert" {
      ApplyInvert(data);
    } else if filterId == "blur" {
      ApplyBlur(data, width, height);
    } else if filterId == "contrast" {
      ApplyContrast(data);
    } else if filterId == "goose" {
      ApplyGoose(data);
    }
  }
}
