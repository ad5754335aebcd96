/**
 * The shared vocabulary of the avatar try-on: the body-scan record of the
 * catalog, the two categorical shape axes, the query gender, the view angles
 * of a rendered avatar, and the result every matcher returns.
 */
module AvatarTypes {
  import opened Wrappers

  /** Belly shape of a record or a query ('flat' | 'round' | 'curvy'). */
  datatype BellyShape = Flat | Round | Curvy

  /** Hip shape of a record or a female query ('slim' | 'regular' | 'full'). */
  datatype HipShape = Slim | Regular | Full

  /** Shoulder width bucket of a male record or query ('1' | '2' | '3'). */
  datatype Width = W1 | W2 | W3

  /**
   * The matchers' second shape parameter, typed in the source as
   * 'slim' | 'regular' | 'full' | '1' | '2' | '3': a hip shape or a
   * shoulder width, whatever the gender.
   */
  datatype SecondShape = Hip(hip: HipShape) | Shoulder(width: Width)

  /** The gender a matcher searches: its catalog partition. */
  datatype Gender = Male | Female

  /** One body scan of the catalog. Circumferences are carried, never matched. */
  datatype AvatarData = AvatarData(
    fileName: string,
    stature: real,
    weight: real,
    waistCirc: real,
    chestCirc: real,
    hipCirc: real,
    crotchHeight: real,
    underBustCirc: real,
    bellyShape: BellyShape,
    hipShape: HipShape,
    shoulderWidth: Option<Width>,
    recommendedSize: Option<string>)

  /**
   * What the gender-specific catalog loader delivered: the records, or a
   * failure (a rejected promise, which every caller catches).
   */
  datatype Load = Loaded(records: seq<AvatarData>) | LoadFailed

  /** The matchers' result: an image number (null when no match was attempted) and a size. */
  datatype MatchResult = MatchResult(imageNumber: Option<nat>, recommendedSize: string)

  /** The view angles of a rendered avatar. */
  datatype View = Front | Back

  /** AVAILABLE_VIEWS, in rotation order. */
  const AvailableViews: seq<View> := [Front, Back]

  function BellyName(b: BellyShape): string {
    match b
    case Flat => "flat"
    case Round => "round"
    case Curvy => "curvy"
  }

  function HipName(h: HipShape): string {
    match h
    case Slim => "slim"
    case Regular => "regular"
    case Full => "full"
  }

  /** A shoulder width is stored as the catalog code of its rank. */
  function WidthName(w: Width): string {
    CodeNames[WidthRank(w)]
  }

  /** The string the source carries for a second shape value. */
  function SecondName(s: SecondShape): string {
    match s
    case Hip(h) => HipName(h)
    case Shoulder(w) => WidthName(w)
  }

  /* ---------- the order of each shape axis ---------- */

  /**
   * Position of a belly shape on its axis: flat, round, curvy. The code
   * maps, the similarity score and the stand-in tables all follow this
   * order; it is defined here once and the others are stated against it.
   */
  function BellyRank(b: BellyShape): (r: nat)
    ensures r < 3
  {
    match b
    case Flat => 0
    case Round => 1
    case Curvy => 2
  }

  /** Position of a hip shape on its axis: slim, regular, full. */
  function HipRank(h: HipShape): (r: nat)
    ensures r < 3
  {
    match h
    case Slim => 0
    case Regular => 1
    case Full => 2
  }

  /** Position of a shoulder width on its axis: '1', '2', '3'. */
  function WidthRank(w: Width): (r: nat)
    ensures r < 3
  {
    match w
    case W1 => 0
    case W2 => 1
    case W3 => 2
  }

  /** The catalog's codes: the value of rank r on any axis is stored as CodeNames[r]. */
  const CodeNames: seq<string> := ["1", "2", "3"]

  /** A shoulder width read as the hip shape of the same rank. */
  function WidthAsHip(w: Width): (h: HipShape)
    ensures HipRank(h) == WidthRank(w)
  {
    match w
    case W1 => Slim
    case W2 => Regular
    case W3 => Full
  }

  function ViewName(v: View): string {
    match v
    case Front => "Front"
    case Back => "Back"
  }

  /**
   * The second shape a record offers for a gender: its shoulder width for
   * male searches (possibly absent), its hip shape for female ones.
   */
  function EntrySecondShape(e: AvatarData, g: Gender): Option<SecondShape> {
    match g
    case Male => if e.shoulderWidth.Some? then Some(Shoulder(e.shoulderWidth.value)) else None
    case Female => Some(Hip(e.hipShape))
  }

  /**
   * The exact-shape test shared by the matchers: same belly shape, and the
   * gender's second shape equal to the query's.
   */
  predicate ExactShapeMatch(e: AvatarData, belly: BellyShape, second: SecondShape, g: Gender) {
    e.bellyShape == belly && EntrySecondShape(e, g) == Some(second)
  }

  /** The statures of a catalog, in order (records.map(entry => entry.stature)). */
  function Statures(records: seq<AvatarData>): (hs: seq<real>)
    ensures |hs| == |records|
    ensures forall k :: 0 <= k < |records| ==> hs[k] == records[k].stature
    ensures forall h :: h in hs <==> exists k :: 0 <= k < |records| && records[k].stature == h
  {
    seq(|records|, k requires 0 <= k < |records| => records[k].stature)
  }

  /** The weights of a catalog, in order (records.map(entry => entry.weight)). */
  function Weights(records: seq<AvatarData>): (ws: seq<real>)
    ensures |ws| == |records|
    ensures forall k :: 0 <= k < |records| ==> ws[k] == records[k].weight
    ensures forall w :: w in ws <==> exists k :: 0 <= k < |records| && records[k].weight == w
  {
    seq(|records|, k requires 0 <= k < |records| => records[k].weight)
  }
}
