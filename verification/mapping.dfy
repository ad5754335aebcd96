/**
 * The translation between the questionnaire's vocabulary and the catalog's
 * numeric codes. Each map takes any string, as the source's switch
 * statements do, and sends what it does not recognise to the middle code.
 */
module Mapping {
  import opened AvatarTypes

  /** The catalog's three codes. */
  const Codes: set<string> := {"1", "2", "3"}

  /** mapShapeToNumber: flat/round/curvy to '1'/'2'/'3', anything else to '2'. */
  function MapShapeToNumber(shape: string): (code: string)
    ensures code in Codes
    ensures forall b :: shape == BellyName(b) ==> code == CodeNames[BellyRank(b)]
    ensures shape !in {"flat", "round", "curvy"} ==> code == "2"
  {
    if shape == "flat" then "1"
    else if shape == "round" then "2"
    else if shape == "curvy" then "3"
    else "2"
  }

  /** mapHipShapeToNumber: slim/regular/full to '1'/'2'/'3', anything else to '2'. */
  function MapHipShapeToNumber(shape: string): (code: string)
    ensures code in Codes
    ensures forall h :: shape == HipName(h) ==> code == CodeNames[HipRank(h)]
    ensures shape !in {"slim", "regular", "full"} ==> code == "2"
  {
    if shape == "slim" then "1"
    else if shape == "regular" then "2"
    else if shape == "full" then "3"
    else "2"
  }

  /**
   * mapShoulderWidthToNumber: the UI already emits the catalog's codes, so
   * each width is stored as the code of its rank and nothing else becomes a
   * code.
   */
  function MapShoulderWidthToNumber(width: string): (code: string)
    ensures forall w :: width == WidthName(w) ==> code == CodeNames[WidthRank(w)]
    ensures code in Codes <==> width in Codes
  {
    width
  }

  /** mapShoulderWidthToHipShape: '1'/'2'/'3' to slim/regular/full, anything else to regular. */
  function MapShoulderWidthToHipShape(width: string): (shape: string)
    ensures shape in {"slim", "regular", "full"}
    ensures forall w :: width == WidthName(w) ==> shape == HipName(WidthAsHip(w))
    ensures width !in Codes ==> shape == "regular"
  {
    if width == "1" then "slim"
    else if width == "2" then "regular"
    else if width == "3" then "full"
    else "regular"
  }

  /** Distinct belly shapes get distinct codes. */
  lemma ShapeCodesInjective(a: string, b: string)
    requires a in {"flat", "round", "curvy"} && b in {"flat", "round", "curvy"}
    requires a != b
    ensures MapShapeToNumber(a) != MapShapeToNumber(b)
  {
  }

  /** Distinct hip shapes get distinct codes. */
  lemma HipCodesInjective(a: string, b: string)
    requires a in {"slim", "regular", "full"} && b in {"slim", "regular", "full"}
    requires a != b
    ensures MapHipShapeToNumber(a) != MapHipShapeToNumber(b)
  {
  }

  /** Every code is the image of exactly one valid belly shape and one valid hip shape. */
  lemma CodesCovered(code: string)
    requires code in Codes
    ensures exists s :: s in {"flat", "round", "curvy"} && MapShapeToNumber(s) == code
    ensures exists s :: s in {"slim", "regular", "full"} && MapHipShapeToNumber(s) == code
  {
    if code == "1" {
      assert MapShapeToNumber("flat") == code && MapHipShapeToNumber("slim") == code;
    } else if code == "2" {
      assert MapShapeToNumber("round") == code && MapHipShapeToNumber("regular") == code;
    } else {
      assert MapShapeToNumber("curvy") == code && MapHipShapeToNumber("full") == code;
    }
  }

  /** Hip shape to code and back is the identity on the three hip shapes. */
  lemma HipShapeRoundTrip(shape: string)
    requires shape in {"slim", "regular", "full"}
    ensures MapShoulderWidthToHipShape(MapHipShapeToNumber(shape)) == shape
  {
  }

  /** Code to hip shape and back is the identity on the three codes. */
  lemma ShoulderCodeRoundTrip(width: string)
    requires width in Codes
    ensures MapHipShapeToNumber(MapShoulderWidthToHipShape(width)) == width
  {
  }

  /**
   * A shoulder width and the hip shape of the same rank are stored under the
   * same catalog code, which is what lets the male and female searches share
   * one table layout.
   */
  lemma ShoulderAndHipCodesAgree(w: Width)
    ensures MapShoulderWidthToNumber(WidthName(w)) == MapHipShapeToNumber(HipName(WidthAsHip(w)))
    ensures MapHipShapeToNumber(MapShoulderWidthToHipShape(MapShoulderWidthToNumber(WidthName(w)))) == WidthName(w)
  {
  }
}
