/**
 * The results the matchers build, shared by both matching modules: the
 * size-only answer to an incomplete query, the stand-in answer, and the
 * answer drawn from a chosen record.
 */
module MatchResults {
  import opened Wrappers
  import opened AvatarTypes
  import opened Sizing
  import opened ImageUtils

  /** calculateSize(height, weight) as the string the result carries. */
  function BmiSize(height: real, weight: real): string {
    SizeName(CalculateSize(height, weight))
  }

  /** `record.recommendedSize || calculateSize(height, weight)`: the record's size unless absent or empty. */
  function RecommendedSizeFor(e: AvatarData, height: real, weight: real): (size: string)
    ensures size != ""
    ensures e.recommendedSize.Some? && e.recommendedSize.value != "" ==> size == e.recommendedSize.value
    ensures e.recommendedSize.None? || e.recommendedSize.value == "" ==> size == BmiSize(height, weight)
  {
    if e.recommendedSize.Some? && e.recommendedSize.value != "" then e.recommendedSize.value
    else BmiSize(height, weight)
  }

  /** The answer to a query missing a shape: no image, the BMI size. */
  function NoShapeResult(height: real, weight: real): MatchResult {
    MatchResult(None, BmiSize(height, weight))
  }

  /** The answer when no record can be chosen: the stand-in table's number, the BMI size. */
  function FallbackResult(belly: BellyShape, second: SecondShape, g: Gender, height: real, weight: real): (r: MatchResult)
    ensures r.imageNumber.Some? && 101 <= r.imageNumber.value <= 109
  {
    MatchResult(Some(FallbackImageNumber(BellyName(belly), SecondName(second), g)), BmiSize(height, weight))
  }

  /** The answer drawn from a chosen record, given the image number read from its file name. */
  function RecordResult(imageNumber: nat, e: AvatarData, height: real, weight: real): MatchResult {
    MatchResult(Some(imageNumber), RecommendedSizeFor(e, height, weight))
  }
}
