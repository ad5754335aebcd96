/**
 * The older matcher of utils/avatarMatching.ts, which the avatar display
 * still calls: exact belly and second-shape filter, then the record with
 * the smallest summed height and weight gap. Its helpers that are textual
 * copies of the newer ones (calculateSize, getFallbackImageNumber,
 * mapShoulderWidthToHipShape) are the Sizing, ImageUtils and Mapping
 * members; the two that differ in their text get their own members here.
 */
module LegacyMatching {
  import opened Wrappers
  import opened AvatarTypes
  import opened RealArith
  import opened Decimal
  import opened UriEncoding
  import opened ImageUtils
  import opened Selection
  import opened MatchResults

  /**
   * extractImageNumber of this file: the regex alone, with no separate
   * test for the empty name.
   */
  function LegacyExtractImageNumber(fileName: string): (n: nat)
    ensures n == ExtractImageNumber(fileName)
  {
    var i := FirstDigitIndex(fileName);
    if i == |fileName| then DefaultImageNumber
    else DigitsValue(fileName[i..DigitRunEnd(fileName, i)])
  }

  /** The summed gap the legacy scan minimises. */
  function TotalGap(e: AvatarData, height: real, weight: real): real {
    Abs(e.stature - height) + Abs(e.weight - weight)
  }

  /**
   * The scan over the exact matches: the first record of smallest summed
   * gap (the loop starts from the first record and replaces it only on a
   * strictly smaller gap).
   */
  function ClosestBySummedGap(records: seq<AvatarData>, height: real, weight: real): (best: AvatarData)
    requires |records| > 0
    ensures exists i :: (0 <= i < |records| && best == records[i]
      && (forall j :: 0 <= j < |records| ==> TotalGap(best, height, weight) <= TotalGap(records[j], height, weight))
      && (forall j :: 0 <= j < i ==> TotalGap(best, height, weight) < TotalGap(records[j], height, weight)))
  {
    records[FirstMinIndex(records, (e: AvatarData) => TotalGap(e, height, weight))]
  }

  /** The records matching both shapes exactly, in catalog order. */
  function LegacyExactMatches(catalog: seq<AvatarData>, b: BellyShape, s: SecondShape, g: Gender): (exact: seq<AvatarData>)
    ensures forall e :: e in exact <==> e in catalog && ExactShapeMatch(e, b, s, g)
  {
    Filter(catalog, (e: AvatarData) => ExactShapeMatch(e, b, s, g))
  }

  /**
   * findClosestAvatarWithSize of this file, with the loader's outcome as a
   * parameter. The second shape is compared with the record's shoulder
   * width for men and its hip shape for women.
   */
  function LegacyFindClosestAvatarWithSize(height: real, weight: real, belly: Option<BellyShape>, second: Option<SecondShape>,
                                           g: Gender, load: Load): (r: MatchResult)
    ensures belly.None? || second.None? ==> r == NoShapeResult(height, weight)
    ensures belly.Some? && second.Some? ==> r.imageNumber.Some?
  {
    if belly.None? || second.None? then NoShapeResult(height, weight)
    else
      var b, s := belly.value, second.value;
      match load
      case LoadFailed => FallbackResult(b, s, g, height, weight)
      case Loaded(catalog) =>
        if |catalog| == 0 then FallbackResult(b, s, g, height, weight)
        else
          var exact := LegacyExactMatches(catalog, b, s, g);
          if |exact| == 0 then FallbackResult(b, s, g, height, weight)
          else
            var best := ClosestBySummedGap(exact, height, weight);
            RecordResult(LegacyExtractImageNumber(best.fileName), best, height, weight)
  }

  /**
   * findClosestAvatar of this file: the image number alone. There is a
   * number exactly when both shapes are given, and without a catalog it is
   * the stand-in table's.
   */
  function LegacyFindClosestAvatar(height: real, weight: real, belly: Option<BellyShape>, hip: Option<SecondShape>,
                                   g: Gender, load: Load): (n: Option<nat>)
    ensures n.Some? <==> belly.Some? && hip.Some?
    ensures belly.Some? && hip.Some? && (load.LoadFailed? || |load.records| == 0) ==>
      n == Some(FallbackImageNumber(BellyName(belly.value), SecondName(hip.value), g))
  {
    LegacyFindClosestAvatarWithSize(height, weight, belly, hip, g, load).imageNumber
  }

  /**
   * With both shapes the number is either the stand-in table's or the one
   * read from the file name of a catalog record matching both shapes.
   */
  lemma LegacyNumberFromCatalogOrStandIn(height: real, weight: real, b: BellyShape, s: SecondShape, g: Gender, catalog: seq<AvatarData>)
    ensures var n := LegacyFindClosestAvatar(height, weight, Some(b), Some(s), g, Loaded(catalog));
      || n == Some(FallbackImageNumber(BellyName(b), SecondName(s), g))
      || exists e :: e in catalog && ExactShapeMatch(e, b, s, g) && n == Some(ExtractImageNumber(e.fileName))
  {
    var n := LegacyFindClosestAvatar(height, weight, Some(b), Some(s), g, Loaded(catalog));
    var exact := LegacyExactMatches(catalog, b, s, g);
    if |catalog| > 0 && |exact| > 0 {
      var best := ClosestBySummedGap(exact, height, weight);
      assert n == Some(LegacyExtractImageNumber(best.fileName));
      assert best in exact;
    }
  }

  /** A failed load, an empty catalog or a catalog without an exact shape match gives the stand-in answer. */
  lemma LegacyFallsBack(height: real, weight: real, b: BellyShape, s: SecondShape, g: Gender, load: Load)
    requires load.Loaded? ==> forall k :: 0 <= k < |load.records| ==> !ExactShapeMatch(load.records[k], b, s, g)
    ensures LegacyFindClosestAvatarWithSize(height, weight, Some(b), Some(s), g, load) == FallbackResult(b, s, g, height, weight)
  {
    if load.Loaded? {
      FilterNone(load.records, (e: AvatarData) => ExactShapeMatch(e, b, s, g));
    }
  }

  /**
   * With an exact match present the answer comes from the exact match of
   * smallest summed gap, the first one in catalog order among equals.
   */
  lemma LegacyChoosesClosestExact(height: real, weight: real, b: BellyShape, s: SecondShape, g: Gender, catalog: seq<AvatarData>)
    requires exists k :: 0 <= k < |catalog| && ExactShapeMatch(catalog[k], b, s, g)
    ensures |LegacyExactMatches(catalog, b, s, g)| > 0
    ensures var best := ClosestBySummedGap(LegacyExactMatches(catalog, b, s, g), height, weight);
      && best in catalog && ExactShapeMatch(best, b, s, g)
      && LegacyFindClosestAvatarWithSize(height, weight, Some(b), Some(s), g, Loaded(catalog))
         == RecordResult(ExtractImageNumber(best.fileName), best, height, weight)
  {
    var k := FirstSatisfying(catalog, (e: AvatarData) => ExactShapeMatch(e, b, s, g));
    FilterHead(catalog, (e: AvatarData) => ExactShapeMatch(e, b, s, g), k);
    var exact := LegacyExactMatches(catalog, b, s, g);
    var best := ClosestBySummedGap(exact, height, weight);
    assert best in exact;
  }

  /**
   * The avatar display passes the hip-shape answer as the second shape for
   * men too; a man's record never has a hip key as its shoulder width, so
   * with both shapes given a male query always ends in the stand-in table,
   * whose male rows have no hip keys either: the answer is 105.
   */
  lemma MaleHipQueryAlwaysFallsBack(height: real, weight: real, b: BellyShape, h: HipShape, load: Load)
    ensures LegacyFindClosestAvatarWithSize(height, weight, Some(b), Some(Hip(h)), Male, load)
      == MatchResult(Some(DefaultImageNumber), BmiSize(height, weight))
  {
    LegacyFallsBack(height, weight, b, Hip(h), Male, load);
    FallbackOtherGenderKey(b, Hip(h), Male);
  }

  /**
   * getAvatarPath of this file. It reads the bucket address from a name the
   * data module does not export, so the address is a parameter here.
   */
  function LegacyAvatarPath(baseUrl: string, imageNumber: Option<nat>, size: string, g: Gender, view: View): (url: string)
    ensures imageNumber.None? ==> url == PlaceholderAvatar
    ensures baseUrl == StorageBaseUrl ==> url == AvatarPath(imageNumber, size, g, view)
    ensures imageNumber.Some? ==> |url| >= |baseUrl| && url[..|baseUrl|] == baseUrl
  {
    match imageNumber
    case None => PlaceholderAvatar
    case Some(n) => baseUrl + "/" + EncodeUriComponent(StoragePath(n, size, g, view)) + "?alt=media"
  }

  /** getAvatarViews of this file: the placeholder alone, or one legacy address per view. */
  function LegacyAvatarViews(baseUrl: string, imageNumber: Option<nat>, size: string, g: Gender): (urls: seq<string>)
    ensures imageNumber.None? ==> urls == [PlaceholderAvatar]
    ensures imageNumber.Some? ==> |urls| == |AvailableViews|
    ensures imageNumber.Some? ==>
      forall i :: 0 <= i < |urls| ==> urls[i] == LegacyAvatarPath(baseUrl, imageNumber, size, g, AvailableViews[i])
    ensures baseUrl == StorageBaseUrl ==> urls == AvatarViews(imageNumber, size, g)
  {
    match imageNumber
    case None => [PlaceholderAvatar]
    case Some(_) => seq(|AvailableViews|, i requires 0 <= i < |AvailableViews| => LegacyAvatarPath(baseUrl, imageNumber, size, g, AvailableViews[i]))
  }
}
