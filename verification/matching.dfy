/**
 * The matcher of utils/avatar/matching.ts: the weighted similarity score,
 * the exact-shape-then-similarity matcher ("Old"), the closest-stature and
 * closest-weight matcher, and the image-number-only wrapper.
 */
module Matching {
  import opened Wrappers
  import opened AvatarTypes
  import opened RealArith
  import opened Sizing
  import opened ImageUtils
  import opened Selection
  import opened MatchResults

  /* ---------- similarity score ---------- */

  /** Height part: 40 less a tenth of the height gap, never below 0. */
  function HeightScore(e: AvatarData, height: real): (s: real)
    ensures 0.0 <= s <= 40.0
    ensures s == 40.0 <==> e.stature == height
  {
    ClampAtZero(40.0 - Abs(e.stature - height) / 10.0)
  }

  /** Weight part: 30 less the weight gap, never below 0. */
  function WeightScore(e: AvatarData, weight: real): (s: real)
    ensures 0.0 <= s <= 30.0
    ensures s == 30.0 <==> e.weight == weight
  {
    ClampAtZero(30.0 - Abs(e.weight - weight))
  }

  /** The numbers the score gives belly shapes: flat 1, round 2, curvy 3. */
  function BellyCode(b: BellyShape): (c: int)
    ensures c == BellyRank(b) + 1
  {
    match b
    case Flat => 1
    case Round => 2
    case Curvy => 3
  }

  /**
   * The numbers the score gives second shapes: the gender's own keys count
   * 1, 2, 3 and anything else (an absent shoulder width, a key of the other
   * gender) falls back to 2.
   */
  function SecondCode(s: Option<SecondShape>, g: Gender): (c: int)
    ensures 1 <= c <= 3
    ensures s.None? || !SecondShapeOfGender(s.value, g) ==> c == 2
    ensures s.Some? && SecondShapeOfGender(s.value, g) ==> c == SecondColumn(s.value) + 1
  {
    match s
    case Some(Shoulder(w)) => if g == Male then (match w case W1 => 1 case W2 => 2 case W3 => 3) else 2
    case Some(Hip(h)) => if g == Female then (match h case Slim => 1 case Regular => 2 case Full => 3) else 2
    case None => 2
  }

  /** Belly part: 20 on a match, otherwise 20 less 8 per step between the codes. */
  function BellyScore(e: AvatarData, belly: BellyShape): (s: real)
    ensures 0.0 <= s <= 20.0
    ensures s == 20.0 <==> e.bellyShape == belly
  {
    if e.bellyShape == belly then 20.0
    else ClampAtZero(20.0 - (Abs((BellyCode(e.bellyShape) - BellyCode(belly)) as real) * 8.0))
  }

  /** Second-shape part: 10 on a match, otherwise 10 less 4 per step between the codes. */
  function SecondScore(e: AvatarData, second: SecondShape, g: Gender): (s: real)
    ensures 0.0 <= s <= 10.0
    ensures s == 10.0 <==> SecondCode(EntrySecondShape(e, g), g) == SecondCode(Some(second), g)
  {
    var entry := EntrySecondShape(e, g);
    if entry == Some(second) then 10.0
    else ClampAtZero(10.0 - (Abs((SecondCode(entry, g) - SecondCode(Some(second), g)) as real) * 4.0))
  }

  /**
   * calculateSimilarityScore. The total lies in [0, 100] and is 100 exactly
   * when height, weight and belly shape agree and the second shapes have the
   * same code; the codes also agree when a record lacks a shoulder width or
   * the query uses the other gender's key and the other side is the middle
   * value, so a score of 100 does not imply an exact second-shape match.
   */
  function SimilarityScore(e: AvatarData, height: real, weight: real, belly: BellyShape, second: SecondShape, g: Gender): (score: real)
    ensures 0.0 <= score <= 100.0
    ensures score == 100.0 <==>
      && e.stature == height
      && e.weight == weight
      && e.bellyShape == belly
      && SecondCode(EntrySecondShape(e, g), g) == SecondCode(Some(second), g)
  {
    HeightScore(e, height) + WeightScore(e, weight) + BellyScore(e, belly) + SecondScore(e, second, g)
  }

  /** An exact match of all four attributes scores 100. */
  lemma PerfectMatchScoresFull(e: AvatarData, height: real, weight: real, belly: BellyShape, second: SecondShape, g: Gender)
    requires e.stature == height && e.weight == weight && ExactShapeMatch(e, belly, second, g)
    ensures SimilarityScore(e, height, weight, belly, second, g) == 100.0
  {
  }

  /** A male record without a shoulder width still scores 100 against the middle width. */
  lemma MissingShoulderWidthScoresFull()
    ensures var e := AvatarData("adidas_7", 170.0, 70.0, 0.0, 0.0, 0.0, 0.0, 0.0, Flat, Slim, None, None);
      && !ExactShapeMatch(e, Flat, Shoulder(W2), Male)
      && SimilarityScore(e, 170.0, 70.0, Flat, Shoulder(W2), Male) == 100.0
  {
  }

  /* ---------- findClosestAvatarWithSizeOld ---------- */

  /** The key the exact-match scan minimises lexicographically: (height gap, weight gap). */
  function GapPair(e: AvatarData, height: real, weight: real): (real, real) {
    (Abs(e.stature - height), Abs(e.weight - weight))
  }

  /** The records matching both shapes exactly, in catalog order. */
  function ExactMatches(catalog: seq<AvatarData>, belly: BellyShape, second: SecondShape, g: Gender): seq<AvatarData> {
    Filter(catalog, e => ExactShapeMatch(e, belly, second, g))
  }

  /**
   * The record the old matcher settles on in a non-empty catalog: the first
   * exact match with the lexicographically smallest gaps when there are
   * exact matches, otherwise the first record of highest score.
   */
  function OldWinner(catalog: seq<AvatarData>, height: real, weight: real, belly: BellyShape, second: SecondShape, g: Gender): AvatarData
    requires |catalog| > 0
  {
    var exact := ExactMatches(catalog, belly, second, g);
    if |exact| > 0 then exact[FirstLexMinIndex(exact, e => GapPair(e, height, weight))]
    else catalog[FirstMaxIndex(catalog, e => SimilarityScore(e, height, weight, belly, second, g))]
  }

  /** findClosestAvatarWithSizeOld, with the loader's outcome as a parameter. */
  function FindClosestAvatarWithSizeOld(height: real, weight: real, belly: Option<BellyShape>, second: Option<SecondShape>,
                                        g: Gender, load: Load): (r: MatchResult)
    ensures belly.None? || second.None? ==> r == NoShapeResult(height, weight)
    ensures belly.Some? && second.Some? ==> r.imageNumber.Some?
  {
    if belly.None? || second.None? then NoShapeResult(height, weight)
    else
      var b, s := belly.value, second.value;
      match load
      case LoadFailed => FallbackResult(b, s, g, height, weight)
      case Loaded(catalog) =>
        if |catalog| == 0 then FallbackResult(b, s, g, height, weight)
        else
          var best := OldWinner(catalog, height, weight, b, s, g);
          RecordResult(ExtractImageNumber(best.fileName), best, height, weight)
  }

  /**
   * With exact matches present the old matcher answers from the first exact
   * match (in catalog order) whose (height gap, weight gap) is
   * lexicographically smallest.
   */
  lemma OldPrefersExactMatches(height: real, weight: real, b: BellyShape, s: SecondShape, g: Gender, catalog: seq<AvatarData>)
    requires |ExactMatches(catalog, b, s, g)| > 0
    ensures var exact := ExactMatches(catalog, b, s, g);
      exists i :: 0 <= i < |exact|
        && (forall j :: 0 <= j < |exact| ==> !LexLess(GapPair(exact[j], height, weight), GapPair(exact[i], height, weight)))
        && (forall j :: 0 <= j < i ==> LexLess(GapPair(exact[i], height, weight), GapPair(exact[j], height, weight)))
        && ExactShapeMatch(exact[i], b, s, g) && exact[i] in catalog
        && FindClosestAvatarWithSizeOld(height, weight, Some(b), Some(s), g, Loaded(catalog))
           == RecordResult(ExtractImageNumber(exact[i].fileName), exact[i], height, weight)
  {
    var exact := ExactMatches(catalog, b, s, g);
    var i := FirstLexMinIndex(exact, e => GapPair(e, height, weight));
    assert exact[i] in exact;
  }

  /**
   * Without exact matches the old matcher answers from the first record of
   * the whole catalog with the highest similarity score.
   */
  lemma OldFallsBackToSimilarity(height: real, weight: real, b: BellyShape, s: SecondShape, g: Gender, catalog: seq<AvatarData>)
    requires |catalog| > 0
    requires forall k :: 0 <= k < |catalog| ==> !ExactShapeMatch(catalog[k], b, s, g)
    ensures exists i :: (0 <= i < |catalog|
      && (forall j :: 0 <= j < |catalog| ==> SimilarityScore(catalog[j], height, weight, b, s, g) <= SimilarityScore(catalog[i], height, weight, b, s, g))
      && (forall j :: 0 <= j < i ==> SimilarityScore(catalog[j], height, weight, b, s, g) < SimilarityScore(catalog[i], height, weight, b, s, g))
      && FindClosestAvatarWithSizeOld(height, weight, Some(b), Some(s), g, Loaded(catalog))
         == RecordResult(ExtractImageNumber(catalog[i].fileName), catalog[i], height, weight))
  {
    OldWinnerWithoutExact(height, weight, b, s, g, catalog);
    var key := (e: AvatarData) => SimilarityScore(e, height, weight, b, s, g);
    var i := FirstMaxIndex(catalog, key);
    forall j | 0 <= j < |catalog|
      ensures SimilarityScore(catalog[j], height, weight, b, s, g) <= SimilarityScore(catalog[i], height, weight, b, s, g)
    {
      assert key(catalog[j]) <= key(catalog[i]);
    }
    forall j | 0 <= j < i
      ensures SimilarityScore(catalog[j], height, weight, b, s, g) < SimilarityScore(catalog[i], height, weight, b, s, g)
    {
      assert key(catalog[j]) < key(catalog[i]);
    }
    assert OldWinner(catalog, height, weight, b, s, g) == catalog[i];
    assert FindClosestAvatarWithSizeOld(height, weight, Some(b), Some(s), g, Loaded(catalog))
      == RecordResult(ExtractImageNumber(catalog[i].fileName), catalog[i], height, weight);
  }

  /** With no exact match in the catalog the winner is the similarity scan's pick. */
  lemma OldWinnerWithoutExact(height: real, weight: real, b: BellyShape, s: SecondShape, g: Gender, catalog: seq<AvatarData>)
    requires |catalog| > 0
    requires forall k :: 0 <= k < |catalog| ==> !ExactShapeMatch(catalog[k], b, s, g)
    ensures OldWinner(catalog, height, weight, b, s, g)
      == catalog[FirstMaxIndex(catalog, e => SimilarityScore(e, height, weight, b, s, g))]
  {
    FilterNone(catalog, e => ExactShapeMatch(e, b, s, g));
  }

  /** A failed load or an empty catalog gives the stand-in answer. */
  lemma OldWithoutCatalog(height: real, weight: real, b: BellyShape, s: SecondShape, g: Gender, load: Load)
    requires load.LoadFailed? || |load.records| == 0
    ensures FindClosestAvatarWithSizeOld(height, weight, Some(b), Some(s), g, load) == FallbackResult(b, s, g, height, weight)
  {
  }

  /* ---------- findClosestAvatarWithSize ---------- */

  /**
   * The reduce over the statures: the stature of the first record whose
   * stature is nearest the query height.
   */
  function ClosestStature(catalog: seq<AvatarData>, height: real): (st: real)
    requires |catalog| > 0
    ensures exists i :: (0 <= i < |catalog| && st == catalog[i].stature
      && (forall j :: 0 <= j < |catalog| ==> Abs(st - height) <= Abs(catalog[j].stature - height))
      && (forall j :: 0 <= j < i ==> Abs(st - height) < Abs(catalog[j].stature - height)))
  {
    var hs := Statures(catalog);
    var i := FirstMinIndex(hs, x => Abs(x - height));
    hs[i]
  }

  /**
   * The reduce over the records: the weight of the first record of the
   * whole catalog whose weight is nearest the query weight, whatever its
   * stature.
   */
  function ClosestWeight(catalog: seq<AvatarData>, weight: real): (wt: real)
    requires |catalog| > 0
    ensures exists i :: (0 <= i < |catalog| && wt == catalog[i].weight
      && (forall j :: 0 <= j < |catalog| ==> Abs(wt - weight) <= Abs(catalog[j].weight - weight))
      && (forall j :: 0 <= j < i ==> Abs(wt - weight) < Abs(catalog[j].weight - weight)))
  {
    catalog[FirstMinIndex(catalog, (e: AvatarData) => Abs(e.weight - weight))].weight
  }

  /** The records at the closest stature and the closest weight with the query's belly shape, in catalog order. */
  function BellyCandidates(catalog: seq<AvatarData>, height: real, weight: real, belly: BellyShape): seq<AvatarData>
    requires |catalog| > 0
  {
    var cs := ClosestStature(catalog, height);
    var cw := ClosestWeight(catalog, weight);
    var atStature := Filter(catalog, (e: AvatarData) => e.stature == cs);
    var atWeight := Filter(atStature, (e: AvatarData) => e.weight == cw);
    Filter(atWeight, (e: AvatarData) => e.bellyShape == belly)
  }

  /** The shoulder-width preference of the male sort: key 0 for a record whose width equals the query's. */
  predicate ShoulderPreferred(e: AvatarData, second: SecondShape) {
    EntrySecondShape(e, Male) == Some(second)
  }

  /**
   * The final candidate list: for men the stable sort that moves records
   * with the query's shoulder width to the front, for women the filter on
   * the query's hip shape.
   */
  function Candidates(catalog: seq<AvatarData>, height: real, weight: real, belly: BellyShape, second: SecondShape, g: Gender): seq<AvatarData>
    requires |catalog| > 0
  {
    var c := BellyCandidates(catalog, height, weight, belly);
    if g == Male then StablePartition(c, e => ShoulderPreferred(e, second))
    else Filter(c, e => EntrySecondShape(e, Female) == Some(second))
  }

  /**
   * findClosestAvatarWithSize, with the loader's outcome as a parameter. An
   * empty candidate list makes `closestMatches[0].fileName` throw; the catch
   * answers with the stand-in table, modelled here as that branch.
   */
  function FindClosestAvatarWithSize(height: real, weight: real, belly: Option<BellyShape>, second: Option<SecondShape>,
                                     g: Gender, load: Load): (r: MatchResult)
    ensures belly.None? || second.None? ==> r == NoShapeResult(height, weight)
    ensures belly.Some? && second.Some? ==> r.imageNumber.Some?
  {
    if belly.None? || second.None? then NoShapeResult(height, weight)
    else
      var b, s := belly.value, second.value;
      match load
      case LoadFailed => FallbackResult(b, s, g, height, weight)
      case Loaded(catalog) =>
        if |catalog| == 0 then FallbackResult(b, s, g, height, weight)
        else
          var c := Candidates(catalog, height, weight, b, s, g);
          if |c| == 0 then FallbackResult(b, s, g, height, weight)
          else RecordResult(ExtractImageNumber(c[0].fileName), c[0], height, weight)
  }

  /**
   * findClosestAvatar: the image number of findClosestAvatarWithSize. There
   * is a number exactly when both shapes are given, and without a catalog
   * it is the stand-in table's.
   */
  function FindClosestAvatar(height: real, weight: real, belly: Option<BellyShape>, hip: Option<SecondShape>,
                             g: Gender, load: Load): (n: Option<nat>)
    ensures n.Some? <==> belly.Some? && hip.Some?
    ensures belly.Some? && hip.Some? && (load.LoadFailed? || |load.records| == 0) ==>
      n == Some(FallbackImageNumber(BellyName(belly.value), SecondName(hip.value), g))
  {
    FindClosestAvatarWithSize(height, weight, belly, hip, g, load).imageNumber
  }

  /**
   * With both shapes the number is either the stand-in table's or the one
   * read from the file name of a catalog record.
   */
  lemma NumberFromCatalogOrStandIn(height: real, weight: real, b: BellyShape, s: SecondShape, g: Gender, catalog: seq<AvatarData>)
    ensures var n := FindClosestAvatar(height, weight, Some(b), Some(s), g, Loaded(catalog));
      || n == Some(FallbackImageNumber(BellyName(b), SecondName(s), g))
      || exists e :: e in catalog && n == Some(ExtractImageNumber(e.fileName))
  {
    var n := FindClosestAvatar(height, weight, Some(b), Some(s), g, Loaded(catalog));
    if |catalog| == 0 {
      WithoutCatalog(height, weight, b, s, g, Loaded(catalog));
    } else {
      var c := Candidates(catalog, height, weight, b, s, g);
      if |c| == 0 {
        EmptyCandidatesFallBack(height, weight, b, s, g, catalog);
      } else {
        AnswerFromFirstCandidate(height, weight, b, s, g, catalog);
        CandidatesFitFilters(height, weight, b, s, g, catalog, c[0]);
        assert n == Some(ExtractImageNumber(c[0].fileName));
      }
    }
  }

  /** A failed load or an empty catalog gives the stand-in answer. */
  lemma WithoutCatalog(height: real, weight: real, b: BellyShape, s: SecondShape, g: Gender, load: Load)
    requires load.LoadFailed? || |load.records| == 0
    ensures FindClosestAvatarWithSize(height, weight, Some(b), Some(s), g, load) == FallbackResult(b, s, g, height, weight)
  {
  }

  /** An empty candidate list (the TypeError caught by the catch) gives the stand-in answer. */
  lemma EmptyCandidatesFallBack(height: real, weight: real, b: BellyShape, s: SecondShape, g: Gender, catalog: seq<AvatarData>)
    requires |catalog| > 0
    requires |Candidates(catalog, height, weight, b, s, g)| == 0
    ensures FindClosestAvatarWithSize(height, weight, Some(b), Some(s), g, Loaded(catalog)) == FallbackResult(b, s, g, height, weight)
  {
  }

  /**
   * Every candidate lies in the catalog, has the closest stature, the
   * closest weight (over the whole catalog) and the query's belly shape,
   * and for women also the query's hip shape.
   */
  lemma CandidatesFitFilters(height: real, weight: real, b: BellyShape, s: SecondShape, g: Gender, catalog: seq<AvatarData>, e: AvatarData)
    requires |catalog| > 0
    requires e in Candidates(catalog, height, weight, b, s, g)
    ensures e in catalog
    ensures e.stature == ClosestStature(catalog, height)
    ensures e.weight == ClosestWeight(catalog, weight)
    ensures e.bellyShape == b
    ensures g == Female ==> EntrySecondShape(e, Female) == Some(s)
  {
    var c := BellyCandidates(catalog, height, weight, b);
    assert e in c;
  }

  /**
   * The filters of the newer matcher on one record: the closest stature,
   * the closest weight, the query's belly shape and, for women, the query's
   * hip shape.
   */
  predicate FitsFilters(e: AvatarData, cs: real, cw: real, b: BellyShape, s: SecondShape, g: Gender) {
    AtClosest(e, cs, cw, b) && (g == Female ==> EntrySecondShape(e, Female) == Some(s))
  }

  /** The filters both genders share: the closest stature, the closest weight, the query's belly shape. */
  predicate AtClosest(e: AvatarData, cs: real, cw: real, b: BellyShape) {
    e.stature == cs && e.weight == cw && e.bellyShape == b
  }

  /**
   * Conversely a catalog record that passes every filter is a candidate, so
   * the matcher answers from the head of a non-empty candidate list and not
   * from the stand-in table.
   */
  lemma FitRecordIsCandidate(height: real, weight: real, b: BellyShape, s: SecondShape, g: Gender, catalog: seq<AvatarData>, e: AvatarData)
    requires e in catalog
    requires FitsFilters(e, ClosestStature(catalog, height), ClosestWeight(catalog, weight), b, s, g)
    ensures e in Candidates(catalog, height, weight, b, s, g)
    ensures var head := Candidates(catalog, height, weight, b, s, g)[0];
      FindClosestAvatarWithSize(height, weight, Some(b), Some(s), g, Loaded(catalog))
        == RecordResult(ExtractImageNumber(head.fileName), head, height, weight)
  {
    var c := BellyCandidates(catalog, height, weight, b);
    assert e in c;
    AnswerFromFirstCandidate(height, weight, b, s, g, catalog);
  }

  /** The three filters in a row are one filter of the catalog on all three conditions. */
  lemma BellyCandidatesAsOneFilter(catalog: seq<AvatarData>, height: real, weight: real, b: BellyShape)
    requires |catalog| > 0
    ensures var cs, cw := ClosestStature(catalog, height), ClosestWeight(catalog, weight);
      BellyCandidates(catalog, height, weight, b) == Filter(catalog, (e: AvatarData) => AtClosest(e, cs, cw, b))
  {
    var cs, cw := ClosestStature(catalog, height), ClosestWeight(catalog, weight);
    var p1 := (e: AvatarData) => e.stature == cs;
    var p2 := (e: AvatarData) => e.weight == cw;
    var p3 := (e: AvatarData) => e.bellyShape == b;
    var p12 := (e: AvatarData) => e.stature == cs && e.weight == cw;
    var base := (e: AvatarData) => AtClosest(e, cs, cw, b);
    FilterFilter(catalog, p1, p2, p12);
    FilterFilter(catalog, p12, p3, base);
  }

  /**
   * For women the candidates are the catalog records passing every filter,
   * in catalog order, so the answer comes from the first such record of the
   * catalog.
   */
  lemma FemaleAnswerIsFirstFit(height: real, weight: real, b: BellyShape, s: SecondShape, catalog: seq<AvatarData>)
    requires |catalog| > 0
    requires exists k :: 0 <= k < |catalog| && FitsFilters(catalog[k], ClosestStature(catalog, height), ClosestWeight(catalog, weight), b, s, Female)
    ensures var cs, cw := ClosestStature(catalog, height), ClosestWeight(catalog, weight);
      exists i :: (0 <= i < |catalog| && FitsFilters(catalog[i], cs, cw, b, s, Female)
        && (forall k :: 0 <= k < i ==> !FitsFilters(catalog[k], cs, cw, b, s, Female))
        && FindClosestAvatarWithSize(height, weight, Some(b), Some(s), Female, Loaded(catalog))
           == RecordResult(ExtractImageNumber(catalog[i].fileName), catalog[i], height, weight))
  {
    var cs, cw := ClosestStature(catalog, height), ClosestWeight(catalog, weight);
    var hip := (e: AvatarData) => EntrySecondShape(e, Female) == Some(s);
    BellyCandidatesAsOneFilter(catalog, height, weight, b);
    var c := Candidates(catalog, height, weight, b, s, Female);
    assert c == Filter(Filter(catalog, (e: AvatarData) => AtClosest(e, cs, cw, b)), hip);
    FirstFitLeads(catalog, cs, cw, b, s);
    var i :| (0 <= i < |catalog| && FitsFilters(catalog[i], cs, cw, b, s, Female)
      && (forall k :: 0 <= k < i ==> !FitsFilters(catalog[k], cs, cw, b, s, Female))
      && |c| > 0 && c[0] == catalog[i]);
    AnswerFromFirstCandidate(height, weight, b, s, Female, catalog);
  }

  /** The records at a given point with the query's hip shape start with the first catalog record that fits. */
  lemma FirstFitLeads(catalog: seq<AvatarData>, cs: real, cw: real, b: BellyShape, s: SecondShape)
    requires exists k :: 0 <= k < |catalog| && FitsFilters(catalog[k], cs, cw, b, s, Female)
    ensures exists i :: (0 <= i < |catalog| && FitsFilters(catalog[i], cs, cw, b, s, Female)
      && (forall k :: 0 <= k < i ==> !FitsFilters(catalog[k], cs, cw, b, s, Female))
      && |Filter(Filter(catalog, (e: AvatarData) => AtClosest(e, cs, cw, b)), (e: AvatarData) => EntrySecondShape(e, Female) == Some(s))| > 0
      && Filter(Filter(catalog, (e: AvatarData) => AtClosest(e, cs, cw, b)), (e: AvatarData) => EntrySecondShape(e, Female) == Some(s))[0] == catalog[i])
  {
    var hip := (e: AvatarData) => EntrySecondShape(e, Female) == Some(s);
    var k :| 0 <= k < |catalog| && FitsFilters(catalog[k], cs, cw, b, s, Female);
    assert AtClosest(catalog[k], cs, cw, b) && hip(catalog[k]);
    NarrowedFirstLeads(catalog, cs, cw, b, hip);
    var i :| (0 <= i < |catalog| && AtClosest(catalog[i], cs, cw, b) && hip(catalog[i])
      && (forall k :: 0 <= k < i ==> !(AtClosest(catalog[k], cs, cw, b) && hip(catalog[k])))
      && |Filter(Filter(catalog, (e: AvatarData) => AtClosest(e, cs, cw, b)), hip)| > 0
      && Filter(Filter(catalog, (e: AvatarData) => AtClosest(e, cs, cw, b)), hip)[0] == catalog[i]);
    forall j | 0 <= j < i
      ensures !FitsFilters(catalog[j], cs, cw, b, s, Female)
    {
      assert !(AtClosest(catalog[j], cs, cw, b) && hip(catalog[j]));
    }
    assert FitsFilters(catalog[i], cs, cw, b, s, Female);
  }

  /**
   * For men, when some catalog record passes the shared filters and has the
   * query's shoulder width, the answer comes from the first such record of
   * the catalog.
   */
  lemma MaleAnswerWithWidth(height: real, weight: real, b: BellyShape, s: SecondShape, catalog: seq<AvatarData>)
    requires |catalog| > 0
    requires exists k :: (0 <= k < |catalog| && ShoulderPreferred(catalog[k], s)
      && AtClosest(catalog[k], ClosestStature(catalog, height), ClosestWeight(catalog, weight), b))
    ensures var cs, cw := ClosestStature(catalog, height), ClosestWeight(catalog, weight);
      exists i :: (0 <= i < |catalog| && AtClosest(catalog[i], cs, cw, b) && ShoulderPreferred(catalog[i], s)
        && (forall k :: 0 <= k < i ==> !(AtClosest(catalog[k], cs, cw, b) && ShoulderPreferred(catalog[k], s)))
        && FindClosestAvatarWithSize(height, weight, Some(b), Some(s), Male, Loaded(catalog))
           == RecordResult(ExtractImageNumber(catalog[i].fileName), catalog[i], height, weight))
  {
    var cs, cw := ClosestStature(catalog, height), ClosestWeight(catalog, weight);
    BellyCandidatesAsOneFilter(catalog, height, weight, b);
    NarrowedFirstLeads(catalog, cs, cw, b, (e: AvatarData) => ShoulderPreferred(e, s));
    PreferredHeadLeads(height, weight, b, s, catalog);
  }

  /**
   * Narrowing the records at a given point by a further test keeps catalog
   * order, so the result starts with the first catalog record passing both.
   */
  lemma NarrowedFirstLeads(catalog: seq<AvatarData>, cs: real, cw: real, b: BellyShape, q: AvatarData -> bool)
    requires exists k :: 0 <= k < |catalog| && AtClosest(catalog[k], cs, cw, b) && q(catalog[k])
    ensures exists i :: (0 <= i < |catalog| && AtClosest(catalog[i], cs, cw, b) && q(catalog[i])
      && (forall k :: 0 <= k < i ==> !(AtClosest(catalog[k], cs, cw, b) && q(catalog[k])))
      && |Filter(Filter(catalog, (e: AvatarData) => AtClosest(e, cs, cw, b)), q)| > 0
      && Filter(Filter(catalog, (e: AvatarData) => AtClosest(e, cs, cw, b)), q)[0] == catalog[i])
  {
    var base := (e: AvatarData) => AtClosest(e, cs, cw, b);
    var both := (e: AvatarData) => AtClosest(e, cs, cw, b) && q(e);
    var k :| 0 <= k < |catalog| && AtClosest(catalog[k], cs, cw, b) && q(catalog[k]);
    assert both(catalog[k]);
    FilterFilter(catalog, base, q, both);
    FilterFirst(catalog, both);
    var i := FirstSatisfying(catalog, both);
    var narrowed := Filter(Filter(catalog, base), q);
    assert narrowed == Filter(catalog, both);
    assert |narrowed| > 0 && narrowed[0] == catalog[i];
    forall j | 0 <= j < i
      ensures !(AtClosest(catalog[j], cs, cw, b) && q(catalog[j]))
    {
      assert !both(catalog[j]);
    }
    assert both(catalog[i]);
  }

  /** When a belly candidate has the query's width, the male answer is the first of them. */
  lemma PreferredHeadLeads(height: real, weight: real, b: BellyShape, s: SecondShape, catalog: seq<AvatarData>)
    requires |catalog| > 0
    requires |Filter(BellyCandidates(catalog, height, weight, b), (e: AvatarData) => ShoulderPreferred(e, s))| > 0
    ensures var head := Filter(BellyCandidates(catalog, height, weight, b), (e: AvatarData) => ShoulderPreferred(e, s))[0];
      FindClosestAvatarWithSize(height, weight, Some(b), Some(s), Male, Loaded(catalog))
        == RecordResult(ExtractImageNumber(head.fileName), head, height, weight)
  {
    var c := BellyCandidates(catalog, height, weight, b);
    var preferred := (e: AvatarData) => ShoulderPreferred(e, s);
    assert Candidates(catalog, height, weight, b, s, Male) == StablePartition(c, preferred);
    StablePartitionFront(c, preferred);
    AnswerFromFirstCandidate(height, weight, b, s, Male, catalog);
  }

  /** When no belly candidate has the query's width, the male answer is the first belly candidate. */
  lemma UnpreferredHeadLeads(height: real, weight: real, b: BellyShape, s: SecondShape, catalog: seq<AvatarData>)
    requires |catalog| > 0
    requires |BellyCandidates(catalog, height, weight, b)| > 0
    requires forall j :: 0 <= j < |BellyCandidates(catalog, height, weight, b)| ==> !ShoulderPreferred(BellyCandidates(catalog, height, weight, b)[j], s)
    ensures var head := BellyCandidates(catalog, height, weight, b)[0];
      FindClosestAvatarWithSize(height, weight, Some(b), Some(s), Male, Loaded(catalog))
        == RecordResult(ExtractImageNumber(head.fileName), head, height, weight)
  {
    MaleShoulderPreference(height, weight, b, s, catalog);
    AnswerFromFirstCandidate(height, weight, b, s, Male, catalog);
  }

  /**
   * For men, when no record passing the shared filters has the query's
   * width, the answer comes from the first catalog record passing them.
   */
  lemma MaleAnswerWithoutWidth(height: real, weight: real, b: BellyShape, s: SecondShape, catalog: seq<AvatarData>)
    requires |catalog| > 0
    requires exists k :: 0 <= k < |catalog| && AtClosest(catalog[k], ClosestStature(catalog, height), ClosestWeight(catalog, weight), b)
    requires forall e :: (e in catalog && AtClosest(e, ClosestStature(catalog, height), ClosestWeight(catalog, weight), b)
      ==> !ShoulderPreferred(e, s))
    ensures var cs, cw := ClosestStature(catalog, height), ClosestWeight(catalog, weight);
      exists i :: (0 <= i < |catalog| && AtClosest(catalog[i], cs, cw, b)
        && (forall k :: 0 <= k < i ==> !AtClosest(catalog[k], cs, cw, b))
        && FindClosestAvatarWithSize(height, weight, Some(b), Some(s), Male, Loaded(catalog))
           == RecordResult(ExtractImageNumber(catalog[i].fileName), catalog[i], height, weight))
  {
    var cs, cw := ClosestStature(catalog, height), ClosestWeight(catalog, weight);
    BellyCandidatesAsOneFilter(catalog, height, weight, b);
    FirstAtClosestLeads(catalog, cs, cw, b);
    NoCandidatePreferred(height, weight, b, s, catalog);
    UnpreferredHeadLeads(height, weight, b, s, catalog);
  }

  /** The records at a given point, in catalog order, start with the first such record of the catalog. */
  lemma FirstAtClosestLeads(catalog: seq<AvatarData>, cs: real, cw: real, b: BellyShape)
    requires exists k :: 0 <= k < |catalog| && AtClosest(catalog[k], cs, cw, b)
    ensures exists i :: (0 <= i < |catalog| && AtClosest(catalog[i], cs, cw, b)
      && (forall k :: 0 <= k < i ==> !AtClosest(catalog[k], cs, cw, b))
      && |Filter(catalog, (e: AvatarData) => AtClosest(e, cs, cw, b))| > 0
      && Filter(catalog, (e: AvatarData) => AtClosest(e, cs, cw, b))[0] == catalog[i])
  {
    var base := (e: AvatarData) => AtClosest(e, cs, cw, b);
    var k :| 0 <= k < |catalog| && AtClosest(catalog[k], cs, cw, b);
    assert base(catalog[k]);
    FilterFirst(catalog, base);
    var i := FirstSatisfying(catalog, base);
    forall j | 0 <= j < i
      ensures !AtClosest(catalog[j], cs, cw, b)
    {
      assert !base(catalog[j]);
    }
    assert base(catalog[i]);
  }

  /** When no record at the closest point has the query's width, neither has any belly candidate. */
  lemma NoCandidatePreferred(height: real, weight: real, b: BellyShape, s: SecondShape, catalog: seq<AvatarData>)
    requires |catalog| > 0
    requires forall e :: (e in catalog && AtClosest(e, ClosestStature(catalog, height), ClosestWeight(catalog, weight), b)
      ==> !ShoulderPreferred(e, s))
    ensures forall j :: 0 <= j < |BellyCandidates(catalog, height, weight, b)| ==> !ShoulderPreferred(BellyCandidates(catalog, height, weight, b)[j], s)
  {
    var cs, cw := ClosestStature(catalog, height), ClosestWeight(catalog, weight);
    var base := (e: AvatarData) => AtClosest(e, cs, cw, b);
    BellyCandidatesAsOneFilter(catalog, height, weight, b);
    var c := Filter(catalog, base);
    forall j | 0 <= j < |c|
      ensures !ShoulderPreferred(c[j], s)
    {
      assert c[j] in c;
      assert base(c[j]);
    }
  }

  /** A non-empty candidate list makes the matcher answer from its head. */
  lemma AnswerFromFirstCandidate(height: real, weight: real, b: BellyShape, s: SecondShape, g: Gender, catalog: seq<AvatarData>)
    requires |catalog| > 0
    requires |Candidates(catalog, height, weight, b, s, g)| > 0
    ensures var e := Candidates(catalog, height, weight, b, s, g)[0];
      FindClosestAvatarWithSize(height, weight, Some(b), Some(s), g, Loaded(catalog))
        == RecordResult(ExtractImageNumber(e.fileName), e, height, weight)
  {
  }

  /**
   * For men the shoulder width is a preference: the candidates are the
   * belly candidates, those with the query's width first, so the head is
   * the first belly candidate with that width when there is one and the
   * first belly candidate otherwise.
   */
  lemma MaleShoulderPreference(height: real, weight: real, b: BellyShape, s: SecondShape, catalog: seq<AvatarData>)
    requires |catalog| > 0
    requires |BellyCandidates(catalog, height, weight, b)| > 0
    ensures var c := BellyCandidates(catalog, height, weight, b);
      var head := Candidates(catalog, height, weight, b, s, Male)[0];
      && ((exists k :: 0 <= k < |c| && ShoulderPreferred(c[k], s)) ==>
            exists i :: (0 <= i < |c| && ShoulderPreferred(c[i], s)
              && (forall k :: 0 <= k < i ==> !ShoulderPreferred(c[k], s))
              && head == c[i]))
      && ((forall k :: 0 <= k < |c| ==> !ShoulderPreferred(c[k], s)) ==> head == c[0])
  {
    var c := BellyCandidates(catalog, height, weight, b);
    var preferred := (e: AvatarData) => ShoulderPreferred(e, s);
    var head := Candidates(catalog, height, weight, b, s, Male)[0];
    assert head == StablePartition(c, preferred)[0];
    StablePartitionHead(c, preferred);
    if exists k :: 0 <= k < |c| && ShoulderPreferred(c[k], s) {
      var k :| 0 <= k < |c| && ShoulderPreferred(c[k], s);
      assert preferred(c[k]);
      var i :| 0 <= i < |c| && preferred(c[i]) && (forall k :: 0 <= k < i ==> !preferred(c[k])) && head == c[i];
      assert ShoulderPreferred(c[i], s);
      forall k | 0 <= k < i
        ensures !ShoulderPreferred(c[k], s)
      {
        assert !preferred(c[k]);
      }
    } else {
      forall k | 0 <= k < |c|
        ensures !preferred(c[k])
      {
        assert !ShoulderPreferred(c[k], s);
      }
      assert head == c[0];
    }
  }

  /**
   * For men the candidate list is empty only when no record has the
   * closest stature, the closest weight and the belly shape at once.
   */
  lemma MaleCandidatesEmptyOnlyWithoutBellyCandidates(height: real, weight: real, b: BellyShape, s: SecondShape, catalog: seq<AvatarData>)
    requires |catalog| > 0
    ensures |Candidates(catalog, height, weight, b, s, Male)| == |BellyCandidates(catalog, height, weight, b)|
  {
  }

  /**
   * The closest weight is taken over the whole catalog, not over the
   * records at the closest stature: here the only record at the closest
   * stature is not at the closest weight, so the candidates run out and the
   * stand-in number is returned although the record matches both shapes.
   */
  lemma ClosestWeightIgnoresStature()
    ensures var tall := AvatarData("adidas_201", 180.0, 90.0, 0.0, 0.0, 0.0, 0.0, 0.0, Round, Regular, None, Some("L"));
      var light := AvatarData("adidas_202", 150.0, 60.0, 0.0, 0.0, 0.0, 0.0, 0.0, Flat, Slim, None, Some("S"));
      var catalog := [tall, light];
      && ExactShapeMatch(tall, Round, Hip(Regular), Female)
      && FindClosestAvatarWithSize(180.0, 60.0, Some(Round), Some(Hip(Regular)), Female, Loaded(catalog))
         == FallbackResult(Round, Hip(Regular), Female, 180.0, 60.0)
  {
    var tall := AvatarData("adidas_201", 180.0, 90.0, 0.0, 0.0, 0.0, 0.0, 0.0, Round, Regular, None, Some("L"));
    var light := AvatarData("adidas_202", 150.0, 60.0, 0.0, 0.0, 0.0, 0.0, 0.0, Flat, Slim, None, Some("S"));
    var catalog := [tall, light];
    var q := Hip(Regular);
    assert ClosestStature(catalog, 180.0) == 180.0;
    assert ClosestWeight(catalog, 60.0) == 60.0;
    assert catalog[1..] == [light];
    assert catalog[1..][1..] == [];
    var tallOnly := (e: AvatarData) => e.stature == 180.0;
    assert Filter(catalog[1..], tallOnly) == Filter([], tallOnly) == [];
    var atStature := Filter(catalog, tallOnly);
    assert atStature == [tall] + Filter(catalog[1..], tallOnly);
    assert Filter(atStature, (e: AvatarData) => e.weight == 60.0) == [];
    assert BellyCandidates(catalog, 180.0, 60.0, Round) == [];
    EmptyCandidatesFallBack(180.0, 60.0, Round, q, Female, catalog);
  }
}
