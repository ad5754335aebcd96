# Avatar try-on selection logic, modelled in Dafny

The try-on asks a shopper a few questions: gender, a physique description
for non-binary answers, height, weight, bra size in the female flow, belly
shape, and hip shape or shoulder width. It then picks a catalog avatar and a
garment size, and shows the avatar's images. This project models the
deterministic part of that application and proves properties of it:

- **Matchers.** There are three variants of `findClosestAvatarWithSize`,
  each modelled as a total function over a catalog `seq<AvatarData>`:
  - `Matching.FindClosestAvatarWithSizeOld`: exact shape matches ranked
    lexicographically by (height gap, weight gap). Without an exact match,
    the first record of highest weighted similarity score.
  - `Matching.FindClosestAvatarWithSize`: closest stature, then closest
    weight over the whole catalog, then belly shape, then a hip filter
    (female) or a stable shoulder-width preference (male). An empty
    candidate list gives the stand-in number.
  - `LegacyMatching.LegacyFindClosestAvatarWithSize`: the variant the avatar
    display imports. It applies an exact belly and second-shape filter, then
    takes the smallest summed height and weight gap.
- **Catalog loader.** The loader is a parameter, `Load = Loaded(records) |
  LoadFailed`. `LoadFailed` stands for a load that throws. The newer
  matcher's other way into its `catch`, reading the head of an empty
  candidate list, is its own branch of the model.
- **Helpers the matchers rely on:**
  - BMI size banding (`Sizing`);
  - the vocabulary-to-code maps (`Mapping`);
  - image-number extraction, the 3×3 stand-in table and the storage address
    (`ImageUtils`, with `encodeURIComponent` written out in `UriEncoding`
    and decimal rendering in `Decimal`).
- **Questionnaire state machine** of `VirtualTryOn` (`Questionnaire`): the
  physique decision table, the step flow, bounded next and previous moves,
  completion tests, and restart.
- **`getAvailableMeasurements`** (`DataUtils`): the distinct statures and
  weights in increasing order, or fixed ranges when loading fails.

Heights, weights and BMI are `real`, so arithmetic is exact. Image numbers
are `nat`. The generic selection idioms live in `Selection`:

- `Filter` for `Array.prototype.filter`;
- first-minimum and first-maximum scans for the strict-improvement loops and
  `reduce` calls;
- `StablePartition` for the stable sort on a two-valued key.

Where the TypeScript types allow a value the model has no constructor for,
the model follows the code's behaviour:

- A male record may lack a shoulder width, and `EntrySecondShape` then
  gives `None`.
- A male query may carry a hip key. That is what the avatar display passes,
  as `SecondShape.Hip`.

## Model

| member | source | states |
|---|---|---|
| Sizing.SizeForBmiCountsLimits | src/utils/avatar/sizing.ts:8-12 | the size of a BMI is the number of band limits 18.5, 24.9, 29.9, 34.9 it has reached |
| Sizing.SizeForBmiBoundaries | src/utils/avatar/sizing.ts:8-12 | below 18.5 is S; exactly 18.5 is M, 24.9 is L, 29.9 is XL; 34.9 and above is XXL |
| Sizing.SizeForBmiMonotone | src/utils/avatar/sizing.ts:8-12 | a larger BMI never gets a smaller size in the order S < M < L < XL < XXL |
| Sizing.CalculateSize | src/utils/avatar/sizing.ts:5-13 | for a non-zero height, the size's rank is the number of band limits the BMI weight/(height/100)² has reached; a zero height gives S for a negative weight and XXL otherwise |
| Sizing.CalculateSizeMonotoneInWeight | src/utils/avatar/sizing.ts:5-13 | for a fixed non-zero height, more weight never lowers the size |
| Sizing.CalculateSizeExamples | src/utils/avatar/sizing.ts:5-13 | BMI 17, 20, 27, 32, 40 give S, M, L, XL, XXL; 165 cm and 60 kg give M |
| Mapping.MapShapeToNumber | src/utils/avatar/mappingUtils.ts:5-12 | each belly shape gets the code of its rank (flat '1', round '2', curvy '3'); any unrecognised shape gives '2' |
| Mapping.MapHipShapeToNumber | src/utils/avatar/mappingUtils.ts:14-21 | each hip shape gets the code of its rank (slim '1', regular '2', full '3'); any unrecognised hip shape gives '2' |
| Mapping.MapShoulderWidthToNumber | src/utils/avatar/mappingUtils.ts:23-26 | each shoulder width gets the code of its rank; the result is a code exactly when the input is one, so an unknown width is not mapped to a code |
| Mapping.MapShoulderWidthToHipShape | src/utils/avatar/mappingUtils.ts:31-38 | each shoulder width gets the hip shape of the same rank ('1' slim, '2' regular, '3' full); anything else gives regular |
| Mapping.ShoulderAndHipCodesAgree | src/utils/avatar/mappingUtils.ts:14-38 | a shoulder width and the hip shape of the same rank get the same code, and width to hip shape to code gives the width back |
| Mapping.ShapeCodesInjective | src/utils/avatar/mappingUtils.ts:5-12 | distinct belly shapes get distinct codes |
| Mapping.HipCodesInjective | src/utils/avatar/mappingUtils.ts:14-21 | distinct hip shapes get distinct codes |
| Mapping.CodesCovered | src/utils/avatar/mappingUtils.ts:5-21 | every code is the image of a belly shape and of a hip shape |
| Mapping.HipShapeRoundTrip | src/utils/avatar/mappingUtils.ts:14-38 | hip shape to code and back is the identity |
| Mapping.ShoulderCodeRoundTrip | src/utils/avatar/mappingUtils.ts:14-38 | code to hip shape and back is the identity |
| Decimal.NatToString | src/utils/avatar/imageUtils.ts:70 | the decimal rendering of a number is non-empty, all digits, without a leading zero |
| Decimal.NatToStringRoundTrip | src/utils/avatar/imageUtils.ts:70 | reading the rendered digits back gives the number |
| Decimal.NatToStringInjective | src/utils/avatar/imageUtils.ts:70 | distinct numbers render differently, so distinct image numbers get distinct file names |
| ImageUtils.ExtractImageNumber | src/utils/avatar/imageUtils.ts:10-29 | a name without digits (the empty name included) gives 105; otherwise the value of the first maximal run of digits |
| ImageUtils.ExtractImageNumberFindsRun | src/utils/avatar/imageUtils.ts:19-24 | a name with a digit has a first maximal digit run, and the result is its value |
| ImageUtils.ExtractImageNumberRoundTrip | src/utils/avatar/imageUtils.ts:10-29 | the number read from adidas_n, followed by anything not starting with a digit, is n |
| ImageUtils.FallbackImageNumber | src/utils/avatar/imageUtils.ts:34-56 | the stand-in number always lies in 101..109 |
| ImageUtils.FallbackRowMajor | src/utils/avatar/imageUtils.ts:37-51 | valid pairs get 101 + 3·row + column; rows flat/round/curvy, columns slim or '1', regular or '2', full or '3' |
| ImageUtils.FallbackOtherGenderKey | src/utils/avatar/imageUtils.ts:34-56 | a second shape from the other gender's table gives 105 |
| ImageUtils.FallbackUnknownBelly | src/utils/avatar/imageUtils.ts:34-56 | an unrecognised belly key gives 105 |
| ImageUtils.FallbackTablesAgree | src/utils/avatar/imageUtils.ts:37-51 | the male and female tables agree under '1'↔slim, '2'↔regular, '3'↔full |
| ImageUtils.FallbackInjective | src/utils/avatar/imageUtils.ts:37-51 | distinct valid pairs of one gender get distinct stand-in numbers |
| ImageUtils.AvatarPath | src/utils/avatar/imageUtils.ts:61-82 | no image number gives the placeholder; otherwise the address is base URL, slash, one path segment (no '/' or '?'), then ?alt=media |
| ImageUtils.AvatarPathLayout | src/utils/avatar/imageUtils.ts:66-77 | for a size label that needs no escaping, the address reads Women or Men, view, size, adidas_n.png separated by %2F |
| ImageUtils.EncodedStoragePath | src/utils/avatar/imageUtils.ts:74 | encoding the storage path escapes exactly its three separators |
| ImageUtils.AvatarViews | src/utils/avatar/imageUtils.ts:87-91 | no image number gives the placeholder alone; otherwise one address per available view (Front, Back), in order |
| UriEncoding.EncodeUriComponent | src/utils/avatar/imageUtils.ts:74 | the output contains only unreserved characters, '%' and upper-case hex digits; an unreserved input is unchanged |
| UriEncoding.EncodeConcat | src/utils/avatar/imageUtils.ts:74 | encoding distributes over concatenation |
| UriEncoding.EncodedIsOneSegment | src/utils/avatar/imageUtils.ts:74-77 | an encoded text holds no '/' and no '?' |
| MatchResults.RecommendedSizeFor | src/utils/avatar/matching.ts:313 | the record's own size when present and non-empty, otherwise the BMI size; never empty |
| MatchResults.FallbackResult | src/utils/avatar/matching.ts:262-265 | the stand-in answer carries an image number in 101..109 |
| Matching.HeightScore | src/utils/avatar/matching.ts:35-37 | the height part lies in [0, 40] and is 40 exactly at equal height |
| Matching.WeightScore | src/utils/avatar/matching.ts:40-42 | the weight part lies in [0, 30] and is 30 exactly at equal weight |
| Matching.BellyScore | src/utils/avatar/matching.ts:45-54 | the belly part lies in [0, 20] and is 20 exactly on the same belly shape |
| Matching.SecondCode | src/utils/avatar/matching.ts:62-66 | the gender's own keys get 1, 2, 3 in table-column order; an absent value or the other gender's key gets 2 |
| Matching.SecondScore | src/utils/avatar/matching.ts:57-69 | the second-shape part lies in [0, 10] and is 10 exactly when the codes agree |
| Matching.SimilarityScore | src/utils/avatar/matching.ts:24-80 | the score lies in [0, 100] and is 100 iff height, weight, belly shape and second-shape code all agree |
| Matching.PerfectMatchScoresFull | src/utils/avatar/matching.ts:34-69 | an exact match on all four attributes scores 100 |
| Matching.MissingShoulderWidthScoresFull | src/utils/avatar/matching.ts:57-69 | a male record without shoulder width scores 100 against width '2' without matching it exactly |
| Matching.FindClosestAvatarWithSizeOld | src/utils/avatar/matching.ts:86-239 | a missing shape gives no image and the BMI size; with both shapes there is always an image number |
| Matching.OldPrefersExactMatches | src/utils/avatar/matching.ts:130-177 | with exact matches, the answer is the first exact match of lexicographically least (height gap, weight gap) |
| Matching.OldFallsBackToSimilarity | src/utils/avatar/matching.ts:179-229 | without exact matches, the answer is the first record of highest similarity score |
| Matching.OldWithoutCatalog | src/utils/avatar/matching.ts:107-118 | a failed load or an empty catalog gives the stand-in number and the BMI size |
| Selection.FilterKeepsOrder | src/utils/avatar/matching.ts:286-307 | filtering keeps exactly the elements passing the test, at strictly increasing positions, so in their original order |
| Selection.FilterFilter | src/utils/avatar/matching.ts:286-296 | filtering twice is filtering once by both tests |
| Matching.ClosestStature | src/utils/avatar/matching.ts:279-282 | the stature of the first record with the least height gap |
| Matching.ClosestWeight | src/utils/avatar/matching.ts:287-291 | the weight of the first record of the whole catalog with the least weight gap |
| Matching.FindClosestAvatarWithSize | src/utils/avatar/matching.ts:241-326 | a missing shape gives no image and the BMI size; with both shapes there is always an image number |
| Matching.FindClosestAvatar | src/utils/avatar/matching.ts:331-340 | a number exactly when both shapes are given; without a catalog it is the stand-in number |
| Matching.NumberFromCatalogOrStandIn | src/utils/avatar/matching.ts:241-340 | with both shapes the number is the stand-in number or the number of some catalog record |
| Matching.WithoutCatalog | src/utils/avatar/matching.ts:255-266 | a failed load or an empty catalog gives the stand-in number and the BMI size |
| Matching.EmptyCandidatesFallBack | src/utils/avatar/matching.ts:311-325 | an empty candidate list makes the catch answer with the stand-in number and the BMI size |
| Matching.CandidatesFitFilters | src/utils/avatar/matching.ts:286-307 | every candidate is in the catalog with the closest stature, closest weight and query belly shape, and for women the query hip shape |
| Matching.FitRecordIsCandidate | src/utils/avatar/matching.ts:286-316 | a catalog record passing every filter is a candidate, so the answer comes from the head of the candidates and not from the stand-in table |
| Matching.BellyCandidatesAsOneFilter | src/utils/avatar/matching.ts:286-296 | the three successive filters keep the same records, in the same order, as one filter on closest stature, closest weight and belly shape |
| Matching.FemaleAnswerIsFirstFit | src/utils/avatar/matching.ts:286-316 | for women with a fitting record, the answer comes from the first catalog record passing every filter |
| Matching.MaleAnswerWithWidth | src/utils/avatar/matching.ts:286-316 | for men, when a record at the closest point has the query width, the answer comes from the first such record of the catalog |
| Matching.MaleAnswerWithoutWidth | src/utils/avatar/matching.ts:286-316 | for men, when no record at the closest point has the query width, the answer comes from the first record at the closest point |
| Matching.AnswerFromFirstCandidate | src/utils/avatar/matching.ts:311-316 | a non-empty candidate list answers from its head |
| Matching.MaleShoulderPreference | src/utils/avatar/matching.ts:298-303 | for men the head is the first belly candidate with the query width if one exists, otherwise the first belly candidate |
| Matching.MaleCandidatesEmptyOnlyWithoutBellyCandidates | src/utils/avatar/matching.ts:298-303 | the male sort keeps every belly candidate |
| Matching.ClosestWeightIgnoresStature | src/utils/avatar/matching.ts:286-296 | a catalog where the only record at the closest stature matches both shapes yet the stand-in number is returned |
| LegacyMatching.LegacyExtractImageNumber | src/utils/avatarMatching.ts:237-241 | the regex-only extraction equals the guarded one of imageUtils |
| LegacyMatching.ClosestBySummedGap | src/utils/avatarMatching.ts:151-177 | the first record of least summed height and weight gap |
| LegacyMatching.LegacyExactMatches | src/utils/avatarMatching.ts:92-132 | exactly the catalog records with the query belly shape and second shape |
| LegacyMatching.LegacyFindClosestAvatarWithSize | src/utils/avatarMatching.ts:54-206 | a missing shape gives no image and the BMI size; with both shapes there is always an image number |
| LegacyMatching.LegacyFindClosestAvatar | src/utils/avatarMatching.ts:223-232 | a number exactly when both shapes are given; without a catalog it is the stand-in number |
| LegacyMatching.LegacyNumberFromCatalogOrStandIn | src/utils/avatarMatching.ts:54-232 | with both shapes the number is the stand-in number or the number of a catalog record matching both shapes exactly |
| LegacyMatching.LegacyFallsBack | src/utils/avatarMatching.ts:75-149 | a failed load, an empty catalog or no exact match gives the stand-in number and the BMI size |
| LegacyMatching.LegacyChoosesClosestExact | src/utils/avatarMatching.ts:151-181 | with an exact match, the answer comes from an exact catalog record of least summed gap, first among equals |
| LegacyMatching.MaleHipQueryAlwaysFallsBack | src/utils/avatarMatching.ts:94-112 | a male query with a hip key always gets 105 and the BMI size |
| LegacyMatching.LegacyAvatarPath | src/utils/avatarMatching.ts:286-307 | starts with the given base URL, and equals getAvatarPath of imageUtils when that base is the bucket URL |
| LegacyMatching.LegacyAvatarViews | src/utils/avatarMatching.ts:312-316 | one legacy address per view, and equal to getAvatarViews of imageUtils for the bucket URL |
| DataUtils.InsertUnique | src/utils/avatar/dataUtils.ts:17 | inserting keeps a sequence strictly increasing, and adds exactly the one value |
| DataUtils.SortedDistinct | src/utils/avatar/dataUtils.ts:17 | the result is strictly increasing with the same values as the input |
| DataUtils.IncreasingUnique | src/utils/avatar/dataUtils.ts:17 | two strictly increasing sequences with the same values are equal |
| DataUtils.SortedDistinctSameValues | src/utils/avatar/dataUtils.ts:17-18 | the result depends only on which values occur |
| DataUtils.SortedDistinctOfIncreasing | src/utils/avatar/dataUtils.ts:17 | an increasing input comes back unchanged |
| DataUtils.StepRange | src/utils/avatar/dataUtils.ts:32-40 | entry k is first + step·k, the last entry is within step of the bound, and an empty range is empty |
| DataUtils.StepRangeIncreasing | src/utils/avatar/dataUtils.ts:32-40 | the stepped values are strictly increasing |
| DataUtils.GetAvailableMeasurements | src/utils/avatar/dataUtils.ts:12-47 | increasing lists of exactly the catalog's statures and weights; on load failure 150..190 (9 values) and 50..100 (11 values) |
| Questionnaire.HasAnyOf | src/components/VirtualTryOn.tsx:49-50 | true iff some listed physique feature is in the feature set |
| Questionnaire.QuestionnaireType | src/components/VirtualTryOn.tsx:41-57 | male and female answers decide; otherwise female iff a female feature is listed |
| Questionnaire.PhysiqueDecisionTable | src/components/VirtualTryOn.tsx:52-56 | only female features: female; only male: male; both: female; neither: male |
| Questionnaire.TotalSteps | src/components/VirtualTryOn.tsx:63-70 | 5 plus one for the physique step plus one for the bra step, hence 5..7, the length of the flow |
| Questionnaire.StepForCurrentFlow | src/components/VirtualTryOn.tsx:82-107 | within the flow, step k is the k-th kind of the written-out flow; a step outside 1..7 gives gender |
| Questionnaire.FlowEnds | src/components/VirtualTryOn.tsx:82-107 | step 1 asks for the gender and the last step for the hip shape |
| Questionnaire.StepForCurrentFlowInjective | src/components/VirtualTryOn.tsx:82-107 | no step kind appears twice within the flow |
| Questionnaire.FlowMembership | src/components/VirtualTryOn.tsx:82-107 | the bra step is in the flow iff the flow is female; the physique step iff the answer is non-binary |
| Questionnaire.StepForCurrentFlowOutOfRange | src/components/VirtualTryOn.tsx:82-107 | steps outside the switch labels give gender; in male flows the step after the last still gives hip shape |
| Questionnaire.NextStep | src/components/VirtualTryOn.tsx:111-115 | moves at most one step on, always moves before the last step, and never leaves the flow from within it |
| Questionnaire.PrevStep | src/components/VirtualTryOn.tsx:117-121 | moves at most one step back, always moves after the first step, and never goes below step 1 |
| Questionnaire.MovesStayInRange | src/components/VirtualTryOn.tsx:111-121 | next and previous keep the step in [1, total] and change it by at most one |
| Questionnaire.NextThenPrev | src/components/VirtualTryOn.tsx:111-121 | before the last step, next then previous returns to the same step |
| Questionnaire.IsStepComplete | src/components/VirtualTryOn.tsx:129-140 | within the flow, step k passes exactly when the answer the k-th kind asks for is present; outside 1..7 it is the gender test |
| Questionnaire.AllStepsComplete | src/components/VirtualTryOn.tsx:142-148 | when all steps are complete, every step of the flow passes its own test |
| Questionnaire.EachStepMeansAllStepsComplete | src/components/VirtualTryOn.tsx:129-148 | every step passing its test means all complete, unless a female flow has the empty bra size |
| Questionnaire.EmptyBraSizeBlocksCompletion | src/components/VirtualTryOn.tsx:129-148 | an empty bra size passes its step yet blocks completion |
| Questionnaire.DisplayMeasurements | src/components/VirtualTryOn.tsx:177-183 | the display gets male or female, never non-binary, and every other answer unchanged |
| Questionnaire.DisplayKeepsQuestionnaireType | src/components/VirtualTryOn.tsx:177-183 | the display sees the same questionnaire type |
| Questionnaire.Restart | src/components/VirtualTryOn.tsx:123-127 | not started, step 1, and every answer back to its initial empty value |
| Questionnaire.RestartStartsOver | src/components/VirtualTryOn.tsx:123-127 | after a restart: not started, step 1 asks for the gender, five-step flow, nothing complete |
| Questionnaire.ToggleFeature | src/components/steps/PhysiqueStep.tsx:40-45 | the toggled feature flips its membership, and no other feature changes membership |
| Questionnaire.ToggleTwiceRestoresFeatures | src/components/steps/PhysiqueStep.tsx:40-45 | toggling twice restores which features are listed |

## Behaviour worth knowing

These come out of the proofs. Each is how the code behaves; none is claimed
to be a defect.

- **Newer matcher falls back despite a match.** Its closest weight is taken
  over the whole catalog, not over the records at the closest stature.
  `Matching.ClosestWeightIgnoresStature` gives a two-record catalog where a
  record matches both shapes exactly, yet the answer is the stand-in
  number.
- **Full score without an exact second shape.** A score of 100 does not
  imply an exact second-shape match. A male record without a shoulder
  width, and a query key of the other gender, both count as the middle code
  2 (`Matching.MissingShoulderWidthScoresFull`).
- **Men always get 105 from the legacy matcher.** The avatar display passes
  the hip-shape answer to the legacy matcher for men too. A hip key never
  equals a shoulder width, and the male stand-in table has no hip keys, so
  every such query answers 105 (`LegacyMatching.MaleHipQueryAlwaysFallsBack`).
- **Empty bra size.** The bra-size step accepts any non-null answer, but the
  final completion test needs a non-empty one
  (`Questionnaire.EmptyBraSizeBlocksCompletion`).
- **Step labels run past the male flows.** The switch labels of
  `getStepForCurrentFlow` cover one step beyond the end of both male flows.
  Steps 6 (binary) and 7 (non-binary) still give hip shape there, not the
  default gender. `nextStep` never reaches those steps.

## Left out

- Asynchronous loading and caching: `fetchGenderSpecificData` is not part of
  this model and is not defined in the data module. The catalog is a
  `Load` parameter, and `LoadFailed` stands for a load that throws. The
  empty-candidate `TypeError` at `src/utils/avatar/matching.ts:311` is
  modelled separately, as the `|c| == 0` branch of
  `Matching.FindClosestAvatarWithSize`.
- The default argument `view = 'Front'` of `getAvatarPath`
  (`src/utils/avatar/imageUtils.ts:61`, `src/utils/avatarMatching.ts:286`):
  `ImageUtils.AvatarPath` and `LegacyMatching.LegacyAvatarPath` take the
  view explicitly. A call without a view, such as the one at
  `src/components/AvatarDisplay.tsx:52`, is the call with `Front`.
- The base URL in `src/utils/avatarMatching.ts`: it imports
  `FIREBASE_STORAGE_BASE_URL` from the data module, which does not define it.
  `LegacyAvatarPath` therefore takes the base URL as a parameter.
- Duplicated helpers: the textually identical copies of `calculateSize`,
  `getFallbackImageNumber` and `mapShoulderWidthToHipShape` in
  `src/utils/avatarMatching.ts` are modelled once, by the Sizing, ImageUtils
  and Mapping members.
- `console.log` and `toFixed` diagnostics have no effect on results.
- The unused `fallbackOutputData` arrays are omitted.
- React rendering, timers, the step components and the un-awaited call in
  the avatar display are outside the selection logic.
- IEEE-754 arithmetic: heights, weights, BMI and scores are exact reals.
  NaN, infinities and rounding are not modelled, with one exception: a zero
  height in `calculateSize` follows the IEEE result, which is S for a
  negative weight and XXL otherwise.
- JavaScript property lookups: the stand-in tables are plain maps.
  Prototype keys such as `toString` would find inherited members in the
  source's object literals; the model treats them as unknown keys (105).
- `parseInt` precision: image numbers are unbounded `nat`, so digit runs
  beyond 2^53 are read exactly rather than rounded.
- `encodeURIComponent` on lone surrogates: Dafny characters are Unicode
  scalar values, so the URIError case cannot arise.
- ImageUtils.AvatarPathLayout: stated only for size labels made of
  unreserved characters, the sizes the application produces. Other labels
  are escaped as `UriEncoding.EncodeUriComponent` describes.
- Array.prototype.sort is modelled by its stable result on a two-valued
  key: matching records first, each group in catalog order. ECMAScript
  requires this since ES2019.
