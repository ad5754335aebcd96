/**
 * The questionnaire of components/VirtualTryOn.tsx as a state machine: the
 * answers gathered so far, the flow of step kinds they call for, the
 * current step with its bounded forward and backward moves, and the
 * completion tests that decide when the avatar is shown.
 */
module Questionnaire {
  import opened Wrappers
  import opened AvatarTypes
  import opened Selection

  /** The gender answer, including the option that leads to the physique step. */
  datatype GenderAnswer = MaleAnswer | FemaleAnswer | NonBinary

  /** UserMeasurements: every answer, absent (null, 0, []) until given. */
  datatype Measurements = Measurements(
    gender: Option<GenderAnswer>,
    physique: seq<string>,
    height: real,
    weight: real,
    braSize: Option<string>,
    bellyShape: Option<BellyShape>,
    hipShape: Option<HipShape>)

  /** The kinds of questionnaire step. */
  datatype StepKind = GenderStep | PhysiqueStep | HeightStep | WeightStep | BraSizeStep | BellyShapeStep | HipShapeStep

  /** The component's state: whether the questionnaire has started, the current step (from 1), the answers. */
  datatype TryOnState = TryOnState(started: bool, currentStep: int, measurements: Measurements)

  const InitialMeasurements: Measurements := Measurements(None, [], 0.0, 0.0, None, None, None)

  const InitialState: TryOnState := TryOnState(false, 1, InitialMeasurements)

  /** Physique features that point to the female flow, and those that point to the male flow. */
  const FemaleFeatures: seq<string> := ["wider-hips", "curvier-torso"]
  const MaleFeatures: seq<string> := ["narrow-hips", "broad-shoulders", "straighter-silhouette"]

  /** physique.some(feature => features.includes(feature)) */
  function HasAnyOf(physique: seq<string>, features: seq<string>): (b: bool)
    ensures b <==> exists i :: 0 <= i < |physique| && physique[i] in features
  {
    if |physique| == 0 then false
    else if physique[0] in features then true
    else
      assert forall i :: 1 <= i < |physique| ==> physique[1..][i - 1] == physique[i];
      HasAnyOf(physique[1..], features)
  }

  /**
   * getQuestionnaireType: a male or female answer decides; otherwise the
   * physique decides, female when it names a female feature (whether or
   * not it also names a male one) and male otherwise.
   */
  function QuestionnaireType(m: Measurements): (t: Gender)
    ensures m.gender == Some(MaleAnswer) ==> t == Male
    ensures m.gender == Some(FemaleAnswer) ==> t == Female
    ensures m.gender != Some(MaleAnswer) && m.gender != Some(FemaleAnswer) ==>
      (t == Female <==> exists i :: 0 <= i < |m.physique| && m.physique[i] in FemaleFeatures)
  {
    if m.gender == Some(MaleAnswer) then Male
    else if m.gender == Some(FemaleAnswer) then Female
    else
      var hasFemale := HasAnyOf(m.physique, FemaleFeatures);
      var hasMale := HasAnyOf(m.physique, MaleFeatures);
      if hasFemale && !hasMale then Female
      else if hasMale && !hasFemale then Male
      else if hasFemale && hasMale then Female
      else Male
  }

  /** The four rows of the physique decision table. */
  lemma PhysiqueDecisionTable(m: Measurements)
    requires m.gender == Some(NonBinary)
    ensures var f := HasAnyOf(m.physique, FemaleFeatures);
      var g := HasAnyOf(m.physique, MaleFeatures);
      && (f && !g ==> QuestionnaireType(m) == Female)
      && (g && !f ==> QuestionnaireType(m) == Male)
      && (f && g ==> QuestionnaireType(m) == Female)
      && (!f && !g ==> QuestionnaireType(m) == Male)
  {
  }

  /** needsPhysiqueStep: only the non-binary answer adds the physique step. */
  predicate NeedsPhysique(m: Measurements) {
    m.gender == Some(NonBinary)
  }

  /**
   * The flow of step kinds, written out: gender, physique when needed,
   * height, weight, bra size in the female flow, belly shape, hip shape.
   */
  function Flow(m: Measurements): seq<StepKind> {
    [GenderStep]
    + (if NeedsPhysique(m) then [PhysiqueStep] else [])
    + [HeightStep, WeightStep]
    + (if QuestionnaireType(m) == Female then [BraSizeStep] else [])
    + [BellyShapeStep, HipShapeStep]
  }

  /** getTotalSteps: the number of steps, counted as the component counts them. */
  function TotalSteps(m: Measurements): (n: int)
    ensures 5 <= n <= 7
    ensures n == |Flow(m)|
    ensures n == 5 + (if NeedsPhysique(m) then 1 else 0) + (if QuestionnaireType(m) == Female then 1 else 0)
  {
    var steps := 1;
    var steps := if NeedsPhysique(m) then steps + 1 else steps;
    var steps := steps + 2;
    var steps := if QuestionnaireType(m) == Female then steps + 1 else steps;
    steps + 2
  }

  /**
   * getStepForCurrentFlow: the two switch statements, with 'gender' as
   * their default. Within the flow, step k is the k-th kind of the
   * written-out flow.
   */
  function StepForCurrentFlow(m: Measurements, step: int): (kind: StepKind)
    ensures 1 <= step <= TotalSteps(m) ==> kind == Flow(m)[step - 1]
    ensures step < 1 || step > 7 ==> kind == GenderStep
  {
    var female := QuestionnaireType(m) == Female;
    if NeedsPhysique(m) then
      if step == 1 then GenderStep
      else if step == 2 then PhysiqueStep
      else if step == 3 then HeightStep
      else if step == 4 then WeightStep
      else if step == 5 then (if female then BraSizeStep else BellyShapeStep)
      else if step == 6 then (if female then BellyShapeStep else HipShapeStep)
      else if step == 7 then HipShapeStep
      else GenderStep
    else
      if step == 1 then GenderStep
      else if step == 2 then HeightStep
      else if step == 3 then WeightStep
      else if step == 4 then (if female then BraSizeStep else BellyShapeStep)
      else if step == 5 then (if female then BellyShapeStep else HipShapeStep)
      else if step == 6 then HipShapeStep
      else GenderStep
  }

  /** The first step asks for the gender and the last one for the hip shape. */
  lemma FlowEnds(m: Measurements)
    ensures StepForCurrentFlow(m, 1) == GenderStep
    ensures StepForCurrentFlow(m, TotalSteps(m)) == HipShapeStep
  {
  }

  /** No step kind is asked twice within the flow. */
  lemma StepForCurrentFlowInjective(m: Measurements, i: int, j: int)
    requires 1 <= i <= TotalSteps(m) && 1 <= j <= TotalSteps(m)
    requires StepForCurrentFlow(m, i) == StepForCurrentFlow(m, j)
    ensures i == j
  {
  }

  /** The bra-size step belongs to the flow exactly in the female flow, the physique step exactly for a non-binary answer. */
  lemma FlowMembership(m: Measurements)
    ensures (exists k :: 1 <= k <= TotalSteps(m) && StepForCurrentFlow(m, k) == BraSizeStep) <==> QuestionnaireType(m) == Female
    ensures (exists k :: 1 <= k <= TotalSteps(m) && StepForCurrentFlow(m, k) == PhysiqueStep) <==> NeedsPhysique(m)
  {
    if QuestionnaireType(m) == Female {
      assert StepForCurrentFlow(m, if NeedsPhysique(m) then 5 else 4) == BraSizeStep;
    }
    if NeedsPhysique(m) {
      assert StepForCurrentFlow(m, 2) == PhysiqueStep;
    }
  }

  /**
   * Outside the switch labels the default answers 'gender'. The labels run
   * one step past the male flows: there the step after the last still
   * answers 'hip shape'.
   */
  lemma StepForCurrentFlowOutOfRange(m: Measurements, step: int)
    ensures step < 1 || step > 7 ==> StepForCurrentFlow(m, step) == GenderStep
    ensures !NeedsPhysique(m) && step == 7 ==> StepForCurrentFlow(m, step) == GenderStep
    ensures QuestionnaireType(m) == Male && step == TotalSteps(m) + 1 ==> StepForCurrentFlow(m, step) == HipShapeStep
  {
  }

  /** nextStep: one step on unless already at the last step. */
  function NextStep(m: Measurements, current: int): (next: int)
    ensures current <= next <= current + 1
    ensures current < TotalSteps(m) ==> next > current
    ensures 1 <= current <= TotalSteps(m) ==> 1 <= next <= TotalSteps(m)
    ensures next > TotalSteps(m) ==> next == current
  {
    if current < TotalSteps(m) then current + 1 else current
  }

  /** prevStep: one step back unless already at the first step. */
  function PrevStep(current: int): (prev: int)
    ensures current - 1 <= prev <= current
    ensures current > 1 ==> prev < current
    ensures current >= 1 ==> prev >= 1
    ensures prev < 1 ==> prev == current
  {
    if current > 1 then current - 1 else current
  }

  /** Both moves keep the step within [1, total] and change it by at most one. */
  lemma MovesStayInRange(m: Measurements, current: int)
    requires 1 <= current <= TotalSteps(m)
    ensures 1 <= NextStep(m, current) <= TotalSteps(m)
    ensures 1 <= PrevStep(current) <= TotalSteps(m)
    ensures 0 <= NextStep(m, current) - current <= 1
    ensures 0 <= current - PrevStep(current) <= 1
  {
  }

  /** Forward then back returns to the step one started from, except at the last step. */
  lemma NextThenPrev(m: Measurements, current: int)
    requires 1 <= current < TotalSteps(m)
    ensures PrevStep(NextStep(m, current)) == current
  {
  }

  /** The test of one kind of step: the answer it asks for is present. */
  predicate Answered(m: Measurements, kind: StepKind) {
    match kind
    case GenderStep => m.gender.Some?
    case PhysiqueStep => |m.physique| > 0
    case HeightStep => m.height > 0.0
    case WeightStep => m.weight > 0.0
    case BraSizeStep => m.braSize.Some?
    case BellyShapeStep => m.bellyShape.Some?
    case HipShapeStep => m.hipShape.Some?
  }

  /**
   * isStepComplete: the answer the current step asks for is present; within
   * the flow that is the test of the flow's k-th kind, outside the switch
   * labels the gender test.
   */
  function IsStepComplete(m: Measurements, step: int): (ok: bool)
    ensures 1 <= step <= TotalSteps(m) ==> (ok <==> Answered(m, Flow(m)[step - 1]))
    ensures step < 1 || step > 7 ==> (ok <==> m.gender.Some?)
  {
    Answered(m, StepForCurrentFlow(m, step))
  }

  /**
   * allStepsComplete: gender, positive height and weight, a non-empty bra
   * size unless the flow is male, belly and hip shapes, and a physique
   * answer when the physique step is part of the flow.
   */
  function AllStepsComplete(m: Measurements): (ok: bool)
    ensures ok ==> forall k :: 1 <= k <= TotalSteps(m) ==> IsStepComplete(m, k)
  {
    && m.gender.Some?
    && m.height > 0.0
    && m.weight > 0.0
    && (QuestionnaireType(m) == Male || (m.braSize.Some? && m.braSize.value != ""))
    && m.bellyShape.Some?
    && m.hipShape.Some?
    && (!NeedsPhysique(m) || |m.physique| > 0)
  }

  /**
   * Conversely every step passing its own test means all steps are
   * complete, provided a female flow's bra size is not the empty string:
   * the step test asks only for a non-null bra size, the final test for a
   * non-empty one.
   */
  lemma EachStepMeansAllStepsComplete(m: Measurements)
    requires forall k :: 1 <= k <= TotalSteps(m) ==> IsStepComplete(m, k)
    requires QuestionnaireType(m) == Female ==> m.braSize != Some("")
    ensures AllStepsComplete(m)
  {
    var n := if NeedsPhysique(m) then 1 else 0;
    assert IsStepComplete(m, 1) && IsStepComplete(m, 2 + n) && IsStepComplete(m, 3 + n);
    assert IsStepComplete(m, TotalSteps(m) - 1) && IsStepComplete(m, TotalSteps(m));
    if NeedsPhysique(m) {
      assert IsStepComplete(m, 2);
    }
    if QuestionnaireType(m) == Female {
      assert IsStepComplete(m, 4 + n);
    }
  }

  /** The empty bra size passes its step but keeps the questionnaire from completing. */
  lemma EmptyBraSizeBlocksCompletion()
    ensures var m := Measurements(Some(FemaleAnswer), [], 165.0, 60.0, Some(""), Some(Flat), Some(Slim));
      && (forall k :: 1 <= k <= TotalSteps(m) ==> IsStepComplete(m, k))
      && !AllStepsComplete(m)
  {
  }

  /**
   * The answers handed to the avatar display: the gender replaced by the
   * questionnaire type, so a non-binary answer becomes male or female.
   */
  function DisplayMeasurements(m: Measurements): (d: Measurements)
    ensures d.gender == Some(MaleAnswer) || d.gender == Some(FemaleAnswer)
    ensures d.gender == Some(FemaleAnswer) <==> QuestionnaireType(m) == Female
    ensures d.(gender := m.gender) == m
  {
    m.(gender := Some(if QuestionnaireType(m) == Female then FemaleAnswer else MaleAnswer))
  }

  /** The display sees the same questionnaire type, hence the same bra-size requirement. */
  lemma DisplayKeepsQuestionnaireType(m: Measurements)
    ensures QuestionnaireType(DisplayMeasurements(m)) == QuestionnaireType(m)
  {
  }

  /** handleRestart: the initial answers, step 1, not started. */
  function Restart(s: TryOnState): (r: TryOnState)
    ensures !r.started && r.currentStep == 1
    ensures r.measurements.gender.None? && |r.measurements.physique| == 0
    ensures r.measurements.braSize.None? && r.measurements.bellyShape.None? && r.measurements.hipShape.None?
    ensures r.measurements.height == 0.0 && r.measurements.weight == 0.0
  {
    InitialState
  }

  /**
   * After a restart the flow is the five-step male flow, the first step asks
   * for the gender and nothing is complete.
   */
  lemma RestartStartsOver(s: TryOnState)
    ensures var r := Restart(s);
      && TotalSteps(r.measurements) == 5
      && StepForCurrentFlow(r.measurements, r.currentStep) == GenderStep
      && !IsStepComplete(r.measurements, r.currentStep)
      && !AllStepsComplete(r.measurements)
  {
  }

  /** toggleFeature of the physique step: remove a listed feature, append an unlisted one. */
  function ToggleFeature(physique: seq<string>, feature: string): (r: seq<string>)
    ensures feature in r <==> feature !in physique
    ensures forall x :: x != feature ==> (x in r <==> x in physique)
  {
    if feature in physique then Filter(physique, (x: string) => x != feature)
    else physique + [feature]
  }

  /** Toggling the same feature twice restores which features are listed. */
  lemma ToggleTwiceRestoresFeatures(physique: seq<string>, feature: string)
    ensures forall x :: x in ToggleFeature(ToggleFeature(physique, feature), feature) <==> x in physique
  {
  }
}
