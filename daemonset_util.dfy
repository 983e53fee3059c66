/**
 * The DaemonSet rolling-update helpers: stamping a pod template with a
 * generation and the two fault tolerations, deciding whether a pod carries a
 * given generation, and splitting pods by availability.
 */
module DaemonSetUtil {
  import opened Wrappers
  import opened Decimal
  import opened Api
  import opened LabelsUtil
  import opened TolerationHelper
  import opened Partition

  /** Tolerate a not-ready node for ever: keeps daemon pods through NoExecute eviction. */
  const NOT_READY_TOLERATION: Toleration :=
    Toleration(TAINT_NODE_NOT_READY, TOLERATION_OP_EXISTS, "", TAINT_EFFECT_NO_EXECUTE, None)

  /** Tolerate an unreachable node for ever. */
  const UNREACHABLE_TOLERATION: Toleration :=
    Toleration(TAINT_NODE_UNREACHABLE, TOLERATION_OP_EXISTS, "", TAINT_EFFECT_NO_EXECUTE, None)

  /** The toleration list after both add-or-update calls, not-ready first. */
  function WithFaultTolerations(ts: seq<Toleration>): (r: seq<Toleration>)
    ensures NOT_READY_TOLERATION in r && UNREACHABLE_TOLERATION in r
    ensures forall x :: x in r ==> x in ts || x == NOT_READY_TOLERATION || x == UNREACHABLE_TOLERATION
  {
    AddOrUpdate(AddOrUpdate(ts, NOT_READY_TOLERATION), UNREACHABLE_TOLERATION)
  }

  /**
   * The template GetPodTemplateWithGeneration returns: both fault
   * tolerations added or updated, the generation label set on a clone of the
   * original labels, every other field as in the input.
   */
  function TemplateWithGeneration(template: PodTemplateSpec, generation: Int64): (r: PodTemplateSpec)
    ensures DAEMON_SET_TEMPLATE_GENERATION_KEY in r.objectMeta.labels
    ensures r.objectMeta.labels[DAEMON_SET_TEMPLATE_GENERATION_KEY] == Sprint(generation)
    ensures r.objectMeta.labels.Keys == template.objectMeta.labels.Keys + {DAEMON_SET_TEMPLATE_GENERATION_KEY}
    ensures forall k :: k in template.objectMeta.labels && k != DAEMON_SET_TEMPLATE_GENERATION_KEY ==>
              r.objectMeta.labels[k] == template.objectMeta.labels[k]
    ensures NOT_READY_TOLERATION in r.spec.tolerations && UNREACHABLE_TOLERATION in r.spec.tolerations
    ensures forall x ::
              x in template.spec.tolerations && !Matches(NOT_READY_TOLERATION, x) && !Matches(UNREACHABLE_TOLERATION, x)
              ==> x in r.spec.tolerations
    ensures forall x :: x in r.spec.tolerations ==>
              x == NOT_READY_TOLERATION || x == UNREACHABLE_TOLERATION || x in template.spec.tolerations
    ensures r.objectMeta.(labels := template.objectMeta.labels) == template.objectMeta
    ensures r.spec.(tolerations := template.spec.tolerations) == template.spec
  {
    assert !Matches(UNREACHABLE_TOLERATION, NOT_READY_TOLERATION);
    PodTemplateSpec(
      template.objectMeta.(labels := CloneAndAddLabel(
        template.objectMeta.labels, DAEMON_SET_TEMPLATE_GENERATION_KEY, Sprint(generation))),
      template.spec.(tolerations := WithFaultTolerations(template.spec.tolerations)))
  }

  /**
   * GetPodTemplateWithGeneration. The argument is a value, so the copy made
   * on entry can never share storage with the caller's template; the copy's
   * specification is then updated twice and its labels replaced.
   */
  method GetPodTemplateWithGeneration(template: PodTemplateSpec, generation: Int64)
    returns (newTemplate: PodTemplateSpec)
    ensures newTemplate == TemplateWithGeneration(template, generation)
  {
    newTemplate := template;
    newTemplate := newTemplate.(spec := AddOrUpdateTolerationInPodSpec(newTemplate.spec, NOT_READY_TOLERATION));
    newTemplate := newTemplate.(spec := AddOrUpdateTolerationInPodSpec(newTemplate.spec, UNREACHABLE_TOLERATION));
    var templateGenerationStr := Sprint(generation);
    newTemplate := newTemplate.(objectMeta := newTemplate.objectMeta.(labels := CloneAndAddLabel(
      template.objectMeta.labels, DAEMON_SET_TEMPLATE_GENERATION_KEY, templateGenerationStr)));
  }

  /** IsPodUpdated: the pod's generation label is the rendering of the given generation. */
  predicate IsPodUpdated(dsTemplateGeneration: Int64, pod: Pod)
    ensures DAEMON_SET_TEMPLATE_GENERATION_KEY !in pod.objectMeta.labels ==> !IsPodUpdated(dsTemplateGeneration, pod)
  {
    var labels := pod.objectMeta.labels;
    DAEMON_SET_TEMPLATE_GENERATION_KEY in labels && labels[DAEMON_SET_TEMPLATE_GENERATION_KEY] == Sprint(dsTemplateGeneration)
  }

  /** A pod is at one generation at most. */
  lemma IsPodUpdatedAtMostOneGeneration(g: Int64, h: Int64, pod: Pod)
    requires IsPodUpdated(g, pod) && IsPodUpdated(h, pod)
    ensures g == h
  {
    SprintInjective(g, h);
  }

  /** When the pod is at generation g, its label reads back as the number g. */
  lemma IsPodUpdatedReadsBack(g: Int64, pod: Pod)
    requires IsPodUpdated(g, pod)
    ensures ReadDecimal(pod.objectMeta.labels[DAEMON_SET_TEMPLATE_GENERATION_KEY]) == Some(g as int)
  {
    ReadSprint(g);
  }

  /**
   * The comparison is on strings, not numbers: a label that denotes the
   * generation with a leading zero does not count as that generation.
   */
  lemma LeadingZeroIsNotUpdated(n: nat, pod: Pod)
    requires n <= MAX_INT64
    requires DAEMON_SET_TEMPLATE_GENERATION_KEY in pod.objectMeta.labels
    requires pod.objectMeta.labels[DAEMON_SET_TEMPLATE_GENERATION_KEY] == "0" + NaturalDigits(n)
    ensures ReadDecimal(pod.objectMeta.labels[DAEMON_SET_TEMPLATE_GENERATION_KEY]) == Some(n as int)
    ensures !IsPodUpdated(n, pod)
  {
    var padded := "0" + NaturalDigits(n);
    DigitsValueLeadingZero(NaturalDigits(n));
    DigitsValueOfNaturalDigits(n);
    assert padded[0] == '0' && |padded| >= 2;
    assert ReadDecimal(padded) == Some(DigitsValue(padded) as int);
  }

  /** The label "03" denotes 3, yet a pod carrying it is not at generation 3. */
  lemma LeadingZeroExample(pod: Pod)
    requires pod.objectMeta.labels == map[DAEMON_SET_TEMPLATE_GENERATION_KEY := "03"]
    ensures ReadDecimal("03") == Some(3)
    ensures !IsPodUpdated(3, pod)
  {
    assert NaturalDigits(3) == "3";
    LeadingZeroIsNotUpdated(3, pod);
  }

  /**
   * Round trip: a pod that carries the generation label of a template
   * stamped with g is at generation g and at no other.
   */
  lemma StampedPodIsUpdated(template: PodTemplateSpec, g: Int64, other: Int64, pod: Pod)
    requires DAEMON_SET_TEMPLATE_GENERATION_KEY in pod.objectMeta.labels
    requires pod.objectMeta.labels[DAEMON_SET_TEMPLATE_GENERATION_KEY]
          == TemplateWithGeneration(template, g).objectMeta.labels[DAEMON_SET_TEMPLATE_GENERATION_KEY]
    ensures IsPodUpdated(g, pod)
    ensures IsPodUpdated(other, pod) <==> other == g
  {
    SprintInjective(g, other);
  }

  /** Removing the entries that match either fault toleration leaves the input's list, in order. */
  lemma StampKeepsOtherTolerationsInOrder(template: PodTemplateSpec, g: Int64)
    ensures Others(Others(TemplateWithGeneration(template, g).spec.tolerations, NOT_READY_TOLERATION), UNREACHABLE_TOLERATION)
         == Others(Others(template.spec.tolerations, NOT_READY_TOLERATION), UNREACHABLE_TOLERATION)
  {
    var ts := template.spec.tolerations;
    var once := AddOrUpdate(ts, NOT_READY_TOLERATION);
    var twice := AddOrUpdate(once, UNREACHABLE_TOLERATION);
    AddOrUpdateKeepsOthers(once, UNREACHABLE_TOLERATION);
    AddOrUpdateKeepsOthers(ts, NOT_READY_TOLERATION);
    OthersCommute(twice, NOT_READY_TOLERATION, UNREACHABLE_TOLERATION);
    OthersCommute(once, NOT_READY_TOLERATION, UNREACHABLE_TOLERATION);
  }

  /** After both add-or-update calls, the entries matching each fault toleration are copies of it. */
  lemma FaultTolerationsMatching(ts: seq<Toleration>)
    ensures Matching(WithFaultTolerations(ts), NOT_READY_TOLERATION)
         == Copies(NOT_READY_TOLERATION, if Matching(ts, NOT_READY_TOLERATION) == [] then 1
                                         else |Matching(ts, NOT_READY_TOLERATION)|)
    ensures Matching(WithFaultTolerations(ts), UNREACHABLE_TOLERATION)
         == Copies(UNREACHABLE_TOLERATION, if Matching(ts, UNREACHABLE_TOLERATION) == [] then 1
                                           else |Matching(ts, UNREACHABLE_TOLERATION)|)
  {
    var once := AddOrUpdate(ts, NOT_READY_TOLERATION);
    AddOrUpdateMatching(ts, NOT_READY_TOLERATION);
    AddOrUpdateOtherKey(once, UNREACHABLE_TOLERATION, NOT_READY_TOLERATION);
    AddOrUpdateOtherKey(ts, NOT_READY_TOLERATION, UNREACHABLE_TOLERATION);
    AddOrUpdateMatching(once, UNREACHABLE_TOLERATION);
  }

  /**
   * Every stamped entry matching a fault toleration is that toleration;
   * and when the input had at most one entry matching each, the stamped list
   * has exactly one.
   */
  lemma StampFaultTolerations(template: PodTemplateSpec, g: Int64)
    ensures var ts := TemplateWithGeneration(template, g).spec.tolerations;
            && (forall x :: x in ts && Matches(NOT_READY_TOLERATION, x) ==> x == NOT_READY_TOLERATION)
            && (forall x :: x in ts && Matches(UNREACHABLE_TOLERATION, x) ==> x == UNREACHABLE_TOLERATION)
    ensures |Matching(template.spec.tolerations, NOT_READY_TOLERATION)| <= 1 ==>
              Matching(TemplateWithGeneration(template, g).spec.tolerations, NOT_READY_TOLERATION) == [NOT_READY_TOLERATION]
    ensures |Matching(template.spec.tolerations, UNREACHABLE_TOLERATION)| <= 1 ==>
              Matching(TemplateWithGeneration(template, g).spec.tolerations, UNREACHABLE_TOLERATION) == [UNREACHABLE_TOLERATION]
  {
    var stamped := WithFaultTolerations(template.spec.tolerations);
    assert TemplateWithGeneration(template, g).spec.tolerations == stamped;
    FaultTolerationsMatching(template.spec.tolerations);
    MatchingMembers(stamped, NOT_READY_TOLERATION);
    MatchingMembers(stamped, UNREACHABLE_TOLERATION);
    assert Copies(NOT_READY_TOLERATION, 1) == [NOT_READY_TOLERATION];
    assert Copies(UNREACHABLE_TOLERATION, 1) == [UNREACHABLE_TOLERATION];
  }

  /** Adding both fault tolerations to a list that already went through it changes nothing. */
  lemma FaultTolerationsFixed(ts: seq<Toleration>)
    ensures WithFaultTolerations(WithFaultTolerations(ts)) == WithFaultTolerations(ts)
  {
    var twice := WithFaultTolerations(ts);
    FaultTolerationsMatching(ts);
    MatchingMembers(twice, NOT_READY_TOLERATION);
    MatchingMembers(twice, UNREACHABLE_TOLERATION);
    assert NOT_READY_TOLERATION in Matching(twice, NOT_READY_TOLERATION);
    ReplaceMatchingFixed(twice, NOT_READY_TOLERATION);
    assert AddOrUpdate(twice, NOT_READY_TOLERATION) == twice;
    assert UNREACHABLE_TOLERATION in Matching(twice, UNREACHABLE_TOLERATION);
    ReplaceMatchingFixed(twice, UNREACHABLE_TOLERATION);
  }

  /** Stamping a stamped template again with the same generation changes nothing. */
  lemma StampIdempotent(template: PodTemplateSpec, g: Int64)
    ensures TemplateWithGeneration(TemplateWithGeneration(template, g), g) == TemplateWithGeneration(template, g)
  {
    FaultTolerationsFixed(template.spec.tolerations);
    var labels := TemplateWithGeneration(template, g).objectMeta.labels;
    assert labels[DAEMON_SET_TEMPLATE_GENERATION_KEY := Sprint(g)] == labels;
  }

  /** The readiness verdict for each pod, with the clock read afresh for each one. */
  function Verdicts(
    pods: seq<Pod>, minReadySeconds: Int32, clock: nat -> Time, isPodAvailable: (Pod, Int32, Time) -> bool): seq<bool>
  {
    seq(|pods|, i requires 0 <= i < |pods| => isPodAvailable(pods[i], minReadySeconds, clock(i)))
  }

  /**
   * SplitByAvailablePods. isPodAvailable stands for podutil.IsPodAvailable and
   * clock(i) for the value metav1.Now() returns when the i-th pod is examined.
   */
  method SplitByAvailablePods(
    minReadySeconds: Int32, pods: seq<Pod>, clock: nat -> Time, isPodAvailable: (Pod, Int32, Time) -> bool)
    returns (availablePods: seq<Pod>, unavailablePods: seq<Pod>)
    ensures availablePods == Select(pods, Verdicts(pods, minReadySeconds, clock, isPodAvailable), true)
    ensures unavailablePods == Select(pods, Verdicts(pods, minReadySeconds, clock, isPodAvailable), false)
    ensures pods == [] ==> availablePods == [] && unavailablePods == []
    ensures |availablePods| + |unavailablePods| == |pods|
    ensures multiset(availablePods) + multiset(unavailablePods) == multiset(pods)
    ensures IsSubsequence(availablePods, pods) && IsSubsequence(unavailablePods, pods)
    ensures forall i :: 0 <= i < |pods| ==>
              if isPodAvailable(pods[i], minReadySeconds, clock(i)) then pods[i] in availablePods
              else pods[i] in unavailablePods
    ensures forall x :: x in availablePods ==>
              exists i :: 0 <= i < |pods| && pods[i] == x && isPodAvailable(pods[i], minReadySeconds, clock(i)) == true
    ensures forall x :: x in unavailablePods ==>
              exists i :: 0 <= i < |pods| && pods[i] == x && isPodAvailable(pods[i], minReadySeconds, clock(i)) == false
  {
    ghost var verdicts := Verdicts(pods, minReadySeconds, clock, isPodAvailable);
    unavailablePods := [];
    availablePods := [];
    for i := 0 to |pods|
      invariant availablePods == Select(pods[..i], verdicts[..i], true)
      invariant unavailablePods == Select(pods[..i], verdicts[..i], false)
    {
      var pod := pods[i];
      SelectExtend(pods, verdicts, i, true);
      SelectExtend(pods, verdicts, i, false);
      if isPodAvailable(pod, minReadySeconds, clock(i)) {
        availablePods := availablePods + [pod];
      } else {
        unavailablePods := unavailablePods + [pod];
      }
    }
    assert pods[..|pods|] == pods && verdicts[..|pods|] == verdicts;
    AvailabilitySplitIsPartition(minReadySeconds, pods, clock, isPodAvailable);
  }

  /**
   * The two sides of the split are an order-preserving partition of the pods,
   * each pod placed by its own verdict.
   */
  lemma AvailabilitySplitIsPartition(
    minReadySeconds: Int32, pods: seq<Pod>, clock: nat -> Time, isPodAvailable: (Pod, Int32, Time) -> bool)
    ensures var verdicts := Verdicts(pods, minReadySeconds, clock, isPodAvailable);
            var available, unavailable := Select(pods, verdicts, true), Select(pods, verdicts, false);
            && |available| + |unavailable| == |pods|
            && multiset(available) + multiset(unavailable) == multiset(pods)
            && IsSubsequence(available, pods) && IsSubsequence(unavailable, pods)
            && (forall i :: 0 <= i < |pods| ==>
                  if isPodAvailable(pods[i], minReadySeconds, clock(i)) then pods[i] in available
                  else pods[i] in unavailable)
            && (forall x :: x in available ==>
                  exists i :: 0 <= i < |pods| && pods[i] == x && isPodAvailable(pods[i], minReadySeconds, clock(i)) == true)
            && (forall x :: x in unavailable ==>
                  exists i :: 0 <= i < |pods| && pods[i] == x && isPodAvailable(pods[i], minReadySeconds, clock(i)) == false)
  {
    var verdicts := Verdicts(pods, minReadySeconds, clock, isPodAvailable);
    SelectSizes(pods, verdicts);
    SelectMultiset(pods, verdicts);
    SelectIsSubsequence(pods, verdicts, true);
    SelectIsSubsequence(pods, verdicts, false);
    AvailabilitySplitPlacesEveryPod(minReadySeconds, pods, clock, isPodAvailable);
    AvailabilitySplitSidesAreExact(minReadySeconds, pods, clock, isPodAvailable, true);
    AvailabilitySplitSidesAreExact(minReadySeconds, pods, clock, isPodAvailable, false);
  }

  /** Each pod is on the side its own verdict chose. */
  lemma AvailabilitySplitPlacesEveryPod(
    minReadySeconds: Int32, pods: seq<Pod>, clock: nat -> Time, isPodAvailable: (Pod, Int32, Time) -> bool)
    ensures forall i :: 0 <= i < |pods| ==>
              if isPodAvailable(pods[i], minReadySeconds, clock(i))
              then pods[i] in Select(pods, Verdicts(pods, minReadySeconds, clock, isPodAvailable), true)
              else pods[i] in Select(pods, Verdicts(pods, minReadySeconds, clock, isPodAvailable), false)
  {
    var verdicts := Verdicts(pods, minReadySeconds, clock, isPodAvailable);
    forall i | 0 <= i < |pods|
      ensures pods[i] in Select(pods, verdicts, isPodAvailable(pods[i], minReadySeconds, clock(i)))
    {
      SelectMembers(pods, verdicts, verdicts[i], pods[i]);
    }
  }

  /** Each side holds only pods whose verdict, when examined, sent them there. */
  lemma AvailabilitySplitSidesAreExact(
    minReadySeconds: Int32, pods: seq<Pod>, clock: nat -> Time, isPodAvailable: (Pod, Int32, Time) -> bool, b: bool)
    ensures forall x :: x in Select(pods, Verdicts(pods, minReadySeconds, clock, isPodAvailable), b) ==>
              exists i :: 0 <= i < |pods| && pods[i] == x && isPodAvailable(pods[i], minReadySeconds, clock(i)) == b
  {
    var verdicts := Verdicts(pods, minReadySeconds, clock, isPodAvailable);
    forall x | x in Select(pods, verdicts, b)
      ensures exists i :: 0 <= i < |pods| && pods[i] == x && isPodAvailable(pods[i], minReadySeconds, clock(i)) == b
    {
      SelectMembers(pods, verdicts, b, x);
      var i :| 0 <= i < |pods| && pods[i] == x && verdicts[i] == b;
      assert verdicts[i] == isPodAvailable(pods[i], minReadySeconds, clock(i));
    }
  }

  /**
   * The worked example: generation 3 on a template labelled app=x with one
   * custom toleration; a pod labelled with generation 3 is at 3, not at 4 or -3.
   */
  lemma StampExample()
    ensures var custom := Toleration("custom", "", "", "", None);
            var template := PodTemplateSpec(
              ObjectMeta("", map["app" := "x"], map[]), PodSpec("", map[], [custom]));
            var stamped := TemplateWithGeneration(template, 3);
            && stamped.objectMeta.labels == map["app" := "x", DAEMON_SET_TEMPLATE_GENERATION_KEY := "3"]
            && stamped.spec.tolerations == [custom, NOT_READY_TOLERATION, UNREACHABLE_TOLERATION]
    ensures var pod := Pod(ObjectMeta("", map[DAEMON_SET_TEMPLATE_GENERATION_KEY := "3"], map[]), PodSpec("", map[], []));
            IsPodUpdated(3, pod) && !IsPodUpdated(4, pod) && !IsPodUpdated(-3, pod)
  {
    var custom := Toleration("custom", "", "", "", None);
    SprintExamples();
    assert Sprint(4) == "4";
    assert Matching([custom], NOT_READY_TOLERATION) == [];
    assert Matching([custom, NOT_READY_TOLERATION], UNREACHABLE_TOLERATION) == [];
  }
}
