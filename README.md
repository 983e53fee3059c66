# DaemonSet rolling-update helpers, modelled in Dafny

This project models the three helpers in `pkg/controller/daemon/util/daemonset_util.go`. The DaemonSet controller uses them during a rolling update:

- **GetPodTemplateWithGeneration** copies a pod template. It then adds or updates two tolerations on the copy, so that NoExecute eviction on a not-ready or unreachable node does not remove daemon pods. Finally it sets the `pod-template-generation` label to the decimal rendering of the generation, on a clone of the original labels.
- **IsPodUpdated** holds when the pod's generation label is exactly the decimal rendering of the given generation.
- **SplitByAvailablePods** walks the pods in order. Each one goes to the available list or the unavailable list, depending on an availability check that reads the clock again for every pod.

Modules:

- `Wrappers` (`wrappers.dfy`): an `Option` type.
- `Decimal` (`decimal.dfy`): `fmt.Sprint` for integers (`Sprint`), and `ReadDecimal`, which reads a rendering back. `ReadDecimal` is the inverse used to prove `Sprint` injective. The module also defines the `Int64` and `Int32` ranges.
- `Api` (`api.dfy`): records for `Toleration`, `ObjectMeta`, `PodSpec`, `PodTemplateSpec` and `Pod`, plus the well-known constants. Go structs become Dafny datatypes, which are values. So the copy made at the start of stamping can never share storage with the caller's template, and the caller's template cannot change.
- `LabelsUtil` (`labels.dfy`): clone-and-add of one label.
- `TolerationHelper` (`tolerations.dfy`): add-or-update of a toleration in a list, and its properties. This helper's source is not part of this model. Its match rule is therefore an explicit assumption of this model, not a claim about the library: two tolerations match when key, operator, value and effect agree (the duration is ignored). Every matching entry is replaced in place. If no entry matches, the toleration is appended.
- `Partition` (`partition.dfy`): `Select`, a specification of a stable two-way split, with lemmas showing the split is an order-preserving partition.
- `DaemonSetUtil` (`daemonset_util.dfy`): the three operations.
  - The stamping method updates a local copy step by step. It is proved equal to the specification function `TemplateWithGeneration`, which carries the label and toleration properties.
  - The split is a method with a loop. It is proved equal to `Select` over the per-pod verdicts.

Constants defined in packages outside this file take the values of the Kubernetes release this file belongs to:

- `extensions.DaemonSetTemplateGenerationKey` = `pod-template-generation`
- `algorithm.TaintNodeNotReady` = `node.alpha.kubernetes.io/notReady`
- `algorithm.TaintNodeUnreachable` = `node.alpha.kubernetes.io/unreachable`

The proofs rely only on the two taint keys being different (and on the generation key being one shared constant).

## Model

| member | source | states |
|---|---|---|
| Decimal.NaturalDigits | pkg/controller/daemon/util/daemonset_util.go:57 | the digits of a natural number are a non-empty run of decimal digits and start with '0' only for 0 itself (no leading zeros) |
| Decimal.Sprint | pkg/controller/daemon/util/daemonset_util.go:57 | the rendering is non-empty, starts with '-' exactly for negative numbers, is all digits after that sign, and is canonical: "0" only for 0, and no leading zero after the '-' of a negative number |
| Decimal.DigitsValueOfNaturalDigits | pkg/controller/daemon/util/daemonset_util.go:57 | the digits of n denote n |
| Decimal.DigitsValueLeadingZero | pkg/controller/daemon/util/daemonset_util.go:69-70 | putting a '0' in front of a run of digits does not change the number it denotes |
| Decimal.ReadSprint | pkg/controller/daemon/util/daemonset_util.go:57 | reading a rendering back gives the integer that was rendered (round trip) |
| Decimal.SprintInjective | pkg/controller/daemon/util/daemonset_util.go:69-70 | two integers render to the same string if and only if they are equal |
| Decimal.SprintExamples | pkg/controller/daemon/util/daemonset_util.go:57 | 0, 3, -3 and 42 render as "0", "3", "-3" and "42" |
| LabelsUtil.CloneAndAddLabel | pkg/controller/daemon/util/daemonset_util.go:58-62 | the new map maps the key to the value, has the old keys plus that key, and keeps every other label's old value |
| TolerationHelper.Matches | pkg/controller/daemon/util/daemonset_util.go:41-55 | an assumption of this model, not a claim about the library: two tolerations match exactly when they are equal once the duration is disregarded (key, operator, value and effect agree) |
| TolerationHelper.AddOrUpdate | pkg/controller/daemon/util/daemonset_util.go:41-55 | afterwards the toleration is present, every entry is the toleration or came from the input, and every input entry not matching it is kept |
| TolerationHelper.AddOrUpdateTolerationInPodSpec | pkg/controller/daemon/util/daemonset_util.go:41 | only the toleration list of the pod specification changes |
| TolerationHelper.AddOrUpdateKeepsOthers | pkg/controller/daemon/util/daemonset_util.go:41-55 | the entries that do not match the toleration are exactly those of the input, in the same order |
| TolerationHelper.AddOrUpdateMatching | pkg/controller/daemon/util/daemonset_util.go:41-55 | afterwards every matching entry is the toleration itself; there are as many as matched before, and at least one |
| TolerationHelper.AddOrUpdateUnique | pkg/controller/daemon/util/daemonset_util.go:41-55 | if at most one input entry matched, exactly one entry matches afterwards, and it is the toleration itself (no duplicates) |
| TolerationHelper.AddOrUpdateIdempotent | pkg/controller/daemon/util/daemonset_util.go:41-55 | adding the same toleration a second time changes nothing |
| TolerationHelper.AddOrUpdateOtherKey | pkg/controller/daemon/util/daemonset_util.go:41-55 | adding a toleration does not change which entries match a toleration with a different key, so the second call cannot undo the first |
| TolerationHelper.OthersCommute | pkg/controller/daemon/util/daemonset_util.go:41-55 | removing the matches of two tolerations gives the same list in either order |
| DaemonSetUtil.WithFaultTolerations | pkg/controller/daemon/util/daemonset_util.go:41-55 | after the two add-or-update calls (not-ready first, then unreachable) the list contains both fault tolerations, and every entry is one of them or came from the input |
| DaemonSetUtil.TemplateWithGeneration | pkg/controller/daemon/util/daemonset_util.go:34-64 | the stamped template maps the generation key to the rendering of the generation and keeps every other original label and value; its tolerations contain both fault tolerations, keep every input entry matching neither, and gain nothing else; all other metadata and specification fields are the input's |
| DaemonSetUtil.GetPodTemplateWithGeneration | pkg/controller/daemon/util/daemonset_util.go:34-64 | copying, updating the copy's tolerations twice, then replacing its labels with a clone of the original labels plus the generation label gives exactly TemplateWithGeneration |
| DaemonSetUtil.FaultTolerationsMatching | pkg/controller/daemon/util/daemonset_util.go:41-55 | after both calls, the entries matching each fault toleration are copies of it: as many as matched in the input, and at least one |
| DaemonSetUtil.StampFaultTolerations | pkg/controller/daemon/util/daemonset_util.go:41-55 | every stamped entry matching a fault toleration is that toleration; with at most one such entry in the input, the stamped list has exactly one |
| DaemonSetUtil.StampKeepsOtherTolerationsInOrder | pkg/controller/daemon/util/daemonset_util.go:41-55 | removing the entries matching either fault toleration from the stamped list gives the input list with the same removal, in the same order |
| DaemonSetUtil.FaultTolerationsFixed | pkg/controller/daemon/util/daemonset_util.go:41-55 | running both add-or-update calls again on their own output changes nothing |
| DaemonSetUtil.StampIdempotent | pkg/controller/daemon/util/daemonset_util.go:41-62 | stamping a stamped template again with the same generation yields the same template, labels and tolerations included |
| DaemonSetUtil.IsPodUpdated | pkg/controller/daemon/util/daemonset_util.go:67-71 | a pod without the generation label is never at any generation |
| DaemonSetUtil.IsPodUpdatedAtMostOneGeneration | pkg/controller/daemon/util/daemonset_util.go:69-70 | a pod is at one generation at most |
| DaemonSetUtil.IsPodUpdatedReadsBack | pkg/controller/daemon/util/daemonset_util.go:68-70 | when a pod is at generation g, its label read as a number is g |
| DaemonSetUtil.LeadingZeroIsNotUpdated | pkg/controller/daemon/util/daemonset_util.go:69-70 | the comparison is on strings: for every generation n >= 0, a label holding n's digits behind a leading zero reads back as n, yet the pod is not at generation n |
| DaemonSetUtil.LeadingZeroExample | pkg/controller/daemon/util/daemonset_util.go:69-70 | a label "03" denotes 3, yet a pod carrying it is not at generation 3 |
| DaemonSetUtil.StampedPodIsUpdated | pkg/controller/daemon/util/daemonset_util.go:57-70 | a pod that carries the generation label of a template stamped with g is at generation g and at no other generation |
| DaemonSetUtil.SplitByAvailablePods | pkg/controller/daemon/util/daemonset_util.go:74-85 | the two results are the stable split of the pods by their verdicts; the sizes add up; together they hold each pod as often as the input; each keeps input order; each pod lands on the side its own verdict (clock read at its turn) chose; each side holds only pods sent there; an empty input gives two empty results |
| DaemonSetUtil.AvailabilitySplitIsPartition | pkg/controller/daemon/util/daemonset_util.go:75-84 | the split is an order-preserving partition, and every pod is classified by its own verdict |
| DaemonSetUtil.AvailabilitySplitPlacesEveryPod | pkg/controller/daemon/util/daemonset_util.go:78-82 | a pod judged available is in the available list; otherwise it is in the unavailable list |
| DaemonSetUtil.AvailabilitySplitSidesAreExact | pkg/controller/daemon/util/daemonset_util.go:78-82 | every pod on a side was examined at some position with the verdict that side stands for |
| DaemonSetUtil.StampExample | pkg/controller/daemon/util/daemonset_util.go:34-71 | generation 3 on labels {app: x} with one custom toleration gives labels {app: x, pod-template-generation: "3"} and tolerations [custom, not-ready, unreachable]; a pod labelled "3" is at generation 3, not at 4 or -3 |
| Partition.SelectSizes | pkg/controller/daemon/util/daemonset_util.go:75-84 | the two sides of a split have sizes adding up to the input's |
| Partition.SelectMultiset | pkg/controller/daemon/util/daemonset_util.go:75-84 | the two sides together hold every element exactly as often as the input (no loss, no duplication) |
| Partition.SelectIsSubsequence | pkg/controller/daemon/util/daemonset_util.go:75-84 | each side is a subsequence of the input (relative order kept) |
| Partition.SelectMembers | pkg/controller/daemon/util/daemonset_util.go:78-82 | an element is on side b exactly when some position holding it has verdict b |
| Partition.SelectExtend | pkg/controller/daemon/util/daemonset_util.go:79-81 | examining one more element appends it to its verdict's side and leaves the other side alone |

## Left out

- `api.Scheme.DeepCopy` (line 35) is modelled as value copying. Its discarded error and the type-assertion panic (line 36) are not modelled. Datatype values cannot alias, so the model has no notion of the copy sharing storage with the input.
- `podutil.IsPodAvailable` is the parameter `isPodAvailable`: how it compares ready conditions and transition times with `minReadySeconds` is not part of this model. For the same reason, nothing is proved about monotonicity in `minReadySeconds` or about the zero threshold.
- `metav1.Now()` is the parameter `clock`. `clock(i)` is the instant read when the i-th pod is examined. No relation between readings (such as monotonicity) is assumed.
- `v1helper.AddOrUpdateTolerationInPodSpec` is not part of this model. Its match rule is an assumption stated in `TolerationHelper`. Its (bool, error) results are ignored by the caller, so they are not modelled.
- TolerationHelper.AddOrUpdateUnique: proves "exactly one entry" per matching rule, not per fault key, and only when the input had at most one matching entry. Under the assumed rule, an entry with a fault key but a different operator or effect is kept beside the canonical one. Two input entries that differ only in duration are both replaced, leaving two equal copies.
- DaemonSetUtil.StampFaultTolerations: proves "exactly one entry" per matching rule, not per fault key, and only when the input had at most one entry matching each fault toleration. Under the assumed rule, an input entry with a fault key but another operator or effect (say NoSchedule) is kept beside the canonical entry. Two input entries that differ only in duration are both replaced, leaving two equal copies of the canonical entry. What holds for every input is that each stamped entry matching a fault toleration is that toleration.
- `labelsutil.CloneAndAddLabel` is not part of this model. It is modelled as a copy of the map with the key set, which is all the property at lines 58-62 needs; the key passed here is a non-empty constant.
- Only a few stand-in fields of `ObjectMeta` and `PodSpec` are modelled, enough to state that stamping changes nothing else. Pod identity (`*v1.Pod` pointers) is not modelled: pods are values, and the partition is stated by position and by multiset.
- The Go integer widths are the `Int64` and `Int32` ranges. The helpers do no arithmetic on them, so no wrap-around arises.
