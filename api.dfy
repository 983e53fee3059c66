/**
 * The parts of the Kubernetes API objects that the DaemonSet helpers read or
 * write: labels and tolerations. A few further fields stand for the rest of
 * the metadata and the pod specification, so that "nothing else changes"
 * can be stated. Go structs are values here, which is why a copy can never
 * share storage with the value it was made from.
 */
module Api {
  import opened Wrappers

  /** An instant of the wall clock (metav1.Time). */
  type Time = int

  /** v1.Toleration; tolerationSeconds None is Go's nil pointer (tolerate for ever). */
  datatype Toleration = Toleration(
    key: string,
    operator: string,
    value: string,
    effect: string,
    tolerationSeconds: Option<int>)

  /** metav1.ObjectMeta; a nil label map is the empty map. */
  datatype ObjectMeta = ObjectMeta(
    name: string,
    labels: map<string, string>,
    annotations: map<string, string>)

  /** v1.PodSpec. */
  datatype PodSpec = PodSpec(
    nodeName: string,
    nodeSelector: map<string, string>,
    tolerations: seq<Toleration>)

  /** v1.PodTemplateSpec. */
  datatype PodTemplateSpec = PodTemplateSpec(objectMeta: ObjectMeta, spec: PodSpec)

  /** v1.Pod; its status is only ever read through the availability predicate. */
  datatype Pod = Pod(objectMeta: ObjectMeta, spec: PodSpec)

  /** v1.TolerationOpExists. */
  const TOLERATION_OP_EXISTS: string := "Exists"

  /** v1.TaintEffectNoExecute. */
  const TAINT_EFFECT_NO_EXECUTE: string := "NoExecute"

  /** algorithm.TaintNodeNotReady. */
  const TAINT_NODE_NOT_READY: string := "node.alpha.kubernetes.io/notReady"

  /** algorithm.TaintNodeUnreachable. */
  const TAINT_NODE_UNREACHABLE: string := "node.alpha.kubernetes.io/unreachable"

  /** extensions.DaemonSetTemplateGenerationKey, shared by the stamper and the comparator. */
  const DAEMON_SET_TEMPLATE_GENERATION_KEY: string := "pod-template-generation"
}
