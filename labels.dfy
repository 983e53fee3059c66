/** labelsutil.CloneAndAddLabel: a fresh label map with one key set. */
module LabelsUtil {

  /**
   * A copy of labels in which key maps to value; the argument map is a value
   * and is left as it was.
   */
  function CloneAndAddLabel(labels: map<string, string>, key: string, value: string): (r: map<string, string>)
    ensures key in r && r[key] == value
    ensures r.Keys == labels.Keys + {key}
    ensures forall k :: k in labels && k != key ==> r[k] == labels[k]
  {
    labels[key := value]
  }
}
