/** Configuration constants of the classifier: the sample size, the ordered
    label set, the two lookup tables built from it, and the table that sends
    the dataset's raw ticket types to labels. Directory paths and the
    directories created at import time are not part of this model. */
module Config {
  import opened Wrappers

  /** Number of tickets kept by the stratified sample. */
  const SampleSize: nat := 300

  /** The target labels, in the order used for label ids at training time. */
  const Labels: seq<string> := ["Billing", "Technical", "Other"]

  const NumLabels: nat := |Labels|

  /** Raw 'Ticket Type' values that have a label of their own. */
  const TicketTypeMap: map<string, string> :=
    map["Billing inquiry" := "Billing", "Product inquiry" := "Other", "Technical issue" := "Technical"]

  /** `{i: label for i, label in enumerate(labels)}`. */
  function IdToLabel(labels: seq<string>): (m: map<int, string>)
    ensures forall i :: i in m <==> 0 <= i < |labels|
  {
    map i | 0 <= i < |labels| :: labels[i]
  }

  /** `{label: i for i, label in enumerate(labels)}`: entries are added in
      enumeration order, so a repeated label keeps its last position. */
  function LabelToId(labels: seq<string>): (m: map<string, int>)
    ensures forall l :: l in m <==> l in labels
    ensures forall l :: l in m ==> 0 <= m[l] < |labels| && labels[m[l]] == l
    ensures forall l, j :: l in m && m[l] < j < |labels| ==> labels[j] != l
  {
    if labels == [] then map[]
    else
      var init := labels[..|labels| - 1];
      assert forall j :: 0 <= j < |init| ==> labels[j] == init[j];
      LabelToId(init)[labels[|labels| - 1] := |labels| - 1]
  }

  const Id2Label: map<int, string> := IdToLabel(Labels)

  const Label2Id: map<string, int> := LabelToId(Labels)

  /** Looking a label's id up again always gives back the label. */
  lemma LabelRoundTrip(labels: seq<string>)
    ensures forall l :: l in LabelToId(labels) ==>
      LabelToId(labels)[l] in IdToLabel(labels) && IdToLabel(labels)[LabelToId(labels)[l]] == l
  {
  }

  /** Every id maps back to itself exactly when no label is repeated. */
  lemma IdRoundTripIffDistinct(labels: seq<string>)
    ensures (forall i :: i in IdToLabel(labels) ==> LabelToId(labels)[IdToLabel(labels)[i]] == i)
            <==> NoDuplicates(labels)
  {
    var ids, toId := IdToLabel(labels), LabelToId(labels);
    if NoDuplicates(labels) {
      forall i | i in ids ensures toId[ids[i]] == i {
        assert labels[i] in toId;
      }
    } else {
      var i, j :| 0 <= i < j < |labels| && labels[i] == labels[j];
      assert i in ids;
      assert toId[labels[i]] >= j;
    }
  }

  /** The configured tables: three distinct labels, ids 0 to 2, the two maps
      mutually inverse, and every raw ticket type mapped into the label set. */
  lemma ConfiguredTables()
    ensures NumLabels == 3 && NoDuplicates(Labels)
    ensures forall i :: i in Id2Label <==> 0 <= i < NumLabels
    ensures forall l :: l in Label2Id <==> l in Labels
    ensures forall l :: l in Label2Id ==> Label2Id[l] in Id2Label && Id2Label[Label2Id[l]] == l
    ensures forall i :: i in Id2Label ==> Label2Id[Id2Label[i]] == i
    ensures forall t :: t in TicketTypeMap ==> TicketTypeMap[t] in Labels
  {
    LabelRoundTrip(Labels);
    IdRoundTripIffDistinct(Labels);
  }
}
