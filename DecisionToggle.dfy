/** The decision-level radio group: the checked value picks the heading and
    the paragraph shown in the decision output. */
module DecisionToggle {

  /** What the output shows: its `h4` heading and its `p` body. */
  datatype Text = Text(heading: string, body: string)

  const OperationalText: Text :=
    Text("Operational Decision", "Dispatch maintenance using the TPS fault alert — immediate action.")
  const ManagerialText: Text :=
    Text("Managerial Decision", "Adjust train frequency using MIS passenger load insights.")
  const StrategicText: Text :=
    Text("Strategic Decision", "Plan 3-year investment in predictive maintenance & automation.")

  /** The text written on `change` when the checked radio's value is `v`;
      any value other than the two named ones falls back to the strategic text. */
  function Describe(v: string): (r: Text)
    ensures r.heading == "Operational Decision" <==> v == "operational"
    ensures r.heading == "Managerial Decision" <==> v == "managerial"
    ensures r.heading == "Strategic Decision" <==> v != "operational" && v != "managerial"
    ensures v == "operational" ==> r == OperationalText
    ensures v == "managerial" ==> r == ManagerialText
    ensures v != "operational" && v != "managerial" ==> r == StrategicText
  {
    if v == "operational" then OperationalText
    else if v == "managerial" then ManagerialText
    else StrategicText
  }

  /** The table is one-to-one: the heading shown determines the body shown. */
  lemma HeadingDeterminesBody(a: string, b: string)
    requires Describe(a).heading == Describe(b).heading
    ensures Describe(a).body == Describe(b).body
  {
  }
}
