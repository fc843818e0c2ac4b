/**
 * The Korean display labels for ticket status and priority codes, and the
 * two template filters `k_status` / `k_priority` that look a code up with a
 * fallback to the code itself.
 */
module Labels {
  import opened Wrappers

  const StatusLabels: map<string, string> :=
    map["open" := "접수", "prog" := "처리중", "hold" := "보류", "done" := "완료"]

  const PriorityLabels: map<string, string> :=
    map["low" := "낮음", "med" := "보통", "high" := "높음", "crit" := "긴급"]

  /** The (value, label) pairs offered by the status and priority selects. */
  const StatusChoices: seq<(string, string)> :=
    [("open", "접수"), ("prog", "처리중"), ("hold", "보류"), ("done", "완료")]

  const PriorityChoices: seq<(string, string)> :=
    [("low", "낮음"), ("med", "보통"), ("high", "높음"), ("crit", "긴급")]

  /** Python's `v or ""` for an optional string: None and "" both become "". */
  function OrEmpty(v: Option<string>): string
  {
    match v
    case None => ""
    case Some(s) => s
  }

  /** `labels.get(v, v or "")`. */
  function Lookup(labels: map<string, string>, v: Option<string>): (r: string)
    ensures v.Some? && v.value in labels ==> r == labels[v.value]
    ensures v.Some? && v.value !in labels ==> r == v.value
    ensures v.None? ==> r == ""
  {
    if v.Some? && v.value in labels then labels[v.value] else OrEmpty(v)
  }

  /** The `k_status` filter: a known status code shows as its label, any other value as itself, None as "". */
  function KStatus(v: Option<string>): (r: string)
    ensures v.Some? && v.value in StatusLabels ==> r == StatusLabels[v.value]
    ensures v.Some? && v.value !in StatusLabels ==> r == v.value
    ensures v.None? ==> r == ""
  {
    Lookup(StatusLabels, v)
  }

  /** The `k_priority` filter: a known priority code shows as its label, any other value as itself, None as "". */
  function KPriority(v: Option<string>): (r: string)
    ensures v.Some? && v.value in PriorityLabels ==> r == PriorityLabels[v.value]
    ensures v.Some? && v.value !in PriorityLabels ==> r == v.value
    ensures v.None? ==> r == ""
  {
    Lookup(PriorityLabels, v)
  }

  /** No label in either table is empty, and no code is the empty string. */
  ghost predicate LabelsNonEmpty(labels: map<string, string>)
  {
    "" !in labels && forall c :: c in labels ==> labels[c] != ""
  }

  /**
   * The filter's result is empty exactly when the input is None or "",
   * provided no code or label in the table is empty.
   */
  lemma LookupEmptyIff(labels: map<string, string>, v: Option<string>)
    requires LabelsNonEmpty(labels)
    ensures Lookup(labels, v) == "" <==> (v.None? || v.value == "")
  {
    if v.Some? && v.value in labels {
      assert labels[v.value] != "";
    }
  }

  /** `k_status`: a known code shows its label, an unknown code shows itself, None and "" show "". */
  lemma KStatusCases(v: Option<string>)
    ensures v.Some? && v.value in StatusLabels ==> KStatus(v) == StatusLabels[v.value]
    ensures v.Some? && v.value !in StatusLabels ==> KStatus(v) == v.value
    ensures KStatus(v) == "" <==> (v.None? || v.value == "")
  {
    LookupEmptyIff(StatusLabels, v);
  }

  /** `k_priority`: a known code shows its label, an unknown code shows itself, None and "" show "". */
  lemma KPriorityCases(v: Option<string>)
    ensures v.Some? && v.value in PriorityLabels ==> KPriority(v) == PriorityLabels[v.value]
    ensures v.Some? && v.value !in PriorityLabels ==> KPriority(v) == v.value
    ensures KPriority(v) == "" <==> (v.None? || v.value == "")
  {
    LookupEmptyIff(PriorityLabels, v);
  }

  /** The select choices list exactly the codes of the label table, each with the label the filter shows. */
  ghost predicate ChoicesAgree(choices: seq<(string, string)>, labels: map<string, string>)
  {
    && (forall i :: 0 <= i < |choices| ==> choices[i].0 in labels && labels[choices[i].0] == choices[i].1)
    && (forall c :: c in labels ==> exists i :: 0 <= i < |choices| && choices[i].0 == c)
  }

  /** The status and priority selects offer exactly the codes that have labels, and show those labels. */
  lemma ChoicesMatchLabels()
    ensures ChoicesAgree(StatusChoices, StatusLabels)
    ensures ChoicesAgree(PriorityChoices, PriorityLabels)
    ensures forall i :: 0 <= i < |StatusChoices| ==> KStatus(Some(StatusChoices[i].0)) == StatusChoices[i].1
    ensures forall i :: 0 <= i < |PriorityChoices| ==> KPriority(Some(PriorityChoices[i].0)) == PriorityChoices[i].1
  {
    forall c | c in StatusLabels
      ensures exists i :: 0 <= i < |StatusChoices| && StatusChoices[i].0 == c
    {
      if c == "open" { assert StatusChoices[0].0 == c; }
      else if c == "prog" { assert StatusChoices[1].0 == c; }
      else if c == "hold" { assert StatusChoices[2].0 == c; }
      else { assert StatusChoices[3].0 == c; }
    }
    forall c | c in PriorityLabels
      ensures exists i :: 0 <= i < |PriorityChoices| && PriorityChoices[i].0 == c
    {
      if c == "low" { assert PriorityChoices[0].0 == c; }
      else if c == "med" { assert PriorityChoices[1].0 == c; }
      else if c == "high" { assert PriorityChoices[2].0 == c; }
      else { assert PriorityChoices[3].0 == c; }
    }
  }
}
