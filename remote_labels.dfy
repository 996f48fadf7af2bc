/** The adapter over the remote labelling service's response. The request
    itself (image encoding, client construction, the network call) is not
    modelled: the response arrives as a value. */
module RemoteLabels {

  datatype Option<T> = None | Some(value: T)

  /** One returned label: its name and the score the service reported. */
  datatype Label = Label(name: string, confidence: real)

  /** The response dictionary; `labels` is None when it has no "Labels" key. */
  datatype LabelResponse = LabelResponse(labels: Option<seq<Label>>)

  /** The exact label name that counts as a person. */
  const PersonLabel: string := "Person"

  /** The labels' names, in the service's order, one per label; none when the
      response has no "Labels" key. */
  function LabelNames(resp: LabelResponse): (names: seq<string>)
    ensures resp.labels.None? ==> names == []
    ensures resp.labels.Some? ==> |names| == |resp.labels.value|
    ensures resp.labels.Some? ==>
      forall i :: 0 <= i < |names| ==> names[i] == resp.labels.value[i].name
  {
    match resp.labels
    case None => []
    case Some(ls) => seq(|ls|, i requires 0 <= i < |ls| => ls[i].name)
  }

  /** `any(l == 'Person' for l in labels)`, one name at a time from the front. */
  function AnyPerson(names: seq<string>): (r: bool)
    ensures r <==> exists i :: 0 <= i < |names| && names[i] == PersonLabel
    decreases |names|
  {
    if names == [] then false
    else
      assert forall i :: 0 < i < |names| ==> names[i] == names[1..][i - 1];
      names[0] == PersonLabel || AnyPerson(names[1..])
  }
}
