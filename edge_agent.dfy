/** The person-detection decision of the edge agent: scan the local detector's
    boxes, answer locally when a person was seen with enough confidence, and
    otherwise take the remote labelling service's answer. The detector's output
    and the service's response are inputs. */
module EdgeAgent {

  import opened Detections
  import RemoteLabels

  /** Default for the low-confidence threshold. */
  const DefaultThreshold: real := 0.7

  /** The decision handed back to the caller. An edge result always means a
      person is present and carries no labels. */
  datatype DetectionResult =
    | Edge(confidence: real)
    | Rekognition(person: bool, confidence: real, labels: seq<string>)
  {
    function PersonPresent(): bool {
      if Edge? then true else person
    }

    function Source(): string {
      if Edge? then "edge" else "rekognition"
    }
  }

  /** Confidences substituted on the fallback path; the service's own scores
      are not used. */
  const PersonFoundConf: real := 0.7
  const NoPersonConf: real := 0.0

  /** The result of the fallback path for a given service response: the label
      names, whether one of them is exactly "Person", and the fixed confidence
      that goes with that verdict. */
  function Fallback(resp: RemoteLabels.LabelResponse): (v: DetectionResult)
    ensures v.Rekognition?
    ensures v.person <==> RemoteLabels.PersonLabel in v.labels
    ensures v.confidence == (if v.person then PersonFoundConf else NoPersonConf)
    ensures v.labels == RemoteLabels.LabelNames(resp)
  {
    var labels := RemoteLabels.LabelNames(resp);
    var hasPerson := RemoteLabels.AnyPerson(labels);
    Rekognition(hasPerson, if hasPerson then PersonFoundConf else NoPersonConf, labels)
  }

  /** The fallback verdict depends on the label names alone: the scores the
      service reports never reach it. */
  lemma FallbackIgnoresServiceScores(resp1: RemoteLabels.LabelResponse, resp2: RemoteLabels.LabelResponse)
    requires resp1.labels.Some? <==> resp2.labels.Some?
    requires resp1.labels.Some? ==> |resp1.labels.value| == |resp2.labels.value|
    requires resp1.labels.Some? ==>
      forall i :: 0 <= i < |resp1.labels.value| ==> resp1.labels.value[i].name == resp2.labels.value[i].name
    ensures Fallback(resp1) == Fallback(resp2)
  {
  }

  /** The fallback reports a person exactly when some returned label is named
      "Person", whatever that label's reported score, and then always at 0.7. */
  lemma FallbackPersonExactlyWhen(resp: RemoteLabels.LabelResponse)
    ensures Fallback(resp).person <==>
      resp.labels.Some? && exists i :: 0 <= i < |resp.labels.value| && resp.labels.value[i].name == RemoteLabels.PersonLabel
  {
  }

  /** Whether any box of any result is a person. */
  ghost predicate SomePerson(results: seq<seq<Box>>) {
    exists i, k :: 0 <= i < |results| && 0 <= k < |results[i]| && IsPerson(results[i][k])
  }

  /** The decision as a function of the detector output, the threshold and the
      response the service would give if asked. */
  function Policy(results: seq<seq<Box>>, threshold: real, resp: RemoteLabels.LabelResponse): (v: DetectionResult)
    ensures v.Edge? ==> v.confidence >= threshold && IsBestPersonConf(Flatten(results), v.confidence)
    ensures v.Rekognition? ==> v == Fallback(resp)
  {
    var boxes := Flatten(results);
    if HasPerson(boxes) && MaxPersonConf(boxes) >= threshold then Edge(MaxPersonConf(boxes))
    else Fallback(resp)
  }

  /** The box scan: one pass over every box of every result, recording whether
      a person was seen and the best person confidence (starting from 0.0). */
  method ScanResults(results: seq<seq<Box>>) returns (personDetected: bool, bestConf: real)
    ensures personDetected == HasPerson(Flatten(results))
    ensures bestConf == MaxPersonConf(Flatten(results))
  {
    personDetected := false;
    bestConf := 0.0;
    var i := 0;
    while i < |results|
      invariant 0 <= i <= |results|
      invariant personDetected == HasPerson(Flatten(results[..i]))
      invariant bestConf == MaxPersonConf(Flatten(results[..i]))
    {
      ghost var done := Flatten(results[..i]);
      var r := results[i];
      var j := 0;
      assert done + r[..j] == done;
      while j < |r|
        invariant 0 <= j <= |r|
        invariant personDetected == HasPerson(done + r[..j])
        invariant bestConf == MaxPersonConf(done + r[..j])
      {
        var b := r[j];
        if b.cls == PersonClass {
          personDetected := true;
          bestConf := Max(bestConf, b.conf);
        }
        assert AllButLast(done + r[..j + 1]) == done + r[..j];
        j := j + 1;
      }
      assert AllButLast(results[..i + 1]) == results[..i];
      assert r[..j] == r;
      i := i + 1;
    }
    assert results[..i] == results;
  }

  /** detect_with_rekognition_fallback: the scan, the threshold check, and the
      fallback to the service's response. */
  method DetectWithRekognitionFallback(results: seq<seq<Box>>, threshold: real, resp: RemoteLabels.LabelResponse)
    returns (v: DetectionResult)
    ensures v == Policy(results, threshold, resp)
  {
    var personDetected, bestConf := ScanResults(results);
    if personDetected && bestConf >= threshold {
      return Edge(bestConf);
    }
    var labels := RemoteLabels.LabelNames(resp);
    var hasPerson := RemoteLabels.AnyPerson(labels);
    var conf := if hasPerson then PersonFoundConf else NoPersonConf;
    v := Rekognition(hasPerson, conf, labels);
  }

  /** The scan looks at every box of every result. */
  lemma FlattenPerson(results: seq<seq<Box>>)
    ensures HasPerson(Flatten(results)) <==> SomePerson(results)
  {
    var boxes := Flatten(results);
    if HasPerson(boxes) {
      var n :| 0 <= n < |boxes| && IsPerson(boxes[n]);
      assert boxes[n] in boxes;
      var i :| 0 <= i < |results| && boxes[n] in results[i];
      var k :| 0 <= k < |results[i]| && results[i][k] == boxes[n];
    }
    if SomePerson(results) {
      var i, k :| 0 <= i < |results| && 0 <= k < |results[i]| && IsPerson(results[i][k]);
      assert results[i][k] in results[i];
      assert results[i][k] in boxes;
    }
  }

  /** A frame without any person box always goes to the service, whatever the
      threshold. */
  lemma NoPersonAlwaysFallsBack(results: seq<seq<Box>>, threshold: real, resp: RemoteLabels.LabelResponse)
    requires forall i, k :: 0 <= i < |results| && 0 <= k < |results[i]| ==> !IsPerson(results[i][k])
    ensures Policy(results, threshold, resp) == Fallback(resp)
  {
    FlattenPerson(results);
  }

  /** The local answer is taken exactly when some person box reaches the
      threshold, or a person was seen at all and the threshold is at most 0.0
      (the best confidence never drops below its starting value 0.0). */
  lemma EdgeExactlyWhen(results: seq<seq<Box>>, threshold: real, resp: RemoteLabels.LabelResponse)
    ensures Policy(results, threshold, resp).Edge? <==>
      exists i, k :: 0 <= i < |results| && 0 <= k < |results[i]| && IsPerson(results[i][k])
                     && (threshold <= 0.0 || results[i][k].conf >= threshold)
  {
    var boxes := Flatten(results);
    var m := MaxPersonConf(boxes);
    FlattenPerson(results);
    if Policy(results, threshold, resp).Edge? {
      if threshold <= 0.0 {
        var i, k :| 0 <= i < |results| && 0 <= k < |results[i]| && IsPerson(results[i][k]);
      } else {
        var n :| 0 <= n < |boxes| && IsPerson(boxes[n]) && boxes[n].conf == m;
        assert boxes[n] in boxes;
        var i :| 0 <= i < |results| && boxes[n] in results[i];
        var k :| 0 <= k < |results[i]| && results[i][k] == boxes[n];
      }
    }
    if exists i, k :: 0 <= i < |results| && 0 <= k < |results[i]| && IsPerson(results[i][k])
                      && (threshold <= 0.0 || results[i][k].conf >= threshold) {
      var i, k :| 0 <= i < |results| && 0 <= k < |results[i]| && IsPerson(results[i][k])
                  && (threshold <= 0.0 || results[i][k].conf >= threshold);
      assert results[i][k] in results[i];
      assert results[i][k] in boxes;
    }
  }

  /** A person box at or above the threshold gives the edge answer with the
      best person confidence, and the service's response plays no part. */
  lemma ConfidentPersonStaysOnEdge(results: seq<seq<Box>>, threshold: real, resp: RemoteLabels.LabelResponse, i: nat, k: nat)
    requires i < |results| && k < |results[i]|
    requires IsPerson(results[i][k]) && results[i][k].conf >= threshold
    ensures Policy(results, threshold, resp).Edge?
    ensures Policy(results, threshold, resp).confidence >= results[i][k].conf
    ensures IsBestPersonConf(Flatten(results), Policy(results, threshold, resp).confidence)
    ensures forall other :: Policy(results, threshold, other) == Policy(results, threshold, resp)
  {
    EdgeExactlyWhen(results, threshold, resp);
    assert results[i][k] in results[i];
    var boxes := Flatten(results);
    assert results[i][k] in boxes;
    var n :| 0 <= n < |boxes| && boxes[n] == results[i][k];
  }

  /** The threshold is inclusive: a best person confidence exactly at the
      threshold is answered locally, with that confidence. */
  lemma ThresholdIsInclusive(results: seq<seq<Box>>, resp: RemoteLabels.LabelResponse, i: nat, k: nat)
    requires i < |results| && k < |results[i]| && IsPerson(results[i][k])
    requires results[i][k].conf >= 0.0
    requires forall i', k' :: 0 <= i' < |results| && 0 <= k' < |results[i']| && IsPerson(results[i'][k'])
               ==> results[i'][k'].conf <= results[i][k].conf
    ensures Policy(results, results[i][k].conf, resp) == Edge(results[i][k].conf)
  {
    var t := results[i][k].conf;
    ConfidentPersonStaysOnEdge(results, t, resp, i, k);
    var boxes := Flatten(results);
    var m := Policy(results, t, resp).confidence;
    if m != 0.0 {
      var n :| 0 <= n < |boxes| && IsPerson(boxes[n]) && boxes[n].conf == m;
      assert boxes[n] in boxes;
      var i' :| 0 <= i' < |results| && boxes[n] in results[i'];
      var k' :| 0 <= k' < |results[i']| && results[i'][k'] == boxes[n];
    }
  }

  /** A person seen only below a positive threshold still goes to the service,
      and the answer is the one a frame with no detections at all would get:
      nothing of the local confidence survives. */
  lemma WeakPersonLooksLikeNoDetection(results: seq<seq<Box>>, threshold: real, resp: RemoteLabels.LabelResponse)
    requires 0.0 < threshold
    requires forall i, k :: 0 <= i < |results| && 0 <= k < |results[i]| && IsPerson(results[i][k])
               ==> results[i][k].conf < threshold
    ensures Policy(results, threshold, resp) == Policy([], threshold, resp) == Fallback(resp)
  {
    EdgeExactlyWhen(results, threshold, resp);
  }

  /** Only which person boxes occur decides the result: not where they occur,
      in which order, how often, or which other boxes surround them. */
  lemma PersonBoxesDecide(results1: seq<seq<Box>>, results2: seq<seq<Box>>, threshold: real, resp: RemoteLabels.LabelResponse)
    requires forall b :: IsPerson(b) ==>
      ((exists i :: 0 <= i < |results1| && b in results1[i]) <==> (exists j :: 0 <= j < |results2| && b in results2[j]))
    ensures Policy(results1, threshold, resp) == Policy(results2, threshold, resp)
  {
    PersonBoxesDecideScan(Flatten(results1), Flatten(results2));
  }

  /** Reordering the detector's results leaves the result unchanged. */
  lemma ResultOrderIrrelevant(results1: seq<seq<Box>>, results2: seq<seq<Box>>, threshold: real, resp: RemoteLabels.LabelResponse)
    requires multiset(results1) == multiset(results2)
    ensures Policy(results1, threshold, resp) == Policy(results2, threshold, resp)
  {
    forall b | IsPerson(b)
      ensures (exists i :: 0 <= i < |results1| && b in results1[i]) <==> (exists j :: 0 <= j < |results2| && b in results2[j])
    {
      if exists i :: 0 <= i < |results1| && b in results1[i] {
        var i :| 0 <= i < |results1| && b in results1[i];
        assert results1[i] in multiset(results2);
        var j :| 0 <= j < |results2| && results2[j] == results1[i];
      }
      if exists j :: 0 <= j < |results2| && b in results2[j] {
        var j :| 0 <= j < |results2| && b in results2[j];
        assert results2[j] in multiset(results1);
        var i :| 0 <= i < |results1| && results1[i] == results2[j];
      }
    }
    PersonBoxesDecide(results1, results2, threshold, resp);
  }

  /** Reordering the boxes inside each result leaves the result unchanged. */
  lemma BoxOrderIrrelevant(results1: seq<seq<Box>>, results2: seq<seq<Box>>, threshold: real, resp: RemoteLabels.LabelResponse)
    requires |results1| == |results2|
    requires forall i :: 0 <= i < |results1| ==> multiset(results1[i]) == multiset(results2[i])
    ensures Policy(results1, threshold, resp) == Policy(results2, threshold, resp)
  {
    forall b | IsPerson(b)
      ensures (exists i :: 0 <= i < |results1| && b in results1[i]) <==> (exists j :: 0 <= j < |results2| && b in results2[j])
    {
      if exists i :: 0 <= i < |results1| && b in results1[i] {
        var i :| 0 <= i < |results1| && b in results1[i];
        assert b in multiset(results1[i]);
        assert b in results2[i];
      }
      if exists j :: 0 <= j < |results2| && b in results2[j] {
        var j :| 0 <= j < |results2| && b in results2[j];
        assert b in multiset(results2[j]);
        assert b in results1[j];
      }
    }
    PersonBoxesDecide(results1, results2, threshold, resp);
  }

  /** A box of another class, inserted anywhere, leaves the result unchanged. */
  lemma NonPersonBoxIrrelevant(results: seq<seq<Box>>, i: nat, k: nat, b: Box, threshold: real, resp: RemoteLabels.LabelResponse)
    requires i < |results| && k <= |results[i]|
    requires !IsPerson(b)
    ensures Policy(results[i := results[i][..k] + [b] + results[i][k..]], threshold, resp) == Policy(results, threshold, resp)
  {
    var grown := results[i := results[i][..k] + [b] + results[i][k..]];
    assert results[i] == results[i][..k] + results[i][k..];
    forall p | IsPerson(p)
      ensures (exists j :: 0 <= j < |grown| && p in grown[j]) <==> (exists j :: 0 <= j < |results| && p in results[j])
    {
      if exists j :: 0 <= j < |grown| && p in grown[j] {
        var j :| 0 <= j < |grown| && p in grown[j];
        assert p in results[j];
      }
      if exists j :: 0 <= j < |results| && p in results[j] {
        var j :| 0 <= j < |results| && p in results[j];
        assert p in grown[j];
      }
    }
    PersonBoxesDecide(grown, results, threshold, resp);
  }

  /** One person box at 0.9 against the default threshold: an edge answer at 0.9. */
  lemma ScenarioConfidentPerson(resp: RemoteLabels.LabelResponse)
    ensures Policy([[Box(0, 0.9)]], DefaultThreshold, resp) == Edge(0.9)
  {
  }

  /** One person box at 0.5: the service decides, and a "Person" label gives
      a person at the fixed confidence 0.7. */
  lemma ScenarioWeakPerson(resp: RemoteLabels.LabelResponse)
    requires resp.labels.Some?
    requires exists i :: 0 <= i < |resp.labels.value| && resp.labels.value[i].name == "Person"
    ensures Policy([[Box(0, 0.5)]], DefaultThreshold, resp) == Rekognition(true, 0.7, RemoteLabels.LabelNames(resp))
  {
  }

  /** No detections and labels "Car" and "Tree": no person, confidence 0.0,
      the labels passed through. */
  lemma ScenarioEmptyFrame(carScore: real, treeScore: real)
    ensures Policy([], DefaultThreshold,
                   RemoteLabels.LabelResponse(RemoteLabels.Some([RemoteLabels.Label("Car", carScore), RemoteLabels.Label("Tree", treeScore)])))
            == Rekognition(false, 0.0, ["Car", "Tree"])
  {
  }
}
