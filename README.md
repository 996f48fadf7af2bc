# Edge person detection with a remote fallback

This project models the decision the SkyGuardian edge agent makes for each
camera frame in `detect_with_rekognition_fallback`: it scans the local
detector's boxes for people (class 0), answers locally ("edge") when the best
person confidence reaches the low-confidence threshold (0.7 by default), and
otherwise takes the answer of the remote labelling service ("rekognition").
That answer is "person present" exactly when a returned label is named
`"Person"`, with a fixed confidence of 0.7 or 0.0.

The detector's output and the service's response are inputs:

- the detector's results are a `seq<seq<Box>>`, one sequence of boxes per
  result, each `Box(cls, conf)`;
- the service's response is a `LabelResponse` whose `labels` is `None` when the
  response has no `Labels` key and otherwise the labels in the service's
  order, each with a name and the score the service reported.

"The service is not consulted" is stated as "the result does not depend on
the response".

Files:

- `detections.dfy` (module `Detections`): boxes, and the specification of the
  box scan. `Flatten` gives every box of every result, `HasPerson` says
  whether any box is a person, and `MaxPersonConf` gives the best person
  confidence, starting from 0.0. `IsBestPersonConf` says what that value means.
- `remote_labels.dfy` (module `RemoteLabels`): the service's response, the
  label names taken from it (`LabelNames`) and the exact-match test for
  `"Person"` (`AnyPerson`).
- `edge_agent.dfy` (module `EdgeAgent`): the result type, the fallback
  adapter, the decision as a function (`Policy`), and the imperative scan
  (`ScanResults`, two nested loops that update `personDetected` and
  `bestConf`). `DetectWithRekognitionFallback` is the whole operation, proved
  equal to `Policy`. The file also holds the lemmas about the decision.

## Model

| member | source | states |
|---|---|---|
| `Detections.Max` | jetson/edge_agent.py:27 | Python's `max` of two confidences is at least both and equal to one of them |
| `Detections.Flatten` | jetson/edge_agent.py:21-22 | a box is scanned exactly when it belongs to one of the detector's results |
| `Detections.HasPerson` | jetson/edge_agent.py:18-26 | the person flag ends up true exactly when some box has class 0 |
| `Detections.MaxPersonConf` | jetson/edge_agent.py:19-27 | the best confidence is at least 0.0 and every person confidence, and it equals 0.0 or one of them |
| `Detections.BestPersonConfUnique` | jetson/edge_agent.py:19-27 | that description has exactly one solution, so it fully determines the scan's best confidence |
| `Detections.PersonBoxesDecideScan` | jetson/edge_agent.py:21-27 | two box sequences with the same person boxes give the same flag and best confidence, whatever the order, repetition or non-person boxes |
| `RemoteLabels.LabelNames` | jetson/edge_agent.py:37 | one name per returned label, in the service's order; empty when the response has no `Labels` key |
| `RemoteLabels.AnyPerson` | jetson/edge_agent.py:38 | true exactly when some label name equals `"Person"` exactly |
| `EdgeAgent.Fallback` | jetson/edge_agent.py:37-40 | the fallback result has source "rekognition", carries the label names, reports a person iff `"Person"` is among them, at confidence 0.7 if so and 0.0 otherwise |
| `EdgeAgent.FallbackIgnoresServiceScores` | jetson/edge_agent.py:36-39 | two responses with the same label names give the same fallback result, whatever scores the service reported |
| `EdgeAgent.FallbackPersonExactlyWhen` | jetson/edge_agent.py:37-39 | the fallback reports a person iff the response has labels and one of them is named `"Person"` |
| `EdgeAgent.Policy` | jetson/edge_agent.py:29-40 | an edge result carries a confidence at or above the threshold that is the best person confidence; any other result is the fallback result for the response |
| `EdgeAgent.ScanResults` | jetson/edge_agent.py:18-27 | the nested loops leave the person flag and the best confidence equal to `HasPerson` and `MaxPersonConf` of all boxes of all results |
| `EdgeAgent.DetectWithRekognitionFallback` | jetson/edge_agent.py:14-40 | the scan, the threshold check and the label adapter together return exactly `Policy` of the detector output, threshold and response |
| `EdgeAgent.FlattenPerson` | jetson/edge_agent.py:21-26 | the scan sees a person iff some box of some result has class 0 |
| `EdgeAgent.NoPersonAlwaysFallsBack` | jetson/edge_agent.py:25-33 | with no class-0 box anywhere the result is the fallback result, for every threshold |
| `EdgeAgent.EdgeExactlyWhen` | jetson/edge_agent.py:19-30 | the result is an edge result iff some person box has a confidence at or above the threshold, or a person box exists and the threshold is at most 0.0 |
| `EdgeAgent.ConfidentPersonStaysOnEdge` | jetson/edge_agent.py:29-30 | a person box at or above the threshold gives an edge result with the best person confidence, at least that box's, and the same result for every response |
| `EdgeAgent.ThresholdIsInclusive` | jetson/edge_agent.py:29-30 | when the best person confidence equals the threshold exactly, the result is an edge result at that confidence |
| `EdgeAgent.WeakPersonLooksLikeNoDetection` | jetson/edge_agent.py:29-40 | with person boxes only below a positive threshold the result is the fallback result, identical to that of a frame with no detections |
| `EdgeAgent.PersonBoxesDecide` | jetson/edge_agent.py:21-30 | detector outputs holding the same person boxes give the same result |
| `EdgeAgent.ResultOrderIrrelevant` | jetson/edge_agent.py:21-30 | reordering the detector's results does not change the result |
| `EdgeAgent.BoxOrderIrrelevant` | jetson/edge_agent.py:21-30 | reordering the boxes within each result does not change the result |
| `EdgeAgent.NonPersonBoxIrrelevant` | jetson/edge_agent.py:22-30 | inserting a box of another class anywhere does not change the result |
| `EdgeAgent.ScenarioConfidentPerson` | jetson/edge_agent.py:14-30 | one person box at 0.9 with the default threshold gives an edge result at 0.9, for every response |
| `EdgeAgent.ScenarioWeakPerson` | jetson/edge_agent.py:14-40 | one person box at 0.5 with the default threshold and a `"Person"` label gives a rekognition result with a person at 0.7 and the label names |
| `EdgeAgent.ScenarioEmptyFrame` | jetson/edge_agent.py:14-40 | no detections and labels "Car" and "Tree" give a rekognition result with no person, confidence 0.0 and labels ["Car", "Tree"] |

## Left out

- Loading the YOLO model and running `predict` (jetson/edge_agent.py:8-11, 15-16): a pretrained network in a foreign library. Its output is the `seq<seq<Box>>` input.
- The class cast `int(b.cls[0].item())` and the float conversion of the confidence (jetson/edge_agent.py:23-24): classes are modelled as integers and confidences as reals. Reals agree with the source's floats for `max` and `>=` on every non-NaN value. A NaN confidence is not modelled.
- Building the boto3 client, the `AWS_REGION` lookup, JPEG encoding and the `detect_labels` call (jetson/edge_agent.py:34-36): environment, image encoding and network. The response is an input. The request's label cap (10) and minimum score (70) are applied by the service, so the model does not bound the number of labels.
- Errors raised by the service call or by a malformed response: the source does not handle them, so they are outside the model.
- The informational and log `print`s (jetson/edge_agent.py:33, 56): console output and float formatting.
- `main` (jetson/edge_agent.py:43-57): camera access, sleep-and-retry on read failure, and an endless loop driven by hardware.
- scripts/test_rekognition.py: an argument check, a file read, a network call and a `print` of the raw response, with no decision logic.
- The result dictionary's `"person"` and `"source"` keys are `DetectionResult.PersonPresent` and `DetectionResult.Source`, which have no contracts of their own. An edge result has no `labels` field by construction.
