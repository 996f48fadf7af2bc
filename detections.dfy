/** The local detector's output as the decision policy sees it: one sequence of
    boxes per result, each box with a class identifier and a confidence.
    Class 0 is "person". The functions here are the specification of the box
    scan; the scan itself is the method EdgeAgent.ScanResults. */
module Detections {

  /** Class identifier the detector reserves for people. */
  const PersonClass: int := 0

  datatype Box = Box(cls: int, conf: real)

  predicate IsPerson(b: Box) {
    b.cls == PersonClass
  }

  /** Python's built-in max on two numbers: the first unless the second is larger. */
  function Max(a: real, b: real): (m: real)
    ensures m >= a && m >= b && (m == a || m == b)
  {
    if b > a then b else a
  }

  function Last<T>(s: seq<T>): T
    requires s != []
  {
    s[|s| - 1]
  }

  function AllButLast<T>(s: seq<T>): seq<T>
    requires s != []
  {
    s[..|s| - 1]
  }

  /** Every box of every result, results in order and boxes in order within each. */
  function Flatten(results: seq<seq<Box>>): (boxes: seq<Box>)
    ensures forall b :: b in boxes <==> exists i :: 0 <= i < |results| && b in results[i]
    decreases |results|
  {
    if results == [] then []
    else
      var rest := AllButLast(results);
      assert forall i :: 0 <= i < |rest| ==> rest[i] == results[i];
      Flatten(rest) + Last(results)
  }

  /** Whether any box is a person, accumulated one box at a time from the left. */
  function HasPerson(boxes: seq<Box>): (r: bool)
    ensures r <==> exists i :: 0 <= i < |boxes| && IsPerson(boxes[i])
    decreases |boxes|
  {
    if boxes == [] then false
    else
      var rest := AllButLast(boxes);
      assert forall i :: 0 <= i < |rest| ==> rest[i] == boxes[i];
      HasPerson(rest) || IsPerson(Last(boxes))
  }

  /** What the best person confidence means: at least 0.0 and every person
      confidence, and equal to 0.0 or to one of them. */
  ghost predicate IsBestPersonConf(boxes: seq<Box>, m: real) {
    && 0.0 <= m
    && (forall i :: 0 <= i < |boxes| && IsPerson(boxes[i]) ==> boxes[i].conf <= m)
    && (m == 0.0 || exists i :: 0 <= i < |boxes| && IsPerson(boxes[i]) && boxes[i].conf == m)
  }

  /** The scan's best confidence: starts at 0.0 and takes the max with each
      person box's confidence, from the left. */
  function MaxPersonConf(boxes: seq<Box>): (m: real)
    ensures IsBestPersonConf(boxes, m)
    decreases |boxes|
  {
    if boxes == [] then 0.0
    else
      var rest := AllButLast(boxes);
      assert forall i :: 0 <= i < |rest| ==> rest[i] == boxes[i];
      var b := Last(boxes);
      if IsPerson(b) then Max(MaxPersonConf(rest), b.conf) else MaxPersonConf(rest)
  }

  /** IsBestPersonConf pins its value down: there is only one. */
  lemma BestPersonConfUnique(boxes: seq<Box>, m1: real, m2: real)
    requires IsBestPersonConf(boxes, m1) && IsBestPersonConf(boxes, m2)
    ensures m1 == m2
  {
  }

  /** Only which person boxes occur matters to the scan: not their order, not
      how often they repeat, and not the non-person boxes around them. */
  lemma PersonBoxesDecideScan(boxes1: seq<Box>, boxes2: seq<Box>)
    requires forall b :: IsPerson(b) ==> (b in boxes1 <==> b in boxes2)
    ensures HasPerson(boxes1) == HasPerson(boxes2)
    ensures MaxPersonConf(boxes1) == MaxPersonConf(boxes2)
  {
  }
}
