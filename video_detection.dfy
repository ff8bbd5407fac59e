/** The detection hook: it turns per-tick classifier output into integrity
    events. Each tick reads the face and object classifiers, updates the
    detector's live state (two hysteresis timers with 0 as the "no open span"
    value) and hands zero or more events to the session's sink. A one-slot
    interval handle drives the ticks.

    `Step` states what one tick computes; `Detector.RunDetection` is the
    tick as the hook performs it, field by field, and is proved to agree
    with `Step`. */
module VideoDetection {
  import opened Js
  import opened ProctoringTypes

  /** An absence must last strictly longer than this to be reported (ms). */
  const AbsenceThresholdMs: int := 10000
  /** A focus-lost span must last strictly longer than this to be reported (ms). */
  const FocusThresholdMs: int := 5000
  /** An object is reported when its score is strictly above this. */
  const ObjectScoreThreshold: real := 0.5

  /** The object-detector labels the hook keeps; all others are dropped. */
  const TrackedLabels: seq<string> := ["cell phone", "book", "laptop", "tv", "remote", "keyboard"]

  /** One object prediction: its class label and its score in [0, 1]. */
  datatype Prediction = Prediction(objectClass: string, score: real)

  /** One face prediction. The eye/nose landmark geometry is reduced to the
      outcome of the centring test it feeds. */
  datatype Face = Face(hasLandmarks: bool, eyesCentred: bool)

  /** The outcome of one asynchronous classifier call: no model or no video
      element, a thrown error, or a list of predictions. */
  datatype Inference<T> = Unavailable | Threw | Returned(items: seq<T>)

  /** Face detection fails open: a missing model or a thrown error reads as "no faces". */
  function DetectFaces(r: Inference<Face>): seq<Face>
  {
    if r.Returned? then r.items else []
  }

  /** The label whitelist of the object detector. */
  function TrackedOnly(ps: seq<Prediction>): (r: seq<Prediction>)
    ensures forall i :: 0 <= i < |r| ==> r[i].objectClass in TrackedLabels
    ensures forall p: Prediction :: p.objectClass in TrackedLabels ==> multiset(r)[p] == multiset(ps)[p]
  {
    if ps == [] then []
    else
      assert ps == [ps[0]] + ps[1..];
      (if ps[0].objectClass in TrackedLabels then [ps[0]] else []) + TrackedOnly(ps[1..])
  }

  /** Object detection fails open like face detection, and keeps only tracked labels. */
  function DetectObjects(r: Inference<Prediction>): seq<Prediction>
  {
    if r.Returned? then TrackedOnly(r.items) else []
  }

  /** Both classifiers fail open: without a model or a video element, or
      when the call throws, they read as "nothing detected". A face result
      is passed on whole; an object result keeps exactly its tracked
      predictions, each as often as it was returned. */
  lemma ClassifiersFailOpen(faceResult: Inference<Face>, objectResult: Inference<Prediction>)
    ensures !faceResult.Returned? ==> DetectFaces(faceResult) == []
    ensures faceResult.Returned? ==> DetectFaces(faceResult) == faceResult.items
    ensures !objectResult.Returned? ==> DetectObjects(objectResult) == []
    ensures objectResult.Returned? ==>
      && (forall i :: 0 <= i < |DetectObjects(objectResult)| ==> DetectObjects(objectResult)[i].objectClass in TrackedLabels)
      && forall p: Prediction :: p.objectClass in TrackedLabels ==>
           multiset(DetectObjects(objectResult))[p] == multiset(objectResult.items)[p]
  {
  }

  /** The whitelist keeps the input order: filtering a concatenation is
      concatenating the filtered parts. */
  lemma {:induction false} TrackedOnlyKeepsOrder(a: seq<Prediction>, b: seq<Prediction>)
    ensures TrackedOnly(a + b) == TrackedOnly(a) + TrackedOnly(b)
  {
    if a == [] {
      assert a + b == b;
    } else {
      assert (a + b)[0] == a[0];
      assert (a + b)[1..] == a[1..] + b;
      TrackedOnlyKeepsOrder(a[1..], b);
    }
  }

  /** The focus test outside its geometry: no faces means unfocused, a face
      without landmarks counts as focused, otherwise the centring test decides. */
  function AnalyzeFocus(faces: seq<Face>): bool
  {
    if |faces| == 0 then false
    else if !faces[0].hasLandmarks then true
    else faces[0].eyesCentred
  }

  /** Only the first face is examined: no faces is never focused, a first
      face without landmarks always is, and otherwise its centring decides;
      further faces never change the answer. */
  lemma AnalyzeFocusCases(faces: seq<Face>)
    ensures |faces| == 0 ==> !AnalyzeFocus(faces)
    ensures |faces| > 0 ==> AnalyzeFocus(faces) == AnalyzeFocus([faces[0]])
    ensures |faces| > 0 ==> (AnalyzeFocus(faces) <==> !faces[0].hasLandmarks || faces[0].eyesCentred)
  {
  }

  /** The state the hook starts with, at clock reading `now`. */
  function InitialState(now: nat): DetectionState
  {
    DetectionState(false, true, 0, [], now, now, 0, 0)
  }

  /** The hook's invariant on the span sentinels: an open absence span means
      the last tick saw no face, an open focus-lost span means it was not focused. */
  predicate SpanSentinels(s: DetectionState)
  {
    && (s.absentStart != 0 ==> !s.isFacePresent)
    && (s.focusLostStart != 0 ==> !s.isFocused)
  }

  // Event construction

  function AbsenceEvent(start: nat, now: nat, id: string): DetectionEvent
  {
    var duration := now - start;
    DetectionEvent(id, FaceAbsent, start, Some(duration), None,
      AbsentFor(Round(duration as real / 1000.0)))
  }

  function FocusLostEvent(start: nat, now: nat, id: string): DetectionEvent
  {
    var duration := now - start;
    DetectionEvent(id, FocusLost, start, Some(duration), None,
      LostFocusFor(Round(duration as real / 1000.0)))
  }

  function MultipleFacesEvent(count: nat, now: nat, id: string): DetectionEvent
  {
    DetectionEvent(id, MultipleFaces, now, None, None, FacesInFrame(count))
  }

  /** `cell phone` and `book` have their own tags; every other label is a device. */
  function ObjectEventType(objectClass: string): EventType
  {
    if objectClass == "cell phone" then PhoneDetected
    else if objectClass == "book" then BookDetected
    else DeviceDetected
  }

  function ObjectEvent(p: Prediction, now: nat, id: string): DetectionEvent
  {
    DetectionEvent(id, ObjectEventType(p.objectClass), now, None, Some(p.score),
      SeenWithConfidence(p.objectClass, Round(p.score * 100.0)))
  }

  predicate IsObjectType(t: EventType)
  {
    t == PhoneDetected || t == BookDetected || t == DeviceDetected
  }

  // One tick, as a function

  /** The events the objects of one tick raise, in input order. */
  function ObjectEvents(objects: seq<Prediction>, now: nat, id: string): seq<DetectionEvent>
  {
    if objects == [] then []
    else
      var last := objects[|objects| - 1];
      ObjectEvents(objects[..|objects| - 1], now, id)
        + (if last.score > ObjectScoreThreshold then [ObjectEvent(last, now, id)] else [])
  }

  /** The objects of one tick whose score clears the threshold, in input order. */
  function Confident(objects: seq<Prediction>): seq<Prediction>
  {
    if objects == [] then []
    else
      var last := objects[|objects| - 1];
      Confident(objects[..|objects| - 1]) + (if last.score > ObjectScoreThreshold then [last] else [])
  }

  function Labels(objects: seq<Prediction>): seq<string>
  {
    seq(|objects|, i requires 0 <= i < |objects| => objects[i].objectClass)
  }

  datatype StepResult = StepResult(next: DetectionState, events: seq<DetectionEvent>)

  /** A face-present tick closes any open absence span; a faceless tick opens
      one unless one is already open. */
  function NextAbsentStart(prev: DetectionState, present: bool, now: nat): nat
  {
    if present then 0 else if prev.absentStart == 0 then now else prev.absentStart
  }

  /** A focused tick closes any open focus-lost span; a present but unfocused
      tick opens one unless one is open; a faceless tick leaves it alone. */
  function NextFocusLostStart(prev: DetectionState, present: bool, focused: bool, now: nat): nat
  {
    if focused then 0
    else if present && prev.focusLostStart == 0 then now
    else prev.focusLostStart
  }

  function AbsenceEvents(prev: DetectionState, present: bool, now: nat, id: string): seq<DetectionEvent>
  {
    if present && prev.absentStart > 0 && now - prev.absentStart > AbsenceThresholdMs
    then [AbsenceEvent(prev.absentStart, now, id)] else []
  }

  function FocusEvents(prev: DetectionState, focused: bool, now: nat, id: string): seq<DetectionEvent>
  {
    if focused && prev.focusLostStart > 0 && now - prev.focusLostStart > FocusThresholdMs
    then [FocusLostEvent(prev.focusLostStart, now, id)] else []
  }

  function MultipleFacesEvents(count: nat, now: nat, id: string): seq<DetectionEvent>
  {
    if count > 1 then [MultipleFacesEvent(count, now, id)] else []
  }

  /** One tick: the new state and the events, in emission order (absence,
      focus, several faces, then one per confident object). */
  function Step(prev: DetectionState, faces: seq<Face>, objects: seq<Prediction>, now: nat, id: string): StepResult
  {
    var present := |faces| > 0;
    var focused := present && AnalyzeFocus(faces);
    StepResult(
      DetectionState(
        present, focused, |faces|, Labels(objects),
        if present then now else prev.lastFaceTime,
        if focused then now else prev.lastFocusTime,
        NextFocusLostStart(prev, present, focused, now),
        NextAbsentStart(prev, present, now)),
      AbsenceEvents(prev, present, now, id) + FocusEvents(prev, focused, now, id)
        + MultipleFacesEvents(|faces|, now, id) + ObjectEvents(objects, now, id))
  }

  // Properties of one tick

  /** Object events are exactly the confident objects, each turned into its
      event stamped `now`, in input order; they never carry a span tag. */
  lemma {:induction false} ObjectEventsAreConfidentObjects(objects: seq<Prediction>, now: nat, id: string)
    ensures |ObjectEvents(objects, now, id)| == |Confident(objects)|
    ensures forall i :: 0 <= i < |Confident(objects)| ==>
      ObjectEvents(objects, now, id)[i] == ObjectEvent(Confident(objects)[i], now, id)
    ensures forall i :: 0 <= i < |ObjectEvents(objects, now, id)| ==>
      IsObjectType(ObjectEvents(objects, now, id)[i].eventType) && ObjectEvents(objects, now, id)[i].timestamp == now
  {
    if objects != [] {
      ObjectEventsAreConfidentObjects(objects[..|objects| - 1], now, id);
    }
  }

  /** Each confident object is a confident input object, and every input
      object above the threshold appears. */
  lemma {:induction false} ConfidentIsFilter(objects: seq<Prediction>)
    ensures forall i :: 0 <= i < |Confident(objects)| ==> Confident(objects)[i].score > ObjectScoreThreshold
    ensures forall p: Prediction :: p.score > ObjectScoreThreshold ==> multiset(Confident(objects))[p] == multiset(objects)[p]
  {
    if objects != [] {
      var init := objects[..|objects| - 1];
      ConfidentIsFilter(init);
      assert objects == init + [objects[|objects| - 1]];
    }
  }

  /** The score filter keeps the input order: filtering a concatenation is
      concatenating the filtered parts. */
  lemma {:induction false} ConfidentKeepsOrder(a: seq<Prediction>, b: seq<Prediction>)
    ensures Confident(a + b) == Confident(a) + Confident(b)
    decreases |b|
  {
    if b == [] {
      assert a + b == a;
    } else {
      var init := b[..|b| - 1];
      assert (a + b)[..|a + b| - 1] == a + init;
      assert (a + b)[|a + b| - 1] == b[|b| - 1];
      ConfidentKeepsOrder(a, init);
    }
  }

  /** The object events come last in a tick, after every absence, focus and
      crowd event, and nothing before them carries an object tag. */
  lemma ObjectEventsComeLast(prev: DetectionState, faces: seq<Face>, objects: seq<Prediction>, now: nat, id: string)
    ensures var r := Step(prev, faces, objects, now, id);
      var o := ObjectEvents(objects, now, id);
      var k := |r.events| - |o|;
      && 0 <= k <= 3
      && r.events[k..] == o
      && forall i :: 0 <= i < k ==> !IsObjectType(r.events[i].eventType)
  {
    var present := |faces| > 0;
    var focused := present && AnalyzeFocus(faces);
    var spans := SpanEventsHaveNoObjectTag(prev, present, focused, |faces|, now, id);
    var o := ObjectEvents(objects, now, id);
    var events := Step(prev, faces, objects, now, id).events;
    assert events == spans + o;
    assert events[|spans|..] == o;
  }

  lemma SpanEventsHaveNoObjectTag(prev: DetectionState, present: bool, focused: bool, count: nat, now: nat, id: string)
    returns (spans: seq<DetectionEvent>)
    ensures spans == AbsenceEvents(prev, present, now, id) + FocusEvents(prev, focused, now, id)
      + MultipleFacesEvents(count, now, id)
    ensures |spans| <= 3 && forall i :: 0 <= i < |spans| ==> !IsObjectType(spans[i].eventType)
  {
    spans := AbsenceEvents(prev, present, now, id) + FocusEvents(prev, focused, now, id)
      + MultipleFacesEvents(count, now, id);
  }

  lemma ObjectEventsHaveNoSpanTag(objects: seq<Prediction>, now: nat, id: string, t: EventType)
    requires !IsObjectType(t)
    ensures CountOf(ObjectEvents(objects, now, id), t) == 0
  {
    ObjectEventsAreConfidentObjects(objects, now, id);
    CountPositiveIff(ObjectEvents(objects, now, id), t);
  }

  /** The number of events of tag `t` in one tick, per part of the tick. */
  lemma StepCount(prev: DetectionState, faces: seq<Face>, objects: seq<Prediction>, now: nat, id: string, t: EventType)
    ensures var present := |faces| > 0;
      var focused := present && AnalyzeFocus(faces);
      CountOf(Step(prev, faces, objects, now, id).events, t)
      == CountOf(AbsenceEvents(prev, present, now, id), t) + CountOf(FocusEvents(prev, focused, now, id), t)
       + CountOf(MultipleFacesEvents(|faces|, now, id), t) + CountOf(ObjectEvents(objects, now, id), t)
  {
    var present := |faces| > 0;
    var focused := present && AnalyzeFocus(faces);
    var a := AbsenceEvents(prev, present, now, id);
    var f := FocusEvents(prev, focused, now, id);
    var m := MultipleFacesEvents(|faces|, now, id);
    var o := ObjectEvents(objects, now, id);
    CountOfAppend(a, f, t);
    CountOfAppend(a + f, m, t);
    CountOfAppend(a + f + m, o, t);
  }

  /** A face-present tick with an open absence span reports `face_absent`
      exactly when the span lasted strictly longer than 10 s, stamped with the
      span's start and carrying its length, and it closes the span either way.
      No other tick reports an absence. */
  lemma AbsenceReportedIff(prev: DetectionState, faces: seq<Face>, objects: seq<Prediction>, now: nat, id: string)
    ensures var r := Step(prev, faces, objects, now, id);
      && (CountOf(r.events, FaceAbsent) == 1 <==>
           |faces| > 0 && prev.absentStart > 0 && now - prev.absentStart > AbsenceThresholdMs)
      && CountOf(r.events, FaceAbsent) <= 1
      && (CountOf(r.events, FaceAbsent) == 1 ==>
           r.events[0].eventType == FaceAbsent && r.events[0].timestamp == prev.absentStart
           && r.events[0].duration == Some(now - prev.absentStart))
      && (|faces| > 0 ==> r.next.absentStart == 0)
  {
    var present := |faces| > 0;
    var focused := present && AnalyzeFocus(faces);
    var a := AbsenceEvents(prev, present, now, id);
    var f := FocusEvents(prev, focused, now, id);
    var m := MultipleFacesEvents(|faces|, now, id);
    var o := ObjectEvents(objects, now, id);
    StepCount(prev, faces, objects, now, id, FaceAbsent);
    ObjectEventsHaveNoSpanTag(objects, now, id, FaceAbsent);
    assert CountOf(f, FaceAbsent) == 0 && CountOf(m, FaceAbsent) == 0;
    var events := Step(prev, faces, objects, now, id).events;
    assert events == a + f + m + o;
    if a != [] {
      assert events[0] == a[0];
    }
  }

  /** A faceless tick opens an absence span at `now` only when none is open,
      keeps the start of an ongoing one, never counts as focused, leaves an
      open focus-lost span untouched and reports no span event. */
  lemma FacelessTick(prev: DetectionState, objects: seq<Prediction>, now: nat, id: string)
    ensures var r := Step(prev, [], objects, now, id);
      && r.next.absentStart == (if prev.absentStart == 0 then now else prev.absentStart)
      && !r.next.isFacePresent && !r.next.isFocused
      && r.next.focusLostStart == prev.focusLostStart
      && CountOf(r.events, FaceAbsent) == 0 && CountOf(r.events, FocusLost) == 0
  {
    StepCount(prev, [], objects, now, id, FaceAbsent);
    StepCount(prev, [], objects, now, id, FocusLost);
    ObjectEventsHaveNoSpanTag(objects, now, id, FaceAbsent);
    ObjectEventsHaveNoSpanTag(objects, now, id, FocusLost);
  }

  /** A focused tick with an open focus-lost span reports `focus_lost`
      exactly when the span lasted strictly longer than 5 s, stamped with the
      span's start and carrying its length. No other tick reports a focus loss. */
  lemma FocusLostReportedIff(prev: DetectionState, faces: seq<Face>, objects: seq<Prediction>, now: nat, id: string)
    ensures var r := Step(prev, faces, objects, now, id);
      && (CountOf(r.events, FocusLost) == 1 <==>
           r.next.isFocused && prev.focusLostStart > 0 && now - prev.focusLostStart > FocusThresholdMs)
      && CountOf(r.events, FocusLost) <= 1
      && (CountOf(r.events, FocusLost) == 1 ==>
           exists i :: 0 <= i < |r.events| && r.events[i] == FocusLostEvent(prev.focusLostStart, now, id))
  {
    var present := |faces| > 0;
    var focused := present && AnalyzeFocus(faces);
    var a := AbsenceEvents(prev, present, now, id);
    var f := FocusEvents(prev, focused, now, id);
    var m := MultipleFacesEvents(|faces|, now, id);
    var o := ObjectEvents(objects, now, id);
    StepCount(prev, faces, objects, now, id, FocusLost);
    ObjectEventsHaveNoSpanTag(objects, now, id, FocusLost);
    assert CountOf(a, FocusLost) == 0 && CountOf(m, FocusLost) == 0;
    var events := Step(prev, faces, objects, now, id).events;
    assert events == a + f + m + o;
    if f != [] {
      assert events[|a|] == f[0];
    }
  }

  /** A focused tick closes any open focus-lost span; a span opens, at `now`,
      exactly on a face-present, unfocused tick with no span open. */
  lemma FocusSpanTransitions(prev: DetectionState, faces: seq<Face>, objects: seq<Prediction>, now: nat, id: string)
    ensures var next := Step(prev, faces, objects, now, id).next;
      && (next.isFocused ==> next.focusLostStart == 0)
      && (prev.focusLostStart == 0 && next.focusLostStart != 0 ==>
           |faces| > 0 && !next.isFocused && next.focusLostStart == now)
      && (prev.focusLostStart != 0 && !next.isFocused ==> next.focusLostStart == prev.focusLostStart)
      && (|faces| > 0 && !next.isFocused && prev.focusLostStart == 0 ==> next.focusLostStart == now)
  {
  }

  /** Every tick that sees more than one face reports exactly one
      `multiple_faces` event stamped `now`; other ticks report none. */
  lemma MultipleFacesEveryTick(prev: DetectionState, faces: seq<Face>, objects: seq<Prediction>, now: nat, id: string)
    ensures var r := Step(prev, faces, objects, now, id);
      && CountOf(r.events, MultipleFaces) == (if |faces| > 1 then 1 else 0)
      && CrowdStampedAt(r.events, now)
  {
    var present := |faces| > 0;
    var focused := present && AnalyzeFocus(faces);
    var a := AbsenceEvents(prev, present, now, id);
    var f := FocusEvents(prev, focused, now, id);
    var m := MultipleFacesEvents(|faces|, now, id);
    var o := ObjectEvents(objects, now, id);
    StepCount(prev, faces, objects, now, id, MultipleFaces);
    ObjectEventsHaveNoSpanTag(objects, now, id, MultipleFaces);
    ObjectEventsAreConfidentObjects(objects, now, id);
    assert CountOf(a, MultipleFaces) == 0 && CountOf(f, MultipleFaces) == 0;
    assert CrowdStampedAt(a, now) && CrowdStampedAt(f, now) && CrowdStampedAt(m, now) && CrowdStampedAt(o, now);
    CrowdStampedAtAppend(a, f, now);
    CrowdStampedAtAppend(a + f, m, now);
    CrowdStampedAtAppend(a + f + m, o, now);
    assert Step(prev, faces, objects, now, id).events == a + f + m + o;
  }

  /** Every `multiple_faces` event of the log is stamped `now`. */
  predicate CrowdStampedAt(es: seq<DetectionEvent>, now: nat)
  {
    forall i :: 0 <= i < |es| && es[i].eventType == MultipleFaces ==> es[i].timestamp == now
  }

  lemma CrowdStampedAtAppend(a: seq<DetectionEvent>, b: seq<DetectionEvent>, now: nat)
    requires CrowdStampedAt(a, now) && CrowdStampedAt(b, now)
    ensures CrowdStampedAt(a + b, now)
  {
    forall i | 0 <= i < |a + b| && (a + b)[i].eventType == MultipleFaces ensures (a + b)[i].timestamp == now {
      if i >= |a| { assert (a + b)[i] == b[i - |a|]; }
    }
  }

  /** The live display fields after a tick: presence, face count, focus only
      with a face, and every returned label, low-score ones included. */
  lemma StepDisplayFields(prev: DetectionState, faces: seq<Face>, objects: seq<Prediction>, now: nat, id: string)
    ensures var s := Step(prev, faces, objects, now, id).next;
      && (s.isFacePresent <==> |faces| > 0)
      && s.faceCount == |faces|
      && (s.isFocused ==> s.isFacePresent)
      && s.isFocused == (|faces| > 0 && AnalyzeFocus(faces))
      && |s.detectedObjects| == |objects|
      && forall i :: 0 <= i < |objects| ==> s.detectedObjects[i] == objects[i].objectClass
  {
  }

  /** Whatever the previous state, a tick leaves the span sentinels consistent. */
  lemma StepEstablishesSentinels(prev: DetectionState, faces: seq<Face>, objects: seq<Prediction>, now: nat, id: string)
    ensures SpanSentinels(Step(prev, faces, objects, now, id).next)
  {
  }

  /** An absence of exactly 10 000 ms is not reported; one of 10 001 ms is,
      with that duration. */
  lemma AbsenceThresholdIsStrict(prev: DetectionState, face: Face, id: string)
    requires prev.absentStart > 0
    ensures CountOf(Step(prev, [face], [], prev.absentStart + 10000, id).events, FaceAbsent) == 0
    ensures Step(prev, [face], [], prev.absentStart + 10001, id).events[0].duration == Some(10001)
  {
    AbsenceReportedIff(prev, [face], [], prev.absentStart + 10000, id);
    AbsenceReportedIff(prev, [face], [], prev.absentStart + 10001, id);
  }

  /** A focus-lost span keeps running through an absence: looking away at 1 s,
      leaving the frame at 2 s and coming back focused at 20 s reports both
      the absence (18 s) and a focus loss of 19 s that covers it. */
  lemma FocusSpanStraddlesAbsence(id: string)
    ensures var s1 := Step(InitialState(0), [Face(true, false)], [], 1000, id).next;
      var s2 := Step(s1, [], [], 2000, id).next;
      var r3 := Step(s2, [Face(true, true)], [], 20000, id);
      && s2.focusLostStart == 1000 && !s2.isFacePresent
      && r3.events == [AbsenceEvent(2000, 20000, id), FocusLostEvent(1000, 20000, id)]
  {
  }

  // Several ticks

  datatype TickInput = TickInput(faces: seq<Face>, objects: seq<Prediction>, now: nat, id: string)

  /** A run of ticks from state `s`: the final state and every event, in order. */
  function Run(s: DetectionState, ticks: seq<TickInput>): StepResult
    decreases |ticks|
  {
    if ticks == [] then StepResult(s, [])
    else
      var t := ticks[0];
      var first := Step(s, t.faces, t.objects, t.now, t.id);
      var rest := Run(first.next, ticks[1..]);
      StepResult(rest.next, first.events + rest.events)
  }

  function CrowdedTicks(ticks: seq<TickInput>): nat
  {
    if ticks == [] then 0 else (if |ticks[0].faces| > 1 then 1 else 0) + CrowdedTicks(ticks[1..])
  }

  /** There is no debouncing: k ticks with several faces give k
      `multiple_faces` events. */
  lemma {:induction false} MultipleFacesPerCrowdedTick(s: DetectionState, ticks: seq<TickInput>)
    ensures CountOf(Run(s, ticks).events, MultipleFaces) == CrowdedTicks(ticks)
    decreases |ticks|
  {
    if ticks != [] {
      var t := ticks[0];
      var first := Step(s, t.faces, t.objects, t.now, t.id);
      MultipleFacesEveryTick(s, t.faces, t.objects, t.now, t.id);
      MultipleFacesPerCrowdedTick(first.next, ticks[1..]);
      CountOfAppend(first.events, Run(first.next, ticks[1..]).events, MultipleFaces);
    }
  }

  /** Every duration a log carries is positive. */
  predicate DurationsPositive(es: seq<DetectionEvent>)
  {
    forall i :: 0 <= i < |es| && es[i].duration.Some? ==> es[i].duration.value > 0
  }

  /** Only the span events carry a duration, and it is positive. */
  predicate SpanDurationsOnly(es: seq<DetectionEvent>)
  {
    forall i :: 0 <= i < |es| && es[i].duration.Some? ==>
      es[i].duration.value > 0 && (es[i].eventType == FaceAbsent || es[i].eventType == FocusLost)
  }

  lemma SpanDurationsOnlyAppend(a: seq<DetectionEvent>, b: seq<DetectionEvent>)
    requires SpanDurationsOnly(a) && SpanDurationsOnly(b)
    ensures SpanDurationsOnly(a + b)
  {
    forall i | 0 <= i < |a + b| && (a + b)[i].duration.Some?
      ensures (a + b)[i].duration.value > 0 && ((a + b)[i].eventType == FaceAbsent || (a + b)[i].eventType == FocusLost)
    {
      if i >= |a| { assert (a + b)[i] == b[i - |a|]; }
    }
  }

  /** Only span events carry a duration, and it is positive. */
  lemma StepDurationsPositive(prev: DetectionState, faces: seq<Face>, objects: seq<Prediction>, now: nat, id: string)
    ensures var es := Step(prev, faces, objects, now, id).events;
      && DurationsPositive(es)
      && forall i :: 0 <= i < |es| && es[i].duration.Some? ==> es[i].eventType == FaceAbsent || es[i].eventType == FocusLost
  {
    var present := |faces| > 0;
    var focused := present && AnalyzeFocus(faces);
    var a := AbsenceEvents(prev, present, now, id);
    var f := FocusEvents(prev, focused, now, id);
    var m := MultipleFacesEvents(|faces|, now, id);
    var o := ObjectEvents(objects, now, id);
    ObjectEventsAreConfidentObjects(objects, now, id);
    assert SpanDurationsOnly(a);
    assert SpanDurationsOnly(f);
    assert SpanDurationsOnly(m);
    assert SpanDurationsOnly(o) by {
      forall i | 0 <= i < |o| ensures o[i].duration.None? {
        assert o[i] == ObjectEvent(Confident(objects)[i], now, id);
      }
    }
    SpanDurationsOnlyAppend(a, f);
    SpanDurationsOnlyAppend(a + f, m);
    SpanDurationsOnlyAppend(a + f + m, o);
    assert Step(prev, faces, objects, now, id).events == a + f + m + o;
  }

  /** Every event a run of ticks produces has no duration or a positive one. */
  lemma {:induction false} RunDurationsPositive(s: DetectionState, ticks: seq<TickInput>)
    ensures DurationsPositive(Run(s, ticks).events)
    decreases |ticks|
  {
    if ticks != [] {
      var t := ticks[0];
      var first := Step(s, t.faces, t.objects, t.now, t.id).events;
      var rest := Run(Step(s, t.faces, t.objects, t.now, t.id).next, ticks[1..]).events;
      StepDurationsPositive(s, t.faces, t.objects, t.now, t.id);
      RunDurationsPositive(Step(s, t.faces, t.objects, t.now, t.id).next, ticks[1..]);
      assert Run(s, ticks).events == first + rest;
      DurationsPositiveAppend(first, rest);
    }
  }

  lemma DurationsPositiveAppend(a: seq<DetectionEvent>, b: seq<DetectionEvent>)
    requires DurationsPositive(a) && DurationsPositive(b)
    ensures DurationsPositive(a + b)
  {
    forall i | 0 <= i < |a + b| && (a + b)[i].duration.Some? ensures (a + b)[i].duration.value > 0 {
      if i >= |a| { assert (a + b)[i] == b[i - |a|]; }
    }
  }

  /** The `forEach` over one tick's objects: one event per object whose
      score clears the threshold, in input order. */
  method EmitObjectEvents(objects: seq<Prediction>, now: nat, id: string) returns (emitted: seq<DetectionEvent>)
    ensures emitted == ObjectEvents(objects, now, id)
  {
    emitted := [];
    for i := 0 to |objects|
      invariant emitted == ObjectEvents(objects[..i], now, id)
    {
      var obj := objects[i];
      assert objects[..i + 1][..i] == objects[..i];
      if obj.score > ObjectScoreThreshold {
        emitted := emitted + [ObjectEvent(obj, now, id)];
      }
    }
    assert objects[..|objects|] == objects;
  }

  /** The state updater of one tick: from the previous state and the
      classifier output to the new state, reporting events to the sink in
      emission order. */
  method UpdateState(prevState: DetectionState, faces: seq<Face>, objects: seq<Prediction>, now: nat, id: string)
    returns (newState: DetectionState, emitted: seq<DetectionEvent>)
    ensures newState == Step(prevState, faces, objects, now, id).next
    ensures emitted == Step(prevState, faces, objects, now, id).events
  {
    newState := prevState;
    emitted := [];
    var isFacePresent := |faces| > 0;
    newState := newState.(isFacePresent := isFacePresent, faceCount := |faces|);
    if isFacePresent {
      newState := newState.(lastFaceTime := now);
      if prevState.absentStart > 0 {
        var duration := now - prevState.absentStart;
        if duration > AbsenceThresholdMs {
          emitted := emitted + [AbsenceEvent(prevState.absentStart, now, id)];
        }
        newState := newState.(absentStart := 0);
      }
    } else if prevState.absentStart == 0 {
      newState := newState.(absentStart := now);
    }
    assert newState.absentStart == NextAbsentStart(prevState, isFacePresent, now);
    assert emitted == AbsenceEvents(prevState, isFacePresent, now, id);
    ghost var afterAbsence := emitted;

    var isFocused := isFacePresent && AnalyzeFocus(faces);
    newState := newState.(isFocused := isFocused);
    if isFocused {
      newState := newState.(lastFocusTime := now);
      if prevState.focusLostStart > 0 {
        var duration := now - prevState.focusLostStart;
        if duration > FocusThresholdMs {
          emitted := emitted + [FocusLostEvent(prevState.focusLostStart, now, id)];
        }
        newState := newState.(focusLostStart := 0);
      }
    } else if isFacePresent && prevState.focusLostStart == 0 {
      newState := newState.(focusLostStart := now);
    }
    assert newState.focusLostStart == NextFocusLostStart(prevState, isFacePresent, isFocused, now);
    assert emitted == afterAbsence + FocusEvents(prevState, isFocused, now, id);

    if |faces| > 1 {
      emitted := emitted + [MultipleFacesEvent(|faces|, now, id)];
    }
    assert emitted == afterAbsence + FocusEvents(prevState, isFocused, now, id) + MultipleFacesEvents(|faces|, now, id);

    newState := newState.(detectedObjects := Labels(objects));
    var objectEvents := EmitObjectEvents(objects, now, id);
    emitted := emitted + objectEvents;
  }

  // The hook

  /** The hook instance: the model-loaded flag, the detection state and the
      interval handle. `liveTimers` is the runtime's table of intervals that
      have been installed and not cleared. */
  class Detector {
    var isModelLoaded: bool
    var detectionState: DetectionState
    var interval: Option<nat>
    var nextTimerId: nat
    ghost var liveTimers: set<nat>

    ghost predicate Valid()
      reads this
    {
      && SpanSentinels(detectionState)
      && liveTimers == (if interval.Some? then {interval.value} else {})
      && forall t :: t in liveTimers ==> t < nextTimerId
    }

    constructor (now: nat)
      ensures Valid()
      ensures detectionState == InitialState(now) && !isModelLoaded && interval == None
    {
      isModelLoaded := false;
      detectionState := InitialState(now);
      interval := None;
      nextTimerId := 1;
      liveTimers := {};
    }

    /** The outcome of the asynchronous model load: the flag is raised on
      success and a failure leaves it down. */
    method LoadModels(succeeded: bool)
      requires Valid()
      modifies this`isModelLoaded
      ensures Valid()
      ensures isModelLoaded == (old(isModelLoaded) || succeeded)
    {
      if succeeded {
        isModelLoaded := true;
      }
    }

    /** One tick. Without loaded models or a video element it does nothing;
      otherwise it updates the state and returns the events it emits, in
      emission order, exactly as `Step` describes. */
    method RunDetection(videoReady: bool, faceResult: Inference<Face>, objectResult: Inference<Prediction>,
                        now: nat, id: string)
      returns (emitted: seq<DetectionEvent>)
      requires Valid()
      modifies this`detectionState
      ensures Valid()
      ensures var r := Step(old(detectionState), DetectFaces(faceResult), DetectObjects(objectResult), now, id);
        if isModelLoaded && videoReady then detectionState == r.next && emitted == r.events
        else detectionState == old(detectionState) && emitted == []
    {
      emitted := [];
      if !isModelLoaded || !videoReady {
        return;
      }
      var faces := DetectFaces(faceResult);
      var objects := DetectObjects(objectResult);
      var newState;
      newState, emitted := UpdateState(detectionState, faces, objects, now, id);
      detectionState := newState;
    }

    /** Installs the tick interval, first clearing the one already installed,
      so that at most one interval is ever live. The detection state is not
      reset. */
    method StartDetection()
      requires Valid()
      modifies this`interval, this`nextTimerId, this`liveTimers
      ensures Valid()
      ensures interval.Some? && interval.value !in old(liveTimers)
      ensures liveTimers == {interval.value}
      ensures detectionState == old(detectionState)
    {
      if interval.Some? {
        liveTimers := liveTimers - {interval.value};
      }
      var handle := nextTimerId;
      nextTimerId := nextTimerId + 1;
      liveTimers := liveTimers + {handle};
      interval := Some(handle);
    }

    /** Clears the installed interval, if any, and empties the handle. A
      second call changes nothing. */
    method StopDetection()
      requires Valid()
      modifies this`interval, this`liveTimers
      ensures Valid()
      ensures interval == None && liveTimers == {}
      ensures old(interval) == None ==> unchanged(this)
    {
      if interval.Some? {
        liveTimers := liveTimers - {interval.value};
        interval := None;
      }
    }
  }
}
