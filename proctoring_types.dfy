/** The records shared by the detector, the session and the report views. */
module ProctoringTypes {
  import opened Js

  /** A field that the source declares optional (`field?: T`). */
  datatype Option<T> = None | Some(value: T)

  /** The closed set of six event tags; every switch over it is exhaustive. */
  datatype EventType =
    | FocusLost
    | FaceAbsent
    | MultipleFaces
    | PhoneDetected
    | BookDetected
    | DeviceDetected

  /** The string each tag carries in the source (the keys of the event counts). */
  function Tag(t: EventType): string
  {
    match t
    case FocusLost => "focus_lost"
    case FaceAbsent => "face_absent"
    case MultipleFaces => "multiple_faces"
    case PhoneDetected => "phone_detected"
    case BookDetected => "book_detected"
    case DeviceDetected => "device_detected"
  }

  /** An event's description: the template the detector fills in and the
      values it fills in. `DescriptionText` renders it. */
  datatype Description =
    | AbsentFor(seconds: int)
    | LostFocusFor(seconds: int)
    | FacesInFrame(count: int)
    | SeenWithConfidence(objectClass: string, percent: int)

  /** The text the detector writes for each template. */
  function DescriptionText(d: Description): string
  {
    match d
    case AbsentFor(seconds) => "Face was absent for " + IntToString(seconds) + " seconds"
    case LostFocusFor(seconds) => "Lost focus for " + IntToString(seconds) + " seconds"
    case FacesInFrame(count) => IntToString(count) + " faces detected in frame"
    case SeenWithConfidence(objectClass, percent) =>
      objectClass + " detected with " + IntToString(percent) + "% confidence"
  }

  /** A non-negative number written between two fixed texts can be cut
      back out, and reads back as the number. */
  lemma NumberBetween(p: string, n: int, q: string)
    requires n >= 0
    ensures var t := p + IntToString(n) + q;
      && |t| > |p| + |q| && t[..|p|] == p && t[|t| - |q|..] == q
      && AllDigits(t[|p|..|t| - |q|]) && DecimalValue(t[|p|..|t| - |q|]) == n
  {
    var t := p + IntToString(n) + q;
    assert t[|p|..|t| - |q|] == IntToString(n);
  }

  /** Each sentence reads back: its fixed words sit around a decimal number
      that, when the template's number is non-negative, is exactly that
      number. */
  lemma DescriptionNumberReadsBack(d: Description)
    ensures d.AbsentFor? && d.seconds >= 0 ==>
      var t := DescriptionText(d);
      && |t| >= 29 && t[..20] == "Face was absent for " && t[|t| - 8..] == " seconds"
      && AllDigits(t[20..|t| - 8]) && DecimalValue(t[20..|t| - 8]) == d.seconds
    ensures d.LostFocusFor? && d.seconds >= 0 ==>
      var t := DescriptionText(d);
      && |t| >= 24 && t[..15] == "Lost focus for " && t[|t| - 8..] == " seconds"
      && AllDigits(t[15..|t| - 8]) && DecimalValue(t[15..|t| - 8]) == d.seconds
    ensures d.FacesInFrame? && d.count >= 0 ==>
      var t := DescriptionText(d);
      && |t| >= 25 && t[|t| - 24..] == " faces detected in frame"
      && AllDigits(t[..|t| - 24]) && DecimalValue(t[..|t| - 24]) == d.count
    ensures d.SeenWithConfidence? && d.percent >= 0 ==>
      var t := DescriptionText(d);
      var k := |d.objectClass| + 15;
      && |t| >= k + 13 && t[..k] == d.objectClass + " detected with " && t[|t| - 12..] == "% confidence"
      && AllDigits(t[k..|t| - 12]) && DecimalValue(t[k..|t| - 12]) == d.percent
  {
    match d
    case AbsentFor(n) => if n >= 0 { SpanSentenceReadsBack("Face was absent for ", n); }
    case LostFocusFor(n) => if n >= 0 { SpanSentenceReadsBack("Lost focus for ", n); }
    case FacesInFrame(n) => if n >= 0 { CrowdSentenceReadsBack(n); }
    case SeenWithConfidence(c, n) => if n >= 0 { NumberBetween(c + " detected with ", n, "% confidence"); }
  }

  lemma SpanSentenceReadsBack(p: string, n: int)
    requires n >= 0
    ensures var t := p + IntToString(n) + " seconds";
      && |t| > |p| + 8 && t[..|p|] == p && t[|t| - 8..] == " seconds"
      && AllDigits(t[|p|..|t| - 8]) && DecimalValue(t[|p|..|t| - 8]) == n
  {
    NumberBetween(p, n, " seconds");
  }

  lemma CrowdSentenceReadsBack(n: int)
    requires n >= 0
    ensures var t := IntToString(n) + " faces detected in frame";
      && |t| >= 25 && t[|t| - 24..] == " faces detected in frame"
      && AllDigits(t[..|t| - 24]) && DecimalValue(t[..|t| - 24]) == n
  {
    var t := IntToString(n) + " faces detected in frame";
    assert t[..|t| - 24] == IntToString(n);
  }

  /** One integrity event. `timestamp` is the time the condition started;
      `duration` (ms) is set only by the span events and `confidence` only by
      the object events. The id is a plain string. */
  datatype DetectionEvent = DetectionEvent(
    id: string,
    eventType: EventType,
    timestamp: nat,
    duration: Option<int>,
    confidence: Option<real>,
    description: Description)

  /** An interview session as the application stores it. `events` is kept in
      arrival order. */
  datatype ProctoringSession = ProctoringSession(
    candidateName: string,
    startTime: nat,
    endTime: Option<nat>,
    events: seq<DetectionEvent>,
    totalFocusLostTime: int,
    totalAbsentTime: int,
    integrityScore: int)

  /** The detector's live state. `focusLostStart` and `absentStart` hold the
      start of an open span, with 0 meaning that no span is open. */
  datatype DetectionState = DetectionState(
    isFacePresent: bool,
    isFocused: bool,
    faceCount: nat,
    detectedObjects: seq<string>,
    lastFaceTime: nat,
    lastFocusTime: nat,
    focusLostStart: nat,
    absentStart: nat)

  /** How many events of the log carry tag `t`. */
  function CountOf(events: seq<DetectionEvent>, t: EventType): (n: nat)
    ensures n <= |events|
  {
    if events == [] then 0
    else (if events[0].eventType == t then 1 else 0) + CountOf(events[1..], t)
  }

  lemma {:induction false} CountOfAppend(a: seq<DetectionEvent>, b: seq<DetectionEvent>, t: EventType)
    ensures CountOf(a + b, t) == CountOf(a, t) + CountOf(b, t)
  {
    if a == [] {
      assert a + b == b;
    } else {
      assert (a + b)[1..] == a[1..] + b;
      CountOfAppend(a[1..], b, t);
    }
  }

  /** The six per-tag counts of a log add up to its length. */
  lemma {:induction false} CountsCoverLog(events: seq<DetectionEvent>)
    ensures CountOf(events, FocusLost) + CountOf(events, FaceAbsent) + CountOf(events, MultipleFaces)
      + CountOf(events, PhoneDetected) + CountOf(events, BookDetected) + CountOf(events, DeviceDetected)
      == |events|
  {
    if events != [] {
      CountsCoverLog(events[1..]);
    }
  }

  /** A tag occurs in the log exactly when its count is positive. */
  lemma {:induction false} CountPositiveIff(events: seq<DetectionEvent>, t: EventType)
    ensures CountOf(events, t) > 0 <==> exists i :: 0 <= i < |events| && events[i].eventType == t
  {
    if events != [] {
      CountPositiveIff(events[1..], t);
      if CountOf(events[1..], t) > 0 {
        var i :| 0 <= i < |events[1..]| && events[1..][i].eventType == t;
        assert events[i + 1].eventType == t;
      }
      if exists i :: 0 <= i < |events| && events[i].eventType == t {
        var i :| 0 <= i < |events| && events[i].eventType == t;
        if i > 0 { assert events[1..][i - 1].eventType == t; }
      }
    }
  }

  /** Distinct tags have distinct strings, so keying counts by tag string is
      the same as keying them by tag. */
  lemma TagInjective(a: EventType, b: EventType)
    requires Tag(a) == Tag(b)
    ensures a == b
  {
  }
}
