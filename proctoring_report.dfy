/** The end-of-interview report: the integrity score, its label and colour,
    the duration display and the per-type event counts.

    The score is computed from exact reals here. The JavaScript code computes
    it in floating point, which this model does not reproduce. */
module ProctoringReport {
  import opened Js
  import opened ProctoringTypes

  /** `event.duration || 0`: a missing duration counts as 0. */
  function DurationOrZero(d: Option<int>): int
  {
    if d.Some? then d.value else 0
  }

  /** The points one event costs. Span events cost one point per second
      (focus) or per two seconds (absence), capped at 10 and 15; the others
      cost a flat amount. */
  function Penalty(e: DetectionEvent): real
  {
    var d := DurationOrZero(e.duration) as real;
    match e.eventType
    case FocusLost => MinReal(10.0, d / 1000.0)
    case FaceAbsent => MinReal(15.0, d / 2000.0)
    case MultipleFaces => 5.0
    case PhoneDetected => 20.0
    case BookDetected => 15.0
    case DeviceDetected => 10.0
  }

  function TotalPenalty(events: seq<DetectionEvent>): real
  {
    if events == [] then 0.0 else Penalty(events[0]) + TotalPenalty(events[1..])
  }

  /** The score: 100 minus all penalties, rounded once, then floored at 0. */
  function IntegrityScore(events: seq<DetectionEvent>): int
  {
    Max(0, Round(100.0 - TotalPenalty(events)))
  }

  /** The report's `calculateIntegrityScore`: one pass over the log taking
      each event's penalty off a running score. */
  method CalculateIntegrityScore(events: seq<DetectionEvent>) returns (score: int)
    ensures score == IntegrityScore(events)
  {
    var running: real := 100.0;
    for i := 0 to |events|
      invariant running == 100.0 - TotalPenalty(events[..i])
    {
      var event := events[i];
      var d := DurationOrZero(event.duration) as real;
      match event.eventType {
        case FocusLost => running := running - MinReal(10.0, d / 1000.0);
        case FaceAbsent => running := running - MinReal(15.0, d / 2000.0);
        case MultipleFaces => running := running - 5.0;
        case PhoneDetected => running := running - 20.0;
        case BookDetected => running := running - 15.0;
        case DeviceDetected => running := running - 10.0;
      }
      TotalPenaltyAppend(events[..i], [event]);
      assert events[..i + 1] == events[..i] + [event];
    }
    assert events[..|events|] == events;
    score := Max(0, Round(running));
  }

  lemma {:induction false} TotalPenaltyAppend(a: seq<DetectionEvent>, b: seq<DetectionEvent>)
    ensures TotalPenalty(a + b) == TotalPenalty(a) + TotalPenalty(b)
  {
    if a == [] {
      assert a + b == b;
    } else {
      assert (a + b)[1..] == a[1..] + b;
      TotalPenaltyAppend(a[1..], b);
    }
  }

  /** No event has a negative duration (a missing one is fine). */
  predicate DurationsNonNegative(events: seq<DetectionEvent>)
  {
    forall i :: 0 <= i < |events| && events[i].duration.Some? ==> events[i].duration.value >= 0
  }

  /** An event never costs more than 20 points, and never costs a negative
      amount unless its duration is negative. */
  lemma PenaltyBounds(e: DetectionEvent)
    ensures Penalty(e) <= 20.0
    ensures DurationOrZero(e.duration) >= 0 ==> Penalty(e) >= 0.0
  {
  }

  lemma {:induction false} TotalPenaltyNonNegative(events: seq<DetectionEvent>)
    requires DurationsNonNegative(events)
    ensures TotalPenalty(events) >= 0.0
  {
    if events != [] {
      PenaltyBounds(events[0]);
      TotalPenaltyNonNegative(events[1..]);
    }
  }

  /** A clean session scores 100. */
  lemma EmptyLogScoresFull()
    ensures IntegrityScore([]) == 100
  {
  }

  /** The score is never negative, and with no negative durations it is at most 100. */
  lemma ScoreInRange(events: seq<DetectionEvent>)
    ensures 0 <= IntegrityScore(events)
    ensures DurationsNonNegative(events) ==> IntegrityScore(events) <= 100
  {
    if DurationsNonNegative(events) {
      TotalPenaltyNonNegative(events);
      RoundMonotone(100.0 - TotalPenalty(events), 100.0);
    }
  }

  /** The order of the events does not matter: any permutation of the log
      has the same score. */
  lemma ScorePermutationInvariant(a: seq<DetectionEvent>, b: seq<DetectionEvent>)
    requires multiset(a) == multiset(b)
    ensures IntegrityScore(a) == IntegrityScore(b)
  {
    TotalPenaltyPermutation(a, b);
  }

  lemma TotalPenaltyPermutation(a: seq<DetectionEvent>, b: seq<DetectionEvent>)
    requires multiset(a) == multiset(b)
    ensures TotalPenalty(a) == TotalPenalty(b)
  {
    TotalPenaltyIsSum(a);
    TotalPenaltyIsSum(b);
    SumByPermutation(Penalty, a, b);
  }

  /** The sum of `f` over a sequence, for the order-independence argument,
      which is stated once for any element type. */
  function SumBy<T>(f: T -> real, s: seq<T>): real
  {
    if s == [] then 0.0 else f(s[0]) + SumBy(f, s[1..])
  }

  lemma {:induction false} TotalPenaltyIsSum(events: seq<DetectionEvent>)
    ensures TotalPenalty(events) == SumBy(Penalty, events)
  {
    if events != [] {
      TotalPenaltyIsSum(events[1..]);
    }
  }

  lemma {:induction false} SumByAppend<T>(f: T -> real, a: seq<T>, b: seq<T>)
    ensures SumBy(f, a + b) == SumBy(f, a) + SumBy(f, b)
  {
    if a == [] {
      assert a + b == b;
    } else {
      assert (a + b)[1..] == a[1..] + b;
      SumByAppend(f, a[1..], b);
    }
  }

  lemma {:induction false} SumByPermutation<T>(f: T -> real, a: seq<T>, b: seq<T>)
    requires multiset(a) == multiset(b)
    ensures SumBy(f, a) == SumBy(f, b)
    decreases |a|
  {
    if a == [] {
      assert |b| == |multiset(b)| == 0;
    } else {
      var j := MatchFirst(a, b);
      var rest := b[..j] + b[j + 1..];
      assert b == b[..j] + ([b[j]] + b[j + 1..]);
      SumByAppend(f, b[..j], [b[j]] + b[j + 1..]);
      SumByAppend(f, [b[j]], b[j + 1..]);
      SumByAppend(f, b[..j], b[j + 1..]);
      assert SumBy(f, [b[j]]) == f(b[j]);
      SumByPermutation(f, a[1..], rest);
    }
  }

  /** The first element of `a` occurs in its permutation `b`; taking it out
      of both leaves permutations of each other. */
  lemma MatchFirst<T>(a: seq<T>, b: seq<T>) returns (j: nat)
    requires multiset(a) == multiset(b) && a != []
    ensures j < |b| && b[j] == a[0]
    ensures multiset(a[1..]) == multiset(b[..j] + b[j + 1..])
  {
    assert a[0] in multiset(a);
    j :| 0 <= j < |b| && b[j] == a[0];
    assert b == b[..j] + [b[j]] + b[j + 1..];
    assert multiset(b[..j] + b[j + 1..]) == multiset(b) - multiset{a[0]};
    assert a == [a[0]] + a[1..];
    assert multiset(a[1..]) == multiset(a) - multiset{a[0]};
  }

  /** A new event with a non-negative duration never raises the score. */
  lemma ScoreMonotoneUnderAppend(events: seq<DetectionEvent>, e: DetectionEvent)
    requires DurationOrZero(e.duration) >= 0
    ensures IntegrityScore(events + [e]) <= IntegrityScore(events)
  {
    TotalPenaltyAppend(events, [e]);
    PenaltyBounds(e);
    assert TotalPenalty([e]) == Penalty(e);
    RoundMonotone(100.0 - TotalPenalty(events + [e]), 100.0 - TotalPenalty(events));
  }

  /** The penalty in units of 1/2000 point, an integer for integer durations. */
  function ScaledPenalty(e: DetectionEvent): (p: int)
    ensures p as real == 2000.0 * Penalty(e)
  {
    var d := DurationOrZero(e.duration);
    match e.eventType
    case FocusLost => Min(20000, 2 * d)
    case FaceAbsent => Min(30000, d)
    case MultipleFaces => 10000
    case PhoneDetected => 40000
    case BookDetected => 30000
    case DeviceDetected => 20000
  }

  function ScaledTotal(events: seq<DetectionEvent>): int
  {
    if events == [] then 0 else ScaledPenalty(events[0]) + ScaledTotal(events[1..])
  }

  lemma {:induction false} ScaledTotalExact(events: seq<DetectionEvent>)
    ensures ScaledTotal(events) as real == 2000.0 * TotalPenalty(events)
  {
    if events != [] {
      ScaledTotalExact(events[1..]);
    }
  }

  /** With integer durations the score needs no fractions: it is
      floor((200000 - S + 1000) / 2000), floored at 0, where S is the total
      penalty in units of 1/2000 point. */
  lemma ScoreInIntegers(events: seq<DetectionEvent>)
    ensures IntegrityScore(events) == Max(0, (200000 - ScaledTotal(events) + 1000) / 2000)
  {
    ScaledTotalExact(events);
    var n := 200000 - ScaledTotal(events);
    assert 100.0 - TotalPenalty(events) == n as real / 2000.0;
    RoundTwoThousandths(n);
  }

  /** An absence of 12 s costs 6 points; three ticks with two faces cost 15. */
  lemma PenaltyExamples(id: string)
    ensures Penalty(DetectionEvent(id, FaceAbsent, 1, Some(12000), None, AbsentFor(12))) == 6.0
    ensures var m := DetectionEvent(id, MultipleFaces, 1, None, None, FacesInFrame(2));
      IntegrityScore([m, m, m]) == 85
  {
    var m := DetectionEvent(id, MultipleFaces, 1, None, None, FacesInFrame(2));
    assert [m, m, m][1..] == [m, m];
    assert [m, m][1..] == [m];
    assert [m][1..] == [];
    assert Penalty(m) == 5.0;
    assert TotalPenalty([m]) == 5.0;
    assert TotalPenalty([m, m]) == 10.0;
    assert TotalPenalty([m, m, m]) == 15.0;
  }

  // Score presentation

  /** `text-green-600`, `text-yellow-600`, `text-red-600`. */
  datatype ScoreColor = Green | Yellow | Red

  datatype ScoreLabel = Excellent | Good | Fair | Poor

  function GetScoreColor(score: int): ScoreColor
  {
    if score >= 80 then Green else if score >= 60 then Yellow else Red
  }

  function GetScoreLabel(score: int): ScoreLabel
  {
    if score >= 80 then Excellent else if score >= 60 then Good else if score >= 40 then Fair else Poor
  }

  function LabelRank(l: ScoreLabel): nat
  {
    match l
    case Poor => 0
    case Fair => 1
    case Good => 2
    case Excellent => 3
  }

  /** The label and the colour tell the same story: Excellent is green, Good
      is yellow, Fair and Poor are red. */
  lemma LabelAgreesWithColor(score: int)
    ensures GetScoreLabel(score) == Excellent <==> GetScoreColor(score) == Green
    ensures GetScoreLabel(score) == Good <==> GetScoreColor(score) == Yellow
    ensures GetScoreLabel(score) in {Fair, Poor} <==> GetScoreColor(score) == Red
  {
  }

  /** A higher score never gets a worse label. */
  lemma LabelMonotone(a: int, b: int)
    requires a <= b
    ensures LabelRank(GetScoreLabel(a)) <= LabelRank(GetScoreLabel(b))
  {
  }

  // Duration

  /** `endTime || now`: a missing end time, and also an end time of 0,
      falls back to the current clock. */
  function EndOrNow(endTime: Option<nat>, now: nat): nat
  {
    if endTime.Some? && endTime.value != 0 then endTime.value else now
  }

  /** The report's elapsed time, `(endTime || now) - startTime`. */
  function ReportDuration(session: ProctoringSession, now: nat): int
  {
    EndOrNow(session.endTime, now) - session.startTime
  }

  /** Once a (non-zero) end time is stamped the duration no longer moves with
      the clock; without one it grows with the clock. */
  lemma ReportDurationFrozenOnceEnded(session: ProctoringSession, now: nat, later: nat)
    requires now <= later
    ensures session.endTime.Some? && session.endTime.value != 0 ==>
      ReportDuration(session, later) == ReportDuration(session, now) == session.endTime.value - session.startTime
    ensures session.endTime.None? ==>
      ReportDuration(session, later) == ReportDuration(session, now) + (later - now)
  {
  }

  /** The report's `formatDuration`: `Hh Mm Ss`, or `Mm Ss` under an hour,
      with JavaScript's floor and truncating remainder. */
  function FormatDuration(ms: int): string
  {
    var hours := ms / 3600000;
    var minutes := Rem(ms, 3600000) / 60000;
    var seconds := Rem(ms, 60000) / 1000;
    if hours > 0 then IntToString(hours) + "h " + IntToString(minutes) + "m " + IntToString(seconds) + "s"
    else IntToString(minutes) + "m " + IntToString(seconds) + "s"
  }

  /** The remainder by one minute is determined by any split with a
      remainder in range. */
  lemma {:induction false} MinuteRemainderUnique(n: int, q: int, r: int)
    requires 0 <= r < 60000 && n == q * 60000 + r
    ensures n % 60000 == r
  {
  }

  /** Whole hours, minutes under 60 and seconds under 60 rebuild a
      non-negative duration to the second. */
  lemma {:induction false} HourMinuteSecondSplit(ms: nat)
    ensures var h, m, s := ms / 3600000, (ms % 3600000) / 60000, (ms % 60000) / 1000;
      && m < 60 && s < 60
      && h * 3600000 + m * 60000 + s * 1000 <= ms < h * 3600000 + m * 60000 + s * 1000 + 1000
  {
    var h, r1 := ms / 3600000, ms % 3600000;
    var m, r2 := r1 / 60000, r1 % 60000;
    var s, r3 := r2 / 1000, r2 % 1000;
    assert ms == (h * 60 + m) * 60000 + r2;
    MinuteRemainderUnique(ms, h * 60 + m, r2);
    assert r2 == s * 1000 + r3;
  }

  /** For a non-negative duration the three parts are its whole hours, the
      minutes (under 60) and the seconds (under 60) left over, and the hours
      part is printed only when there is at least one. */
  lemma {:induction false} FormatDurationParts(ms: nat)
    ensures var h, m, s := ms / 3600000, (ms % 3600000) / 60000, (ms % 60000) / 1000;
      && m < 60 && s < 60
      && h * 3600000 + m * 60000 + s * 1000 <= ms < h * 3600000 + m * 60000 + s * 1000 + 1000
      && FormatDuration(ms)
         == (if h > 0 then NatToString(h) + "h " else "") + NatToString(m) + "m " + NatToString(s) + "s"
  {
    HourMinuteSecondSplit(ms);
    var h, m, s := ms / 3600000, (ms % 3600000) / 60000, (ms % 60000) / 1000;
    assert Rem(ms, 3600000) == ms % 3600000 && Rem(ms, 60000) == ms % 60000;
    assert IntToString(h) == NatToString(h) && IntToString(m) == NatToString(m) && IntToString(s) == NatToString(s);
    var tail := NatToString(m) + "m " + NatToString(s) + "s";
    if h > 0 {
      assert FormatDuration(ms) == NatToString(h) + "h " + tail;
    } else {
      assert FormatDuration(ms) == tail;
    }
  }

  lemma IntToStringHasNoLetter(i: int, c: char)
    requires !IsDigit(c) && c != '-'
    ensures c !in IntToString(i)
  {
  }

  /** The hours part appears exactly from one hour on, for any duration. */
  lemma HoursShownIff(ms: int)
    ensures 'h' in FormatDuration(ms) <==> ms >= 3600000
  {
    var hours := ms / 3600000;
    var minutes := Rem(ms, 3600000) / 60000;
    var seconds := Rem(ms, 60000) / 1000;
    IntToStringHasNoLetter(hours, 'h');
    IntToStringHasNoLetter(minutes, 'h');
    IntToStringHasNoLetter(seconds, 'h');
    var tail := IntToString(minutes) + "m " + IntToString(seconds) + "s";
    assert 'h' !in tail;
    if hours > 0 {
      var r := IntToString(hours) + "h " + tail;
      assert r[|IntToString(hours)|] == 'h';
    }
  }

  // Event counts

  /** `counts[t] || 0`. */
  function CountFor(counts: map<EventType, nat>, t: EventType): nat
  {
    if t in counts then counts[t] else 0
  }

  /** The sum of the counts over all six tags. */
  function CountsTotal(counts: map<EventType, nat>): nat
  {
    CountFor(counts, FocusLost) + CountFor(counts, FaceAbsent) + CountFor(counts, MultipleFaces)
    + CountFor(counts, PhoneDetected) + CountFor(counts, BookDetected) + CountFor(counts, DeviceDetected)
  }

  /** `counts` holds, for each tag that occurs in `events`, its number of
      occurrences, and no other key. */
  ghost predicate CountsMatch(counts: map<EventType, nat>, events: seq<DetectionEvent>)
  {
    && (forall t :: t in counts <==> CountOf(events, t) > 0)
    && (forall t :: t in counts ==> counts[t] == CountOf(events, t))
  }

  /** One step of the reduce: `acc[type] = (acc[type] || 0) + 1`. */
  function Bump(counts: map<EventType, nat>, t: EventType): map<EventType, nat>
  {
    counts[t := (if t in counts then counts[t] else 0) + 1]
  }

  lemma CountsMatchStep(counts: map<EventType, nat>, events: seq<DetectionEvent>, e: DetectionEvent)
    requires CountsMatch(counts, events)
    ensures CountsMatch(Bump(counts, e.eventType), events + [e])
  {
    forall t {
      CountOfAppend(events, [e], t);
    }
  }

  /** A matching map adds up to the length of the log and is empty only
      for an empty log. */
  lemma CountsMatchTotal(counts: map<EventType, nat>, events: seq<DetectionEvent>)
    requires CountsMatch(counts, events)
    ensures CountsTotal(counts) == |events|
    ensures counts == map[] <==> events == []
  {
    forall t ensures CountFor(counts, t) == CountOf(events, t) {
    }
    CountsCoverLog(events);
    if events == [] {
      assert counts.Keys == {};
    } else {
      assert CountOf(events, events[0].eventType) > 0;
      assert events[0].eventType in counts;
    }
  }

  /** The report's `eventCounts` reduce: a key for each tag that occurs, with
      its number of occurrences; the counts add up to the number of events,
      and the map is empty ("no issues") only for an empty log. */
  method EventCounts(events: seq<DetectionEvent>) returns (counts: map<EventType, nat>)
    ensures CountsMatch(counts, events)
    ensures CountsTotal(counts) == |events|
    ensures counts == map[] <==> events == []
  {
    counts := map[];
    for i := 0 to |events|
      invariant CountsMatch(counts, events[..i])
    {
      var event := events[i];
      CountsMatchStep(counts, events[..i], event);
      assert events[..i + 1] == events[..i] + [event];
      counts := Bump(counts, event.eventType);
    }
    assert events[..|events|] == events;
    CountsMatchTotal(counts, events);
  }
}
