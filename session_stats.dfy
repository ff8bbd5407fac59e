/** The live statistics panel: its own copy of the integrity score, the
    m:ss duration display, the score colour and the per-type counts. */
module SessionStats {
  import opened Js
  import opened ProctoringTypes
  import Report = ProctoringReport

  /** The panel's elapsed time: against the clock while the session is
      active, otherwise the report's `(endTime || now) - startTime`. */
  function DisplayedDuration(session: ProctoringSession, isActive: bool, now: nat): int
  {
    if isActive then now - session.startTime else Report.ReportDuration(session, now)
  }

  /** While active the display follows the clock, even if an end time is
      stored; after a stop that stamped a non-zero end time it is frozen. */
  lemma DisplayedDurationBehaviour(session: ProctoringSession, now: nat, later: nat)
    requires now <= later
    ensures DisplayedDuration(session, true, later) == DisplayedDuration(session, true, now) + (later - now)
    ensures session.endTime.Some? && session.endTime.value != 0 ==>
      DisplayedDuration(session, false, later) == DisplayedDuration(session, false, now)
  {
    Report.ReportDurationFrozenOnceEnded(session, now, later);
  }

  /** `${minutes}:${seconds.toString().padStart(2, '0')}`. */
  function FormatDuration(ms: int): string
  {
    var minutes := ms / 60000;
    var seconds := Rem(ms, 60000) / 1000;
    IntToString(minutes) + ":" + PadStart(IntToString(seconds), 2, '0')
  }

  /** Seconds below 60 pad to exactly two digits that read back as the value. */
  lemma {:induction false} TwoDigitSeconds(s: nat)
    requires s < 60
    ensures var p := PadStart(NatToString(s), 2, '0');
      |p| == 2 && AllDigits(p) && DecimalValue(p) == s
  {
    var d := NatToString(s);
    var p := PadStart(d, 2, '0');
    if s < 10 {
      assert d == [DigitChar(s)];
      assert p == ['0'] + d;
      assert p[..1] == ['0'];
    } else {
      assert d == NatToString(s / 10) + [DigitChar(s % 10)];
      assert NatToString(s / 10) == [DigitChar(s / 10)];
      assert p == d;
    }
  }

  lemma ColonJoin(head: string, tail: string)
    requires |tail| == 2
    ensures var r := head + ":" + tail;
      r[|r| - 3] == ':' && r[..|r| - 3] == head && r[|r| - 2..] == tail
  {
    var r := head + ":" + tail;
    assert r[..|r| - 3] == head;
    assert r[|r| - 2..] == tail;
  }

  lemma {:induction false} MinuteSecondSplit(ms: nat)
    ensures (ms % 60000) / 1000 < 60
    ensures (ms / 60000) * 60000 + ((ms % 60000) / 1000) * 1000 <= ms
    ensures ms < (ms / 60000) * 60000 + ((ms % 60000) / 1000) * 1000 + 1000
  {
    var s := (ms % 60000) / 1000;
    assert ms == (ms / 60000) * 60000 + ms % 60000;
    assert ms % 60000 == s * 1000 + (ms % 60000) % 1000;
  }

  /** The m:ss text of given minutes and seconds reads back as them. */
  lemma MinutesSecondsText(m: nat, sec: nat)
    requires sec < 60
    ensures var r := IntToString(m) + ":" + PadStart(IntToString(sec), 2, '0'); var k := |r| - 3;
      && |r| >= 4 && r[k] == ':'
      && AllDigits(r[..k]) && DecimalValue(r[..k]) == m
      && AllDigits(r[k + 1..]) && DecimalValue(r[k + 1..]) == sec
  {
    TwoDigitSeconds(sec);
    ColonJoin(IntToString(m), PadStart(IntToString(sec), 2, '0'));
  }

  /** For a non-negative duration the display reads as whole minutes (not
      capped at 60), a colon, and exactly two digits of leftover seconds
      below 60. */
  lemma {:induction false} FormatDurationReadsBack(ms: nat)
    ensures var r := FormatDuration(ms); var k := |r| - 3;
      && |r| >= 4 && r[k] == ':'
      && AllDigits(r[..k]) && DecimalValue(r[..k]) == ms / 60000
      && AllDigits(r[k + 1..]) && DecimalValue(r[k + 1..]) == (ms % 60000) / 1000
      && (ms % 60000) / 1000 < 60
      && (ms / 60000) * 60000 + ((ms % 60000) / 1000) * 1000 <= ms
      && ms < (ms / 60000) * 60000 + ((ms % 60000) / 1000) * 1000 + 1000
  {
    MinuteSecondSplit(ms);
    assert Rem(ms, 60000) == ms % 60000;
    MinutesSecondsText(ms / 60000, (ms % 60000) / 1000);
  }

  /** The panel's `calculateIntegrityScore`, a second copy of the report's
      loop: it yields the report's score on every log. */
  method CalculateIntegrityScore(events: seq<DetectionEvent>) returns (score: int)
    ensures score == Report.IntegrityScore(events)
  {
    var running: real := 100.0;
    for i := 0 to |events|
      invariant running == 100.0 - Report.TotalPenalty(events[..i])
    {
      var event := events[i];
      var d := (if event.duration.Some? then event.duration.value else 0) as real;
      match event.eventType {
        case FocusLost => running := running - MinReal(10.0, d / 1000.0);
        case FaceAbsent => running := running - MinReal(15.0, d / 2000.0);
        case MultipleFaces => running := running - 5.0;
        case PhoneDetected => running := running - 20.0;
        case BookDetected => running := running - 15.0;
        case DeviceDetected => running := running - 10.0;
      }
      Report.TotalPenaltyAppend(events[..i], [event]);
      assert events[..i + 1] == events[..i] + [event];
    }
    assert events[..|events|] == events;
    score := Max(0, Round(running));
  }

  /** The panel colours a score with the report's thresholds. */
  function GetScoreColor(score: int): (c: Report.ScoreColor)
    ensures c == Report.ScoreColor.Green <==> score >= 80
    ensures c == Report.ScoreColor.Red <==> score < 60
  {
    if score >= 80 then Report.Green else if score >= 60 then Report.Yellow else Report.Red
  }

  /** The two views never disagree on the colour of a score. */
  lemma ScoreColorsAgree(score: int)
    ensures GetScoreColor(score) == Report.GetScoreColor(score)
  {
  }

  /** The panel's `eventCounts` reduce: every key is a tag that occurs, with
      its count; the counts add up to the number of events, and "No issues
      detected" (no keys) shows exactly for an empty log. */
  method EventCounts(events: seq<DetectionEvent>) returns (counts: map<EventType, nat>)
    ensures Report.CountsMatch(counts, events)
    ensures Report.CountsTotal(counts) == |events|
    ensures counts == map[] <==> events == []
  {
    counts := map[];
    for i := 0 to |events|
      invariant Report.CountsMatch(counts, events[..i])
    {
      var event := events[i];
      Report.CountsMatchStep(counts, events[..i], event);
      assert events[..i + 1] == events[..i] + [event];
      counts := Report.Bump(counts, event.eventType);
    }
    assert events[..|events|] == events;
    Report.CountsMatchTotal(counts, events);
  }
}
