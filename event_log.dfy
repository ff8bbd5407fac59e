/** The event log panel: the ten newest events, newest first, each shown
    with a per-type icon and colour and an optional duration line, under a
    header that counts the whole log. */
module EventLog {
  import opened Js
  import opened ProctoringTypes
  import VideoDetection

  /** The number of events the panel lists. */
  const ShownEvents: nat := 10

  /** `events.slice(-10).reverse()`. */
  function RecentEvents(events: seq<DetectionEvent>): seq<DetectionEvent>
  {
    Reverse(LastN(events, ShownEvents))
  }

  /** The list holds the ten newest events (or all of them), newest first:
      entry i is the i-th event counting back from the end of the log. */
  lemma RecentEventsNewestFirst(events: seq<DetectionEvent>)
    ensures |RecentEvents(events)| == Min(ShownEvents, |events|)
    ensures forall i :: 0 <= i < |RecentEvents(events)| ==> RecentEvents(events)[i] == events[|events| - 1 - i]
  {
    var last := LastN(events, ShownEvents);
    forall i | 0 <= i < |last| ensures Reverse(last)[i] == events[|events| - 1 - i] {
      assert last[|last| - 1 - i] == events[|events| - |last| + (|last| - 1 - i)];
    }
  }

  /** The icons of `getEventIcon`; `AlertTriangle` is its default branch. */
  datatype Icon = Eye | Users | Smartphone | Book | Monitor | AlertTriangle

  /** The colour schemes of `getEventColor`; `GrayTone` is its default branch. */
  datatype Tone = YellowTone | RedTone | OrangeTone | GrayTone

  function EventIcon(t: EventType): Icon
  {
    match t
    case FocusLost => Eye
    case FaceAbsent => Users
    case MultipleFaces => Users
    case PhoneDetected => Smartphone
    case BookDetected => Book
    case DeviceDetected => Monitor
  }

  function EventTone(t: EventType): Tone
  {
    match t
    case FocusLost => YellowTone
    case FaceAbsent => RedTone
    case MultipleFaces => OrangeTone
    case PhoneDetected => RedTone
    case BookDetected => RedTone
    case DeviceDetected => RedTone
  }

  /** Every tag has its own case: the default icon and colour never show,
      and icon and colour together tell the tag apart (the icon alone does
      not: an absence and a crowd share one). */
  lemma IconAndToneIdentifyType(a: EventType, b: EventType)
    ensures EventIcon(a) != AlertTriangle && EventTone(a) != GrayTone
    ensures EventIcon(a) == EventIcon(b) && EventTone(a) == EventTone(b) <==> a == b
    ensures EventIcon(FaceAbsent) == EventIcon(MultipleFaces)
  {
  }

  /** What `{event.duration && <p>Duration: …s</p>}` renders: nothing for a
      missing duration, a bare "0" for a zero duration (React prints the
      falsy number), otherwise the rounded number of seconds. */
  datatype DurationCell = NoDuration | StrayZero | Seconds(n: int)

  function DurationLine(duration: Option<int>): DurationCell
  {
    match duration
    case None => NoDuration
    case Some(d) => if d == 0 then StrayZero else Seconds(Round(d as real / 1000.0))
  }

  /** The duration line shows exactly for a present, non-zero duration, and
      the seconds it shows are the duration rounded to the nearest second
      (halves up). */
  lemma DurationLineShownIff(duration: Option<int>)
    ensures DurationLine(duration).Seconds? <==> duration.Some? && duration.value != 0
    ensures DurationLine(duration).Seconds? ==>
      var n := DurationLine(duration).n;
      n * 1000 - 500 <= duration.value < n * 1000 + 500
  {
    if duration.Some? && duration.value != 0 {
      RoundThousandths(duration.value);
    }
  }

  /** One row of the list. The clock time is left as the raw timestamp. */
  datatype Row = Row(eventType: EventType, icon: Icon, tone: Tone, timestamp: nat, description: string,
                     duration: DurationCell)

  function RenderRow(e: DetectionEvent): Row
  {
    Row(e.eventType, EventIcon(e.eventType), EventTone(e.eventType), e.timestamp, DescriptionText(e.description),
        DurationLine(e.duration))
  }

  /** The panel: the header count and the rows. No rows means the
      "No events detected yet" placeholder. */
  datatype LogView = LogView(totalEvents: nat, rows: seq<Row>)

  function Render(events: seq<DetectionEvent>): LogView
  {
    LogView(|events|, seq(|RecentEvents(events)|, i requires 0 <= i < |RecentEvents(events)| => RenderRow(RecentEvents(events)[i])))
  }

  /** The header counts every event, while the rows show the newest ten,
      newest first; the placeholder shows exactly for an empty log. */
  lemma RenderShowsNewestTen(events: seq<DetectionEvent>)
    ensures Render(events).totalEvents == |events|
    ensures |Render(events).rows| == Min(ShownEvents, |events|)
    ensures forall i :: 0 <= i < |Render(events).rows| ==> Render(events).rows[i] == RenderRow(events[|events| - 1 - i])
    ensures Render(events).rows == [] <==> events == []
  {
    RecentEventsNewestFirst(events);
    if events != [] {
      assert |Render(events).rows| > 0;
    }
  }

  /** Events from the tracker never hit the stray "0": every duration it
      sets is positive, so a duration line is either absent or in seconds. */
  lemma TrackerEventsHaveNoStrayZero(s: DetectionState, ticks: seq<VideoDetection.TickInput>)
    ensures var es := VideoDetection.Run(s, ticks).events;
      forall i :: 0 <= i < |es| ==> !DurationLine(es[i].duration).StrayZero?
  {
    VideoDetection.RunDurationsPositive(s, ticks);
  }
}
