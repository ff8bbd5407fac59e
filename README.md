# Interview proctoring core, in Dafny

This project models the logic of a browser-based interview proctoring tool.

- **Detection hook.** Once a second, a detection hook reads a face classifier and an object classifier from the candidate's camera. It tracks two spans in a small state record and reports integrity events: a face absent for more than 10 s, focus lost for more than 5 s, several faces in frame, and a phone, book or other device in view.
- **Page.** The page keeps those events in an interview session.
- **Report and live panel.** Both turn the session's events into an integrity score with a label and a colour, a formatted duration, and per-type counts.
- **Event log.** It shows the ten newest events.
- **Status badge.** It shows a live status over the video.

The modules follow the source files:

| module | file | models |
|---|---|---|
| `Js` | `js.dfy` | The JavaScript runtime pieces the code relies on, stated exactly: `Math.round`, the truncating `%`, number-to-string, `trim`, `padStart`, `slice(-k)` and `reverse()`. |
| `ProctoringTypes` | `proctoring_types.dfy` | The three records, the six event tags as a closed datatype, and the four description templates. |
| `VideoDetection` | `video_detection.dfy` | The detection hook. It has two layers (listed after this table). |
| `ProctoringReport` | `proctoring_report.dfy` | The report's score, label, colour, duration and counts. |
| `SessionStats` | `session_stats.dfy` | The live panel's own score loop, colour and counts, each proved to agree with the report's. It also has its own elapsed-time display and `m:ss` format, which differ from the report's `h m s` format and have their own lemmas. The panel has no label. |
| `EventLog` | `event_log.dfy` | The newest-first list of events, with icons, colours and the duration line. |
| `VideoMonitor` | `video_monitor.dfy` | The status badge's priority chain. |
| `App` | `app.dfy` | The page, as a class `InterviewApp`: its start/stop guards, the append-only event log and the delivery of each tick's events. |

The hook's two layers in `VideoDetection`:

- `Step` is a pure function that gives the next state and the events of one tick. Each axis has its own function: absence, focus, several faces and objects.
- `UpdateState` and the class `Detector` are imperative, like the hook's updater. `UpdateState` is proved equal to `Step`.

The properties of the tracker are lemmas about `Step` and about `Run`, which chains several ticks.

Numbers are exact:

- Times and durations are integers in milliseconds.
- Scores and confidences are reals.
- An event's description is kept as its template and its number (`ProctoringTypes.Description`). `ProctoringTypes.DescriptionText` renders the sentence the code writes.
- The score is computed as the code computes it, over reals. A lemma shows that it equals an integer formula with all penalties scaled by 2000.

## Model

| member | source | states |
|---|---|---|
| `Js.Round` | src/components/ProctoringReport.tsx:57 | `Math.round`: the nearest integer, halves up (`r - 0.5 <= x < r + 0.5`). |
| `Js.RoundMonotone` | src/components/ProctoringReport.tsx:57 | Rounding preserves order. |
| `Js.RoundThousandths` | src/components/EventLog.tsx:76 | `Math.round(n/1000)` equals `(n + 500) / 1000` in integer floor division. |
| `Js.RoundTwoThousandths` | src/components/ProctoringReport.tsx:57 | `Math.round(n/2000)` equals `(n + 1000) / 2000` in integer floor division. |
| `Js.Rem` | src/components/ProctoringReport.tsx:22-23 | JavaScript `%`: it agrees with the Euclidean remainder on non-negative dividends and is odd-symmetric (the sign of the dividend) on negative ones. |
| `Js.NatToString` | src/components/SessionStats.tsx:18 | `${n}`: digits only, no leading zero, and it reads back as `n`. |
| `Js.IntToString` | src/components/ProctoringReport.tsx:26 | `${i}`: a minus sign for negatives, then digits that read back as `abs(i)`. |
| `Js.PadStart` | src/components/SessionStats.tsx:18 | `padStart`: the length is the larger of the width and the input length, the input is the suffix, and the prefix is all fill. |
| `Js.TrimStart` | src/App.tsx:39 | Drops exactly the leading ECMAScript whitespace. |
| `Js.TrimEnd` | src/App.tsx:39 | Drops exactly the trailing ECMAScript whitespace. |
| `Js.Trim` | src/App.tsx:39 | `trim()`; its contract is stated by `TrimEmptyIff`, `TrimIsSlice` and `TrimIdempotent`. |
| `Js.TrimEmptyIff` | src/App.tsx:39 | `trim()` is empty exactly when every character is whitespace. Otherwise the result neither starts nor ends with whitespace. |
| `Js.TrimIsSlice` | src/App.tsx:55 | The trimmed name is a slice of the input, and only whitespace is cut on either side. |
| `Js.TrimIdempotent` | src/App.tsx:55 | Trimming a trimmed name changes nothing. |
| `Js.LastN` | src/components/EventLog.tsx:39 | `slice(-k)`: for `k >= 1` the last `min(k, n)` elements, and for `k = 0` (`slice(-0)`, that is `slice(0)`) the whole sequence. |
| `Js.Reverse` | src/components/EventLog.tsx:39 | `reverse()`: the same length, with element `i` taken from position `n-1-i`. |
| `ProctoringTypes.CountOf` | src/types/proctoring.ts:3 | The number of events with a tag never exceeds the log length. |
| `ProctoringTypes.CountOfAppend` | src/types/proctoring.ts:3 | Per-tag counts add over concatenation. |
| `ProctoringTypes.CountsCoverLog` | src/types/proctoring.ts:3 | The six per-tag counts sum to the log length, because the tag set is closed. |
| `ProctoringTypes.CountPositiveIff` | src/types/proctoring.ts:3 | A tag's count is positive exactly when some event carries it. |
| `ProctoringTypes.TagInjective` | src/types/proctoring.ts:3 | Distinct tags have distinct strings. |
| `ProctoringTypes.DescriptionText` | src/hooks/useVideoDetection.ts:117-178 | The four description sentences; `DescriptionNumberReadsBack` states their shape. |
| `ProctoringTypes.DescriptionNumberReadsBack` | src/hooks/useVideoDetection.ts:117-178 | Each sentence has its fixed words around a decimal number that reads back as the template's number (seconds, face count, or confidence percent), for non-negative numbers. |
| `VideoDetection.TrackedOnly` | src/hooks/useVideoDetection.ts:58-60 | The label whitelist keeps only the six tracked labels, and every tracked prediction keeps its multiplicity. |
| `VideoDetection.TrackedOnlyKeepsOrder` | src/hooks/useVideoDetection.ts:58-60 | Filtering a concatenation concatenates the filtered parts, so input order is kept. |
| `VideoDetection.DetectFaces` | src/hooks/useVideoDetection.ts:41-51 | The face classifier call, failing open; stated by `ClassifiersFailOpen`. |
| `VideoDetection.DetectObjects` | src/hooks/useVideoDetection.ts:53-65 | The object classifier call with the label whitelist, failing open; stated by `ClassifiersFailOpen`, `TrackedOnly` and `TrackedOnlyKeepsOrder`. |
| `VideoDetection.ClassifiersFailOpen` | src/hooks/useVideoDetection.ts:41-65 | No model, no video element or a thrown error gives no faces and no objects. Returned faces pass whole. Returned objects keep exactly their tracked predictions, with multiplicity. |
| `VideoDetection.AnalyzeFocus` | src/hooks/useVideoDetection.ts:67-87 | The focus test, with its geometry reduced to a per-face flag; stated by `AnalyzeFocusCases`. |
| `VideoDetection.AnalyzeFocusCases` | src/hooks/useVideoDetection.ts:67-87 | No faces is unfocused. Only the first face is examined: without landmarks it is focused, otherwise its centring decides. |
| `VideoDetection.Step` | src/hooks/useVideoDetection.ts:99-184 | One tick's new state and events. Its contract is stated by `StepDisplayFields`, `StepEstablishesSentinels`, `AbsenceReportedIff`, `FacelessTick`, `FocusLostReportedIff`, `FocusSpanTransitions`, `MultipleFacesEveryTick`, `ObjectEventsAreConfidentObjects`, `ObjectEventsComeLast`, `StepCount` and `StepDurationsPositive`, and `UpdateState` is proved equal to it. |
| `VideoDetection.ObjectEventsAreConfidentObjects` | src/hooks/useVideoDetection.ts:167-181 | Object events are exactly the objects scoring above 0.5, turned into events in input order. Each is stamped `now` and has an object tag. |
| `VideoDetection.ConfidentIsFilter` | src/hooks/useVideoDetection.ts:168 | The confident objects are exactly the inputs scoring above 0.5, with multiplicity. |
| `VideoDetection.ConfidentKeepsOrder` | src/hooks/useVideoDetection.ts:168 | The score filter distributes over concatenation, so the confident objects keep their input order. |
| `VideoDetection.ObjectEventsComeLast` | src/hooks/useVideoDetection.ts:107-181 | A tick's events end with exactly its object events. The at most three events before them are absence, focus or crowd events, never object events. |
| `VideoDetection.ObjectEventsHaveNoSpanTag` | src/hooks/useVideoDetection.ts:169-171 | Objects never raise absence, focus or multiple-faces events. |
| `VideoDetection.StepCount` | src/hooks/useVideoDetection.ts:99-184 | A tick's count of any tag splits over its four parts: absence, focus, multiple faces and objects. |
| `VideoDetection.AbsenceReportedIff` | src/hooks/useVideoDetection.ts:107-126 | `face_absent` is reported (at most once, and first) exactly when a face returns to an open span older than 10000 ms, strictly. It carries the span's start and length. A present face always closes the span. |
| `VideoDetection.FacelessTick` | src/hooks/useVideoDetection.ts:103-151 | A faceless tick opens an absence span at `now` only when none is open. It keeps an ongoing start, is never focused, leaves `focusLostStart` alone and reports no span event. |
| `VideoDetection.FocusLostReportedIff` | src/hooks/useVideoDetection.ts:128-151 | `focus_lost` is reported (at most once) exactly when a focused tick closes a span older than 5000 ms, strictly. The event is stamped with the span start and carries its length. |
| `VideoDetection.FocusSpanTransitions` | src/hooks/useVideoDetection.ts:128-151 | A focused tick always closes the focus span. A span opens, at `now`, exactly on a face-present, unfocused tick with no span open. An open span keeps its start while focus stays lost. |
| `VideoDetection.MultipleFacesEveryTick` | src/hooks/useVideoDetection.ts:153-161 | Exactly one `multiple_faces` event, stamped `now`, on every tick with more than one face, and none otherwise. |
| `VideoDetection.StepDisplayFields` | src/hooks/useVideoDetection.ts:103-165 | After a tick: presence, face count, focus exactly when a face is present and `analyzeFocus` holds, and every returned label, low-score ones included. |
| `VideoDetection.StepEstablishesSentinels` | src/hooks/useVideoDetection.ts:107-151 | After any tick, an open absence span means no face, and an open focus span means unfocused. |
| `VideoDetection.AbsenceThresholdIsStrict` | src/hooks/useVideoDetection.ts:110-111 | An absence of exactly 10000 ms is not reported. One of 10001 ms is reported with that duration. |
| `VideoDetection.FocusSpanStraddlesAbsence` | src/hooks/useVideoDetection.ts:122-151 | A concrete run: a focus-lost span survives an absence, so returning focused reports both spans, and the focus loss covers the absence. |
| `VideoDetection.MultipleFacesPerCrowdedTick` | src/hooks/useVideoDetection.ts:153-161 | There is no debouncing: over any run, `multiple_faces` events equal the number of ticks with several faces. |
| `VideoDetection.StepDurationsPositive` | src/hooks/useVideoDetection.ts:107-181 | Only the two span events carry a duration, and it is positive. |
| `VideoDetection.RunDurationsPositive` | src/hooks/useVideoDetection.ts:99-184 | Every duration in any run's events is positive. |
| `VideoDetection.EmitObjectEvents` | src/hooks/useVideoDetection.ts:167-181 | The `forEach` over objects emits exactly `ObjectEvents`. |
| `VideoDetection.UpdateState` | src/hooks/useVideoDetection.ts:99-184 | The field-by-field updater yields exactly `Step`'s new state and events. |
| `VideoDetection.Detector.constructor` | src/hooks/useVideoDetection.ts:6-16 | The hook's initial state: no face, focused, no spans open, models not loaded, no interval. |
| `VideoDetection.Detector.LoadModels` | src/hooks/useVideoDetection.ts:22-39 | The flag rises on a successful load. A failure leaves it as it was. |
| `VideoDetection.Detector.RunDetection` | src/hooks/useVideoDetection.ts:89-185 | Without models or a video element, a tick does nothing. Otherwise the state and events are `Step`'s, and the span invariant is kept. |
| `VideoDetection.Detector.StartDetection` | src/hooks/useVideoDetection.ts:187-198 | The old interval is cleared, a new handle becomes the only live one, and the detection state is not reset. |
| `VideoDetection.Detector.StopDetection` | src/hooks/useVideoDetection.ts:200-205 | No interval is left live and the handle is empty. Stopping an idle detector changes nothing. |
| `ProctoringReport.CalculateIntegrityScore` | src/components/ProctoringReport.tsx:31-58 | The penalty loop returns `IntegrityScore`: 100 minus all penalties, rounded once, floored at 0. |
| `ProctoringReport.IntegrityScore` | src/components/ProctoringReport.tsx:31-58 | The score as a function of the log; stated by `CalculateIntegrityScore`, `ScoreInRange`, `ScorePermutationInvariant`, `ScoreMonotoneUnderAppend` and `ScoreInIntegers`. |
| `ProctoringReport.TotalPenaltyAppend` | src/components/ProctoringReport.tsx:34-55 | Penalties add over concatenated logs. |
| `ProctoringReport.PenaltyBounds` | src/components/ProctoringReport.tsx:35-54 | One event costs at most 20 points, and nothing negative unless its duration is negative. |
| `ProctoringReport.TotalPenaltyNonNegative` | src/components/ProctoringReport.tsx:34-55 | With no negative durations, the total penalty is non-negative. |
| `ProctoringReport.EmptyLogScoresFull` | src/components/ProctoringReport.tsx:31-58 | An empty log scores 100. |
| `ProctoringReport.ScoreInRange` | src/components/ProctoringReport.tsx:57 | The score is never negative. With no negative durations it is at most 100. |
| `ProctoringReport.ScorePermutationInvariant` | src/components/ProctoringReport.tsx:34-55 | Any permutation of the log has the same score. |
| `ProctoringReport.TotalPenaltyPermutation` | src/components/ProctoringReport.tsx:34-55 | Any permutation of the log has the same total penalty. |
| `ProctoringReport.SumByPermutation` | src/components/ProctoringReport.tsx:34-55 | A sum over a sequence does not depend on the order of its elements. The total penalty is such a sum (`TotalPenaltyIsSum`). |
| `ProctoringReport.ScoreMonotoneUnderAppend` | src/components/ProctoringReport.tsx:34-57 | Appending an event with a non-negative duration never raises the score. |
| `ProctoringReport.ScaledPenalty` | src/components/ProctoringReport.tsx:35-54 | Each penalty in integer units of 1/2000 point is exactly 2000 times the real penalty. |
| `ProctoringReport.ScaledTotalExact` | src/components/ProctoringReport.tsx:34-55 | The scaled integer total is exactly 2000 times the real total. |
| `ProctoringReport.ScoreInIntegers` | src/components/ProctoringReport.tsx:31-58 | The score equals `max(0, (200000 - S + 1000) / 2000)`, where S is the scaled total. |
| `ProctoringReport.PenaltyExamples` | src/components/ProctoringReport.tsx:39-43 | A 12 s absence costs 6 points. Three `multiple_faces` events score 85. |
| `ProctoringReport.GetScoreColor` | src/components/ProctoringReport.tsx:62-66 | Green from 80, yellow from 60, red below; stated by `LabelAgreesWithColor` and `SessionStats.ScoreColorsAgree` (with `SessionStats.GetScoreColor`). |
| `ProctoringReport.GetScoreLabel` | src/components/ProctoringReport.tsx:68-73 | Excellent, Good, Fair, Poor; stated by `LabelAgreesWithColor` and `LabelMonotone`. |
| `ProctoringReport.LabelAgreesWithColor` | src/components/ProctoringReport.tsx:62-73 | Excellent is green, Good is yellow, and Fair and Poor are red. |
| `ProctoringReport.LabelMonotone` | src/components/ProctoringReport.tsx:68-73 | A higher score never gets a worse label. |
| `ProctoringReport.ReportDuration` | src/components/ProctoringReport.tsx:18 | `(endTime \|\| now) - startTime`; stated by `ReportDurationFrozenOnceEnded`. |
| `ProctoringReport.ReportDurationFrozenOnceEnded` | src/components/ProctoringReport.tsx:18 | With a non-zero end time, the duration is `end - start` at any clock. Without one, it grows with the clock. |
| `ProctoringReport.FormatDuration` | src/components/ProctoringReport.tsx:20-29 | The `h m s` text; stated by `FormatDurationParts` and `HoursShownIff`. |
| `ProctoringReport.FormatDurationParts` | src/components/ProctoringReport.tsx:20-29 | The hours, minutes below 60 and seconds below 60 rebuild the duration to the second. The hours part is printed only when positive. |
| `ProctoringReport.HoursShownIff` | src/components/ProctoringReport.tsx:25-28 | For any duration, the text has an `h` exactly from 3600000 ms on. |
| `ProctoringReport.CountsMatchStep` | src/components/ProctoringReport.tsx:75-78 | One reduce step keeps the counts exact. |
| `ProctoringReport.CountsMatchTotal` | src/components/ProctoringReport.tsx:75-78 | Exact counts sum to the log length and are empty only for an empty log. |
| `ProctoringReport.EventCounts` | src/components/ProctoringReport.tsx:75-78 | A key for exactly the tags that occur, each with its count. The counts sum to the log length, and there are no keys only for an empty log. |
| `SessionStats.DisplayedDuration` | src/components/SessionStats.tsx:11-13 | The panel's elapsed time; stated by `DisplayedDurationBehaviour`. |
| `SessionStats.DisplayedDurationBehaviour` | src/components/SessionStats.tsx:11-13 | While active, the display follows the clock. After a stop that stamped a non-zero end time, it is frozen. |
| `SessionStats.FormatDuration` | src/components/SessionStats.tsx:15-19 | The `m:ss` text; stated by `FormatDurationReadsBack`. |
| `SessionStats.TwoDigitSeconds` | src/components/SessionStats.tsx:18 | Seconds below 60 pad to exactly two digits that read back as the value. |
| `SessionStats.MinutesSecondsText` | src/components/SessionStats.tsx:18 | The `m:ss` text splits at the colon into digits reading back as the minutes and the seconds. |
| `SessionStats.FormatDurationReadsBack` | src/components/SessionStats.tsx:15-19 | For a non-negative duration: unbounded whole minutes, a colon and two digits of seconds below 60, which together rebuild the duration to the second. |
| `SessionStats.CalculateIntegrityScore` | src/components/SessionStats.tsx:21-49 | The panel's copy of the loop gives the report's score on every log. |
| `SessionStats.GetScoreColor` | src/components/SessionStats.tsx:52-56 | Green exactly from 80, red exactly below 60. |
| `SessionStats.ScoreColorsAgree` | src/components/SessionStats.tsx:52-56 | The panel and the report colour every score alike. |
| `SessionStats.EventCounts` | src/components/SessionStats.tsx:58-61 | Every key is a tag that occurs, with its count. The counts sum to the log length, and "No issues detected" shows exactly for an empty log. |
| `EventLog.RecentEvents` | src/components/EventLog.tsx:39 | `events.slice(-10).reverse()`; stated by `RecentEventsNewestFirst`. |
| `EventLog.RecentEventsNewestFirst` | src/components/EventLog.tsx:39 | The list has `min(10, n)` entries, and entry `i` is event `n-1-i`, so the newest comes first. |
| `EventLog.EventIcon` | src/components/EventLog.tsx:10-20 | `getEventIcon`; stated by `IconAndToneIdentifyType`. |
| `EventLog.EventTone` | src/components/EventLog.tsx:22-32 | `getEventColor`; stated by `IconAndToneIdentifyType`. |
| `EventLog.IconAndToneIdentifyType` | src/components/EventLog.tsx:10-32 | The default icon and colour never show. Icon and colour together identify the tag, although the icon alone does not. |
| `EventLog.DurationLine` | src/components/EventLog.tsx:74-77 | The optional duration line; stated by `DurationLineShownIff` and `TrackerEventsHaveNoStrayZero`. |
| `EventLog.DurationLineShownIff` | src/components/EventLog.tsx:74-77 | The seconds line shows exactly for a present, non-zero duration, rounded to the nearest second. |
| `EventLog.Render` | src/components/EventLog.tsx:39-57 | The header count and the rows; stated by `RenderShowsNewestTen`. |
| `EventLog.RenderShowsNewestTen` | src/components/EventLog.tsx:39-57 | The header counts the whole log. The rows render the newest ten, newest first. The placeholder shows exactly for an empty log. |
| `EventLog.TrackerEventsHaveNoStrayZero` | src/components/EventLog.tsx:74-77 | Events from the tracker never hit the stray "0" of a zero duration. |
| `VideoMonitor.GetStatusColor` | src/components/VideoMonitor.tsx:70-75 | The badge colour; stated by `StatusViewsAgree`. |
| `VideoMonitor.GetStatusIcon` | src/components/VideoMonitor.tsx:77-82 | The badge icon; stated by `StatusViewsAgree`. |
| `VideoMonitor.GetStatusText` | src/components/VideoMonitor.tsx:84-89 | The badge text; stated by `StatusViewsAgree`, `FocusedIff`, `LookingAwayOutranksCrowd` and `StatusAfterTick`. |
| `VideoMonitor.StatusViewsAgree` | src/components/VideoMonitor.tsx:70-89 | Colour, icon and text always pick corresponding branches. |
| `VideoMonitor.FocusedIff` | src/components/VideoMonitor.tsx:84-89 | "Focused" shows exactly when a face is present and focused and the face count is at most 1. |
| `VideoMonitor.LookingAwayOutranksCrowd` | src/components/VideoMonitor.tsx:84-89 | An unfocused crowd reads "Looking away", not a face count. |
| `VideoMonitor.StatusAfterTick` | src/components/VideoMonitor.tsx:70-89 | After a tick: "No face detected" exactly when it saw no face, "Focused" exactly for one focused face, and the count for a focused crowd. |
| `App.InterviewApp.constructor` | src/App.tsx:12-21 | Inactive, empty name, a session with no events and score 100, a fresh detector. |
| `App.InterviewApp.SetCandidateName` | src/App.tsx:13 | The name field holds the typed name. |
| `App.InterviewApp.HandleVideoReady` | src/App.tsx:27-29 | The video element becomes available. |
| `App.InterviewApp.HandleNewEvent` | src/App.tsx:31-36 | The event is appended at the end, and nothing else in the session changes. |
| `App.StartGuard` | src/App.tsx:38-52 | The guards of `handleStartInterview`; stated by `StartGuardIff`. |
| `App.StartGuardIff` | src/App.tsx:38-52 | Each refusal names the first guard that fails, in order: blank trimmed name, no video element, models not loaded. A start happens exactly when all three pass. |
| `App.InterviewApp.HandleStartInterview` | src/App.tsx:38-66 | The outcome is `StartGuard`'s, and a refusal changes nothing. A start installs a fresh session under the trimmed name, goes active and installs a new, sole interval. The detection state is kept. |
| `App.InterviewApp.BeginSession` | src/App.tsx:54-65 | After the guards: a fresh session with score 100 and no events under the given trimmed name, the session active, and one new live interval. |
| `App.InterviewApp.HandleStopInterview` | src/App.tsx:68-75 | The interval is cleared, the session is inactive, and `endTime` is set. Everything else is kept. |
| `App.InterviewApp.HandleNewEvents` | src/App.tsx:31-36 | Repeated `handleNewEvent` appends the events in order. |
| `App.InterviewApp.DeliverTick` | src/App.tsx:65 | A tick's emitted events (exactly `Step`'s) are appended to the session log in order. The score and totals stay untouched. |

## Left out

- **Model loading and inference.** The TensorFlow backend, the face model and the object model are asynchronous library calls. They are not part of this model. Each classifier call is an input, `Inference`: unavailable, threw, or returned predictions. A load is a success flag.
- **`analyzeFocus` geometry.** The landmark-ratio test (`deviation < 0.3`) is floating-point geometry. It is reduced to a boolean per face, `eyesCentred`. Only its branches for no faces and no landmarks are modelled.
- **Timers and React.** The model does not cover the interval's 1000 ms cadence, asynchronous interleaving of ticks, or the updater running inside a React state setter. One tick is one synchronous step, and a timer handle is a number.
- **Event ids.** Ids are an input string per tick. Their uniqueness is not modelled.
- **Floating point.** Numbers are exact integers and reals, so float rounding error in the score is not modelled. Durations from `Date.now()` are integers. Number-to-string is modelled for integers only, not for exponent forms.
- **`Math.round(score*100)`.** The confidence percentage in object descriptions is written with the exact `Round`. Confidence is compared with 0.5 and not otherwise interpreted.
- **Camera and UI.** Camera start-up, its error messages, the object overlay, `InterviewControls.tsx`, the report modal's open/close and `handleGenerateReport`, and all rendering are out of scope. For rendering, the clock time of a row and the `type.replace('_', ' ')` labels are left out.
- **Alerts.** The start guards' `alert` messages are not modelled as text. Each refusal is a `StartOutcome` tag.
- **Report export.** The JSON download of the report is out of scope.
- **Key order.** The order of `Object.entries` over the counts is not modelled. The counts are a map.
- **Dependency lists.** `handleStartInterview` does not list `isModelLoaded` among its dependencies. This has no effect: it depends on `startDetection`, which depends on `runDetection`, which lists `isModelLoaded`, so the callback is rebuilt whenever the flag changes. The model reads the current flag, as the code does.
- **Stored score and totals.** `integrityScore`, `totalFocusLostTime` and `totalAbsentTime` are stored in the session but never updated by any handler. The model keeps them at 100, 0 and 0 as an invariant, and the displayed score is always recomputed from the events.

## Where the code and the intended behaviour differ (the model follows the code)

Each of the first four lines gives the intended behaviour and then what the code does. The model follows the code.

- **State is not reset on start.** Intended: starting detection creates a fresh tracker state. The code: `startDetection` only replaces the interval and keeps `detectionState`, so a span opened before a stop can be reported after the next start (`Detector.StartDetection` states this).
- **The span invariant is weaker.** Intended: `focusLostStart` is non-zero only while a face is present and unfocused. The code: `focusLostStart` is left untouched on faceless ticks, so only `focusLostStart != 0 ==> !isFocused` holds. `VideoDetection.FocusSpanStraddlesAbsence` shows a focus span running through an absence.
- **No cancellation.** Intended: generation-based cancellation of in-flight ticks. The code: there is none, and a stop only clears the interval. `App.InterviewApp.DeliverTick` appends a tick's events whether or not the session is still active.
- **No upper clamp.** Intended: the score is clamped to [0, 100]. The code: it is only floored at 0, so a log with negative durations can score above 100. `ProctoringReport.ScoreInRange` proves the upper bound only for non-negative durations.

Two further quirks of the code, which the model keeps as well:

- **A zero end time counts as missing.** `endTime || now` treats an end time of 0 as missing and falls back to the clock (`ProctoringReport.EndOrNow`).
- **A zero duration prints "0".** `{event.duration && …}` renders a bare "0" for a zero duration (`EventLog.DurationCell.StrayZero`). The tracker never produces one (`EventLog.TrackerEventsHaveNoStrayZero`).
