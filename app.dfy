/** The interview page: the candidate name field, the session record, the
    active flag and the handlers that start and stop an interview and take
    in detection events. */
module App {
  import opened Js
  import opened ProctoringTypes
  import opened VideoDetection

  /** A session as the page creates it: no end time, no events, a stored
      score of 100 and both totals 0. */
  function FreshSession(name: string, now: nat): ProctoringSession
  {
    ProctoringSession(name, now, None, [], 0, 0, 100)
  }

  /** Why a start was refused, in the order the guards are tried. */
  datatype StartOutcome = Started | NameMissing | CameraNotReady | ModelsNotLoaded

  /** The guards of `handleStartInterview`, in the order they are tried. */
  function StartGuard(candidateName: string, hasVideoElement: bool, isModelLoaded: bool): StartOutcome
  {
    if Trim(candidateName) == "" then NameMissing
    else if !hasVideoElement then CameraNotReady
    else if !isModelLoaded then ModelsNotLoaded
    else Started
  }

  /** Each refusal names the first guard that fails, and a start happens
      exactly when the trimmed name is non-empty, the camera is ready and
      the models are loaded. */
  lemma StartGuardIff(candidateName: string, hasVideoElement: bool, isModelLoaded: bool)
    ensures var g := StartGuard(candidateName, hasVideoElement, isModelLoaded);
      && (g == NameMissing <==> Trim(candidateName) == "")
      && (g == CameraNotReady <==> Trim(candidateName) != "" && !hasVideoElement)
      && (g == ModelsNotLoaded <==> Trim(candidateName) != "" && hasVideoElement && !isModelLoaded)
      && (g == Started <==> Trim(candidateName) != "" && hasVideoElement && isModelLoaded)
  {
  }

  class InterviewApp {
    var isSessionActive: bool
    var candidateName: string
    var currentSession: ProctoringSession
    /** Whether the camera has handed over its video element. */
    var hasVideoElement: bool
    const detector: Detector

    /** The page's invariant: the session is active exactly while a tick
        interval is installed; an active session has no end time and a
        non-empty trimmed name; the stored score and totals keep their
        initial values, since no handler ever updates them. */
    ghost predicate Valid()
      reads this, detector
    {
      && detector.Valid()
      && (isSessionActive <==> detector.interval.Some?)
      && (isSessionActive ==>
            && currentSession.endTime == None
            && currentSession.candidateName != ""
            && Trim(currentSession.candidateName) == currentSession.candidateName)
      && currentSession.integrityScore == 100
      && currentSession.totalFocusLostTime == 0
      && currentSession.totalAbsentTime == 0
    }

    constructor (now: nat)
      ensures Valid() && fresh(detector)
      ensures !isSessionActive && candidateName == "" && !hasVideoElement
      ensures currentSession == FreshSession("", now)
      ensures detector.detectionState == InitialState(now) && !detector.isModelLoaded
    {
      isSessionActive := false;
      candidateName := "";
      currentSession := FreshSession("", now);
      hasVideoElement := false;
      detector := new Detector(now);
    }

    /** The name field's change handler. */
    method SetCandidateName(name: string)
      requires Valid()
      modifies this`candidateName
      ensures Valid() && candidateName == name
    {
      candidateName := name;
    }

    /** `handleVideoReady`: the camera's video element is now available. */
    method HandleVideoReady()
      requires Valid()
      modifies this`hasVideoElement
      ensures Valid() && hasVideoElement
    {
      hasVideoElement := true;
    }

    /** `handleNewEvent`: the event goes at the end of the log and nothing
        else in the session changes. */
    method HandleNewEvent(event: DetectionEvent)
      requires Valid()
      modifies this`currentSession
      ensures Valid()
      ensures currentSession == old(currentSession).(events := old(currentSession.events) + [event])
    {
      currentSession := currentSession.(events := currentSession.events + [event]);
    }

    /** `handleStartInterview`. The guards are tried in order (blank trimmed
        name, no video element, models not loaded) and a refusal changes
        nothing. A start installs a fresh session under the trimmed name,
        marks it active and installs a new tick interval in place of any old
        one; the detector's state is carried over, not reset. */
    method HandleStartInterview(now: nat) returns (outcome: StartOutcome)
      requires Valid()
      modifies this`currentSession, this`isSessionActive, detector`interval, detector`nextTimerId,
        detector`liveTimers
      ensures Valid()
      ensures outcome == StartGuard(candidateName, hasVideoElement, detector.isModelLoaded)
      ensures outcome != Started ==> unchanged(this) && unchanged(detector)
      ensures outcome == Started ==>
        && isSessionActive
        && currentSession == FreshSession(Trim(candidateName), now)
        && detector.interval.Some? && detector.liveTimers == {detector.interval.value}
        && detector.interval.value !in old(detector.liveTimers)
        && detector.detectionState == old(detector.detectionState)
    {
      var name := Trim(candidateName);
      if name == "" {
        return NameMissing;
      }
      if !hasVideoElement {
        return CameraNotReady;
      }
      if !detector.isModelLoaded {
        return ModelsNotLoaded;
      }
      TrimIdempotent(candidateName);
      BeginSession(name, now);
      outcome := Started;
    }

    /** The part of `handleStartInterview` after its guards have passed. */
    method BeginSession(name: string, now: nat)
      requires Valid() && name != "" && Trim(name) == name
      modifies this`currentSession, this`isSessionActive, detector`interval, detector`nextTimerId,
        detector`liveTimers
      ensures Valid()
      ensures isSessionActive && currentSession == FreshSession(name, now)
      ensures detector.interval.Some? && detector.liveTimers == {detector.interval.value}
      ensures detector.interval.value !in old(detector.liveTimers)
      ensures detector.detectionState == old(detector.detectionState)
    {
      currentSession := FreshSession(name, now);
      isSessionActive := true;
      detector.StartDetection();
    }

    /** `handleStopInterview`: the interval is cleared, the session becomes
        inactive and gets an end time; its events and other fields are kept.
        There is no guard, so a second stop moves the end time again. */
    method HandleStopInterview(now: nat)
      requires Valid()
      modifies this`currentSession, this`isSessionActive, detector`interval, detector`liveTimers
      ensures Valid()
      ensures !isSessionActive && detector.interval == None && detector.liveTimers == {}
      ensures currentSession == old(currentSession).(endTime := Some(now))
      ensures detector.detectionState == old(detector.detectionState)
    {
      detector.StopDetection();
      isSessionActive := false;
      currentSession := currentSession.(endTime := Some(now));
    }

    /** `handleNewEvent` called once per event, in order. */
    method HandleNewEvents(events: seq<DetectionEvent>)
      requires Valid()
      modifies this`currentSession
      ensures Valid()
      ensures currentSession == old(currentSession).(events := old(currentSession.events) + events)
    {
      for i := 0 to |events|
        invariant Valid()
        invariant currentSession == old(currentSession).(events := old(currentSession.events) + events[..i])
      {
        assert old(currentSession.events) + events[..i + 1] == old(currentSession.events) + events[..i] + [events[i]];
        HandleNewEvent(events[i]);
      }
      assert events[..|events|] == events;
    }

    /** One tick of the installed interval, with `handleNewEvent` as the
        detector's sink: whatever the tick emits is appended to the log in
        emission order. Nothing checks that the session is still active, so
        a tick that fires after a stop still lands in the log. */
    method DeliverTick(faceResult: Inference<Face>, objectResult: Inference<Prediction>, now: nat, id: string)
      returns (emitted: seq<DetectionEvent>)
      requires Valid()
      modifies this`currentSession, detector`detectionState
      ensures Valid()
      ensures currentSession == old(currentSession).(events := old(currentSession.events) + emitted)
      ensures var r := Step(old(detector.detectionState), DetectFaces(faceResult), DetectObjects(objectResult), now, id);
        if detector.isModelLoaded && hasVideoElement
        then detector.detectionState == r.next && emitted == r.events
        else detector.detectionState == old(detector.detectionState) && emitted == []
    {
      emitted := detector.RunDetection(hasVideoElement, faceResult, objectResult, now, id);
      HandleNewEvents(emitted);
    }
  }
}
