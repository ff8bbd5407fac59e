/** The status badge over the candidate video: a colour, an icon and a text
    chosen by the same three tests on the detection state, in the same
    order: no face, then not focused, then more than one face. */
module VideoMonitor {
  import opened Js
  import opened ProctoringTypes
  import VideoDetection

  /** `text-red-500`, `text-yellow-500`, `text-orange-500`, `text-green-500`. */
  datatype StatusColor = RedStatus | YellowStatus | OrangeStatus | GreenStatus

  datatype StatusIcon = XCircle | AlertTriangle | CheckCircle

  function GetStatusColor(s: DetectionState): StatusColor
  {
    if !s.isFacePresent then RedStatus
    else if !s.isFocused then YellowStatus
    else if s.faceCount > 1 then OrangeStatus
    else GreenStatus
  }

  function GetStatusIcon(s: DetectionState): StatusIcon
  {
    if !s.isFacePresent then XCircle
    else if !s.isFocused then AlertTriangle
    else if s.faceCount > 1 then AlertTriangle
    else CheckCircle
  }

  function GetStatusText(s: DetectionState): string
  {
    if !s.isFacePresent then "No face detected"
    else if !s.isFocused then "Looking away"
    else if s.faceCount > 1 then NatToString(s.faceCount) + " faces detected"
    else "Focused"
  }

  /** The three functions always pick corresponding branches: each colour
      comes with one text, and the warning icon covers exactly the yellow
      and orange states. */
  lemma StatusViewsAgree(s: DetectionState)
    ensures GetStatusColor(s) == RedStatus <==> GetStatusText(s) == "No face detected"
    ensures GetStatusColor(s) == YellowStatus <==> GetStatusText(s) == "Looking away"
    ensures GetStatusColor(s) == OrangeStatus <==> GetStatusText(s) == NatToString(s.faceCount) + " faces detected"
    ensures GetStatusColor(s) == GreenStatus <==> GetStatusText(s) == "Focused"
    ensures GetStatusIcon(s) == XCircle <==> GetStatusColor(s) == RedStatus
    ensures GetStatusIcon(s) == CheckCircle <==> GetStatusColor(s) == GreenStatus
  {
    var crowd := NatToString(s.faceCount) + " faces detected";
    assert |crowd| >= 16;
    assert crowd[|crowd| - 15..] == " faces detected";
    if |crowd| == 16 {
      assert crowd[0] == NatToString(s.faceCount)[0];
      assert crowd != "No face detected";
    }
  }

  /** "Focused" shows exactly when a face is present, focused, and alone. */
  lemma FocusedIff(s: DetectionState)
    ensures GetStatusText(s) == "Focused" <==> s.isFacePresent && s.isFocused && s.faceCount <= 1
  {
    StatusViewsAgree(s);
  }

  /** Looking away outranks a crowd: an unfocused state with several faces
      reads "Looking away", not a face count. */
  lemma LookingAwayOutranksCrowd(s: DetectionState)
    requires s.isFacePresent && !s.isFocused && s.faceCount > 1
    ensures GetStatusText(s) == "Looking away"
    ensures GetStatusText(s) != NatToString(s.faceCount) + " faces detected"
  {
    StatusViewsAgree(s);
  }

  /** Right after a tick the badge reads the tick's own findings: no face
      when the tick saw none, "Focused" exactly when it saw one face looking
      at the screen, and the face count when a focused crowd was seen. */
  lemma StatusAfterTick(prev: DetectionState, faces: seq<VideoDetection.Face>,
                        objects: seq<VideoDetection.Prediction>, now: nat, id: string)
    ensures var next := VideoDetection.Step(prev, faces, objects, now, id).next;
      && (GetStatusText(next) == "No face detected" <==> |faces| == 0)
      && (GetStatusText(next) == "Focused" <==> |faces| == 1 && VideoDetection.AnalyzeFocus(faces))
      && (|faces| > 1 && VideoDetection.AnalyzeFocus(faces) ==>
            GetStatusText(next) == NatToString(|faces|) + " faces detected")
  {
    var next := VideoDetection.Step(prev, faces, objects, now, id).next;
    StatusViewsAgree(next);
  }
}
