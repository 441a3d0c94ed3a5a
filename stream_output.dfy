/** The frame outputs of streamserver.py: StreamingOutput (the latest-frame slot),
  * MotionStreamingOutput (per-frame fan-out into the pre-roll buffer and the recorder)
  * and one iteration of its motion-processing loop.
  *
  * Locks, condition variables and the processing thread are left out: each operation
  * is one sequential step. JPEG decoding is an oracle (`decoded`), as are the clock
  * (`now`, `stamp`), the OpenCV pipeline (`pipeline`), the video writer (`outcome`)
  * and the file system (`fileExists`). */
module StreamOutput {
  import opened Common
  import opened VideoRecording
  import opened MotionDetection

  /** The single latest-frame slot shared by the camera and the viewers. */
  class StreamingOutput {
    var frame: Option<seq<byte>>
    var lastFrameTime: real

    constructor (now: real)
      ensures frame.None? && lastFrameTime == now
    {
      frame := None;
      lastFrameTime := now;
    }

    /** write(buf): the slot now holds `buf`, stamped `now`; the byte count is returned. */
    method Write(buf: seq<byte>, now: real) returns (n: nat)
      modifies this
      ensures frame == Some(buf) && lastFrameTime == now
      ensures n == |buf|
    {
      frame := Some(buf);
      lastFrameTime := now;
      n := |buf|;
    }
  }

  /** Whether the detector reports motion for a frame whose OpenCV pipeline gives `pipeline`. */
  predicate Detects(pipeline: Pipeline, minArea: real)
  {
    pipeline.Contours? && |MotionBoxes(pipeline.found, minArea)| > 0
  }

  /** Python's truth value of a tuple: true exactly when it has at least one component. */
  function TupleTruth(arity: nat): bool
  {
    arity > 0
  }

  /** The test of streamserver.py:146-148 as written: `motion_detected` is bound to the whole
    * (flag, boxes) pair that detect_motion returns, and a pair is always true. */
  function MotionDecisionAsWritten(result: (bool, seq<Rect>)): bool
  {
    TupleTruth(2)
  }

  /** The evident intent of that test: the detector's flag. */
  function MotionDecision(result: (bool, seq<Rect>)): bool
  {
    result.0
  }

  /** As written, a frame with no motion at all, (False, []), is taken for motion (and starts a
    * recording when none is active); the corrected test does not. */
  lemma AsWrittenTakesNoMotionForMotion()
    ensures MotionDecisionAsWritten((false, []))
    ensures !MotionDecision((false, []))
  {
  }

  /** The corrected test follows the detector exactly: true iff some contour is above the threshold. */
  lemma MotionDecisionMeansLargeContour(cs: seq<Contour>, minArea: real)
    ensures MotionDecision((|MotionBoxes(cs, minArea)| > 0, MotionBoxes(cs, minArea))) <==>
      exists i :: 0 <= i < |cs| && Qualifies(cs[i], minArea)
  {
    MotionFoundIffLargeContour(cs, minArea);
  }

  class MotionStreamingOutput {
    const output: StreamingOutput
    const detector: MotionDetector
    const circularBuffer: CircularVideoBuffer
    const videoRecorder: VideoRecorder
    var frameCount: nat
    var motionStatus: string
    var motionProcessingActive: bool
    var latestFrameForProcessing: Option<Frame>

    ghost predicate Valid()
      reads this, circularBuffer, videoRecorder, videoRecorder.database
    {
      circularBuffer.Valid() && videoRecorder.Valid()
    }

    constructor (now: real, minArea: real, maxPreFrames: nat, outputDir: string, maxPostFrames: nat)
      ensures Valid()
      ensures fresh(output) && fresh(detector) && fresh(circularBuffer) && fresh(videoRecorder)
      ensures fresh(videoRecorder.database)
      ensures output.frame.None? && output.lastFrameTime == now
      ensures detector.minArea == minArea && detector.lastMotionTime == 0.0 && detector.learned == []
      ensures circularBuffer.maxFrames == maxPreFrames && circularBuffer.buffer == [] && circularBuffer.added == []
      ensures videoRecorder.outputDir == outputDir && videoRecorder.maxPostFrames == maxPostFrames
      ensures !videoRecorder.isRecording && videoRecorder.database.events == []
      ensures frameCount == 0 && motionStatus == "No Motion" && motionProcessingActive
      ensures latestFrameForProcessing.None?
    {
      var out := new StreamingOutput(now);
      var database := new EventDatabase();
      assert out.frame.None? && out.lastFrameTime == now;
      var det := new MotionDetector(minArea);
      var buf := new CircularVideoBuffer(maxPreFrames);
      assert det.minArea == minArea && det.lastMotionTime == 0.0 && det.learned == [];
      assert buf.Valid() && buf.buffer == [] && buf.added == [] && buf.maxFrames == maxPreFrames;
      var rec := new VideoRecorder(outputDir, maxPostFrames, database);
      assert rec.Valid() && !rec.isRecording && rec.database == database && database.events == [];
      assert out.frame.None? && out.lastFrameTime == now && buf.Valid() && buf.buffer == [];
      output := out;
      detector := det;
      circularBuffer := buf;
      videoRecorder := rec;
      frameCount := 0;
      motionStatus := "No Motion";
      motionProcessingActive := true;
      latestFrameForProcessing := None;
    }

    /** write(buf): publish `buf`, then, when it decodes to a frame, count it, keep it for the
      * motion thread, append it to the pre-roll buffer and, while recording, to the clip. */
    method Write(buf: seq<byte>, decoded: Option<Frame>, now: real, fileExists: bool) returns (n: nat)
      requires Valid()
      modifies this, output, circularBuffer, videoRecorder, videoRecorder.database
      ensures Valid()
      ensures n == |buf| && output.frame == Some(buf) && output.lastFrameTime == now
      ensures frameCount == old(frameCount) + (if decoded.Some? then 1 else 0)
      ensures latestFrameForProcessing == if decoded.Some? then decoded else old(latestFrameForProcessing)
      ensures circularBuffer.added == old(circularBuffer.added) + (if decoded.Some? then [(decoded.value, now)] else [])
      ensures videoRecorder.State() ==
        if decoded.Some? && old(videoRecorder.isRecording)
        then AddFrameSpec(old(videoRecorder.State()), decoded, videoRecorder.maxPostFrames, fileExists).0
        else old(videoRecorder.State())
      ensures motionStatus == old(motionStatus) && motionProcessingActive == old(motionProcessingActive)
    {
      n := output.Write(buf, now);
      if decoded.Some? {
        frameCount := frameCount + 1;
        latestFrameForProcessing := decoded;
        circularBuffer.AddFrame(decoded, now);
        if videoRecorder.isRecording {
          var _ := videoRecorder.AddFrame(decoded, fileExists);
        }
      }
    }

    /** The reaction to a motion decision at streamserver.py:148-159: on motion the status becomes
      * "Motion Detected!" and, when no recording is active, a recording starts from the pre-roll
      * buffer with the frame's size; otherwise the status becomes "No Motion". */
    method ActOnDecision(frame: Frame, motion: bool, now: real, outcome: OpenOutcome, stamp: string)
      requires Valid()
      modifies this, videoRecorder
      ensures Valid()
      ensures motionStatus == if motion then "Motion Detected!" else "No Motion"
      ensures videoRecorder.State() ==
        if motion && !old(videoRecorder.isRecording)
        then StartSpec(old(videoRecorder.State()), Offered(circularBuffer.buffer), (frame.width, frame.height),
                       outcome, videoRecorder.outputDir, stamp, now).0
        else old(videoRecorder.State())
      ensures latestFrameForProcessing == old(latestFrameForProcessing)
      ensures frameCount == old(frameCount) && motionProcessingActive == old(motionProcessingActive)
    {
      if motion {
        motionStatus := "Motion Detected!";
        if !videoRecorder.isRecording {
          var pre := circularBuffer.GetPrebufferFrames();
          var _ := videoRecorder.StartRecording(Offered(pre), (frame.width, frame.height), outcome, stamp, now);
        }
      } else {
        motionStatus := "No Motion";
      }
    }

    /** One pass of _motion_processing_loop as written: take and clear the pending frame and run
      * the detector; the test at streamserver.py:146-148 is on the returned pair, which is always
      * true, so the status becomes "Motion Detected!" and, when no recording is active, a recording
      * starts from the pre-roll buffer, whatever the detector found. Nothing happens when no frame
      * is pending. */
    method MotionLoopStep(pipeline: Pipeline, now: real, outcome: OpenOutcome, stamp: string)
      requires Valid()
      modifies this, detector, videoRecorder
      ensures Valid()
      ensures old(latestFrameForProcessing).None? ==>
        latestFrameForProcessing.None? && motionStatus == old(motionStatus) &&
        videoRecorder.State() == old(videoRecorder.State()) && unchanged(detector) &&
        detector.lastMotionTime == old(detector.lastMotionTime)
      ensures old(latestFrameForProcessing).Some? ==>
        var f := old(latestFrameForProcessing).value;
        latestFrameForProcessing.None? &&
        detector.learned == old(detector.learned) + (if pipeline.ApplyFault? then [] else [f]) &&
        detector.lastMotionTime == (if Detects(pipeline, detector.minArea) then now else old(detector.lastMotionTime)) &&
        motionStatus == "Motion Detected!" &&
        videoRecorder.State() ==
          if !old(videoRecorder.isRecording)
          then StartSpec(old(videoRecorder.State()), Offered(circularBuffer.buffer), (f.width, f.height),
                         outcome, videoRecorder.outputDir, stamp, now).0
          else old(videoRecorder.State())
      ensures frameCount == old(frameCount) && motionProcessingActive == old(motionProcessingActive)
    {
      if latestFrameForProcessing.Some? {
        var frame := latestFrameForProcessing.value;
        latestFrameForProcessing := None;
        var detected, boxes := detector.DetectMotion(Some(frame), pipeline, now);
        ActOnDecision(frame, MotionDecisionAsWritten((detected, boxes)), now, outcome, stamp);
      }
    }

    /** The same pass with the evidently intended test on the detector's flag: the status follows
      * the detection, and a recording starts only on motion while no recording is active. */
    method MotionLoopStepCorrected(pipeline: Pipeline, now: real, outcome: OpenOutcome, stamp: string)
      requires Valid()
      modifies this, detector, videoRecorder
      ensures Valid()
      ensures old(latestFrameForProcessing).None? ==>
        latestFrameForProcessing.None? && motionStatus == old(motionStatus) &&
        videoRecorder.State() == old(videoRecorder.State()) && unchanged(detector) &&
        detector.lastMotionTime == old(detector.lastMotionTime)
      ensures old(latestFrameForProcessing).Some? ==>
        var f := old(latestFrameForProcessing).value;
        latestFrameForProcessing.None? &&
        detector.learned == old(detector.learned) + (if pipeline.ApplyFault? then [] else [f]) &&
        detector.lastMotionTime == (if Detects(pipeline, detector.minArea) then now else old(detector.lastMotionTime)) &&
        (motionStatus == if Detects(pipeline, detector.minArea) then "Motion Detected!" else "No Motion") &&
        videoRecorder.State() ==
          if Detects(pipeline, detector.minArea) && !old(videoRecorder.isRecording)
          then StartSpec(old(videoRecorder.State()), Offered(circularBuffer.buffer), (f.width, f.height),
                         outcome, videoRecorder.outputDir, stamp, now).0
          else old(videoRecorder.State())
      ensures videoRecorder.isRecording && !old(videoRecorder.isRecording) ==> Detects(pipeline, detector.minArea)
      ensures frameCount == old(frameCount) && motionProcessingActive == old(motionProcessingActive)
    {
      if latestFrameForProcessing.Some? {
        var frame := latestFrameForProcessing.value;
        latestFrameForProcessing := None;
        var detected, boxes := detector.DetectMotion(Some(frame), pipeline, now);
        ActOnDecision(frame, MotionDecision((detected, boxes)), now, outcome, stamp);
      }
    }

    /** stop_motion_processing(): end the loop and force-stop an active recording (no event). */
    method StopMotionProcessing()
      requires Valid()
      modifies this, videoRecorder
      ensures Valid()
      ensures !motionProcessingActive
      ensures videoRecorder.State() == ForceStopSpec(old(videoRecorder.State()))
      ensures videoRecorder.database.events == old(videoRecorder.database.events)
      ensures frameCount == old(frameCount) && motionStatus == old(motionStatus)
      ensures latestFrameForProcessing == old(latestFrameForProcessing)
    {
      motionProcessingActive := false;
      if videoRecorder.isRecording {
        videoRecorder.ForceStop();
      }
    }
  }
}
