/** MotionDetector.detect_motion of motion_detector.py.
  *
  * Background subtraction, morphology and contour extraction (OpenCV) are an oracle:
  * for a given frame they yield the external contours, each with its area and its
  * bounding rectangle, or they fault. What the model checks is the decision made on
  * top of them. */
module MotionDetection {
  import opened Common

  /** (x, y, w, h) as returned by cv2.boundingRect. */
  datatype Rect = Rect(x: int, y: int, w: int, h: int)

  /** A contour as the filter sees it: cv2.contourArea and cv2.boundingRect of it. */
  datatype Contour = Contour(area: real, rect: Rect)

  /** What the OpenCV pipeline gives for one frame: its contours, or a raised exception, either
    * from the background subtractor's `apply` itself (the frame is not learned) or from the
    * morphology or contour steps after it (the frame was learned). */
  datatype Pipeline = Contours(found: seq<Contour>) | ApplyFault | ContourFault

  predicate Qualifies(c: Contour, minArea: real)
  {
    c.area > minArea
  }

  /** The bounding boxes of the contours whose area is strictly above `minArea`, in contour order. */
  function MotionBoxes(cs: seq<Contour>, minArea: real): (boxes: seq<Rect>)
    ensures |boxes| <= |cs|
  {
    if cs == [] then []
    else
      var last := cs[|cs| - 1];
      MotionBoxes(cs[..|cs| - 1], minArea) + (if Qualifies(last, minArea) then [last.rect] else [])
  }

  /** The filter distributes over concatenation, so boxes come out in contour order. */
  lemma {:induction false} MotionBoxesAppend(a: seq<Contour>, b: seq<Contour>, minArea: real)
    ensures MotionBoxes(a + b, minArea) == MotionBoxes(a, minArea) + MotionBoxes(b, minArea)
    decreases |b|
  {
    if b == [] {
      assert a + b == a;
    } else {
      var init := b[..|b| - 1];
      assert (a + b)[..|a + b| - 1] == a + init;
      MotionBoxesAppend(a, init, minArea);
    }
  }

  /** A rectangle is reported exactly when some contour with area above the threshold has it. */
  lemma {:induction false} MotionBoxesMembership(cs: seq<Contour>, minArea: real, r: Rect)
    ensures r in MotionBoxes(cs, minArea) <==>
      exists i :: 0 <= i < |cs| && Qualifies(cs[i], minArea) && cs[i].rect == r
  {
    if cs != [] {
      var init := cs[..|cs| - 1];
      MotionBoxesMembership(init, minArea, r);
      if r in MotionBoxes(init, minArea) {
        var i :| 0 <= i < |init| && Qualifies(init[i], minArea) && init[i].rect == r;
        assert cs[i] == init[i];
      }
      if exists i :: 0 <= i < |cs| && Qualifies(cs[i], minArea) && cs[i].rect == r {
        var i :| 0 <= i < |cs| && Qualifies(cs[i], minArea) && cs[i].rect == r;
        if i < |init| {
          assert init[i] == cs[i];
        }
      }
    }
  }

  /** Motion is found exactly when at least one contour is strictly larger than the threshold. */
  lemma {:induction false} MotionFoundIffLargeContour(cs: seq<Contour>, minArea: real)
    ensures |MotionBoxes(cs, minArea)| > 0 <==> exists i :: 0 <= i < |cs| && Qualifies(cs[i], minArea)
  {
    if cs != [] {
      var init := cs[..|cs| - 1];
      MotionFoundIffLargeContour(init, minArea);
      if exists i :: 0 <= i < |init| && Qualifies(init[i], minArea) {
        var i :| 0 <= i < |init| && Qualifies(init[i], minArea);
        assert cs[i] == init[i];
      }
      if exists i :: 0 <= i < |cs| && Qualifies(cs[i], minArea) {
        var i :| 0 <= i < |cs| && Qualifies(cs[i], minArea);
        if i < |init| {
          assert init[i] == cs[i];
        }
      }
    }
  }

  /** The threshold is strict: a contour of area exactly `minArea` is dropped, one unit more is kept. */
  lemma StrictThreshold(minArea: real, r: Rect)
    ensures MotionBoxes([Contour(minArea, r)], minArea) == []
    ensures MotionBoxes([Contour(minArea + 1.0, r)], minArea) == [r]
  {
    assert [Contour(minArea, r)][..0] == [];
    assert [Contour(minArea + 1.0, r)][..0] == [];
  }

  class MotionDetector {
    const minArea: real
    /** time.time() of the last frame in which motion was found (0 at start). */
    var lastMotionTime: real
    /** The frames the background model has learned from, oldest first. */
    var learned: seq<Frame>

    constructor (minArea: real)
      ensures this.minArea == minArea && lastMotionTime == 0.0 && learned == []
    {
      this.minArea := minArea;
      lastMotionTime := 0.0;
      learned := [];
    }

    /** detect_motion(frame): a missing frame or a fault gives (False, []); otherwise the boxes of
      * the contours above the threshold, and the flag says whether there is any. */
    method DetectMotion(frame: Option<Frame>, pipeline: Pipeline, now: real)
      returns (detected: bool, boxes: seq<Rect>)
      modifies this
      ensures frame.None? ==> !detected && boxes == [] && unchanged(this)
      ensures frame.Some? && pipeline.ApplyFault? ==> learned == old(learned)
      ensures frame.Some? && !pipeline.ApplyFault? ==> learned == old(learned) + [frame.value]
      ensures pipeline.ApplyFault? || pipeline.ContourFault? ==> !detected && boxes == []
      ensures frame.Some? && pipeline.Contours? ==> boxes == MotionBoxes(pipeline.found, minArea)
      ensures detected <==> |boxes| > 0
      ensures lastMotionTime == if detected then now else old(lastMotionTime)
    {
      if frame.None? {
        return false, [];
      }
      if pipeline.ApplyFault? {
        return false, [];
      }
      learned := learned + [frame.value];
      if pipeline.ContourFault? {
        return false, [];
      }
      var contours := pipeline.found;
      detected := false;
      boxes := [];
      var i := 0;
      while i < |contours|
        invariant 0 <= i <= |contours|
        invariant boxes == MotionBoxes(contours[..i], minArea)
        invariant detected <==> |boxes| > 0
      {
        assert contours[..i + 1][..i] == contours[..i];
        if contours[i].area > minArea {
          detected := true;
          boxes := boxes + [contours[i].rect];
        }
        i := i + 1;
      }
      assert contours[..|contours|] == contours;
      if detected {
        lastMotionTime := now;
      }
    }
  }
}
