/** The pre-roll ring buffer and the motion recorder of video_recorder.py.
  *
  * OpenCV's `VideoWriter` is modelled as a `Writer` value that records whether it
  * opened and which frames were written to it; the wall clock and the file system
  * are parameters (`now`, the timestamp text of the file name, `fileExists`). */
module VideoRecording {
  import opened Common

  // ---------------------------------------------------------------------------
  // CircularVideoBuffer: a deque(maxlen = max_frames) of (frame, timestamp)
  // ---------------------------------------------------------------------------

  type Stamped = (Frame, real)

  /** The last `k` entries of `s` (all of `s` when it has at most `k`). */
  function LastN<T>(s: seq<T>, k: nat): (r: seq<T>)
    ensures |r| == if |s| <= k then |s| else k
    ensures r == s[|s| - |r|..]
  {
    if |s| <= k then s else s[|s| - k..]
  }

  /** `d.append(x)` on a `deque(maxlen=k)`: when the deque is full the leftmost entry drops out. */
  function DequeAppend<T>(d: seq<T>, x: T, k: nat): (r: seq<T>)
    ensures |d| < k ==> r == d + [x]
    ensures |d| <= k ==> |r| <= k
    ensures k > 0 ==> |r| > 0 && r[|r| - 1] == x
    ensures k == 0 ==> r == []
  {
    if |d| < k then d + [x] else if k == 0 then [] else (d + [x])[1..]
  }

  /** Appending to a bounded deque that holds the last `k` of `s` gives the last `k` of `s + [x]`. */
  lemma DequeAppendKeepsWindow<T>(s: seq<T>, x: T, k: nat)
    ensures DequeAppend(LastN(s, k), x, k) == LastN(s + [x], k)
  {
    var d := LastN(s, k);
    if |d| < k {
      assert d == s;
    } else if k > 0 {
      assert |d| == k;
      calc {
        (d + [x])[1..];
        == (s[|s| - k..] + [x])[1..];
        == { assert s[|s| - k..] + [x] == (s + [x])[|s| - k..]; }
        (s + [x])[|s| - k..][1..];
        == (s + [x])[|s + [x]| - k..];
      }
    }
  }

  /** The buffer entry each `add_frame` argument makes: the frame with its timestamp, or none. */
  function Entries(frames: seq<(Option<Frame>, real)>): (r: seq<Option<Stamped>>)
    ensures |r| == |frames|
    ensures forall i :: 0 <= i < |frames| ==>
      r[i] == if frames[i].0.Some? then Some((frames[i].0.value, frames[i].1)) else None
  {
    seq(|frames|, i requires 0 <= i < |frames| =>
      if frames[i].0.Some? then Some((frames[i].0.value, frames[i].1)) else None)
  }

  /** Every frame given to `add_frame` since construction or the last `clear`, stamped. */
  function Adds(frames: seq<(Option<Frame>, real)>): (r: seq<Stamped>)
    ensures |r| <= |frames|
  {
    Present(Entries(frames))
  }

  lemma AddsLast(frames: seq<(Option<Frame>, real)>)
    requires frames != []
    ensures var last := frames[|frames| - 1];
      Adds(frames) == Adds(frames[..|frames| - 1]) + (if last.0.Some? then [(last.0.value, last.1)] else [])
  {
    assert Entries(frames)[..|frames| - 1] == Entries(frames[..|frames| - 1]);
  }

  /** The deque after a sequence of `add_frame` calls, one append at a time, starting empty. */
  function Replay(frames: seq<(Option<Frame>, real)>, k: nat): (r: seq<Stamped>)
    ensures |r| <= k
  {
    if frames == [] then []
    else
      var last := frames[|frames| - 1];
      var d := Replay(frames[..|frames| - 1], k);
      if last.0.Some? then DequeAppend(d, (last.0.value, last.1), k) else d
  }

  /** After any sequence of `add_frame` calls the buffer holds the last `k` present frames,
    * oldest first, and never more than `k` entries. */
  lemma {:induction false} ReplayIsWindow(frames: seq<(Option<Frame>, real)>, k: nat)
    ensures Replay(frames, k) == LastN(Adds(frames), k)
    ensures |Replay(frames, k)| <= k
  {
    if frames != [] {
      var init := frames[..|frames| - 1];
      var last := frames[|frames| - 1];
      ReplayIsWindow(init, k);
      AddsLast(frames);
      if last.0.Some? {
        DequeAppendKeepsWindow(Adds(init), (last.0.value, last.1), k);
      }
    }
  }

  class CircularVideoBuffer {
    /** int(pre_buffer_duration * fps), fixed at construction. */
    const maxFrames: nat
    var buffer: seq<Stamped>
    /** The frames appended since construction or the last clear. */
    ghost var added: seq<Stamped>

    ghost predicate Valid()
      reads this
    {
      buffer == LastN(added, maxFrames)
    }

    constructor (maxFrames: nat)
      ensures Valid()
      ensures this.maxFrames == maxFrames && buffer == [] && added == []
    {
      this.maxFrames := maxFrames;
      buffer := [];
      added := [];
    }

    /** A missing frame is ignored; otherwise the frame is appended with its timestamp,
      * evicting the oldest entry when the buffer is full. */
    method AddFrame(frame: Option<Frame>, now: real)
      requires Valid()
      modifies this
      ensures Valid()
      ensures frame.None? ==> buffer == old(buffer) && added == old(added)
      ensures frame.Some? ==> added == old(added) + [(frame.value, now)]
      ensures frame.Some? && old(|buffer|) == maxFrames && maxFrames > 0 ==> buffer[..|buffer| - 1] == old(buffer)[1..]
      ensures |buffer| <= maxFrames
    {
      if frame.Some? {
        DequeAppendKeepsWindow(added, (frame.value, now), maxFrames);
        buffer := DequeAppend(buffer, (frame.value, now), maxFrames);
        added := added + [(frame.value, now)];
      }
    }

    /** list(self.buffer): the buffered frames, oldest first. */
    method GetPrebufferFrames() returns (frames: seq<Stamped>)
      requires Valid()
      ensures frames == LastN(added, maxFrames)
      ensures |frames| <= maxFrames
    {
      frames := buffer;
    }

    method Clear()
      modifies this
      ensures Valid()
      ensures buffer == [] && added == []
    {
      buffer := [];
      added := [];
    }

    /** True exactly when at least max_frames frames were added since the last clear. */
    method IsFull() returns (full: bool)
      requires Valid()
      ensures full <==> |buffer| == maxFrames
      ensures full <==> |added| >= maxFrames
    {
      full := |buffer| == maxFrames;
    }
  }

  // ---------------------------------------------------------------------------
  // VideoRecorder: Idle / Recording with a post-motion frame counter
  // ---------------------------------------------------------------------------

  /** An OpenCV VideoWriter: the file it writes, whether it opened, its frame size, the frames written. */
  datatype Writer = Writer(path: string, isOpen: bool, frameSize: (nat, nat), frames: seq<Frame>)

  /** What constructing the VideoWriter does: it opens, it comes back unopened, or it raises. */
  datatype OpenOutcome = Opens | FailsToOpen | Raises

  /** The recorder's fields, plus the writers released so far and the database's event log. */
  datatype RecorderState = RecorderState(
    isRecording: bool,
    currentWriter: Option<Writer>,
    currentFilename: Option<string>,
    recordingStartTime: Option<real>,
    postMotionFrames: nat,
    released: seq<Writer>,
    events: seq<string>)

  /** os.path.join(dir, name) for a relative `name`. */
  function JoinPath(dir: string, name: string): (p: string)
    ensures |p| >= |name| && p[|p| - |name|..] == name
  {
    if dir == [] then name
    else if dir[|dir| - 1] == '/' then dir + name
    else dir + "/" + name
  }

  /** The file name `motion_<stamp>.mp4`, `stamp` being the `%Y%m%d_%H%M%S` text of the clock. */
  function ClipName(stamp: string): (name: string)
    ensures |name| == |stamp| + 11
    ensures name[..7] == "motion_" && name[7..7 + |stamp|] == stamp && name[|name| - 4..] == ".mp4"
  {
    "motion_" + stamp + ".mp4"
  }

  /** The frame slot of each prebuffer entry. */
  function Slots(pre: seq<(Option<Frame>, real)>): (r: seq<Option<Frame>>)
    ensures |r| == |pre| && forall i :: 0 <= i < |pre| ==> r[i] == pre[i].0
  {
    seq(|pre|, i requires 0 <= i < |pre| => pre[i].0)
  }

  /** The frames `start_recording` writes from the prebuffer: the present ones, in order. */
  function WrittenFrames(pre: seq<(Option<Frame>, real)>): (r: seq<Frame>)
    ensures |r| <= |pre|
  {
    Present(Slots(pre))
  }

  lemma WrittenFramesLast(pre: seq<(Option<Frame>, real)>)
    requires pre != []
    ensures var last := pre[|pre| - 1];
      WrittenFrames(pre) == WrittenFrames(pre[..|pre| - 1]) + (if last.0.Some? then [last.0.value] else [])
  {
    assert Slots(pre)[..|pre| - 1] == Slots(pre[..|pre| - 1]);
  }

  /** The prebuffer list as the buffer hands it over: every entry holds a frame. */
  function Offered(buf: seq<Stamped>): (r: seq<(Option<Frame>, real)>)
    ensures |r| == |buf|
    ensures forall i :: 0 <= i < |buf| ==> r[i] == (Some(buf[i].0), buf[i].1)
  {
    seq(|buf|, i requires 0 <= i < |buf| => (Some(buf[i].0), buf[i].1))
  }

  /** A clip started from the buffer begins with exactly the buffered frames, oldest first. */
  lemma {:induction false} WrittenOffered(buf: seq<Stamped>)
    ensures |WrittenFrames(Offered(buf))| == |buf|
    ensures forall i :: 0 <= i < |buf| ==> WrittenFrames(Offered(buf))[i] == buf[i].0
  {
    if buf != [] {
      var init := buf[..|buf| - 1];
      assert Offered(buf)[..|buf| - 1] == Offered(init);
      WrittenFramesLast(Offered(buf));
      WrittenOffered(init);
    }
  }

  /** The recorder invariant: a recording owns an opened writer, the name of its file and a start time,
    * and its counter is below the limit (or zero); when idle no opened writer is held and the
    * counter and start time are reset. */
  ghost predicate Consistent(s: RecorderState, maxPost: nat)
  {
    (s.isRecording ==>
      s.currentWriter.Some? && s.currentWriter.value.isOpen &&
      s.currentFilename == Some(s.currentWriter.value.path) && s.recordingStartTime.Some? &&
      (s.postMotionFrames == 0 || s.postMotionFrames < maxPost)) &&
    (!s.isRecording ==>
      s.postMotionFrames == 0 && s.recordingStartTime.None? &&
      (s.currentWriter.None? || !s.currentWriter.value.isOpen))
  }

  /** _cleanup_recording: release the writer if there is one; the field is cleared either way. */
  function Cleanup(s: RecorderState): (r: RecorderState)
    ensures r.currentWriter.None?
    ensures r.released == s.released + (if s.currentWriter.Some? then [s.currentWriter.value] else [])
    ensures r.(currentWriter := s.currentWriter, released := s.released) == s
  {
    if s.currentWriter.Some? then s.(currentWriter := None, released := s.released + [s.currentWriter.value])
    else s
  }

  /** start_recording(prebuffer_frames, frame_size). */
  function StartSpec(s: RecorderState, pre: seq<(Option<Frame>, real)>, size: (nat, nat),
                     outcome: OpenOutcome, dir: string, stamp: string, now: real): (r: (RecorderState, bool))
    ensures s.isRecording ==> r == (s, false)
    ensures !s.isRecording ==> (r.1 <==> outcome == Opens)
    ensures r.1 ==> r.0.isRecording && r.0.postMotionFrames == 0 && r.0.recordingStartTime == Some(now)
    ensures r.1 ==> r.0.currentWriter == Some(Writer(JoinPath(dir, ClipName(stamp)), true, size, WrittenFrames(pre)))
    ensures !r.1 ==> r.0.isRecording == s.isRecording
    ensures !s.isRecording ==> r.0.currentFilename == Some(JoinPath(dir, ClipName(stamp)))
    ensures !s.isRecording && outcome == FailsToOpen ==>
      r.0.currentWriter == Some(Writer(JoinPath(dir, ClipName(stamp)), false, size, [])) && r.0.released == s.released
    ensures !s.isRecording && outcome == Raises ==>
      r.0.currentWriter.None? && r.0.released == s.released + (if s.currentWriter.Some? then [s.currentWriter.value] else [])
    ensures r.0.events == s.events
  {
    if s.isRecording then (s, false)
    else
      var name := JoinPath(dir, ClipName(stamp));
      var named := s.(currentFilename := Some(name));
      match outcome
      case Raises => (Cleanup(named), false)
      case FailsToOpen => (named.(currentWriter := Some(Writer(name, false, size, []))), false)
      case Opens =>
        (named.(currentWriter := Some(Writer(name, true, size, WrittenFrames(pre))),
                isRecording := true, recordingStartTime := Some(now), postMotionFrames := 0), true)
  }

  /** Whether stop_recording logs the file: it has a (non-empty) name and exists on disk. */
  predicate Logged(s: RecorderState, fileExists: bool)
  {
    s.currentFilename.Some? && s.currentFilename.value != "" && fileExists
  }

  /** stop_recording(): release, log the event if the file exists, reset. */
  function StopSpec(s: RecorderState, fileExists: bool): (r: (RecorderState, bool))
    ensures !s.isRecording ==> r == (s, false)
    ensures s.isRecording ==>
      r.1 && !r.0.isRecording && r.0.currentWriter.None? &&
      r.0.currentFilename.None? && r.0.recordingStartTime.None? && r.0.postMotionFrames == 0
    ensures s.isRecording ==>
      r.0.events == s.events + (if Logged(s, fileExists) then [s.currentFilename.value] else [])
    ensures s.isRecording ==>
      r.0.released == s.released + (if s.currentWriter.Some? then [s.currentWriter.value] else [])
  {
    if !s.isRecording then (s, false)
    else
      var c := Cleanup(s);
      var events := if Logged(s, fileExists) then c.events + [s.currentFilename.value] else c.events;
      (c.(events := events, isRecording := false, currentFilename := None,
          recordingStartTime := None, postMotionFrames := 0), true)
  }

  /** The writer after `frame` was written to it (a missing frame writes nothing). */
  function Wrote(w: Writer, frame: Option<Frame>): Writer
  {
    if frame.Some? then w.(frames := w.frames + [frame.value]) else w
  }

  /** add_frame(frame): write and count a present frame; stop once the count reaches the limit. */
  function AddFrameSpec(s: RecorderState, frame: Option<Frame>, maxPost: nat, fileExists: bool): (r: (RecorderState, bool))
    ensures !s.isRecording || s.currentWriter.None? ==> r == (s, false)
    ensures s.isRecording && s.currentWriter.Some? ==>
      var count := s.postMotionFrames + (if frame.Some? then 1 else 0);
      var w := Wrote(s.currentWriter.value, frame);
      (r.1 <==> count < maxPost) &&
      (r.1 ==> r.0 == s.(currentWriter := Some(w), postMotionFrames := count)) &&
      (!r.1 ==> r.0 == StopSpec(s.(currentWriter := Some(w), postMotionFrames := count), fileExists).0 &&
                !r.0.isRecording && r.0.currentWriter.None? && r.0.postMotionFrames == 0 &&
                r.0.released == s.released + [w] &&
                r.0.events == s.events + (if Logged(s, fileExists) then [s.currentFilename.value] else []))
    ensures r.1 ==> r.0.isRecording && r.0.postMotionFrames < maxPost
  {
    if !s.isRecording || s.currentWriter.None? then (s, false)
    else
      var s1 := if frame.Some?
        then s.(currentWriter := Some(Wrote(s.currentWriter.value, frame)), postMotionFrames := s.postMotionFrames + 1)
        else s;
      if s1.postMotionFrames >= maxPost then (StopSpec(s1, fileExists).0, false)
      else (s1, true)
  }

  /** force_stop(): release and reset without logging an event; nothing happens when idle. */
  function ForceStopSpec(s: RecorderState): (r: RecorderState)
    ensures !s.isRecording ==> r == s
    ensures s.isRecording ==>
      !r.isRecording && r.currentWriter.None? && r.currentFilename.None? &&
      r.recordingStartTime.None? && r.postMotionFrames == 0
    ensures s.isRecording ==> r.released == s.released + (if s.currentWriter.Some? then [s.currentWriter.value] else [])
    ensures r.events == s.events
  {
    if !s.isRecording then s
    else Cleanup(s).(isRecording := false, currentFilename := None, recordingStartTime := None, postMotionFrames := 0)
  }

  /** Every transition keeps the recorder invariant. */
  lemma TransitionsKeepConsistent(s: RecorderState, maxPost: nat, pre: seq<(Option<Frame>, real)>, size: (nat, nat),
                                  outcome: OpenOutcome, dir: string, stamp: string, now: real,
                                  frame: Option<Frame>, fileExists: bool)
    requires Consistent(s, maxPost)
    ensures Consistent(StartSpec(s, pre, size, outcome, dir, stamp, now).0, maxPost)
    ensures Consistent(AddFrameSpec(s, frame, maxPost, fileExists).0, maxPost)
    ensures Consistent(StopSpec(s, fileExists).0, maxPost)
    ensures Consistent(ForceStopSpec(s), maxPost)
  {
  }

  /** The event a recording logs is the file of the clip it wrote: stopping a consistent recording
    * releases its writer and, when the file exists, logs that writer's path. */
  lemma StopLogsTheClip(s: RecorderState, maxPost: nat, fileExists: bool)
    requires Consistent(s, maxPost) && s.isRecording
    ensures var w := s.currentWriter.value; var r := StopSpec(s, fileExists).0;
      r.released == s.released + [w] &&
      r.events == s.events + (if fileExists && w.path != "" then [w.path] else [])
  {
  }

  /** A clip started on `motion_<stamp>.mp4` in `dir` and stopped while its file exists logs
    * exactly that path, once. */
  lemma StartThenStopLogsClip(s: RecorderState, pre: seq<(Option<Frame>, real)>, size: (nat, nat),
                              dir: string, stamp: string, now: real)
    requires !s.isRecording
    ensures var s1 := StartSpec(s, pre, size, Opens, dir, stamp, now).0;
      StopSpec(s1, true).0.events == s.events + [JoinPath(dir, ClipName(stamp))]
  {
    var name := JoinPath(dir, ClipName(stamp));
    assert |ClipName(stamp)| > 0;
    assert name != "";
  }

  /** At most one recording: a second start without a stop in between is rejected and changes nothing. */
  lemma SecondStartRejected(s: RecorderState, pre: seq<(Option<Frame>, real)>, size: (nat, nat), outcome: OpenOutcome,
                            dir: string, stamp: string, now: real,
                            pre2: seq<(Option<Frame>, real)>, size2: (nat, nat), outcome2: OpenOutcome,
                            stamp2: string, now2: real)
    requires StartSpec(s, pre, size, outcome, dir, stamp, now).1
    ensures var s1 := StartSpec(s, pre, size, outcome, dir, stamp, now).0;
      StartSpec(s1, pre2, size2, outcome2, dir, stamp2, now2) == (s1, false)
  {
  }

  /** The recorder after `add_frame` was called with each of `frames`, in order. */
  function Feed(s: RecorderState, frames: seq<Frame>, maxPost: nat, fileExists: bool): (r: RecorderState)
    ensures !s.isRecording ==> r == s
  {
    if frames == [] then s
    else AddFrameSpec(Feed(s, frames[..|frames| - 1], maxPost, fileExists), Some(frames[|frames| - 1]), maxPost, fileExists).0
  }

  /** While the count stays below the limit, every frame fed is written and counted. */
  lemma {:induction false} FeedBelowLimit(s: RecorderState, frames: seq<Frame>, maxPost: nat, fileExists: bool)
    requires s.isRecording && s.currentWriter.Some?
    requires s.postMotionFrames + |frames| < maxPost
    ensures Feed(s, frames, maxPost, fileExists) ==
      s.(currentWriter := Some(s.currentWriter.value.(frames := s.currentWriter.value.frames + frames)),
         postMotionFrames := s.postMotionFrames + |frames|)
  {
    if frames == [] {
      assert s.currentWriter.value.frames + frames == s.currentWriter.value.frames;
    } else {
      var init := frames[..|frames| - 1];
      FeedBelowLimit(s, init, maxPost, fileExists);
      assert init + [frames[|frames| - 1]] == frames;
      assert s.currentWriter.value.frames + init + [frames[|frames| - 1]] == s.currentWriter.value.frames + frames;
    }
  }

  /** The recording stops on exactly the frame that brings the count to the limit, whatever the
    * motion: the clip holds the frames fed, the writer is released and the event is logged once
    * when the file exists. */
  lemma {:induction false} FeedReachesLimit(s: RecorderState, frames: seq<Frame>, maxPost: nat, fileExists: bool)
    requires s.isRecording && s.currentWriter.Some?
    requires |frames| > 0 && s.postMotionFrames + |frames| == maxPost
    ensures var t := Feed(s, frames, maxPost, fileExists);
      !t.isRecording && t.currentWriter.None? && t.postMotionFrames == 0 &&
      t.released == s.released + [s.currentWriter.value.(frames := s.currentWriter.value.frames + frames)] &&
      t.events == s.events + (if Logged(s, fileExists) then [s.currentFilename.value] else [])
  {
    var init := frames[..|frames| - 1];
    var last := frames[|frames| - 1];
    FeedBelowLimit(s, init, maxPost, fileExists);
    assert init + [last] == frames;
    assert s.currentWriter.value.frames + init + [last] == s.currentWriter.value.frames + frames;
  }

  /** The database side of the recorder: `add_event` inserts a row only for a file that exists. */
  class EventDatabase {
    var events: seq<string>

    constructor ()
      ensures events == []
    {
      events := [];
    }

    method AddEvent(filePath: string, fileExists: bool) returns (added: bool)
      modifies this
      ensures added == fileExists
      ensures events == old(events) + (if fileExists then [filePath] else [])
    {
      added := fileExists;
      if fileExists {
        events := events + [filePath];
      }
    }
  }

  /** The prebuffer loop of start_recording: every present frame is written, in order. */
  method WritePrebuffer(writer: Writer, pre: seq<(Option<Frame>, real)>) returns (w: Writer)
    ensures w == writer.(frames := writer.frames + WrittenFrames(pre))
  {
    w := writer;
    var i := 0;
    while i < |pre|
      invariant 0 <= i <= |pre|
      invariant w == writer.(frames := writer.frames + WrittenFrames(pre[..i]))
    {
      assert pre[..i + 1][..i] == pre[..i];
      WrittenFramesLast(pre[..i + 1]);
      var done := WrittenFrames(pre[..i]);
      if pre[i].0.Some? {
        assert writer.frames + done + [pre[i].0.value] == writer.frames + (done + [pre[i].0.value]);
        w := w.(frames := w.frames + [pre[i].0.value]);
      }
      i := i + 1;
    }
    assert pre[..|pre|] == pre;
  }

  class VideoRecorder {
    const outputDir: string
    /** int(post_motion_duration * fps). */
    const maxPostFrames: nat
    const database: EventDatabase
    var isRecording: bool
    var currentWriter: Option<Writer>
    var currentFilename: Option<string>
    var recordingStartTime: Option<real>
    var postMotionFrames: nat
    /** The writers released so far, oldest first: the finished (or abandoned) files. */
    var released: seq<Writer>

    ghost function State(): RecorderState
      reads this, database
    {
      RecorderState(isRecording, currentWriter, currentFilename, recordingStartTime, postMotionFrames,
                    released, database.events)
    }

    ghost predicate Valid()
      reads this, database
    {
      Consistent(State(), maxPostFrames)
    }

    constructor (outputDir: string, maxPostFrames: nat, database: EventDatabase)
      ensures Valid()
      ensures this.outputDir == outputDir && this.maxPostFrames == maxPostFrames && this.database == database
      ensures !isRecording && currentWriter.None? && currentFilename.None? && recordingStartTime.None?
      ensures postMotionFrames == 0 && released == [] && database.events == old(database.events)
    {
      this.outputDir := outputDir;
      this.maxPostFrames := maxPostFrames;
      this.database := database;
      isRecording := false;
      currentWriter := None;
      currentFilename := None;
      recordingStartTime := None;
      postMotionFrames := 0;
      released := [];
    }

    method StartRecording(pre: seq<(Option<Frame>, real)>, frameSize: (nat, nat), outcome: OpenOutcome,
                          stamp: string, now: real) returns (ok: bool)
      requires Valid()
      modifies this
      ensures Valid()
      ensures (State(), ok) == StartSpec(old(State()), pre, frameSize, outcome, outputDir, stamp, now)
    {
      if isRecording {
        return false;
      }
      var name := JoinPath(outputDir, ClipName(stamp));
      currentFilename := Some(name);
      match outcome
      case Raises =>
        CleanupRecording();
        return false;
      case FailsToOpen =>
        currentWriter := Some(Writer(name, false, frameSize, []));
        return false;
      case Opens =>
        var writer := WritePrebuffer(Writer(name, true, frameSize, []), pre);
        assert writer.frames == WrittenFrames(pre);
        currentWriter := Some(writer);
        isRecording := true;
        recordingStartTime := Some(now);
        postMotionFrames := 0;
        return true;
    }

    method AddFrame(frame: Option<Frame>, fileExists: bool) returns (ok: bool)
      requires Valid()
      modifies this, database
      ensures Valid()
      ensures (State(), ok) == AddFrameSpec(old(State()), frame, maxPostFrames, fileExists)
    {
      if !isRecording || currentWriter.None? {
        return false;
      }
      if frame.Some? {
        currentWriter := Some(Wrote(currentWriter.value, frame));
        postMotionFrames := postMotionFrames + 1;
      }
      if postMotionFrames >= maxPostFrames {
        var _ := StopRecording(fileExists);
        return false;
      }
      return true;
    }

    method StopRecording(fileExists: bool) returns (ok: bool)
      modifies this, database
      ensures (State(), ok) == StopSpec(old(State()), fileExists)
    {
      if !isRecording {
        return false;
      }
      CleanupRecording();
      if currentFilename.Some? && currentFilename.value != "" && fileExists {
        var _ := database.AddEvent(currentFilename.value, fileExists);
      }
      isRecording := false;
      currentFilename := None;
      recordingStartTime := None;
      postMotionFrames := 0;
      return true;
    }

    method CleanupRecording()
      modifies this
      ensures State() == Cleanup(old(State()))
    {
      if currentWriter.Some? {
        released := released + [currentWriter.value];
        currentWriter := None;
      }
    }

    method ForceStop()
      requires Valid()
      modifies this
      ensures Valid()
      ensures State() == ForceStopSpec(old(State()))
    {
      if isRecording {
        CleanupRecording();
        isRecording := false;
        currentFilename := None;
        recordingStartTime := None;
        postMotionFrames := 0;
      }
    }
  }
}
