# Motion-detecting camera stream: a verified model

This project models the bookkeeping of a Raspberry Pi camera server in Dafny:

- the pre-roll ring buffer and the motion recorder (`video_recorder.py`);
- the motion decision on top of OpenCV's contours (`motion_detector.py`);
- the glue in `streamserver.py`:
  - the latest-frame slot and the per-frame fan-out;
  - one pass of the motion-processing loop and its shutdown;
  - GET routing and the multipart MJPEG framing;
  - the stream watchdog, the consecutive-failure counter and the restart budget;
- the RTSP test client (`rtsp_test_client.py`):
  - the RTP fixed-header fields it prints (section 5.1 of RFC 3550);
  - the session id it takes from the SETUP response;
  - the five requests it sends and the decisions between them.

Modules follow the source files:

| module | file | models |
|---|---|---|
| `Common` | `common.dfy` | `Option`, bytes, frames, decimal text |
| `VideoRecording` | `video_recorder.dfy` | `CircularVideoBuffer`, `VideoRecorder`, the event log |
| `MotionDetection` | `motion_detector.dfy` | `MotionDetector.detect_motion` |
| `StreamOutput` | `stream_output.dfy` | `StreamingOutput`, `MotionStreamingOutput` |
| `HttpHandler` | `http_handler.dfy` | `do_GET` and `_serve_mjpeg_stream` |
| `Supervision` | `supervision.dfy` | `StreamWatchdog`, `monitor_stream_health`, `run_stream_server` |
| `RtspText` | `rtsp_text.dfy` | Python's `in`, `startswith`, `split` and `strip` on text |
| `RtspTestClient` | `rtsp_test_client.dfy` | `test_rtsp_full_session` |

Objects whose fields the source updates are classes with those fields, and their methods state the new fields in their postconditions. `VideoRecorder` has a specification function of its whole state (`State()`); each of its methods is proved equal to one of the functions `StartSpec`, `AddFrameSpec`, `StopSpec`, `Cleanup` and `ForceStopSpec`, and the recorder's properties are proved about those functions. The pre-roll buffer is tied to `LastN` of the frames added, the detector to `MotionBoxes`, and the watchdog to `Healthy`. Pure decisions are functions with lemmas.

The outside world enters as parameters:

- **Clock.** `now`, and the `%Y%m%d_%H%M%S` text of the file name.
- **JPEG decoder.** `decoded`: the frame, or nothing.
- **OpenCV pipeline.** `Pipeline`: the contours, each with its area and bounding rectangle, or a fault raised by the background subtractor's `apply` (the frame is not learned) or by a later step (the frame was learned).
- **Video writer.** An `OpenOutcome` (opens, comes back unopened, or raises) and a `Writer` value that records the frames written to it.
- **File system.** `fileExists`.
- **Sockets.** The decoded response texts and the arriving datagrams.

The model follows the code, including where a reader might expect otherwise:

- `post_motion_frames` counts every frame written since the start of a recording and is never reset by renewed motion. A clip that ends by reaching a positive limit holds the pre-roll and then exactly `max_post_frames` frames (`FeedReachesLimit`). With a limit of 0, the first call to `add_frame` after the start ends the recording. `force_stop` can end a clip before the limit.
- `start_recording` accepts an empty prebuffer.
- A writer that fails to open stays in `current_writer`, unopened, and the file name stays set.
- The source holds only an RTSP test client; that is what is modelled.

## Model

| member | source | states |
|---|---|---|
| Common.Decimal | streamserver.py:262 | `str(n)`: non-empty, all decimal digits, no leading zero |
| Common.DecimalRoundTrip | streamserver.py:262 | parsing the decimal text of `n` gives back `n` |
| Common.DecimalInjective | rtsp_test_client.py:28 | distinct numbers have distinct decimal texts (distinct CSeq values) |
| Common.Present | streamserver.py:257-258 | the entries that are not `None`, in order: never more than given, and `x` is kept iff `Some(x)` occurs |
| Common.PresentAppend | streamserver.py:257-258 | the frames kept from a sequence of wake-ups distribute over concatenation |
| VideoRecording.LastN | video_recorder.py:27 | the last `k` entries, all of them when fewer, a suffix of `s` |
| VideoRecording.DequeAppend | video_recorder.py:27 | `append` on a `deque(maxlen=k)`: below capacity it extends the deque; it never grows past `k`; the new item is last; with `maxlen` 0 it stays empty |
| VideoRecording.DequeAppendKeepsWindow | video_recorder.py:27 | appending to a `deque(maxlen=k)` holding the last `k` items gives the last `k` of the longer sequence |
| VideoRecording.Adds | video_recorder.py:38-40 | the stamped frames added, never more than the calls made |
| VideoRecording.AddsLast | video_recorder.py:38-40 | each call adds its frame, with its timestamp, at the end, and a `None` adds nothing |
| VideoRecording.Replay | video_recorder.py:26-40 | the deque after a sequence of `add_frame` calls, one append per present frame, never longer than `max_frames` |
| VideoRecording.ReplayIsWindow | video_recorder.py:26-27 | after any sequence of `add_frame` calls the buffer is the last `max_frames` present frames, oldest first, and never longer than `max_frames` |
| VideoRecording.CircularVideoBuffer.constructor | video_recorder.py:19-27 | an empty buffer of capacity `max_frames` |
| VideoRecording.CircularVideoBuffer.AddFrame | video_recorder.py:32-40 | `None` changes nothing; a frame is appended with its timestamp, the oldest entry is evicted when full, and the buffer stays within capacity |
| VideoRecording.CircularVideoBuffer.GetPrebufferFrames | video_recorder.py:42-48 | the last `max_frames` frames added since the last clear, oldest first |
| VideoRecording.CircularVideoBuffer.Clear | video_recorder.py:50-52 | the buffer and its history are empty |
| VideoRecording.CircularVideoBuffer.IsFull | video_recorder.py:54-60 | full exactly when the length equals `max_frames`, i.e. when at least `max_frames` frames were added since the last clear |
| VideoRecording.JoinPath | video_recorder.py:110 | `os.path.join` ends with the file name |
| VideoRecording.ClipName | video_recorder.py:109-110 | `motion_<stamp>.mp4`: the prefix, then the stamp, then the extension |
| VideoRecording.WrittenFrames | video_recorder.py:123-125 | the present prebuffer frames in order, never more than offered |
| VideoRecording.WrittenFramesLast | video_recorder.py:123-125 | each prebuffer entry writes its frame after the earlier ones, and a `None` entry writes nothing |
| VideoRecording.WritePrebuffer | video_recorder.py:123-125 | the loop appends exactly the present prebuffer frames, in order, to the writer |
| VideoRecording.Offered | streamserver.py:153-156 | the prebuffer list handed to the recorder: entry by entry the buffered frame and stamp |
| VideoRecording.WrittenOffered | video_recorder.py:123-125 | a clip started from the buffer begins with exactly the buffered frames, oldest first |
| VideoRecording.Cleanup | video_recorder.py:202-210 | the writer is released once if present, the field is cleared, and nothing else changes |
| VideoRecording.StartSpec | video_recorder.py:94-137 | rejected with no change while recording. Otherwise the file name becomes `<dir>/motion_<stamp>.mp4`, and the start succeeds iff the writer opens. On success: recording, counter 0, start time now, and an opened writer on that file holding the prebuffer frames. If the writer does not open, it stays unopened in the field. If the writer raises, the writer is released and the field cleared. A failure leaves recording off, and no event is logged |
| VideoRecording.StopSpec | video_recorder.py:168-200 | False with no change when idle; otherwise True, the writer released, one event logged iff the named file exists, and all recording state reset |
| VideoRecording.Logged | video_recorder.py:184-185 | the event is logged iff the recorder holds a non-empty file name and that file exists |
| VideoRecording.AddFrameSpec | video_recorder.py:139-166 | False with no change when idle or writerless. Otherwise the frame is written and counted, and the result is True iff the count stays below the limit. The call that reaches the limit leaves exactly the state `StopSpec` gives for the recorder with the frame written |
| VideoRecording.ForceStopSpec | video_recorder.py:212-220 | no change when idle; otherwise writer released and state reset, with no event logged |
| VideoRecording.TransitionsKeepConsistent | video_recorder.py:94-220 | every transition keeps the recorder invariant. While recording, the recorder owns an opened writer, a start time and a file name equal to the writer's path, with the counter below the limit. While idle, it holds no open writer and the counter is 0 |
| VideoRecording.StopLogsTheClip | video_recorder.py:181-185 | stopping a consistent recording releases its writer and, when the file exists, logs that writer's path |
| VideoRecording.StartThenStopLogsClip | video_recorder.py:108-185 | a clip started on `motion_<stamp>.mp4` and stopped while its file exists logs exactly that path, once |
| VideoRecording.SecondStartRejected | video_recorder.py:104-106 | at most one recording: a second start after a successful one returns False and changes nothing |
| VideoRecording.Feed | video_recorder.py:139-166 | `add_frame` called with each frame in turn; an idle recorder ignores them all |
| VideoRecording.FeedBelowLimit | video_recorder.py:152-162 | while below the limit every frame fed is appended to the clip and counted |
| VideoRecording.FeedReachesLimit | video_recorder.py:152-160 | the frame that brings the count to the limit ends the recording: the clip holds every frame fed, the writer is released, the counter is 0, and the event is logged once iff the file exists |
| VideoRecording.EventDatabase.AddEvent | database.py:46-75 | a row is added exactly when the file exists, and the call reports it |
| VideoRecording.VideoRecorder.constructor | video_recorder.py:66-92 | idle, no writer, no name, counter 0 |
| VideoRecording.VideoRecorder.StartRecording | video_recorder.py:94-137 | the new state and result are `StartSpec` of the old state; the invariant is kept |
| VideoRecording.VideoRecorder.AddFrame | video_recorder.py:139-166 | the new state and result are `AddFrameSpec` of the old state; the invariant is kept |
| VideoRecording.VideoRecorder.StopRecording | video_recorder.py:168-200 | the new state and result are `StopSpec` of the old state |
| VideoRecording.VideoRecorder.CleanupRecording | video_recorder.py:202-210 | the new state is `Cleanup` of the old one |
| VideoRecording.VideoRecorder.ForceStop | video_recorder.py:212-220 | the new state is `ForceStopSpec` of the old one; the invariant is kept |
| MotionDetection.MotionBoxes | motion_detector.py:59-67 | the bounding boxes of the qualifying contours, no more boxes than contours |
| MotionDetection.MotionBoxesAppend | motion_detector.py:62-67 | the filter distributes over concatenation, so boxes keep contour order |
| MotionDetection.MotionBoxesMembership | motion_detector.py:62-67 | a rectangle is reported iff some contour with area above the threshold has it |
| MotionDetection.MotionFoundIffLargeContour | motion_detector.py:59-69 | motion is found iff some contour's area is strictly above `min_area` |
| MotionDetection.StrictThreshold | motion_detector.py:63 | a contour of area exactly `min_area` is dropped; a larger one is kept |
| MotionDetection.MotionDetector.constructor | motion_detector.py:14-30 | `last_motion_time` is 0 and the background model has learned nothing |
| MotionDetection.MotionDetector.DetectMotion | motion_detector.py:34-76 | `None` gives `(False, [])` and touches nothing. A fault gives `(False, [])`. The frame is learned unless `apply` itself raised. Otherwise the boxes are `MotionBoxes` of the contours. The flag is true iff there is a box, and `last_motion_time` moves only on detection |
| StreamOutput.StreamingOutput.constructor | streamserver.py:44-48 | an empty slot stamped now |
| StreamOutput.StreamingOutput.Write | streamserver.py:50-63 | the slot holds `buf`, stamped now, and `len(buf)` is returned |
| StreamOutput.MotionDecisionAsWritten | streamserver.py:146-148 | as written, the test is the truth of the returned pair: true whatever the detector found (see `AsWrittenTakesNoMotionForMotion`) |
| StreamOutput.MotionDecision | streamserver.py:146-148 | the intended test: the detector's flag (see `MotionDecisionMeansLargeContour`) |
| StreamOutput.AsWrittenTakesNoMotionForMotion | streamserver.py:146-148 | as written, a frame without motion, `(False, [])`, is taken for motion; the corrected test rejects it |
| StreamOutput.MotionDecisionMeansLargeContour | streamserver.py:146-148 | the corrected test holds iff some contour's area is above the threshold |
| StreamOutput.MotionStreamingOutput.constructor | streamserver.py:69-98 | fresh components: an empty slot, a detector that has learned nothing with `last_motion_time` 0, an empty pre-roll buffer with no history, an idle recorder with no events; counter 0, status "No Motion", processing active, no pending frame |
| StreamOutput.MotionStreamingOutput.Write | streamserver.py:100-133 | always publishes `buf` and returns its length; a decoded frame is counted, kept for the motion thread, appended to the pre-roll buffer, and passed to the recorder only while recording |
| StreamOutput.MotionStreamingOutput.ActOnDecision | streamserver.py:148-159 | on motion the status becomes "Motion Detected!" and, while idle, a recording starts from the current prebuffer with the frame's size; otherwise the status becomes "No Motion" and the recorder is untouched |
| StreamOutput.MotionStreamingOutput.MotionLoopStep | streamserver.py:139-159 | as written: no pending frame changes nothing. Otherwise the slot is cleared and the detector runs. Because the test is on the returned pair, the status becomes "Motion Detected!" whatever the detector found, and a recording starts from the current prebuffer whenever the recorder is idle. The detector learns the frame unless `apply` raised, and `last_motion_time` becomes now iff it detected motion |
| StreamOutput.MotionStreamingOutput.MotionLoopStepCorrected | streamserver.py:139-159 | with the test on the detector's flag: the status follows the detection, and a recording starts only on motion while idle. The detector learns the frame unless `apply` raised, and `last_motion_time` becomes now iff it detected motion |
| StreamOutput.MotionStreamingOutput.StopMotionProcessing | streamserver.py:170-178 | processing is switched off and an active recording is force-stopped without an event; the frame counter, the status and the pending frame are unchanged |
| HttpHandler.RouteGet | streamserver.py:184-193 | a path reaches a handler iff it is "/", "/stream.mjpg" or "/favicon.ico", and the stream handler iff it is "/stream.mjpg" |
| HttpHandler.Status | streamserver.py:184-193 | only unknown paths get 404, and only the favicon gets 204 |
| HttpHandler.RoutingIsExact | streamserver.py:184-193 | "/", "/stream.mjpg" and "/favicon.ico" each reach their own handler and no other path does; every other path gets 404 |
| HttpHandler.DigitTextBytes | streamserver.py:262 | the ASCII bytes of a digit string read back as that string |
| HttpHandler.DigitRunOf | streamserver.py:262-263 | the length digits end where the headers' CRLF begins |
| HttpHandler.MjpegPart | streamserver.py:260-265 | a part starts with the `--FRAME` boundary and headers, and ends with the blank line's CRLF, the frame and a CRLF |
| HttpHandler.BodyRoundTrip | streamserver.py:263-265 | after the blank line, exactly `len(frame)` bytes and a CRLF are read back as the frame |
| HttpHandler.LengthRoundTrip | streamserver.py:262-265 | the Content-Length value read back is `len(frame)` and delimits the frame |
| HttpHandler.PartRoundTrip | streamserver.py:260-265 | a part is self-delimiting: reading it back gives the frame and leaves what follows untouched |
| HttpHandler.EncodeStreamAppend | streamserver.py:252-265 | one more frame appends one more part |
| HttpHandler.StreamRoundTrip | streamserver.py:252-265 | a client reading the stream part by part recovers every frame sent, in order |
| HttpHandler.ServeMjpegStream | streamserver.py:251-268 | an empty slot emits nothing; the bytes written are one part per present frame, and they parse back to exactly those frames |
| Supervision.Healthy | streamserver.py:407-411 | a stopped watchdog is never healthy; a running one with a positive timeout is healthy right after a frame, and never with a timeout of 0 or less |
| Supervision.HealthMonotone | streamserver.py:407-411 | health is lost only by waiting and regained only by a fresher frame; a stopped watchdog is never healthy |
| Supervision.StreamWatchdog.constructor | streamserver.py:389-396 | running, with the given timeout |
| Supervision.StreamWatchdog.IsStreamHealthy | streamserver.py:398-411 | false once stopped; otherwise true iff the time since the last frame is strictly below the timeout |
| Supervision.StreamWatchdog.Stop | streamserver.py:413-415 | the watchdog is not running |
| Supervision.TrailingFailures | streamserver.py:474-503 | the consecutive-failure count never exceeds the checks made |
| Supervision.TrailingFailuresIsRun | streamserver.py:479-503 | the counter is the length of the maximal run of unhealthy, unrecovered checks ending at the latest one |
| Supervision.AlertFollowsThreeFailures | streamserver.py:497-498 | the critical message follows three consecutive unrecovered checks |
| Supervision.MonitorStreamHealth | streamserver.py:466-503 | a watchdog stopped before the loop starts makes no check. Otherwise the final counter is that run length, and a check logs the critical message iff the count reaches 3, without ending the loop |
| Supervision.RunStreamServer | streamserver.py:511-585 | the loop ends on the first interrupt, or on the first exception once 3 attempts were begun; a returned `serve_forever` restarts; the attempts counted are exactly those begun |
| Supervision.AllFailuresGiveUpAfterThree | streamserver.py:579-583 | when every attempt raises, the loop makes exactly three attempts |
| RtspText.IndexOf | rtsp_test_client.py:89 | the first index at which the pattern occurs, or none when it occurs nowhere |
| RtspText.ContainsMeansOccurs | rtsp_test_client.py:89 | `pat in s` iff the pattern occurs at some index |
| RtspText.Split | rtsp_test_client.py:64 | `str.split` gives at least one piece |
| RtspText.SplitJoin | rtsp_test_client.py:64 | joining the pieces with the separator gives back the text |
| RtspText.SplitPiecesHaveNoSeparator | rtsp_test_client.py:64 | no piece contains the separator |
| RtspText.SplitAfter | rtsp_test_client.py:66 | a text starting with a piece free of the separator splits right after that piece |
| RtspText.StripLeading | rtsp_test_client.py:66 | a suffix that does not start with white space, all of whose dropped characters are white space |
| RtspText.StripTrailing | rtsp_test_client.py:66 | a prefix that does not end with white space, all of whose dropped characters are white space |
| RtspText.Strip | rtsp_test_client.py:66 | `s.strip()`; its properties are the five lemmas below |
| RtspText.StripIsSlice | rtsp_test_client.py:66 | `strip()` keeps a contiguous slice of the text |
| RtspText.StripEndsNotSpace | rtsp_test_client.py:66 | the result neither starts nor ends with white space |
| RtspText.StripDropsOnlySpace | rtsp_test_client.py:66 | everything dropped on either side is white space |
| RtspText.StripIdempotent | rtsp_test_client.py:66 | stripping twice is stripping once |
| RtspText.StripSkipsLeadingSpace | rtsp_test_client.py:66 | leading white space does not change the stripped text |
| RtspTestClient.BigEndian | rtsp_test_client.py:112-113 | `int.from_bytes(b, 'big')` is below 256 to the power of the length |
| RtspTestClient.BeBytesRoundTrip | rtsp_test_client.py:112-113 | big-endian bytes of `n` read back as `n` |
| RtspTestClient.BigEndianRoundTrip | rtsp_test_client.py:112-113 | every byte string is the big-endian encoding of its value |
| RtspTestClient.ParseRtpHeader | rtsp_test_client.py:109-113 | fields exist iff the datagram has at least 12 bytes; version below 4, payload type below 128, sequence number 16 bits, timestamp 32 bits |
| RtspTestClient.VersionBits | rtsp_test_client.py:110 | `(b >> 6) & 0x3` is the division by 64 |
| RtspTestClient.PayloadTypeBits | rtsp_test_client.py:111 | `b & 0x7f` is the remainder by 128 |
| RtspTestClient.EncodeFixedHeader | rtsp_test_client.py:109-113 | a fixed header laid out as in section 5.1 of RFC 3550 is 12 bytes |
| RtspTestClient.DecodeFixedHeader | rtsp_test_client.py:109-113 | every field read from 12 bytes is within its width |
| RtspTestClient.RtpHeaderRoundTrip | rtsp_test_client.py:109-113 | the client reads exactly the version, payload type, sequence number and timestamp a sender encoded, whatever follows |
| RtspTestClient.EveryDatagramHasAHeader | rtsp_test_client.py:109-113 | any 12 bytes encode one header, and the client's fields are that header's |
| RtspTestClient.ReceiveRtpPackets | rtsp_test_client.py:99-114 | at most 10 datagrams are counted, and the header of each one counted is parsed in order |
| RtspTestClient.SplitLines | rtsp_test_client.py:26-31 | CRLF-terminated lines split back into themselves and a last empty piece |
| RtspTestClient.DecimalHasNoCR | rtsp_test_client.py:28 | the CSeq line holds no carriage return |
| RtspTestClient.Request | rtsp_test_client.py:26-136 | a request starts with its verb and a space, and ends with the empty line, CRLF CRLF |
| RtspTestClient.RequestText | rtsp_test_client.py:26-136 | the five requests, with CSeq 1 to 5 in sending order, the stream URI (the track URI for SETUP), and the id in the Session header of PLAY and TEARDOWN |
| RtspTestClient.RequestLayout | rtsp_test_client.py:26-136 | a request reads back as its request line, the CSeq line carrying `n`, its headers, and the empty line that ends it |
| RtspTestClient.RequestLinesAt | rtsp_test_client.py:26-136 | the lines of a request one by one |
| RtspTestClient.ColonSplitsSession | rtsp_test_client.py:66 | splitting a "Session:" line at ':' gives "Session" and then the split of the rest |
| RtspTestClient.SessionFieldUpToNextColon | rtsp_test_client.py:66 | the session id is the text between the first and second ':', stripped |
| RtspTestClient.SessionLine | rtsp_test_client.py:64-67 | the index of the first line starting with "Session:", or none if no line does |
| RtspTestClient.SessionField | rtsp_test_client.py:66 | `line.split(':')[1].strip()` for a "Session:" line (see `SessionFieldUpToNextColon`) |
| RtspTestClient.SessionId | rtsp_test_client.py:63-67 | the field of the first "Session:" line of the response, or none |
| RtspTestClient.SessionFieldIsClean | rtsp_test_client.py:66 | the field of a "Session:" line holds no ':' and is already stripped |
| RtspTestClient.SessionIdIsClean | rtsp_test_client.py:63-67 | so the id taken from a response holds no ':' and is already stripped |
| RtspTestClient.ExtractSessionId | rtsp_test_client.py:63-67 | the loop's result is the field of the first "Session:" line, or none |
| RtspTestClient.SessionLineAt | rtsp_test_client.py:64-67 | a "Session:" line preceded only by other lines is the one found |
| RtspTestClient.SessionIdFromLine | rtsp_test_client.py:63-67 | the id is taken from the line found |
| RtspTestClient.SplitSessionHeader | rtsp_test_client.py:80 | a `Session: <id>` header without ':' in the id splits into "Session" and " <id>" |
| RtspTestClient.SessionHeaderStrips | rtsp_test_client.py:80 | the field of a sent Session header is the id with its leading space stripped |
| RtspTestClient.SessionHeaderField | rtsp_test_client.py:80 | a stripped id without ':' is read back as itself from the Session header |
| RtspTestClient.SessionIdAtThirdLine | rtsp_test_client.py:63-67 | a response whose third line is the first "Session:" line yields that line's field |
| RtspTestClient.RequestCarriesSession | rtsp_test_client.py:77-84 | a request whose first header is a "Session:" line yields that line's field under the client's own parsing |
| RtspTestClient.SessionHeaderCarriesId | rtsp_test_client.py:77-84 | a request whose first header is `Session: <id>` reads back as carrying `<id>`, for an id like those `SessionIdIsClean` describes |
| RtspTestClient.SessionRequestParts | rtsp_test_client.py:77-84 | in PLAY and TEARDOWN the Session header comes first, and their fixed texts hold no carriage return |
| RtspTestClient.RequestCarriesSessionId | rtsp_test_client.py:77-136 | the PLAY and TEARDOWN requests the client sends read back, by its own parsing, as carrying the session id they were built with |
| RtspTestClient.TestRtspFullSession | rtsp_test_client.py:10-142 | the requests sent, as `RtspRequest` kinds whose texts `RequestText` gives: OPTIONS, DESCRIBE and SETUP, in that order, always; with no or an empty session id nothing more; otherwise PLAY and TEARDOWN with the id, with RTP received iff the PLAY response contains "200 OK" |

## Left out

- Locks, condition variables, the motion and watchdog threads, `join(timeout)` and every `sleep`: each loop body is one sequential step, and the frames a viewer finds after each wake-up are given as a sequence.
- Supervision.MonitorStreamHealth: the watchdog's running flag is fixed for the whole run. A `stop()` from another thread during the five-second sleep still lets one more check run in the source; the model instead ends the sequence of checks there.
- OpenCV (`imdecode`, MOG2, morphology, `findContours`, `contourArea`, `boundingRect`, `VideoWriter`): oracles as described above. `frame.copy()` is a value copy.
- The camera (`Picamera2`, `initialize_camera`, `start_recording_with_recovery`): only what a restart attempt did reaches the monitor (`Recovery`), and only how a server pass ended reaches the supervisor (`Attempt`).
- database.py: sqlite3, file sizes and dates; an event is the file's path appended to a log. A database error is not modelled.
- An exception from `VideoWriter.write` or `release` is not modelled: writing to an opened writer always succeeds. A failing release still clears the field, which `Cleanup` states.
- The general `except Exception` around the motion loop body and in `MotionStreamingOutput.write` is not modelled beyond the decode failure.
- `int(pre_buffer_duration * fps)` and `int(post_motion_duration * fps)`: floating point; the capacity and the limit are given naturals.
- Log messages and the recording duration computed for them.
- The HTML page body, the response headers of `/` and `/stream.mjpg`, and socket errors that end a stream.
- The dead first definitions of `_serve_mjpeg_stream`, `_serve_favicon` and `_get_html_content` in streamserver.py; the later ones are what Python keeps.
- StreamWatchdog's default timeout of 10.0 seconds is a constructor argument.
- rtsp_test_client.py: the TCP and UDP sockets, `recv`'s 1024- and 2048-byte truncation, UTF-8 decoding errors, the 10- and 5-second socket timeouts and the 30-second RTP deadline; the datagrams are those that arrive in time. The OPTIONS and DESCRIBE responses are read and ignored.
- RtspTestClient.RequestCarriesSessionId: stated for ids without a carriage return. The client splits the response only at CRLF, so a lone `\r` inside the Session line could reach the id; the model does not follow such an id.
- RtspText.IsSpace: Python's `isspace` set is given as a fixed set of characters, without Unicode database lookups.
- test_rtsp.py, config.py, logger.py, setup.py, dependencies.py, exceptions.py and `main`: start-up, configuration and socket checks, not part of this model.

## Findings

| source | as written | input that shows it | evidently intended | confidence | as-written member | corrected member |
|---|---|---|---|---|---|---|
| streamserver.py:146-148 | `motion_detected` is the whole `(flag, boxes)` tuple from `detect_motion`, and a non-empty tuple is always true, so every processed frame counts as motion and starts a recording when none is active | a frame without motion, for which `detect_motion` returns `(False, [])` | test the flag, the first component | high; not executed | StreamOutput.MotionStreamingOutput.MotionLoopStep, StreamOutput.AsWrittenTakesNoMotionForMotion | StreamOutput.MotionStreamingOutput.MotionLoopStepCorrected, StreamOutput.MotionDecisionMeansLargeContour |
