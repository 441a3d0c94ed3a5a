/** StreamingHandler of streamserver.py: GET routing and the multipart MJPEG framing of
  * /stream.mjpg (the later, effective definition of _serve_mjpeg_stream). Sockets, the
  * condition-variable wait and the HTML page body are left out; the frames the handler
  * observes after each wake-up are given as a sequence. */
module HttpHandler {
  import opened Common

  // ---------------------------------------------------------------------------
  // Routing
  // ---------------------------------------------------------------------------

  datatype Route = HtmlPage | MjpegStream | Favicon | NotFound

  /** do_GET: which handler a request path reaches. */
  function RouteGet(path: string): (r: Route)
    ensures r == NotFound <==> path != "/" && path != "/stream.mjpg" && path != "/favicon.ico"
    ensures r == MjpegStream <==> path == "/stream.mjpg"
  {
    if path == "/" then HtmlPage
    else if path == "/stream.mjpg" then MjpegStream
    else if path == "/favicon.ico" then Favicon
    else NotFound
  }

  /** The status line each handler sends: the page and the stream 200, the favicon 204, the rest 404. */
  function Status(r: Route): (code: nat)
    ensures code == 404 <==> r == NotFound
    ensures code == 204 <==> r == Favicon
  {
    match r
    case HtmlPage => 200
    case MjpegStream => 200
    case Favicon => 204
    case NotFound => 404
  }

  /** The one path that reaches each handler (none reaches NotFound on purpose). */
  function PathOf(r: Route): Option<string>
  {
    match r
    case HtmlPage => Some("/")
    case MjpegStream => Some("/stream.mjpg")
    case Favicon => Some("/favicon.ico")
    case NotFound => None
  }

  /** Routing is exact: every handler but NotFound is reached by its own path and by no other,
    * and every other path is answered 404. */
  lemma RoutingIsExact(path: string, r: Route)
    ensures PathOf(r).Some? ==> RouteGet(PathOf(r).value) == r
    ensures RouteGet(path) != NotFound <==> PathOf(RouteGet(path)) == Some(path)
    ensures Status(RouteGet(path)) == 404 <==> path !in {"/", "/stream.mjpg", "/favicon.ico"}
  {
  }

  // ---------------------------------------------------------------------------
  // Bytes and text
  // ---------------------------------------------------------------------------

  predicate IsDigitByte(b: byte)
  {
    48 <= b <= 57
  }

  lemma DigitCode(c: char)
    requires IsDigit(c)
    ensures IsDigitByte(c as int)
  {
  }

  lemma CodeDigit(b: byte)
    requires IsDigitByte(b)
    ensures IsDigit(b as char)
  {
  }

  /** The ASCII bytes of a string of decimal digits (how `str(len(frame))` goes on the wire). */
  function DigitBytes(s: string): (b: seq<byte>)
    requires forall c :: c in s ==> IsDigit(c)
    ensures |b| == |s|
    ensures forall i :: 0 <= i < |b| ==> IsDigitByte(b[i])
  {
    if s == [] then []
    else
      assert s[0] in s && forall c :: c in s[1..] ==> c in s;
      DigitCode(s[0]);
      var b: byte := s[0] as int;
      [b] + DigitBytes(s[1..])
  }

  /** The digits spelt by ASCII digit bytes. */
  function DigitText(b: seq<byte>): (s: string)
    requires forall i :: 0 <= i < |b| ==> IsDigitByte(b[i])
    ensures |s| == |b|
    ensures forall c :: c in s ==> IsDigit(c)
  {
    if b == [] then []
    else
      var rest := DigitText(b[1..]);
      CodeDigit(b[0]);
      assert forall c :: c in [b[0] as char] + rest ==> c == b[0] as char || c in rest;
      [b[0] as char] + rest
  }

  lemma {:induction false} DigitTextBytes(s: string)
    requires forall c :: c in s ==> IsDigit(c)
    ensures DigitText(DigitBytes(s)) == s
  {
    if s != [] {
      assert forall c :: c in s[1..] ==> c in s;
      DigitTextBytes(s[1..]);
      assert DigitBytes(s)[1..] == DigitBytes(s[1..]);
    }
  }

  /** The number of leading decimal-digit bytes of `b`. */
  function DigitRun(b: seq<byte>): (k: nat)
    ensures k <= |b|
    ensures forall i :: 0 <= i < k ==> IsDigitByte(b[i])
    ensures k < |b| ==> !IsDigitByte(b[k])
  {
    if b == [] || !IsDigitByte(b[0]) then 0 else 1 + DigitRun(b[1..])
  }

  lemma {:induction false} DigitRunOf(d: seq<byte>, t: seq<byte>)
    requires forall i :: 0 <= i < |d| ==> IsDigitByte(d[i])
    requires t == [] || !IsDigitByte(t[0])
    ensures DigitRun(d + t) == |d|
  {
    if d != [] {
      assert (d + t)[1..] == d[1..] + t;
      DigitRunOf(d[1..], t);
    } else {
      assert d + t == t;
    }
  }

  // ---------------------------------------------------------------------------
  // MJPEG part framing
  // ---------------------------------------------------------------------------

  const CRLF: seq<byte> := [13, 10]

  /** The boundary line and the two part headers up to the length value, as ASCII:
    * "--FRAME\r\n" "Content-Type: image/jpeg\r\n" "Content-Length: ". */
  const PartHead: seq<byte> := [
    45, 45, 70, 82, 65, 77, 69, 13, 10,
    67, 111, 110, 116, 101, 110, 116, 45, 84, 121, 112, 101, 58, 32, 105, 109, 97, 103, 101, 47, 106, 112, 101, 103, 13, 10,
    67, 111, 110, 116, 101, 110, 116, 45, 76, 101, 110, 103, 116, 104, 58, 32]

  /** One part of the multipart stream: boundary, Content-Type and Content-Length = len(frame)
    * headers, the blank line that ends the headers, the frame, and a closing CRLF. */
  function MjpegPart(frame: seq<byte>): (r: seq<byte>)
    ensures |r| >= |PartHead| + |frame| + 4
    ensures r[..|PartHead|] == PartHead
    ensures r[|r| - |frame| - 4..] == CRLF + frame + CRLF
  {
    var head := PartHead + DigitBytes(Decimal(|frame|)) + CRLF;
    assert head[..|PartHead|] == PartHead;
    assert head + CRLF + frame + CRLF == head + (CRLF + frame + CRLF);
    head + CRLF + frame + CRLF
  }

  /** Reads one part off the front of `b`: its frame and what follows it. */
  function ParsePart(b: seq<byte>): (r: Option<(seq<byte>, seq<byte>)>)
    ensures r.Some? ==> |r.value.1| < |b|
  {
    if |b| < |PartHead| || b[..|PartHead|] != PartHead then None
    else ParseLength(b[|PartHead|..])
  }

  /** After the headers' fixed text: the length digits, then the rest of the part. */
  function ParseLength(rest: seq<byte>): (r: Option<(seq<byte>, seq<byte>)>)
    ensures r.Some? ==> |r.value.1| < |rest|
  {
    var k := DigitRun(rest);
    if k == 0 then None
    else ParseBody(ParseDecimal(DigitText(rest[..k])), rest[k..])
  }

  /** After the length digits: the end of the headers, `n` bytes of frame and the closing CRLF. */
  function ParseBody(n: nat, after: seq<byte>): (r: Option<(seq<byte>, seq<byte>)>)
    ensures r.Some? ==> |r.value.1| < |after|
  {
    if |after| < 4 || after[..4] != CRLF + CRLF then None
    else
      var body := after[4..];
      if |body| < n + 2 || body[n..n + 2] != CRLF then None
      else Some((body[..n], body[n + 2..]))
  }

  lemma BodyRoundTrip(frame: seq<byte>, tail: seq<byte>)
    ensures ParseBody(|frame|, CRLF + CRLF + frame + CRLF + tail) == Some((frame, tail))
  {
    var after := CRLF + CRLF + frame + CRLF + tail;
    assert after[..4] == CRLF + CRLF;
    var body := after[4..];
    assert body == frame + CRLF + tail;
    assert body[..|frame|] == frame;
    assert body[|frame|..|frame| + 2] == CRLF;
    assert body[|frame| + 2..] == tail;
  }

  /** The digit run of a length field followed by a non-digit splits off exactly the digits. */
  lemma DigitsThen(d: seq<byte>, after: seq<byte>)
    requires forall i :: 0 <= i < |d| ==> IsDigitByte(d[i])
    requires after == [] || !IsDigitByte(after[0])
    ensures DigitRun(d + after) == |d|
    ensures (d + after)[..|d|] == d && (d + after)[|d|..] == after
  {
    DigitRunOf(d, after);
    assert (d + after)[..|d|] == d;
    assert (d + after)[|d|..] == after;
  }

  /** Any digit string whose value is the frame's length reads back as that length. */
  lemma DigitsRoundTrip(dec: string, frame: seq<byte>, tail: seq<byte>)
    requires forall c :: c in dec ==> IsDigit(c)
    requires dec != [] && ParseDecimal(dec) == |frame|
    ensures ParseLength(DigitBytes(dec) + (CRLF + CRLF + frame + CRLF + tail)) == Some((frame, tail))
  {
    var digits := DigitBytes(dec);
    var after := CRLF + CRLF + frame + CRLF + tail;
    DigitsThen(digits, after);
    DigitTextBytes(dec);
    BodyRoundTrip(frame, tail);
  }

  lemma LengthRoundTrip(frame: seq<byte>, tail: seq<byte>)
    ensures ParseLength(DigitBytes(Decimal(|frame|)) + (CRLF + CRLF + frame + CRLF + tail)) == Some((frame, tail))
  {
    DecimalRoundTrip(|frame|);
    DigitsRoundTrip(Decimal(|frame|), frame, tail);
  }

  /** A part is self-delimiting: reading it back gives the frame and leaves what follows untouched. */
  lemma PartRoundTrip(frame: seq<byte>, tail: seq<byte>)
    ensures ParsePart(MjpegPart(frame) + tail) == Some((frame, tail))
  {
    var digits := DigitBytes(Decimal(|frame|));
    var rest := digits + (CRLF + CRLF + frame + CRLF + tail);
    var b := MjpegPart(frame) + tail;
    assert b == PartHead + rest;
    assert b[..|PartHead|] == PartHead;
    assert b[|PartHead|..] == rest;
    LengthRoundTrip(frame, tail);
  }

  /** The bytes written for a sequence of frames, one part each. */
  function EncodeStream(frames: seq<seq<byte>>): seq<byte>
  {
    if frames == [] then [] else MjpegPart(frames[0]) + EncodeStream(frames[1..])
  }

  lemma {:induction false} EncodeStreamAppend(frames: seq<seq<byte>>, f: seq<byte>)
    ensures EncodeStream(frames + [f]) == EncodeStream(frames) + MjpegPart(f)
  {
    if frames == [] {
      assert EncodeStream([f]) == MjpegPart(f) + EncodeStream([]);
    } else {
      assert (frames + [f])[1..] == frames[1..] + [f];
      EncodeStreamAppend(frames[1..], f);
    }
  }

  /** A client's reading of the stream: parts, one after another, until the bytes run out or
    * stop being a part. */
  function ParseStream(b: seq<byte>): seq<seq<byte>>
    decreases |b|
  {
    if b == [] then []
    else
      match ParsePart(b)
      case None => []
      case Some((f, rest)) => [f] + ParseStream(rest)
  }

  lemma {:induction false} StreamRoundTrip(frames: seq<seq<byte>>)
    ensures ParseStream(EncodeStream(frames)) == frames
  {
    if frames != [] {
      PartRoundTrip(frames[0], EncodeStream(frames[1..]));
      StreamRoundTrip(frames[1..]);
    }
  }

  /** The loop of _serve_mjpeg_stream over the frames it finds in the slot after each wake-up:
    * an empty slot emits nothing, any other frame emits one part. */
  method ServeMjpegStream(wakeups: seq<Option<seq<byte>>>) returns (written: seq<byte>)
    ensures written == EncodeStream(Present(wakeups))
    ensures ParseStream(written) == Present(wakeups)
  {
    written := [];
    var i := 0;
    while i < |wakeups|
      invariant 0 <= i <= |wakeups|
      invariant written == EncodeStream(Present(wakeups[..i]))
    {
      assert wakeups[..i + 1][..i] == wakeups[..i];
      var frame := wakeups[i];
      assert Present(wakeups[..i + 1]) == Present(wakeups[..i]) + (if frame.Some? then [frame.value] else []);
      if frame.Some? {
        EncodeStreamAppend(Present(wakeups[..i]), frame.value);
        written := written + MjpegPart(frame.value);
      } else {
        assert Present(wakeups[..i + 1]) == Present(wakeups[..i]);
      }
      i := i + 1;
    }
    assert wakeups[..|wakeups|] == wakeups;
    StreamRoundTrip(Present(wakeups));
  }
}
