/** rtsp_test_client.py: the RTP fixed-header fields the client prints, the session id it takes
  * from the SETUP response, the five requests it sends and the decisions between them.
  *
  * Sockets are left out: the SETUP and PLAY responses are the decoded text `recv` returned, and
  * the RTP datagrams are those that arrive before the receive timeout. */
module RtspTestClient {
  import opened Common
  import opened RtspText

  // ---------------------------------------------------------------------------
  // RTP fixed header (section 5.1 of RFC 3550)
  // ---------------------------------------------------------------------------

  function Pow256(k: nat): (p: nat)
    ensures p >= 1
  {
    if k == 0 then 1 else 256 * Pow256(k - 1)
  }

  /** int.from_bytes(b, 'big'). */
  function BigEndian(b: seq<byte>): (n: nat)
    ensures n < Pow256(|b|)
  {
    if b == [] then 0
    else
      var m := BigEndian(b[..|b| - 1]);
      assert m * 256 <= (Pow256(|b| - 1) - 1) * 256;
      m * 256 + b[|b| - 1]
  }

  /** n.to_bytes(k, 'big'): the `k` big-endian bytes of `n`. */
  function BeBytes(n: nat, k: nat): (b: seq<byte>)
    requires n < Pow256(k)
    ensures |b| == k
  {
    if k == 0 then []
    else BeBytes(n / 256, k - 1) + [n % 256]
  }

  lemma {:induction false} BeBytesRoundTrip(n: nat, k: nat)
    requires n < Pow256(k)
    ensures BigEndian(BeBytes(n, k)) == n
  {
    if k > 0 {
      var b := BeBytes(n, k);
      assert b[..k - 1] == BeBytes(n / 256, k - 1);
      BeBytesRoundTrip(n / 256, k - 1);
    }
  }

  lemma {:induction false} BigEndianRoundTrip(b: seq<byte>)
    ensures BeBytes(BigEndian(b), |b|) == b
  {
    if b != [] {
      var init := b[..|b| - 1];
      var n := BigEndian(b);
      assert n / 256 == BigEndian(init) && n % 256 == b[|b| - 1];
      BigEndianRoundTrip(init);
    }
  }

  /** The fields the client prints for a datagram. */
  datatype RtpFields = RtpFields(version: nat, payloadType: nat, seqNum: nat, timestamp: nat)

  /** The header parse at rtsp_test_client.py:109-113: nothing for a datagram shorter than the
    * 12-byte fixed header; otherwise the top two bits of byte 0, the low seven bits of byte 1,
    * bytes 2-3 and bytes 4-7 as big-endian unsigned integers. */
  function ParseRtpHeader(data: seq<byte>): (r: Option<RtpFields>)
    ensures r.Some? <==> |data| >= 12
    ensures r.Some? ==>
      r.value.version < 4 && r.value.payloadType < 128 && r.value.seqNum < 0x1_0000 && r.value.timestamp < 0x1_0000_0000
  {
    if |data| < 12 then None
    else
      assert Pow256(2) == 0x1_0000 && Pow256(4) == 0x1_0000_0000;
      Some(RtpFields(data[0] / 64, data[1] % 128, BigEndian(data[2..4]), BigEndian(data[4..8])))
  }

  /** `(b >> 6) & 0x3` is the division by 64 used above. */
  lemma VersionBits(b: bv8)
    ensures ((b >> 6) & 3) as int == b as int / 64
  {
  }

  /** `b & 0x7f` is the remainder by 128 used above. */
  lemma PayloadTypeBits(b: bv8)
    ensures (b & 0x7F) as int == b as int % 128
  {
  }

  /** The whole fixed header of section 5.1 of RFC 3550. */
  datatype FixedHeader = FixedHeader(
    version: nat, padding: bool, extension: bool, csrcCount: nat,
    marker: bool, payloadType: nat, seqNum: nat, timestamp: nat, ssrc: nat)

  predicate WellFormed(h: FixedHeader)
  {
    h.version < 4 && h.csrcCount < 16 && h.payloadType < 128 &&
    h.seqNum < Pow256(2) && h.timestamp < Pow256(4) && h.ssrc < Pow256(4)
  }

  function Bit(b: bool): nat
  {
    if b then 1 else 0
  }

  /** The 12 bytes of a fixed header as a sender lays them out: V(2) P X CC(4) | M PT(7) |
    * sequence number (16) | timestamp (32) | SSRC (32). */
  function EncodeFixedHeader(h: FixedHeader): (b: seq<byte>)
    requires WellFormed(h)
    ensures |b| == 12
  {
    var b0: byte := h.version * 64 + Bit(h.padding) * 32 + Bit(h.extension) * 16 + h.csrcCount;
    var b1: byte := Bit(h.marker) * 128 + h.payloadType;
    [b0, b1] + BeBytes(h.seqNum, 2) + BeBytes(h.timestamp, 4) + BeBytes(h.ssrc, 4)
  }

  /** Every field of a fixed header, read back from its 12 bytes. */
  function DecodeFixedHeader(d: seq<byte>): (h: FixedHeader)
    requires |d| >= 12
    ensures WellFormed(h)
  {
    FixedHeader(d[0] / 64, (d[0] / 32) % 2 == 1, (d[0] / 16) % 2 == 1, d[0] % 16,
                d[1] / 128 == 1, d[1] % 128, BigEndian(d[2..4]), BigEndian(d[4..8]), BigEndian(d[8..12]))
  }

  /** The client reads exactly the version, payload type, sequence number and timestamp a
    * sender put in the header, whatever follows it. */
  lemma RtpHeaderRoundTrip(h: FixedHeader, rest: seq<byte>)
    requires WellFormed(h)
    ensures ParseRtpHeader(EncodeFixedHeader(h) + rest) ==
      Some(RtpFields(h.version, h.payloadType, h.seqNum, h.timestamp))
  {
    var d := EncodeFixedHeader(h) + rest;
    assert d[2..4] == BeBytes(h.seqNum, 2);
    assert d[4..8] == BeBytes(h.timestamp, 4);
    BeBytesRoundTrip(h.seqNum, 2);
    BeBytesRoundTrip(h.timestamp, 4);
  }

  lemma FirstByteFields(b: byte)
    ensures b == (b / 64) * 64 + Bit((b / 32) % 2 == 1) * 32 + Bit((b / 16) % 2 == 1) * 16 + b % 16
  {
  }

  lemma SecondByteFields(b: byte)
    ensures b == Bit(b / 128 == 1) * 128 + b % 128
  {
  }

  /** Any 12 bytes are the encoding of one header, and the client's fields are that header's. */
  lemma EveryDatagramHasAHeader(d: seq<byte>)
    requires |d| >= 12
    ensures EncodeFixedHeader(DecodeFixedHeader(d)) == d[..12]
    ensures var h := DecodeFixedHeader(d);
      ParseRtpHeader(d) == Some(RtpFields(h.version, h.payloadType, h.seqNum, h.timestamp))
  {
    DecodeThenEncode(d);
  }

  lemma DecodeThenEncode(d: seq<byte>)
    requires |d| >= 12
    ensures EncodeFixedHeader(DecodeFixedHeader(d)) == d[..12]
  {
    var h := DecodeFixedHeader(d);
    BigEndianRoundTrip(d[2..4]);
    BigEndianRoundTrip(d[4..8]);
    BigEndianRoundTrip(d[8..12]);
    FirstByteFields(d[0]);
    SecondByteFields(d[1]);
    var e := EncodeFixedHeader(h);
    assert e == [d[0], d[1]] + d[2..4] + d[4..8] + d[8..12];
    assert d[..12] == [d[0], d[1]] + d[2..4] + d[4..8] + d[8..12];
  }

  function Min(a: nat, b: nat): nat
  {
    if a <= b then a else b
  }

  /** The receive loop: it stops after 10 datagrams (or when they stop arriving) and parses the
    * header of each one it counts. */
  method ReceiveRtpPackets(datagrams: seq<seq<byte>>) returns (count: nat, headers: seq<Option<RtpFields>>)
    ensures count == |headers| == Min(10, |datagrams|)
    ensures forall i :: 0 <= i < count ==> headers[i] == ParseRtpHeader(datagrams[i])
  {
    count := 0;
    headers := [];
    while count < 10 && count < |datagrams|
      invariant count == |headers| <= Min(10, |datagrams|)
      invariant forall i :: 0 <= i < count ==> headers[i] == ParseRtpHeader(datagrams[i])
    {
      var data := datagrams[count];
      count := count + 1;
      headers := headers + [ParseRtpHeader(data)];
    }
  }

  // ---------------------------------------------------------------------------
  // Requests
  // ---------------------------------------------------------------------------

  const CRLF: string := "\r\n"
  const StreamUri: string := "rtsp://10.0.4.67:8554/stream"
  const TrackUri: string := StreamUri + "/track1"
  const UserAgent: string := "User-Agent: TestClient/1.0"

  /** Each line followed by CRLF. */
  function Lines(ls: seq<string>): (r: string)
    ensures |ls| >= 2 && ls[|ls| - 1] == "" ==> |r| >= 4 && r[|r| - 4..] == CRLF + CRLF
  {
    if ls == [] then []
    else
      var rest := Lines(ls[1..]);
      assert |ls| == 2 && ls[1] == "" ==> rest == CRLF by {
        if |ls| == 2 && ls[1] == "" {
          assert ls[1..] == [""] && ls[1..][1..] == [];
          assert Lines([""]) == "" + CRLF + Lines([]);
        }
      }
      ls[0] + CRLF + rest
  }

  /** A request: the request line, the CSeq header, the other headers, and the empty line. */
  function Request(verb: string, uri: string, cseq: nat, headers: seq<string>): (r: string)
    ensures |r| >= |verb| + 1 && r[..|verb| + 1] == verb + " "
    ensures |r| >= 4 && r[|r| - 4..] == CRLF + CRLF
  {
    var ls := [verb + " " + uri + " RTSP/1.0", "CSeq: " + Decimal(cseq)] + headers + [""];
    assert ls[0] == verb + " " + uri + " RTSP/1.0" && ls[|ls| - 1] == "";
    assert (verb + " " + uri + " RTSP/1.0")[..|verb| + 1] == verb + " ";
    Lines(ls)
  }

  /** The five requests the client sends, by kind; PLAY and TEARDOWN carry the session id. */
  datatype RtspRequest = Options | Describe | Setup | Play(sessionId: string) | Teardown(sessionId: string)

  function Verb(q: RtspRequest): string
  {
    match q
    case Options => "OPTIONS"
    case Describe => "DESCRIBE"
    case Setup => "SETUP"
    case Play(_) => "PLAY"
    case Teardown(_) => "TEARDOWN"
  }

  /** The CSeq of each request: 1 to 5, in the order they are sent. */
  function SequenceNumber(q: RtspRequest): nat
  {
    match q
    case Options => 1
    case Describe => 2
    case Setup => 3
    case Play(_) => 4
    case Teardown(_) => 5
  }

  function Headers(q: RtspRequest): seq<string>
  {
    match q
    case Options => [UserAgent]
    case Describe => ["Accept: application/sdp", UserAgent]
    case Setup => ["Transport: RTP/AVP/UDP;unicast;client_port=5004-5005", UserAgent]
    case Play(id) => ["Session: " + id, "Range: npt=0-", UserAgent]
    case Teardown(id) => ["Session: " + id, UserAgent]
  }

  /** The text of each request: SETUP names the track, the others the stream. */
  function RequestText(q: RtspRequest): string
  {
    Request(Verb(q), if q.Setup? then TrackUri else StreamUri, SequenceNumber(q), Headers(q))
  }

  /** Lines without a carriage return split back into themselves, and a last empty piece. */
  lemma {:induction false} SplitLines(ls: seq<string>)
    requires forall i :: 0 <= i < |ls| ==> '\r' !in ls[i]
    ensures Split(Lines(ls), CRLF) == ls + [""]
  {
    if ls == [] {
      SplitWhole("", CRLF);
    } else {
      SplitLines(ls[1..]);
      SplitAfter(ls[0], CRLF, Lines(ls[1..]));
      assert ls[0] + CRLF + Lines(ls[1..]) == Lines(ls);
      assert [ls[0]] + (ls[1..] + [""]) == ls + [""];
    }
  }

  lemma DecimalHasNoCR(n: nat)
    ensures '\r' !in "CSeq: " + Decimal(n)
  {
    var d := Decimal(n);
    assert forall i :: 0 <= i < |d| ==> IsDigit(d[i]);
    assert forall i :: 0 <= i < |"CSeq: " + d| ==> ("CSeq: " + d)[i] != '\r';
  }

  /** Read back line by line, a request is its request line, its CSeq line carrying `cseq`, its
    * headers, and the empty line that ends it. */
  lemma RequestLayout(verb: string, uri: string, cseq: nat, headers: seq<string>)
    requires '\r' !in verb && '\r' !in uri
    requires forall i :: 0 <= i < |headers| ==> '\r' !in headers[i]
    ensures Split(Request(verb, uri, cseq, headers), CRLF) ==
      [verb + " " + uri + " RTSP/1.0", "CSeq: " + Decimal(cseq)] + headers + ["", ""]
    ensures ParseDecimal(("CSeq: " + Decimal(cseq))[6..]) == cseq
  {
    var first := verb + " " + uri + " RTSP/1.0";
    assert forall i :: 0 <= i < |first| ==> first[i] != '\r';
    DecimalHasNoCR(cseq);
    var ls := [first, "CSeq: " + Decimal(cseq)] + headers + [""];
    assert forall i :: 0 <= i < |ls| ==> '\r' !in ls[i] by {
      forall i | 0 <= i < |ls|
        ensures '\r' !in ls[i]
      {
        if 2 <= i < |ls| - 1 {
          assert ls[i] == headers[i - 2];
        }
      }
    }
    SplitLines(ls);
    assert ("CSeq: " + Decimal(cseq))[6..] == Decimal(cseq);
    DecimalRoundTrip(cseq);
  }

  // ---------------------------------------------------------------------------
  // Session id
  // ---------------------------------------------------------------------------

  const SessionPrefix: string := "Session:"

  lemma ColonSplitsSession(line: string)
    requires StartsWith(line, SessionPrefix)
    ensures Split(line, ":") == ["Session"] + Split(line[8..], ":")
  {
    assert line == "Session" + ":" + line[8..];
    SplitAfter("Session", ":", line[8..]);
  }

  /** line.split(':')[1].strip() for a line that starts with "Session:". */
  function SessionField(line: string): string
    requires StartsWith(line, SessionPrefix)
  {
    ColonSplitsSession(line);
    Strip(Split(line, ":")[1])
  }

  /** The field is the text after "Session:" up to the next ':' (or the end), stripped. */
  lemma SessionFieldUpToNextColon(line: string)
    requires StartsWith(line, SessionPrefix)
    ensures var t := line[8..];
      SessionField(line) == Strip(if Contains(t, ":") then t[..IndexOf(t, ":").value] else t)
  {
    ColonSplitsSession(line);
  }

  /** The index of the first line that starts with "Session:", if there is one. */
  function SessionLine(lines: seq<string>): (r: Option<nat>)
    ensures r.Some? ==> r.value < |lines| && StartsWith(lines[r.value], SessionPrefix)
    ensures r.Some? ==> forall j :: 0 <= j < r.value ==> !StartsWith(lines[j], SessionPrefix)
    ensures r.None? ==> forall j :: 0 <= j < |lines| ==> !StartsWith(lines[j], SessionPrefix)
  {
    if lines == [] then None
    else if StartsWith(lines[0], SessionPrefix) then Some(0)
    else
      var rest := lines[1..];
      assert forall j :: 1 <= j < |lines| ==> lines[j] == rest[j - 1];
      match SessionLine(rest)
      case None => None
      case Some(k) => Some(k + 1)
  }

  /** The session id the client takes from a response: the field of its first "Session:" line. */
  function SessionId(response: string): Option<string>
  {
    var lines := Split(response, CRLF);
    match SessionLine(lines)
    case None => None
    case Some(i) => Some(SessionField(lines[i]))
  }

  /** The search at rtsp_test_client.py:63-67: split the response at CRLF, take the first line
    * starting with "Session:", and stop there. */
  method ExtractSessionId(response: string) returns (sessionId: Option<string>)
    ensures sessionId == SessionId(response)
  {
    var lines := Split(response, CRLF);
    var i := 0;
    while i < |lines|
      invariant 0 <= i <= |lines|
      invariant forall j :: 0 <= j < i ==> !StartsWith(lines[j], SessionPrefix)
    {
      if StartsWith(lines[i], SessionPrefix) {
        SessionLineAt(lines, i);
        sessionId := Some(SessionField(lines[i]));
        return;
      }
      i := i + 1;
    }
    sessionId := None;
  }

  /** Any line that starts with "Session:" and follows only other lines is the one found. */
  lemma SessionLineAt(lines: seq<string>, i: nat)
    requires i < |lines| && StartsWith(lines[i], SessionPrefix)
    requires forall j :: 0 <= j < i ==> !StartsWith(lines[j], SessionPrefix)
    ensures SessionLine(lines) == Some(i)
  {
  }

  lemma SessionIdFromLine(response: string, i: nat)
    requires SessionLine(Split(response, CRLF)) == Some(i)
    ensures SessionId(response) == Some(SessionField(Split(response, CRLF)[i]))
  {
  }

  lemma FirstCharDiffers(s: string, p: string)
    requires s != [] && p != [] && s[0] != p[0]
    ensures !StartsWith(s, p)
  {
    if |p| <= |s| {
      assert s[..|p|][0] == s[0];
    }
  }

  lemma SplitSessionHeader(id: string)
    requires ':' !in id
    ensures Split("Session: " + id, ":") == ["Session", " " + id]
  {
    SplitAfter("Session", ":", " " + id);
    SplitWhole(" " + id, ":");
    assert "Session: " + id == "Session" + ":" + (" " + id);
  }

  lemma SessionHeaderStrips(id: string)
    requires ':' !in id
    ensures StartsWith("Session: " + id, SessionPrefix)
    ensures SessionField("Session: " + id) == Strip(" " + id)
  {
    assert ("Session: " + id)[..8] == SessionPrefix;
    SplitSessionHeader(id);
  }

  /** The Session header a request sends carries the id, once stripped: an id that is already
    * stripped and holds no ':' is read back as itself. */
  lemma SessionHeaderField(id: string)
    requires ':' !in id && Strip(id) == id
    ensures StartsWith("Session: " + id, SessionPrefix)
    ensures SessionField("Session: " + id) == id
  {
    SessionHeaderStrips(id);
    StripSkipsLeadingSpace(' ', id);
    assert [' '] + id == " " + id;
  }

  /** The lines of a request one by one. */
  lemma RequestLinesAt(verb: string, uri: string, cseq: nat, headers: seq<string>)
    requires '\r' !in verb && '\r' !in uri
    requires forall i :: 0 <= i < |headers| ==> '\r' !in headers[i]
    ensures var lines := Split(Request(verb, uri, cseq, headers), CRLF);
      |lines| == |headers| + 4 &&
      lines[0] == verb + " " + uri + " RTSP/1.0" && lines[1] == "CSeq: " + Decimal(cseq) &&
      forall k :: 0 <= k < |headers| ==> lines[k + 2] == headers[k]
  {
    RequestLayout(verb, uri, cseq, headers);
  }

  /** A response whose third line is the first "Session:" line carries that line's field. */
  lemma SessionIdAtThirdLine(response: string, line: string)
    requires var lines := Split(response, CRLF);
      |lines| >= 3 && !StartsWith(lines[0], SessionPrefix) && !StartsWith(lines[1], SessionPrefix) &&
      lines[2] == line && StartsWith(line, SessionPrefix)
    ensures SessionId(response) == Some(SessionField(line))
  {
    var lines := Split(response, CRLF);
    SessionLineAt(lines, 2);
    SessionIdFromLine(response, 2);
  }

  /** A request whose first header is a "Session:" line is read back, by the client's own parsing,
    * as carrying that line's field. */
  lemma RequestCarriesSession(verb: string, uri: string, cseq: nat, header: string, rest: seq<string>)
    requires verb != [] && verb[0] != 'S' && '\r' !in verb && '\r' !in uri
    requires StartsWith(header, SessionPrefix) && '\r' !in header
    requires forall i :: 0 <= i < |rest| ==> '\r' !in rest[i]
    ensures SessionId(Request(verb, uri, cseq, [header] + rest)) == Some(SessionField(header))
  {
    var headers := [header] + rest;
    var request := Request(verb, uri, cseq, headers);
    var lines := Split(request, CRLF);
    assert forall i :: 0 <= i < |headers| ==> '\r' !in headers[i] by {
      forall i | 0 <= i < |headers|
        ensures '\r' !in headers[i]
      {
        if i > 0 {
          assert headers[i] == rest[i - 1];
        }
      }
    }
    RequestLinesAt(verb, uri, cseq, headers);
    assert lines[2] == headers[0];
    FirstCharDiffers(lines[0], SessionPrefix);
    assert ("CSeq: " + Decimal(cseq))[0] == 'C';
    FirstCharDiffers(lines[1], SessionPrefix);
    SessionIdAtThirdLine(request, header);
  }

  /** The field of a "Session:" line holds no ':' and is already stripped. */
  lemma SessionFieldIsClean(line: string)
    requires StartsWith(line, SessionPrefix)
    ensures ':' !in SessionField(line) && Strip(SessionField(line)) == SessionField(line)
  {
    ColonSplitsSession(line);
    var piece := Split(line, ":")[1];
    PieceHasNoColon(line, piece);
    StripIsSlice(piece);
    StripIdempotent(piece);
  }

  lemma PieceHasNoColon(line: string, piece: string)
    requires piece in Split(line, ":")
    ensures ':' !in piece
  {
    SplitPiecesHaveNoSeparator(line, ":");
    if ':' in piece {
      var j :| 0 <= j < |piece| && piece[j] == ':';
      assert OccursAt(piece, ":", j);
    }
  }

  /** The id the client takes from a response holds no ':' and is already stripped, so the
    * Session header it sends back reads back as that id. */
  lemma SessionIdIsClean(response: string)
    ensures SessionId(response).Some? ==>
      ':' !in SessionId(response).value && Strip(SessionId(response).value) == SessionId(response).value
  {
    var lines := Split(response, CRLF);
    match SessionLine(lines)
    case None =>
    case Some(k) =>
      SessionFieldIsClean(lines[k]);
  }

  lemma SessionHeaderHasNoCR(id: string)
    requires '\r' !in id
    ensures '\r' !in "Session: " + id
  {
    assert forall i :: 0 <= i < 9 ==> "Session: "[i] != '\r';
  }

  /** A request whose first header is `Session: <id>`, for a stripped id without ':', reads back
    * as carrying that id. */
  lemma SessionHeaderCarriesId(verb: string, uri: string, cseq: nat, id: string, rest: seq<string>)
    requires verb != [] && verb[0] != 'S' && '\r' !in verb && '\r' !in uri
    requires ':' !in id && '\r' !in id && Strip(id) == id
    requires forall i :: 0 <= i < |rest| ==> '\r' !in rest[i]
    ensures SessionId(Request(verb, uri, cseq, ["Session: " + id] + rest)) == Some(id)
  {
    SessionHeaderField(id);
    SessionHeaderHasNoCR(id);
    RequestCarriesSession(verb, uri, cseq, "Session: " + id, rest);
  }

  /** PLAY and TEARDOWN: the verb does not start with 'S', the Session header comes first, and
    * no fixed text holds a carriage return. */
  lemma SessionRequestParts(q: RtspRequest)
    requires q.Play? || q.Teardown?
    ensures Verb(q) != [] && Verb(q)[0] != 'S' && '\r' !in Verb(q) && '\r' !in StreamUri
    ensures Headers(q) == ["Session: " + q.sessionId] + Headers(q)[1..]
    ensures forall i :: 0 <= i < |Headers(q)[1..]| ==> '\r' !in Headers(q)[1..][i]
  {
    assert forall i :: 0 <= i < |StreamUri| ==> StreamUri[i] != '\r';
    assert forall i :: 0 <= i < |UserAgent| ==> UserAgent[i] != '\r';
  }

  /** The PLAY and TEARDOWN requests the client sends carry the id it took from the SETUP
    * response: read back by the client's own parsing, each gives that id again. */
  lemma RequestCarriesSessionId(q: RtspRequest)
    requires q.Play? || q.Teardown?
    requires ':' !in q.sessionId && '\r' !in q.sessionId && Strip(q.sessionId) == q.sessionId
    ensures SessionId(RequestText(q)) == Some(q.sessionId)
  {
    SessionRequestParts(q);
    SessionHeaderCarriesId(Verb(q), StreamUri, SequenceNumber(q), q.sessionId, Headers(q)[1..]);
  }

  // ---------------------------------------------------------------------------
  // The session
  // ---------------------------------------------------------------------------

  /** test_rtsp_full_session without its sockets: OPTIONS, DESCRIBE and SETUP; abandon when the
    * SETUP response gives no session id or an empty one; otherwise PLAY, listen for RTP only when
    * the PLAY response contains "200 OK", and TEARDOWN. */
  method TestRtspFullSession(setupResponse: string, playResponse: string, datagrams: seq<seq<byte>>)
    returns (sent: seq<RtspRequest>, playOk: bool, headers: seq<Option<RtpFields>>)
    ensures var id := SessionId(setupResponse);
      if id.None? || id.value == "" then
        sent == [Options, Describe, Setup] && !playOk && headers == []
      else
        sent == [Options, Describe, Setup, Play(id.value), Teardown(id.value)] &&
        (playOk <==> Contains(playResponse, "200 OK"))
    ensures playOk ==>
      |headers| == Min(10, |datagrams|) && forall i :: 0 <= i < |headers| ==> headers[i] == ParseRtpHeader(datagrams[i])
    ensures !playOk ==> headers == []
  {
    sent := [Options, Describe, Setup];
    playOk := false;
    headers := [];
    var sessionId := ExtractSessionId(setupResponse);
    if sessionId.None? || sessionId.value == "" {
      return;
    }
    var id := sessionId.value;
    sent := [Options, Describe, Setup, Play(id)];
    if Contains(playResponse, "200 OK") {
      playOk := true;
      var count;
      count, headers := ReceiveRtpPackets(datagrams);
    }
    sent := [Options, Describe, Setup, Play(id), Teardown(id)];
  }
}
