/**
 * The incremental response decoder of the HTTP/1.x client
 * (src/http1/response.rs). `DataDecoder` is a class whose fields the
 * decoder's methods update in place; each method is proved against a pure
 * function of the decoder's value before the call (`DecodeSpec`,
 * `ParseHeadersSpec`, `ChunkedSpec`, `GetRespSpec`), and what those functions
 * do to a response as a server writes it is proved in `Http1ResponseProofs`.
 */
module Http1Response {
  import opened Bytes
  import opened Wire
  import H = Http1Headers

  datatype ResponseType = Informational | Successful | Redirection | ClientError | ServerError

  /** A response: status code, the headers read, and the body (none when empty). */
  datatype Response = Response(code: u16, headers: seq<H.Header>, content: Option<Text>)
  {
    /** `Response::status`: the class of the code; a code above 599 is unreachable. */
    function Status(): (t: ResponseType)
      requires code <= 599
      ensures t == Informational <==> code < 200
      ensures t == Successful <==> 200 <= code < 300
      ensures t == Redirection <==> 300 <= code < 400
      ensures t == ClientError <==> 400 <= code < 500
      ensures t == ServerError <==> 500 <= code
    {
      if code <= 199 then Informational
      else if code <= 299 then Successful
      else if code <= 399 then Redirection
      else if code <= 499 then ClientError
      else ServerError
    }
  }

  /** `Response::dummy`: an informational response (code 100) with nothing in it. */
  function Dummy(): (r: Response)
    ensures r.code == 100
    ensures r.code <= 599 && r.Status() == Informational
    ensures r.headers == [] && r.content.None?
  {
    Response(100, [], None)
  }

  /** `StateSnapshot`: connection facts the decoder can report. */
  datatype StateSnapshot = StateSnapshot(connClosed: bool, decoderErr: bool, upgrade: bool, upgradeProtocol: usize)

  const DEFAULT_SNAPSHOT: StateSnapshot := StateSnapshot(false, false, false, 0)

  datatype DecoderState = Headers | Content | ChunkedContent | Finished | Error

  /**
   * The fields of a `DataDecoder` as one value. The content buffer, an
   * `Option<Vec<u8>>` that is `Some` between calls, is its bytes.
   */
  datatype DecoderValue = DecoderValue(
    encoding: H.TrfrEncodingType,
    state: DecoderState,
    content: Text,
    resp: Option<Response>,
    contentLen: Option<usize>,
    snap: StateSnapshot)

  /** `DataDecoder::new`. */
  const INITIAL: DecoderValue :=
    DecoderValue(H.TrfrEncodingType.None, Headers, [], None, None, DEFAULT_SNAPSHOT)

  // ---------------------------------------------------------------------
  // Headers

  /** The headers kept from the lines read: those `Header::serialize` accepts, in order. */
  function Accepted(lines: seq<Text>): seq<H.Header> {
    if |lines| == 0 then []
    else
      var init := Accepted(lines[..|lines| - 1]);
      match H.Header.Serialize(lines[|lines| - 1])
      case Ok(h) => init + [h]
      case Err(_) => init
  }

  /**
   * What reading one header does to the decoder: `Transfer-Encoding` sets
   * the encoding and the chunked state, `Content-Length` the declared
   * length; a `Connection` header only evaluates a comparison on the
   * snapshot and changes nothing.
   */
  function Absorb(v: DecoderValue, h: H.Header): DecoderValue {
    if h.TransferEncoding? then v.(state := ChunkedContent, encoding := h.tr)
    else if h.ContentLength? then v.(contentLen := Some(h.len))
    else v
  }

  /** The headers read in order. */
  function AbsorbAll(v: DecoderValue, hs: seq<H.Header>): DecoderValue {
    if |hs| == 0 then v else Absorb(AbsorbAll(v, hs[..|hs| - 1]), hs[|hs| - 1])
  }

  /**
   * `parse_headers`: the state becomes `Content`; a buffer without `\r` is
   * `Empty` and moves to `Error`; a status line whose code does not parse is
   * `InvalidFirstLine` and leaves `Content`; a header line that is not UTF-8
   * is `InvalidHeader` after the headers before it have been taken in;
   * otherwise the response is recorded and the cursor stands after the
   * blank line, or where the bytes or the `\r`s ran out.
   */
  function ParseHeadersSpec(v: DecoderValue, data: Text): (DecoderValue, Result<nat, HttpResErr>)
    requires StatusLineSliceable(data)
  {
    var v0 := v.(state := Content);
    match StatusLine(data)
    case Err(e) => if e == Empty then (v0.(state := Error), Err(e)) else (v0, Err(e))
    case Ok((code, start)) => HeadersRead(v0, code, start, ScanLines(Rest(data, start)))
  }

  /**
   * The header loop's outcome `sc`, started at `start` after a status line
   * with code `code`: the headers kept are taken in, and unless the loop
   * stopped on a bad line the response is recorded and the cursor stands
   * after what the loop consumed.
   */
  function HeadersRead(v: DecoderValue, code: u16, start: nat, sc: LineScan): (DecoderValue, Result<nat, HttpResErr>) {
    var hs := Accepted(sc.lines);
    var v1 := AbsorbAll(v, hs);
    if sc.bad then (v1, Err(InvalidHeader))
    else (v1.(resp := Some(Response(code, hs, None))), Ok(start + sc.consumed))
  }

  // ---------------------------------------------------------------------
  // Bodies

  /**
   * `chunked_decode`: the payloads are appended; running out of bytes keeps
   * the state, a missing `\r`, an empty line or a zero length finishes, and
   * a length that is not hexadecimal is `InvalidBody` and moves to `Error`.
   */
  function ChunkedSpec(v: DecoderValue, bytes: Text): (DecoderValue, Result<(), HttpResErr>)
    requires ChunksInBounds(bytes)
  {
    var r := ChunkScan(bytes);
    var v1 := v.(content := v.content + r.payload);
    match r.end
    case Exhausted => (v1, Ok(()))
    case NoCR => (v1.(state := Finished), Ok(()))
    case Terminated => (v1.(state := Finished), Ok(()))
    case BadLength => (v1.(state := Error), Err(InvalidBody))
  }

  /**
   * A body without chunked encoding: the bytes are appended, and the
   * decoder finishes when no length was declared or the content is
   * exactly the declared length.
   */
  function ContentSpec(v: DecoderValue, bytes: Text): DecoderValue {
    var c := v.content + bytes;
    var ready := v.contentLen.None? || v.contentLen.value == |c|;
    v.(content := c, state := if ready then Finished else v.state)
  }

  /** Gzip bodies are not decoded, and no chunk slice may panic. */
  predicate BodyDecodable(v: DecoderValue, bytes: Text) {
    && v.encoding != H.TrfrEncodingType.Gzip
    && v.encoding != H.TrfrEncodingType.GzipChunked
    && (v.encoding == H.TrfrEncodingType.Chunked ==> ChunksInBounds(bytes))
  }

  /** The body bytes go by the encoding the decoder holds. */
  function BodySpec(v: DecoderValue, bytes: Text): (DecoderValue, Result<(), HttpResErr>)
    requires BodyDecodable(v, bytes)
  {
    if v.encoding == H.TrfrEncodingType.Chunked then ChunkedSpec(v, bytes)
    else (ContentSpec(v, bytes), Ok(()))
  }

  /**
   * The inputs on which `decode` does not panic: the status-line slices are
   * in bounds, the cursor after the headers is inside the buffer, and the
   * body meets `BodyDecodable`.
   */
  predicate Decodable(v: DecoderValue, data: Text) {
    v.state == Finished ||
    (if v.state == Headers then
       && StatusLineSliceable(data)
       && var (v1, r) := ParseHeadersSpec(v, data);
          r.Ok? ==> r.value <= |data| && BodyDecodable(v1, data[r.value..])
     else BodyDecodable(v, data))
  }

  /**
   * `decode`: nothing once finished; the headers first while in `Headers`;
   * then the rest of the bytes as body.
   */
  function DecodeSpec(v: DecoderValue, data: Text): (DecoderValue, Result<(), HttpResErr>)
    requires Decodable(v, data)
  {
    if v.state == Finished then (v, Ok(()))
    else if v.state == Headers then
      var (v1, r) := ParseHeadersSpec(v, data);
      match r
      case Err(e) => (v1, Err(e))
      case Ok(pos) => BodySpec(v1, data[pos..])
    else BodySpec(v, data)
  }

  /** `get_resp` panics when finished without a recorded response. */
  predicate CanGetResp(v: DecoderValue) {
    v.state == Finished ==> v.resp.Some?
  }

  /**
   * `get_resp`: when finished, hands out the response with the content
   * (none if empty) and clears both; the state, encoding and declared
   * length are kept.
   */
  function GetRespSpec(v: DecoderValue): (DecoderValue, Option<Response>)
    requires CanGetResp(v)
  {
    if v.state != Finished then (v, None)
    else
      var c := if |v.content| == 0 then None else Some(v.content);
      (v.(resp := None, content := []), Some(v.resp.value.(content := c)))
  }

  // ---------------------------------------------------------------------
  // The decoder

  class DataDecoder {
    var encoding: H.TrfrEncodingType
    var state: DecoderState
    var content: Text
    var resp: Option<Response>
    var contentLen: Option<usize>
    var snap: StateSnapshot

    function Value(): DecoderValue
      reads this
    {
      DecoderValue(encoding, state, content, resp, contentLen, snap)
    }

    /** `DataDecoder::new`. */
    constructor ()
      ensures Value() == INITIAL
    {
      encoding := H.TrfrEncodingType.None;
      state := Headers;
      content := [];
      resp := None;
      contentLen := None;
      snap := DEFAULT_SNAPSHOT;
    }

    /** `finished`. */
    method IsFinished() returns (b: bool)
      ensures b <==> state == Finished
    {
      b := state == Finished;
    }

    /** `encoding`. */
    method Encoding() returns (e: H.TrfrEncodingType)
      ensures e == encoding
    {
      e := encoding;
    }

    /** `state`: the snapshot. */
    method State() returns (s: StateSnapshot)
      ensures s == snap
    {
      s := snap;
    }

    method SContent()
      modifies this
      ensures Value() == old(Value()).(state := Content)
    {
      state := Content;
    }

    method SChkContent()
      modifies this
      ensures Value() == old(Value()).(state := ChunkedContent)
    {
      state := ChunkedContent;
    }

    method SFin()
      modifies this
      ensures Value() == old(Value()).(state := Finished)
    {
      state := Finished;
    }

    method SErr()
      modifies this
      ensures Value() == old(Value()).(state := Error)
    {
      state := Error;
    }

    /** `get_resp`. */
    method GetResp() returns (r: Option<Response>)
      requires CanGetResp(Value())
      modifies this
      ensures (Value(), r) == GetRespSpec(old(Value()))
    {
      var fin := IsFinished();
      if fin {
        var rr := resp.value;
        resp := None;
        var c: Option<Text>;
        if |content| == 0 {
          c := None;
        } else {
          c := Some(content);
        }
        rr := rr.(content := c);
        content := [];
        return Some(rr);
      }
      return None;
    }

    /** `poll_response`: `Some` is `Poll::Ready`, `None` is `Poll::Pending`. */
    method PollResponse() returns (r: Option<Response>)
      requires CanGetResp(Value())
      modifies this
      ensures (Value(), r) == GetRespSpec(old(Value()))
    {
      var fin := IsFinished();
      if fin {
        r := GetResp();
        return Some(r.value);
      }
      return None;
    }

    /** `decode`. */
    method Decode(data: Text) returns (r: Result<(), HttpResErr>)
      requires Decodable(Value(), data)
      modifies this
      ensures (Value(), r) == DecodeSpec(old(Value()), data)
    {
      if state == Finished {
        return Ok(());
      }
      var bytes := data;
      if state == Headers {
        var p := ParseHeaders(data);
        if p.Err? {
          return Err(p.error);
        }
        bytes := data[p.value..];
      }
      var e := Encoding();
      if e == H.TrfrEncodingType.Chunked {
        r := ChunkedDecode(bytes);
        if r.Err? {
          return;
        }
      } else {
        content := content + bytes;
        var ready := contentLen.None? || contentLen.value == |content|;
        if ready {
          SFin();
        }
      }
      return Ok(());
    }

    /** `chunked_decode`; the cursor is `pos`, and `fill_buf` is `Rest(data, pos)`. */
    method ChunkedDecode(data: Text) returns (r: Result<(), HttpResErr>)
      requires ChunksInBounds(data)
      modifies this
      ensures (Value(), r) == ChunkedSpec(old(Value()), data)
    {
      var pos: nat := 0;
      assert Rest(data, 0) == data;
      // The loop is tied to the chunk scan only through lemmas about it.
      hide ChunkScan, ChunkStepOf, ChunksInBounds;
      while true
        invariant ChunksInBounds(Rest(data, pos))
        invariant ChunkedSpec(old(Value()), data) == ChunkedSpec(Value(), Rest(data, pos))
        decreases |Rest(data, pos)|
      {
        var buf := Rest(data, pos);
        ghost var v := Value();
        if |buf| == 0 {
          ChunkLoopStop(v, buf, Exhausted);
          break;
        }
        var m := IndexOf(buf, CR);
        if m.None? || m.value == 0 {
          ChunkLoopStop(v, buf, if m.None? then NoCR else Terminated);
          SFin();
          break;
        }
        var index := m.value;
        var len := StrToUsize(buf[..index]);
        if len.None? {
          ChunkLoopStop(v, buf, BadLength);
          SErr();
          return Err(InvalidBody);
        }
        if len.value == 0 {
          ChunkLoopStop(v, buf, Terminated);
          state := Finished;
          break;
        }
        var next := pos + index + len.value + 4;
        ChunkLoopStep(v, data, pos, index, len.value, next);
        content := content + buf[index + 2..len.value + 3];
        pos := next;
      }
      return Ok(());
    }

    /** `parse_headers`: the status line, then the header loop. */
    method ParseHeaders(data: Text) returns (r: Result<nat, HttpResErr>)
      requires StatusLineSliceable(data)
      modifies this
      ensures (Value(), r) == ParseHeadersSpec(old(Value()), data)
    {
      hide StatusLine, ScanLines, Accepted, AbsorbAll, ParseHeadersSpec;
      SContent();
      var status := ReadStatusLine(data);
      if status.Err? {
        ParseHeadersStatusFails(old(Value()), data);
        if status.error == Empty {
          SErr();
        }
        return Err(status.error);
      }
      var code := status.value.0;
      var start := status.value.1;
      ParseHeadersAfterStatus(old(Value()), data, code, start);
      var pos, headers, bad := ReadHeaders(data, start);
      if bad {
        return Err(InvalidHeader);
      }
      resp := Some(Response(code, headers, None));
      return Ok(pos);
    }

    /**
     * The header loop of `parse_headers`, from `start`: the cursor `pos`,
     * the header list `headers`, and whether it stopped on a line that is
     * not UTF-8; `seen` holds the lines read so far.
     */
    method ReadHeaders(data: Text, start: nat) returns (pos: nat, headers: seq<H.Header>, bad: bool)
      modifies this
      ensures var sc := ScanLines(Rest(data, start));
        && pos == start + sc.consumed && bad == sc.bad
        && headers == Accepted(sc.lines)
        && Value() == AbsorbAll(old(Value()), headers)
    {
      // The loop is tied to these functions only through lemmas about them.
      hide ScanLines, LineStepOf, Accepted, AbsorbAll, Absorb, LinesFrom, H.Header.Serialize;
      ghost var v0 := Value();
      pos := start;
      headers := [];
      ghost var seen: seq<Text> := [];
      LinesFromStart(data, start);
      NoHeaders(v0);
      while true
        invariant LinesFrom(data, start, pos, seen)
        invariant headers == Accepted(seen)
        invariant Value() == AbsorbAll(v0, headers)
        decreases |Rest(data, pos)|
      {
        var buf := Rest(data, pos);
        if |buf| == 0 {
          LineStepEnd(buf);
          LineLoopStop(data, start, pos, seen, 0, false);
          return pos, headers, false;
        }
        var m := IndexOf(buf, CR);
        if m.None? {
          LineStepEnd(buf);
          LineLoopStop(data, start, pos, seen, 0, false);
          return pos, headers, false;
        }
        var n := m.value;
        var s := buf[..n];
        if !ValidUtf8(s) {
          LineStepBad(buf, n);
          LineLoopStop(data, start, pos, seen, 0, true);
          return pos, headers, true;
        }
        if |s| == 0 {
          LineStepBlank(buf);
          LineLoopStop(data, start, pos, seen, 2, false);
          return pos + 2, headers, false;
        }
        var next := pos + n + 2;
        LineLoopStep(data, start, pos, seen, n, next);
        AcceptedSnoc(seen, s);
        seen := seen + [s];
        pos := next;
        var h := H.Header.Serialize(s);
        if h.Ok? {
          AbsorbAllSnoc(v0, headers, h.value);
          TakeHeader(h.value);
          headers := headers + [h.value];
        }
      }
    }

    /** The arms of `parse_headers` that act on a header once it is read. */
    method TakeHeader(header: H.Header)
      modifies this
      ensures Value() == Absorb(old(Value()), header)
    {
      if header.TransferEncoding? {
        SChkContent();
        encoding := header.tr;
      } else if header.ContentLength? {
        contentLen := Some(header.len);
      } else if header.Connection? && header.state == H.Close {
        // `state_mut(|state| state.upgrade == true)`: a comparison whose
        // value is dropped; the snapshot is not changed.
        var _ := snap.upgrade == true;
      }
    }
  }

  /**
   * A turn of the chunk loop that reads a non-zero length takes that
   * record's payload, and the loop goes on at `next`, after the record.
   */
  lemma ChunkLoopStep(v: DecoderValue, data: Text, pos: nat, index: nat, len: nat, next: nat)
    requires ChunksInBounds(Rest(data, pos)) && |Rest(data, pos)| > 0
    requires IndexOf(Rest(data, pos), CR) == Some(index) && index > 0
    requires StrToUsize(Rest(data, pos)[..index]) == Some(len) && len > 0
    requires next == pos + index + len + 4
    ensures index + 2 <= len + 3 <= |Rest(data, pos)|
    ensures |Rest(data, next)| < |Rest(data, pos)|
    ensures ChunksInBounds(Rest(data, next))
    ensures ChunkedSpec(v, Rest(data, pos)) ==
      ChunkedSpec(v.(content := v.content + Rest(data, pos)[index + 2..len + 3]), Rest(data, next))
  {
    var buf := Rest(data, pos);
    var skip := index + len + 4;
    ChunkStepTake(buf, index, len);
    ChunkedSpecStep(v, buf, buf[index + 2..len + 3], skip);
    RestRest(data, pos, skip);
    assert Rest(data, next) == Rest(buf, skip);
  }

  /**
   * A turn of the chunk loop that stops with `end`: nothing more is taken,
   * and the loop's outcome is that end.
   */
  lemma ChunkLoopStop(v: DecoderValue, buf: Text, end: ChunkEnd)
    requires |buf| == 0 ==> end == Exhausted
    requires |buf| > 0 ==>
      match IndexOf(buf, CR)
      case None => end == NoCR
      case Some(index) =>
        if index == 0 then end == Terminated
        else match StrToUsize(buf[..index])
          case None => end == BadLength
          case Some(len) => len == 0 && end == Terminated
    ensures ChunksInBounds(buf)
    ensures ChunkedSpec(v, buf) ==
        match end
        case Exhausted => (v, Ok(()))
        case NoCR => (v.(state := Finished), Ok(()))
        case Terminated => (v.(state := Finished), Ok(()))
        case BadLength => (v.(state := Error), Err(InvalidBody))
  {
    assert v.content + [] == v.content;
  }

  /** One record of the chunk loop: its payload is appended and the loop goes on after it. */
  lemma ChunkedSpecStep(v: DecoderValue, buf: Text, p: Text, skip: nat)
    requires ChunksInBounds(buf) && ChunkStepOf(buf) == Take(p, skip)
    ensures ChunksInBounds(Rest(buf, skip))
    ensures ChunkedSpec(v, buf) == ChunkedSpec(v.(content := v.content + p), Rest(buf, skip))
  {
    AppendAssoc(v.content, p, ChunkScan(Rest(buf, skip)).payload);
  }

  /** Once the status line is read, `parse_headers` is the header loop from after it. */
  lemma ParseHeadersAfterStatus(v: DecoderValue, data: Text, code: u16, start: nat)
    requires StatusLineSliceable(data)
    requires StatusLine(data) == Ok((code, start))
    ensures ParseHeadersSpec(v, data) == HeadersRead(v.(state := Content), code, start, ScanLines(Rest(data, start)))
  {
    hide HeadersRead, ScanLines, Rest;
  }

  /** A status line that does not parse ends `parse_headers` at once. */
  lemma ParseHeadersStatusFails(v: DecoderValue, data: Text)
    requires StatusLineSliceable(data) && StatusLine(data).Err?
    ensures var v0 := v.(state := Content);
      ParseHeadersSpec(v, data) ==
        if StatusLine(data).error == Empty then (v0.(state := Error), Err(Empty))
        else (v0, Err(StatusLine(data).error))
  {
    hide HeadersRead, ScanLines, StatusLine;
  }

  lemma NoHeaders(v: DecoderValue)
    ensures Accepted([]) == [] && AbsorbAll(v, []) == v
  {
  }

  lemma AcceptedSnoc(lines: seq<Text>, line: Text)
    ensures Accepted(lines + [line]) ==
      Accepted(lines) + (if H.Header.Serialize(line).Ok? then [H.Header.Serialize(line).value] else [])
  {
    assert (lines + [line])[..|lines|] == lines;
  }

  lemma AbsorbAllSnoc(v: DecoderValue, hs: seq<H.Header>, h: H.Header)
    ensures AbsorbAll(v, hs + [h]) == Absorb(AbsorbAll(v, hs), h)
  {
    assert (hs + [h])[..|hs|] == hs;
  }
}
