/**
 * The response parser of the older one-shot HTTP client
 * (src/http/response.rs). `Response::new` takes a whole response held in
 * memory: `parse_headers` reads the status line and the header lines and
 * leaves a `DataDecoder` whose cursor stands after them; `decode` then
 * reads the body in one go. The loops of `parse_headers` and
 * `chunked_decode` are methods proved against the pure functions below;
 * both share the loop semantics of the HTTP/1.x client (`Wire`).
 */
module HttpResponse {
  import opened Bytes
  import opened Wire
  import H1 = Http1Headers
  import HH = HttpHeaders

  /**
   * `DataDecoder`: the transfer encoding the headers declared, and the
   * cursor, as the whole response `data` and the position `pos` in it.
   */
  datatype Decoder = Decoder(encoding: H1.TrfrEncodingType, data: Text, pos: nat)

  datatype Response = Response(code: u16, headers: seq<HH.Header>, content: Text)

  /** The headers kept from the lines read: those `Header::serialize` accepts, in order. */
  function Accepted(lines: seq<Text>): seq<HH.Header> {
    if |lines| == 0 then []
    else
      var init := Accepted(lines[..|lines| - 1]);
      match HH.Header.Serialize(lines[|lines| - 1])
      case Ok(h) => init + [h]
      case Err(_) => init
  }

  /** The encoding the header loop leaves: that of the last `Transfer-Encoding`, or `None`. */
  function LastEncoding(hs: seq<HH.Header>): H1.TrfrEncodingType {
    if |hs| == 0 then H1.TrfrEncodingType.None
    else if hs[|hs| - 1].TransferEncoding? then hs[|hs| - 1].tr
    else LastEncoding(hs[..|hs| - 1])
  }

  /**
   * `parse_headers`: a buffer without `\r` is `Empty`, a status code that
   * does not parse is `InvalidFirstLine`, a header line that is not UTF-8
   * is `InvalidHeader`; otherwise the code, the headers kept, and a decoder
   * with the last transfer encoding and the cursor after the header loop.
   */
  function ParseHeadersSpec(data: Text): Result<(u16, seq<HH.Header>, Decoder), HttpResErr>
    requires StatusLineSliceable(data)
  {
    match StatusLine(data)
    case Err(e) => Err(e)
    case Ok((code, start)) => HeadersRead(data, code, start, ScanLines(Rest(data, start)))
  }

  /** What `parse_headers` returns once the header loop from `start` has run as `sc`. */
  function HeadersRead(data: Text, code: u16, start: nat, sc: LineScan): Result<(u16, seq<HH.Header>, Decoder), HttpResErr> {
    if sc.bad then Err(InvalidHeader)
    else
      var hs := Accepted(sc.lines);
      Ok((code, hs, Decoder(LastEncoding(hs), data, start + sc.consumed)))
  }

  /**
   * The bodies on which `chunked_decode` does not panic: no payload slice
   * is out of range, and the loop ends on a terminating line or a bad
   * length, never by running out of bytes or of `\r`s (`panic!`).
   */
  predicate ChunkedDecodable(buf: Text) {
    ChunksInBounds(buf) && (ChunkScan(buf).end == Terminated || ChunkScan(buf).end == BadLength)
  }

  /** What `Vec::pop` leaves: all but the last byte, and nothing of nothing. */
  function DropLast(s: Text): (r: Text)
    ensures |s| > 0 ==> |r| == |s| - 1 && r + [s[|s| - 1]] == s
    ensures |s| == 0 ==> r == []
  {
    if |s| == 0 then [] else s[..|s| - 1]
  }

  /** `chunked_decode`: `None` on a bad length, else the payloads read, less their last byte. */
  function ChunkedDecodeSpec(buf: Text): Option<Text>
    requires ChunkedDecodable(buf)
  {
    var r := ChunkScan(buf);
    if r.end == BadLength then None else Some(DropLast(r.payload))
  }

  /** Gzip bodies are not decoded (`todo!()`), and chunked ones must not panic. */
  predicate Decodable(d: Decoder) {
    && d.encoding != H1.TrfrEncodingType.Gzip
    && d.encoding != H1.TrfrEncodingType.GzipChunked
    && (d.encoding == H1.TrfrEncodingType.Chunked ==> ChunkedDecodable(Rest(d.data, d.pos)))
  }

  /**
   * `decode`: chunked bodies from the cursor on; any other encoding hands
   * back the cursor's whole buffer, the status line and headers included.
   */
  function DecodeSpec(d: Decoder): Option<Text>
    requires Decodable(d)
  {
    if d.encoding == H1.TrfrEncodingType.Chunked then ChunkedDecodeSpec(Rest(d.data, d.pos))
    else Some(d.data)
  }

  /** The responses on which `Response::new` does not panic. */
  predicate NewDefined(data: Text) {
    StatusLineSliceable(data) && (ParseHeadersSpec(data).Ok? ==> Decodable(ParseHeadersSpec(data).value.2))
  }

  /** `Response::new`: the errors of `parse_headers`, `InvalidBody` when `decode` gives `None`. */
  function NewSpec(data: Text): Result<Response, HttpResErr>
    requires NewDefined(data)
  {
    match ParseHeadersSpec(data)
    case Err(e) => Err(e)
    case Ok((code, hs, d)) =>
      match DecodeSpec(d)
      case None => Err(InvalidBody)
      case Some(c) => Ok(Response(code, hs, c))
  }

  // ---------------------------------------------------------------------
  // The code

  /** `parse_headers`: the status line, then the header loop. */
  method ParseHeaders(data: Text) returns (r: Result<(u16, seq<HH.Header>, Decoder), HttpResErr>)
    requires StatusLineSliceable(data)
    ensures r == ParseHeadersSpec(data)
  {
    hide ScanLines, StatusLine, Accepted, LastEncoding;
    var status := ReadStatusLine(data);
    if status.Err? {
      ParseHeadersStatusFails(data);
      return Err(status.error);
    }
    var (code, start) := status.value;
    ParseHeadersAfterStatus(data, code, start);
    var pos, headers, tr, bad := ReadHeaders(data, start);
    if bad {
      return Err(InvalidHeader);
    }
    return Ok((code, headers, Decoder(tr, data, pos)));
  }

  /** The header loop of `parse_headers`, from `start`. */
  method ReadHeaders(data: Text, start: nat) returns (pos: nat, headers: seq<HH.Header>, tr: H1.TrfrEncodingType, bad: bool)
    ensures var sc := ScanLines(Rest(data, start));
      && pos == start + sc.consumed && bad == sc.bad
      && headers == Accepted(sc.lines) && tr == LastEncoding(headers)
  {
    hide ScanLines, LineStepOf, Accepted, LastEncoding, LinesFrom, HH.Header.Serialize;
    pos := start;
    headers := [];
    tr := H1.TrfrEncodingType.None;
    ghost var seen: seq<Text> := [];
    LinesFromStart(data, start);
    NothingAccepted();
    while true
      invariant LinesFrom(data, start, pos, seen)
      invariant headers == Accepted(seen) && tr == LastEncoding(headers)
      decreases |Rest(data, pos)|
    {
      var buf := Rest(data, pos);
      if |buf| == 0 {
        LineStepEnd(buf);
        LineLoopStop(data, start, pos, seen, 0, false);
        return pos, headers, tr, false;
      }
      var m := IndexOf(buf, CR);
      if m.None? {
        LineStepEnd(buf);
        LineLoopStop(data, start, pos, seen, 0, false);
        return pos, headers, tr, false;
      }
      var n := m.value;
      var s := buf[..n];
      if !ValidUtf8(s) {
        LineStepBad(buf, n);
        LineLoopStop(data, start, pos, seen, 0, true);
        return pos, headers, tr, true;
      }
      if |s| == 0 {
        LineStepBlank(buf);
        LineLoopStop(data, start, pos, seen, 2, false);
        return pos + 2, headers, tr, false;
      }
      var next := pos + n + 2;
      LineLoopStep(data, start, pos, seen, n, next);
      AcceptedSnoc(seen, s);
      seen := seen + [s];
      pos := next;
      var h := HH.Header.Serialize(s);
      if h.Ok? {
        LastEncodingSnoc(headers, h.value);
        if h.value.TransferEncoding? {
          tr := h.value.tr;
        }
        headers := headers + [h.value];
      }
    }
  }

  /** `chunked_decode`; the cursor is `pos`, and `fill_buf` is `Rest(d.data, pos)`. */
  method ChunkedDecode(d: Decoder) returns (r: Option<Text>)
    requires ChunkedDecodable(Rest(d.data, d.pos))
    ensures r == ChunkedDecodeSpec(Rest(d.data, d.pos))
  {
    ghost var buf0 := Rest(d.data, d.pos);
    var content: Text := [];
    var pos := d.pos;
    assert ScanFrom(content, buf0) == ChunkScan(buf0);
    hide ChunkScan, ChunkStepOf, ChunksInBounds, ScanFrom;
    while true
      invariant ChunksInBounds(Rest(d.data, pos))
      invariant ChunkScan(buf0) == ScanFrom(content, Rest(d.data, pos))
      decreases |Rest(d.data, pos)|
    {
      var buf := Rest(d.data, pos);
      var m := IndexOf(buf, CR);
      if m.None? {
        // `panic!("impl this!")`: the loop would end by running out.
        ChunkScanStop(content, buf, if |buf| == 0 then Exhausted else NoCR);
        assert false;
      }
      var index := m.value;
      if index == 0 {
        ChunkScanStop(content, buf, Terminated);
        break;
      }
      var len := StrToUsize(buf[..index]);
      if len.None? {
        ChunkScanStop(content, buf, BadLength);
        ChunkedDecodeBadLength(buf0);
        return None;
      }
      if len.value == 0 {
        ChunkScanStop(content, buf, Terminated);
        break;
      }
      var next := pos + index + len.value + 4;
      ChunkScanAdvance(content, d.data, pos, index, len.value, next);
      content := content + buf[index + 2..len.value + 3];
      pos := next;
    }
    ChunkedDecodeTerminated(buf0, content);
    // The "dirty fix": the last byte read is dropped.
    if |content| > 0 {
      content := content[..|content| - 1];
    }
    return Some(content);
  }

  /** `DataDecoder::decode`. */
  method Decode(d: Decoder) returns (r: Option<Text>)
    requires Decodable(d)
    ensures r == DecodeSpec(d)
  {
    if d.encoding == H1.TrfrEncodingType.Chunked {
      r := ChunkedDecode(d);
    } else {
      r := Some(d.data);
    }
  }

  /** `Response::new`. */
  method NewResponse(data: Text) returns (r: Result<Response, HttpResErr>)
    requires NewDefined(data)
    ensures r == NewSpec(data)
  {
    var parsed := ParseHeaders(data);
    if parsed.Err? {
      return Err(parsed.error);
    }
    var (code, headers, decoder) := parsed.value;
    var content := Decode(decoder);
    if content.None? {
      return Err(InvalidBody);
    }
    return Ok(Response(code, headers, content.value));
  }

  // ---------------------------------------------------------------------
  // Lemmas the loops use

  /** After a status line that parses, `parse_headers` is what the header loop makes of the rest. */
  lemma ParseHeadersAfterStatus(data: Text, code: u16, start: nat)
    requires StatusLineSliceable(data)
    requires StatusLine(data) == Ok((code, start))
    ensures ParseHeadersSpec(data) == HeadersRead(data, code, start, ScanLines(Rest(data, start)))
  {
    hide HeadersRead, ScanLines, Rest;
  }

  /** A status line that does not parse ends `parse_headers` with its error. */
  lemma ParseHeadersStatusFails(data: Text)
    requires StatusLineSliceable(data) && StatusLine(data).Err?
    ensures ParseHeadersSpec(data) == Err(StatusLine(data).error)
  {
    hide HeadersRead, ScanLines, StatusLine;
  }

  lemma ChunkedDecodeTerminated(buf: Text, payload: Text)
    requires ChunksInBounds(buf) && ChunkScan(buf) == ChunkScanResult(payload, Terminated)
    ensures ChunkedDecodable(buf) && ChunkedDecodeSpec(buf) == Some(DropLast(payload))
  {
    hide ChunkScan, ChunksInBounds, DropLast;
  }

  lemma ChunkedDecodeBadLength(buf: Text)
    requires ChunkedDecodable(buf) && ChunkScan(buf).end == BadLength
    ensures ChunkedDecodeSpec(buf) == None
  {
    hide ChunkScan, ChunksInBounds, DropLast;
  }

  lemma NothingAccepted()
    ensures Accepted([]) == [] && LastEncoding([]) == H1.TrfrEncodingType.None
  {
  }

  lemma AcceptedSnoc(lines: seq<Text>, line: Text)
    ensures Accepted(lines + [line]) ==
      Accepted(lines) + (if HH.Header.Serialize(line).Ok? then [HH.Header.Serialize(line).value] else [])
  {
    assert (lines + [line])[..|lines|] == lines;
  }

  lemma LastEncodingSnoc(hs: seq<HH.Header>, h: HH.Header)
    ensures LastEncoding(hs + [h]) == if h.TransferEncoding? then h.tr else LastEncoding(hs)
  {
    assert (hs + [h])[..|hs|] == hs;
  }
}
