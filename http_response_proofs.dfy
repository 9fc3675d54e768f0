/**
 * What the older client's `Response::new` makes of a whole response as a
 * server writes it, stated for all inputs: the headers read back, the
 * body handed back whole when it is not chunked, the chunked payloads
 * short of their last byte, and the error of each way a response can be
 * malformed. Responses are built with the HTTP/1.x client's writers
 * (`Http1ResponseProofs`), so both clients are stated over the same bytes.
 */
module HttpResponseProofs {
  import opened Bytes
  import opened Wire
  import H1 = Http1Headers
  import HH = HttpHeaders
  import opened HttpResponse
  import P = Http1ResponseProofs
  import N = Http1Response

  // ---------------------------------------------------------------------
  // Responses as a server writes them

  /** The HTTP/1.x client's kinds for the headers `hs`, in order. */
  function Http1Of(hs: seq<HH.Header>): (r: seq<H1.Header>)
    ensures |r| == |hs|
    ensures forall i :: 0 <= i < |hs| ==> r[i] == hs[i].ToHttp1()
  {
    if |hs| == 0 then [] else Http1Of(hs[..|hs| - 1]) + [hs[|hs| - 1].ToHttp1()]
  }

  /** Headers a server can send: each reads back as itself, on one UTF-8 line without `\r`. */
  predicate AllSendable(hs: seq<HH.Header>) {
    P.AllSendable(Http1Of(hs))
  }

  /** The whole response: status line, the header lines of `hs`, blank line, body. */
  function Message(sl: Text, hs: seq<HH.Header>, body: Text): Text {
    P.Message(sl, Http1Of(hs), body)
  }

  lemma SendableWellFormed(hs: seq<HH.Header>)
    requires AllSendable(hs)
    ensures forall i :: 0 <= i < |hs| ==> hs[i].ToHttp1().WellFormed()
  {
    forall i | 0 <= i < |hs| ensures hs[i].ToHttp1().WellFormed() {
      assert P.Sendable(Http1Of(hs)[i]);
    }
  }

  /** The cursor after the header block stands at the first body byte. */
  lemma MessageBody(sl: Text, hs: seq<HH.Header>, body: Text)
    ensures |body| <= |Message(sl, hs, body)|
    ensures Rest(Message(sl, hs, body), |Message(sl, hs, body)| - |body|) == body
  {
    var head := sl + CRLF + (Lines(P.Renders(Http1Of(hs))) + CRLF);
    assert Message(sl, hs, body) == head + body;
    RestAfter(head, body);
  }

  // ---------------------------------------------------------------------
  // Reading the headers

  /** Rendered well-formed headers are read back as the same headers, in order. */
  lemma {:induction false} AcceptedRenders(hs: seq<HH.Header>)
    requires forall i :: 0 <= i < |hs| ==> hs[i].ToHttp1().WellFormed()
    ensures Accepted(P.Renders(Http1Of(hs))) == hs
    decreases |hs|
  {
    if |hs| > 0 {
      hide *;
      AcceptedRenders(hs[..|hs| - 1]);
      AcceptedRendersStep(hs);
    }
  }

  lemma AcceptedRendersStep(hs: seq<HH.Header>)
    requires |hs| > 0 && hs[|hs| - 1].ToHttp1().WellFormed()
    requires Accepted(P.Renders(Http1Of(hs[..|hs| - 1]))) == hs[..|hs| - 1]
    ensures Accepted(P.Renders(Http1Of(hs))) == hs
  {
    var n := |hs| - 1;
    var ls := P.Renders(Http1Of(hs));
    RendersInit(hs);
    hide *;
    HH.SerializeRender(hs[n]);
    AcceptedSnoc(ls[..n], ls[n]);
    InitLast(ls);
    InitLast(hs);
  }

  lemma RendersInit(hs: seq<HH.Header>)
    requires |hs| > 0
    ensures var ls, n := P.Renders(Http1Of(hs)), |hs| - 1;
      |ls| == |hs| && ls[..n] == P.Renders(Http1Of(hs[..n])) && ls[n] == hs[n].ToHttp1().Render()
  {
    var n := |hs| - 1;
    assert Http1Of(hs)[..n] == Http1Of(hs[..n]);
  }

  /**
   * `parse_headers` on a whole response: the code of the status line, every
   * header in order, the encoding of the last `Transfer-Encoding`, and the
   * cursor at the first body byte.
   */
  lemma ParseHeadersMessage(sl: Text, code: u16, hs: seq<HH.Header>, body: Text)
    requires P.StatusLineFor(sl, code) && AllSendable(hs)
    ensures StatusLineSliceable(Message(sl, hs, body))
    ensures ParseHeadersSpec(Message(sl, hs, body)) ==
      Ok((code, hs, Decoder(LastEncoding(hs), Message(sl, hs, body), |Message(sl, hs, body)| - |body|)))
  {
    hide *;
    SendableLines(hs);
    MessageShape(sl, hs, body);
    var ls := P.Renders(Http1Of(hs));
    var data := Message(sl, hs, body);
    ParseHeadersBlock(data, sl, code, ls, body);
    assert Accepted(ls) == hs;
    assert |sl| + 2 + |Lines(ls)| + 2 == |data| - |body|;
  }

  /** The header lines of sendable headers are header lines, and they read back as the headers. */
  lemma SendableLines(hs: seq<HH.Header>)
    requires AllSendable(hs)
    ensures HeaderLines(P.Renders(Http1Of(hs))) && Accepted(P.Renders(Http1Of(hs))) == hs
  {
    SendableWellFormed(hs);
    P.RendersAreHeaderLines(Http1Of(hs));
    AcceptedRenders(hs);
  }

  /** `parse_headers` on a status line, the header lines `ls`, a blank line and a body. */
  lemma ParseHeadersBlock(data: Text, sl: Text, code: u16, ls: seq<Text>, body: Text)
    requires P.StatusLineFor(sl, code) && HeaderLines(ls)
    requires data == sl + CRLF + (Lines(ls) + CRLF + body)
    ensures StatusLineSliceable(data)
    ensures ParseHeadersSpec(data) ==
      Ok((code, Accepted(ls), Decoder(LastEncoding(Accepted(ls)), data, |sl| + 2 + |Lines(ls)| + 2)))
  {
    hide ParseHeadersSpec, HeadersRead, StatusLine, ScanLines, Accepted, Lines, LastEncoding, HeaderLines;
    HeaderBlockScan(sl, code, ls, body);
    var sc := LineScan(ls, |Lines(ls)| + 2, false);
    assert A: ScanLines(Rest(data, |sl| + 2)) == sc;
    ParseHeadersAfterStatus(data, code, |sl| + 2);
    assert B: ParseHeadersSpec(data) == HeadersRead(data, code, |sl| + 2, sc);
    HeadersReadAt(data, code, |sl| + 2, ls, |Lines(ls)| + 2);
  }

  lemma MessageShape(sl: Text, hs: seq<HH.Header>, body: Text)
    ensures Message(sl, hs, body) == sl + CRLF + (Lines(P.Renders(Http1Of(hs))) + CRLF + body)
    ensures |Message(sl, hs, body)| - |body| == |sl| + 2 + |Lines(P.Renders(Http1Of(hs)))| + 2
  {
  }

  /** The status line is read, then the header lines up to the blank line. */
  lemma HeaderBlockScan(sl: Text, code: u16, ls: seq<Text>, body: Text)
    requires P.StatusLineFor(sl, code) && HeaderLines(ls)
    ensures var data := sl + CRLF + (Lines(ls) + CRLF + body);
      && StatusLineSliceable(data) && StatusLine(data) == Ok((code, |sl| + 2))
      && ScanLines(Rest(data, |sl| + 2)) == LineScan(ls, |Lines(ls)| + 2, false)
  {
    var rest := Lines(ls) + CRLF + body;
    P.StatusLineReads(sl, code, rest);
    RestAfter(sl + CRLF, rest);
    ScanLinesBlock(ls, body);
  }

  lemma HeadersReadAt(data: Text, code: u16, start: nat, ls: seq<Text>, consumed: nat)
    ensures HeadersRead(data, code, start, LineScan(ls, consumed, false)) ==
      Ok((code, Accepted(ls), Decoder(LastEncoding(Accepted(ls)), data, start + consumed)))
  {
    hide Accepted, LastEncoding;
  }

  /** The encoding is that of the last `Transfer-Encoding` header. */
  lemma {:induction false} LastEncodingIsLast(hs: seq<HH.Header>, i: nat)
    requires i < |hs| && hs[i].TransferEncoding?
    requires forall j :: i < j < |hs| ==> !hs[j].TransferEncoding?
    ensures LastEncoding(hs) == hs[i].tr
    decreases |hs|
  {
    if i < |hs| - 1 {
      LastEncodingIsLast(hs[..|hs| - 1], i);
    }
  }

  /** With no `Transfer-Encoding` header the encoding stays `None`. */
  lemma {:induction false} LastEncodingNone(hs: seq<HH.Header>)
    requires forall j :: 0 <= j < |hs| ==> !hs[j].TransferEncoding?
    ensures LastEncoding(hs) == H1.TrfrEncodingType.None
    decreases |hs|
  {
    if |hs| > 0 {
      LastEncodingNone(hs[..|hs| - 1]);
    }
  }

  // ---------------------------------------------------------------------
  // Whole responses

  /**
   * A body that is not chunked is not decoded: the content handed back is
   * the whole response, status line and headers included.
   */
  lemma NewPlain(sl: Text, code: u16, hs: seq<HH.Header>, body: Text)
    requires P.StatusLineFor(sl, code) && AllSendable(hs)
    requires LastEncoding(hs) != H1.TrfrEncodingType.Chunked
    requires LastEncoding(hs) != H1.TrfrEncodingType.Gzip && LastEncoding(hs) != H1.TrfrEncodingType.GzipChunked
    ensures NewDefined(Message(sl, hs, body))
    ensures NewSpec(Message(sl, hs, body)) == Ok(Response(code, hs, Message(sl, hs, body)))
  {
    hide Message, ParseHeadersSpec;
    ParseHeadersMessage(sl, code, hs, body);
  }

  /** Once the headers declare `chunked`, `Response::new` is what `chunked_decode` makes of the body. */
  lemma NewChunkedBody(sl: Text, code: u16, hs: seq<HH.Header>, body: Text)
    requires P.StatusLineFor(sl, code) && AllSendable(hs)
    requires LastEncoding(hs) == H1.TrfrEncodingType.Chunked && ChunkedDecodable(body)
    ensures NewDefined(Message(sl, hs, body))
    ensures NewSpec(Message(sl, hs, body)) ==
      match ChunkedDecodeSpec(body)
      case None => Err(InvalidBody)
      case Some(c) => Ok(Response(code, hs, c))
  {
    hide Message, ChunkedDecodeSpec, ChunkedDecodable, ParseHeadersSpec;
    ParseHeadersMessage(sl, code, hs, body);
    MessageBody(sl, hs, body);
  }

  /**
   * A chunked body of one-digit records closed by the last chunk is read as
   * its payloads, less the last byte ("dirty fix").
   */
  lemma NewChunked(sl: Text, code: u16, hs: seq<HH.Header>, ps: seq<Text>, tail: Text)
    requires P.StatusLineFor(sl, code) && AllSendable(hs)
    requires LastEncoding(hs) == H1.TrfrEncodingType.Chunked && SmallChunks(ps)
    ensures NewDefined(Message(sl, hs, Records(ps) + (LAST_CHUNK + tail)))
    ensures NewSpec(Message(sl, hs, Records(ps) + (LAST_CHUNK + tail))) ==
      Ok(Response(code, hs, DropLast(Concat(ps))))
  {
    var body := Records(ps) + (LAST_CHUNK + tail);
    LastChunkTerminates(tail);
    ChunkScanRecords(ps, LAST_CHUNK + tail);
    hide *;
    assert Concat(ps) + [] == Concat(ps);
    ChunkedDecodeTerminated(body, Concat(ps));
    NewChunkedBody(sl, code, hs, body);
  }

  /** So a well-framed chunked body loses a byte: its last payload byte. */
  lemma ChunkedLosesLastByte(sl: Text, code: u16, hs: seq<HH.Header>, ps: seq<Text>, tail: Text)
    requires P.StatusLineFor(sl, code) && AllSendable(hs)
    requires LastEncoding(hs) == H1.TrfrEncodingType.Chunked && SmallChunks(ps) && |ps| > 0
    ensures NewDefined(Message(sl, hs, Records(ps) + (LAST_CHUNK + tail)))
    ensures var r := NewSpec(Message(sl, hs, Records(ps) + (LAST_CHUNK + tail)));
      && r.Ok? && |r.value.content| == |Concat(ps)| - 1
      && r.value.content + [Concat(ps)[|Concat(ps)| - 1]] == Concat(ps)
  {
    NewChunked(sl, code, hs, ps, tail);
    P.ConcatNonEmpty(ps);
  }

  /**
   * A last record whose length field counts one byte more than its payload,
   * as the authors' test writes it, is read with the `\r` after the payload
   * and skips the `0` of the last chunk, whose `\r` then ends the loop.
   */
  function LongRecord(p: Text): Text
    requires |p| < 15
  {
    Digits(|p| + 1, 16) + CRLF + p + CRLF
  }

  lemma ChunkScanLongRecord(p: Text, tail: Text)
    requires 0 < |p| < 15
    ensures ChunksInBounds(LongRecord(p) + (LAST_CHUNK + tail))
    ensures ChunkScan(LongRecord(p) + (LAST_CHUNK + tail)) == ChunkScanResult(p + [CR], Terminated)
  {
    var buf := LongRecord(p) + (LAST_CHUNK + tail);
    var next: Text := CRLF + CRLF + tail;
    LongRecordStep(p, tail);
    BlankLineTerminates(CRLF + tail);
    hide *;
    assert ChunkScan(buf) == ChunkScanResult(p + [CR] + [], Terminated);
  }

  /** The turn of the chunk loop on such a record takes the payload and its `\r`, and one byte too many. */
  lemma LongRecordStep(p: Text, tail: Text)
    requires 0 < |p| < 15
    ensures ChunkStepOf(LongRecord(p) + (LAST_CHUNK + tail)) == Take(p + [CR], |p| + 6)
    ensures Rest(LongRecord(p) + (LAST_CHUNK + tail), |p| + 6) == CRLF + CRLF + tail
  {
    var ds := Digits(|p| + 1, 16);
    var buf := LongRecord(p) + (LAST_CHUNK + tail);
    LongRecordLength(p, LAST_CHUNK + tail);
    assert buf[3..|p| + 4] == p + [CR];
    assert Rest(buf, |p| + 6) == CRLF + CRLF + tail;
  }

  lemma LongRecordLength(p: Text, tail: Text)
    requires 0 < |p| < 15
    ensures |LongRecord(p)| == |p| + 5
    ensures IndexOf(LongRecord(p) + tail, CR) == Some(1)
    ensures StrToUsize((LongRecord(p) + tail)[..1]) == Some(|p| + 1)
  {
    var ds := Digits(|p| + 1, 16);
    var after := [LF] + p + CRLF + tail;
    var buf := LongRecord(p) + tail;
    OneDigit(|p| + 1, 16);
    assert buf == ds + [CR] + after;
    DigitsHaveNoCR(|p| + 1, 16);
    IndexOfAfterLine(ds, after);
    assert buf[..1] == ds;
    ParseDigits(|p| + 1, 16, USIZE_MAX);
    StrToUsizeIsHexParse(ds);
  }

  /** A line that starts with `\r` ends the chunk loop. */
  lemma BlankLineTerminates(tail: Text)
    ensures ChunksInBounds([CR] + tail)
    ensures ChunkScan([CR] + tail) == ChunkScanResult([], Terminated)
  {
    assert IndexOf([CR] + tail, CR) == Some(0);
  }

  /** Records of one-digit lengths, then such a record: the `pop` takes back the `\r`. */
  lemma NewLongLast(sl: Text, code: u16, hs: seq<HH.Header>, ps: seq<Text>, p: Text, tail: Text)
    requires P.StatusLineFor(sl, code) && AllSendable(hs)
    requires LastEncoding(hs) == H1.TrfrEncodingType.Chunked && SmallChunks(ps) && 0 < |p| < 15
    ensures NewDefined(Message(sl, hs, Records(ps) + (LongRecord(p) + (LAST_CHUNK + tail))))
    ensures NewSpec(Message(sl, hs, Records(ps) + (LongRecord(p) + (LAST_CHUNK + tail)))) ==
      Ok(Response(code, hs, Concat(ps) + p))
  {
    var body := Records(ps) + (LongRecord(p) + (LAST_CHUNK + tail));
    ChunkScanLongRecord(p, tail);
    ChunkScanRecords(ps, LongRecord(p) + (LAST_CHUNK + tail));
    AppendAssoc(Concat(ps), p, [CR]);
    assert DropLast(Concat(ps) + p + [CR]) == Concat(ps) + p;
    hide *;
    ChunkedDecodeTerminated(body, Concat(ps) + p + [CR]);
    NewChunkedBody(sl, code, hs, body);
  }

  // ---------------------------------------------------------------------
  // Malformed responses

  /** A response without `\r` is `Empty`. */
  lemma NewNoCR(data: Text)
    requires CR !in data
    ensures NewDefined(data) && NewSpec(data) == Err(Empty)
  {
    hide HeadersRead, ScanLines;
    assert IndexOf(data, CR).None?;
    ParseHeadersStatusFails(data);
  }

  /** A status code that is not three decimal digits is `InvalidFirstLine`. */
  lemma NewBadStatusCode(sl: Text, rest: Text)
    requires 12 <= |sl| && CR !in sl
    requires ParseUnsigned(sl[9..12], 10, U16_MAX).None?
    ensures NewDefined(sl + CRLF + rest) && NewSpec(sl + CRLF + rest) == Err(InvalidFirstLine)
  {
    hide HeadersRead, ScanLines;
    var data := sl + CRLF + rest;
    assert data == sl + [CR] + ([LF] + rest);
    IndexOfAfterLine(sl, [LF] + rest);
    assert data[9..12] == sl[9..12];
    ParseHeadersStatusFails(data);
  }

  /** A header line that is not UTF-8 is `InvalidHeader`, whatever follows it. */
  lemma NewBadHeaderLine(sl: Text, code: u16, hs: seq<HH.Header>, bad: Text, rest: Text)
    requires P.StatusLineFor(sl, code) && AllSendable(hs)
    requires CR !in bad && !ValidUtf8(bad)
    ensures NewDefined(sl + CRLF + (Lines(P.Renders(Http1Of(hs))) + (bad + [CR] + rest)))
    ensures NewSpec(sl + CRLF + (Lines(P.Renders(Http1Of(hs))) + (bad + [CR] + rest))) == Err(InvalidHeader)
  {
    hide ParseHeadersSpec, HeadersRead, StatusLine, ScanLines, Accepted, Lines, P.Renders, Http1Of;
    var ls := P.Renders(Http1Of(hs));
    var tail := Lines(ls) + (bad + [CR] + rest);
    var data := sl + CRLF + tail;
    P.StatusLineReads(sl, code, tail);
    RestAfter(sl + CRLF, tail);
    P.RendersAreHeaderLines(Http1Of(hs));
    ScanLinesBadLine(ls, bad, rest);
    ParseHeadersAfterStatus(data, code, |sl| + 2);
    HeadersReadBad(data, code, |sl| + 2, ls, |Lines(ls)|);
  }

  lemma HeadersReadBad(data: Text, code: u16, start: nat, ls: seq<Text>, consumed: nat)
    ensures HeadersRead(data, code, start, LineScan(ls, consumed, true)) == Err(InvalidHeader)
  {
    hide Accepted, LastEncoding;
  }

  /** A chunk length that is not hexadecimal is `InvalidBody`, after any records before it. */
  lemma NewBadChunkLength(sl: Text, code: u16, hs: seq<HH.Header>, ps: seq<Text>, field: Text, tail: Text)
    requires P.StatusLineFor(sl, code) && AllSendable(hs)
    requires LastEncoding(hs) == H1.TrfrEncodingType.Chunked && SmallChunks(ps)
    requires |field| > 0 && CR !in field && ParseUnsigned(field, 16, USIZE_MAX).None?
    ensures NewDefined(Message(sl, hs, Records(ps) + (field + [CR] + tail)))
    ensures NewSpec(Message(sl, hs, Records(ps) + (field + [CR] + tail))) == Err(InvalidBody)
  {
    var body := Records(ps) + (field + [CR] + tail);
    BadLengthRefused(field, tail);
    ChunkScanRecords(ps, field + [CR] + tail);
    assert ChunkedDecodable(body);
    hide *;
    ChunkedDecodeBadLength(body);
    NewChunkedBody(sl, code, hs, body);
  }

  // ---------------------------------------------------------------------
  // The two clients

  /**
   * On any buffer both clients' `parse_headers` fail alike or succeed
   * alike, and on success they read the same status code and leave the
   * cursor at the same place.
   */
  lemma ClientsAgree(v: N.DecoderValue, data: Text)
    requires StatusLineSliceable(data)
    ensures var older := ParseHeadersSpec(data);
      var (w, newer) := N.ParseHeadersSpec(v, data);
      && (older.Ok? <==> newer.Ok?)
      && (older.Err? ==> newer.Err? && older.error == newer.error)
      && (older.Ok? ==>
            newer.Ok? && older.value.2.pos == newer.value && w.resp.Some? && w.resp.value.code == older.value.0)
  {
    hide Accepted, LastEncoding, N.Accepted, N.AbsorbAll, ScanLines, HH.Header.Serialize, H1.Header.Serialize;
  }
}
