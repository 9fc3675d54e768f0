/**
 * What the HTTP/1.x decoder does to a response as a server writes it:
 * a status line, header lines, a blank line and a body that is either
 * plain bytes or a run of chunk records. These are the behaviours the
 * in-file tests of src/http1/response.rs exercise, stated for all inputs.
 */
module Http1ResponseProofs {
  import opened Bytes
  import opened Wire
  import H = Http1Headers
  import opened Http1Response

  // ---------------------------------------------------------------------
  // Responses as a server writes them

  /** A header a server can send: it reads back as itself, on one UTF-8 line without `\r`. */
  predicate Sendable(h: H.Header) {
    h.WellFormed() && CR !in h.Render() && ValidUtf8(h.Render())
  }

  predicate AllSendable(hs: seq<H.Header>) {
    forall i :: 0 <= i < |hs| ==> Sendable(hs[i])
  }

  /** The header lines of `hs`, in order. */
  function Renders(hs: seq<H.Header>): (ls: seq<Text>)
    ensures |ls| == |hs|
    ensures forall i :: 0 <= i < |hs| ==> ls[i] == hs[i].Render()
  {
    if |hs| == 0 then [] else Renders(hs[..|hs| - 1]) + [hs[|hs| - 1].Render()]
  }

  /**
   * A status line for `code`: at least twelve bytes, no `\r`, and the code
   * written in decimal at bytes 9..12, as in "HTTP/1.1 201 Created".
   */
  predicate StatusLineFor(sl: Text, code: u16) {
    12 <= |sl| && CR !in sl && sl[9..12] == Digits(code as nat, 10)
  }

  /** The whole response: status line, header lines, blank line, body. */
  function Message(sl: Text, hs: seq<H.Header>, body: Text): Text {
    sl + CRLF + (Lines(Renders(hs)) + CRLF + body)
  }

  /** The decoder once the headers of `hs` are read after a status line with `code`. */
  function Headed(v: DecoderValue, code: u16, hs: seq<H.Header>): DecoderValue {
    AbsorbAll(v.(state := Content), hs).(resp := Some(Response(code, hs, None)))
  }

  // ---------------------------------------------------------------------
  // Reading the headers

  /** Rendered well-formed headers are read back as the same headers, in order. */
  lemma {:induction false} AcceptedRenders(hs: seq<H.Header>)
    requires forall i :: 0 <= i < |hs| ==> hs[i].WellFormed()
    ensures Accepted(Renders(hs)) == hs
    decreases |hs|
  {
    hide H.Header.Serialize, H.Header.Render, H.Header.WellFormed;
    if |hs| > 0 {
      var n := |hs| - 1;
      var ls := Renders(hs);
      assert ls[..n] == Renders(hs[..n]);
      AcceptedRenders(hs[..n]);
      H.SerializeRender(hs[n]);
      assert hs[..n] + [hs[n]] == hs;
    }
  }

  lemma RendersAreHeaderLines(hs: seq<H.Header>)
    requires AllSendable(hs)
    ensures HeaderLines(Renders(hs))
  {
    forall i | 0 <= i < |hs| ensures |Renders(hs)[i]| > 0 {
      assert |hs[i].Render()| >= |SEP|;
    }
  }

  /** The status line is read as its code, and the cursor moves past its `\r\n`. */
  lemma StatusLineReads(sl: Text, code: u16, rest: Text)
    requires StatusLineFor(sl, code)
    ensures StatusLineSliceable(sl + CRLF + rest)
    ensures StatusLine(sl + CRLF + rest) == Ok((code, |sl| + 2))
  {
    var data := sl + CRLF + rest;
    assert data == sl + [CR] + ([LF] + rest);
    IndexOfAfterLine(sl, [LF] + rest);
    assert data[9..12] == sl[9..12];
    ParseDigits(code as nat, 10, U16_MAX);
  }

  /**
   * `parse_headers` on a whole response: the code of the status line, every
   * header in order, the encoding and length they declare, and the cursor
   * at the first body byte.
   */
  lemma ParseHeadersMessage(v: DecoderValue, sl: Text, code: u16, hs: seq<H.Header>, body: Text)
    requires StatusLineFor(sl, code) && AllSendable(hs)
    ensures StatusLineSliceable(Message(sl, hs, body))
    ensures ParseHeadersSpec(v, Message(sl, hs, body)) == (Headed(v, code, hs), Ok(|Message(sl, hs, body)| - |body|))
  {
    hide ParseHeadersSpec, HeadersRead, StatusLine, ScanLines, Accepted, AbsorbAll, Lines, Renders;
    var ls := Renders(hs);
    var rest := Lines(ls) + CRLF + body;
    var data := Message(sl, hs, body);
    StatusLineReads(sl, code, rest);
    assert data == sl + CRLF + rest;
    RestAfter(sl + CRLF, rest);
    RendersAreHeaderLines(hs);
    ScanLinesBlock(ls, body);
    ParseHeadersAfterStatus(v, data, code, |sl| + 2);
    AcceptedRenders(hs);
    HeadersReadAt(v.(state := Content), code, |sl| + 2, ls, |Lines(ls)| + 2);
  }

  lemma HeadersReadAt(v: DecoderValue, code: u16, start: nat, ls: seq<Text>, consumed: nat)
    ensures HeadersRead(v, code, start, LineScan(ls, consumed, false)) ==
      (AbsorbAll(v, Accepted(ls)).(resp := Some(Response(code, Accepted(ls), None))), Ok(start + consumed))
  {
    hide Accepted, AbsorbAll;
  }

  // ---------------------------------------------------------------------
  // What the headers do to the decoder

  /** `Transfer-Encoding` headers (when `te`) or `Content-Length` headers (otherwise). */
  predicate OfKind(h: H.Header, te: bool) {
    if te then h.TransferEncoding? else h.ContentLength?
  }

  /** `hs[i]` is the last header of its kind. */
  predicate LastOfKind(hs: seq<H.Header>, i: int, te: bool) {
    0 <= i < |hs| && OfKind(hs[i], te) && forall j :: i < j < |hs| ==> !OfKind(hs[j], te)
  }

  predicate NoneOfKind(hs: seq<H.Header>, te: bool) {
    forall j :: 0 <= j < |hs| ==> !OfKind(hs[j], te)
  }

  /**
   * Taking in headers: the last `Transfer-Encoding` sets the encoding and
   * the chunked state, the last `Content-Length` the declared length, and
   * without one the old value stays; nothing else changes, so in particular
   * a `Connection` header leaves the snapshot as it was.
   */
  lemma {:induction false} AbsorbAllEffect(v: DecoderValue, hs: seq<H.Header>)
    ensures var w := AbsorbAll(v, hs);
      && w.content == v.content && w.resp == v.resp && w.snap == v.snap
      && (NoneOfKind(hs, true) ==> w.encoding == v.encoding && w.state == v.state)
      && (forall i :: LastOfKind(hs, i, true) ==> w.encoding == hs[i].tr && w.state == ChunkedContent)
      && (NoneOfKind(hs, false) ==> w.contentLen == v.contentLen)
      && (forall i :: LastOfKind(hs, i, false) ==> w.contentLen == Some(hs[i].len))
    decreases |hs|
  {
    if |hs| > 0 {
      var n := |hs| - 1;
      var w0 := AbsorbAll(v, hs[..n]);
      assert AbsorbAll(v, hs) == Absorb(w0, hs[n]);
      hide AbsorbAll;
      AbsorbAllEffect(v, hs[..n]);
      KindOfInit(hs, true);
      KindOfInit(hs, false);
    }
  }

  /** How the last header of a kind in `hs` relates to the one in all but its last header. */
  lemma KindOfInit(hs: seq<H.Header>, te: bool)
    requires |hs| > 0
    ensures var n := |hs| - 1;
      && (OfKind(hs[n], te) ==> LastOfKind(hs, n, te) && forall i :: LastOfKind(hs, i, te) ==> i == n)
      && (!OfKind(hs[n], te) ==> forall i :: LastOfKind(hs, i, te) ==> LastOfKind(hs[..n], i, te))
      && (!OfKind(hs[n], te) && NoneOfKind(hs, te) ==> NoneOfKind(hs[..n], te))
      && (!OfKind(hs[n], te) && !NoneOfKind(hs, te) ==> !NoneOfKind(hs[..n], te))
  {
    var n := |hs| - 1;
    if !OfKind(hs[n], te) {
      forall i | LastOfKind(hs, i, te) ensures LastOfKind(hs[..n], i, te) {
        assert forall j :: i < j < n ==> hs[..n][j] == hs[j];
      }
      if !NoneOfKind(hs, te) {
        var j :| 0 <= j < |hs| && OfKind(hs[j], te);
        assert hs[..n][j] == hs[j];
      }
    }
  }

  // ---------------------------------------------------------------------
  // Decoding a whole response

  /** In `Headers`, `decode` reads the headers and then the rest of the same bytes as body. */
  lemma DecodeMessage(v: DecoderValue, sl: Text, code: u16, hs: seq<H.Header>, body: Text)
    requires v.state == Headers && StatusLineFor(sl, code) && AllSendable(hs)
    requires BodyDecodable(Headed(v, code, hs), body)
    ensures Decodable(v, Message(sl, hs, body))
    ensures DecodeSpec(v, Message(sl, hs, body)) == BodySpec(Headed(v, code, hs), body)
  {
    hide ParseHeadersSpec, BodySpec, BodyDecodable, Headed, Lines, Renders, AbsorbAll;
    var data := Message(sl, hs, body);
    ParseHeadersMessage(v, sl, code, hs, body);
    var head := sl + CRLF + (Lines(Renders(hs)) + CRLF);
    assert data == head + body;
    RestAfter(head, body);
    assert data[|data| - |body|..] == body;
  }

  /** After headers whose last `Transfer-Encoding` is `hs[i]`, the decoder is in the chunked body. */
  lemma HeadedChunked(v: DecoderValue, code: u16, hs: seq<H.Header>, i: nat)
    requires LastOfKind(hs, i, true)
    ensures var w := Headed(v, code, hs);
      && w.content == v.content && w.resp == Some(Response(code, hs, None))
      && w.encoding == hs[i].tr && w.state == ChunkedContent
  {
    AbsorbAllEffect(v.(state := Content), hs);
  }

  /**
   * After headers without `Transfer-Encoding` whose last `Content-Length`
   * is `hs[i]`, the decoder is in the body with that length declared.
   */
  lemma HeadedLength(v: DecoderValue, code: u16, hs: seq<H.Header>, i: nat)
    requires NoneOfKind(hs, true) && LastOfKind(hs, i, false)
    ensures var w := Headed(v, code, hs);
      && w.content == v.content && w.resp == Some(Response(code, hs, None))
      && w.encoding == v.encoding && w.state == Content && w.contentLen == Some(hs[i].len)
  {
    AbsorbAllEffect(v.(state := Content), hs);
  }

  /**
   * A body framed by `Content-Length` may come in two calls: the first
   * keeps the decoder in `Content` with the bytes so far, the second
   * completes the declared length, finishes, and `get_resp` hands out both
   * parts as the content.
   */
  lemma FragmentedContent(sl: Text, code: u16, hs: seq<H.Header>, i: nat, a: Text, b: Text)
    requires StatusLineFor(sl, code) && AllSendable(hs) && NoneOfKind(hs, true)
    requires LastOfKind(hs, i, false) && hs[i].len == |a| + |b| && |b| > 0
    ensures Decodable(INITIAL, Message(sl, hs, a))
    ensures var (v1, r1) := DecodeSpec(INITIAL, Message(sl, hs, a));
      && r1 == Ok(()) && v1.state == Content && v1.content == a
      && Decodable(v1, b)
      && var (v2, r2) := DecodeSpec(v1, b);
         && r2 == Ok(()) && v2.state == Finished
         && CanGetResp(v2) && GetRespSpec(v2).1 == Some(Response(code, hs, Some(a + b)))
  {
    hide Sendable, AllSendable, StatusLineFor, Renders, Lines, ParseHeadersSpec, AbsorbAll, LastOfKind, NoneOfKind;
    HeadedLength(INITIAL, code, hs, i);
    DecodeMessage(INITIAL, sl, code, hs, a);
  }

  /** A response whose body has exactly the declared length finishes in one call. */
  lemma WholeContent(sl: Text, code: u16, hs: seq<H.Header>, i: nat, body: Text)
    requires StatusLineFor(sl, code) && AllSendable(hs) && NoneOfKind(hs, true)
    requires LastOfKind(hs, i, false) && hs[i].len == |body| && |body| > 0
    ensures Decodable(INITIAL, Message(sl, hs, body))
    ensures var (v1, r1) := DecodeSpec(INITIAL, Message(sl, hs, body));
      && r1 == Ok(()) && v1.state == Finished && v1.content == body
      && CanGetResp(v1) && GetRespSpec(v1).1 == Some(Response(code, hs, Some(body)))
  {
    hide Sendable, AllSendable, StatusLineFor, Renders, Lines, ParseHeadersSpec, AbsorbAll, LastOfKind, NoneOfKind;
    HeadedLength(INITIAL, code, hs, i);
    DecodeMessage(INITIAL, sl, code, hs, body);
  }

  /**
   * Fewer bytes than `Content-Length` declares leave the decoder in
   * `Content`, so `get_resp` answers `None`.
   */
  lemma ShortContentWaits(sl: Text, code: u16, hs: seq<H.Header>, i: nat, body: Text)
    requires StatusLineFor(sl, code) && AllSendable(hs) && NoneOfKind(hs, true)
    requires LastOfKind(hs, i, false) && |body| < hs[i].len
    ensures Decodable(INITIAL, Message(sl, hs, body))
    ensures var (v1, r1) := DecodeSpec(INITIAL, Message(sl, hs, body));
      && r1 == Ok(()) && v1.state == Content && v1.content == body
      && CanGetResp(v1) && GetRespSpec(v1) == (v1, None)
  {
    hide Sendable, AllSendable, StatusLineFor, Renders, Lines, ParseHeadersSpec, AbsorbAll, LastOfKind, NoneOfKind;
    HeadedLength(INITIAL, code, hs, i);
    DecodeMessage(INITIAL, sl, code, hs, body);
  }

  /**
   * More bytes than `Content-Length` declares never finish the body: the
   * decoder stays where it is, so `get_resp` keeps answering `None`.
   */
  lemma OvershootNeverFinishes(v: DecoderValue, b: Text)
    requires v.state == Content || v.state == ChunkedContent || v.state == Error
    requires v.encoding != H.TrfrEncodingType.Chunked
    requires v.encoding != H.TrfrEncodingType.Gzip && v.encoding != H.TrfrEncodingType.GzipChunked
    requires v.contentLen.Some? && |v.content| > v.contentLen.value
    ensures Decodable(v, b)
    ensures var (w, r) := DecodeSpec(v, b);
      && r == Ok(()) && w.state == v.state && w.content == v.content + b && w.contentLen == v.contentLen
      && |w.content| > w.contentLen.value && GetRespSpec(w) == (w, None)
  {
  }

  /** The concatenation of two runs of payloads. */
  lemma {:induction false} ConcatAppend(ps: seq<Text>, qs: seq<Text>)
    ensures Concat(ps + qs) == Concat(ps) + Concat(qs)
    decreases |ps|
  {
    if |ps| == 0 {
      assert ps + qs == qs;
    } else {
      assert (ps + qs)[0] == ps[0];
      assert (ps + qs)[1..] == ps[1..] + qs;
      ConcatAppend(ps[1..], qs);
      AppendAssoc(ps[0], Concat(ps[1..]), Concat(qs));
    }
  }

  /** The records of two runs of payloads, one after the other. */
  lemma {:induction false} RecordsAppend(ps: seq<Text>, qs: seq<Text>)
    requires SmallChunks(ps) && SmallChunks(qs)
    ensures SmallChunks(ps + qs) && Records(ps + qs) == Records(ps) + Records(qs)
    decreases |ps|
  {
    if |ps| == 0 {
      assert ps + qs == qs;
    } else {
      assert (ps + qs)[0] == ps[0];
      assert (ps + qs)[1..] == ps[1..] + qs;
      RecordsAppend(ps[1..], qs);
      AppendAssoc(Record(ps[0]), Records(ps[1..]), Records(qs));
    }
  }

  /** The records of `ps` followed by the last chunk end the chunk loop with their payloads. */
  lemma ChunkedBodyEnds(v: DecoderValue, ps: seq<Text>, tail: Text)
    requires SmallChunks(ps)
    ensures ChunksInBounds(Records(ps) + (LAST_CHUNK + tail))
    ensures ChunkedSpec(v, Records(ps) + (LAST_CHUNK + tail)) ==
      (v.(content := v.content + Concat(ps), state := Finished), Ok(()))
  {
    LastChunkTerminates(tail);
    ChunkScanRecords(ps, LAST_CHUNK + tail);
    assert Concat(ps) + [] == Concat(ps);
  }

  /** Records without the last chunk leave the chunk loop waiting for more. */
  lemma ChunkedBodyPending(v: DecoderValue, ps: seq<Text>)
    requires SmallChunks(ps)
    ensures ChunksInBounds(Records(ps))
    ensures ChunkedSpec(v, Records(ps)) == (v.(content := v.content + Concat(ps)), Ok(()))
  {
    assert ChunkScan([]) == ChunkScanResult([], Exhausted);
    ChunkScanRecords(ps, []);
    assert Records(ps) + [] == Records(ps);
    assert Concat(ps) + [] == Concat(ps);
  }

  /** Past the headers, `decode` reads the bytes as body. */
  lemma DecodeInBody(v: DecoderValue, data: Text)
    requires v.state != Finished && v.state != Headers && BodyDecodable(v, data)
    ensures Decodable(v, data) && DecodeSpec(v, data) == BodySpec(v, data)
  {
    hide ParseHeadersSpec, BodySpec, BodyDecodable;
  }

  /** A chunked response read at once from `Headers` ends with the payloads as content. */
  lemma DecodeChunkedEnds(v: DecoderValue, sl: Text, code: u16, hs: seq<H.Header>, ps: seq<Text>, tail: Text)
    requires v.state == Headers && StatusLineFor(sl, code) && AllSendable(hs)
    requires Headed(v, code, hs).encoding == H.TrfrEncodingType.Chunked && SmallChunks(ps)
    ensures Decodable(v, Message(sl, hs, Records(ps) + (LAST_CHUNK + tail)))
    ensures DecodeSpec(v, Message(sl, hs, Records(ps) + (LAST_CHUNK + tail))) ==
      (Headed(v, code, hs).(content := Headed(v, code, hs).content + Concat(ps), state := Finished), Ok(()))
  {
    hide DecodeSpec, Decodable, Message, ChunkedSpec, ParseHeadersSpec, Records, Concat, ChunkScan, Headed, ChunksInBounds;
    ChunkedBodyEnds(Headed(v, code, hs), ps, tail);
    DecodeMessage(v, sl, code, hs, Records(ps) + (LAST_CHUNK + tail));
  }

  /** The headers and whole records without the last chunk leave the decoder in the body. */
  lemma DecodeChunkedPending(v: DecoderValue, sl: Text, code: u16, hs: seq<H.Header>, ps: seq<Text>)
    requires v.state == Headers && StatusLineFor(sl, code) && AllSendable(hs)
    requires Headed(v, code, hs).encoding == H.TrfrEncodingType.Chunked && SmallChunks(ps)
    ensures Decodable(v, Message(sl, hs, Records(ps)))
    ensures DecodeSpec(v, Message(sl, hs, Records(ps))) ==
      (Headed(v, code, hs).(content := Headed(v, code, hs).content + Concat(ps)), Ok(()))
  {
    hide DecodeSpec, Decodable, Message, ChunkedSpec, ParseHeadersSpec, Records, Concat, ChunkScan, Headed, ChunksInBounds;
    ChunkedBodyPending(Headed(v, code, hs), ps);
    DecodeMessage(v, sl, code, hs, Records(ps));
  }

  /**
   * A whole chunked response, from `new()`: the payloads of its records in
   * order are the content, the last chunk finishes, and `get_resp` hands
   * the response out.
   */
  lemma ChunkedFull(sl: Text, code: u16, hs: seq<H.Header>, i: nat, ps: seq<Text>, tail: Text)
    requires StatusLineFor(sl, code) && AllSendable(hs)
    requires LastOfKind(hs, i, true) && hs[i].tr == H.TrfrEncodingType.Chunked
    requires SmallChunks(ps) && |ps| > 0
    ensures Decodable(INITIAL, Message(sl, hs, Records(ps) + (LAST_CHUNK + tail)))
    ensures var (v1, r) := DecodeSpec(INITIAL, Message(sl, hs, Records(ps) + (LAST_CHUNK + tail)));
      && r == Ok(()) && v1.state == Finished && v1.content == Concat(ps)
      && CanGetResp(v1) && GetRespSpec(v1).1 == Some(Response(code, hs, Some(Concat(ps))))
  {
    hide DecodeSpec, Decodable, Message, ChunkedSpec, ParseHeadersSpec, AbsorbAll, Records, Concat, ChunkScan, Headed,
      Sendable, AllSendable, StatusLineFor, Renders, Lines, LastOfKind;
    HeadedChunked(INITIAL, code, hs, i);
    DecodeChunkedEnds(INITIAL, sl, code, hs, ps, tail);
    ConcatNonEmpty(ps);
    assert [] + Concat(ps) == Concat(ps);
  }

  lemma ConcatNonEmpty(ps: seq<Text>)
    requires SmallChunks(ps) && |ps| > 0
    ensures |Concat(ps)| > 0
  {
    assert Concat(ps) == ps[0] + Concat(ps[1..]);
  }

  /**
   * The same response split at a record boundary over two `decode` calls:
   * the first call waits in `ChunkedContent`, the second finishes, and the
   * content is that of the whole response read at once.
   */
  lemma ChunkedTwoParts(sl: Text, code: u16, hs: seq<H.Header>, i: nat, ps: seq<Text>, qs: seq<Text>, tail: Text)
    requires StatusLineFor(sl, code) && AllSendable(hs)
    requires LastOfKind(hs, i, true) && hs[i].tr == H.TrfrEncodingType.Chunked
    requires SmallChunks(ps) && SmallChunks(qs) && |ps| > 0
    ensures Decodable(INITIAL, Message(sl, hs, Records(ps)))
    ensures var (v1, r1) := DecodeSpec(INITIAL, Message(sl, hs, Records(ps)));
      && r1 == Ok(()) && v1.state == ChunkedContent && v1.content == Concat(ps)
      && Decodable(v1, Records(qs) + (LAST_CHUNK + tail))
      && var (v2, r2) := DecodeSpec(v1, Records(qs) + (LAST_CHUNK + tail));
         && r2 == Ok(()) && v2.state == Finished && v2.content == Concat(ps + qs)
         && CanGetResp(v2) && GetRespSpec(v2).1 == Some(Response(code, hs, Some(Concat(ps + qs))))
  {
    hide DecodeSpec, Decodable, Message, ChunkedSpec, ParseHeadersSpec, AbsorbAll, Records, Concat, ChunkScan, Headed,
      Sendable, AllSendable, StatusLineFor, Renders, Lines, LastOfKind;
    HeadedChunked(INITIAL, code, hs, i);
    DecodeChunkedPending(INITIAL, sl, code, hs, ps);
    var w := Headed(INITIAL, code, hs);
    var v1 := w.(content := w.content + Concat(ps));
    assert [] + Concat(ps) == Concat(ps);
    ChunkedBodyEnds(v1, qs, tail);
    DecodeInBody(v1, Records(qs) + (LAST_CHUNK + tail));
    ConcatAppend(ps, qs);
    ConcatNonEmpty(ps);
  }

  // ---------------------------------------------------------------------
  // Which header lines are kept

  /** Header lines are kept in the order they appear: reading two runs of lines keeps both runs' headers. */
  lemma {:induction false} AcceptedAppend(a: seq<Text>, b: seq<Text>)
    ensures Accepted(a + b) == Accepted(a) + Accepted(b)
    decreases |b|
  {
    if |b| == 0 {
      assert a + b == a;
    } else {
      hide Accepted, H.Header.Serialize;
      var n := |b| - 1;
      assert a + b == (a + b[..n]) + [b[n]];
      assert b == b[..n] + [b[n]];
      AcceptedSnoc(a + b[..n], b[n]);
      AcceptedSnoc(b[..n], b[n]);
      AcceptedAppend(a, b[..n]);
    }
  }

  /** A line that `Header::serialize` refuses is skipped, wherever it stands. */
  lemma AcceptedSkipsRejected(a: seq<Text>, line: Text, b: seq<Text>)
    requires H.Header.Serialize(line).Err?
    ensures Accepted(a + [line] + b) == Accepted(a + b)
  {
    assert Accepted([]) == [];
    hide Accepted, H.Header.Serialize;
    AcceptedSnoc([], line);
    assert [] + [line] == [line];
    AcceptedAppend(a, [line]);
    AcceptedAppend(a + [line], b);
    AcceptedAppend(a, b);
  }

  /** The name and separator of a `Content-Length` line are ASCII without `\r`. */
  lemma LengthNamePlain()
    ensures IsAscii(H.CONTENT_LENGTH + SEP) && CR !in H.CONTENT_LENGTH + SEP
  {
  }

  /** A `Content-Length` line whose value is not a decimal `usize` is a header line that none of the headers comes from. */
  lemma BadLengthLine(value: Text)
    requires NoSep(value) && CR !in value && ValidUtf8(value) && ParseUsize(value).None?
    ensures HeaderLines([H.CONTENT_LENGTH + SEP + value])
    ensures H.Header.Serialize(H.CONTENT_LENGTH + SEP + value) == Err(H.INVALID_LENGTH)
    ensures Accepted([H.CONTENT_LENGTH + SEP + value]) == []
  {
    var line := H.CONTENT_LENGTH + SEP + value;
    H.SerializeContentLength(value);
    var ls: seq<Text> := [line];
    assert ls[..0] == [];
    LengthNamePlain();
    AsciiIsValidUtf8(H.CONTENT_LENGTH + SEP);
    Utf8Concat(H.CONTENT_LENGTH + SEP, value);
  }

  /** `parse_headers` on header lines of any kind: the header loop reads exactly those lines. */
  lemma ParseHeadersLines(v: DecoderValue, sl: Text, code: u16, ls: seq<Text>, body: Text)
    requires StatusLineFor(sl, code) && HeaderLines(ls)
    ensures var m := sl + CRLF + (Lines(ls) + CRLF + body);
      && StatusLineSliceable(m)
      && ParseHeadersSpec(v, m) == HeadersRead(v.(state := Content), code, |sl| + 2, LineScan(ls, |Lines(ls)| + 2, false))
  {
    var rest := Lines(ls) + CRLF + body;
    var data := sl + CRLF + rest;
    hide ParseHeadersSpec, HeadersRead, StatusLine, ScanLines, HeaderLines, Lines;
    StatusLineReads(sl, code, rest);
    RestAfter(sl + CRLF, rest);
    ScanLinesBlock(ls, body);
    ParseHeadersAfterStatus(v, data, code, |sl| + 2);
  }

  /**
   * `parse_headers` on a message whose one header line is refused by
   * `serialize`: the response is recorded with no headers, nothing is
   * declared, and the cursor stands at the body.
   */
  lemma ParseHeadersRefusedLine(sl: Text, code: u16, line: Text, body: Text)
    requires StatusLineFor(sl, code)
    requires HeaderLines([line]) && H.Header.Serialize(line).Err?
    ensures var m := sl + CRLF + (Lines([line]) + CRLF + body);
      && StatusLineSliceable(m)
      && ParseHeadersSpec(INITIAL, m) == (INITIAL.(state := Content, resp := Some(Response(code, [], None))), Ok(|m| - |body|))
  {
    hide H.Header.Serialize, HeaderLines, Lines, ParseHeadersSpec, StatusLineSliceable, StatusLine, ScanLines;
    var ls := [line];
    assert ls[..0] == [];
    assert Accepted(ls) == [];
    var v0 := INITIAL.(state := Content);
    assert AbsorbAll(v0, []) == v0;
    var r := v0.(resp := Some(Response(code, [], None)));
    var data := sl + CRLF + (Lines(ls) + CRLF + body);
    HeadersReadAt(v0, code, |sl| + 2, ls, |Lines(ls)| + 2);
    assert HeadersRead(v0, code, |sl| + 2, LineScan(ls, |Lines(ls)| + 2, false)) == (r, Ok(|data| - |body|));
    hide *;
    ParseHeadersLines(INITIAL, sl, code, ls, body);
  }

  /**
   * `decode` on a message whose one header line is refused by `serialize`:
   * the rest of the bytes is decoded as body, with nothing declared.
   */
  lemma DecodeRefusedLine(sl: Text, code: u16, line: Text, body: Text)
    requires StatusLineFor(sl, code)
    requires HeaderLines([line]) && H.Header.Serialize(line).Err?
    ensures var m := sl + CRLF + (Lines([line]) + CRLF + body);
      var v1 := INITIAL.(state := Content, resp := Some(Response(code, [], None)));
      && BodyDecodable(v1, body)
      && Decodable(INITIAL, m) && DecodeSpec(INITIAL, m) == BodySpec(v1, body)
  {
    var head := sl + CRLF + (Lines([line]) + CRLF);
    var data := sl + CRLF + (Lines([line]) + CRLF + body);
    assert data == head + body;
    var v1 := INITIAL.(state := Content, resp := Some(Response(code, [], None)));
    ParseHeadersRefusedLine(sl, code, line, body);
    UndeclaredBody(v1, body);
    hide ParseHeadersSpec, Lines, StatusLineSliceable, H.Header.Serialize, HeaderLines, BodySpec, BodyDecodable;
    RestAfter(head, body);
    assert data[|data| - |body|..] == body;
  }

  /** With no coding and no declared length, a body is appended and finishes the decoder. */
  lemma UndeclaredBody(v: DecoderValue, body: Text)
    requires v.encoding == H.TrfrEncodingType.None && v.contentLen.None?
    ensures BodyDecodable(v, body)
    ensures BodySpec(v, body) == (v.(state := Finished, content := v.content + body), Ok(()))
  {
  }

  /**
   * A `Content-Length` line whose value is not a decimal `usize` is no
   * error: `serialize` refuses it, the header loop skips it, and with no
   * length declared the decoder finishes on the body bytes it has.
   */
  lemma BadLengthIgnored(sl: Text, code: u16, value: Text, body: Text)
    requires StatusLineFor(sl, code)
    requires NoSep(value) && CR !in value && ValidUtf8(value) && ParseUsize(value).None?
    ensures var m := sl + CRLF + (Lines([H.CONTENT_LENGTH + SEP + value]) + CRLF + body);
      && Decodable(INITIAL, m)
      && DecodeSpec(INITIAL, m) == (INITIAL.(state := Finished, content := body, resp := Some(Response(code, [], None))), Ok(()))
    ensures var m := sl + CRLF + (Lines([H.CONTENT_LENGTH + SEP + value]) + CRLF + body);
      var v1 := DecodeSpec(INITIAL, m).0;
      v1.contentLen.None? && CanGetResp(v1) && GetRespSpec(v1).1 == Some(Response(code, [], if |body| == 0 then None else Some(body)))
  {
    var v1 := INITIAL.(state := Content, resp := Some(Response(code, [], None)));
    var w := INITIAL.(state := Finished, content := body, resp := Some(Response(code, [], None)));
    assert v1.(state := Finished, content := v1.content + body) == w by {
      assert [] + body == body;
    }
    assert GetRespSpec(w).1 == Some(Response(code, [], if |body| == 0 then None else Some(body)));
    BadLengthLine(value);
    UndeclaredBody(v1, body);
    hide H.Header.Serialize, HeaderLines, Accepted, Decodable, DecodeSpec, BodySpec, BodyDecodable, GetRespSpec;
    DecodeRefusedLine(sl, code, H.CONTENT_LENGTH + SEP + value, body);
  }

  // ---------------------------------------------------------------------
  // Errors and the states they leave

  /** Bytes without any `\r` are refused as `Empty`, and the decoder moves to `Error`. */
  lemma NoStatusLine(v: DecoderValue, data: Text)
    requires v.state == Headers && CR !in data
    ensures Decodable(v, data) && DecodeSpec(v, data) == (v.(state := Error), Err(Empty))
  {
    hide HeadersRead, ScanLines;
    assert IndexOf(data, CR).None?;
    ParseHeadersStatusFails(v, data);
  }

  /** A status code that is not three decimal digits is `InvalidFirstLine`, in state `Content`. */
  lemma BadStatusCode(v: DecoderValue, sl: Text, rest: Text)
    requires v.state == Headers && 12 <= |sl| && CR !in sl
    requires ParseUnsigned(sl[9..12], 10, U16_MAX).None?
    ensures Decodable(v, sl + CRLF + rest)
    ensures DecodeSpec(v, sl + CRLF + rest) == (v.(state := Content), Err(InvalidFirstLine))
  {
    hide HeadersRead, ScanLines;
    var data := sl + CRLF + rest;
    assert data == sl + [CR] + ([LF] + rest);
    IndexOfAfterLine(sl, [LF] + rest);
    assert data[9..12] == sl[9..12];
    ParseHeadersStatusFails(v, data);
  }

  /**
   * A header line that is not UTF-8 is `InvalidHeader`: the headers before
   * it have been taken in, but no response is recorded.
   */
  lemma BadHeaderLine(v: DecoderValue, sl: Text, code: u16, hs: seq<H.Header>, bad: Text, rest: Text)
    requires v.state == Headers && StatusLineFor(sl, code) && AllSendable(hs)
    requires CR !in bad && !ValidUtf8(bad)
    ensures Decodable(v, sl + CRLF + (Lines(Renders(hs)) + (bad + [CR] + rest)))
    ensures DecodeSpec(v, sl + CRLF + (Lines(Renders(hs)) + (bad + [CR] + rest))) ==
      (AbsorbAll(v.(state := Content), hs), Err(InvalidHeader))
  {
    hide ParseHeadersSpec, HeadersRead, StatusLine, ScanLines, Accepted, AbsorbAll, Lines, Renders;
    var ls := Renders(hs);
    var tail := Lines(ls) + (bad + [CR] + rest);
    var data := sl + CRLF + tail;
    StatusLineReads(sl, code, tail);
    RestAfter(sl + CRLF, tail);
    RendersAreHeaderLines(hs);
    ScanLinesBadLine(ls, bad, rest);
    ParseHeadersAfterStatus(v, data, code, |sl| + 2);
    AcceptedRenders(hs);
    HeadersReadBad(v.(state := Content), code, |sl| + 2, ls, |Lines(ls)|);
  }

  lemma HeadersReadBad(v: DecoderValue, code: u16, start: nat, ls: seq<Text>, consumed: nat)
    ensures HeadersRead(v, code, start, LineScan(ls, consumed, true)) == (AbsorbAll(v, Accepted(ls)), Err(InvalidHeader))
  {
    hide Accepted, AbsorbAll;
  }

  /** A chunk length that is not hexadecimal sets `Error` and fails with `InvalidBody`, after the records before it. */
  lemma BadChunkLength(v: DecoderValue, ps: seq<Text>, field: Text, tail: Text)
    requires v.state != Finished && v.state != Headers && v.encoding == H.TrfrEncodingType.Chunked
    requires SmallChunks(ps) && |field| > 0 && CR !in field && ParseUnsigned(field, 16, USIZE_MAX).None?
    ensures Decodable(v, Records(ps) + (field + [CR] + tail))
    ensures DecodeSpec(v, Records(ps) + (field + [CR] + tail)) ==
      (v.(content := v.content + Concat(ps), state := Error), Err(InvalidBody))
  {
    hide DecodeSpec, Decodable, Records, Concat, ChunkScan, ChunksInBounds;
    var body := Records(ps) + (field + [CR] + tail);
    BadLengthRefused(field, tail);
    ChunkScanRecords(ps, field + [CR] + tail);
    assert Concat(ps) + [] == Concat(ps);
    DecodeInBody(v, body);
  }

  /** A record line starting with `\r` ends the chunked body; so does a line without `\r`. */
  lemma ChunkedStopsEarly(v: DecoderValue, ps: seq<Text>, tail: Text)
    requires SmallChunks(ps) && 0 < |tail| && (tail[0] == CR || CR !in tail)
    ensures ChunksInBounds(Records(ps) + tail)
    ensures ChunkedSpec(v, Records(ps) + tail) == (v.(content := v.content + Concat(ps), state := Finished), Ok(()))
  {
    if tail[0] == CR {
      IndexOfAfterLine([], tail[1..]);
      assert [] + [CR] + tail[1..] == tail;
    } else {
      assert IndexOf(tail, CR).None?;
    }
    assert ChunkStepOf(tail).Stop? && ChunkStepOf(tail).end != Exhausted && ChunkStepOf(tail).end != BadLength;
    ChunkScanRecords(ps, tail);
    assert Concat(ps) + [] == Concat(ps);
  }

  // ---------------------------------------------------------------------
  // The decoder between calls

  /** Once finished, `decode` accepts any bytes and changes nothing. */
  lemma FinishedIgnoresData(v: DecoderValue, data: Text)
    requires v.state == Finished
    ensures Decodable(v, data) && DecodeSpec(v, data) == (v, Ok(()))
  {
  }

  /**
   * `Error` is not a final state: a later `decode` reads the bytes as body,
   * and without a declared length or chunked coding that finishes.
   */
  lemma ErrorIsNotTerminal(v: DecoderValue, data: Text)
    requires v.state == Error && v.contentLen.None?
    requires v.encoding != H.TrfrEncodingType.Chunked
    requires v.encoding != H.TrfrEncodingType.Gzip && v.encoding != H.TrfrEncodingType.GzipChunked
    ensures Decodable(v, data) && DecodeSpec(v, data) == (v.(content := v.content + data, state := Finished), Ok(()))
  {
  }

  /**
   * `get_resp` hands the response out once: the decoder stays `Finished`
   * with no response and an empty buffer, so a second call panics on the
   * taken response.
   */
  lemma GetRespOnce(v: DecoderValue)
    requires v.state == Finished && v.resp.Some?
    ensures var (w, r) := GetRespSpec(v);
      && r == Some(v.resp.value.(content := if |v.content| == 0 then None else Some(v.content)))
      && w.state == Finished && w.content == [] && !CanGetResp(w)
  {
  }

  /** Before the decoder finishes, `get_resp` answers `None` and changes nothing. */
  lemma GetRespNotFinished(v: DecoderValue)
    requires v.state != Finished
    ensures CanGetResp(v) && GetRespSpec(v) == (v, None)
  {
  }
}
