/**
 * The unit tests of the older client's parser (src/http/response.rs),
 * stated on the model. As for the HTTP/1.x tests, each is stated first for
 * any status line and header lines, then for the test's own.
 */
module HttpResponseExamples {
  import opened Bytes
  import opened Wire
  import HH = HttpHeaders
  import H1 = Http1Headers
  import opened HttpResponse
  import opened HttpResponseProofs
  import P = Http1ResponseProofs
  import E = Http1ResponseExamples

  /** The body of the plain test, after its blank line. */
  const SIMPLE_BODY: Text := "ASDASDA\r\nDADSADADAS"

  /** The chunked test's body: its last length field says 6 for the five bytes of "test2". */
  const CHUNKED_BODY: Text := "4\r\ntest\r\n5\r\ntest1\r\n6\r\ntest2\r\n0\r\n\r\n"
  const LAST_PAYLOAD: Text := "test2"
  const LONG_RECORD: Text := "6\r\ntest2\r\n"
  const FIRST_RECORDS: Text := "4\r\ntest\r\n5\r\ntest1\r\n"

  /**
   * The plain test: without a `Transfer-Encoding` header `decode` hands
   * back every byte of the response.
   */
  lemma ParseHeadersSimple(sl: Text, code: u16, hs: seq<HH.Header>)
    requires P.StatusLineFor(sl, code) && AllSendable(hs)
    requires forall j :: 0 <= j < |hs| ==> !hs[j].TransferEncoding?
    ensures NewDefined(Message(sl, hs, SIMPLE_BODY))
    ensures NewSpec(Message(sl, hs, SIMPLE_BODY)) == Ok(Response(code, hs, Message(sl, hs, SIMPLE_BODY)))
  {
    LastEncodingNone(hs);
    NewPlain(sl, code, hs, SIMPLE_BODY);
  }

  lemma LongRecordTest2()
    ensures LongRecord(LAST_PAYLOAD) == LONG_RECORD
  {
    assert Digits(6, 16) == "6";
  }

  /** The test's body is two one-digit records, the over-long one, and the last chunk. */
  lemma ChunkedBodyParts()
    ensures SmallChunks(E.FIRST_PAYLOADS) && |LAST_PAYLOAD| == 5
    ensures CHUNKED_BODY == Records(E.FIRST_PAYLOADS) + (LongRecord(LAST_PAYLOAD) + (LAST_CHUNK + []))
    ensures Concat(E.FIRST_PAYLOADS) + LAST_PAYLOAD == E.CHUNKED_CONTENT
  {
    E.TestRecords();
    assert Records(E.FIRST_PAYLOADS) == FIRST_RECORDS;
    LongRecordTest2();
    FirstConcat();
    hide *;
    BodyLiteral();
  }

  lemma BodyLiteral()
    ensures CHUNKED_BODY == FIRST_RECORDS + (LONG_RECORD + (LAST_CHUNK + []))
  {
  }

  lemma FirstConcat()
    ensures Concat(E.FIRST_PAYLOADS) + LAST_PAYLOAD == E.CHUNKED_CONTENT
  {
    var q0: seq<Text> := E.FIRST_PAYLOADS;
    var q1: seq<Text> := q0[1..];
    assert Concat(q0) == q0[0] + (q1[0] + []);
  }

  /**
   * The chunked test: the `\r` read with the over-long record is what the
   * `pop` takes back, so the content is exactly the three payloads.
   */
  lemma ParseHeadersTransferEncChunked(sl: Text, code: u16, hs: seq<HH.Header>)
    requires P.StatusLineFor(sl, code) && AllSendable(hs)
    requires LastEncoding(hs) == H1.TrfrEncodingType.Chunked
    ensures NewDefined(Message(sl, hs, CHUNKED_BODY))
    ensures NewSpec(Message(sl, hs, CHUNKED_BODY)) == Ok(Response(code, hs, E.CHUNKED_CONTENT))
  {
    ChunkedBodyParts();
    hide *;
    NewLongLast(sl, code, hs, E.FIRST_PAYLOADS, LAST_PAYLOAD, []);
  }

  /** The header lines of the plain test, as the older client reads them. */
  const SIMPLE_HEADERS: seq<HH.Header> :=
    [HH.ContentLength(200), HH.ContentLanguage(E.EN), HH.ContentEncoding(E.NONE),
     HH.Header.Unimplemented(E.TEST_NAME, E.TEST_VALUE)]

  /** The header lines of the chunked test, as the older client reads them. */
  const CHUNKED_HEADERS: seq<HH.Header> :=
    [HH.ContentLanguage(E.EN), HH.ContentEncoding(E.NONE), HH.TransferEncoding(H1.TrfrEncodingType.Chunked),
     HH.Header.Unimplemented(E.TEST_NAME, E.TEST_VALUE)]

  /** The two clients read the plain test's header lines alike. */
  lemma SimpleHeadersAgree()
    ensures Http1Of(SIMPLE_HEADERS) == E.LengthHeaders(200)
  {
    var r := Http1Of(SIMPLE_HEADERS);
    assert |r| == 4;
    assert r[0] == E.LengthHeaders(200)[0] && r[1] == E.LengthHeaders(200)[1];
    assert r[2] == E.LengthHeaders(200)[2] && r[3] == E.LengthHeaders(200)[3];
  }

  /** The two clients read the chunked test's header lines alike. */
  lemma ChunkedHeadersAgree()
    ensures Http1Of(CHUNKED_HEADERS) == E.CHUNKED_HEADERS
  {
    var r := Http1Of(CHUNKED_HEADERS);
    assert |r| == 4;
    assert r[0] == E.CHUNKED_HEADERS[0] && r[1] == E.CHUNKED_HEADERS[1];
    assert r[2] == E.CHUNKED_HEADERS[2] && r[3] == E.CHUNKED_HEADERS[3];
  }

  /** `parse_headers_simple` with its own status line and header lines. */
  lemma ParseHeadersSimpleAsWritten()
    ensures NewDefined(Message(E.STATUS_LINE, SIMPLE_HEADERS, SIMPLE_BODY))
    ensures NewSpec(Message(E.STATUS_LINE, SIMPLE_HEADERS, SIMPLE_BODY))
         == Ok(Response(201, SIMPLE_HEADERS, Message(E.STATUS_LINE, SIMPLE_HEADERS, SIMPLE_BODY)))
  {
    E.StatusLineTest();
    E.LengthHeadersSendable(200);
    SimpleHeadersAgree();
    assert forall j :: 0 <= j < |SIMPLE_HEADERS| ==> !SIMPLE_HEADERS[j].TransferEncoding?;
    var code: u16 := 201;
    hide Digits, Message, P.Message, NewSpec, NewDefined, P.StatusLineFor, P.AllSendable, E.LengthHeaders;
    ParseHeadersSimple(E.STATUS_LINE, code, SIMPLE_HEADERS);
  }

  /** `parse_headers_transfer_enc_chunked` with its own status line and header lines. */
  lemma ParseHeadersTransferEncChunkedAsWritten()
    ensures NewDefined(Message(E.STATUS_LINE, CHUNKED_HEADERS, CHUNKED_BODY))
    ensures NewSpec(Message(E.STATUS_LINE, CHUNKED_HEADERS, CHUNKED_BODY)) == Ok(Response(201, CHUNKED_HEADERS, E.CHUNKED_CONTENT))
  {
    E.StatusLineTest();
    E.ChunkedHeadersSendable();
    ChunkedHeadersAgree();
    LastEncodingIsLast(CHUNKED_HEADERS, 2);
    var code: u16 := 201;
    hide Digits, Message, P.Message, NewSpec, NewDefined, P.StatusLineFor, P.AllSendable, LastEncoding;
    ParseHeadersTransferEncChunked(E.STATUS_LINE, code, CHUNKED_HEADERS);
  }
}
