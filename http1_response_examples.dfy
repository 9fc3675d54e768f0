/**
 * The unit tests of the HTTP/1.x decoder (src/http1/response.rs), stated
 * on the model. Each test's status line and header lines are left general
 * (any status line with the code and any sendable headers with the framing
 * the test declares); its body bytes are the test's own.
 */
module Http1ResponseExamples {
  import opened Bytes
  import opened Wire
  import H = Http1Headers
  import opened Http1Response
  import opened Http1ResponseProofs

  /** The payloads of the chunked tests: the first part's records, then the second's. */
  const FIRST_PAYLOADS: seq<Text> := ["test", "test1"]
  const SECOND_PAYLOADS: seq<Text> := ["test2"]
  const ALL_PAYLOADS: seq<Text> := ["test", "test1", "test2"]
  const CHUNKED_CONTENT: Text := "testtest1test2"

  /** The bodies of the tests framed by `Content-Length`. */
  const SIMPLE_BODY: Text := "AS"
  const PANIC_BODY: Text := "Versa\r\nilles"
  const FRAG_FIRST: Text := "AB"
  const FRAG_SECOND: Text := "CDE"
  const FRAG_CONTENT: Text := "ABCDE"

  lemma OneRecord(a: Text)
    requires 0 < |a| < 16
    ensures Records([a]) == Record(a)
  {
    assert [a][1..] == [];
    assert Record(a) + [] == Record(a);
  }

  lemma TwoRecords(a: Text, b: Text)
    requires 0 < |a| < 16 && 0 < |b| < 16
    ensures Records([a, b]) == Record(a) + Record(b)
  {
    assert [a, b][1..] == [b];
    OneRecord(b);
  }

  lemma RecordTest()
    ensures Record("test") == "4\r\ntest\r\n"
  {
    assert Digits(4, 16) == "4";
  }

  lemma RecordTest1()
    ensures Record("test1") == "5\r\ntest1\r\n"
  {
    assert Digits(5, 16) == "5";
  }

  lemma RecordTest2()
    ensures Record("test2") == "5\r\ntest2\r\n"
  {
    assert Digits(5, 16) == "5";
  }

  /** The records of the chunked tests, and the content they carry. */
  lemma TestRecords()
    ensures SmallChunks(FIRST_PAYLOADS) && SmallChunks(SECOND_PAYLOADS) && ALL_PAYLOADS == FIRST_PAYLOADS + SECOND_PAYLOADS
    ensures Records(FIRST_PAYLOADS) == "4\r\ntest\r\n5\r\ntest1\r\n"
    ensures Records(SECOND_PAYLOADS) + LAST_CHUNK == "5\r\ntest2\r\n0\r\n\r\n"
    ensures Concat(ALL_PAYLOADS) == CHUNKED_CONTENT
  {
    hide Record, Records;
    RecordTest();
    RecordTest1();
    RecordTest2();
    TwoRecords("test", "test1");
    OneRecord("test2");
    TestConcat();
  }

  lemma TestConcat()
    ensures Concat(ALL_PAYLOADS) == CHUNKED_CONTENT
  {
    var q0: seq<Text> := ALL_PAYLOADS;
    var q1: seq<Text> := q0[1..];
    var q2: seq<Text> := q1[1..];
    assert |q2[1..]| == 0;
    assert Concat(q0) == q0[0] + (q1[0] + (q2[0] + []));
  }

  /**
   * `resp_simple`: with `Content-Length: 2` and the body "AS", one call
   * finishes and `get_resp` hands out the content "AS".
   */
  lemma RespSimple(sl: Text, code: u16, hs: seq<H.Header>, i: nat)
    requires StatusLineFor(sl, code) && AllSendable(hs) && NoneOfKind(hs, true)
    requires LastOfKind(hs, i, false) && hs[i].len == 2
    ensures Decodable(INITIAL, Message(sl, hs, SIMPLE_BODY))
    ensures var (v1, r1) := DecodeSpec(INITIAL, Message(sl, hs, SIMPLE_BODY));
      r1 == Ok(()) && CanGetResp(v1) && GetRespSpec(v1).1 == Some(Response(code, hs, Some(SIMPLE_BODY)))
  {
    WholeContent(sl, code, hs, i, SIMPLE_BODY);
  }

  /**
   * `resp_simple_panic`: with `Content-Length: 200` and a 12-byte body the
   * decoder waits for more, so `get_resp` gives `None` and the test's
   * `unwrap` panics, as the test expects.
   */
  lemma RespSimplePanic(sl: Text, code: u16, hs: seq<H.Header>, i: nat)
    requires StatusLineFor(sl, code) && AllSendable(hs) && NoneOfKind(hs, true)
    requires LastOfKind(hs, i, false) && hs[i].len == 200
    ensures Decodable(INITIAL, Message(sl, hs, PANIC_BODY))
    ensures var (v1, r1) := DecodeSpec(INITIAL, Message(sl, hs, PANIC_BODY));
      r1 == Ok(()) && v1.state == Content && CanGetResp(v1) && GetRespSpec(v1).1.None?
  {
    ShortContentWaits(sl, code, hs, i, PANIC_BODY);
  }

  /** `resp_simple_frag`: "AB" and then "CDE" under `Content-Length: 5` give "ABCDE". */
  lemma RespSimpleFrag(sl: Text, code: u16, hs: seq<H.Header>, i: nat)
    requires StatusLineFor(sl, code) && AllSendable(hs) && NoneOfKind(hs, true)
    requires LastOfKind(hs, i, false) && hs[i].len == 5
    ensures Decodable(INITIAL, Message(sl, hs, FRAG_FIRST))
    ensures var (v1, r1) := DecodeSpec(INITIAL, Message(sl, hs, FRAG_FIRST));
      && r1 == Ok(()) && Decodable(v1, FRAG_SECOND)
      && var (v2, r2) := DecodeSpec(v1, FRAG_SECOND);
         r2 == Ok(()) && CanGetResp(v2) && GetRespSpec(v2).1 == Some(Response(code, hs, Some(FRAG_CONTENT)))
  {
    hide Message, DecodeSpec, Decodable, ParseHeadersSpec, GetRespSpec, CanGetResp;
    FragParts();
    FragmentedContent(sl, code, hs, i, FRAG_FIRST, FRAG_SECOND);
  }

  lemma FragParts()
    ensures |FRAG_FIRST| + |FRAG_SECOND| == 5 && |FRAG_SECOND| > 0 && FRAG_FIRST + FRAG_SECOND == FRAG_CONTENT
  {
  }

  /**
   * `resp_chunked_full`: the records of the three payloads (`TestRecords`)
   * and the last chunk in one call give "testtest1test2".
   */
  lemma RespChunkedFull(sl: Text, code: u16, hs: seq<H.Header>, i: nat)
    requires StatusLineFor(sl, code) && AllSendable(hs)
    requires LastOfKind(hs, i, true) && hs[i].tr == H.TrfrEncodingType.Chunked
    ensures SmallChunks(ALL_PAYLOADS) && Decodable(INITIAL, Message(sl, hs, Records(ALL_PAYLOADS) + LAST_CHUNK))
    ensures var (v1, r1) := DecodeSpec(INITIAL, Message(sl, hs, Records(ALL_PAYLOADS) + LAST_CHUNK));
      r1 == Ok(()) && CanGetResp(v1) && GetRespSpec(v1).1 == Some(Response(code, hs, Some(CHUNKED_CONTENT)))
  {
    hide Records, Concat, Message, DecodeSpec, Decodable, ParseHeadersSpec, SmallChunks;
    TestRecords();
    RecordsAppend(FIRST_PAYLOADS, SECOND_PAYLOADS);
    assert LAST_CHUNK + [] == LAST_CHUNK;
    ChunkedFull(sl, code, hs, i, ALL_PAYLOADS, []);
  }

  /**
   * `resp_chunked_two_parts`: the same records split after the second one
   * over two calls give the same content "testtest1test2".
   */
  lemma RespChunkedTwoParts(sl: Text, code: u16, hs: seq<H.Header>, i: nat)
    requires StatusLineFor(sl, code) && AllSendable(hs)
    requires LastOfKind(hs, i, true) && hs[i].tr == H.TrfrEncodingType.Chunked
    ensures SmallChunks(FIRST_PAYLOADS) && SmallChunks(SECOND_PAYLOADS)
    ensures Decodable(INITIAL, Message(sl, hs, Records(FIRST_PAYLOADS)))
    ensures var (v1, r1) := DecodeSpec(INITIAL, Message(sl, hs, Records(FIRST_PAYLOADS)));
      && r1 == Ok(()) && Decodable(v1, Records(SECOND_PAYLOADS) + LAST_CHUNK)
      && var (v2, r2) := DecodeSpec(v1, Records(SECOND_PAYLOADS) + LAST_CHUNK);
         r2 == Ok(()) && CanGetResp(v2) && GetRespSpec(v2).1 == Some(Response(code, hs, Some(CHUNKED_CONTENT)))
  {
    hide Records, Concat, Message, DecodeSpec, Decodable, ParseHeadersSpec, SmallChunks;
    TestRecords();
    assert LAST_CHUNK + [] == LAST_CHUNK;
    ChunkedTwoParts(sl, code, hs, i, FIRST_PAYLOADS, SECOND_PAYLOADS, []);
  }

  // ---------------------------------------------------------------------
  // The tests' own status line and header lines

  /** The status line of every test. */
  const STATUS_LINE: Text := "HTTP/1.1 201 Created"

  const EN: Text := "en"
  const NONE: Text := "none"
  const TEST_NAME: Text := "Test-Noimplement"
  const TEST_VALUE: Text := "Test"

  /**
   * The header lines of the tests framed by `Content-Length: n`, as the
   * headers they read back as.
   */
  function LengthHeaders(n: usize): seq<H.Header> {
    [H.ContentLength(n), H.ContentLanguage(EN), H.ContentEncoding(NONE), H.Header.Unimplemented(TEST_NAME, TEST_VALUE)]
  }

  /** The header lines of the chunked tests, as the headers they read back as. */
  const CHUNKED_HEADERS: seq<H.Header> :=
    [H.ContentLanguage(EN), H.ContentEncoding(NONE), H.TransferEncoding(H.TrfrEncodingType.Chunked),
     H.Header.Unimplemented(TEST_NAME, TEST_VALUE)]

  /** "HTTP/1.1 201 Created" is a status line for the code 201. */
  lemma StatusLineTest()
    ensures StatusLineFor(STATUS_LINE, 201)
  {
    assert Digits(2, 10) == "2";
    assert Digits(20, 10) == "20";
    assert Digits(201, 10) == "201";
  }

  lemma AsciiConcat(a: Text, b: Text)
    requires IsAscii(a) && IsAscii(b)
    ensures IsAscii(a + b)
  {
    forall i | 0 <= i < |a + b| ensures (a + b)[i] as int < 128 {
      if i >= |a| {
        assert (a + b)[i] == b[i - |a|];
      }
    }
  }

  /** A well-formed header written in plain ASCII without `\r` can be sent. */
  lemma PlainSendable(h: H.Header)
    requires h.WellFormed() && IsAscii(h.Parts().0) && IsAscii(h.Parts().1)
    requires CR !in h.Parts().0 && CR !in h.Parts().1
    ensures Sendable(h)
  {
    AsciiConcat(h.Parts().0, SEP);
    AsciiConcat(h.Parts().0 + SEP, h.Parts().1);
    AsciiIsValidUtf8(h.Render());
  }

  /** The name of the tests' fallback header is plain ASCII and names no known header. */
  lemma TestNamePlain()
    ensures ':' !in TEST_NAME && CR !in TEST_NAME && IsAscii(TEST_NAME) && !H.IsKnownName(TEST_NAME)
  {
  }

  lemma TestValuePlain()
    ensures ':' !in TEST_VALUE && CR !in TEST_VALUE && IsAscii(TEST_VALUE)
  {
  }

  lemma EnPlain()
    ensures ':' !in EN && CR !in EN && IsAscii(EN)
  {
  }

  lemma NonePlain()
    ensures ':' !in NONE && CR !in NONE && IsAscii(NONE)
  {
  }

  lemma ChunkedPlain()
    ensures var t := H.TrfrEncodingType.Chunked.Name(); ':' !in t && CR !in t && IsAscii(t)
  {
  }

  /** The fallback header of every test can be sent. */
  lemma TestHeaderSendable()
    ensures Sendable(H.Header.Unimplemented(TEST_NAME, TEST_VALUE))
  {
    TestNamePlain();
    TestValuePlain();
    H.NoColonNoSep(TEST_NAME);
    H.NoColonNoSep(TEST_VALUE);
    hide IsAscii, NoSep, H.IsKnownName;
    PlainSendable(H.Header.Unimplemented(TEST_NAME, TEST_VALUE));
  }

  lemma LanguageSendable()
    ensures Sendable(H.ContentLanguage(EN))
  {
    EnPlain();
    H.NoColonNoSep(EN);
    hide IsAscii, NoSep;
    PlainSendable(H.ContentLanguage(EN));
  }

  lemma EncodingSendable()
    ensures Sendable(H.ContentEncoding(NONE))
  {
    NonePlain();
    H.NoColonNoSep(NONE);
    hide IsAscii, NoSep;
    PlainSendable(H.ContentEncoding(NONE));
  }

  lemma LengthSendable(n: usize)
    ensures Sendable(H.ContentLength(n))
  {
    DigitsHaveNoCR(n, 10);
    PlainSendable(H.ContentLength(n));
  }

  lemma TransferSendable()
    ensures Sendable(H.TransferEncoding(H.TrfrEncodingType.Chunked))
  {
    ChunkedPlain();
    hide IsAscii;
    PlainSendable(H.TransferEncoding(H.TrfrEncodingType.Chunked));
  }

  /**
   * The headers of the tests framed by length can be sent; the first one
   * is the only `Content-Length` and none is a `Transfer-Encoding`.
   */
  lemma LengthHeadersSendable(n: usize)
    ensures AllSendable(LengthHeaders(n)) && NoneOfKind(LengthHeaders(n), true)
    ensures LastOfKind(LengthHeaders(n), 0, false) && LengthHeaders(n)[0].len == n
  {
    LengthSendable(n);
    LanguageSendable();
    EncodingSendable();
    TestHeaderSendable();
    hide Sendable;
    assert AllSendable(LengthHeaders(n));
  }

  /** The headers of the chunked tests can be sent; the third one is `Transfer-Encoding: chunked`. */
  lemma ChunkedHeadersSendable()
    ensures AllSendable(CHUNKED_HEADERS)
    ensures LastOfKind(CHUNKED_HEADERS, 2, true) && CHUNKED_HEADERS[2].tr == H.TrfrEncodingType.Chunked
  {
    TransferSendable();
    LanguageSendable();
    EncodingSendable();
    TestHeaderSendable();
    hide Sendable;
    assert AllSendable(CHUNKED_HEADERS);
  }

  /** The headers written back are the tests' own header lines. */
  lemma LengthLines()
    ensures Renders(LengthHeaders(2))[0] == "Content-Length: 2"
    ensures Renders(LengthHeaders(200))[0] == "Content-Length: 200"
    ensures Renders(LengthHeaders(5))[0] == "Content-Length: 5"
  {
    assert Digits(2, 10) == "2";
    assert Digits(5, 10) == "5";
    assert Digits(20, 10) == "20";
    assert Digits(200, 10) == "200";
  }

  lemma OtherLines()
    ensures H.ContentLanguage(EN).Render() == "Content-Language: en"
    ensures H.ContentEncoding(NONE).Render() == "Content-Encoding: none"
    ensures H.TransferEncoding(H.TrfrEncodingType.Chunked).Render() == "Transfer-Encoding: chunked"
    ensures H.Header.Unimplemented(TEST_NAME, TEST_VALUE).Render() == "Test-Noimplement: Test"
  {
  }

  /**
   * Decoding `first` and then `second` from a fresh decoder succeeds both
   * times and `get_resp` then gives `resp`.
   */
  ghost predicate DecodesInTwo(first: Text, second: Text, resp: Response) {
    && Decodable(INITIAL, first)
    && var (v1, r1) := DecodeSpec(INITIAL, first);
       && r1 == Ok(()) && Decodable(v1, second)
       && var (v2, r2) := DecodeSpec(v1, second);
          r2 == Ok(()) && CanGetResp(v2) && GetRespSpec(v2).1 == Some(resp)
  }

  /** `resp_simple` with its own status line and header lines. */
  lemma RespSimpleAsWritten()
    ensures Decodable(INITIAL, Message(STATUS_LINE, LengthHeaders(2), SIMPLE_BODY))
    ensures var (v1, r1) := DecodeSpec(INITIAL, Message(STATUS_LINE, LengthHeaders(2), SIMPLE_BODY));
      r1 == Ok(()) && CanGetResp(v1) && GetRespSpec(v1).1 == Some(Response(201, LengthHeaders(2), Some(SIMPLE_BODY)))
  {
    StatusLineTest();
    LengthHeadersSendable(2);
    var code: u16 := 201;
    hide *;
    RespSimple(STATUS_LINE, code, LengthHeaders(2), 0);
  }

  /** `resp_simple_panic` with its own status line and header lines: `get_resp` gives `None`. */
  lemma RespSimplePanicAsWritten()
    ensures Decodable(INITIAL, Message(STATUS_LINE, LengthHeaders(200), PANIC_BODY))
    ensures var (v1, r1) := DecodeSpec(INITIAL, Message(STATUS_LINE, LengthHeaders(200), PANIC_BODY));
      r1 == Ok(()) && v1.state == Content && CanGetResp(v1) && GetRespSpec(v1).1.None?
  {
    StatusLineTest();
    LengthHeadersSendable(200);
    var code: u16 := 201;
    hide *;
    RespSimplePanic(STATUS_LINE, code, LengthHeaders(200), 0);
  }

  /** `resp_simple_frag` with its own status line and header lines. */
  lemma RespSimpleFragAsWritten()
    ensures DecodesInTwo(Message(STATUS_LINE, LengthHeaders(5), FRAG_FIRST), FRAG_SECOND,
                         Response(201, LengthHeaders(5), Some(FRAG_CONTENT)))
  {
    StatusLineTest();
    LengthHeadersSendable(5);
    var code: u16 := 201;
    hide Digits, Records, Concat, Message, DecodeSpec, Decodable, ParseHeadersSpec, SmallChunks,
      StatusLineFor, AllSendable, LastOfKind, NoneOfKind, LengthHeaders, GetRespSpec, CanGetResp;
    RespSimpleFrag(STATUS_LINE, code, LengthHeaders(5), 0);
  }

  /** `resp_chunked_full` with its own status line and header lines. */
  lemma RespChunkedFullAsWritten()
    ensures Decodable(INITIAL, Message(STATUS_LINE, CHUNKED_HEADERS, Records(ALL_PAYLOADS) + LAST_CHUNK))
    ensures var (v1, r1) := DecodeSpec(INITIAL, Message(STATUS_LINE, CHUNKED_HEADERS, Records(ALL_PAYLOADS) + LAST_CHUNK));
      r1 == Ok(()) && CanGetResp(v1) && GetRespSpec(v1).1 == Some(Response(201, CHUNKED_HEADERS, Some(CHUNKED_CONTENT)))
  {
    StatusLineTest();
    ChunkedHeadersSendable();
    var code: u16 := 201;
    hide *;
    RespChunkedFull(STATUS_LINE, code, CHUNKED_HEADERS, 2);
  }

  /** `resp_chunked_two_parts` with its own status line and header lines. */
  lemma RespChunkedTwoPartsAsWritten()
    ensures DecodesInTwo(Message(STATUS_LINE, CHUNKED_HEADERS, Records(FIRST_PAYLOADS)), Records(SECOND_PAYLOADS) + LAST_CHUNK,
                         Response(201, CHUNKED_HEADERS, Some(CHUNKED_CONTENT)))
  {
    StatusLineTest();
    ChunkedHeadersSendable();
    var code: u16 := 201;
    hide Digits, Records, Concat, Message, DecodeSpec, Decodable, ParseHeadersSpec, SmallChunks,
      StatusLineFor, AllSendable, LastOfKind, NoneOfKind, GetRespSpec, CanGetResp;
    RespChunkedTwoParts(STATUS_LINE, code, CHUNKED_HEADERS, 2);
  }
}
