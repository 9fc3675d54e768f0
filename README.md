# HTTP/1.x response parsing, modelled and proved in Dafny

This project models how the tunnel's HTTP clients read a server's response.
It covers the status line, the header lines and the body, in either plain
or chunked transfer coding. Both clients in the repository are modelled.

- **The HTTP/1.x client** (`src/http1/response.rs`, `src/http1/headers.rs`).
  Its `DataDecoder` is fed the bytes as they arrive, one `decode` call at a
  time. It moves through the states `Headers`, `Content` or
  `ChunkedContent`, then `Finished` or `Error`. Once finished, it hands out
  the `Response` through `get_resp` or `poll_response`.
- **The older one-shot client** (`src/http/response.rs`, `src/http/headers.rs`).
  `Response::new` takes the whole message at once. It parses the headers
  into a code, a header list and a `DataDecoder` (an encoding plus a cursor
  over the buffer), then decodes the body.

The modules follow the program's structure:

| module | file | models |
|---|---|---|
| `Bytes` | bytes.dfy | bytes, `memchr`, cursor positions, `str::split(": ")`, UTF-8 validity, Rust's integer parsers and `str_to_usize` |
| `Wire` | wire.dfy | the status line, the header-line loop and the chunk loop as step functions, shared by both clients |
| `Http1Headers` | http1_headers.dfy | `MimeType`, `ConnectionState`, `TrfrEncodingType` and `Header::serialize` of the HTTP/1.x client |
| `HttpHeaders` | http_headers.dfy | `Header::serialize` of the older client |
| `Http1Response` | http1_response.dfy | the `DataDecoder` class, whose methods update its fields in place, and the pure functions that specify them |
| `Http1ResponseProofs` | http1_response_proofs.dfy | what decoding does to a response as a server writes it |
| `Http1ResponseExamples` | http1_response_examples.dfy | the source's unit tests, as lemmas |
| `HttpResponse` | http_response.dfy | `parse_headers`, `decode`, `chunked_decode` and `Response::new` of the older client |
| `HttpResponseProofs` | http_response_proofs.dfy | the older client's properties, and its agreement with the HTTP/1.x client |
| `HttpResponseExamples` | http_response_examples.dfy | the older client's unit tests, as lemmas |

Modelling conventions:

- **Bytes.** A byte is a `char` whose code is below 256, and a buffer is a
  `seq` of them (`Text`). `str::from_utf8` becomes the `ValidUtf8` predicate.
- **Integers.** `usize` is 64 bits wide and `u16` is 16 bits wide.
  `parse::<uN>` and `from_str_radix` become `ParseUnsigned`. It accepts an
  optional `+`, then at least one digit, and refuses any value above the
  maximum.
- **Panics.** Every source panic becomes a precondition: a slice out of
  range, a `todo!()` arm for gzip, `panic!("impl this!")`, or `unwrap` on a
  missing response. These are `Decodable`, `ChunksInBounds`, `CanGetResp`,
  `ChunkedDecodable` and `NewDefined`.
- **Loops.** Each source loop is a `while` loop in a method. The method is
  proved against a step function: `LineStepOf` and `ScanLines` for header
  lines, `ChunkStepOf` and `ChunkScan` for chunks, together with the
  invariant linking the loop's position to that function.
- **Decoder methods.** The decoding methods of the HTTP/1.x decoder
  (`Decode`, `ChunkedDecode`, `ParseHeaders`, `GetResp` and `PollResponse`)
  ensure `(Value(), r) == XSpec(old(Value()), ...)`. The state setters and
  the header-loop methods state the new fields directly. What the spec
  functions do to whole responses is then proved as lemmas.

Where the code and its documentation disagree, the model follows the code:

- The `Error` state is not terminal. A later `decode` treats its bytes as
  body (`ErrorIsNotTerminal`).
- Of the header-parsing errors, only an input with no `\r` moves the
  decoder to `Error`. A bad status code or a header line that is not
  UTF-8 returns an error but leaves the decoder in `Content` or
  `ChunkedContent`. In the
  body, a chunk length that is not hexadecimal also moves it to `Error`
  (`BadChunkLength`).
- A `Content-Length` value that is not a decimal `usize` is no error.
  `serialize` refuses the line (`SerializeContentLength`), and the header
  loop skips it and goes on (`AcceptedSkipsRejected`). The decoder then
  has no declared length, so it finishes in the first call with the
  body bytes it has, and `get_resp` returns a response (`BadLengthIgnored`).
- A response split across `decode` calls does not always parse as in one
  call. Only the first call reads headers. A split inside the header
  block leaves the header lines after it to be taken as body. A split
  inside a chunk length field finishes the body early
  (`ChunkedStopsEarly`). A split inside a chunk payload makes the slice
  panic, which `ChunksInBounds` excludes. The split lemmas
  (`FragmentedContent`, `ChunkedTwoParts`) are stated for a
  `Content-Length` body split anywhere and for chunked bodies split
  between records.
- `get_resp` keeps the `Finished` state and resets only the content and
  the response. A second call panics on the taken response (`GetRespOnce`).
- A `Connection: close` header changes nothing. Line 305 of
  `src/http1/response.rs` evaluates the comparison `state.upgrade == true`
  and discards it; it does not assign.
- The non-chunked content of the older client is the whole input buffer,
  headers included, because `decode` returns `cursor.into_inner()`.
- The older client's chunked content drops its last byte (the
  `content.pop()` "dirty fix"). Its unit test compensates: it declares a
  last chunk one byte longer than its payload, so the slice takes the
  following `\r`, which the pop then removes.
- Both chunk loops copy `buf[index + 2..len + 3]`. This equals the payload
  only when the length field is one hex digit. The model keeps this slice
  as written, and the round-trip lemmas are stated for such chunks.

## Model

| member | source | states |
|---|---|---|
| Bytes.IndexOf | src/http1/response.rs:183 | `memchr`: the first position holding the byte, or none when no position holds it |
| Bytes.RestAfter | src/http1/response.rs:145-148 | once the cursor has consumed a prefix, the bytes left are exactly those that followed it |
| Bytes.RestRest | src/http1/response.rs:216 | consuming `p` bytes and then `q` more leaves what consuming `p + q` leaves |
| Bytes.Find | src/http1/headers.rs:88-93 | the leftmost position where a pattern starts, or none exactly when it starts nowhere |
| Bytes.SplitFirstTwo | src/http1/headers.rs:88-93 | the first two pieces of `split(": ")`: the text before the first separator, and the text from there to the next separator or the end; none when there is no separator |
| Bytes.SplitFirstTwoParts | src/http1/headers.rs:88-93 | the first two pieces of `split(": ")` exist exactly when the line holds `": "`; neither piece holds `": "`, and together they are a prefix of the line joined by `": "` |
| Bytes.SplitJoin | src/http1/headers.rs:88-93 | splitting `name + ": " + value` gives back the name and the value when neither holds `": "` |
| Bytes.SplitJoinTail | src/http1/headers.rs:88-93 | a third piece after the value is ignored |
| Bytes.ParseUnsigned | src/http1/headers.rs:97 | a parsed value never exceeds the type's maximum |
| Bytes.ParseUsizeDigits | src/http1/headers.rs:96-105 | `parse::<usize>` reads back the decimal digits of every value up to the 64-bit maximum, and refuses the digits of any larger value |
| Bytes.StrToUsize | src/http1/response.rs:12-18 | `from_utf8`, then `from_str_radix(_, 16)`: none when the bytes are not UTF-8 or not a hexadecimal `usize` |
| Bytes.StrToUsizeIsHexParse | src/http1/response.rs:12-18 | `str_to_usize` succeeds exactly when the bytes are a hexadecimal `usize`, and gives its value; the UTF-8 check never refuses text the parse would accept |
| Bytes.ParsedIsValidUtf8 | src/http1/response.rs:243-248 | any text the integer parser accepts is valid UTF-8, so `from_utf8` never rejects it first |
| Bytes.PlusSignAccepted | src/http1/headers.rs:97 | a leading `+` is accepted and changes nothing |
| Bytes.MinusSignRefused | src/http1/headers.rs:97 | a leading `-` is always refused by the unsigned parser |
| Bytes.ParseDigits | src/http1/headers.rs:96-105 | the digits of any value within the maximum parse back to that value, in every radix from 2 to 36 |
| Bytes.ParseRefusesOverflow | src/http1/headers.rs:97-100 | the digits of a value above the maximum never parse |
| Bytes.CharWidth | src/http1/response.rs:269 | a UTF-8 character is at most four bytes long, and one byte long exactly when it is ASCII |
| Wire.StatusLine | src/http1/response.rs:233-257 | `Empty` exactly when there is no `\r`; otherwise the code is bytes 9 to 11 read as a decimal `u16` and the cursor stands after the first line's `\r\n`; else `InvalidFirstLine` |
| Wire.ReadStatusLine | src/http1/response.rs:231-257 | the status-line reading as a method equals `StatusLine` |
| Wire.LineStepOf | src/http1/response.rs:260-281 | a line the loop reads is non-empty and UTF-8, holds no `\r`, and is consumed with its `\r\n` |
| Wire.ScanLines | src/http1/response.rs:259-322 | every line the header loop collects is a proper header line (non-empty, UTF-8, no `\r`) |
| Wire.ScanLinesBlock | src/http1/response.rs:259-322 | a header block of proper lines ended by a blank line yields exactly those lines, and the cursor stands after the blank line |
| Wire.ScanLinesBlank | src/http1/response.rs:278-281 | a blank line ends the loop after consuming its two bytes |
| Wire.ScanLinesBadLine | src/http1/response.rs:269-274 | a line that is not UTF-8 stops the loop as bad after the lines before it |
| Wire.ScanLinesPrefix | src/http1/response.rs:259-322 | the loop reads proper lines one after another: it yields them first, then what the rest yields |
| Wire.ChunkScan | src/http1/response.rs:177-217 | the chunk loop run to its end: the payload slices it copies, in order, and how it stops (out of bytes, no `\r`, a terminating line, or a bad length) |
| Wire.ChunkStepOf | src/http1/response.rs:177-216 | a chunk step that takes a payload always consumes bytes, so the loop ends |
| Wire.ChunkScanRecord | src/http1/response.rs:212-216 | on a chunk record, the loop copies `buf[index+2..len+3]`, which is the payload cut to `len + 1 - index` bytes, then goes on after the record |
| Wire.ChunkScanSmallRecord | src/http1/response.rs:212-216 | a record whose length is one hex digit yields exactly its payload |
| Wire.ChunkScanRecords | src/http1/response.rs:177-217 | a run of such records yields the concatenation of their payloads, then whatever the rest yields |
| Wire.LastChunkTerminates | src/http1/response.rs:207-210 | the last chunk `0\r\n\r\n` ends the loop with nothing more copied |
| Wire.BadLengthRefused | src/http1/response.rs:198-205 | a length field that is not hexadecimal stops the loop as `BadLength` |
| Wire.ChunkScanStop | src/http/response.rs:59-73 | the older loop's stops: an empty line and a zero length terminate, a bad length refuses, and nothing more is copied |
| Wire.ChunkScanAdvance | src/http/response.rs:75-77 | one pass of the older loop appends the sliced payload and moves the cursor past the record, to a shorter rest |
| Http1Headers.MimeType.Recognize | src/http1/headers.rs:13-26 | any recognised type is named by its exact text; `image/jpg` is a second spelling of JPEG |
| Http1Headers.MimeRecognizeName | src/http1/headers.rs:16-25 | every media type is recognised from its own name |
| Http1Headers.ConnectionState.Recognize | src/http1/headers.rs:38-42 | `Close` exactly for the text `close`; anything else keeps the connection alive |
| Http1Headers.ConnectionRecognizeName | src/http1/headers.rs:38-42 | both connection states are recognised from their names |
| Http1Headers.TrfrEncodingType.Recognize | src/http1/headers.rs:57-69 | never `None`; a recognised coding is named by either order of its parts |
| Http1Headers.TrfrRecognizeName | src/http1/headers.rs:60-68 | every coding but `None` is recognised from both of its spellings |
| Http1Headers.Header.Serialize | src/http1/headers.rs:85-123 | a line without `": "` is "invalid header"; otherwise its first two pieces are classified |
| Http1Headers.Header.Classify | src/http1/headers.rs:95-122 | the kind by exact name: `Content-Length` needs a decimal `usize` or is the length error; type, coding and connection values go through their recognisers; encoding and language keep their text; any other name is kept with its value |
| Http1Headers.ClassifyParts | src/http1/headers.rs:95-122 | the name and value a well-formed header is written with classify back to that header |
| Http1Headers.SerializeRender | src/http1/headers.rs:85-123 | writing a well-formed header as `Name: value` and serializing the line gives it back |
| Http1Headers.SerializeNeedsSeparator | src/http1/headers.rs:88-93 | a line is refused as "invalid header" exactly when it holds no `": "` |
| Http1Headers.SerializeContentLength | src/http1/headers.rs:96-105 | a `Content-Length` line is accepted exactly when its value is a decimal `usize`, and then carries that value; otherwise it is the length error |
| Http1Headers.SerializeFallback | src/http1/headers.rs:119-121 | any other name, including a known name in another case, is kept with its value unchanged |
| Http1Headers.SerializeIgnoresThirdPiece | src/http1/headers.rs:88-93 | a further `": "` and what follows it are dropped |
| HttpHeaders.Header.Serialize | src/http/headers.rs:73-107 | a line without `": "` is "invalid header"; otherwise its first two pieces are classified |
| HttpHeaders.Header.Classify | src/http/headers.rs:83-106 | the HTTP/1.x classification without the `Connection` kind, whose lines fall to the unrecognised pair |
| HttpHeaders.SerializeNeedsSeparator | src/http/headers.rs:76-81 | the older recogniser refuses a line exactly when it holds no `": "` |
| HttpHeaders.SerializeAgreesWithHttp1 | src/http/headers.rs:73-107 | the two recognisers agree on every line, errors included, except a `Connection` line, which the older one keeps as an unrecognised pair |
| HttpHeaders.ConnectionUnrecognised | src/http/headers.rs:105 | a `Connection` line is an unrecognised header for the older client |
| HttpHeaders.SerializeRender | src/http/headers.rs:73-107 | every header the older client knows reads back from its written form |
| Http1Response.Response.Status | src/http1/response.rs:403-414 | each response class holds exactly its hundred codes, for codes up to 599 |
| Http1Response.Dummy | src/http1/response.rs:383-389 | code 100, so an informational response, with no headers and no content |
| Http1Response.Accepted | src/http1/response.rs:283-317 | the headers kept from the lines read: those `serialize` accepts, in the order read |
| Http1Response.Absorb | src/http1/response.rs:294-317 | one header's effect: `Transfer-Encoding` sets the encoding and the chunked state, `Content-Length` the declared length, any other kind nothing |
| Http1Response.AbsorbAll | src/http1/response.rs:259-322 | the effects of the headers kept, in the order read |
| Http1Response.ParseHeadersSpec | src/http1/response.rs:222-333 | the state becomes `Content`; no `\r` is `Empty` and `Error`; a bad code is `InvalidFirstLine`; a bad header line is `InvalidHeader` after the earlier headers; else the response with the code and headers is recorded and the cursor stands after the header block |
| Http1Response.ChunkedSpec | src/http1/response.rs:174-220 | the loop's payloads are appended; running out of bytes waits; no `\r`, a blank line or a zero length finish; a bad length is `InvalidBody` and `Error` |
| Http1Response.ContentSpec | src/http1/response.rs:157-167 | the bytes are appended, and the decoder finishes when no length was declared or the content has exactly that length |
| Http1Response.BodySpec | src/http1/response.rs:153-168 | chunked coding goes through the chunk loop, any other coding appends the bytes as content |
| Http1Response.DecodeSpec | src/http1/response.rs:137-172 | nothing once finished; in `Headers` the headers first, whose error is returned, then the rest as body; otherwise all the bytes as body |
| Http1Response.GetRespSpec | src/http1/response.rs:113-131 | when finished, the recorded response with the content (none if empty), and both cleared; before that nothing, and nothing changes |
| Http1Response.DataDecoder.constructor | src/http1/response.rs:96-105 | a new decoder is in `Headers` with no encoding, no content, no response and no declared length |
| Http1Response.DataDecoder.IsFinished | src/http1/response.rs:108-110 | true exactly in the `Finished` state |
| Http1Response.DataDecoder.Encoding | src/http1/response.rs:133-135 | the encoding the decoder holds |
| Http1Response.DataDecoder.State | src/http1/response.rs:345-347 | the snapshot the decoder holds |
| Http1Response.DataDecoder.SContent | src/http1/response.rs:357-359 | only the state changes, to `Content` |
| Http1Response.DataDecoder.SChkContent | src/http1/response.rs:361-363 | only the state changes, to `ChunkedContent` |
| Http1Response.DataDecoder.SFin | src/http1/response.rs:365-367 | only the state changes, to `Finished` |
| Http1Response.DataDecoder.SErr | src/http1/response.rs:369-371 | only the state changes, to `Error` |
| Http1Response.DataDecoder.GetResp | src/http1/response.rs:113-131 | the new fields and the result are `GetRespSpec` of the old fields: when finished, the response with the content (none if empty), and both are cleared |
| Http1Response.DataDecoder.PollResponse | src/http1/response.rs:335-343 | ready with `get_resp`'s response when finished, pending otherwise, with the same effect on the fields |
| Http1Response.DataDecoder.Decode | src/http1/response.rs:137-172 | the new fields and the result are `DecodeSpec` of the old fields and the bytes |
| Http1Response.DataDecoder.ChunkedDecode | src/http1/response.rs:174-220 | the loop's effect is `ChunkedSpec`: the payloads until the loop stops are appended to the content, and the stop decides the state and the error |
| Http1Response.DataDecoder.ParseHeaders | src/http1/response.rs:222-333 | the new fields and the cursor position or error are `ParseHeadersSpec` of the old fields and the bytes |
| Http1Response.DataDecoder.ReadHeaders | src/http1/response.rs:259-322 | the header loop consumes what `ScanLines` consumes, keeps the headers `serialize` accepts, in order, and takes each in |
| Http1Response.DataDecoder.TakeHeader | src/http1/response.rs:294-317 | a `Transfer-Encoding` header sets the encoding and the chunked state, `Content-Length` sets the declared length, and nothing else changes |
| Http1Response.ChunkLoopStep | src/http1/response.rs:212-216 | one pass of the chunk loop stays in bounds, shortens the rest, and appends the sliced payload |
| Http1Response.ChunkLoopStop | src/http1/response.rs:177-210 | running out of bytes keeps the state; a missing `\r`, a blank line or a zero length finish; a bad length is `InvalidBody` and moves to `Error` |
| Http1ResponseProofs.AcceptedRenders | src/http1/response.rs:283-317 | the header lines a server writes for headers it can send (well-formed, one UTF-8 line without `\r`) are read back as exactly those headers, in order |
| Http1ResponseProofs.StatusLineReads | src/http1/response.rs:233-257 | a status line with a three-digit code at bytes 9 to 11 gives that code, with the cursor after its `\r\n` |
| Http1ResponseProofs.ParseHeadersMessage | src/http1/response.rs:222-333 | for a message made of a status line, header lines, a blank line and a body, the cursor stands at the body, and the response records the code and the headers |
| Http1ResponseProofs.AbsorbAllEffect | src/http1/response.rs:294-315 | the last `Transfer-Encoding` header decides the encoding and the chunked state, the last `Content-Length` the declared length; without them these stay, and the content, response and snapshot never change |
| Http1ResponseProofs.DecodeMessage | src/http1/response.rs:144-151 | decoding a whole message from `Headers` is decoding its body after taking in its headers |
| Http1ResponseProofs.HeadedChunked | src/http1/response.rs:295-299 | after headers whose last coding header is `Transfer-Encoding` the decoder is in `ChunkedContent` with that coding |
| Http1ResponseProofs.HeadedLength | src/http1/response.rs:301 | after headers with a `Content-Length` and no coding header the decoder is in `Content` with that length declared |
| Http1ResponseProofs.WholeContent | src/http1/response.rs:157-167 | a non-empty body of exactly the declared length finishes in one call, and `get_resp` gives the code, the headers and the body |
| Http1ResponseProofs.FragmentedContent | src/http1/response.rs:157-167 | a body split over two calls finishes on the second, with the two parts joined as the content |
| Http1ResponseProofs.ShortContentWaits | src/http1/response.rs:160-163 | a body shorter than the declared length leaves the decoder waiting, and `get_resp` gives nothing |
| Http1ResponseProofs.OvershootNeverFinishes | src/http1/response.rs:160-163 | once the content is longer than the declared length, no further bytes ever finish the decoder |
| Http1ResponseProofs.ChunkedBodyEnds | src/http1/response.rs:177-217 | a chunked body of records and the last chunk appends the payloads and finishes |
| Http1ResponseProofs.ChunkedBodyPending | src/http1/response.rs:177-181 | records without the last chunk append the payloads and keep waiting |
| Http1ResponseProofs.DecodeChunkedEnds | src/http1/response.rs:137-172 | a whole chunked message ends `Finished` with the payloads as the content |
| Http1ResponseProofs.DecodeChunkedPending | src/http1/response.rs:137-172 | a chunked message cut after some records has their payloads as the content and is not finished |
| Http1ResponseProofs.ChunkedFull | src/http1/response.rs:137-220 | from a new decoder, a whole chunked message gives a response whose content is the joined payloads |
| Http1ResponseProofs.ChunkedTwoParts | src/http1/response.rs:137-220 | a chunked body split between records over two calls gives the same content as in one call |
| Http1ResponseProofs.AcceptedAppend | src/http1/response.rs:283-317 | the headers kept from two runs of lines are those of the first run, then those of the second |
| Http1ResponseProofs.AcceptedSkipsRejected | src/http1/response.rs:284-287 | a line that `serialize` refuses is skipped and changes nothing |
| Http1ResponseProofs.BadLengthLine | src/http1/headers.rs:96-100 | a `Content-Length` line whose value is not a decimal `usize` is a proper header line that `serialize` refuses with the length error, so no header comes from it |
| Http1ResponseProofs.ParseHeadersLines | src/http1/response.rs:222-322 | after a status line, the header loop reads a block of proper lines exactly, and the cursor stands after its blank line |
| Http1ResponseProofs.ParseHeadersRefusedLine | src/http1/response.rs:283-287 | a block whose one line `serialize` refuses records the response with no headers, declares nothing, and leaves the cursor at the body |
| Http1ResponseProofs.UndeclaredBody | src/http1/response.rs:157-167 | with no coding and no declared length, the body is appended and the decoder finishes |
| Http1ResponseProofs.DecodeRefusedLine | src/http1/response.rs:144-151 | after such a block, `decode` goes on with the rest of the bytes as body |
| Http1ResponseProofs.BadLengthIgnored | src/http1/response.rs:283-287 | a message whose one header is `Content-Length` with a value that is not a `usize` ends `Finished` with no declared length and the body as content, and `get_resp` returns it |
| Http1ResponseProofs.NoStatusLine | src/http1/response.rs:233-237 | bytes with no `\r` are `Empty` and move the decoder to `Error` |
| Http1ResponseProofs.BadStatusCode | src/http1/response.rs:243-251 | a status code that does not parse is `InvalidFirstLine`, and the decoder stays in `Content` |
| Http1ResponseProofs.BadHeaderLine | src/http1/response.rs:269-274 | a header line that is not UTF-8 is `InvalidHeader` after the headers before it have been taken in, and no new response is recorded |
| Http1ResponseProofs.BadChunkLength | src/http1/response.rs:198-205 | a chunk length that is not hexadecimal is `InvalidBody` after the payloads before it, and moves to `Error` |
| Http1ResponseProofs.ChunkedStopsEarly | src/http1/response.rs:183-194 | after the records, a part with no `\r` or starting with `\r` finishes the body with nothing more appended |
| Http1ResponseProofs.FinishedIgnoresData | src/http1/response.rs:140-142 | once finished, `decode` changes nothing |
| Http1ResponseProofs.ErrorIsNotTerminal | src/http1/response.rs:144-167 | in `Error`, `decode` treats the bytes as body, and without a declared length finishes |
| Http1ResponseProofs.GetRespOnce | src/http1/response.rs:113-131 | when finished, `get_resp` hands out the response with the content; afterwards the decoder is still finished but has no response, so another call panics |
| Http1ResponseProofs.GetRespNotFinished | src/http1/response.rs:130 | before the decoder finishes, `get_resp` gives nothing and changes nothing |
| Http1ResponseExamples.TestRecords | src/http1/response.rs:507-510 | the test's chunked body is the records of `test`, `test1`, `test2` and the last chunk, and their payloads join to `testtest1test2` |
| Http1ResponseExamples.RespSimple | src/http1/response.rs:430-447 | the `resp_simple` message decodes to a response with the body `AS` |
| Http1ResponseExamples.RespSimplePanic | src/http1/response.rs:449-470 | with a declared length of 200 and a shorter body, `get_resp` gives nothing, so the test's `unwrap` panics |
| Http1ResponseExamples.RespSimpleFrag | src/http1/response.rs:471-493 | `AB` then `CDE` give the content `ABCDE` |
| Http1ResponseExamples.RespChunkedFull | src/http1/response.rs:498-520 | the chunked test message gives the content `testtest1test2` |
| Http1ResponseExamples.RespChunkedTwoParts | src/http1/response.rs:522-545 | the chunked test message in two parts gives the content `testtest1test2` |
| Http1ResponseExamples.StatusLineTest | src/http1/response.rs:433 | `HTTP/1.1 201 Created` is a status line for the code 201 |
| Http1ResponseExamples.LengthHeadersSendable | src/http1/response.rs:434-437 | the length tests' headers can be sent; the first is the one `Content-Length` and none is a `Transfer-Encoding` |
| Http1ResponseExamples.ChunkedHeadersSendable | src/http1/response.rs:502-505 | the chunked tests' headers can be sent; the third is the last `Transfer-Encoding`, and it is `chunked` |
| Http1ResponseExamples.LengthLines | src/http1/response.rs:434 | these headers are written as the tests' lines `Content-Length: 2`, `200` and `5` |
| Http1ResponseExamples.OtherLines | src/http1/response.rs:502-505 | the other headers are written as the tests' lines `Content-Language: en`, `Content-Encoding: none`, `Transfer-Encoding: chunked` and `Test-Noimplement: Test` |
| Http1ResponseExamples.RespSimpleAsWritten | src/http1/response.rs:430-447 | the test's own message decodes, and `get_resp` gives code 201, its four headers and the body `AS` |
| Http1ResponseExamples.RespSimplePanicAsWritten | src/http1/response.rs:449-470 | the test's own message decodes but waits in `Content`, so `get_resp` gives nothing and the `unwrap` panics |
| Http1ResponseExamples.RespSimpleFragAsWritten | src/http1/response.rs:471-493 | the test's own message and `CDE` give code 201, its four headers and the content `ABCDE` |
| Http1ResponseExamples.RespChunkedFullAsWritten | src/http1/response.rs:498-520 | the test's own message gives code 201, its four headers and the content `testtest1test2` |
| Http1ResponseExamples.RespChunkedTwoPartsAsWritten | src/http1/response.rs:522-545 | the test's own message in its two parts gives the same response |
| HttpResponse.Accepted | src/http/response.rs:142-156 | the headers kept from the lines read: those the older `serialize` accepts, in the order read |
| HttpResponse.LastEncoding | src/http/response.rs:116-160 | the coding of the last `Transfer-Encoding` header read, or `None` |
| HttpResponse.ParseHeadersSpec | src/http/response.rs:87-170 | `Empty`, `InvalidFirstLine` or `InvalidHeader` as the HTTP/1.x client; else the code, the headers kept, and a decoder with the last coding and the cursor after the header block |
| HttpResponse.ChunkedDecodeSpec | src/http/response.rs:53-84 | none on a bad length; otherwise the payloads the loop copies, less their last byte |
| HttpResponse.DecodeSpec | src/http/response.rs:43-51 | chunked coding decodes from the cursor; any other coding gives the whole buffer |
| HttpResponse.NewSpec | src/http/response.rs:179-197 | the errors of `parse_headers`, `InvalidBody` when the body does not decode, else the code, the headers and the content |
| HttpResponse.DropLast | src/http/response.rs:80-81 | `pop` removes exactly the last byte, if there is one |
| HttpResponse.ParseHeaders | src/http/response.rs:87-170 | the result is `ParseHeadersSpec`: the status-line error, or `InvalidHeader`, or the code, the headers kept, and a decoder with the last coding and the cursor after the header block |
| HttpResponse.ReadHeaders | src/http/response.rs:116-160 | the header loop consumes what `ScanLines` consumes, keeps the headers `serialize` accepts, in order, and the last `Transfer-Encoding` coding |
| HttpResponse.ChunkedDecode | src/http/response.rs:53-84 | the content is the payloads the loop copies, minus the last byte, or none when a length is not hexadecimal |
| HttpResponse.Decode | src/http/response.rs:43-51 | chunked coding decodes the rest after the cursor; any other coding returns the whole buffer |
| HttpResponse.NewResponse | src/http/response.rs:179-197 | the result is `NewSpec`: the header error, `InvalidBody` when the body does not decode, else the code, the headers and the content |
| HttpResponse.ChunkedDecodeTerminated | src/http/response.rs:71-83 | a terminated chunk scan gives its payload minus the last byte |
| HttpResponse.ChunkedDecodeBadLength | src/http/response.rs:66-69 | a bad chunk length gives no content |
| HttpResponse.AcceptedSnoc | src/http/response.rs:142-156 | a line `serialize` accepts adds its header at the end; a refused line adds nothing |
| HttpResponse.LastEncodingSnoc | src/http/response.rs:151-153 | a `Transfer-Encoding` header replaces the coding; any other header keeps it |
| HttpResponseProofs.AcceptedRenders | src/http/response.rs:118-160 | the header lines written for the older client's headers are read back as exactly those headers, in order |
| HttpResponseProofs.ParseHeadersMessage | src/http/response.rs:87-170 | on a whole message, `parse_headers` gives the code, the headers and a decoder over the buffer with its cursor at the body |
| HttpResponseProofs.LastEncodingIsLast | src/http/response.rs:151-153 | the coding is that of the last `Transfer-Encoding` header |
| HttpResponseProofs.LastEncodingNone | src/http/response.rs:116 | without a `Transfer-Encoding` header the coding stays `None` |
| HttpResponseProofs.NewPlain | src/http/response.rs:179-197 | without chunked or gzip coding the content is the whole message, headers included |
| HttpResponseProofs.NewChunked | src/http/response.rs:53-84 | a chunked message of records and the last chunk has the joined payloads minus the last byte as its content |
| HttpResponseProofs.ChunkedLosesLastByte | src/http/response.rs:80-81 | with one or more payloads, the content is one byte shorter than the joined payloads, and adding their last byte back gives them |
| HttpResponseProofs.ChunkScanLongRecord | src/http/response.rs:75-77 | a record whose length field is one more than its payload copies the payload and the `\r` after it |
| HttpResponseProofs.NewLongLast | src/http/response.rs:53-84 | records ended by such an over-long record and the last chunk give exactly the joined payloads |
| HttpResponseProofs.NewNoCR | src/http/response.rs:93-94 | a buffer with no `\r` is `Empty` |
| HttpResponseProofs.NewBadStatusCode | src/http/response.rs:100-108 | a status code that does not parse is `InvalidFirstLine` |
| HttpResponseProofs.NewBadHeaderLine | src/http/response.rs:128-133 | a header line that is not UTF-8 is `InvalidHeader` |
| HttpResponseProofs.NewBadChunkLength | src/http/response.rs:187-188 | a chunk length that is not hexadecimal is `InvalidBody` |
| HttpResponseProofs.ClientsAgree | src/http/response.rs:87-170 | the two clients' `parse_headers` succeed on the same inputs, fail with the same error, and agree on the code and the body position |
| HttpResponseExamples.ParseHeadersSimple | src/http/response.rs:206-224 | the `parse_headers_simple` message decodes to the whole buffer, since the declared length is not used |
| HttpResponseExamples.LongRecordTest2 | src/http/response.rs:237 | the test's last record `6\r\ntest2\r\n` is the over-long record of `test2` |
| HttpResponseExamples.ParseHeadersTransferEncChunked | src/http/response.rs:226-247 | the chunked test message gives the content `testtest1test2` |
| HttpResponseExamples.SimpleHeadersAgree | src/http/response.rs:210-213 | the older client reads the plain test's header lines as the same headers as the HTTP/1.x client |
| HttpResponseExamples.ChunkedHeadersAgree | src/http/response.rs:230-233 | the older client reads the chunked test's header lines as the same headers as the HTTP/1.x client |
| HttpResponseExamples.ParseHeadersSimpleAsWritten | src/http/response.rs:206-224 | the test's own message gives code 201, its four headers and the whole buffer as content |
| HttpResponseExamples.ParseHeadersTransferEncChunkedAsWritten | src/http/response.rs:226-247 | the test's own message gives code 201, its four headers and the content `testtest1test2` |

## Left out

- Sockets, TLS and the `BufRead` plumbing are left out. The bytes of each call are a parameter, and the cursor is a position in them.
- The `Gzip` and `GzipChunked` arms are `todo!()`. `Decodable` excludes them, like every other panic.
- The `Upgrade` arm of `parse_headers` is left out. It names a header kind that the `Header` enum does not have, so it cannot be reached.
- `dbg!` output, `VEC_PREALLOC` and the vectors' capacities are left out. They do not change any value.
- The text carried by `InvalidHeader`, `InvalidFirstLine` and `InvalidBody` is left out. `HttpResErr` keeps only its kind.
- `state_mut` is modelled only through its one use, which changes nothing. The snapshot fields are kept but nothing sets them, as in the source.
- `Response`'s accessors `code`, `headers` and `content` are plain fields of the datatype.
- `poll_response` returns an `Option`: `Some` is `Poll::Ready` and `None` is `Poll::Pending`.
- A header line split across two `decode` calls is read as in the source (the loop stops where the bytes end). No lemma covers resuming it.
- Wire.ChunkScanRecords: proved only for payloads shorter than 16 bytes (one hex digit of length). For longer payloads the source's slice `buf[index+2..len+3]` either cuts the payload or panics. `Wire.ChunkScanRecord` states that cut for any length.
- Http1ResponseExamples.RespSimple, RespSimplePanic, RespSimpleFrag, RespChunkedFull and RespChunkedTwoParts, and HttpResponseExamples.ParseHeadersSimple and ParseHeadersTransferEncChunked, are stated for any status line with the test's code and any headers a server can send that frame the body as the test's do: the last `Content-Length` declares the test's length, the last `Transfer-Encoding` is `chunked`, or, for the older client's plain test, there is no `Transfer-Encoding`. Each test's own status line and header lines are the `...AsWritten` lemma beside it.
- `resp_simple_broken_up` in `src/http1/response.rs` is an empty test, so there is nothing to model.
- `str::from_utf8` is modelled by its acceptance. Its error values are left out.
