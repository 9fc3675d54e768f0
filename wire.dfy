/**
 * The byte-level framing shared, line for line, by both response parsers
 * (src/http1/response.rs and src/http/response.rs): the status line, the run
 * of header lines that ends at a blank line, and the chunked body. Each is a
 * function of the bytes `Cursor::fill_buf` yields at the point the parser
 * starts on it; `Cursor::consume` is `Rest`.
 */
module Wire {
  import opened Bytes

  /** `HttpResErr`; the message texts some variants carry are not modelled. */
  datatype HttpResErr = Empty | InvalidHeader | InvalidFirstLine | InvalidBody

  // ---------------------------------------------------------------------
  // The status line

  /**
   * The slices `&buf[..num + 2]` and `&line[9..12]` of the status-line
   * parse do not panic: a first `\r` sits at index 10 or later and is
   * followed by at least one more byte.
   */
  predicate StatusLineSliceable(data: Text) {
    IndexOf(data, CR).Some? ==> 12 <= IndexOf(data, CR).value + 2 <= |data|
  }

  /**
   * The status-line parse: the code is bytes 9..12 read as a `u16`, and the
   * cursor then stands two bytes past the first `\r`.
   */
  function StatusLine(data: Text): (r: Result<(u16, nat), HttpResErr>)
    requires StatusLineSliceable(data)
    ensures r == Err(Empty) <==> CR !in data
    ensures r.Ok? ==> 12 <= r.value.1 <= |data| && data[r.value.1 - 2] == CR && CR !in data[..r.value.1 - 2]
    ensures r.Ok? ==> ParseUnsigned(data[9..12], 10, U16_MAX) == Some(r.value.0 as nat)
    ensures r.Err? && r != Err(Empty) ==> r == Err(InvalidFirstLine) && ParseUnsigned(data[9..12], 10, U16_MAX).None?
  {
    match IndexOf(data, CR)
    case None => Err(Empty)
    case Some(num) =>
      var digits := data[9..12];
      ParsedIsValidUtf8(digits, 10, U16_MAX);
      if !ValidUtf8(digits) then Err(InvalidFirstLine)
      else
        match ParseUnsigned(digits, 10, U16_MAX)
        case None => Err(InvalidFirstLine)
        case Some(code) => Ok((code, num + 2))
  }

  // ---------------------------------------------------------------------
  // Header lines

  /**
   * The outcome of the header loop: the lines it read (valid UTF-8,
   * non-empty, without their `\r\n`), how far it moved the cursor, and
   * whether it stopped on a line that is not UTF-8.
   */
  datatype LineScan = LineScan(lines: seq<Text>, consumed: nat, bad: bool)

  /**
   * One turn of the header loop on the bytes `fill_buf` yields: it reads a
   * header line and consumes `skip` bytes, or it stops after consuming
   * `consumed` bytes, with an error when `bad`.
   */
  datatype LineStep = Line(line: Text, skip: nat) | StopLines(consumed: nat, bad: bool)

  /**
   * A line runs to the next `\r` and the cursor skips two bytes past it; an
   * empty line moves past its `\r\n` and ends the loop; running out of
   * bytes or of `\r` ends it where it stands; a line that is not UTF-8 ends
   * it with an error.
   */
  function LineStepOf(buf: Text): (r: LineStep)
    ensures r.Line? ==> |r.line| > 0 && CR !in r.line && ValidUtf8(r.line) && r.skip == |r.line| + 2
  {
    if |buf| == 0 then StopLines(0, false)
    else match IndexOf(buf, CR)
      case None => StopLines(0, false)
      case Some(num) =>
        var line := buf[..num];
        if !ValidUtf8(line) then StopLines(0, true)
        else if num == 0 then StopLines(2, false)
        else Line(line, num + 2)
  }

  /** The header loop on the bytes after the status line. */
  function ScanLines(buf: Text): (r: LineScan)
    ensures HeaderLines(r.lines)
    decreases |buf|
  {
    match LineStepOf(buf)
    case StopLines(consumed, bad) => LineScan([], consumed, bad)
    case Line(line, skip) =>
      var r := ScanLines(Rest(buf, skip));
      HeaderLinesCons(line, r.lines);
      LineScan([line] + r.lines, skip + r.consumed, r.bad)
  }

  /** The bytes of a header block: each line followed by `\r\n`. */
  function Lines(ls: seq<Text>): Text {
    if |ls| == 0 then [] else ls[0] + CRLF + Lines(ls[1..])
  }

  /** Lines that a header loop reads one by one: non-empty, UTF-8, no `\r`. */
  predicate HeaderLines(ls: seq<Text>) {
    forall i :: 0 <= i < |ls| ==> |ls[i]| > 0 && CR !in ls[i] && ValidUtf8(ls[i])
  }

  lemma HeaderLinesCons(line: Text, ls: seq<Text>)
    requires |line| > 0 && CR !in line && ValidUtf8(line)
    requires HeaderLines(ls)
    ensures HeaderLines([line] + ls)
  {
    var all := [line] + ls;
    forall i | 0 <= i < |all| ensures |all[i]| > 0 && CR !in all[i] && ValidUtf8(all[i]) {
      if i > 0 { assert all[i] == ls[i - 1]; }
    }
  }

  /** In `line + "\r" + tail`, with no `\r` in `line`, the first `\r` ends `line`. */
  lemma IndexOfAfterLine(line: Text, tail: Text)
    requires CR !in line
    ensures IndexOf(line + [CR] + tail, CR) == Some(|line|)
  {
    var s := line + [CR] + tail;
    assert s[|line|] == CR;
    forall j | 0 <= j < |line| ensures s[j] != CR {
      assert s[j] == line[j];
    }
  }

  /** One header line: it is read, and the loop goes on two bytes past its `\r`. */
  lemma LineStepOfLine(l: Text, tail: Text)
    requires |l| > 0 && CR !in l && ValidUtf8(l)
    ensures LineStepOf(l + CRLF + tail) == Line(l, |l| + 2)
    ensures Rest(l + CRLF + tail, |l| + 2) == tail
  {
    var buf := l + CRLF + tail;
    assert buf == l + [CR] + ([LF] + tail);
    IndexOfAfterLine(l, [LF] + tail);
    PrefixOfAppend(l, CRLF + tail, |l|);
    AppendAssoc(l, CRLF, tail);
    assert l[..|l|] == l;
    RestAfter(l + CRLF, tail);
  }

  lemma HeaderLinesTail(ls: seq<Text>)
    requires HeaderLines(ls) && |ls| > 0
    ensures HeaderLines(ls[1..])
  {
    forall i | 0 <= i < |ls| - 1 ensures |ls[1..][i]| > 0 && CR !in ls[1..][i] && ValidUtf8(ls[1..][i]) {
      assert ls[1..][i] == ls[i + 1];
    }
  }

  /**
   * A block of well-formed header lines is read line for line: the loop then
   * goes on with whatever follows the block.
   */
  lemma {:induction false} ScanLinesPrefix(ls: seq<Text>, tail: Text)
    requires HeaderLines(ls)
    ensures var r := ScanLines(tail);
      ScanLines(Lines(ls) + tail) == LineScan(ls + r.lines, |Lines(ls)| + r.consumed, r.bad)
    decreases |ls|
  {
    var r := ScanLines(tail);
    if |ls| == 0 {
      assert Lines(ls) + tail == tail;
      assert ls + r.lines == r.lines;
    } else {
      var l := ls[0];
      var more := Lines(ls[1..]) + tail;
      assert Lines(ls) == (l + CRLF) + Lines(ls[1..]);
      AppendAssoc(l + CRLF, Lines(ls[1..]), tail);
      LineStepOfLine(l, more);
      HeaderLinesTail(ls);
      ScanLinesPrefix(ls[1..], tail);
      ConsAppend(ls, r.lines);
    }
  }

  lemma ConsAppend<T>(a: seq<T>, b: seq<T>)
    requires |a| > 0
    ensures [a[0]] + (a[1..] + b) == a + b
  {
    assert a == [a[0]] + a[1..];
  }

  /** The blank line ends the loop two bytes past its `\r`. */
  lemma ScanLinesBlank(body: Text)
    ensures ScanLines(CRLF + body) == LineScan([], 2, false)
  {
    var buf := CRLF + body;
    assert buf == [] + [CR] + ([LF] + body);
    IndexOfAfterLine([], [LF] + body);
    assert buf[..0] == [];
    assert ValidUtf8([]);
  }

  /**
   * A block of well-formed header lines closed by a blank line is read back
   * line for line, and the cursor stops just after the blank line, whatever
   * follows it.
   */
  lemma ScanLinesBlock(ls: seq<Text>, body: Text)
    requires HeaderLines(ls)
    ensures ScanLines(Lines(ls) + CRLF + body) == LineScan(ls, |Lines(ls)| + 2, false)
  {
    AppendAssoc(Lines(ls), CRLF, body);
    ScanLinesPrefix(ls, CRLF + body);
    ScanLinesBlank(body);
    assert ls + [] == ls;
  }

  /** A line that is not UTF-8 stops the loop with an error, after the lines before it. */
  lemma ScanLinesBadLine(ls: seq<Text>, bad: Text, rest: Text)
    requires HeaderLines(ls)
    requires CR !in bad && !ValidUtf8(bad)
    ensures ScanLines(Lines(ls) + (bad + [CR] + rest)) == LineScan(ls, |Lines(ls)|, true)
  {
    var tail := bad + [CR] + rest;
    IndexOfAfterLine(bad, rest);
    assert tail[..|bad|] == bad;
    assert ScanLines(tail) == LineScan([], 0, true);
    ScanLinesPrefix(ls, tail);
    assert ls + [] == ls;
  }

  // ---------------------------------------------------------------------
  // Chunked bodies

  /**
   * How a chunk loop ends: the bytes ran out, no `\r` was left, a line
   * starting with `\r` or a zero length was met, or a length field was not
   * hexadecimal.
   */
  datatype ChunkEnd = Exhausted | NoCR | Terminated | BadLength

  /**
   * One turn of the chunk loop on the bytes `fill_buf` yields: it stops, or
   * takes a payload and consumes `skip` bytes, or its payload slice
   * `&buf[index + 2..len + 3]` would panic.
   */
  datatype ChunkStep = Stop(end: ChunkEnd) | Take(payload: Text, skip: nat) | OutOfBounds

  /**
   * A record is a hexadecimal length up to the first `\r`; its payload is
   * taken as `buf[index + 2..len + 3]` and the cursor then skips
   * `index + len + 4` bytes. With a one-digit length (`index == 1`) that is
   * exactly `len` payload bytes and the whole record.
   */
  function ChunkStepOf(buf: Text): (r: ChunkStep)
    ensures r.Take? ==> 0 < |buf| && 0 < r.skip
  {
    if |buf| == 0 then Stop(Exhausted)
    else match IndexOf(buf, CR)
      case None => Stop(NoCR)
      case Some(index) =>
        if index == 0 then Stop(Terminated)
        else match StrToUsize(buf[..index])
          case None => Stop(BadLength)
          case Some(len) =>
            if len == 0 then Stop(Terminated)
            else if index + 2 <= len + 3 <= |buf| then Take(buf[index + 2..len + 3], index + len + 4)
            else OutOfBounds
  }

  /** No turn of the chunk loop panics on its payload slice. */
  predicate ChunksInBounds(buf: Text)
    decreases |buf|
  {
    match ChunkStepOf(buf)
    case Stop(_) => true
    case Take(_, skip) => ChunksInBounds(Rest(buf, skip))
    case OutOfBounds => false
  }

  datatype ChunkScanResult = ChunkScanResult(payload: Text, end: ChunkEnd)

  /** The chunk loop: the payloads it takes, in order, and how it ends. */
  function ChunkScan(buf: Text): (r: ChunkScanResult)
    requires ChunksInBounds(buf)
    decreases |buf|
  {
    match ChunkStepOf(buf)
    case Stop(e) => ChunkScanResult([], e)
    case Take(p, skip) =>
      var rest := ChunkScan(Rest(buf, skip));
      ChunkScanResult(p + rest.payload, rest.end)
  }

  /** A chunk record as a server writes it: hexadecimal length, `\r\n`, payload, `\r\n`. */
  function Record(p: Text): (r: Text)
    requires |p| > 0
    ensures |r| == |Digits(|p|, 16)| + |p| + 4
  {
    Digits(|p|, 16) + CRLF + p + CRLF
  }

  /** Chunks whose length is written with one hexadecimal digit. */
  predicate SmallChunks(ps: seq<Text>) {
    forall i :: 0 <= i < |ps| ==> 0 < |ps[i]| < 16
  }

  function Records(ps: seq<Text>): Text
    requires SmallChunks(ps)
  {
    if |ps| == 0 then [] else Record(ps[0]) + Records(ps[1..])
  }

  function Concat(ps: seq<Text>): Text {
    if |ps| == 0 then [] else ps[0] + Concat(ps[1..])
  }

  /** The last chunk: a zero length and the blank line that closes the body. */
  const LAST_CHUNK: Text := "0\r\n\r\n"

  lemma DigitsHaveNoCR(n: nat, radix: nat)
    requires 2 <= radix <= 36
    ensures CR !in Digits(n, radix)
  {
    var ds := Digits(n, radix);
    DigitsValueOfDigits(n, radix);
    DigitsValueAllDigits(ds, radix);
    forall i | 0 <= i < |ds| ensures ds[i] != CR {
      assert DigitValue(ds[i], radix).Some?;
    }
  }

  /** A length is written with at most as many digits as its value. */
  lemma {:induction false} DigitsShort(n: nat, radix: nat)
    requires 2 <= radix <= 36 && n > 0
    ensures |Digits(n, radix)| <= n
    decreases n
  {
    if n >= radix {
      DivMod(n, radix);
      DigitsShort(n / radix, radix);
    }
  }

  /**
   * How the chunk loop reads one record as a server writes it: the length is
   * read back, the cursor moves past the whole record, and the payload taken
   * is the record's payload short of its last `k - 1` bytes, where `k` is the
   * number of digits in the length.
   */
  lemma ChunkScanRecord(p: Text, tail: Text)
    requires 0 < |p| <= USIZE_MAX
    requires ChunksInBounds(tail)
    ensures |Digits(|p|, 16)| <= |p|
    ensures ChunksInBounds(Record(p) + tail)
    ensures ChunkScan(Record(p) + tail) ==
      ChunkScanResult(p[..|p| + 1 - |Digits(|p|, 16)|] + ChunkScan(tail).payload, ChunkScan(tail).end)
  {
    RecordLength(p);
    RecordFirstCR(p, tail);
    RecordLengthField(p, tail);
    RecordPayload(p, tail);
    var k := |Digits(|p|, 16)|;
    var buf := Record(p) + tail;
    assert ChunkStepOf(buf) == Take(p[..|p| + 1 - k], k + |p| + 4);
    assert ChunksInBounds(buf);
    hide *;
    ChunkScanTakeUnfold(buf, p[..|p| + 1 - k], k + |p| + 4);
  }

  lemma RecordLength(p: Text)
    requires |p| > 0
    ensures |Digits(|p|, 16)| <= |p|
  {
    DigitsShort(|p|, 16);
  }

  lemma RecordFirstCR(p: Text, tail: Text)
    requires |p| > 0
    ensures IndexOf(Record(p) + tail, CR) == Some(|Digits(|p|, 16)|)
  {
    var ds := Digits(|p|, 16);
    assert Record(p) + tail == ds + [CR] + ([LF] + p + CRLF + tail);
    DigitsHaveNoCR(|p|, 16);
    IndexOfAfterLine(ds, [LF] + p + CRLF + tail);
  }

  lemma RecordLengthField(p: Text, tail: Text)
    requires 0 < |p| <= USIZE_MAX
    ensures StrToUsize((Record(p) + tail)[..|Digits(|p|, 16)|]) == Some(|p|)
  {
    var ds := Digits(|p|, 16);
    assert (Record(p) + tail)[..|ds|] == ds;
    ParseDigits(|p|, 16, USIZE_MAX);
    StrToUsizeIsHexParse(ds);
  }

  lemma RecordPayload(p: Text, tail: Text)
    requires |p| > 0 && |Digits(|p|, 16)| <= |p|
    ensures var k := |Digits(|p|, 16)|;
      && (Record(p) + tail)[k + 2..|p| + 3] == p[..|p| + 1 - k]
      && Rest(Record(p) + tail, k + |p| + 4) == tail
  {
    var k := |Digits(|p|, 16)|;
    var head := Digits(|p|, 16) + CRLF;
    assert Record(p) == head + p + CRLF;
    AppendAssoc(head + p, CRLF, tail);
    AppendAssoc(head, p, CRLF + tail);
    SliceAfter(head, p + (CRLF + tail), k + 2, |p| + 3);
    assert (p + (CRLF + tail))[0..|p| + 1 - k] == (p + (CRLF + tail))[..|p| + 1 - k];
    PrefixOfAppend(p, CRLF + tail, |p| + 1 - k);
    RestAfter(Record(p), tail);
  }

  lemma OneDigit(n: nat, radix: nat)
    requires 2 <= radix <= 36 && n < radix
    ensures |Digits(n, radix)| == 1
  {
  }

  /** With a one-digit length the record's payload is read whole. */
  lemma ChunkScanSmallRecord(p: Text, tail: Text)
    requires 0 < |p| < 16
    requires ChunksInBounds(tail)
    ensures ChunksInBounds(Record(p) + tail)
    ensures ChunkScan(Record(p) + tail) == ChunkScanResult(p + ChunkScan(tail).payload, ChunkScan(tail).end)
  {
    ChunkScanRecord(p, tail);
    OneDigit(|p|, 16);
    assert p[..|p| + 1 - |Digits(|p|, 16)|] == p;
  }

  /** A run of one-digit records is read as the concatenation of their payloads. */
  lemma {:induction false} ChunkScanRecords(ps: seq<Text>, tail: Text)
    requires SmallChunks(ps)
    requires ChunksInBounds(tail)
    ensures ChunksInBounds(Records(ps) + tail)
    ensures ChunkScan(Records(ps) + tail) == ChunkScanResult(Concat(ps) + ChunkScan(tail).payload, ChunkScan(tail).end)
    decreases |ps|
  {
    if |ps| == 0 {
      assert Records(ps) + tail == tail;
    } else {
      var rest := Records(ps[1..]) + tail;
      assert SmallChunks(ps[1..]) by {
        forall i | 0 <= i < |ps| - 1 ensures 0 < |ps[1..][i]| < 16 { assert ps[1..][i] == ps[i + 1]; }
      }
      RecordsCons(ps, tail);
      ChunkScanRecords(ps[1..], tail);
      ChunkScanSmallRecord(ps[0], rest);
    }
  }

  lemma RecordsCons(ps: seq<Text>, tail: Text)
    requires SmallChunks(ps) && |ps| > 0
    requires SmallChunks(ps[1..])
    ensures Records(ps) + tail == Record(ps[0]) + (Records(ps[1..]) + tail)
    ensures forall t: Text :: Concat(ps) + t == ps[0] + (Concat(ps[1..]) + t)
  {
    assert Records(ps) == Record(ps[0]) + Records(ps[1..]);
    AppendAssoc(Record(ps[0]), Records(ps[1..]), tail);
    assert Concat(ps) == ps[0] + Concat(ps[1..]);
    forall t: Text ensures Concat(ps) + t == ps[0] + (Concat(ps[1..]) + t) {
      AppendAssoc(ps[0], Concat(ps[1..]), t);
    }
  }

  /** The last chunk ends the loop, whatever follows it. */
  lemma LastChunkTerminates(tail: Text)
    ensures ChunksInBounds(LAST_CHUNK + tail)
    ensures ChunkScan(LAST_CHUNK + tail) == ChunkScanResult([], Terminated)
  {
    var buf := LAST_CHUNK + tail;
    assert buf == "0" + [CR] + ("\n\r\n" + tail);
    IndexOfAfterLine("0", "\n\r\n" + tail);
    assert buf[..1] == "0";
    ParseDigits(0, 16, USIZE_MAX);
    StrToUsizeIsHexParse("0");
    assert Digits(0, 16) == "0";
  }

  /** A length field that is not a hexadecimal `usize` ends the loop with an error. */
  lemma BadLengthRefused(field: Text, tail: Text)
    requires |field| > 0 && CR !in field
    requires ParseUnsigned(field, 16, USIZE_MAX).None?
    ensures ChunksInBounds(field + [CR] + tail)
    ensures ChunkScan(field + [CR] + tail) == ChunkScanResult([], BadLength)
  {
    var buf := field + [CR] + tail;
    IndexOfAfterLine(field, tail);
    assert buf[..|field|] == field;
    StrToUsizeIsHexParse(field);
  }

  // ---------------------------------------------------------------------
  // The loops of both clients: status line, header lines, chunks

  /**
   * The status-line part of `parse_headers`: the line up to the first `\r`
   * and its `\n`, whose bytes 9..12 are read as the code.
   */
  method ReadStatusLine(data: Text) returns (r: Result<(u16, nat), HttpResErr>)
    requires StatusLineSliceable(data)
    ensures r == StatusLine(data)
  {
    var idx := IndexOf(data, CR);
    if idx.None? {
      return Err(Empty);
    }
    var num := idx.value;
    var line := data[..num + 2];
    var digits := line[9..12];
    assert digits == data[9..12];
    if !ValidUtf8(digits) {
      return Err(InvalidFirstLine);
    }
    var parsed := ParseUnsigned(digits, 10, U16_MAX);
    if parsed.None? {
      return Err(InvalidFirstLine);
    }
    return Ok((parsed.value, num + 2));
  }

  /** The record a turn of the chunk loop takes once it has read a non-zero length. */
  lemma ChunkStepTake(buf: Text, index: nat, len: nat)
    requires ChunksInBounds(buf) && |buf| > 0
    requires IndexOf(buf, CR) == Some(index) && index > 0
    requires StrToUsize(buf[..index]) == Some(len) && len > 0
    ensures index + 2 <= len + 3 <= |buf|
    ensures ChunkStepOf(buf) == Take(buf[index + 2..len + 3], index + len + 4)
  {
  }

  /** Before its first turn the header loop has read nothing. */
  lemma LinesFromStart(data: Text, start: nat)
    ensures LinesFrom(data, start, start, [])
  {
    assert [] + ScanLines(Rest(data, start)).lines == ScanLines(Rest(data, start)).lines;
  }

  /**
   * The header loop, started at `start`, has read the lines `seen` and
   * stands at `pos`: what is left of its outcome is the loop from `pos`.
   */
  ghost predicate LinesFrom(data: Text, start: nat, pos: nat, seen: seq<Text>) {
    && start <= pos
    && var sc := ScanLines(Rest(data, pos));
       ScanLines(Rest(data, start)) == LineScan(seen + sc.lines, pos - start + sc.consumed, sc.bad)
  }

  /** The header loop stops at `pos` after `consumed` more bytes. */
  lemma LineLoopStop(data: Text, start: nat, pos: nat, seen: seq<Text>, consumed: nat, bad: bool)
    requires LinesFrom(data, start, pos, seen)
    requires LineStepOf(Rest(data, pos)) == StopLines(consumed, bad)
    ensures ScanLines(Rest(data, start)) == LineScan(seen, pos + consumed - start, bad)
  {
    assert seen + [] == seen;
  }

  /** One header line of the loop: it joins the lines read, and the loop goes on at `next`. */
  lemma LineLoopStep(data: Text, start: nat, pos: nat, seen: seq<Text>, n: nat, next: nat)
    requires LinesFrom(data, start, pos, seen)
    requires |Rest(data, pos)| > 0 && IndexOf(Rest(data, pos), CR) == Some(n)
    requires ValidUtf8(Rest(data, pos)[..n]) && n > 0
    requires next == pos + n + 2
    ensures |Rest(data, next)| < |Rest(data, pos)|
    ensures LinesFrom(data, start, next, seen + [Rest(data, pos)[..n]])
  {
    ScanAtLine(data, pos, n, next);
    LineScanShift(ScanLines(Rest(data, start)), seen, ScanLines(Rest(data, pos)), ScanLines(Rest(data, next)),
      Rest(data, pos)[..n], pos - start, n + 2);
  }

  /** The header loop at `pos`, when it reads a line, is that line and the loop at `next`. */
  lemma ScanAtLine(data: Text, pos: nat, n: nat, next: nat)
    requires |Rest(data, pos)| > 0 && IndexOf(Rest(data, pos), CR) == Some(n)
    requires ValidUtf8(Rest(data, pos)[..n]) && n > 0
    requires next == pos + n + 2
    ensures |Rest(data, next)| < |Rest(data, pos)|
    ensures var sc' := ScanLines(Rest(data, next));
      ScanLines(Rest(data, pos)) == LineScan([Rest(data, pos)[..n]] + sc'.lines, n + 2 + sc'.consumed, sc'.bad)
  {
    var buf := Rest(data, pos);
    LineStepRead(buf, n);
    ScanLinesStepped(buf, buf[..n], n + 2);
    RestRest(data, pos, n + 2);
    assert Rest(data, next) == Rest(buf, n + 2);
  }

  lemma LineScanShift(total: LineScan, seen: seq<Text>, sc: LineScan, sc': LineScan, line: Text, done: nat, skip: nat)
    requires total == LineScan(seen + sc.lines, done + sc.consumed, sc.bad)
    requires sc == LineScan([line] + sc'.lines, skip + sc'.consumed, sc'.bad)
    ensures total == LineScan((seen + [line]) + sc'.lines, done + skip + sc'.consumed, sc'.bad)
  {
    assert seen + ([line] + sc'.lines) == (seen + [line]) + sc'.lines;
  }

  /** The header loop stops without consuming when the bytes or the `\r`s run out. */
  lemma LineStepEnd(buf: Text)
    requires |buf| == 0 || IndexOf(buf, CR).None?
    ensures LineStepOf(buf) == StopLines(0, false)
  {
  }

  /** The header loop stops on a line that is not UTF-8. */
  lemma LineStepBad(buf: Text, n: nat)
    requires |buf| > 0 && IndexOf(buf, CR) == Some(n) && !ValidUtf8(buf[..n])
    ensures LineStepOf(buf) == StopLines(0, true)
  {
  }

  /** The header loop stops after the blank line, consuming its `\r\n`. */
  lemma LineStepBlank(buf: Text)
    requires |buf| > 0 && IndexOf(buf, CR) == Some(0)
    ensures LineStepOf(buf) == StopLines(2, false)
  {
  }

  /** A turn of the header loop that finds a non-empty UTF-8 line reads it. */
  lemma LineStepRead(buf: Text, n: nat)
    requires |buf| > 0 && IndexOf(buf, CR) == Some(n)
    requires ValidUtf8(buf[..n]) && n > 0
    ensures LineStepOf(buf) == Line(buf[..n], n + 2)
  {
  }

  lemma ScanLinesStepped(buf: Text, line: Text, skip: nat)
    requires LineStepOf(buf) == Line(line, skip)
    ensures var sc := ScanLines(Rest(buf, skip));
      ScanLines(buf) == LineScan([line] + sc.lines, skip + sc.consumed, sc.bad)
  {
  }

  /** The outcome of a chunk loop that has taken `content` and goes on with `buf`. */
  function ScanFrom(content: Text, buf: Text): ChunkScanResult
    requires ChunksInBounds(buf)
  {
    ChunkScanResult(content + ChunkScan(buf).payload, ChunkScan(buf).end)
  }

  /**
   * A turn of the chunk loop that stops with `end` takes nothing more, and
   * the loop's outcome is what it has taken, with that end.
   */
  lemma ChunkScanStop(content: Text, buf: Text, end: ChunkEnd)
    requires |buf| == 0 ==> end == Exhausted
    requires |buf| > 0 ==>
      match IndexOf(buf, CR)
      case None => end == NoCR
      case Some(index) =>
        if index == 0 then end == Terminated
        else match StrToUsize(buf[..index])
          case None => end == BadLength
          case Some(len) => len == 0 && end == Terminated
    ensures ChunksInBounds(buf) && ScanFrom(content, buf) == ChunkScanResult(content, end)
  {
    assert ChunkStepOf(buf) == Stop(end);
    assert content + [] == content;
  }

  /** The chunk loop's outcome after a turn that takes a payload `p` and skips `skip` bytes. */
  lemma ChunkScanTakeUnfold(buf: Text, p: Text, skip: nat)
    requires ChunksInBounds(buf) && ChunkStepOf(buf) == Take(p, skip)
    ensures ChunksInBounds(Rest(buf, skip))
    ensures ChunkScan(buf) == ChunkScanResult(p + ChunkScan(Rest(buf, skip)).payload, ChunkScan(Rest(buf, skip)).end)
  {
    hide ChunkStepOf;
  }

  /**
   * A turn of the chunk loop at `pos` that reads a non-zero length takes
   * that record's payload, and the loop goes on at `next`, after the record.
   */
  lemma ChunkScanAdvance(content: Text, data: Text, pos: nat, index: nat, len: nat, next: nat)
    requires ChunksInBounds(Rest(data, pos)) && |Rest(data, pos)| > 0
    requires IndexOf(Rest(data, pos), CR) == Some(index) && index > 0
    requires StrToUsize(Rest(data, pos)[..index]) == Some(len) && len > 0
    requires next == pos + index + len + 4
    ensures index + 2 <= len + 3 <= |Rest(data, pos)|
    ensures |Rest(data, next)| < |Rest(data, pos)|
    ensures ChunksInBounds(Rest(data, next))
    ensures ScanFrom(content, Rest(data, pos)) == ScanFrom(content + Rest(data, pos)[index + 2..len + 3], Rest(data, next))
  {
    var buf := Rest(data, pos);
    var skip := index + len + 4;
    var p := buf[index + 2..len + 3];
    ChunkStepTake(buf, index, len);
    RestRest(data, pos, skip);
    assert Rest(data, next) == Rest(buf, skip);
    hide *;
    ChunkScanTakeUnfold(buf, p, skip);
    AppendAssoc(content, p, ChunkScan(Rest(buf, skip)).payload);
  }
}
