/**
 * The header-line recognisers of the HTTP/1.x client (src/http1/headers.rs):
 * total classification of a `Name: value` line into a closed set of header
 * kinds, with a fallback kind that keeps any other header as its name and
 * value text.
 */
module Http1Headers {
  import opened Bytes

  const JPG_ALIAS: Text := "image/jpg"

  datatype MimeType = AppJson | TextPlain | TextHtml | ImagePng | ImageJpeg | ImageGif | Unimplemented
  {
    /**
     * `MimeType::recognize`: exact, case-sensitive match against the table;
     * "image/jpg" is a second spelling of `ImageJpeg`.
     */
    static function Recognize(line: Text): (m: MimeType)
      ensures m != MimeType.Unimplemented ==> line == m.Name() || (m == ImageJpeg && line == JPG_ALIAS)
      ensures line == JPG_ALIAS ==> m == ImageJpeg
    {
      if line == "application/json" then AppJson
      else if line == "text/plain" then TextPlain
      else if line == "text/html" then TextHtml
      else if line == "image/png" then ImagePng
      else if line == "image/jpeg" then ImageJpeg
      else if line == JPG_ALIAS then ImageJpeg
      else if line == "image/gif" then ImageGif
      else MimeType.Unimplemented
    }

    /** The text that names this type (nothing names `Unimplemented`). */
    function Name(): Text {
      match this
      case AppJson => "application/json"
      case TextPlain => "text/plain"
      case TextHtml => "text/html"
      case ImagePng => "image/png"
      case ImageJpeg => "image/jpeg"
      case ImageGif => "image/gif"
      case Unimplemented => []
    }
  }

  /** Every type is recognised from its own name. */
  lemma MimeRecognizeName(m: MimeType)
    ensures MimeType.Recognize(m.Name()) == m
  {
  }

  datatype ConnectionState = Close | KeepAlive
  {
    /** `ConnectionState::recognize`: anything but exactly "close" keeps the connection alive. */
    static function Recognize(line: Text): (c: ConnectionState)
      ensures c == Close <==> line == Close.Name()
    {
      if line == "close" then Close else KeepAlive
    }

    function Name(): Text {
      match this
      case Close => "close"
      case KeepAlive => "keep-alive"
    }
  }

  lemma ConnectionRecognizeName(c: ConnectionState)
    ensures ConnectionState.Recognize(c.Name()) == c
  {
  }

  datatype TrfrEncodingType = Gzip | Chunked | Deflate | GzipChunked | DeflateChunked | None | Unknown
  {
    /**
     * `TrfrEncodingType::recognize`: the two orders of a combined coding are
     * the same coding; anything else is `Unknown`, never `None` (which only
     * stands for "no Transfer-Encoding header").
     */
    static function Recognize(line: Text): (t: TrfrEncodingType)
      ensures t != TrfrEncodingType.None
      ensures t != Unknown ==> line == t.Name() || line == t.SwappedName()
    {
      if line == "gzip" then Gzip
      else if line == "chunked" then Chunked
      else if line == "deflate" then Deflate
      else if line == "gzip, chunked" || line == "chunked, gzip" then GzipChunked
      else if line == "deflate, chunked" || line == "chunked, deflate" then DeflateChunked
      else Unknown
    }

    /** The text that names this coding (nothing names `None` or `Unknown`). */
    function Name(): Text {
      match this
      case Gzip => "gzip"
      case Chunked => "chunked"
      case Deflate => "deflate"
      case GzipChunked => "gzip, chunked"
      case DeflateChunked => "deflate, chunked"
      case None => []
      case Unknown => []
    }

    /** The other order of a combined coding's name. */
    function SwappedName(): Text {
      match this
      case GzipChunked => "chunked, gzip"
      case DeflateChunked => "chunked, deflate"
      case _ => Name()
    }
  }

  /** Every coding but `None` is recognised from either spelling of its name. */
  lemma TrfrRecognizeName(t: TrfrEncodingType)
    requires t != TrfrEncodingType.None
    ensures TrfrEncodingType.Recognize(t.Name()) == t
    ensures TrfrEncodingType.Recognize(t.SwappedName()) == t
  {
  }

  const CONTENT_LENGTH: Text := "Content-Length"
  const CONTENT_TYPE: Text := "Content-Type"
  const CONTENT_ENCODING: Text := "Content-Encoding"
  const CONTENT_LANGUAGE: Text := "Content-Language"
  const TRANSFER_ENCODING: Text := "Transfer-Encoding"
  const CONNECTION: Text := "Connection"

  predicate IsKnownName(name: Text) {
    name in [CONTENT_LENGTH, CONTENT_TYPE, CONTENT_ENCODING, CONTENT_LANGUAGE, TRANSFER_ENCODING, CONNECTION]
  }

  const INVALID_HEADER: string := "invalid header"
  const INVALID_LENGTH: string := "value couldn't be parsed as an integer for Content-Length"

  datatype Header =
    | ContentLength(len: usize)
    | ContentType(mime: MimeType)
    | ContentEncoding(encoding: Text)
    | ContentLanguage(language: Text)
    | TransferEncoding(tr: TrfrEncodingType)
    | Connection(state: ConnectionState)
    | Unimplemented(name: Text, value: Text)
  {
    /**
     * `Header::serialize`: split the line on ": ", keep the first two
     * pieces, and classify by the (case-sensitive) name.
     */
    static function Serialize(line: Text): Result<Header, string> {
      match SplitFirstTwo(line)
      case None => Err(INVALID_HEADER)
      case Some((name, value)) => Classify(name, value)
    }

    /** The classification by name once the line is split. */
    static function Classify(name: Text, value: Text): Result<Header, string> {
      if name == CONTENT_LENGTH then
        match ParseUsize(value)
        case None => Err(INVALID_LENGTH)
        case Some(n) => Ok(ContentLength(n))
      else if name == CONTENT_TYPE then Ok(ContentType(MimeType.Recognize(value)))
      else if name == CONTENT_ENCODING then Ok(ContentEncoding(value))
      else if name == CONTENT_LANGUAGE then Ok(ContentLanguage(value))
      else if name == TRANSFER_ENCODING then Ok(TransferEncoding(TrfrEncodingType.Recognize(value)))
      else if name == CONNECTION then Ok(Connection(ConnectionState.Recognize(value)))
      else Ok(Header.Unimplemented(name, value))
    }

    /** The name and value text this header is written with. */
    function Parts(): (Text, Text) {
      match this
      case ContentLength(n) => (CONTENT_LENGTH, Digits(n, 10))
      case ContentType(m) => (CONTENT_TYPE, m.Name())
      case ContentEncoding(v) => (CONTENT_ENCODING, v)
      case ContentLanguage(v) => (CONTENT_LANGUAGE, v)
      case TransferEncoding(t) => (TRANSFER_ENCODING, t.Name())
      case Connection(c) => (CONNECTION, c.Name())
      case Unimplemented(n, v) => (n, v)
    }

    /** The header line this header is written as. */
    function Render(): Text {
      Parts().0 + SEP + Parts().1
    }

    /** The headers that some header line reads back as. */
    predicate WellFormed() {
      match this
      case ContentEncoding(v) => NoSep(v)
      case ContentLanguage(v) => NoSep(v)
      case TransferEncoding(t) => t != TrfrEncodingType.None
      case Unimplemented(n, v) => NoSep(n) && NoSep(v) && !IsKnownName(n)
      case _ => true
    }
  }

  /** Text without a ':' holds no separator. */
  lemma NoColonNoSep(s: Text)
    requires ':' !in s
    ensures NoSep(s)
  {
    forall j: nat ensures !OccursAt(s, SEP, j) {
      if j + |SEP| <= |s| {
        assert s[j..j + |SEP|][0] == s[j];
      }
    }
  }

  lemma KnownNameHasNoSep(name: Text)
    requires IsKnownName(name)
    ensures NoSep(name)
  {
    assert ':' !in name;
    NoColonNoSep(name);
  }

  lemma DecimalHasNoSep(n: nat)
    ensures NoSep(Digits(n, 10))
  {
    DigitsValueOfDigits(n, 10);
    DigitsValueAllDigits(Digits(n, 10), 10);
    NoColonNoSep(Digits(n, 10));
  }

  /** The parts of a well-formed header hold no separator. */
  lemma PartsHaveNoSep(h: Header)
    requires h.WellFormed()
    ensures NoSep(h.Parts().0) && NoSep(h.Parts().1)
  {
    var (name, value) := h.Parts();
    if !h.Unimplemented? {
      assert IsKnownName(name);
      KnownNameHasNoSep(name);
    }
    match h
    case ContentLength(n) => DecimalHasNoSep(n);
    case ContentType(m) => assert ':' !in value; NoColonNoSep(value);
    case TransferEncoding(t) => assert ':' !in value; NoColonNoSep(value);
    case Connection(c) => assert ':' !in value; NoColonNoSep(value);
    case _ =>
  }

  /** The parts of a well-formed header classify back to it. */
  lemma ClassifyParts(h: Header)
    requires h.WellFormed()
    ensures Header.Classify(h.Parts().0, h.Parts().1) == Ok(h)
  {
    match h
    case ContentLength(n) => ParseDigits(n, 10, USIZE_MAX);
    case ContentType(m) => MimeRecognizeName(m);
    case TransferEncoding(t) => TrfrRecognizeName(t);
    case Connection(c) => ConnectionRecognizeName(c);
    case _ =>
  }

  /** Writing a header and reading it back gives the same header. */
  lemma SerializeRender(h: Header)
    requires h.WellFormed()
    ensures Header.Serialize(h.Render()) == Ok(h)
  {
    PartsHaveNoSep(h);
    ClassifyParts(h);
    SplitJoin(h.Parts().0, h.Parts().1);
  }

  /** A line is refused as "invalid header" exactly when it has no ": ". */
  lemma SerializeNeedsSeparator(line: Text)
    ensures Header.Serialize(line) == Err(INVALID_HEADER) <==> NoSep(line)
  {
    SplitFirstTwoParts(line);
  }

  /**
   * A Content-Length line is accepted exactly when its value is a decimal
   * `usize` (with an optional '+'), and then carries that value.
   */
  lemma SerializeContentLength(value: Text)
    requires NoSep(value)
    ensures var r := Header.Serialize(CONTENT_LENGTH + SEP + value);
      && (r.Ok? <==> ParseUnsigned(value, 10, USIZE_MAX).Some?)
      && (r.Ok? ==> r.value == ContentLength(ParseUnsigned(value, 10, USIZE_MAX).value))
      && (r.Err? ==> r.error == INVALID_LENGTH)
  {
    KnownNameHasNoSep(CONTENT_LENGTH);
    SplitJoin(CONTENT_LENGTH, value);
  }

  /**
   * Any other name, including a recognised name spelled in another case, is
   * kept with its value text, unchanged.
   */
  lemma SerializeFallback(name: Text, value: Text)
    requires NoSep(name) && NoSep(value) && !IsKnownName(name)
    ensures Header.Serialize(name + SEP + value) == Ok(Header.Unimplemented(name, value))
  {
    SplitJoin(name, value);
  }

  /** Only the first two pieces count: a further ": " and what follows are dropped. */
  lemma SerializeIgnoresThirdPiece(name: Text, value: Text, tail: Text)
    requires NoSep(name) && NoSep(value)
    ensures Header.Serialize(name + SEP + value + SEP + tail) == Header.Serialize(name + SEP + value)
  {
    SplitJoin(name, value);
    SplitJoinTail(name, value, tail);
  }
}
