/**
 * The header-line recogniser of the older one-shot HTTP client
 * (src/http/headers.rs). Its `MimeType` and `TrfrEncodingType` are the same
 * enums with the same recognisers as the HTTP/1.x client's, so they are
 * shared with `Http1Headers`; its `Header` has no `Connection` kind, so a
 * Connection line falls to the catch-all kind.
 */
module HttpHeaders {
  import opened Bytes
  import H1 = Http1Headers

  datatype Header =
    | ContentLength(len: usize)
    | ContentType(mime: H1.MimeType)
    | ContentEncoding(encoding: Text)
    | ContentLanguage(language: Text)
    | TransferEncoding(tr: H1.TrfrEncodingType)
    | Unimplemented(name: Text, value: Text)
  {
    /** `Header::serialize` of the older client. */
    static function Serialize(line: Text): Result<Header, string> {
      match SplitFirstTwo(line)
      case None => Err(H1.INVALID_HEADER)
      case Some((name, value)) => Classify(name, value)
    }

    /** The classification by name once the line is split. */
    static function Classify(name: Text, value: Text): Result<Header, string> {
      if name == H1.CONTENT_LENGTH then
        match ParseUsize(value)
        case None => Err(H1.INVALID_LENGTH)
        case Some(n) => Ok(ContentLength(n))
      else if name == H1.CONTENT_TYPE then Ok(ContentType(H1.MimeType.Recognize(value)))
      else if name == H1.CONTENT_ENCODING then Ok(ContentEncoding(value))
      else if name == H1.CONTENT_LANGUAGE then Ok(ContentLanguage(value))
      else if name == H1.TRANSFER_ENCODING then Ok(TransferEncoding(H1.TrfrEncodingType.Recognize(value)))
      else Ok(Header.Unimplemented(name, value))
    }

    /** The same header as the HTTP/1.x client's kind for it. */
    function ToHttp1(): H1.Header {
      match this
      case ContentLength(n) => H1.ContentLength(n)
      case ContentType(m) => H1.ContentType(m)
      case ContentEncoding(v) => H1.ContentEncoding(v)
      case ContentLanguage(v) => H1.ContentLanguage(v)
      case TransferEncoding(t) => H1.TransferEncoding(t)
      case Unimplemented(n, v) => H1.Header.Unimplemented(n, v)
    }
  }

  /** A line is refused as "invalid header" exactly when it has no ": ". */
  lemma SerializeNeedsSeparator(line: Text)
    ensures Header.Serialize(line) == Err(H1.INVALID_HEADER) <==> NoSep(line)
  {
    SplitFirstTwoParts(line);
  }

  /**
   * The two clients read every line alike, except a `Connection` line: the
   * older one keeps it as an unrecognised header with its name and value.
   */
  lemma SerializeAgreesWithHttp1(line: Text)
    ensures var older, newer := Header.Serialize(line), H1.Header.Serialize(line);
      && (newer.Ok? && newer.value.Connection? ==>
            && SplitFirstTwo(line).Some?
            && older == Ok(Header.Unimplemented(H1.CONNECTION, SplitFirstTwo(line).value.1)))
      && (newer.Ok? && !newer.value.Connection? ==> older.Ok? && older.value.ToHttp1() == newer.value)
      && (newer.Err? ==> older.Err? && older.error == newer.error)
  {
    match SplitFirstTwo(line)
    case None =>
    case Some((name, value)) =>
      if name == H1.CONNECTION {
        assert H1.Header.Classify(name, value).value.Connection?;
      }
  }

  /** A header the HTTP/1.x client would read as `Connection` is a plain pair here. */
  lemma ConnectionUnrecognised(value: Text)
    requires NoSep(value)
    ensures Header.Serialize(H1.CONNECTION + SEP + value) == Ok(Header.Unimplemented(H1.CONNECTION, value))
  {
    H1.KnownNameHasNoSep(H1.CONNECTION);
    SplitJoin(H1.CONNECTION, value);
  }

  /** Every well-formed header of the HTTP/1.x client without a `Connection` kind reads back alike. */
  lemma SerializeRender(h: Header)
    requires h.ToHttp1().WellFormed()
    ensures Header.Serialize(h.ToHttp1().Render()) == Ok(h)
  {
    var line := h.ToHttp1().Render();
    H1.SerializeRender(h.ToHttp1());
    SerializeAgreesWithHttp1(line);
    ToHttp1Injective(Header.Serialize(line).value, h);
  }

  lemma ToHttp1Injective(a: Header, b: Header)
    requires a.ToHttp1() == b.ToHttp1()
    ensures a == b
  {
  }
}
