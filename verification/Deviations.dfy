/** Inputs on which the code departs from its documentation or from the standards, each traced from the
    bytes of a printed response. */
module Deviations {
  import opened Prelude
  import opened Errors
  import opened Scan
  import opened Text
  import opened Syntax
  import opened Headers
  import opened Chunked
  import opened Response
  import opened RoundTrip
  import Host
  import Reader
  import Utf8

  lemma NoCarriageReturn(t: string)
    requires '\r' !in t
    ensures SingleLine(t)
  {
    FindPairExactly(t, '\r', '\n', 0, None);
  }

  /** `name: value` */
  function PlainField(name: string, value: string): HeaderField {
    HeaderField(Padded("", name, ""), Padded(" ", value, ""))
  }

  /** `HTTP/1.1 code reason` */
  function PlainStatus(version: string, code: u16, reason: string): StatusLine {
    StatusLine(version, " ", code, " " + reason)
  }

  lemma PlainFieldOk(name: string, value: string)
    requires name != "" && NoWhitespace(name) && ':' !in name
    requires value != "" && NoWhitespace(value)
    ensures PlainField(name, value).Ok()
  {
    assert name[0] in name && name[|name| - 1] in name && value[0] in value && value[|value| - 1] in value;
    assert IsWhitespace('\r') && "" + name + "" == name && " " + value + "" == " " + value;
    NoCarriageReturn(PlainField(name, value).Text());
  }

  lemma PlainStatusOk(version: string, code: u16, reason: string)
    requires version != "" && NoWhitespace(version) && '\r' !in reason
    ensures PlainStatus(version, code, reason).Ok()
  {
    assert IsWhitespace('\r');
    NoCarriageReturn(PlainStatus(version, code, reason).Text());
  }

  // ---------------------------------------------------------------- 304 with a length

  const NOT_MODIFIED := MessageHead(
    PlainStatus("HTTP/1.1", 304, "Not Modified"),
    [PlainField(CONTENT_LENGTH, PrintNumeral(10, 10, false))])

  lemma NotModifiedIsOk()
    ensures NOT_MODIFIED.Ok()
  {
    PlainFieldOk(CONTENT_LENGTH, PrintNumeral(10, 10, false));
    PlainStatusOk("HTTP/1.1", 304, "Not Modified");
  }

  /** A head with one Content-Length field and nothing else. */
  lemma OneLengthField(status: u16, field: Field, umax: nat)
    requires field.Field? && Lower(field.name) == CONTENT_LENGTH
    ensures HeadFrom(status, [field], umax) == Head(status, LengthIn(field.value, umax), false, None, None)
  {
    HeadFromSnoc(status, [], field, umax);
    assert [] + [field] == [field];
  }

  lemma NotModifiedReads(umax: nat)
    requires umax >= 10
    ensures NOT_MODIFIED.Meaning(umax) == Head(304, Some(10), false, None, None)
  {
    var field := Field(CONTENT_LENGTH, PrintNumeral(10, 10, false));
    ParsePrinted(10, 10, false, umax);
    assert Cores(NOT_MODIFIED.fields) == [field];
    LowerOfLower(CONTENT_LENGTH);
    OneLengthField(304, field, umax);
  }

  /** A complete 304 (section 6.3 of RFC 9112) that carries the length of the unsent body is an error
      at the end of the stream, and never complete before it. */
  lemma NotModifiedWithLengthFails(umax: nat)
    requires umax >= 10
    ensures Parse(NOT_MODIFIED.Front() + [], HttpSyntax(umax)) == Err(Io(BodyShorterThanDeclared(10)))
    ensures CompleteLen(NOT_MODIFIED.Front() + [], HttpSyntax(umax)) == NotYet
  {
    NotModifiedIsOk();
    NotModifiedReads(umax);
    HttpReads(NOT_MODIFIED, umax);
    HeadAlone(NOT_MODIFIED, HttpSyntax(umax));
  }

  lemma HeadAlone(m: MessageHead, syn: Syntax)
    requires m.Ok() && Reads(syn, m)
    requires !m.Meaning(syn.umax).chunked
    requires m.Meaning(syn.umax).contentLength.Some? && m.Meaning(syn.umax).contentLength.value > 0
    ensures Parse(m.Front() + [], syn) == Err(Io(BodyShorterThanDeclared(m.Meaning(syn.umax).contentLength.value)))
    ensures CompleteLen(m.Front() + [], syn) == NotYet
  {
    PrintedMetadata(m, [], syn);
  }

  // ---------------------------------------------------------------- 304 with another validator

  const TAGGED := MessageHead(PlainStatus("HTTP/1.1", 304, "Not Modified"), [PlainField(ETAG, "\"new\"")])

  lemma TaggedIsOk()
    ensures TAGGED.Ok()
  {
    PlainFieldOk(ETAG, "\"new\"");
    PlainStatusOk("HTTP/1.1", 304, "Not Modified");
  }

  lemma OneTag(status: u16, field: Field, umax: nat)
    requires field.Field? && Lower(field.name) == ETAG
    ensures HeadFrom(status, [field], umax) == Head(status, None, false, Some(field.value), None)
  {
    HeadFromSnoc(status, [], field, umax);
    assert [] + [field] == [field];
  }

  lemma TaggedReads(umax: nat)
    ensures TAGGED.Meaning(umax) == Head(304, None, false, Some("\"new\""), None)
  {
    var field := Field(ETAG, "\"new\"");
    assert Cores(TAGGED.fields) == [field];
    LowerOfLower(ETAG);
    OneTag(304, field, umax);
  }

  /** A 304 that names another entity tag replaces the cached one, and the next request sends the new one. */
  lemma NotModifiedReplacesValidator(umax: nat)
    ensures var held := Host.Held(Some("\"old\""), None);
      var performed := Reader.ConnectionOutcome(Reader.Connected([TAGGED.Front()], Reader.Closed), HttpSyntax(umax));
      Host.ConditionalResult(held, Host.ExecuteHttpsGet(Host.HttpsReply(performed)))
        == Ok(Host.Conditional([], Host.Held(Some("\"new\""), None)))
  {
    TaggedIsOk();
    TaggedReads(umax);
    HttpReads(TAGGED, umax);
    OnePiece(TAGGED.Front());
    assert TAGGED.Front() + [] == TAGGED.Front();
    Host.UnframedArrives(TAGGED, [], [TAGGED.Front()], HttpSyntax(umax));
    Host.BoundaryRoundTrip(ResponseWith(TAGGED, [], umax));
  }

  lemma OnePiece(piece: bytes)
    ensures Reader.Flatten([piece]) == piece
  {
    assert [piece][1..] == [];
  }

  // ---------------------------------------------------------------- two lengths

  const TWO_LENGTHS := MessageHead(
    PlainStatus("HTTP/1.1", 200, "OK"),
    [PlainField(CONTENT_LENGTH, PrintNumeral(5, 10, false)), PlainField(CONTENT_LENGTH, "x")])

  lemma TwoLengthsIsOk()
    ensures TWO_LENGTHS.Ok()
  {
    PlainFieldOk(CONTENT_LENGTH, PrintNumeral(5, 10, false));
    PlainFieldOk(CONTENT_LENGTH, "x");
    PlainStatusOk("HTTP/1.1", 200, "OK");
  }

  lemma LastLength(status: u16, first: Field, second: Field, umax: nat)
    requires second.Field? && Lower(second.name) == CONTENT_LENGTH
    requires first.Field? && Lower(first.name) == CONTENT_LENGTH
    ensures HeadFrom(status, [first, second], umax) == Head(status, LengthIn(second.value, umax), false, None, None)
  {
    OneLengthField(status, first, umax);
    HeadFromSnoc(status, [first], second, umax);
    assert [first] + [second] == [first, second];
  }

  lemma NoNumber(umax: nat)
    ensures LengthIn("x", umax) == None
  {
    assert DigitValue("x"[0], 10).None?;
  }

  lemma TwoLengthsRead(umax: nat)
    ensures TWO_LENGTHS.Meaning(umax) == Head(200, None, false, None, None)
  {
    var first, second := Field(CONTENT_LENGTH, PrintNumeral(5, 10, false)), Field(CONTENT_LENGTH, "x");
    assert Cores(TWO_LENGTHS.fields) == [first, second];
    LowerOfLower(CONTENT_LENGTH);
    LastLength(200, first, second, umax);
    NoNumber(umax);
  }

  /** A length that is no number erases the good one before it: the response declares no length, so it is
      never complete, and its body is whatever the stream holds to its end. */
  lemma BadLengthErasesGoodOne(body: bytes, umax: nat)
    requires umax >= 5
    ensures TWO_LENGTHS.Meaning(umax).contentLength == None
    ensures LengthIn(TWO_LENGTHS.fields[0].value.core, umax) == Some(5)
    ensures CompleteLen(TWO_LENGTHS.Front() + body, HttpSyntax(umax)) == NotYet
    ensures Parse(TWO_LENGTHS.Front() + body, HttpSyntax(umax)) == Ok(HttpResponse(200, body, None, None))
  {
    TwoLengthsIsOk();
    TwoLengthsRead(umax);
    ParsePrinted(5, 10, false, umax);
    HttpReads(TWO_LENGTHS, umax);
    UnframedReads(TWO_LENGTHS, body, HttpSyntax(umax));
  }

  // ---------------------------------------------------------------- trailers

  const CHUNKED := MessageHead(PlainStatus("HTTP/1.1", 200, "OK"), [PlainField(TRANSFER_ENCODING, "chunked")])

  const PLAIN := SizeStyle(false, "", "", "")

  /** "hi" in one chunk. */
  const HI: bytes := [104, 105]

  const CHUNKS := Encoded([Piece(HI, PLAIN)], PLAIN)

  /** One trailer line and the blank line: "a: b". */
  const TRAILERS: bytes := [97, 58, 32, 98] + CRLF + CRLF

  lemma ChunkedIsOk()
    ensures CHUNKED.Ok()
  {
    PlainFieldOk(TRANSFER_ENCODING, "chunked");
    PlainStatusOk("HTTP/1.1", 200, "OK");
  }

  lemma OneChunkedField(status: u16, field: Field, umax: nat)
    requires field.Field? && Lower(field.name) == TRANSFER_ENCODING && SaysChunked(field.value)
    ensures HeadFrom(status, [field], umax) == Head(status, None, true, None, None)
  {
    HeadFromSnoc(status, [], field, umax);
    assert [] + [field] == [field];
    assert |TRANSFER_ENCODING| == 17 && |CONTENT_LENGTH| == 14;
  }

  lemma ContainsItself(s: string)
    ensures Contains(s, s)
  {
  }

  lemma ChunkedIsSaid()
    ensures SaysChunked("chunked")
  {
    LowerOfLower("chunked");
    ContainsItself("chunked");
  }

  lemma ChunkedReadsChunked(umax: nat)
    ensures CHUNKED.Meaning(umax) == Head(200, None, true, None, None)
  {
    var field := Field(TRANSFER_ENCODING, "chunked");
    assert Cores(CHUNKED.fields) == [field];
    LowerOfLower(TRANSFER_ENCODING);
    ChunkedIsSaid();
    OneChunkedField(200, field, umax);
  }

  lemma OneDigit(d: nat)
    requires d < 10
    ensures PLAIN.Ok(d) && |Utf8.Encode(PLAIN.Text(d))| == 1
  {
    var c := DigitChar(d, false);
    assert PLAIN.Text(d) == [c];
    assert [c][1..] == "";
    assert '\r' !in [c] by {
      assert IsWhitespace('\r');
    }
    NoCarriageReturn([c]);
  }

  lemma ChunksAreValid(umax: nat)
    requires umax >= 2
    ensures Valid(CHUNKS, HttpSyntax(umax)) && Data(CHUNKS) == HI && |Wire(CHUNKS)| == 10
  {
    var pieces := [Piece(HI, PLAIN)];
    OneDigit(0);
    OneDigit(2);
    EncodedIsValid(pieces, PLAIN, umax);
    assert pieces[1..] == [] && Concatenated(pieces) == HI + [];
    assert CHUNKS == Chunk(Utf8.Encode(PLAIN.Text(2)), HI, LastChunk(Utf8.Encode(PLAIN.Text(0))));
    WireSize(CHUNKS);
  }

  /** A complete chunked response with one trailer line is delivered when the peer closes cleanly, and is an
      error when the same bytes end with `UnexpectedEof`. */
  lemma TrailersDependOnEnding(umax: nat)
    requires umax >= 18
    ensures var stream := CHUNKED.Front() + (Wire(CHUNKS) + TRAILERS);
      && Reader.Outcome(stream, Reader.Closed, HttpSyntax(umax)) == Ok(HttpResponse(200, HI, None, None))
      && Reader.Outcome(stream, Reader.UnexpectedEof, HttpSyntax(umax)) == Err(Io(UnexpectedEnd))
  {
    ChunkedIsOk();
    ChunkedReadsChunked(umax);
    HttpReads(CHUNKED, umax);
    ChunksAreValid(umax);
    TrailedEndings(CHUNKED, CHUNKS, TRAILERS, HttpSyntax(umax));
  }

  lemma TrailedEndings(m: MessageHead, f: Framing, trailers: bytes, syn: Syntax)
    requires m.Ok() && Reads(syn, m) && m.Meaning(syn.umax).chunked
    requires Valid(f, syn) && |trailers| >= 2 && !CrlfAt(trailers, 0) && |Wire(f) + trailers| <= syn.umax
    ensures var stream := m.Front() + (Wire(f) + trailers);
      && Reader.Outcome(stream, Reader.Closed, syn) == Ok(ResponseWith(m, Data(f), syn.umax))
      && Reader.Outcome(stream, Reader.UnexpectedEof, syn) == Err(Io(UnexpectedEnd))
  {
    var body := Wire(f) + trailers;
    PrintedMetadata(m, body, syn);
    assert Framed(body, f, syn);
    assert body[|Wire(f)|] == trailers[0] && body[|Wire(f)| + 1] == trailers[1];
    Reader.TrailersNeedCleanClose(m.Front() + body, MetadataFor(m, syn.umax), f, syn);
  }
}
