/** A specification-side printer of responses, and the proof that the program reads back what it
    prints: any letter case, blanks around names and values, unrelated fields in between, and either
    kind of body. */
module RoundTrip {
  import opened Prelude
  import opened Errors
  import opened Scan
  import opened Text
  import opened Syntax
  import opened Headers
  import opened Readings
  import opened Chunked
  import opened Response
  import Utf8

  datatype StatusLine = StatusLine(version: string, blank: string, code: u16, reason: string) {
    function Text(): string {
      version + blank + PrintNumeral(code, 10, false) + reason
    }

    predicate Ok() {
      && version != "" && NoWhitespace(version)
      && blank != "" && AllWhitespace(blank)
      && (reason != "" ==> IsWhitespace(reason[0]))
      && SingleLine(Text())
    }
  }

  datatype MessageHead = MessageHead(status: StatusLine, fields: seq<HeaderField>) {
    predicate Ok() {
      status.Ok() && forall h :: h in fields ==> h.Ok()
    }

    function Lines(): (lines: seq<string>)
      ensures |lines| >= 1
    {
      [status.Text()] + Texts(fields)
    }

    /** The head's bytes, without the blank line. */
    function Bytes(): bytes {
      Utf8.Encode(JoinLines(Lines()))
    }

    /** The head with the blank line. */
    function Front(): bytes {
      Bytes() + CRLF + CRLF
    }

    function Meaning(umax: nat): Head {
      HeadFrom(status.code, Cores(fields), umax)
    }
  }

  function Texts(fields: seq<HeaderField>): (texts: seq<string>)
    ensures |texts| == |fields|
    ensures forall k :: 0 <= k < |fields| ==> texts[k] == fields[k].Text()
  {
    if fields == [] then [] else [fields[0].Text()] + Texts(fields[1..])
  }

  function Cores(fields: seq<HeaderField>): (cores: seq<Field>)
    ensures |cores| == |fields|
    ensures forall k :: 0 <= k < |fields| ==> cores[k] == fields[k].Core()
  {
    if fields == [] then [] else [fields[0].Core()] + Cores(fields[1..])
  }

  // ---------------------------------------------------------------- lines read back

  lemma FieldReads(h: HeaderField)
    requires h.Ok()
    ensures FieldOf(h.Text()) == h.Core()
  {
    SplitOnceAt(h.name.Text(), ':', h.value.Text());
    TrimPadded(h.name.before, h.name.core, h.name.after);
    TrimPadded(h.value.before, h.value.core, h.value.after);
  }

  lemma StatusReads(s: StatusLine)
    requires s.Ok()
    ensures StatusCode(s.Text()) == Ok(s.code)
  {
    var code := PrintNumeral(s.code, 10, false);
    assert s.version[0] in s.version && code[0] in code && s.blank[0] in s.blank;
    assert s.Text() == s.version + (s.blank + (code + s.reason));
    WordThenBlank(s.version, s.blank + (code + s.reason));
    TrimStartPadded(s.blank, code + s.reason);
    WordThenBlank(code, s.reason);
    ParsePrinted(s.code, 10, false, 0xFFFF);
  }

  lemma LinesAreSingle(m: MessageHead, line: string)
    requires m.Ok() && line in m.Lines()
    ensures SingleLine(line) && line != ""
  {
    var k :| 0 <= k < |m.Lines()| && m.Lines()[k] == line;
    if k > 0 {
      assert line == m.fields[k - 1].Text();
      assert m.fields[k - 1] in m.fields;
    }
  }

  /** The head reads as what was printed. */
  lemma HeadReads(m: MessageHead, umax: nat)
    requires m.Ok()
    ensures HeadOf(m.Bytes(), umax) == Ok(m.Meaning(umax))
  {
    Utf8.DecodeEncode(JoinLines(m.Lines()));
    forall line | line in m.Lines()
      ensures SingleLine(line)
    {
      LinesAreSingle(m, line);
    }
    SplitJoin(m.Lines());
    StatusReads(m.status);
    var fields := FieldsOf(m.Lines()[1..]);
    assert m.Lines()[1..] == Texts(m.fields);
    forall k | 0 <= k < |m.fields|
      ensures fields[k] == Cores(m.fields)[k]
    {
      assert m.fields[k] in m.fields;
      FieldReads(m.fields[k]);
    }
    assert fields == Cores(m.fields);
  }

  /** Field `k` is the last printed one with this name, in whatever letter case it is printed. */
  predicate LastPrinted(m: MessageHead, name: string, k: nat) {
    && k < |m.fields| && CaseVariant(m.fields[k].name.core, name)
    && forall i :: k < i < |m.fields| ==> !CaseVariant(m.fields[i].name.core, name)
  }

  lemma PrintedLastCarries(m: MessageHead, name: string, k: nat)
    requires LastPrinted(m, name, k)
    ensures LastCarries(Cores(m.fields), name, k) && Cores(m.fields)[k].value == m.fields[k].value.core
  {
  }

  /** A printed head reads as its last fields of each name say, however their names are spelled. */
  lemma PrintedFieldsRead(m: MessageHead, k: nat, n: nat, at: int, umax: nat)
    requires m.Ok() && k < |m.fields|
    ensures HeadOf(m.Bytes(), umax) == Ok(m.Meaning(umax)) && m.Meaning(umax).statusCode == m.status.code
    ensures LastPrinted(m, "etag", k) ==> m.Meaning(umax).etag == Some(m.fields[k].value.core)
    ensures LastPrinted(m, "last-modified", k) ==> m.Meaning(umax).lastModified == Some(m.fields[k].value.core)
    ensures LastPrinted(m, "content-length", k) && Denotes(m.fields[k].value.core, 10, n) && n <= umax ==>
      m.Meaning(umax).contentLength == Some(n)
    ensures CaseVariant(m.fields[k].name.core, "transfer-encoding") && VariantAt(m.fields[k].value.core, "chunked", at)
      ==> m.Meaning(umax).chunked
  {
    HeadReads(m, umax);
    var fields := Cores(m.fields);
    if LastPrinted(m, "etag", k) {
      PrintedLastCarries(m, "etag", k);
    }
    if LastPrinted(m, "last-modified", k) {
      PrintedLastCarries(m, "last-modified", k);
    }
    if LastPrinted(m, "content-length", k) {
      PrintedLastCarries(m, "content-length", k);
    }
    ValidatorsExactly(m.status.code, fields, umax, m.fields[k].value.core);
    LengthExactly(m.status.code, fields, umax, n);
    Readings.ChunkedExactly(m.status.code, fields, umax);
    assert SaysChunkedAt(fields[k], at)
      <==> CaseVariant(m.fields[k].name.core, "transfer-encoding") && VariantAt(m.fields[k].value.core, "chunked", at);
  }

  /** The spellings servers use are among them. */
  lemma UsualSpellings()
    ensures CaseVariant("Content-Length", "content-length") && CaseVariant("ETag", "etag")
    ensures CaseVariant("Last-Modified", "last-modified") && CaseVariant("Transfer-Encoding", "transfer-encoding")
  {
  }

  // ---------------------------------------------------------------- the blank line

  lemma {:induction false} PairInEncoded(t: string, k: nat)
    requires PairAt(Utf8.Encode(t), CR, LF, k)
    ensures !SingleLine(t)
    decreases |t|
  {
    var first, rest := Utf8.EncodeChar(t[0]), Utf8.Encode(t[1..]);
    if k >= |first| {
      assert PairAt(rest, CR, LF, k - |first|);
      PairInEncoded(t[1..], k - |first|);
      PairShift(t);
    } else {
      assert (first + rest)[k] == first[k];
      assert rest == Utf8.EncodeChar(t[1]) + Utf8.Encode(t[2..]);
      assert rest[0] == LF;
      assert PairAt(t, '\r', '\n', 0);
    }
  }

  lemma PairShift(t: string)
    requires t != "" && !SingleLine(t[1..])
    ensures !SingleLine(t)
  {
    var p := FindPair(t[1..], '\r', '\n', 0).value;
    assert PairAt(t, '\r', '\n', p + 1);
    FindPairExactly(t, '\r', '\n', 0, None);
  }

  /** A line that is single as text is single as bytes. */
  lemma EncodedLineIsSingle(t: string)
    requires SingleLine(t)
    ensures NoCrlf(Utf8.Encode(t))
  {
    if !NoCrlf(Utf8.Encode(t)) {
      PairInEncoded(t, FindCrlf(Utf8.Encode(t), 0).value);
    }
  }

  function EncodeAll(lines: seq<string>): (raws: seq<bytes>)
    ensures |raws| == |lines|
    ensures forall k :: 0 <= k < |lines| ==> raws[k] == Utf8.Encode(lines[k])
  {
    if lines == [] then [] else [Utf8.Encode(lines[0])] + EncodeAll(lines[1..])
  }

  function JoinBytes(raws: seq<bytes>): bytes
    requires |raws| >= 1
  {
    if |raws| == 1 then raws[0] else raws[0] + CRLF + JoinBytes(raws[1..])
  }

  lemma {:induction false} EncodeJoin(lines: seq<string>)
    requires |lines| >= 1
    ensures Utf8.Encode(JoinLines(lines)) == JoinBytes(EncodeAll(lines))
  {
    if |lines| > 1 {
      Utf8.EncodeConcat(lines[0] + CRLF_TEXT, JoinLines(lines[1..]));
      Utf8.EncodeConcat(lines[0], CRLF_TEXT);
      EncodeCrlf();
      EncodeJoin(lines[1..]);
    }
  }

  lemma EncodeCrlf()
    ensures Utf8.Encode(CRLF_TEXT) == CRLF
  {
    assert CRLF_TEXT[1..] == "\n" && CRLF_TEXT[1..][1..] == "";
  }

  /** Joined lines, taken apart behind the first. */
  lemma JoinAt(s: bytes, from: nat, raws: seq<bytes>)
    requires |raws| > 1
    requires At(s, from, JoinBytes(raws) + CRLF)
    ensures At(s, from, raws[0] + CRLF)
    ensures At(s, from + |raws[0]| + 2, JoinBytes(raws[1..]) + CRLF)
  {
    var first, rest := raws[0], JoinBytes(raws[1..]);
    assert JoinBytes(raws) + CRLF == first + CRLF + (rest + CRLF);
    AtConcat(s, from, first + CRLF, rest + CRLF);
  }

  /** No line end before the end of the first line. */
  lemma FirstLineEnd(s: bytes, from: nat, raws: seq<bytes>)
    requires |raws| >= 1 && NoCrlf(raws[0])
    requires At(s, from, JoinBytes(raws) + CRLF)
    ensures FindCrlf(s, from) == Some(from + |raws[0]|)
  {
    if |raws| > 1 {
      JoinAt(s, from, raws);
    }
    AtConcat(s, from, raws[0], CRLF);
    AtCrlf(s, from + |raws[0]|);
    FindPairAfter(s, from, raws[0], CR, LF);
  }

  /** No blank line begins before the first line end. */
  lemma NotBeforeLineEnd(s: bytes, from: nat, lineEnd: nat, k: nat)
    requires from <= |s| && FindCrlf(s, from) == Some(lineEnd)
    requires from <= k < lineEnd
    ensures !TerminatorAt(s, k)
  {
    FindPairExactly(s, CR, LF, from, Some(lineEnd));
  }

  /** ... nor at a line end that a non-empty line follows. */
  lemma NotAtLineEnd(s: bytes, from: nat, lineEnd: nat, nextEnd: nat, k: nat)
    requires from <= |s| && FindCrlf(s, from) == Some(lineEnd)
    requires FindCrlf(s, lineEnd + 2) == Some(nextEnd) && nextEnd > lineEnd + 2
    requires k == lineEnd || k == lineEnd + 1
    ensures !TerminatorAt(s, k)
  {
    FindPairExactly(s, CR, LF, lineEnd + 2, Some(nextEnd));
  }

  lemma SecondLineEnd(s: bytes, from: nat, raws: seq<bytes>)
    requires |raws| > 1 && NoCrlf(raws[1])
    requires At(s, from, JoinBytes(raws) + CRLF)
    ensures from + |raws[0]| + 2 <= |s|
    ensures FindCrlf(s, from + |raws[0]| + 2) == Some(from + |raws[0]| + 2 + |raws[1]|)
  {
    JoinAt(s, from, raws);
    FirstLineEnd(s, from + |raws[0]| + 2, raws[1..]);
  }

  lemma NotInFirstLine(s: bytes, from: nat, raws: seq<bytes>, k: nat)
    requires |raws| >= 1
    requires forall raw :: raw in raws ==> NoCrlf(raw) && raw != []
    requires At(s, from, JoinBytes(raws) + CRLF)
    requires from <= k < from + |raws[0]| + if |raws| > 1 then 2 else 0
    ensures !TerminatorAt(s, k)
  {
    var lineEnd := from + |raws[0]|;
    FirstLineEnd(s, from, raws);
    if k < lineEnd {
      NotBeforeLineEnd(s, from, lineEnd, k);
    } else {
      assert raws[1] in raws;
      SecondLineEnd(s, from, raws);
      NotAtLineEnd(s, from, lineEnd, lineEnd + 2 + |raws[1]|, k);
    }
  }

  /** Non-empty single lines hold no blank line before their end. */
  lemma {:induction false} NoEarlyTerminator(s: bytes, from: nat, raws: seq<bytes>, k: nat)
    requires |raws| >= 1
    requires forall raw :: raw in raws ==> NoCrlf(raw) && raw != []
    requires At(s, from, JoinBytes(raws) + CRLF)
    requires from <= k < from + |JoinBytes(raws)|
    ensures !TerminatorAt(s, k)
    decreases |raws|
  {
    if |raws| == 1 || k < from + |raws[0]| + 2 {
      NotInFirstLine(s, from, raws, k);
    } else {
      JoinAt(s, from, raws);
      assert forall raw :: raw in raws[1..] ==> raw in raws;
      assert |JoinBytes(raws)| == |raws[0]| + 2 + |JoinBytes(raws[1..])|;
      NoEarlyTerminator(s, from + |raws[0]| + 2, raws[1..], k);
    }
  }

  lemma BlankLineFound(raws: seq<bytes>, after: bytes)
    requires |raws| >= 1
    requires forall raw :: raw in raws ==> NoCrlf(raw) && raw != []
    ensures FindTerminator(JoinBytes(raws) + CRLF + CRLF + after) == Some(|JoinBytes(raws)|)
  {
    var head := JoinBytes(raws);
    var s := head + CRLF + CRLF + after;
    assert At(s, 0, head + CRLF);
    forall k: nat | k < |head|
      ensures !TerminatorAt(s, k)
    {
      NoEarlyTerminator(s, 0, raws, k);
    }
    assert TerminatorAt(s, |head|);
    FindTerminatorFirst(s, 0, |head|);
  }

  lemma LinesEncoded(m: MessageHead, raw: bytes)
    requires m.Ok() && raw in EncodeAll(m.Lines())
    ensures NoCrlf(raw) && raw != []
  {
    var lines := m.Lines();
    var k :| 0 <= k < |lines| && EncodeAll(lines)[k] == raw;
    LinesAreSingle(m, lines[k]);
    EncodedLineIsSingle(lines[k]);
  }

  /** The reader finds the blank line exactly where the printer put it. */
  lemma TerminatorFound(m: MessageHead, after: bytes)
    requires m.Ok()
    ensures FindTerminator(m.Front() + after) == Some(|m.Bytes()|)
  {
    EncodeJoin(m.Lines());
    forall raw | raw in EncodeAll(m.Lines())
      ensures NoCrlf(raw) && raw != []
    {
      LinesEncoded(m, raw);
    }
    BlankLineFound(EncodeAll(m.Lines()), after);
  }

  // ---------------------------------------------------------------- whole responses

  /** `syn` reads this head as printed. */
  predicate Reads(syn: Syntax, m: MessageHead) {
    syn.readHead(m.Bytes()) == Ok(m.Meaning(syn.umax))
  }

  lemma HttpReads(m: MessageHead, umax: nat)
    requires m.Ok()
    ensures Reads(HttpSyntax(umax), m)
  {
    HeadReads(m, umax);
  }

  function MetadataFor(m: MessageHead, umax: nat): Metadata {
    var head := m.Meaning(umax);
    Metadata(|m.Bytes()|, head.statusCode, head.contentLength, head.chunked, head.etag, head.lastModified)
  }

  lemma {:induction false} PrintedMetadata(m: MessageHead, after: bytes, syn: Syntax)
    requires m.Ok() && Reads(syn, m)
    ensures var response := m.Front() + after;
      && MetadataOf(response, syn) == Ok(Some(MetadataFor(m, syn.umax)))
      && response[|m.Bytes()| + 4..] == after
  {
    TerminatorFound(m, after);
    assert (m.Front() + after)[..|m.Bytes()|] == m.Bytes();
  }

  function ResponseWith(m: MessageHead, body: bytes, umax: nat): HttpResponse {
    var head := m.Meaning(umax);
    HttpResponse(m.status.code, body, head.etag, head.lastModified)
  }

  /** A printed head followed by `after` is read as its body is. */
  lemma BodyDecides(m: MessageHead, after: bytes, body: bytes, n: nat, syn: Syntax)
    requires m.Ok() && Reads(syn, m)
    requires BodyOf(MetadataFor(m, syn.umax), after, syn) == Ok(body)
    requires BodyLen(MetadataFor(m, syn.umax), after, syn) == CompleteAt(n)
    ensures var response := m.Front() + after;
      && Parse(response, syn) == Ok(ResponseWith(m, body, syn.umax))
      && CompleteLen(response, syn) == CompleteAt(|m.Bytes()| + 4 + n)
  {
    PrintedMetadata(m, after, syn);
  }

  lemma SizedBody(meta: Metadata, body: bytes, tail: bytes, syn: Syntax)
    requires !meta.chunked && meta.contentLength == Some(|body|)
    ensures BodyOf(meta, body + tail, syn) == Ok(body)
    ensures BodyLen(meta, body + tail, syn) == CompleteAt(|body|)
  {
    assert (body + tail)[..|body|] == body;
  }

  lemma ChunkedBodyDecides(m: MessageHead, body: bytes, tail: bytes, data: bytes, syn: Syntax)
    requires m.Ok() && Reads(syn, m) && m.Meaning(syn.umax).chunked
    requires Payload(body + tail, 0, syn) == Ok(data) && WireLen(body + tail, 0, syn) == CompleteAt(|body|)
    ensures var response := m.Front() + (body + tail);
      && Parse(response, syn) == Ok(ResponseWith(m, data, syn.umax))
      && CompleteLen(response, syn) == CompleteAt(|m.Front() + body|)
  {
    BodyDecides(m, body + tail, data, |body|, syn);
  }

  lemma {:induction false} SizedReads(m: MessageHead, body: bytes, tail: bytes, syn: Syntax)
    requires m.Ok() && Reads(syn, m)
    requires !m.Meaning(syn.umax).chunked && m.Meaning(syn.umax).contentLength == Some(|body|)
    ensures var response := m.Front() + (body + tail);
      && Parse(response, syn) == Ok(ResponseWith(m, body, syn.umax))
      && CompleteLen(response, syn) == CompleteAt(|m.Front() + body|)
  {
    SizedBody(MetadataFor(m, syn.umax), body, tail, syn);
    BodyDecides(m, body + tail, body, |body|, syn);
  }

  /** A printed response that declares a length, and whatever arrived behind its head: the body is the
      declared number of bytes, and an error when there are fewer. */
  lemma {:induction false} SizedExactly(m: MessageHead, after: bytes, n: nat, syn: Syntax)
    requires m.Ok() && Reads(syn, m)
    requires !m.Meaning(syn.umax).chunked && m.Meaning(syn.umax).contentLength == Some(n)
    ensures Parse(m.Front() + after, syn) ==
      if n <= |after| then Ok(ResponseWith(m, after[..n], syn.umax)) else Err(Io(BodyShorterThanDeclared(n)))
    ensures CompleteLen(m.Front() + after, syn) ==
      if n <= |after| then CompleteAt(|m.Front()| + n) else NotYet
  {
    PrintedMetadata(m, after, syn);
  }

  /** A printed response that declares chunks, and whatever arrived behind its head: the two walks decide,
      value for value and error for error, whatever length is declared besides. */
  lemma {:induction false} ChunkedExactly(m: MessageHead, after: bytes, syn: Syntax)
    requires m.Ok() && Reads(syn, m) && m.Meaning(syn.umax).chunked
    ensures match Payload(after, 0, syn)
      case Err(e) => Parse(m.Front() + after, syn) == Err(e)
      case Ok(data) => Parse(m.Front() + after, syn) == Ok(ResponseWith(m, data, syn.umax))
    ensures match WireLen(after, 0, syn)
      case Malformed(e) => CompleteLen(m.Front() + after, syn) == Malformed(e)
      case NotYet => CompleteLen(m.Front() + after, syn) == NotYet
      case CompleteAt(n) => CompleteLen(m.Front() + after, syn) == CompleteAt(|m.Front()| + n)
  {
    PrintedMetadata(m, after, syn);
  }

  lemma {:induction false} ChunkedReads(m: MessageHead, f: Framing, tail: bytes, syn: Syntax)
    requires m.Ok() && Reads(syn, m) && m.Meaning(syn.umax).chunked
    requires Valid(f, syn) && |Wire(f) + CRLF + tail| <= syn.umax
    ensures var body := Wire(f) + CRLF; var response := m.Front() + (body + tail);
      && Parse(response, syn) == Ok(ResponseWith(m, Data(f), syn.umax))
      && CompleteLen(response, syn) == CompleteAt(|m.Front() + body|)
  {
    var body := Wire(f) + CRLF;
    FramingReads(f, tail, syn);
    ChunkedBodyDecides(m, body, tail, Data(f), syn);
  }

  lemma FramingReads(f: Framing, tail: bytes, syn: Syntax)
    requires Valid(f, syn) && |Wire(f) + CRLF + tail| <= syn.umax
    ensures Payload(Wire(f) + CRLF + tail, 0, syn) == Ok(Data(f))
    ensures WireLen(Wire(f) + CRLF + tail, 0, syn) == CompleteAt(|Wire(f)| + 2)
  {
    var body := Wire(f) + CRLF + tail;
    assert Framed(body, f, syn);
    assert CrlfAt(body, |Wire(f)|);
    DecodeFramed(body, f, syn);
    ScanFramed(body, f, syn);
  }

  lemma UnframedReads(m: MessageHead, body: bytes, syn: Syntax)
    requires m.Ok() && Reads(syn, m)
    requires !m.Meaning(syn.umax).chunked && m.Meaning(syn.umax).contentLength == None
    ensures var wire := m.Front() + body;
      && Parse(wire, syn) == Ok(ResponseWith(m, body, syn.umax))
      && CompleteLen(wire, syn) == NotYet
  {
    PrintedMetadata(m, body, syn);
  }

  /** A printed response with a Content-Length body parses back, and its complete length is its printed
      length, whatever bytes follow. */
  lemma SizedRoundTrip(m: MessageHead, body: bytes, tail: bytes, umax: nat)
    requires m.Ok()
    requires !m.Meaning(umax).chunked && m.Meaning(umax).contentLength == Some(|body|)
    ensures var response := m.Front() + (body + tail);
      && Parse(response, HttpSyntax(umax)) == Ok(ResponseWith(m, body, umax))
      && CompleteLen(response, HttpSyntax(umax)) == CompleteAt(|m.Front() + body|)
  {
    HttpReads(m, umax);
    SizedReads(m, body, tail, HttpSyntax(umax));
  }

  // ---------------------------------------------------------------- chunked bodies

  /** How a chunk size is written: letter case, blanks and an extension are the sender's choice. */
  datatype SizeStyle = SizeStyle(upper: bool, before: string, after: string, extension: string) {
    function Text(size: nat): string {
      before + PrintNumeral(size, 16, upper) + after + extension
    }

    predicate Ok(size: nat) {
      && AllWhitespace(before) && AllWhitespace(after)
      && (extension != "" ==> extension[0] == ';')
      && SingleLine(Text(size))
    }
  }

  datatype Piece = Piece(payload: bytes, style: SizeStyle)

  predicate PiecesOk(pieces: seq<Piece>, umax: nat) {
    forall p :: p in pieces ==> 0 < |p.payload| <= umax && p.style.Ok(|p.payload|)
  }

  function Concatenated(pieces: seq<Piece>): bytes {
    if pieces == [] then [] else pieces[0].payload + Concatenated(pieces[1..])
  }

  /** The chunked encoding of the pieces (section 7.1 of RFC 9112). */
  function Encoded(pieces: seq<Piece>, last: SizeStyle): Framing {
    if pieces == [] then LastChunk(Utf8.Encode(last.Text(0)))
    else
      var p := pieces[0];
      Chunk(Utf8.Encode(p.style.Text(|p.payload|)), p.payload, Encoded(pieces[1..], last))
  }

  lemma SizeReads(style: SizeStyle, size: nat, umax: nat)
    requires style.Ok(size) && size <= umax
    ensures ValidSizeLine(Utf8.Encode(style.Text(size)), size, HttpSyntax(umax))
  {
    var text, digits := style.Text(size), PrintNumeral(size, 16, style.upper);
    var front := style.before + digits + style.after;
    EncodedLineIsSingle(text);
    Utf8.DecodeEncode(text);
    assert ';' !in front;
    if style.extension == "" {
      assert text == front;
    } else {
      assert text == front + [';'] + style.extension[1..];
      SplitOnceAt(front, ';', style.extension[1..]);
    }
    assert digits[0] in digits && digits[|digits| - 1] in digits;
    TrimPadded(style.before, digits, style.after);
    ParsePrinted(size, 16, style.upper, umax);
  }

  lemma {:induction false} EncodedIsValid(pieces: seq<Piece>, last: SizeStyle, umax: nat)
    requires PiecesOk(pieces, umax) && last.Ok(0)
    ensures Valid(Encoded(pieces, last), HttpSyntax(umax))
    ensures Data(Encoded(pieces, last)) == Concatenated(pieces)
  {
    if pieces == [] {
      SizeReads(last, 0, umax);
    } else {
      SizeReads(pieces[0].style, |pieces[0].payload|, umax);
      EncodedIsValid(pieces[1..], last, umax);
    }
  }

  /** Chunked round trip: decoding an encoding gives the concatenation of the pieces, whatever bytes
      they hold, and the scanner answers exactly the encoding's length, whatever follows. */
  lemma ChunkedRoundTrip(pieces: seq<Piece>, last: SizeStyle, tail: bytes, umax: nat)
    requires PiecesOk(pieces, umax) && last.Ok(0)
    requires |Wire(Encoded(pieces, last)) + CRLF + tail| <= umax
    ensures var wire := Wire(Encoded(pieces, last)) + CRLF;
      && Payload(wire + tail, 0, HttpSyntax(umax)) == Ok(Concatenated(pieces))
      && WireLen(wire + tail, 0, HttpSyntax(umax)) == CompleteAt(|wire|)
  {
    EncodedIsValid(pieces, last, umax);
    FramingReads(Encoded(pieces, last), tail, HttpSyntax(umax));
  }

  /** ... and inside a whole response. */
  lemma ChunkedResponseRoundTrip(m: MessageHead, pieces: seq<Piece>, last: SizeStyle, tail: bytes, umax: nat)
    requires m.Ok() && m.Meaning(umax).chunked
    requires PiecesOk(pieces, umax) && last.Ok(0)
    requires |Wire(Encoded(pieces, last)) + CRLF + tail| <= umax
    ensures var body := Wire(Encoded(pieces, last)) + CRLF; var response := m.Front() + (body + tail);
      && Parse(response, HttpSyntax(umax)) == Ok(ResponseWith(m, Concatenated(pieces), umax))
      && CompleteLen(response, HttpSyntax(umax)) == CompleteAt(|m.Front() + body|)
  {
    HttpReads(m, umax);
    EncodedIsValid(pieces, last, umax);
    ChunkedReads(m, Encoded(pieces, last), tail, HttpSyntax(umax));
  }

  /** An empty size line is an error, so `Conservation` applies to the program's own reading. */
  lemma EmptySizeLine(umax: nat)
    ensures HttpSyntax(umax).readSize([]).Err?
  {
    assert Utf8.Decode([]) == Some("");
    assert Trim(Before("", ';')) == "";
  }

  // ---------------------------------------------------------------- bodies of either kind

  /** A body as its sender chooses to frame it: with a Content-Length, in chunks, or ended by the end of
      the stream. */
  datatype PrintedBody =
    | Sized(data: bytes)
    | InChunks(pieces: seq<Piece>, last: SizeStyle)
    | ToTheEnd(data: bytes)
  {
    function Sent(): bytes {
      match this
      case Sized(data) => data
      case InChunks(pieces, last) => Wire(Encoded(pieces, last)) + CRLF
      case ToTheEnd(data) => data
    }

    function Content(): bytes {
      match this
      case Sized(data) => data
      case InChunks(pieces, _) => Concatenated(pieces)
      case ToTheEnd(data) => data
    }

    /** The head says how the body is framed. */
    predicate Announced(m: MessageHead, umax: nat) {
      var head := m.Meaning(umax);
      match this
      case Sized(data) => !head.chunked && head.contentLength == Some(|data|)
      case InChunks(pieces, last) => head.chunked && PiecesOk(pieces, umax) && last.Ok(0)
      case ToTheEnd(_) => !head.chunked && head.contentLength == None
    }
  }
}
