/** Exactly which lines the text layer accepts, and what it takes each of them to say. */
module Readings {
  import opened Prelude
  import opened Errors
  import opened Scan
  import opened Text
  import opened Headers
  import Utf8

  lemma TrimPadding(s: string) returns (p: Padded)
    ensures p.Ok() && p.Text() == s && p.core == Trim(s)
  {
    var before, after := TrimSplits(s);
    p := Padded(before, Trim(s), after);
  }

  /** Trimming takes a text apart in one way only. */
  lemma TrimExactly(s: string, core: string)
    ensures Trim(s) == core <==> exists p: Padded :: p.Ok() && p.Text() == s && p.core == core
  {
    var own := TrimPadding(s);
    forall p: Padded | p.Ok() && p.Text() == s
      ensures Trim(s) == p.core
    {
      TrimPadded(p.before, p.core, p.after);
    }
  }

  // ---------------------------------------------------------------- header lines

  predicate FieldShape(line: string, h: HeaderField) {
    h.name.Ok() && h.value.Ok() && ':' !in h.name.Text() && h.Text() == line
  }

  /** A line is a field exactly when a colon stands in it; the name is what stands before the first
      one and the value what stands behind it, both without the blanks around them. */
  lemma FieldExactly(line: string, name: string, value: string)
    ensures FieldOf(line) == Field(name, value)
      <==> exists h: HeaderField :: FieldShape(line, h) && h.Core() == Field(name, value)
    ensures FieldOf(line) == NoField <==> ':' !in line
  {
    if FieldOf(line) == Field(name, value) {
      var parts := SplitOnce(line, ':').value;
      var n := TrimPadding(parts.0);
      var v := TrimPadding(parts.1);
      assert FieldShape(line, HeaderField(n, v));
    }
    forall h: HeaderField | FieldShape(line, h)
      ensures FieldOf(line) == h.Core()
    {
      SplitOnceAt(h.name.Text(), ':', h.value.Text());
      TrimExactly(h.name.Text(), h.name.core);
      TrimExactly(h.value.Text(), h.value.core);
    }
  }

  // ---------------------------------------------------------------- the status line

  /** Blanks, a word, blanks, a second word, and whatever follows it. */
  datatype Words = Words(lead: string, first: string, blank: string, second: string, rest: string) {
    function Text(): string {
      lead + (first + (blank + (second + rest)))
    }

    predicate Ok() {
      && AllWhitespace(lead) && AllWhitespace(blank) && blank != ""
      && first != "" && NoWhitespace(first)
      && second != "" && NoWhitespace(second)
      && (rest != "" ==> IsWhitespace(rest[0]))
    }
  }

  lemma {:induction false} WordSplits(s: string)
    ensures s == FirstWord(s) + DropWord(s)
    ensures DropWord(s) != "" ==> IsWhitespace(DropWord(s)[0])
  {
    if s != "" && !IsWhitespace(s[0]) {
      WordSplits(s[1..]);
    }
  }

  lemma BlankThenWord(blank: string, word: string, rest: string)
    requires AllWhitespace(blank) && word != "" && NoWhitespace(word)
    ensures TrimStart(blank + (word + rest)) == word + rest
  {
    TrimStartPadded(blank, word + rest);
    assert word[0] in word;
  }

  lemma WordsRead(w: Words)
    requires w.Ok()
    ensures SecondWord(w.Text()) == Some(w.second)
  {
    BlankThenWord(w.lead, w.first, w.blank + (w.second + w.rest));
    WordThenBlank(w.first, w.blank + (w.second + w.rest));
    BlankThenWord(w.blank, w.second, w.rest);
    WordThenBlank(w.second, w.rest);
  }

  lemma SecondWordSplits(line: string) returns (w: Words)
    requires SecondWord(line).Some?
    ensures w.Ok() && w.Text() == line && w.second == SecondWord(line).value
  {
    var lead := TrimStartSplits(line);
    var s := TrimStart(line);
    WordSplits(s);
    var blank := TrimStartSplits(DropWord(s));
    var t := TrimStart(DropWord(s));
    WordSplits(t);
    w := Words(lead, FirstWord(s), blank, FirstWord(t), DropWord(t));
  }

  predicate TakenApart(line: string, w: Words) {
    w.Ok() && w.Text() == line
  }

  /** The status code is the second word of the status line, exactly when that is a decimal numeral of
      at most 16 bits. */
  lemma StatusExactly(line: string, code: u16)
    ensures StatusCode(line) == Ok(code) <==> exists w :: TakenApart(line, w) && Denotes(w.second, 10, code)
  {
    if StatusCode(line) == Ok(code) {
      var w := SecondWordSplits(line);
      ParseUintExactly(w.second, 10, 0xFFFF, code);
      assert TakenApart(line, w);
    }
    forall w | TakenApart(line, w) && Denotes(w.second, 10, code)
      ensures StatusCode(line) == Ok(code)
    {
      WordsRead(w);
      ParseUintExactly(w.second, 10, 0xFFFF, code);
    }
  }

  /** It is missing exactly when the line has no two words, and invalid exactly when the second word does
      not parse. `Text.ParseUintErrors` says which parse error a word gives. */
  lemma StatusRejectedExactly(line: string, e: IntError)
    ensures StatusCode(line) == Err(Io(StatusCodeMissing)) <==> forall w :: !TakenApart(line, w)
    ensures StatusCode(line) == Err(Io(StatusCodeInvalid(e)))
      <==> exists w :: TakenApart(line, w) && ParseUint(w.second, 10, 0xFFFF) == Err(e)
  {
    if SecondWord(line).Some? {
      var w := SecondWordSplits(line);
      assert TakenApart(line, w);
    }
    forall w | TakenApart(line, w)
      ensures SecondWord(line) == Some(w.second)
    {
      WordsRead(w);
    }
  }

  // ---------------------------------------------------------------- size lines

  /** A padded text without ';', and an extension. */
  datatype SizeText = SizeText(size: Padded, extension: string) {
    function Text(): string {
      size.Text() + extension
    }

    predicate Ok() {
      size.Ok() && ';' !in size.Text() && (extension != "" ==> extension[0] == ';')
    }
  }

  lemma SizeTextReads(t: SizeText)
    requires t.Ok()
    ensures Trim(Before(t.Text(), ';')) == t.size.core
  {
    if t.extension == "" {
      assert t.Text() == t.size.Text();
    } else {
      SplitOnceAt(t.size.Text(), ';', t.extension[1..]);
      assert t.Text() == t.size.Text() + [';'] + t.extension[1..];
    }
    TrimExactly(t.size.Text(), t.size.core);
  }

  lemma BeforeSplits(text: string) returns (rest: string)
    ensures text == Before(text, ';') + rest && ';' !in Before(text, ';')
    ensures rest != "" ==> rest[0] == ';'
  {
    rest := "";
    if ';' in text {
      var parts := SplitOnce(text, ';').value;
      rest := [';'] + parts.1;
      assert parts.0 + rest == parts.0 + [';'] + parts.1;
    } else {
      assert text + "" == text;
    }
  }

  lemma SizeTextSplits(text: string) returns (t: SizeText)
    ensures t.Ok() && t.Text() == text && t.size.core == Trim(Before(text, ';'))
  {
    var rest := BeforeSplits(text);
    var p := TrimPadding(Before(text, ';'));
    t := SizeText(p, rest);
  }

  predicate SizeLineText(line: bytes, t: SizeText) {
    t.Ok() && Utf8.Encode(t.Text()) == line
  }

  /** How a size line reads, by its text. */
  lemma SizeTextOf(line: bytes, t: SizeText, umax: nat)
    requires SizeLineText(line, t)
    ensures SizeOf(line, umax) ==
      match ParseUint(t.size.core, 16, umax)
      case Err(e) => Err(Io(ChunkSizeInvalid(t.size.core, e)))
      case Ok(size) => Ok(size)
  {
    Utf8.DecodeEncode(t.Text());
    SizeTextReads(t);
  }

  lemma LineHasText(line: bytes) returns (t: SizeText)
    requires Utf8.Decode(line).Some?
    ensures SizeLineText(line, t)
  {
    Utf8.DecodeExactly(line, Utf8.Decode(line).value);
    t := SizeTextSplits(Utf8.Decode(line).value);
  }

  /** A size line declares a size exactly when it is UTF-8 and what stands before the first ';' is,
      blanks aside, a hexadecimal numeral of that value, in either letter case, that fits `usize`. */
  lemma SizeExactly(line: bytes, size: nat, umax: nat)
    ensures SizeOf(line, umax) == Ok(size)
      <==> size <= umax && exists t :: SizeLineText(line, t) && Denotes(t.size.core, 16, size)
  {
    if SizeOf(line, umax) == Ok(size) {
      var t := LineHasText(line);
      SizeTextOf(line, t, umax);
      ParseUintExactly(t.size.core, 16, umax, size);
    }
    forall t | size <= umax && SizeLineText(line, t) && Denotes(t.size.core, 16, size)
      ensures SizeOf(line, umax) == Ok(size)
    {
      SizeTextOf(line, t, umax);
      ParseUintExactly(t.size.core, 16, umax, size);
    }
  }

  /** It is rejected exactly when it is not UTF-8 ... */
  lemma SizeNotTextExactly(line: bytes, umax: nat)
    ensures SizeOf(line, umax) == Err(Io(ChunkLineNotUtf8(line))) <==> forall text :: Utf8.Encode(text) != line
  {
    Utf8.NoTextExactly(line);
    if Utf8.Decode(line).Some? {
      var t := LineHasText(line);
      SizeTextOf(line, t, umax);
    }
  }

  /** ... or when that part does not parse. */
  lemma SizeRejectedExactly(line: bytes, sizeText: string, e: IntError, umax: nat)
    ensures SizeOf(line, umax) == Err(Io(ChunkSizeInvalid(sizeText, e)))
      <==> ParseUint(sizeText, 16, umax) == Err(e) && exists t :: SizeLineText(line, t) && t.size.core == sizeText
  {
    if Utf8.Decode(line).Some? {
      var t := LineHasText(line);
      SizeTextOf(line, t, umax);
    }
    if ParseUint(sizeText, 16, umax) == Err(e) {
      if t :| SizeLineText(line, t) && t.size.core == sizeText {
        SizeTextOf(line, t, umax);
      }
    }
  }

  // ---------------------------------------------------------------- the fields of a head

  /** A line whose name is this one, in any letter case. */
  predicate Carries(field: Field, name: string) {
    field.Field? && CaseVariant(field.name, name)
  }

  predicate LastCarries(fields: seq<Field>, name: string, k: int) {
    0 <= k < |fields| && Carries(fields[k], name) && forall i :: k < i < |fields| ==> !Carries(fields[i], name)
  }

  lemma NamedExactly(field: Field, name: string)
    requires forall k :: 0 <= k < |name| ==> !('A' <= name[k] <= 'Z')
    ensures Named(field, name) <==> Carries(field, name)
  {
    LowerOfLower(name);
    if field.Field? {
      EqIgnoreCaseExactly(field.name, name);
    }
  }

  lemma LastCarriesExactly(fields: seq<Field>, name: string, k: int)
    requires forall k :: 0 <= k < |name| ==> !('A' <= name[k] <= 'Z')
    ensures LastCarries(fields, name, k) <==> LastNamed(fields, name, k)
  {
    forall i | 0 <= i < |fields|
      ensures Named(fields[i], name) <==> Carries(fields[i], name)
    {
      NamedExactly(fields[i], name);
    }
  }

  /** The value read for a name is that of the last line that carries it. */
  lemma LastValueCarried(fields: seq<Field>, name: string, value: string)
    requires forall k :: 0 <= k < |name| ==> !('A' <= name[k] <= 'Z')
    ensures LastValue(fields, name) == Some(value)
      <==> exists k :: LastCarries(fields, name, k) && fields[k].value == value
  {
    LastValueExactly(fields, name, value);
    forall k: int
      ensures LastCarries(fields, name, k) <==> LastNamed(fields, name, k)
    {
      LastCarriesExactly(fields, name, k);
    }
  }

  /** A head declares a body length exactly when its last Content-Length line holds a decimal numeral that
      fits: a good one earlier counts for nothing behind a bad one. */
  lemma LengthExactly(status: u16, fields: seq<Field>, umax: nat, n: nat)
    ensures HeadFrom(status, fields, umax).contentLength == Some(n)
      <==> n <= umax && exists k :: LastCarries(fields, "content-length", k) && Denotes(fields[k].value, 10, n)
  {
    forall value
      ensures LastValue(fields, CONTENT_LENGTH) == Some(value)
        <==> exists k :: LastCarries(fields, CONTENT_LENGTH, k) && fields[k].value == value
      ensures LengthIn(value, umax) == Some(n) <==> Denotes(value, 10, n) && n <= umax
    {
      LastValueCarried(fields, CONTENT_LENGTH, value);
      ParseUintExactly(value, 10, umax, n);
    }
  }

  /** The validators read are the values of the last lines that carry their names. */
  lemma ValidatorsExactly(status: u16, fields: seq<Field>, umax: nat, value: string)
    ensures HeadFrom(status, fields, umax).etag == Some(value)
      <==> exists k :: LastCarries(fields, "etag", k) && fields[k].value == value
    ensures HeadFrom(status, fields, umax).lastModified == Some(value)
      <==> exists k :: LastCarries(fields, "last-modified", k) && fields[k].value == value
  {
    LastValueCarried(fields, "etag", value);
    LastValueCarried(fields, "last-modified", value);
  }

  predicate SaysChunkedAt(field: Field, at: int) {
    Carries(field, "transfer-encoding") && VariantAt(field.value, "chunked", at)
  }

  lemma SaysChunkedExactly(field: Field)
    ensures Named(field, TRANSFER_ENCODING) && SaysChunked(field.value) <==> exists at :: SaysChunkedAt(field, at)
  {
    NamedExactly(field, TRANSFER_ENCODING);
    if field.Field? {
      ContainsVariantExactly(field.value, "chunked");
      if Carries(field, TRANSFER_ENCODING) {
        forall at | VariantAt(field.value, "chunked", at)
          ensures SaysChunkedAt(field, at)
        {
        }
      }
    }
  }

  /** The body is chunked exactly when the word stands, in any letter case, somewhere in the value of some
      Transfer-Encoding line. */
  lemma ChunkedExactly(status: u16, fields: seq<Field>, umax: nat)
    ensures HeadFrom(status, fields, umax).chunked
      <==> exists k, at :: 0 <= k < |fields| && SaysChunkedAt(fields[k], at)
  {
    if DeclaresChunked(fields) {
      var value :| value in Values(fields, TRANSFER_ENCODING) && SaysChunked(value);
      ValuesExactly(fields, TRANSFER_ENCODING, value);
      var k :| 0 <= k < |fields| && Named(fields[k], TRANSFER_ENCODING) && fields[k].value == value;
      SaysChunkedExactly(fields[k]);
    }
    if k, at :| 0 <= k < |fields| && SaysChunkedAt(fields[k], at) {
      SaysChunkedExactly(fields[k]);
      ValuesExactly(fields, TRANSFER_ENCODING, fields[k].value);
    }
  }

  /** ... also as one of several codings. */
  lemma ListedChunkedCounts(status: u16, umax: nat)
    ensures HeadFrom(status, [Field("Transfer-Encoding", "gzip, Chunked")], umax).chunked
  {
    var field := Field("Transfer-Encoding", "gzip, Chunked");
    assert "gzip, Chunked"[6..13] == "Chunked";
    assert SaysChunkedAt([field][0], 6);
    ChunkedExactly(status, [field], umax);
  }

  // ---------------------------------------------------------------- the head

  /** The head is the UTF-8 of these lines. */
  predicate HeadLines(head: bytes, lines: seq<string>) {
    && |lines| >= 1 && Utf8.Encode(JoinLines(lines)) == head
    && forall line :: line in lines ==> SingleLine(line)
  }

  lemma HeadLinesExactly(head: bytes, lines: seq<string>)
    ensures HeadLines(head, lines) <==> Utf8.Decode(head).Some? && SplitLines(Utf8.Decode(head).value) == lines
  {
    if |lines| >= 1 {
      Utf8.DecodeExactly(head, JoinLines(lines));
    }
    if Utf8.Decode(head).Some? {
      SplitExactly(Utf8.Decode(head).value, lines);
      Utf8.DecodeExactly(head, Utf8.Decode(head).value);
    }
  }

  /** What a head says is what its status line and its other lines say. */
  lemma HeadExactly(head: bytes, lines: seq<string>, umax: nat)
    requires HeadLines(head, lines)
    ensures HeadOf(head, umax) ==
      match StatusCode(lines[0])
      case Err(e) => Err(e)
      case Ok(status) => Ok(HeadFrom(status, FieldsOf(lines[1..]), umax))
  {
    HeadLinesExactly(head, lines);
  }

  /** A head is rejected exactly when it is not UTF-8 or its status line is. */
  lemma HeadRejectedExactly(head: bytes, e: Error, umax: nat)
    ensures HeadOf(head, umax) == Err(e) <==>
      || (e == Io(HeaderNotUtf8(head)) && forall text :: Utf8.Encode(text) != head)
      || (exists lines :: HeadLines(head, lines) && StatusCode(lines[0]) == Err(e))
  {
    Utf8.NoTextExactly(head);
    if Utf8.Decode(head).Some? {
      HeadLinesExactly(head, SplitLines(Utf8.Decode(head).value));
    }
    forall lines | HeadLines(head, lines)
      ensures Utf8.Decode(head).Some? && SplitLines(Utf8.Decode(head).value) == lines
    {
      HeadLinesExactly(head, lines);
    }
  }
}
