/** Chunked framing (section 7.1 of RFC 9112): the scanner that asks whether a body is complete, the
    decoder that extracts its payload, and the wire grammar that both are measured against. `syn` is
    how a size line reads, with the largest `usize` of the target. */
module Chunked {
  import opened Prelude
  import opened Errors
  import opened Scan
  import opened Syntax

  // ---------------------------------------------------------------- size lines

  datatype SizeLine = Unterminated | BadLine(error: Error) | Size(size: nat, next: nat)

  /** The size line at `cursor` and the position behind it. Both loops open with this step. */
  function ReadSizeLine(body: bytes, cursor: nat, syn: Syntax): (r: SizeLine)
    requires cursor <= |body|
    ensures r.Size? ==> cursor + 2 <= r.next <= |body|
  {
    match FindCrlf(body, cursor)
    case None => Unterminated
    case Some(lineEnd) =>
      match syn.readSize(body[cursor..lineEnd])
      case Err(e) => BadLine(e)
      case Ok(size) => Size(size, lineEnd + 2)
  }

  /** `body.get(from..from + 2) == Some(b"\r\n")`. */
  predicate CrlfAt(body: bytes, from: nat) {
    PairAt(body, CR, LF, from)
  }

  // ---------------------------------------------------------------- the two walks

  /** Complete length of the chunked body that starts at 0, walking on from `cursor`. */
  function WireLen(body: bytes, cursor: nat, syn: Syntax): (v: Verdict)
    requires cursor <= |body|
    ensures v.CompleteAt? ==> cursor < v.length <= |body|
    decreases |body| - cursor
  {
    match ReadSizeLine(body, cursor, syn)
    case Unterminated => NotYet
    case BadLine(e) => Malformed(e)
    case Size(size, next) =>
      if size == 0 then
        if CrlfAt(body, next) then CompleteAt(next + 2) else NotYet
      else if next + size > syn.umax then Malformed(Io(ChunkSizeOverflow))
      else if next + size > |body| then NotYet
      else if next + size + 2 > |body| then NotYet
      else if !CrlfAt(body, next + size) then Malformed(Io(ChunkCrlfMissing))
      else WireLen(body, next + size + 2, syn)
  }

  /** Payload bytes from `cursor` on. */
  function Payload(body: bytes, cursor: nat, syn: Syntax): Result<bytes, Error>
    requires cursor <= |body|
    decreases |body| - cursor
  {
    match ReadSizeLine(body, cursor, syn)
    case Unterminated => Err(Io(ChunkDelimiterMissing))
    case BadLine(e) => Err(e)
    case Size(size, next) =>
      if size == 0 then Ok([])
      else if next + size > syn.umax then Err(Io(ChunkSizeOverflow))
      else if next + size > |body| then Err(Io(ChunkPayloadTruncated))
      else if !CrlfAt(body, next + size) then Err(Io(ChunkCrlfMissing))
      else Prepend(body[next..next + size], Payload(body, next + size + 2, syn))
  }

  function Prepend(front: bytes, r: Result<bytes, Error>): Result<bytes, Error> {
    match r
    case Ok(rest) => Ok(front + rest)
    case Err(e) => Err(e)
  }

  /** An addition the source leaves unchecked; the precondition is the absence of overflow. */
  function Plus(a: nat, b: nat, umax: nat): nat
    requires a + b <= umax
  {
    a + b
  }

  /** A buffer never holds more than `isize::MAX` bytes. */
  predicate FitsInMemory(b: bytes, umax: nat) {
    2 * |b| < umax && umax >= 16
  }

  method ChunkedWireLen(body: bytes, syn: Syntax) returns (v: Verdict)
    requires FitsInMemory(body, syn.umax)
    ensures v == WireLen(body, 0, syn)
  {
    var cursor: nat := 0;
    while true
      invariant cursor <= |body|
      invariant WireLen(body, cursor, syn) == WireLen(body, 0, syn)
      decreases |body| - cursor
    {
      var lineEnd := FindCrlf(body, cursor);
      if lineEnd == None {
        return NotYet;
      }
      var size;
      match syn.readSize(body[cursor..lineEnd.value]) {
        case Err(e) => return Malformed(e);
        case Ok(n) => size := n;
      }
      cursor := Plus(lineEnd.value, 2, syn.umax);
      if size == 0 {
        if CrlfAt(body, cursor) {
          return CompleteAt(Plus(cursor, 2, syn.umax));
        }
        return NotYet;
      }
      if cursor + size > syn.umax {
        return Malformed(Io(ChunkSizeOverflow));
      }
      var end := cursor + size;
      if end > |body| {
        return NotYet;
      }
      cursor := end;
      if Plus(cursor, 2, syn.umax) > |body| {
        return NotYet;
      }
      if !CrlfAt(body, cursor) {
        return Malformed(Io(ChunkCrlfMissing));
      }
      cursor := Plus(cursor, 2, syn.umax);
    }
  }

  method DecodeChunkedBody(body: bytes, syn: Syntax) returns (r: Result<bytes, Error>)
    requires FitsInMemory(body, syn.umax)
    ensures r == Payload(body, 0, syn)
  {
    var cursor: nat := 0;
    var decoded: bytes := [];
    PrependNothing(Payload(body, 0, syn));
    while true
      invariant cursor <= |body|
      invariant Payload(body, 0, syn) == Prepend(decoded, Payload(body, cursor, syn))
      decreases |body| - cursor
    {
      var lineEnd := FindCrlf(body, cursor);
      if lineEnd == None {
        return Err(Io(ChunkDelimiterMissing));
      }
      var size;
      match syn.readSize(body[cursor..lineEnd.value]) {
        case Err(e) => return Err(e);
        case Ok(n) => size := n;
      }
      ghost var from := cursor;
      cursor := Plus(lineEnd.value, 2, syn.umax);
      assert ReadSizeLine(body, from, syn) == Size(size, cursor);
      if size == 0 {
        assert decoded + [] == decoded;
        return Ok(decoded);
      }
      PayloadStep(body, from, decoded, size, cursor, syn);
      if cursor + size > syn.umax {
        return Err(Io(ChunkSizeOverflow));
      }
      var end := cursor + size;
      if end > |body| {
        return Err(Io(ChunkPayloadTruncated));
      }
      decoded := decoded + body[cursor..end];
      cursor := end;
      if !CrlfAt(body, cursor) {
        return Err(Io(ChunkCrlfMissing));
      }
      cursor := Plus(cursor, 2, syn.umax);
    }
  }

  /** One turn of the decoder's loop. */
  lemma PayloadStep(body: bytes, cursor: nat, decoded: bytes, size: nat, next: nat, syn: Syntax)
    requires cursor <= |body| && size != 0
    requires ReadSizeLine(body, cursor, syn) == Size(size, next)
    ensures Prepend(decoded, Payload(body, cursor, syn)) ==
      if next + size > syn.umax then Err(Io(ChunkSizeOverflow))
      else if next + size > |body| then Err(Io(ChunkPayloadTruncated))
      else if !CrlfAt(body, next + size) then Err(Io(ChunkCrlfMissing))
      else Prepend(decoded + body[next..next + size], Payload(body, next + size + 2, syn))
  {
    if next + size <= syn.umax && CrlfAt(body, next + size) {
      PrependTwice(decoded, body[next..next + size], Payload(body, next + size + 2, syn));
    }
  }

  lemma PrependNothing(r: Result<bytes, Error>)
    ensures Prepend([], r) == r
  {
    if r.Ok? {
      assert [] + r.value == r.value;
    }
  }

  lemma PrependTwice(a: bytes, b: bytes, r: Result<bytes, Error>)
    ensures Prepend(a, Prepend(b, r)) == Prepend(a + b, r)
  {
    if r.Ok? {
      assert a + (b + r.value) == a + b + r.value;
    }
  }

  // ---------------------------------------------------------------- growing input

  lemma ReadSizeLineStable(body: bytes, more: bytes, cursor: nat, syn: Syntax)
    requires cursor <= |body|
    requires !ReadSizeLine(body, cursor, syn).Unterminated?
    ensures ReadSizeLine(body + more, cursor, syn) == ReadSizeLine(body, cursor, syn)
  {
    FindPairStable(body, CR, LF, cursor, more);
    var lineEnd := FindCrlf(body, cursor).value;
    assert (body + more)[cursor..lineEnd] == body[cursor..lineEnd];
  }

  lemma ReadSizeLineCut(body: bytes, n: nat, cursor: nat, syn: Syntax)
    requires cursor <= n <= |body|
    requires var r := ReadSizeLine(body, cursor, syn); r.Size? && r.next <= n
    ensures ReadSizeLine(body[..n], cursor, syn) == ReadSizeLine(body, cursor, syn)
  {
    FindPairCut(body, CR, LF, cursor, n);
    var lineEnd := FindCrlf(body, cursor).value;
    assert body[..n][cursor..lineEnd] == body[cursor..lineEnd];
  }

  lemma CrlfAtStable(body: bytes, more: bytes, from: nat)
    requires from + 2 <= |body|
    ensures CrlfAt(body + more, from) == CrlfAt(body, from)
  {
  }

  /** Verdicts are final: a complete length or an error survives every extension of the input. */
  lemma {:induction false} WireLenFinal(body: bytes, more: bytes, cursor: nat, syn: Syntax)
    requires cursor <= |body|
    requires WireLen(body, cursor, syn) != NotYet
    ensures WireLen(body + more, cursor, syn) == WireLen(body, cursor, syn)
    decreases |body| - cursor
  {
    ReadSizeLineStable(body, more, cursor, syn);
    match ReadSizeLine(body, cursor, syn)
    case Unterminated =>
    case BadLine(_) =>
    case Size(size, next) =>
      if size == 0 {
        CrlfAtStable(body, more, next);
      } else if next + size + 2 <= |body| {
        CrlfAtStable(body, more, next + size);
        if next + size <= syn.umax && CrlfAt(body, next + size) {
          WireLenFinal(body, more, next + size + 2, syn);
        }
      }
  }

  /** Verdicts are tight: nothing shorter than the complete length is complete or malformed. */
  lemma WireLenTight(body: bytes, n: nat, m: nat, syn: Syntax)
    requires WireLen(body, 0, syn) == CompleteAt(n)
    requires m < n
    ensures WireLen(body[..m], 0, syn) == NotYet
  {
    assert body[..m] + body[m..] == body;
    if WireLen(body[..m], 0, syn) != NotYet {
      WireLenFinal(body[..m], body[m..], 0, syn);
    }
  }

  // ---------------------------------------------------------------- scanner against decoder

  /** The decoder's complaints about input that merely stopped too early. */
  predicate Incomplete(e: Error) {
    e == Io(ChunkDelimiterMissing) || e == Io(ChunkPayloadTruncated) || e == Io(ChunkCrlfMissing)
  }

  /** Step by step: an error is the same error, completeness means success, and while the scanner
      says "not yet" the decoder succeeds or reports input that stopped early. */
  lemma {:induction false} LoopsAgree(body: bytes, cursor: nat, syn: Syntax)
    requires cursor <= |body|
    ensures var verdict, payload := WireLen(body, cursor, syn), Payload(body, cursor, syn);
      && (verdict.Malformed? ==> payload == Err(verdict.error))
      && (verdict.CompleteAt? ==> payload.Ok?)
      && (verdict == NotYet && payload.Err? ==> Incomplete(payload.error))
    decreases |body| - cursor
  {
    match ReadSizeLine(body, cursor, syn)
    case Unterminated =>
    case BadLine(_) =>
    case Size(size, next) =>
      if size != 0 && next + size <= syn.umax && CrlfAt(body, next + size) {
        LoopsAgree(body, next + size + 2, syn);
      }
  }

  /** A complete body is still complete when what follows it is cut off. */
  lemma {:induction false} WireLenCut(body: bytes, n: nat, cursor: nat, syn: Syntax)
    requires cursor <= |body|
    requires WireLen(body, cursor, syn) == CompleteAt(n)
    ensures cursor <= n <= |body| && WireLen(body[..n], cursor, syn) == CompleteAt(n)
    decreases |body| - cursor
  {
    var Size(size, next) := ReadSizeLine(body, cursor, syn);
    ReadSizeLineCut(body, n, cursor, syn);
    if size != 0 {
      WireLenCut(body, n, next + size + 2, syn);
    }
  }

  /** What the decoder accepted it decodes the same way when more bytes follow. */
  lemma {:induction false} PayloadFinal(body: bytes, more: bytes, cursor: nat, syn: Syntax)
    requires cursor <= |body|
    requires Payload(body, cursor, syn).Ok?
    ensures Payload(body + more, cursor, syn) == Payload(body, cursor, syn)
    decreases |body| - cursor
  {
    ReadSizeLineStable(body, more, cursor, syn);
    var Size(size, next) := ReadSizeLine(body, cursor, syn);
    if size != 0 {
      CrlfAtStable(body, more, next + size);
      assert (body + more)[next..next + size] == body[next..next + size];
      PayloadFinal(body, more, next + size + 2, syn);
    }
  }

  /** The two loops simulate each other: the same errors, and on a complete body the decoder succeeds
      with what it finds in the body cut at the complete length. */
  lemma ScannerAgreesWithDecoder(body: bytes, syn: Syntax)
    ensures var verdict, payload := WireLen(body, 0, syn), Payload(body, 0, syn);
      && (verdict.Malformed? ==> payload == Err(verdict.error))
      && (verdict.CompleteAt? ==> payload.Ok? && Payload(body[..verdict.length], 0, syn) == payload)
      && (verdict == NotYet && payload.Err? ==> Incomplete(payload.error))
  {
    LoopsAgree(body, 0, syn);
    if WireLen(body, 0, syn).CompleteAt? {
      var n := WireLen(body, 0, syn).length;
      WireLenCut(body, n, 0, syn);
      LoopsAgree(body[..n], 0, syn);
      PayloadFinal(body[..n], body[n..], 0, syn);
      assert body[..n] + body[n..] == body;
    }
  }

  /** What the decoder says once the scanner has a verdict holds for every longer body. */
  lemma VerdictDecidesPayload(body: bytes, more: bytes, syn: Syntax)
    requires WireLen(body, 0, syn) != NotYet
    ensures var verdict, payload := WireLen(body, 0, syn), Payload(body + more, 0, syn);
      && (verdict.Malformed? ==> payload == Err(verdict.error))
      && (verdict.CompleteAt? ==> payload.Ok? && payload == Payload(body[..verdict.length], 0, syn))
  {
    WireLenFinal(body, more, 0, syn);
    ScannerAgreesWithDecoder(body + more, syn);
    if WireLen(body, 0, syn).CompleteAt? {
      var n := WireLen(body, 0, syn).length;
      assert (body + more)[..n] == body[..n];
    }
  }

  // ---------------------------------------------------------------- the wire grammar

  /** A chunked body as it travels, up to the line end of the zero-size line. Lines are kept without
      their line ends; trailers and the final line end are not part of it. */
  datatype Framing =
    | LastChunk(line: bytes)
    | Chunk(line: bytes, payload: bytes, rest: Framing)

  predicate ValidSizeLine(line: bytes, size: nat, syn: Syntax) {
    NoCrlf(line) && syn.readSize(line) == Ok(size)
  }

  predicate Valid(f: Framing, syn: Syntax) {
    match f
    case LastChunk(line) => ValidSizeLine(line, 0, syn)
    case Chunk(line, payload, rest) =>
      payload != [] && ValidSizeLine(line, |payload|, syn) && Valid(rest, syn)
  }

  function Wire(f: Framing): bytes {
    match f
    case LastChunk(line) => line + CRLF
    case Chunk(line, payload, rest) => line + CRLF + payload + CRLF + Wire(rest)
  }

  function Data(f: Framing): bytes {
    match f
    case LastChunk(_) => []
    case Chunk(_, payload, rest) => payload + Data(rest)
  }

  function Count(f: Framing): nat {
    match f
    case LastChunk(_) => 0
    case Chunk(_, _, rest) => 1 + Count(rest)
  }

  /** Bytes spent on size lines and line ends. */
  function Overhead(f: Framing): nat {
    match f
    case LastChunk(line) => |line| + 2
    case Chunk(line, _, rest) => |line| + 4 + Overhead(rest)
  }

  lemma AtCrlf(body: bytes, from: nat)
    ensures At(body, from, CRLF) <==> CrlfAt(body, from)
  {
  }

  lemma ReadValidSizeLine(body: bytes, cursor: nat, line: bytes, size: nat, syn: Syntax)
    requires ValidSizeLine(line, size, syn)
    requires At(body, cursor, line + CRLF)
    ensures ReadSizeLine(body, cursor, syn) == Size(size, cursor + |line| + 2)
  {
    AtConcat(body, cursor, line, CRLF);
    AtCrlf(body, cursor + |line|);
    FindPairAfter(body, cursor, line, CR, LF);
  }

  /** A chunk and what follows it, piece by piece. */
  lemma AtChunk(body: bytes, cursor: nat, line: bytes, payload: bytes, tail: bytes)
    ensures var next := cursor + |line| + 2;
      At(body, cursor, line + CRLF + payload + CRLF + tail) <==>
        && At(body, cursor, line + CRLF)
        && At(body, next, payload)
        && CrlfAt(body, next + |payload|)
        && At(body, next + |payload| + 2, tail)
  {
    AtConcat(body, cursor, line + CRLF + payload + CRLF, tail);
    AtConcat(body, cursor, line + CRLF + payload, CRLF);
    AtConcat(body, cursor, line + CRLF, payload);
    AtCrlf(body, cursor + |line| + 2 + |payload|);
  }

  // ---------------------------------------------------------------- where the pieces lie

  /** The index ranges a walk runs through: payloads, then the end of the zero-size line. */
  datatype Layout = End(next: nat) | Turn(from: nat, to: nat, rest: Layout)

  predicate Laid(body: bytes, cursor: nat, l: Layout, syn: Syntax)
    decreases l
  {
    && cursor <= |body|
    && match l
      case End(next) => ReadSizeLine(body, cursor, syn) == Size(0, next)
      case Turn(from, to, rest) =>
        && from < to
        && ReadSizeLine(body, cursor, syn) == Size(to - from, from)
        && CrlfAt(body, to)
        && Laid(body, to + 2, rest, syn)
  }

  function Extract(body: bytes, l: Layout): bytes {
    match l
    case End(_) => []
    case Turn(from, to, rest) => if from <= to <= |body| then body[from..to] + Extract(body, rest) else []
  }

  function EndOf(l: Layout): nat {
    match l
    case End(next) => next
    case Turn(_, _, rest) => EndOf(rest)
  }

  lemma PayloadTurn(body: bytes, cursor: nat, from: nat, to: nat, syn: Syntax)
    requires cursor <= |body| && from < to <= syn.umax
    requires ReadSizeLine(body, cursor, syn) == Size(to - from, from) && CrlfAt(body, to)
    ensures Payload(body, cursor, syn) == Prepend(body[from..to], Payload(body, to + 2, syn))
  {
  }

  lemma {:induction false} PayloadLaid(body: bytes, cursor: nat, l: Layout, syn: Syntax)
    requires Laid(body, cursor, l, syn) && |body| <= syn.umax
    ensures Payload(body, cursor, syn) == Ok(Extract(body, l))
    decreases l
  {
    if l.Turn? {
      PayloadTurn(body, cursor, l.from, l.to, syn);
      PayloadLaid(body, l.to + 2, l.rest, syn);
    }
  }

  lemma {:induction false} WireLenLaid(body: bytes, cursor: nat, l: Layout, syn: Syntax)
    requires Laid(body, cursor, l, syn) && |body| <= syn.umax
    ensures WireLen(body, cursor, syn) == if CrlfAt(body, EndOf(l)) then CompleteAt(EndOf(l) + 2) else NotYet
    decreases l
  {
    if l.Turn? {
      WireLenLaid(body, l.to + 2, l.rest, syn);
    }
  }

  /** The ranges the decoder ran through in a body it accepted. */
  lemma {:induction false} DecoderLayout(body: bytes, cursor: nat, syn: Syntax) returns (l: Layout)
    requires cursor <= |body| && Payload(body, cursor, syn).Ok?
    ensures Laid(body, cursor, l, syn)
    decreases |body| - cursor
  {
    var Size(size, next) := ReadSizeLine(body, cursor, syn);
    if size == 0 {
      l := End(next);
    } else {
      var rest := DecoderLayout(body, next + size + 2, syn);
      l := Turn(next, next + size, rest);
    }
  }

  // ---------------------------------------------------------------- framings and layouts

  function LayoutOf(f: Framing, cursor: nat): Layout {
    var next := cursor + |f.line| + 2;
    match f
    case LastChunk(_) => End(next)
    case Chunk(_, payload, rest) => Turn(next, next + |payload|, LayoutOf(rest, next + |payload| + 2))
  }

  /** What a walk finds at the front of a framing. */
  lemma FirstPieces(body: bytes, cursor: nat, f: Framing, syn: Syntax)
    requires Valid(f, syn) && At(body, cursor, Wire(f))
    ensures f.line == body[cursor..cursor + |f.line|]
    ensures var next := cursor + |f.line| + 2;
      && ReadSizeLine(body, cursor, syn) == Size(if f.Chunk? then |f.payload| else 0, next)
      && (f.Chunk? ==> CrlfAt(body, next + |f.payload|) && At(body, next + |f.payload| + 2, Wire(f.rest)))
  {
    if f.Chunk? {
      AtChunk(body, cursor, f.line, f.payload, Wire(f.rest));
    }
    AtConcat(body, cursor, f.line, CRLF);
    ReadValidSizeLine(body, cursor, f.line, if f.Chunk? then |f.payload| else 0, syn);
  }

  lemma PieceIsLaid(body: bytes, cursor: nat, f: Framing, syn: Syntax)
    requires cursor <= |body|
    requires f.Chunk? ==> f.payload != []
    requires var next := cursor + |f.line| + 2;
      && ReadSizeLine(body, cursor, syn) == Size(if f.Chunk? then |f.payload| else 0, next)
      && (f.Chunk? ==>
        var to := next + |f.payload|; CrlfAt(body, to) && Laid(body, to + 2, LayoutOf(f.rest, to + 2), syn))
    ensures Laid(body, cursor, LayoutOf(f, cursor), syn)
  {
  }

  /** A framing that stands in the body is laid out there. */
  lemma {:induction false} FramingIsLaid(body: bytes, cursor: nat, f: Framing, syn: Syntax)
    requires Valid(f, syn) && At(body, cursor, Wire(f))
    ensures Laid(body, cursor, LayoutOf(f, cursor), syn)
    decreases f
  {
    FirstPieces(body, cursor, f, syn);
    if f.Chunk? {
      FramingIsLaid(body, cursor + |f.line| + 2 + |f.payload| + 2, f.rest, syn);
    }
    PieceIsLaid(body, cursor, f, syn);
  }

  lemma {:induction false} LayoutEnds(f: Framing, cursor: nat)
    ensures EndOf(LayoutOf(f, cursor)) == cursor + |Wire(f)|
    decreases f
  {
    if f.Chunk? {
      LayoutEnds(f.rest, cursor + |f.line| + 2 + |f.payload| + 2);
    }
  }

  lemma {:induction false} FramingExtract(body: bytes, cursor: nat, f: Framing)
    requires At(body, cursor, Wire(f))
    ensures Extract(body, LayoutOf(f, cursor)) == Data(f)
    decreases f
  {
    if f.Chunk? {
      AtChunk(body, cursor, f.line, f.payload, Wire(f.rest));
      FramingExtract(body, cursor + |f.line| + 2 + |f.payload| + 2, f.rest);
    }
  }

  /** A line as it stands in the body: no line end inside, one behind. */
  predicate LineAt(body: bytes, at: nat, line: bytes) {
    NoCrlf(line) && At(body, at, line + CRLF)
  }

  lemma LineFound(body: bytes, cursor: nat) returns (line: bytes)
    requires cursor <= |body| && FindCrlf(body, cursor).Some?
    ensures LineAt(body, cursor, line) && FindCrlf(body, cursor).value == cursor + |line|
  {
    var lineEnd := FindCrlf(body, cursor).value;
    line := body[cursor..lineEnd];
    FindPairExactly(body, CR, LF, cursor, Some(lineEnd));
    forall k | 0 <= k
      ensures !PairAt(line, CR, LF, k)
    {
      assert !PairAt(body, CR, LF, cursor + k) || cursor + k >= lineEnd;
    }
    FindPairExactly(line, CR, LF, 0, None);
    AtConcat(body, cursor, line, CRLF);
    AtCrlf(body, lineEnd);
  }

  /** What a walk reads at a line. */
  lemma ReadLineAt(body: bytes, at: nat, line: bytes, syn: Syntax)
    requires LineAt(body, at, line)
    ensures ReadSizeLine(body, at, syn) ==
      match syn.readSize(line)
      case Err(e) => BadLine(e)
      case Ok(size) => Size(size, at + |line| + 2)
  {
    AtConcat(body, at, line, CRLF);
    AtCrlf(body, at + |line|);
    FindPairAfter(body, at, line, CR, LF);
  }

  lemma ReadLineBack(body: bytes, cursor: nat, syn: Syntax) returns (line: bytes)
    requires cursor <= |body|
    requires ReadSizeLine(body, cursor, syn).Size?
    ensures var Size(size, next) := ReadSizeLine(body, cursor, syn);
      ValidSizeLine(line, size, syn) && At(body, cursor, line + CRLF) && next == cursor + |line| + 2
  {
    line := LineFound(body, cursor);
    ReadLineAt(body, cursor, line, syn);
  }

  lemma ChunkStands(body: bytes, cursor: nat, line: bytes, from: nat, to: nat, rest: Framing, syn: Syntax)
    returns (f: Framing)
    requires from < to && from == cursor + |line| + 2
    requires ValidSizeLine(line, to - from, syn) && At(body, cursor, line + CRLF)
    requires CrlfAt(body, to)
    requires Valid(rest, syn) && At(body, to + 2, Wire(rest))
    ensures Valid(f, syn) && At(body, cursor, Wire(f))
  {
    var payload := body[from..to];
    f := Chunk(line, payload, rest);
    AtChunk(body, cursor, line, payload, Wire(rest));
  }

  /** What is laid out in a body is a framing that stands there. */
  lemma {:induction false} LaidIsFraming(body: bytes, cursor: nat, l: Layout, syn: Syntax) returns (f: Framing)
    requires Laid(body, cursor, l, syn)
    ensures Valid(f, syn) && At(body, cursor, Wire(f))
    decreases l
  {
    var line := ReadLineBack(body, cursor, syn);
    match l
    case End(_) =>
      f := LastChunk(line);
    case Turn(from, to, rest) =>
      var tail := LaidIsFraming(body, to + 2, rest, syn);
      f := ChunkStands(body, cursor, line, from, to, tail, syn);
  }

  predicate Framed(body: bytes, f: Framing, syn: Syntax) {
    Valid(f, syn) && At(body, 0, Wire(f))
  }

  lemma {:induction false} WireSize(f: Framing)
    ensures |Wire(f)| == |Data(f)| + Overhead(f)
  {
    if f.Chunk? {
      WireSize(f.rest);
    }
  }

  /** The decoder over a framed body. */
  lemma {:induction false} DecodeFramed(body: bytes, f: Framing, syn: Syntax)
    requires Framed(body, f, syn) && |body| <= syn.umax
    ensures Payload(body, 0, syn) == Ok(Data(f))
  {
    FramingIsLaid(body, 0, f, syn);
    FramingExtract(body, 0, f);
    PayloadLaid(body, 0, LayoutOf(f, 0), syn);
  }

  /** The scanner over a framed body. */
  lemma {:induction false} ScanFramed(body: bytes, f: Framing, syn: Syntax)
    requires Framed(body, f, syn) && |body| <= syn.umax
    ensures WireLen(body, 0, syn) == if CrlfAt(body, |Wire(f)|) then CompleteAt(|Wire(f)| + 2) else NotYet
  {
    FramingIsLaid(body, 0, f, syn);
    LayoutEnds(f, 0);
    WireLenLaid(body, 0, LayoutOf(f, 0), syn);
  }

  /** The decoder accepts exactly the framed bodies, and returns their data: it needs neither the
      final line end nor trailers. */
  lemma {:induction false} DecoderExactly(body: bytes, data: bytes, syn: Syntax)
    requires |body| <= syn.umax
    ensures Payload(body, 0, syn) == Ok(data) <==> exists f :: Framed(body, f, syn) && Data(f) == data
  {
    if Payload(body, 0, syn) == Ok(data) {
      var l := DecoderLayout(body, 0, syn);
      var f := LaidIsFraming(body, 0, l, syn);
      DecodeFramed(body, f, syn);
    }
    forall f | Framed(body, f, syn)
      ensures Payload(body, 0, syn) == Ok(Data(f))
    {
      DecodeFramed(body, f, syn);
    }
  }

  /** The scanner calls a body complete exactly when a framing directly followed by a line end stands
      at its front. */
  lemma {:induction false} ScannerExactly(body: bytes, n: nat, syn: Syntax)
    requires |body| <= syn.umax
    ensures WireLen(body, 0, syn) == CompleteAt(n)
      <==> exists f :: Framed(body, f, syn) && CrlfAt(body, |Wire(f)|) && n == |Wire(f)| + 2
  {
    if WireLen(body, 0, syn) == CompleteAt(n) {
      ScannerAgreesWithDecoder(body, syn);
      DecoderExactly(body, Payload(body, 0, syn).value, syn);
      var f :| Framed(body, f, syn);
      ScanFramed(body, f, syn);
    }
    forall f | Framed(body, f, syn)
      ensures WireLen(body, 0, syn) == if CrlfAt(body, |Wire(f)|) then CompleteAt(|Wire(f)| + 2) else NotYet
    {
      ScanFramed(body, f, syn);
    }
  }

  /** The decoder succeeds while the scanner says "not yet" exactly when the zero-size line is not
      directly followed by a line end: nothing, half of one, or trailers stand there. */
  lemma {:induction false} DecoderAloneExactly(body: bytes, syn: Syntax)
    requires |body| <= syn.umax
    ensures Payload(body, 0, syn).Ok? && WireLen(body, 0, syn) == NotYet
      <==> exists f :: Framed(body, f, syn) && !CrlfAt(body, |Wire(f)|)
  {
    if Payload(body, 0, syn).Ok? {
      DecoderExactly(body, Payload(body, 0, syn).value, syn);
      var f :| Framed(body, f, syn);
      ScanFramed(body, f, syn);
    }
    forall f | Framed(body, f, syn)
      ensures Payload(body, 0, syn) == Ok(Data(f))
      ensures WireLen(body, 0, syn) == if CrlfAt(body, |Wire(f)|) then CompleteAt(|Wire(f)| + 2) else NotYet
    {
      DecodeFramed(body, f, syn);
      ScanFramed(body, f, syn);
    }
  }

  /** Trailers (section 7.1.2 of RFC 9112) keep the scanner waiting for ever, though the decoder is
      content: no later byte completes the message. */
  lemma TrailersNeverComplete(f: Framing, trailers: bytes, more: bytes, syn: Syntax)
    requires Valid(f, syn) && |trailers| >= 2 && !CrlfAt(trailers, 0)
    requires |Wire(f) + trailers + more| <= syn.umax
    ensures WireLen(Wire(f) + trailers + more, 0, syn) == NotYet
    ensures Payload(Wire(f) + trailers + more, 0, syn) == Ok(Data(f))
  {
    var body := Wire(f) + trailers + more;
    assert Framed(body, f, syn);
    ScanFramed(body, f, syn);
    DecodeFramed(body, f, syn);
    assert body[|Wire(f)|] == trailers[0] && body[|Wire(f)| + 1] == trailers[1];
  }

  lemma {:induction false} WirePrefixUnique(body: bytes, cursor: nat, f: Framing, g: Framing, syn: Syntax)
    requires Valid(f, syn) && At(body, cursor, Wire(f))
    requires Valid(g, syn) && At(body, cursor, Wire(g))
    ensures f == g
    decreases f
  {
    SameSizeLine(body, cursor, f, g, syn);
    if f.Chunk? {
      AtChunk(body, cursor, f.line, f.payload, Wire(f.rest));
      AtChunk(body, cursor, g.line, g.payload, Wire(g.rest));
      WirePrefixUnique(body, cursor + |f.line| + 2 + |f.payload| + 2, f.rest, g.rest, syn);
    }
  }

  lemma SameSizeLine(body: bytes, cursor: nat, f: Framing, g: Framing, syn: Syntax)
    requires Valid(f, syn) && At(body, cursor, Wire(f))
    requires Valid(g, syn) && At(body, cursor, Wire(g))
    ensures f.line == g.line
    ensures f.Chunk? <==> g.Chunk?
    ensures f.Chunk? ==> |f.payload| == |g.payload|
  {
    FirstPieces(body, cursor, f, syn);
    FirstPieces(body, cursor, g, syn);
  }

  /** A body reads as chunks in at most one way. */
  lemma FramingIsUnique(body: bytes, f: Framing, g: Framing, syn: Syntax)
    requires Framed(body, f, syn) && Framed(body, g, syn)
    ensures f == g
  {
    WirePrefixUnique(body, 0, f, g, syn);
  }

  lemma {:induction false} OverheadBound(f: Framing, syn: Syntax)
    requires Valid(f, syn) && syn.readSize([]).Err?
    ensures Overhead(f) >= 5 * Count(f) + 3
  {
    if f.Chunk? {
      OverheadBound(f.rest, syn);
    }
  }

  /** Conservation: output plus framing bytes is what the decoder consumed; when no size line is
      empty, each chunk costs at least five framing bytes and the end at least three. */
  lemma Conservation(body: bytes, f: Framing, syn: Syntax)
    requires Framed(body, f, syn) && |body| <= syn.umax && syn.readSize([]).Err?
    ensures Payload(body, 0, syn).Ok?
    ensures |Payload(body, 0, syn).value| + Overhead(f) == |Wire(f)| <= |body|
    ensures |Payload(body, 0, syn).value| + 5 * Count(f) + 3 <= |body|
  {
    DecodeFramed(body, f, syn);
    WireSize(f);
    OverheadBound(f, syn);
  }
}