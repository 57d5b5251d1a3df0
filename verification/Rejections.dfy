/** Which chunked bodies the two loops reject, and with which error: first by the steps of the walks, then by
    the bytes that stand in the body. */
module Rejections {
  import opened Prelude
  import opened Errors
  import opened Scan
  import opened Syntax
  import opened Chunked

  // ---------------------------------------------------------------- step by step

  /** Where the walk stands after `n` whole chunks, if so many stand there. */
  function AfterChunks(body: bytes, cursor: nat, n: nat, syn: Syntax): (r: Option<nat>)
    requires cursor <= |body|
    ensures r.Some? ==> cursor <= r.value <= |body|
    decreases n
  {
    if n == 0 then Some(cursor)
    else
      match ReadSizeLine(body, cursor, syn)
      case Unterminated => None
      case BadLine(_) => None
      case Size(size, next) =>
        if size == 0 || next + size > syn.umax || !CrlfAt(body, next + size) then None
        else AfterChunks(body, next + size + 2, n - 1, syn)
  }

  /** The scanner stops at `at` with an error. */
  predicate Rejected(body: bytes, at: nat, e: Error, syn: Syntax)
    requires at <= |body|
  {
    match ReadSizeLine(body, at, syn)
    case Unterminated => false
    case BadLine(bad) => e == bad
    case Size(size, next) =>
      && size > 0
      && (next + size > syn.umax || (next + size + 2 <= |body| && !CrlfAt(body, next + size)))
      && e == if next + size > syn.umax then Io(ChunkSizeOverflow) else Io(ChunkCrlfMissing)
  }

  /** The decoder alone stops at `at` with an error. */
  predicate CutShort(body: bytes, at: nat, e: Error, syn: Syntax)
    requires at <= |body|
  {
    match ReadSizeLine(body, at, syn)
    case Unterminated => e == Io(ChunkDelimiterMissing)
    case BadLine(_) => false
    case Size(size, next) =>
      && size > 0 && next + size <= syn.umax && next + size + 2 > |body|
      && e == if next + size > |body| then Io(ChunkPayloadTruncated) else Io(ChunkCrlfMissing)
  }

  /** A whole chunk stands at `cursor` and ends before `next`. */
  predicate ChunkAt(body: bytes, cursor: nat, next: nat, syn: Syntax)
    requires cursor <= |body|
  {
    var line := ReadSizeLine(body, cursor, syn);
    && line.Size? && line.size > 0
    && line.next + line.size + 2 == next
    && line.next + line.size <= syn.umax
    && CrlfAt(body, line.next + line.size)
  }

  lemma OverChunk(body: bytes, cursor: nat, next: nat, n: nat, syn: Syntax)
    requires cursor <= |body| && ChunkAt(body, cursor, next, syn)
    ensures cursor < next <= |body|
    ensures AfterChunks(body, cursor, n + 1, syn) == AfterChunks(body, next, n, syn)
    ensures WireLen(body, cursor, syn) == WireLen(body, next, syn)
    ensures Payload(body, next, syn).Err? ==> Payload(body, cursor, syn) == Payload(body, next, syn)
    ensures Payload(body, next, syn).Ok? ==> Payload(body, cursor, syn).Ok?
  {
  }

  lemma FirstChunk(body: bytes, cursor: nat, n: nat, syn: Syntax) returns (next: nat)
    requires cursor <= |body| && n > 0 && AfterChunks(body, cursor, n, syn).Some?
    ensures ChunkAt(body, cursor, next, syn)
  {
    var Size(size, start) := ReadSizeLine(body, cursor, syn);
    next := start + size + 2;
  }

  /** Both walks go on as from behind `n` whole chunks. */
  lemma {:induction false} WalkOn(body: bytes, cursor: nat, n: nat, at: nat, syn: Syntax)
    requires cursor <= |body| && AfterChunks(body, cursor, n, syn) == Some(at)
    ensures WireLen(body, cursor, syn) == WireLen(body, at, syn)
    ensures Payload(body, at, syn).Err? ==> Payload(body, cursor, syn) == Payload(body, at, syn)
    decreases n
  {
    if n > 0 {
      var next := FirstChunk(body, cursor, n, syn);
      OverChunk(body, cursor, next, n - 1, syn);
      WalkOn(body, next, n - 1, at, syn);
    }
  }

  lemma ErrorsHere(body: bytes, at: nat, e: Error, syn: Syntax)
    requires at <= |body|
    ensures Rejected(body, at, e, syn) ==> WireLen(body, at, syn) == Malformed(e)
    ensures Rejected(body, at, e, syn) || CutShort(body, at, e, syn) ==> Payload(body, at, syn) == Err(e)
  {
  }

  /** Without a chunk at `cursor` both loops end there. */
  lemma NoChunk(body: bytes, cursor: nat, e: Error, syn: Syntax)
    requires cursor <= |body| && Payload(body, cursor, syn) == Err(e)
    requires forall next :: !ChunkAt(body, cursor, next, syn)
    ensures Rejected(body, cursor, e, syn) || (CutShort(body, cursor, e, syn) && WireLen(body, cursor, syn) == NotYet)
  {
    match ReadSizeLine(body, cursor, syn)
    case Unterminated =>
    case BadLine(_) =>
    case Size(size, next) =>
      assert !ChunkAt(body, cursor, next + size + 2, syn);
  }

  lemma {:induction false} ErrorFound(body: bytes, cursor: nat, e: Error, syn: Syntax) returns (n: nat, at: nat)
    requires cursor <= |body| && Payload(body, cursor, syn) == Err(e)
    ensures AfterChunks(body, cursor, n, syn) == Some(at)
    ensures Rejected(body, at, e, syn) || (CutShort(body, at, e, syn) && WireLen(body, cursor, syn) == NotYet)
    decreases |body| - cursor
  {
    if next :| ChunkAt(body, cursor, next, syn) {
      var m;
      OverChunk(body, cursor, next, 0, syn);
      m, at := ErrorFound(body, next, e, syn);
      OverChunk(body, cursor, next, m, syn);
      n := m + 1;
    } else {
      NoChunk(body, cursor, e, syn);
      n, at := 0, cursor;
    }
  }

  // ---------------------------------------------------------------- by the bytes

  datatype WholeChunk = WholeChunk(line: bytes, payload: bytes) {
    function Wire(): bytes {
      line + CRLF + payload + CRLF
    }

    predicate Ok(syn: Syntax) {
      payload != [] && ValidSizeLine(line, |payload|, syn)
    }
  }

  /** Whole chunks as they travel. */
  function ChunksWire(chunks: seq<WholeChunk>): bytes {
    if chunks == [] then [] else chunks[0].Wire() + ChunksWire(chunks[1..])
  }

  predicate ChunksValid(chunks: seq<WholeChunk>, syn: Syntax) {
    forall c :: c in chunks ==> c.Ok(syn)
  }

  /** What can never become a chunk, however the body goes on: a size line that does not read, a size past
      the address space, or a payload followed by two other bytes. */
  predicate Unmendable(body: bytes, at: nat, line: bytes, e: Error, syn: Syntax) {
    var next := at + |line| + 2;
    && LineAt(body, at, line)
    && match syn.readSize(line)
      case Err(bad) => e == bad
      case Ok(size) =>
        && size > 0
        && if next + size > syn.umax then e == Io(ChunkSizeOverflow)
          else next + size + 2 <= |body| && !At(body, next + size, CRLF) && e == Io(ChunkCrlfMissing)
  }

  /** What may be the beginning of a chunk: `e` names the first thing that lacks. */
  predicate Unfinished(body: bytes, at: nat, line: bytes, e: Error, syn: Syntax) {
    var next := at + |line| + 2;
    && LineAt(body, at, line)
    && match syn.readSize(line)
      case Err(_) => false
      case Ok(size) =>
        && size > 0 && next + size <= syn.umax && next + size + 2 > |body|
        && e == if next + size > |body| then Io(ChunkPayloadTruncated) else Io(ChunkCrlfMissing)
  }

  ghost predicate RejectedAt(body: bytes, at: nat, e: Error, syn: Syntax) {
    exists line :: Unmendable(body, at, line, e, syn)
  }

  ghost predicate CutShortAt(body: bytes, at: nat, e: Error, syn: Syntax) {
    || (at <= |body| && NoCrlf(body[at..]) && e == Io(ChunkDelimiterMissing))
    || exists line :: Unfinished(body, at, line, e, syn)
  }

  /** The decoder fails at what cannot be mended and at what was cut short. */
  ghost predicate FailsAt(body: bytes, at: nat, e: Error, syn: Syntax) {
    RejectedAt(body, at, e, syn) || CutShortAt(body, at, e, syn)
  }

  lemma NoLineLeft(body: bytes, at: nat)
    requires at <= |body|
    ensures NoCrlf(body[at..]) <==> FindCrlf(body, at) == None
  {
    FindPairExactly(body[at..], CR, LF, 0, None);
    FindPairExactly(body, CR, LF, at, None);
    forall k | 0 <= k
      ensures PairAt(body[at..], CR, LF, k) <==> PairAt(body, CR, LF, at + k)
    {
    }
    if FindCrlf(body, at).Some? {
      var p := FindCrlf(body, at).value;
      assert PairAt(body[at..], CR, LF, p - at);
    }
  }

  lemma UnmendableExactly(body: bytes, at: nat, line: bytes, e: Error, syn: Syntax)
    requires at <= |body| && LineAt(body, at, line)
    ensures Unmendable(body, at, line, e, syn) <==> Rejected(body, at, e, syn)
    ensures Unfinished(body, at, line, e, syn) <==> CutShort(body, at, e, syn)
  {
    ReadLineAt(body, at, line, syn);
    if syn.readSize(line).Ok? {
      AtCrlf(body, at + |line| + 2 + syn.readSize(line).value);
    }
  }

  lemma RejectedAtExactly(body: bytes, at: nat, e: Error, syn: Syntax)
    requires at <= |body|
    ensures RejectedAt(body, at, e, syn) <==> Rejected(body, at, e, syn)
    ensures CutShortAt(body, at, e, syn) <==> CutShort(body, at, e, syn)
  {
    NoLineLeft(body, at);
    if FindCrlf(body, at).Some? {
      var line := LineFound(body, at);
      UnmendableExactly(body, at, line, e, syn);
    }
    forall line | LineAt(body, at, line)
      ensures FindCrlf(body, at).Some?
      ensures Unmendable(body, at, line, e, syn) <==> Rejected(body, at, e, syn)
      ensures Unfinished(body, at, line, e, syn) <==> CutShort(body, at, e, syn)
    {
      ReadLineAt(body, at, line, syn);
      UnmendableExactly(body, at, line, e, syn);
    }
  }

  // ---------------------------------------------------------------- whole chunks

  /** A whole chunk, piece by piece. */
  lemma AtWholeChunk(body: bytes, cursor: nat, c: WholeChunk)
    ensures At(body, cursor, c.Wire()) <==>
      && At(body, cursor, c.line + CRLF)
      && At(body, cursor + |c.line| + 2, c.payload)
      && CrlfAt(body, cursor + |c.line| + 2 + |c.payload|)
  {
    AtConcat(body, cursor, c.line + CRLF + c.payload, CRLF);
    AtConcat(body, cursor, c.line + CRLF, c.payload);
    AtCrlf(body, cursor + |c.line| + 2 + |c.payload|);
  }

  lemma PassesOne(body: bytes, cursor: nat, c: WholeChunk, syn: Syntax)
    requires cursor <= |body| <= syn.umax && c.Ok(syn) && At(body, cursor, c.Wire())
    ensures ChunkAt(body, cursor, cursor + |c.Wire()|, syn)
  {
    AtWholeChunk(body, cursor, c);
    ReadValidSizeLine(body, cursor, c.line, |c.payload|, syn);
  }

  lemma PassedIsChunk(body: bytes, cursor: nat, next: nat, syn: Syntax) returns (c: WholeChunk)
    requires cursor <= |body| && ChunkAt(body, cursor, next, syn)
    ensures c.Ok(syn) && At(body, cursor, c.Wire()) && next == cursor + |c.Wire()|
  {
    var line := ReadLineBack(body, cursor, syn);
    var Size(size, from) := ReadSizeLine(body, cursor, syn);
    c := WholeChunk(line, body[from..from + size]);
    AtWholeChunk(body, cursor, c);
  }

  lemma FrontAndRest(body: bytes, cursor: nat, c: WholeChunk, rest: seq<WholeChunk>, syn: Syntax)
    ensures ChunksValid([c] + rest, syn) <==> c.Ok(syn) && ChunksValid(rest, syn)
    ensures At(body, cursor, ChunksWire([c] + rest))
      <==> At(body, cursor, c.Wire()) && At(body, cursor + |c.Wire()|, ChunksWire(rest))
    ensures |ChunksWire([c] + rest)| == |c.Wire()| + |ChunksWire(rest)|
  {
    assert ([c] + rest)[1..] == rest;
    assert forall d :: d in [c] + rest <==> d == c || d in rest;
    AtConcat(body, cursor, c.Wire(), ChunksWire(rest));
  }

  lemma PassesFront(body: bytes, cursor: nat, c: WholeChunk, rest: seq<WholeChunk>, syn: Syntax)
    requires cursor <= |body| <= syn.umax
    requires ChunksAt(body, cursor, [c] + rest, syn)
    ensures var next := cursor + |c.Wire()|;
      && next <= |body| && ChunksAt(body, next, rest, syn)
      && AfterChunks(body, cursor, |rest| + 1, syn) == AfterChunks(body, next, |rest|, syn)
      && ChunksEnd(cursor, [c] + rest) == ChunksEnd(next, rest)
  {
    FrontAndRest(body, cursor, c, rest, syn);
    PassesOne(body, cursor, c, syn);
    OverChunk(body, cursor, cursor + |c.Wire()|, |rest|, syn);
  }

  predicate ChunksAt(body: bytes, cursor: int, chunks: seq<WholeChunk>, syn: Syntax) {
    ChunksValid(chunks, syn) && At(body, cursor, ChunksWire(chunks))
  }

  function ChunksEnd(cursor: nat, chunks: seq<WholeChunk>): nat {
    cursor + |ChunksWire(chunks)|
  }

  /** The walks pass over whole chunks. */
  lemma {:induction false} PassesChunks(body: bytes, cursor: nat, chunks: seq<WholeChunk>, syn: Syntax)
    requires cursor <= |body| <= syn.umax && ChunksAt(body, cursor, chunks, syn)
    ensures AfterChunks(body, cursor, |chunks|, syn) == Some(ChunksEnd(cursor, chunks))
    decreases |chunks|
  {
    if chunks != [] {
      var c, rest := chunks[0], chunks[1..];
      assert chunks == [c] + rest;
      PassesFront(body, cursor, c, rest, syn);
      PassesChunks(body, cursor + |c.Wire()|, rest, syn);
    }
  }

  lemma PassedFront(body: bytes, cursor: nat, next: nat, rest: seq<WholeChunk>, syn: Syntax)
    returns (chunks: seq<WholeChunk>)
    requires cursor <= |body| && ChunkAt(body, cursor, next, syn) && ChunksAt(body, next, rest, syn)
    ensures ChunksAt(body, cursor, chunks, syn) && ChunksEnd(cursor, chunks) == ChunksEnd(next, rest)
  {
    var c := PassedIsChunk(body, cursor, next, syn);
    FrontAndRest(body, cursor, c, rest, syn);
    chunks := [c] + rest;
  }

  /** What the walks passed over are whole chunks. */
  lemma {:induction false} PassedAreChunks(body: bytes, cursor: nat, n: nat, at: nat, syn: Syntax)
    returns (chunks: seq<WholeChunk>)
    requires cursor <= |body| && AfterChunks(body, cursor, n, syn) == Some(at)
    ensures ChunksAt(body, cursor, chunks, syn) && at == ChunksEnd(cursor, chunks)
    decreases n
  {
    if n == 0 {
      chunks := [];
    } else {
      var next := FirstChunk(body, cursor, n, syn);
      OverChunk(body, cursor, next, n - 1, syn);
      var rest := PassedAreChunks(body, next, n - 1, at, syn);
      chunks := PassedFront(body, cursor, next, rest, syn);
    }
  }

  /** Whole chunks stand at the front of the body. */
  predicate Standing(body: bytes, chunks: seq<WholeChunk>, syn: Syntax) {
    ChunksAt(body, 0, chunks, syn)
  }

  /** The scanner's errors, exactly: behind some whole chunks stands what no further byte can mend. */
  lemma ScannerRejectsExactly(body: bytes, e: Error, syn: Syntax)
    requires |body| <= syn.umax
    ensures WireLen(body, 0, syn) == Malformed(e)
      <==> exists chunks :: Standing(body, chunks, syn) && RejectedAt(body, |ChunksWire(chunks)|, e, syn)
  {
    if WireLen(body, 0, syn) == Malformed(e) {
      LoopsAgree(body, 0, syn);
      var n, at := ErrorFound(body, 0, e, syn);
      var chunks := PassedAreChunks(body, 0, n, at, syn);
      RejectedAtExactly(body, at, e, syn);
      assert Standing(body, chunks, syn);
    }
    forall chunks | Standing(body, chunks, syn) && RejectedAt(body, |ChunksWire(chunks)|, e, syn)
      ensures WireLen(body, 0, syn) == Malformed(e)
    {
      ErrorsBehind(body, chunks, e, syn);
    }
  }

  /** The decoder's errors, exactly: those of the scanner, and input that stops inside a chunk. */
  lemma DecoderRejectsExactly(body: bytes, e: Error, syn: Syntax)
    requires |body| <= syn.umax
    ensures Payload(body, 0, syn) == Err(e)
      <==> exists chunks :: Standing(body, chunks, syn) && FailsAt(body, |ChunksWire(chunks)|, e, syn)
  {
    if Payload(body, 0, syn) == Err(e) {
      var n, at := ErrorFound(body, 0, e, syn);
      var chunks := PassedAreChunks(body, 0, n, at, syn);
      RejectedAtExactly(body, at, e, syn);
      assert Standing(body, chunks, syn);
    }
    forall chunks | Standing(body, chunks, syn) && FailsAt(body, |ChunksWire(chunks)|, e, syn)
      ensures Payload(body, 0, syn) == Err(e)
    {
      ErrorsBehind(body, chunks, e, syn);
    }
  }

  lemma ErrorsBehind(body: bytes, chunks: seq<WholeChunk>, e: Error, syn: Syntax)
    requires |body| <= syn.umax && Standing(body, chunks, syn)
    ensures var at := |ChunksWire(chunks)|;
      && (RejectedAt(body, at, e, syn) ==> WireLen(body, 0, syn) == Malformed(e))
      && (FailsAt(body, at, e, syn) ==> Payload(body, 0, syn) == Err(e))
  {
    var at := |ChunksWire(chunks)|;
    PassesChunks(body, 0, chunks, syn);
    WalkOn(body, 0, |chunks|, at, syn);
    ErrorsHere(body, at, e, syn);
    RejectedAtExactly(body, at, e, syn);
  }

  /** A size line that does not read fails both loops with its own error, behind any whole chunks and
      whatever follows. */
  lemma BadSizeLineFails(chunks: seq<WholeChunk>, line: bytes, e: Error, more: bytes, syn: Syntax)
    requires ChunksValid(chunks, syn) && NoCrlf(line) && syn.readSize(line) == Err(e)
    requires |ChunksWire(chunks) + (line + CRLF) + more| <= syn.umax
    ensures WireLen(ChunksWire(chunks) + (line + CRLF) + more, 0, syn) == Malformed(e)
    ensures Payload(ChunksWire(chunks) + (line + CRLF) + more, 0, syn) == Err(e)
  {
    var body := ChunksWire(chunks) + (line + CRLF) + more;
    assert Standing(body, chunks, syn);
    assert Unmendable(body, |ChunksWire(chunks)|, line, e, syn);
    ErrorsBehind(body, chunks, e, syn);
  }

  /** A chunked body cut anywhere before the end of its zero-size line is not decoded: the decoder says that
      the input stopped, and the scanner waits. */
  lemma CutFramingFails(f: Framing, n: nat, syn: Syntax)
    requires Valid(f, syn) && n < |Wire(f)| <= syn.umax
    ensures WireLen(Wire(f)[..n], 0, syn) == NotYet
    ensures Payload(Wire(f)[..n], 0, syn).Err? && Incomplete(Payload(Wire(f)[..n], 0, syn).error)
  {
    var body, front := Wire(f), Wire(f)[..n];
    assert body == front + body[n..];
    assert Framed(body, f, syn);
    ScanFramed(body, f, syn);
    if WireLen(front, 0, syn) != NotYet {
      WireLenFinal(front, body[n..], 0, syn);
    }
    if Payload(front, 0, syn).Ok? {
      DecoderExactly(front, Payload(front, 0, syn).value, syn);
      var g :| Framed(front, g, syn);
      assert Framed(body, g, syn);
      FramingIsUnique(body, f, g, syn);
      assert false;
    }
    LoopsAgree(front, 0, syn);
  }
}
