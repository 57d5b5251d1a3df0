/** The text layer: how a response head and a chunk-size line read. */
module Headers {
  import opened Prelude
  import opened Errors
  import opened Scan
  import opened Syntax
  import opened Text
  import Utf8

  const CONTENT_LENGTH := "content-length"
  const TRANSFER_ENCODING := "transfer-encoding"
  const ETAG := "etag"
  const LAST_MODIFIED := "last-modified"

  // ---------------------------------------------------------------- one line

  datatype Field = NoField | Field(name: string, value: string)

  /** A field as it is written: blanks may stand around the name and the value. */
  datatype HeaderField = HeaderField(name: Padded, value: Padded) {
    function Text(): string {
      name.Text() + ":" + value.Text()
    }

    predicate Ok() {
      name.Ok() && value.Ok() && ':' !in name.Text() && SingleLine(Text())
    }

    function Core(): Field {
      Field(name.core, value.core)
    }
  }

  /** `split_once(':')` with both halves trimmed. */
  function FieldOf(line: string): Field {
    match SplitOnce(line, ':')
    case None => NoField
    case Some(parts) => Field(Trim(parts.0), Trim(parts.1))
  }

  function FieldsOf(lines: seq<string>): (fields: seq<Field>)
    ensures |fields| == |lines|
    ensures forall k :: 0 <= k < |lines| ==> fields[k] == FieldOf(lines[k])
  {
    if lines == [] then [] else [FieldOf(lines[0])] + FieldsOf(lines[1..])
  }

  /** `eq_ignore_ascii_case` against a name that is in lower case already. */
  predicate Named(field: Field, name: string) {
    field.Field? && Lower(field.name) == name
  }

  /** The chunk size a size line declares; what follows the first ';' is an extension. */
  function SizeOf(line: bytes, umax: nat): Result<nat, Error> {
    match Utf8.Decode(line)
    case None => Err(Io(ChunkLineNotUtf8(line)))
    case Some(text) =>
      var sizeText := Trim(Before(text, ';'));
      match ParseUint(sizeText, 16, umax)
      case Err(e) => Err(Io(ChunkSizeInvalid(sizeText, e)))
      case Ok(size) => Ok(size)
  }

  // ---------------------------------------------------------------- a whole head, declaratively

  /** The values of the fields with this name, in order. */
  function Values(fields: seq<Field>, name: string): seq<string> {
    if fields == [] then []
    else
      var field := fields[|fields| - 1];
      Values(fields[..|fields| - 1], name) + if Named(field, name) then [field.value] else []
  }

  function LastValue(fields: seq<Field>, name: string): Option<string> {
    var values := Values(fields, name);
    if values == [] then None else Some(values[|values| - 1])
  }

  /** The last Content-Length decides, even by not being a number. */
  function DeclaredLength(fields: seq<Field>, umax: nat): Option<nat> {
    match LastValue(fields, CONTENT_LENGTH)
    case None => None
    case Some(value) => LengthIn(value, umax)
  }

  function LengthIn(value: string, umax: nat): Option<nat> {
    match ParseUint(value, 10, umax)
    case Ok(n) => Some(n)
    case Err(_) => None
  }

  predicate SaysChunked(value: string) {
    Contains(Lower(value), "chunked")
  }

  /** Any Transfer-Encoding value that mentions "chunked" is enough. */
  predicate DeclaresChunked(fields: seq<Field>) {
    exists value :: value in Values(fields, TRANSFER_ENCODING) && SaysChunked(value)
  }

  function StatusCode(statusLine: string): Result<u16, Error> {
    match SecondWord(statusLine)
    case None => Err(Io(StatusCodeMissing))
    case Some(word) =>
      match ParseUint(word, 10, 0xFFFF)
      case Err(e) => Err(Io(StatusCodeInvalid(e)))
      case Ok(n) => ParseUintExactly(word, 10, 0xFFFF, n); Ok(n)
  }

  /** What the bytes before the blank line say. */
  function HeadOf(head: bytes, umax: nat): Result<Head, Error> {
    match Utf8.Decode(head)
    case None => Err(Io(HeaderNotUtf8(head)))
    case Some(text) =>
      var lines := SplitLines(text);
      match StatusCode(lines[0])
      case Err(e) => Err(e)
      case Ok(status) => Ok(HeadFrom(status, FieldsOf(lines[1..]), umax))
  }

  function HeadFrom(status: u16, fields: seq<Field>, umax: nat): Head {
    Head(status, DeclaredLength(fields, umax), DeclaresChunked(fields),
      LastValue(fields, ETAG), LastValue(fields, LAST_MODIFIED))
  }

  /** The readings the program uses. */
  function HttpSyntax(umax: nat): Syntax {
    Syntax((head: bytes) => HeadOf(head, umax), (line: bytes) => SizeOf(line, umax), umax)
  }

  /** Where the head ends and what it says: "not yet" without the blank line. */
  function MetadataOf(response: bytes, syn: Syntax): (r: Result<Option<Metadata>, Error>)
    ensures r.Ok? && r.value.Some? ==> r.value.value.headerEnd + 4 <= |response|
  {
    match FindTerminator(response)
    case None => Ok(None)
    case Some(headerEnd) =>
      match syn.readHead(response[..headerEnd])
      case Err(e) => Err(e)
      case Ok(head) =>
        Ok(Some(Metadata(headerEnd, head.statusCode, head.contentLength, head.chunked, head.etag, head.lastModified)))
  }

  // ---------------------------------------------------------------- the scanning loop

  lemma LastValueSnoc(fields: seq<Field>, field: Field, name: string)
    ensures LastValue(fields + [field], name)
      == if Named(field, name) then Some(field.value) else LastValue(fields, name)
  {
    assert (fields + [field])[..|fields|] == fields;
  }

  lemma DeclaresChunkedSnoc(fields: seq<Field>, field: Field)
    ensures DeclaresChunked(fields + [field])
      <==> DeclaresChunked(fields) || (Named(field, TRANSFER_ENCODING) && SaysChunked(field.value))
  {
    assert (fields + [field])[..|fields|] == fields;
  }

  /** One more field's effect on the four readings. The names differ, so it touches at most one. */
  lemma HeadFromSnoc(status: u16, fields: seq<Field>, field: Field, umax: nat)
    ensures HeadFrom(status, fields + [field], umax) ==
      var head := HeadFrom(status, fields, umax);
      if Named(field, CONTENT_LENGTH) then head.(contentLength := LengthIn(field.value, umax))
      else if Named(field, TRANSFER_ENCODING) && SaysChunked(field.value) then head.(chunked := true)
      else if Named(field, ETAG) then head.(etag := Some(field.value))
      else if Named(field, LAST_MODIFIED) then head.(lastModified := Some(field.value))
      else head
  {
    LastValueSnoc(fields, field, CONTENT_LENGTH);
    LastValueSnoc(fields, field, ETAG);
    LastValueSnoc(fields, field, LAST_MODIFIED);
    DeclaresChunkedSnoc(fields, field);
    assert |CONTENT_LENGTH| == 14 && |TRANSFER_ENCODING| == 17 && |ETAG| == 4 && |LAST_MODIFIED| == 13;
  }

  /** The loop over the header lines computes the declarative reading. */
  method ScanFields(status: u16, fields: seq<Field>, umax: nat) returns (head: Head)
    ensures head == HeadFrom(status, fields, umax)
  {
    var contentLength: Option<nat> := None;
    var chunked := false;
    var etag: Option<string> := None;
    var lastModified: Option<string> := None;
    for k := 0 to |fields|
      invariant Head(status, contentLength, chunked, etag, lastModified) == HeadFrom(status, fields[..k], umax)
    {
      var field := fields[k];
      HeadFromSnoc(status, fields[..k], field, umax);
      assert fields[..k + 1] == fields[..k] + [field];
      if field == NoField {
        continue;
      }
      if Named(field, CONTENT_LENGTH) {
        contentLength := LengthIn(field.value, umax);
      } else if Named(field, TRANSFER_ENCODING) && SaysChunked(field.value) {
        chunked := true;
      } else if Named(field, ETAG) {
        etag := Some(field.value);
      } else if Named(field, LAST_MODIFIED) {
        lastModified := Some(field.value);
      }
    }
    assert fields[..|fields|] == fields;
    head := Head(status, contentLength, chunked, etag, lastModified);
  }

  method HttpResponseMetadata(response: bytes, umax: nat) returns (r: Result<Option<Metadata>, Error>)
    ensures r == MetadataOf(response, HttpSyntax(umax))
  {
    var terminator := FindTerminator(response);
    if terminator == None {
      return Ok(None);
    }
    var headerEnd := terminator.value;
    var text := Utf8.Decode(response[..headerEnd]);
    if text == None {
      return Err(Io(HeaderNotUtf8(response[..headerEnd])));
    }
    var lines := SplitLines(text.value);
    var status;
    match StatusCode(lines[0]) {
      case Err(e) => return Err(e);
      case Ok(n) => status := n;
    }
    var head := ScanFields(status, FieldsOf(lines[1..]), umax);
    r := Ok(Some(Metadata(headerEnd, status, head.contentLength, head.chunked, head.etag, head.lastModified)));
  }

  /** The value read for a name is the one of the last line with that name. */
  lemma {:induction false} LastValueExactly(fields: seq<Field>, name: string, value: string)
    ensures LastValue(fields, name) == Some(value) <==>
      exists k :: LastNamed(fields, name, k) && fields[k].value == value
  {
    if fields != [] {
      var n := |fields| - 1;
      LastValueSnoc(fields[..n], fields[n], name);
      assert fields == fields[..n] + [fields[n]];
      if Named(fields[n], name) {
        assert LastNamed(fields, name, n);
      } else {
        LastValueExactly(fields[..n], name, value);
        if LastValue(fields, name) == Some(value) {
          var k :| LastNamed(fields[..n], name, k) && fields[..n][k].value == value;
          assert LastNamed(fields, name, k);
        }
        forall k | LastNamed(fields, name, k)
          ensures LastNamed(fields[..n], name, k)
        {
          assert k != n;
        }
      }
    }
  }

  predicate LastNamed(fields: seq<Field>, name: string, k: int) {
    0 <= k < |fields| && Named(fields[k], name) && forall i :: k < i < |fields| ==> !Named(fields[i], name)
  }

  // ---------------------------------------------------------------- order of lines

  predicate DifferentNames(x: Field, y: Field) {
    x.NoField? || y.NoField? || Lower(x.name) != Lower(y.name)
  }

  /** `order` lists every line once, and lines of the same name in their order. */
  predicate KeepsOrder(fields: seq<Field>, order: seq<nat>) {
    && |order| == |fields|
    && (forall i :: 0 <= i < |order| ==> order[i] < |fields|)
    && (forall k :: 0 <= k < |fields| ==> k in order)
    && (forall i, j :: 0 <= i < j < |order| ==>
      order[i] < order[j] || (order[i] != order[j] && DifferentNames(fields[order[i]], fields[order[j]])))
  }

  /** The lines in this order. */
  function Arranged(fields: seq<Field>, order: seq<nat>): (r: seq<Field>)
    requires forall i :: 0 <= i < |order| ==> order[i] < |fields|
    ensures |r| == |order|
    ensures forall i :: 0 <= i < |order| ==> r[i] == fields[order[i]]
  {
    if order == [] then [] else [fields[order[0]]] + Arranged(fields, order[1..])
  }

  /** The last line with a name is still the last one with that name. */
  lemma LastStaysLast(fields: seq<Field>, order: seq<nat>, name: string, k: nat) returns (i: nat)
    requires KeepsOrder(fields, order) && LastNamed(fields, name, k)
    ensures LastNamed(Arranged(fields, order), name, i) && Arranged(fields, order)[i] == fields[k]
  {
    assert k in order;
    i :| i < |order| && order[i] == k;
    forall j | i < j < |order|
      ensures !Named(Arranged(fields, order)[j], name)
    {
      if order[j] > k {
        assert !Named(fields[order[j]], name);
      }
    }
  }

  lemma {:induction false} FindLastNamed(fields: seq<Field>, name: string, k: nat) returns (last: nat)
    requires k < |fields| && Named(fields[k], name)
    ensures LastNamed(fields, name, last)
    decreases |fields| - k
  {
    last := k;
    if j :| k < j < |fields| && Named(fields[j], name) {
      last := FindLastNamed(fields, name, j);
    }
  }

  lemma LastValueArranged(fields: seq<Field>, order: seq<nat>, name: string)
    requires KeepsOrder(fields, order)
    ensures LastValue(Arranged(fields, order), name) == LastValue(fields, name)
  {
    var arranged := Arranged(fields, order);
    if k: nat :| k < |fields| && Named(fields[k], name) {
      var last := FindLastNamed(fields, name, k);
      var i := LastStaysLast(fields, order, name, last);
      LastValueExactly(fields, name, fields[last].value);
      LastValueExactly(arranged, name, fields[last].value);
    } else {
      NoValue(fields, name);
      NoValue(arranged, name);
    }
  }

  lemma NoValue(fields: seq<Field>, name: string)
    requires forall k :: 0 <= k < |fields| ==> !Named(fields[k], name)
    ensures LastValue(fields, name) == None
  {
    if LastValue(fields, name).Some? {
      LastValueExactly(fields, name, LastValue(fields, name).value);
    }
  }

  /** A value is read for a name exactly when some line with that name has it. */
  lemma {:induction false} ValuesExactly(fields: seq<Field>, name: string, value: string)
    ensures value in Values(fields, name)
      <==> exists k :: 0 <= k < |fields| && Named(fields[k], name) && fields[k].value == value
  {
    if fields != [] {
      var n := |fields| - 1;
      ValuesExactly(fields[..n], name, value);
      if k :| 0 <= k < n && Named(fields[..n][k], name) && fields[..n][k].value == value {
        assert Named(fields[k], name);
      }
      if k :| 0 <= k < n && Named(fields[k], name) && fields[k].value == value {
        assert Named(fields[..n][k], name);
      }
    }
  }

  lemma ChunkedArranged(fields: seq<Field>, order: seq<nat>)
    requires KeepsOrder(fields, order)
    ensures DeclaresChunked(Arranged(fields, order)) <==> DeclaresChunked(fields)
  {
    var arranged := Arranged(fields, order);
    forall value: string
      ensures value in Values(arranged, TRANSFER_ENCODING) <==> value in Values(fields, TRANSFER_ENCODING)
    {
      ValuesExactly(fields, TRANSFER_ENCODING, value);
      ValuesExactly(arranged, TRANSFER_ENCODING, value);
      forall k | 0 <= k < |fields|
        ensures exists i :: 0 <= i < |arranged| && arranged[i] == fields[k]
      {
        assert k in order;
        var i :| 0 <= i < |order| && order[i] == k;
        assert arranged[i] == fields[k];
      }
    }
  }

  /** Rearranging the lines of a head in any way that keeps lines of the same name in order never changes
      what the head says. */
  lemma ReorderingIsHarmless(status: u16, fields: seq<Field>, order: seq<nat>, umax: nat)
    requires KeepsOrder(fields, order)
    ensures HeadFrom(status, Arranged(fields, order), umax) == HeadFrom(status, fields, umax)
  {
    LastValueArranged(fields, order, CONTENT_LENGTH);
    LastValueArranged(fields, order, ETAG);
    LastValueArranged(fields, order, LAST_MODIFIED);
    ChunkedArranged(fields, order);
  }
}
