/** When a response is complete, and what a response parses to. */
module Response {
  import opened Prelude
  import opened Errors
  import opened Scan
  import opened Syntax
  import opened Headers
  import opened Chunked

  datatype HttpResponse = HttpResponse(
    statusCode: u16,
    body: bytes,
    etag: Option<string>,
    lastModified: Option<string>)

  /** Length of the complete body at the front of `body`, if it has arrived. Chunked framing overrides
      Content-Length; without either only the end of the stream ends the body. */
  function BodyLen(meta: Metadata, body: bytes, syn: Syntax): (v: Verdict)
    ensures v.CompleteAt? ==> v.length <= |body|
  {
    if meta.chunked then WireLen(body, 0, syn)
    else if meta.contentLength.Some? && |body| >= meta.contentLength.value then CompleteAt(meta.contentLength.value)
    else NotYet
  }

  function CompleteLen(response: bytes, syn: Syntax): (v: Verdict)
    ensures v.CompleteAt? ==> v.length <= |response|
  {
    match MetadataOf(response, syn)
    case Err(e) => Malformed(e)
    case Ok(None) => NotYet
    case Ok(Some(meta)) =>
      match BodyLen(meta, response[meta.headerEnd + 4..], syn)
      case Malformed(e) => Malformed(e)
      case NotYet => NotYet
      case CompleteAt(n) => CompleteAt(meta.headerEnd + 4 + n)
  }

  function BodyOf(meta: Metadata, body: bytes, syn: Syntax): Result<bytes, Error> {
    if meta.chunked then Payload(body, 0, syn)
    else if meta.contentLength.Some? then
      if meta.contentLength.value <= |body| then Ok(body[..meta.contentLength.value])
      else Err(Io(BodyShorterThanDeclared(meta.contentLength.value)))
    else Ok(body)
  }

  function Parse(response: bytes, syn: Syntax): Result<HttpResponse, Error> {
    match MetadataOf(response, syn)
    case Err(e) => Err(e)
    case Ok(None) => Err(Io(HeaderTerminatorMissing))
    case Ok(Some(meta)) =>
      match BodyOf(meta, response[meta.headerEnd + 4..], syn)
      case Err(e) => Err(e)
      case Ok(body) => Ok(HttpResponse(meta.statusCode, body, meta.etag, meta.lastModified))
  }

  function SuccessfulBody(response: HttpResponse): Result<bytes, Error> {
    if 200 <= response.statusCode < 300 then Ok(response.body) else Err(Http(response.statusCode, response.body))
  }

  // ---------------------------------------------------------------- the executable forms

  method HttpResponseCompleteLen(response: bytes, syn: Syntax) returns (v: Verdict)
    requires FitsInMemory(response, syn.umax)
    ensures v == CompleteLen(response, syn)
  {
    match MetadataOf(response, syn)
    case Err(e) => return Malformed(e);
    case Ok(None) => return NotYet;
    case Ok(Some(meta)) =>
      var bodyStart := Plus(meta.headerEnd, 4, syn.umax);
      var body := response[bodyStart..];
      if meta.chunked {
        var bodyLen := ChunkedWireLen(body, syn);
        match bodyLen
        case Malformed(e) => return Malformed(e);
        case NotYet => return NotYet;
        case CompleteAt(n) => return CompleteAt(Plus(bodyStart, n, syn.umax));
      }
      if meta.contentLength.Some? && |body| >= meta.contentLength.value {
        return CompleteAt(Plus(bodyStart, meta.contentLength.value, syn.umax));
      }
      return NotYet;
  }

  method ParseHttpResponse(response: bytes, syn: Syntax) returns (r: Result<HttpResponse, Error>)
    requires FitsInMemory(response, syn.umax)
    ensures r == Parse(response, syn)
  {
    match MetadataOf(response, syn)
    case Err(e) => return Err(e);
    case Ok(None) => return Err(Io(HeaderTerminatorMissing));
    case Ok(Some(meta)) =>
      var bodyBytes := response[Plus(meta.headerEnd, 4, syn.umax)..];
      var body := bodyBytes;
      if meta.chunked {
        var decoded := DecodeChunkedBody(bodyBytes, syn);
        match decoded
        case Err(e) => return Err(e);
        case Ok(data) => body := data;
      } else if meta.contentLength.Some? {
        if meta.contentLength.value > |bodyBytes| {
          return Err(Io(BodyShorterThanDeclared(meta.contentLength.value)));
        }
        body := bodyBytes[..meta.contentLength.value];
      }
      return Ok(HttpResponse(meta.statusCode, body, meta.etag, meta.lastModified));
  }

  // ---------------------------------------------------------------- growing input

  lemma MetadataStable(response: bytes, more: bytes, syn: Syntax)
    requires MetadataOf(response, syn) != Ok(None)
    ensures MetadataOf(response + more, syn) == MetadataOf(response, syn)
  {
    FindTerminatorStable(response, more, 0);
    var headerEnd := FindTerminator(response).value;
    assert (response + more)[..headerEnd] == response[..headerEnd];
  }

  lemma BodyLenFinal(meta: Metadata, body: bytes, more: bytes, syn: Syntax)
    requires BodyLen(meta, body, syn) != NotYet
    ensures BodyLen(meta, body + more, syn) == BodyLen(meta, body, syn)
  {
    if meta.chunked {
      WireLenFinal(body, more, 0, syn);
    }
  }

  /** Once a body's verdict is in, the parse of every longer body is the one of the body cut there. */
  lemma BodyVerdictDecides(meta: Metadata, body: bytes, more: bytes, syn: Syntax)
    requires BodyLen(meta, body, syn) != NotYet
    ensures var verdict, parsed := BodyLen(meta, body, syn), BodyOf(meta, body + more, syn);
      && (verdict.Malformed? ==> parsed == Err(verdict.error))
      && (verdict.CompleteAt? ==> parsed.Ok? && parsed == BodyOf(meta, body[..verdict.length], syn))
  {
    if meta.chunked {
      VerdictDecidesPayload(body, more, syn);
    } else {
      var n := meta.contentLength.value;
      assert (body + more)[..n] == body[..n][..n];
    }
  }

  /** Verdicts are final: "complete at n" or an error survives every extension of the input. */
  lemma VerdictFinal(response: bytes, more: bytes, syn: Syntax)
    requires CompleteLen(response, syn) != NotYet
    ensures CompleteLen(response + more, syn) == CompleteLen(response, syn)
  {
    MetadataStable(response, more, syn);
    if MetadataOf(response, syn).Ok? {
      var meta := MetadataOf(response, syn).value.value;
      var body := response[meta.headerEnd + 4..];
      assert (response + more)[meta.headerEnd + 4..] == body + more;
      BodyLenFinal(meta, body, more, syn);
    }
  }

  /** Verdicts are tight: nothing shorter than the complete length is complete or malformed. */
  lemma VerdictTight(response: bytes, n: nat, m: nat, syn: Syntax)
    requires CompleteLen(response, syn) == CompleteAt(n)
    requires m < n
    ensures CompleteLen(response[..m], syn) == NotYet
  {
    assert response[..m] + response[m..] == response;
    if CompleteLen(response[..m], syn) != NotYet {
      VerdictFinal(response[..m], response[m..], syn);
    }
  }

  /** Stopping early is parsing whole: once the verdict is in, however the input goes on, the whole
      parses to what the complete part parses to, and a malformed beginning to the same error. */
  lemma VerdictDecidesParse(response: bytes, more: bytes, syn: Syntax)
    requires CompleteLen(response, syn) != NotYet
    ensures var verdict, parsed := CompleteLen(response, syn), Parse(response + more, syn);
      && (verdict.Malformed? ==> parsed == Err(verdict.error))
      && (verdict.CompleteAt? ==> parsed.Ok? && parsed == Parse(response[..verdict.length], syn))
  {
    MetadataStable(response, more, syn);
    if MetadataOf(response, syn).Ok? {
      var meta := MetadataOf(response, syn).value.value;
      var start := meta.headerEnd + 4;
      var body := response[start..];
      assert (response + more)[start..] == body + more;
      BodyVerdictDecides(meta, body, more, syn);
      if CompleteLen(response, syn).CompleteAt? {
        var n := CompleteLen(response, syn).length;
        assert response[..n][start..] == body[..n - start];
        MetadataCut(response, n, syn);
      }
    }
  }

  lemma MetadataCut(response: bytes, n: nat, syn: Syntax)
    requires var r := MetadataOf(response, syn);
      r.Ok? && r.value.Some? && r.value.value.headerEnd + 4 <= n <= |response|
    ensures MetadataOf(response[..n], syn) == MetadataOf(response, syn)
  {
    var headerEnd := FindTerminator(response).value;
    FindTerminatorCut(response, n, 0);
    assert response[..n][..headerEnd] == response[..headerEnd];
  }

  // ---------------------------------------------------------------- the blank line

  /** As soon as the first blank line stands, a head that does not read makes the response malformed, and a
      head that reads says where the body starts. */
  lemma HeadDecides(response: bytes, headerEnd: nat, syn: Syntax)
    requires TerminatorAt(response, headerEnd)
    requires forall k :: 0 <= k < headerEnd ==> !TerminatorAt(response, k)
    ensures match syn.readHead(response[..headerEnd])
      case Err(e) => CompleteLen(response, syn) == Malformed(e) && Parse(response, syn) == Err(e)
      case Ok(head) =>
        MetadataOf(response, syn) == Ok(Some(Metadata(
          headerEnd, head.statusCode, head.contentLength, head.chunked, head.etag, head.lastModified)))
  {
    FindTerminatorFirst(response, 0, headerEnd);
  }

  /** Without a blank line a response is never complete, and an error at the end of the stream. */
  lemma NoBlankLine(response: bytes, syn: Syntax)
    requires forall k :: 0 <= k ==> !TerminatorAt(response, k)
    ensures CompleteLen(response, syn) == NotYet
    ensures Parse(response, syn) == Err(Io(HeaderTerminatorMissing))
  {
    NoTerminator(response, 0);
  }

  // ---------------------------------------------------------------- responses that end at the blank line

  /** Section 6.3 of RFC 9112 ends a 1xx, 204 or 304 response at the blank line whatever its fields
      say. The code looks only at the fields: it calls such a response complete exactly when they
      declare length 0, and can parse it exactly when they declare length 0 or nothing. */
  lemma BodylessExactly(response: bytes, meta: Metadata, syn: Syntax)
    requires MetadataOf(response, syn) == Ok(Some(meta))
    requires meta.headerEnd + 4 == |response|
    ensures CompleteLen(response, syn) == CompleteAt(|response|)
      <==> !meta.chunked && meta.contentLength == Some(0)
    ensures Parse(response, syn).Ok?
      <==> !meta.chunked && (meta.contentLength == None || meta.contentLength == Some(0))
  {
    assert response[meta.headerEnd + 4..] == [];
    assert FindCrlf([], 0) == None;
  }
}
