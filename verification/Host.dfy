/** The host boundary and the conditional GET: validators leave the parser, cross the boundary as
    headers, are looked up again, and go into the next request. */
module Host {
  import opened Prelude
  import opened Errors
  import opened Syntax
  import opened Text
  import C = Chunked
  import R = Response
  import Reader
  import Resolver
  import H = Headers
  import T = RoundTrip

  datatype Header = Header(name: string, value: string)

  datatype ErrorKind = DnsKind | TlsKind | IoKind | TimeoutKind

  /** The wire carries an error's kind and its text; the text of an error is kept as the error. */
  datatype HostResponse =
    | HttpReply(statusCode: u16, headers: seq<Header>, body: bytes)
    | TcpReply(elapsedMs: nat)
    | ErrorReply(kind: ErrorKind, message: Error)

  // ---------------------------------------------------------------- across the boundary

  function KindOf(e: Error): ErrorKind {
    match e
    case Dns(_) => DnsKind
    case Tls(_) => TlsKind
    case Io(_) => IoKind
    case Http(_, _) => IoKind
    case Timeout => TimeoutKind
  }

  function DecodeError(kind: ErrorKind, message: Error): Error {
    match kind
    case DnsKind => Dns(RelayedDns(message))
    case TlsKind => Tls(RelayedTls(message))
    case IoKind => Io(RelayedIo(message))
    case TimeoutKind => Timeout
  }

  function Optional(name: string, value: Option<string>): seq<Header> {
    if value.Some? then [Header(name, value.value)] else []
  }

  function Validators(response: R.HttpResponse): seq<Header> {
    Optional("etag", response.etag) + Optional("last-modified", response.lastModified)
  }

  method HeadersFromResponse(response: R.HttpResponse) returns (headers: seq<Header>)
    ensures headers == Validators(response)
  {
    headers := [];
    if response.etag.Some? {
      headers := headers + [Header("etag", response.etag.value)];
    }
    if response.lastModified.Some? {
      headers := headers + [Header("last-modified", response.lastModified.value)];
    }
  }

  /** The first header whose name matches, whatever its case. */
  function HeaderValue(headers: seq<Header>, name: string): Option<string> {
    if headers == [] then None
    else if EqIgnoreCase(headers[0].name, name) then Some(headers[0].value)
    else HeaderValue(headers[1..], name)
  }

  predicate FirstMatch(headers: seq<Header>, name: string, k: int) {
    && 0 <= k < |headers| && CaseVariant(headers[k].name, name)
    && forall i :: 0 <= i < k ==> !CaseVariant(headers[i].name, name)
  }

  /** The lookup finds a value exactly when the first header with that name, in any letter case, has it. */
  lemma {:induction false} HeaderValueExactly(headers: seq<Header>, name: string, value: string)
    ensures HeaderValue(headers, name) == Some(value)
      <==> exists k :: FirstMatch(headers, name, k) && headers[k].value == value
  {
    if headers != [] {
      var rest := headers[1..];
      EqIgnoreCaseExactly(headers[0].name, name);
      if CaseVariant(headers[0].name, name) {
        assert FirstMatch(headers, name, 0);
      } else {
        HeaderValueExactly(rest, name, value);
        if HeaderValue(rest, name) == Some(value) {
          var k :| FirstMatch(rest, name, k) && rest[k].value == value;
          assert FirstMatch(headers, name, k + 1);
        }
        forall k | FirstMatch(headers, name, k)
          ensures FirstMatch(rest, name, k - 1)
        {
          forall i | 0 <= i < k - 1
            ensures !CaseVariant(rest[i].name, name)
          {
            assert rest[i] == headers[i + 1];
          }
        }
      }
    }
  }

  /** The host side of an HTTPS request, given what the request itself came to. */
  function HttpsReply(performed: Result<R.HttpResponse, Error>): HostResponse {
    match performed
    case Ok(response) => HttpReply(response.statusCode, Validators(response), response.body)
    case Err(e) => ErrorReply(KindOf(e), e)
  }

  function ExecuteHttpsGet(reply: HostResponse): Result<R.HttpResponse, Error> {
    match reply
    case HttpReply(status, headers, body) =>
      Ok(R.HttpResponse(status, body, HeaderValue(headers, "etag"), HeaderValue(headers, "last-modified")))
    case ErrorReply(kind, message) => Err(DecodeError(kind, message))
    case TcpReply(_) => Err(Io(WrongResponseKind))
  }

  /** Of two optional headers with different names each is found under its own. */
  lemma OptionalsAreFound(first: string, u: Option<string>, second: string, v: Option<string>)
    requires !EqIgnoreCase(first, second)
    ensures HeaderValue(Optional(first, u) + Optional(second, v), first) == u
    ensures HeaderValue(Optional(first, u) + Optional(second, v), second) == v
  {
    var headers := Optional(first, u) + Optional(second, v);
    if u.Some? {
      assert headers[1..] == Optional(second, v);
    } else {
      assert headers == Optional(second, v);
    }
    if v.Some? {
      assert Optional(second, v)[1..] == [];
    }
  }

  lemma OptionalNames(first: string, u: Option<string>, second: string, v: Option<string>)
    ensures forall header :: header in Optional(first, u) + Optional(second, v) ==>
      header.name == first || header.name == second
  {
  }

  lemma ValidatorsAreFound(response: R.HttpResponse)
    ensures HeaderValue(Validators(response), "etag") == response.etag
    ensures HeaderValue(Validators(response), "last-modified") == response.lastModified
  {
    EqIgnoreCaseExactly("etag", "last-modified");
    OptionalsAreFound("etag", response.etag, "last-modified", response.lastModified);
  }

  /** Crossing the boundary is lossless for every response: status, body and both validators. */
  lemma BoundaryRoundTrip(response: R.HttpResponse)
    ensures ExecuteHttpsGet(HttpsReply(Ok(response))) == Ok(response)
  {
    ValidatorsAreFound(response);
  }

  predicate SameVariant(e: Error, f: Error) {
    (e.Dns? <==> f.Dns?) && (e.Tls? <==> f.Tls?) && (e.Http? <==> f.Http?) && (e.Io? <==> f.Io?)
  }

  /** An error stays an error, and keeps its variant exactly when it is not an HTTP status error: such
      an error, which here only a failing name lookup produces, arrives as an I/O error. */
  lemma ErrorVariantExactly(e: Error)
    ensures ExecuteHttpsGet(HttpsReply(Err(e))).Err?
    ensures SameVariant(ExecuteHttpsGet(HttpsReply(Err(e))).error, e) <==> !e.Http?
  {
  }

  /** What an error is on the other side: its own variant around its text, but for an HTTP status error,
      and a timeout stays a timeout. */
  lemma ErrorCrossesAs(e: Error)
    ensures ExecuteHttpsGet(HttpsReply(Err(e))) == Err(
      match e
      case Dns(_) => Dns(RelayedDns(e))
      case Tls(_) => Tls(RelayedTls(e))
      case Io(_) => Io(RelayedIo(e))
      case Http(_, _) => Io(RelayedIo(e))
      case Timeout => Timeout)
    ensures forall elapsedMs :: ExecuteHttpsGet(TcpReply(elapsedMs)) == Err(Io(WrongResponseKind))
  {
  }

  // ---------------------------------------------------------------- the conditional GET

  datatype Held = Held(etag: Option<string>, lastModified: Option<string>)

  datatype Conditional = Conditional(body: bytes, held: Held)

  function Or<T>(first: Option<T>, second: Option<T>): Option<T> {
    if first.Some? then first else second
  }

  function RequestHeaders(held: Held): seq<Header> {
    Optional("If-None-Match", held.etag) + Optional("If-Modified-Since", held.lastModified)
  }

  function ConditionalResult(held: Held, reply: Result<R.HttpResponse, Error>): Result<Conditional, Error> {
    match reply
    case Err(e) => Err(e)
    case Ok(response) =>
      if response.statusCode == 304 then
        Ok(Conditional([], Held(Or(response.etag, held.etag), Or(response.lastModified, held.lastModified))))
      else
        match R.SuccessfulBody(response)
        case Err(e) => Err(e)
        case Ok(body) => Ok(Conditional(body, Held(response.etag, response.lastModified)))
  }

  /** `reply` is what the host answers; `sent` are the headers that go out. */
  method HttpsGetConditional(held: Held, reply: HostResponse)
    returns (r: Result<Conditional, Error>, sent: seq<Header>)
    ensures sent == RequestHeaders(held)
    ensures r == ConditionalResult(held, ExecuteHttpsGet(reply))
  {
    sent := [];
    if held.etag.Some? {
      sent := sent + [Header("If-None-Match", held.etag.value)];
    }
    if held.lastModified.Some? {
      sent := sent + [Header("If-Modified-Since", held.lastModified.value)];
    }
    match ExecuteHttpsGet(reply)
    case Err(e) => r := Err(e);
    case Ok(response) =>
      if response.statusCode == 304 {
        var kept := Held(Or(response.etag, held.etag), Or(response.lastModified, held.lastModified));
        return Ok(Conditional([], kept)), sent;
      }
      match R.SuccessfulBody(response)
      case Err(e) => r := Err(e);
      case Ok(body) => r := Ok(Conditional(body, Held(response.etag, response.lastModified)));
  }

  /** What the caller gets: the body and the validators of a 2xx response, no body and the validators held
      or given for a 304, and the status and the body as an error for every other status. */
  lemma ConditionalExactly(held: Held, response: R.HttpResponse)
    ensures var status, result := response.statusCode, ConditionalResult(held, Ok(response));
      && (200 <= status < 300 ==>
        result == Ok(Conditional(response.body, Held(response.etag, response.lastModified))))
      && (status == 304 ==>
        result == Ok(Conditional([], Held(
          if response.etag.Some? then response.etag else held.etag,
          if response.lastModified.Some? then response.lastModified else held.lastModified))))
      && (!(200 <= status < 300) && status != 304 ==> result == Err(Http(status, response.body)))
    ensures forall e :: ConditionalResult(held, Err(e)) == Err(e)
  {
  }

  /** The next request carries exactly the validators held, and no other header. */
  lemma RequestCarriesHeld(held: Held)
    ensures HeaderValue(RequestHeaders(held), "If-None-Match") == held.etag
    ensures HeaderValue(RequestHeaders(held), "If-Modified-Since") == held.lastModified
    ensures forall header :: header in RequestHeaders(held) ==>
      header.name == "If-None-Match" || header.name == "If-Modified-Since"
  {
    EqIgnoreCaseExactly("If-None-Match", "If-Modified-Since");
    OptionalsAreFound("If-None-Match", held.etag, "If-Modified-Since", held.lastModified);
    OptionalNames("If-None-Match", held.etag, "If-Modified-Since", held.lastModified);
  }

  /** A 304 returns no body, and preserves the held validators exactly when it names no other ones. */
  lemma NotModifiedPreservesExactly(held: Held, response: R.HttpResponse)
    requires response.statusCode == 304
    ensures ConditionalResult(held, Ok(response)).Ok?
    ensures var result := ConditionalResult(held, Ok(response)).value;
      && result.body == []
      && (result.held == held <==>
        && (response.etag.Some? ==> response.etag == held.etag)
        && (response.lastModified.Some? ==> response.lastModified == held.lastModified))
      && (held.etag.Some? ==> result.held.etag.Some?)
      && (held.lastModified.Some? ==> result.held.lastModified.Some?)
  {
  }

  // ---------------------------------------------------------------- runs of conditional GETs

  /** The validators of a caller that feeds back what it got, keeping them over errors. */
  function HeldAfter(run: seq<Result<R.HttpResponse, Error>>): Held {
    if run == [] then Held(None, None) else Updated(HeldAfter(run[..|run| - 1]), run[|run| - 1])
  }

  function Updated(held: Held, reply: Result<R.HttpResponse, Error>): Held {
    match ConditionalResult(held, reply)
    case Err(_) => held
    case Ok(result) => result.held
  }

  /** The run as it looks from the other side of the boundary. */
  function Relayed(run: seq<Result<R.HttpResponse, Error>>): (relayed: seq<Result<R.HttpResponse, Error>>)
    ensures |relayed| == |run|
  {
    if run == [] then []
    else Relayed(run[..|run| - 1]) + [ExecuteHttpsGet(HttpsReply(run[|run| - 1]))]
  }

  /** The boundary makes no difference to the validators held. */
  lemma {:induction false} BoundaryKeepsHeld(run: seq<Result<R.HttpResponse, Error>>)
    ensures HeldAfter(Relayed(run)) == HeldAfter(run)
  {
    if run != [] {
      var last := run[|run| - 1];
      var before := Relayed(run[..|run| - 1]);
      BoundaryKeepsHeld(run[..|run| - 1]);
      RelayedReply(last);
      assert Relayed(run)[..|run| - 1] == before;
    }
  }

  lemma RelayedReply(performed: Result<R.HttpResponse, Error>)
    ensures forall held :: Updated(held, ExecuteHttpsGet(HttpsReply(performed))) == Updated(held, performed)
  {
    if performed.Ok? {
      BoundaryRoundTrip(performed.value);
    }
  }

  predicate IsFresh(r: Result<R.HttpResponse, Error>) {
    r.Ok? && 200 <= r.value.statusCode < 300
  }

  predicate IsNotModified(r: Result<R.HttpResponse, Error>) {
    r.Ok? && r.value.statusCode == 304
  }

  datatype Validator = EntityTag | Modification

  function HeldOf(v: Validator, held: Held): Option<string> {
    match v
    case EntityTag => held.etag
    case Modification => held.lastModified
  }

  function Given(v: Validator, response: R.HttpResponse): Option<string> {
    match v
    case EntityTag => response.etag
    case Modification => response.lastModified
  }

  /** A 2xx response decides the validator, even by having none; a 304 only by having one. */
  predicate Decides(v: Validator, r: Result<R.HttpResponse, Error>) {
    IsFresh(r) || (IsNotModified(r) && Given(v, r.value).Some?)
  }

  /** Reply `k` decides the validator and no later one does. */
  predicate LatestDecides(v: Validator, run: seq<Result<R.HttpResponse, Error>>, k: nat) {
    k < |run| && Decides(v, run[k]) && forall i :: k < i < |run| ==> !Decides(v, run[i])
  }

  lemma HeldStep(v: Validator, held: Held, reply: Result<R.HttpResponse, Error>)
    ensures HeldOf(v, Updated(held, reply)) == if Decides(v, reply) then Given(v, reply.value) else HeldOf(v, held)
  {
  }

  /** Over every run of responses and errors the caller holds the validator of the latest 2xx response,
      overlaid by that of any later 304 that gives one. */
  lemma {:induction false} HeldIsLatest(v: Validator, run: seq<Result<R.HttpResponse, Error>>, k: nat)
    requires LatestDecides(v, run, k)
    ensures HeldOf(v, HeldAfter(run)) == Given(v, run[k].value)
  {
    var n := |run| - 1;
    HeldStep(v, HeldAfter(run[..n]), run[n]);
    if k < n {
      HeldIsLatest(v, run[..n], k);
    }
  }

  /** ... and none before the first reply that decides it. */
  lemma {:induction false} HeldIsNone(v: Validator, run: seq<Result<R.HttpResponse, Error>>)
    requires forall i :: 0 <= i < |run| ==> !Decides(v, run[i])
    ensures HeldOf(v, HeldAfter(run)) == None
  {
    if run != [] {
      var n := |run| - 1;
      HeldStep(v, HeldAfter(run[..n]), run[n]);
      HeldIsNone(v, run[..n]);
    }
  }

  /** A 304, an error and an error status never lose a validator. */
  lemma NeverLost(v: Validator, run: seq<Result<R.HttpResponse, Error>>, reply: Result<R.HttpResponse, Error>)
    requires !IsFresh(reply) && HeldOf(v, HeldAfter(run)).Some?
    ensures HeldOf(v, HeldAfter(run + [reply])).Some?
  {
    assert (run + [reply])[..|run|] == run;
    HeldStep(v, HeldAfter(run), reply);
  }

  // ---------------------------------------------------------------- resolving and connecting

  function Connections(n: nat, connect: nat -> Reader.Connection): (connections: seq<Reader.Connection>)
    ensures |connections| == n && forall k :: 0 <= k < n ==> connections[k] == connect(k)
  {
    if n == 0 then [] else Connections(n - 1, connect) + [connect(n - 1)]
  }

  /** `connect(k)` is what connecting to the `k`-th resolved address leads to. */
  method PerformGet(resolver: Resolver.DnsResolver, call: Resolver.Call, connect: nat -> Reader.Connection, syn: Syntax)
    returns (r: Result<R.HttpResponse, Error>)
    requires resolver.Valid()
    requires var served := Resolver.Served(resolver.cache, call);
      served.Ok? ==> forall k ::
        0 <= k < Reader.Attempts(Reader.Outcomes(Connections(|served.value|, connect), syn)) ==>
        Reader.Deliverable(connect(k), syn)
    modifies resolver
    ensures resolver.Valid() && resolver.calls == old(resolver.calls) + [call]
    ensures var served := Resolver.ServedAt(resolver.calls, |resolver.calls| - 1, resolver.imax);
      && (served.Err? ==> r == Err(served.error))
      && (served.Ok? ==> r == Reader.Failover(
          Reader.Outcomes(Connections(|served.value|, connect), syn), Dns(NoAddressesAvailable(call.host))))
  {
    var addrs, asked := resolver.Resolve(call);
    match addrs
    case Err(e) => r := Err(e);
    case Ok(ips) =>
      var tried;
      r, tried := Reader.HttpsGetWithCandidates(call.host, ips, Connections(|ips|, connect), syn);
  }

  /** The "no IPv4 addresses available" fallbacks of both the HTTPS and the TCP failover are unreachable
      behind the resolver: in every run, whatever was served for a host has a candidate to try, so the
      fallback error never decides the result. */
  lemma FallbackUnreachable<T>(
    calls: seq<Resolver.Call>, k: nat, imax: nat, outcomes: seq<Result<T, Error>>, none: Error, other: Error)
    requires k < |calls|
    requires Resolver.ServedAt(calls, k, imax).Ok? && |outcomes| == |Resolver.ServedAt(calls, k, imax).value|
    ensures Reader.Failover(outcomes, none) == Reader.Failover(outcomes, other)
    ensures Reader.Attempts(outcomes) > 0
  {
    Resolver.NeverServesNothing(calls, k, imax);
    var n := Reader.Attempts(outcomes);
    Reader.FailoverExactly(outcomes, none, Reader.Failover(outcomes, none), n);
    Reader.FailoverExactly(outcomes, other, Reader.Failover(outcomes, none), n);
  }

  // ---------------------------------------------------------------- from bytes to the next request

  /** Once the whole message is there, the connection yields its parse. */
  lemma CompleteArrives(stream: bytes, pieces: seq<bytes>, ending: Reader.Ending, syn: Syntax)
    requires Reader.Flatten(pieces) == stream && (R.CompleteLen(stream, syn) != NotYet || ending == Reader.Closed)
    ensures Reader.ConnectionOutcome(Reader.Connected(pieces, ending), syn) == R.Parse(stream, syn)
  {
    if R.CompleteLen(stream, syn) != NotYet {
      Reader.VerdictMakesEndingIrrelevant(stream, [], ending, syn);
      assert stream + [] == stream;
    }
  }

  lemma SizedArrives(m: T.MessageHead, body: bytes, tail: bytes, pieces: seq<bytes>, ending: Reader.Ending, syn: Syntax)
    requires m.Ok() && T.Reads(syn, m)
    requires !m.Meaning(syn.umax).chunked && m.Meaning(syn.umax).contentLength == Some(|body|)
    requires Reader.Flatten(pieces) == m.Front() + (body + tail)
    ensures Reader.ConnectionOutcome(Reader.Connected(pieces, ending), syn) == Ok(T.ResponseWith(m, body, syn.umax))
  {
    T.SizedReads(m, body, tail, syn);
    CompleteArrives(m.Front() + (body + tail), pieces, ending, syn);
  }

  lemma ChunkedArrives(
    m: T.MessageHead, f: C.Framing, tail: bytes, pieces: seq<bytes>, ending: Reader.Ending, syn: Syntax)
    requires m.Ok() && T.Reads(syn, m) && m.Meaning(syn.umax).chunked
    requires C.Valid(f, syn) && |C.Wire(f) + CRLF + tail| <= syn.umax
    requires Reader.Flatten(pieces) == m.Front() + (C.Wire(f) + CRLF + tail)
    ensures Reader.ConnectionOutcome(Reader.Connected(pieces, ending), syn)
      == Ok(T.ResponseWith(m, C.Data(f), syn.umax))
  {
    T.ChunkedReads(m, f, tail, syn);
    CompleteArrives(m.Front() + (C.Wire(f) + CRLF + tail), pieces, ending, syn);
  }

  lemma UnframedArrives(m: T.MessageHead, body: bytes, pieces: seq<bytes>, syn: Syntax)
    requires m.Ok() && T.Reads(syn, m)
    requires !m.Meaning(syn.umax).chunked && m.Meaning(syn.umax).contentLength == None
    requires Reader.Flatten(pieces) == m.Front() + body
    ensures Reader.ConnectionOutcome(Reader.Connected(pieces, Reader.Closed), syn)
      == Ok(T.ResponseWith(m, body, syn.umax))
  {
    T.UnframedReads(m, body, syn);
    CompleteArrives(m.Front() + body, pieces, Reader.Closed, syn);
  }

  /** A printed response stands at the front of what a connection delivers. Only a body that is not framed
      needs the stream to be closed behind it. */
  predicate Delivers(
    pieces: seq<bytes>, ending: Reader.Ending, m: T.MessageHead, body: T.PrintedBody, tail: bytes, umax: nat)
  {
    && m.Ok() && body.Announced(m, umax)
    && |body.Sent() + tail| <= umax
    && (body.ToTheEnd? ==> tail == [] && ending == Reader.Closed)
    && Reader.Flatten(pieces) == m.Front() + (body.Sent() + tail)
  }

  /** A printed response arrives as printed, whatever its framing, the pieces, what follows it, and however
      the stream ends. */
  lemma {:induction false} PrintedArrives(
    pieces: seq<bytes>, ending: Reader.Ending, m: T.MessageHead, body: T.PrintedBody, tail: bytes, umax: nat)
    requires Delivers(pieces, ending, m, body, tail, umax)
    ensures Reader.ConnectionOutcome(Reader.Connected(pieces, ending), H.HttpSyntax(umax))
      == Ok(T.ResponseWith(m, body.Content(), umax))
  {
    T.HttpReads(m, umax);
    match body
    case Sized(data) => SizedArrives(m, data, tail, pieces, ending, H.HttpSyntax(umax));
    case InChunks(chunks, last) =>
      T.EncodedIsValid(chunks, last, umax);
      ChunkedArrives(m, T.Encoded(chunks, last), tail, pieces, ending, H.HttpSyntax(umax));
    case ToTheEnd(data) =>
      assert data + [] == data;
      UnframedArrives(m, data, pieces, H.HttpSyntax(umax));
  }

  /** End to end: whatever the caller holds, a printed 2xx response gives it the printed body and validators
      across the boundary, and a printed response of another status but 304 an error with that body. */
  lemma {:induction false} PrintedBodyReturns(
    held: Held,
    pieces: seq<bytes>, ending: Reader.Ending, m: T.MessageHead, body: T.PrintedBody, tail: bytes, umax: nat)
    requires Delivers(pieces, ending, m, body, tail, umax)
    ensures
      var performed := Reader.ConnectionOutcome(Reader.Connected(pieces, ending), H.HttpSyntax(umax));
      var result := ConditionalResult(held, ExecuteHttpsGet(HttpsReply(performed)));
      && (200 <= m.status.code < 300 ==>
        result == Ok(Conditional(body.Content(), Held(m.Meaning(umax).etag, m.Meaning(umax).lastModified))))
      && (!(200 <= m.status.code < 300) && m.status.code != 304 ==>
        result == Err(Http(m.status.code, body.Content())))
  {
    PrintedArrives(pieces, ending, m, body, tail, umax);
    var response := T.ResponseWith(m, body.Content(), umax);
    BoundaryRoundTrip(response);
    ConditionalExactly(held, response);
  }

  lemma {:induction false} TruncatedFrom(m: T.MessageHead, after: bytes, n: nat, pieces: seq<bytes>, syn: Syntax)
    requires m.Ok() && T.Reads(syn, m)
    requires !m.Meaning(syn.umax).chunked && m.Meaning(syn.umax).contentLength == Some(n) && |after| < n
    requires Reader.Flatten(pieces) == m.Front() + after
    ensures Reader.ConnectionOutcome(Reader.Connected(pieces, Reader.Closed), syn)
      == Err(Io(BodyShorterThanDeclared(n)))
    ensures Reader.ConnectionOutcome(Reader.Connected(pieces, Reader.UnexpectedEof), syn) == Err(Io(UnexpectedEnd))
  {
    T.SizedExactly(m, after, n, syn);
    Reader.EndingsWithoutVerdict(pieces, 0, syn);
  }

  /** A printed response with fewer body bytes than it declares never arrives: a clean close is an error that
      names the declared length, and a missing one an I/O error. */
  lemma {:induction false} TruncatedFails(m: T.MessageHead, after: bytes, n: nat, pieces: seq<bytes>, umax: nat)
    requires m.Ok() && !m.Meaning(umax).chunked && m.Meaning(umax).contentLength == Some(n) && |after| < n
    requires Reader.Flatten(pieces) == m.Front() + after
    ensures Reader.ConnectionOutcome(Reader.Connected(pieces, Reader.Closed), H.HttpSyntax(umax))
      == Err(Io(BodyShorterThanDeclared(n)))
    ensures Reader.ConnectionOutcome(Reader.Connected(pieces, Reader.UnexpectedEof), H.HttpSyntax(umax))
      == Err(Io(UnexpectedEnd))
  {
    T.HttpReads(m, umax);
    TruncatedFrom(m, after, n, pieces, H.HttpSyntax(umax));
  }

  /** After any run, a 2xx response on the other side of the boundary leaves its validators. */
  lemma FreshIsHeld(run: seq<Result<R.HttpResponse, Error>>, response: R.HttpResponse)
    requires 200 <= response.statusCode < 300
    ensures HeldAfter(Relayed(run + [Ok(response)])) == Held(response.etag, response.lastModified)
  {
    BoundaryKeepsHeld(run + [Ok(response)]);
    assert (run + [Ok(response)])[..|run|] == run;
  }

  /** End to end: after any earlier run, the validators printed in a 2xx response come back across the
      boundary as the conditional headers of the caller's next request, and no others do. */
  lemma {:induction false} PrintedValidatorsReturn(
    run: seq<Result<R.HttpResponse, Error>>,
    pieces: seq<bytes>, ending: Reader.Ending, m: T.MessageHead, body: T.PrintedBody, tail: bytes, umax: nat)
    requires Delivers(pieces, ending, m, body, tail, umax)
    requires 200 <= m.status.code < 300
    ensures
      var performed := Reader.ConnectionOutcome(Reader.Connected(pieces, ending), H.HttpSyntax(umax));
      var headers := RequestHeaders(HeldAfter(Relayed(run + [performed])));
      && HeaderValue(headers, "If-None-Match") == m.Meaning(umax).etag
      && HeaderValue(headers, "If-Modified-Since") == m.Meaning(umax).lastModified
  {
    PrintedArrives(pieces, ending, m, body, tail, umax);
    var response := T.ResponseWith(m, body.Content(), umax);
    FreshIsHeld(run, response);
    RequestCarriesHeld(Held(response.etag, response.lastModified));
  }
}
