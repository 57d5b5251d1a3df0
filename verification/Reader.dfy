/** The incremental reader and the failover over candidate addresses. A connection is what the
    environment delivers: the pieces that arrive, and how the stream ends. */
module Reader {
  import opened Prelude
  import opened Errors
  import opened Syntax
  import opened Chunked
  import opened Headers
  import opened Response

  /** Failures of the transport, before the crate's own error type. */
  datatype TransportError = TimedOut | Broken(code: nat)

  /** How the stream ends once the pieces are consumed: a read of length 0, the `UnexpectedEof` error
      of a peer that closed without TLS notice, or any other read error. */
  datatype Ending = Closed | UnexpectedEof | Failed(error: TransportError)

  datatype Connection =
    | HandshakeFailed(tls: nat)
    | TransportFailed(error: TransportError)
    | Connected(pieces: seq<bytes>, ending: Ending)

  function FromTransport(e: TransportError): Error {
    match e
    case TimedOut => Timeout
    case Broken(code) => Io(SocketFailed(code))
  }

  function Flatten(pieces: seq<bytes>): bytes {
    if pieces == [] then [] else pieces[0] + Flatten(pieces[1..])
  }

  /** Nothing read before piece `k` had a verdict. */
  predicate NoVerdictBefore(pieces: seq<bytes>, k: nat, syn: Syntax) {
    && k <= |pieces|
    && (k > 0 ==> NoVerdictBefore(pieces, k - 1, syn) && CompleteLen(Flatten(pieces[..k - 1]), syn) == NotYet)
  }

  /** Pieces are non-empty, and the buffer that collects them can hold what is read: the pieces up to the
      first verdict. */
  ghost predicate Deliverable(c: Connection, syn: Syntax) {
    c.Connected? ==>
      && (forall k :: 0 <= k < |c.pieces| ==> c.pieces[k] != [])
      && (forall k: nat :: NoVerdictBefore(c.pieces, k, syn) ==> FitsInMemory(Flatten(c.pieces[..k]), syn.umax))
  }

  /** What a connection yields, said without any read: the verdict on all bytes decides, and only
      without a verdict does the ending matter. */
  function Outcome(stream: bytes, ending: Ending, syn: Syntax): Result<HttpResponse, Error> {
    match CompleteLen(stream, syn)
    case Malformed(e) => Err(e)
    case CompleteAt(n) => Parse(stream[..n], syn)
    case NotYet =>
      match ending
      case Closed => Parse(stream, syn)
      case UnexpectedEof => Err(Io(UnexpectedEnd))
      case Failed(e) => Err(FromTransport(e))
  }

  function ConnectionOutcome(c: Connection, syn: Syntax): Result<HttpResponse, Error> {
    match c
    case HandshakeFailed(tls) => Err(Tls(TlsFailed(tls)))
    case TransportFailed(e) => Err(FromTransport(e))
    case Connected(pieces, ending) => Outcome(Flatten(pieces), ending, syn)
  }

  lemma FlattenStep(pieces: seq<bytes>, k: nat)
    requires k < |pieces|
    ensures Flatten(pieces[k..]) == pieces[k] + Flatten(pieces[k + 1..])
  {
    assert pieces[k..][0] == pieces[k] && pieces[k..][1..] == pieces[k + 1..];
  }

  lemma {:induction false} FlattenSnoc(pieces: seq<bytes>, k: nat)
    requires k < |pieces|
    ensures Flatten(pieces[..k + 1]) == Flatten(pieces[..k]) + pieces[k]
  {
    if k > 0 {
      assert pieces[..k + 1][1..] == pieces[1..][..k] && pieces[..k][1..] == pieces[1..][..k - 1];
      FlattenSnoc(pieces[1..], k - 1);
    }
  }

  lemma TakePiece(pieces: seq<bytes>, k: nat, response: bytes)
    requires k < |pieces|
    ensures Flatten(pieces[..k + 1]) == Flatten(pieces[..k]) + pieces[k]
    ensures response + Flatten(pieces[k..]) == response + pieces[k] + Flatten(pieces[k + 1..])
  {
    FlattenStep(pieces, k);
    FlattenSnoc(pieces, k);
    assert response + (pieces[k] + Flatten(pieces[k + 1..])) == response + pieces[k] + Flatten(pieces[k + 1..]);
  }

  lemma VerdictOfStream(stream: bytes, front: bytes, rest: bytes, syn: Syntax)
    requires stream == front + rest && CompleteLen(front, syn) != NotYet
    ensures CompleteLen(stream, syn) == CompleteLen(front, syn)
    ensures var v := CompleteLen(front, syn); v.CompleteAt? ==> stream[..v.length] == front[..v.length]
  {
    VerdictFinal(front, rest, syn);
  }

  /** The read loop. Whatever the pieces, it returns the outcome of the whole stream, and it stops at the
      first piece that brings a verdict. At each loop head the buffer has none, so the second look in
      the `UnexpectedEof` arm finds none either. `next` counts the pieces read. */
  method HttpsGetViaIp(c: Connection, syn: Syntax) returns (r: Result<HttpResponse, Error>, next: nat)
    requires Deliverable(c, syn)
    ensures r == ConnectionOutcome(c, syn)
    ensures c.Connected? ==> NoVerdictBefore(c.pieces, next, syn)
    ensures c.Connected? && next < |c.pieces| ==> CompleteLen(Flatten(c.pieces[..next]), syn) != NotYet
  {
    next := 0;
    if c.HandshakeFailed? {
      return Err(Tls(TlsFailed(c.tls))), 0;
    }
    if c.TransportFailed? {
      return Err(FromTransport(c.error)), 0;
    }
    var response: bytes := [];
    ghost var stream := Flatten(c.pieces);
    while true
      invariant 0 <= next <= |c.pieces|
      invariant response == Flatten(c.pieces[..next])
      invariant stream == response + Flatten(c.pieces[next..])
      invariant CompleteLen(response, syn) == NotYet
      invariant NoVerdictBefore(c.pieces, next, syn)
      decreases |c.pieces| - next
    {
      if next < |c.pieces| {
        TakePiece(c.pieces, next, response);
        response := response + c.pieces[next];
        next := next + 1;
        var verdict := HttpResponseCompleteLen(response, syn);
        if verdict != NotYet {
          VerdictOfStream(stream, response, Flatten(c.pieces[next..]), syn);
        }
        match verdict {
          case Malformed(e) => return Err(e), next;
          case NotYet =>
          case CompleteAt(n) =>
            response := response[..n];
            r := ParseHttpResponse(response, syn);
            return;
        }
      } else {
        assert stream == response;
        match c.ending {
          case Closed =>
            r := ParseHttpResponse(response, syn);
            return;
          case UnexpectedEof =>
            if response != [] {
              var verdict := HttpResponseCompleteLen(response, syn);
              assert verdict == NotYet; // the source's other two branches here are dead
            }
            return Err(Io(UnexpectedEnd)), next;
          case Failed(e) =>
            return Err(FromTransport(e)), next;
        }
      }
    }
  }

  /** The central theorem: reading early and in pieces is parsing the whole stream, value for value
      and error for error. */
  lemma EarlyReadingIsWholeParsing(stream: bytes, syn: Syntax)
    ensures Outcome(stream, Closed, syn) == Parse(stream, syn)
  {
    if CompleteLen(stream, syn) != NotYet {
      VerdictDecidesParse(stream, [], syn);
      assert stream + [] == stream;
    }
  }

  /** The ending matters exactly when the stream never got a verdict. */
  lemma EndingMattersExactly(stream: bytes, syn: Syntax)
    ensures CompleteLen(stream, syn) != NotYet
      <==> forall e: Ending, f: Ending :: Outcome(stream, e, syn) == Outcome(stream, f, syn)
  {
    if CompleteLen(stream, syn) == NotYet {
      assert Outcome(stream, Failed(TimedOut), syn) != Outcome(stream, UnexpectedEof, syn);
    }
  }

  /** Once a prefix has a verdict, neither later bytes nor the ending matter: the connection yields the
      parse of the whole stream, or the prefix's error. */
  lemma {:induction false} VerdictMakesEndingIrrelevant(front: bytes, more: bytes, ending: Ending, syn: Syntax)
    requires CompleteLen(front, syn) != NotYet
    ensures Outcome(front + more, ending, syn) == Outcome(front, Closed, syn) == Parse(front + more, syn)
  {
    VerdictFinal(front, more, syn);
    VerdictDecidesParse(front, more, syn);
    if CompleteLen(front, syn).CompleteAt? {
      var n := CompleteLen(front, syn).length;
      assert (front + more)[..n] == front[..n];
    }
  }

  /** A chunked response with trailers (section 7.1.2 of RFC 9112), though complete, is only taken when
      the stream is closed cleanly: the same bytes before an `UnexpectedEof` are an error. */
  lemma {:induction false} TrailersNeedCleanClose(stream: bytes, meta: Metadata, f: Framing, syn: Syntax)
    requires MetadataOf(stream, syn) == Ok(Some(meta)) && meta.chunked
    requires var body := stream[meta.headerEnd + 4..];
      Framed(body, f, syn) && !CrlfAt(body, |Wire(f)|) && |body| <= syn.umax
    ensures Outcome(stream, Closed, syn) == Ok(HttpResponse(meta.statusCode, Data(f), meta.etag, meta.lastModified))
    ensures Outcome(stream, UnexpectedEof, syn) == Err(Io(UnexpectedEnd))
  {
    var body := stream[meta.headerEnd + 4..];
    DecodeFramed(body, f, syn);
    ScanFramed(body, f, syn);
  }

  /** Without a verdict the ending decides: a clean close parses what is there, a missing one is an I/O
      error, a timeout is a timeout, and any other failure keeps its code. */
  lemma EndingsWithoutVerdict(pieces: seq<bytes>, code: nat, syn: Syntax)
    requires CompleteLen(Flatten(pieces), syn) == NotYet
    ensures ConnectionOutcome(Connected(pieces, Closed), syn) == Parse(Flatten(pieces), syn)
    ensures ConnectionOutcome(Connected(pieces, UnexpectedEof), syn) == Err(Io(UnexpectedEnd))
    ensures ConnectionOutcome(Connected(pieces, Failed(TimedOut)), syn) == Err(Timeout)
    ensures ConnectionOutcome(Connected(pieces, Failed(Broken(code))), syn) == Err(Io(SocketFailed(code)))
  {
  }

  /** A connection that is never made fails with the error of its step. */
  lemma FailedConnections(code: nat, syn: Syntax)
    ensures ConnectionOutcome(HandshakeFailed(code), syn) == Err(Tls(TlsFailed(code)))
    ensures ConnectionOutcome(TransportFailed(TimedOut), syn) == Err(Timeout)
    ensures ConnectionOutcome(TransportFailed(Broken(code)), syn) == Err(Io(SocketFailed(code)))
  {
  }

  // ---------------------------------------------------------------- failover

  /** Trying candidates in order: the first success, or else the last error. */
  function Failover<T>(outcomes: seq<Result<T, Error>>, none: Error): Result<T, Error> {
    if outcomes == [] then Err(none)
    else if outcomes[0].Ok? || |outcomes| == 1 then outcomes[0]
    else Failover(outcomes[1..], none)
  }

  /** How many candidates are tried. */
  function Attempts<T>(outcomes: seq<Result<T, Error>>): (n: nat)
    ensures n <= |outcomes|
  {
    if outcomes == [] then 0 else if outcomes[0].Ok? then 1 else 1 + Attempts(outcomes[1..])
  }

  predicate AllFail<T>(outcomes: seq<Result<T, Error>>) {
    forall k :: 0 <= k < |outcomes| ==> outcomes[k].Err?
  }

  lemma AllFailFront<T>(outcomes: seq<Result<T, Error>>, m: nat)
    requires 0 < m <= |outcomes|
    ensures AllFail(outcomes[..m]) <==> outcomes[0].Err? && AllFail(outcomes[1..][..m - 1])
  {
    var front, rest := outcomes[..m], outcomes[1..][..m - 1];
    assert front[0] == outcomes[0];
    if outcomes[0].Err? && AllFail(rest) {
      forall k | 0 <= k < m
        ensures front[k].Err?
      {
        assert k > 0 ==> front[k] == rest[k - 1];
      }
    }
    if AllFail(front) {
      forall k | 0 <= k < m - 1
        ensures rest[k].Err?
      {
        assert front[k + 1].Err?;
      }
    }
  }

  /** Candidates up to the first success, in order, and otherwise all of them with the last error. */
  lemma {:induction false} FailoverExactly<T>(outcomes: seq<Result<T, Error>>, none: Error, r: Result<T, Error>, n: nat)
    ensures Failover(outcomes, none) == r && Attempts(outcomes) == n <==>
      && n <= |outcomes|
      && AllFail(outcomes[..if r.Ok? && n > 0 then n - 1 else n])
      && (r.Ok? ==> n > 0 && r == outcomes[n - 1])
      && (r.Err? ==> n == |outcomes| && r == if n == 0 then Err(none) else outcomes[n - 1])
  {
    if |outcomes| > 0 {
      var rest := outcomes[1..];
      if n > 0 {
        FailoverExactly(rest, none, r, n - 1);
        var m := if r.Ok? then n - 1 else n;
        if m <= |outcomes| && m > 0 {
          AllFailFront(outcomes, m);
        }
      }
    }
  }

  function Outcomes(connections: seq<Connection>, syn: Syntax): (outcomes: seq<Result<HttpResponse, Error>>)
    ensures |outcomes| == |connections|
  {
    if connections == [] then [] else [ConnectionOutcome(connections[0], syn)] + Outcomes(connections[1..], syn)
  }

  lemma {:induction false} OutcomesAt(connections: seq<Connection>, k: nat, syn: Syntax)
    requires k < |connections|
    ensures Outcomes(connections, syn)[k] == ConnectionOutcome(connections[k], syn)
  {
    if k > 0 {
      OutcomesAt(connections[1..], k - 1, syn);
    }
  }

  method TryCandidate(connections: seq<Connection>, k: nat, syn: Syntax) returns (r: Result<HttpResponse, Error>)
    requires k < |connections| && Deliverable(connections[k], syn)
    ensures r == Outcomes(connections, syn)[k]
  {
    OutcomesAt(connections, k, syn);
    var next;
    r, next := HttpsGetViaIp(connections[k], syn);
  }

  lemma {:induction false} StillTrying<T>(outcomes: seq<Result<T, Error>>, k: nat)
    requires k < |outcomes| && AllFail(outcomes[..k])
    ensures k < Attempts(outcomes)
  {
    if k > 0 {
      assert outcomes[..k][0] == outcomes[0] && outcomes[..k][1..] == outcomes[1..][..k - 1];
      StillTrying(outcomes[1..], k - 1);
    }
  }

  lemma FailoverDecided<T>(outcomes: seq<Result<T, Error>>, k: nat, none: Error)
    requires k < |outcomes| && AllFail(outcomes[..k]) && outcomes[k].Ok?
    ensures Failover(outcomes, none) == outcomes[k] && Attempts(outcomes) == k + 1
  {
    FailoverExactly(outcomes, none, outcomes[k], k + 1);
  }

  lemma FailoverExhausted<T>(outcomes: seq<Result<T, Error>>, none: Error)
    requires AllFail(outcomes)
    ensures Failover(outcomes, none) == if outcomes == [] then Err(none) else outcomes[|outcomes| - 1]
    ensures Attempts(outcomes) == |outcomes|
  {
    var r := if outcomes == [] then Err(none) else outcomes[|outcomes| - 1];
    assert outcomes[..|outcomes|] == outcomes;
    FailoverExactly(outcomes, none, r, |outcomes|);
  }

  /** `connections[k]` is what connecting to `ips[k]` leads to; `tried` are the addresses connected to. */
  method HttpsGetWithCandidates(host: string, ips: seq<Ipv4>, connections: seq<Connection>, syn: Syntax)
    returns (r: Result<HttpResponse, Error>, tried: seq<Ipv4>)
    requires |connections| == |ips|
    requires forall k :: 0 <= k < Attempts(Outcomes(connections, syn)) ==> Deliverable(connections[k], syn)
    ensures r == Failover(Outcomes(connections, syn), Dns(NoAddressesAvailable(host)))
    ensures tried == ips[..Attempts(Outcomes(connections, syn))]
  {
    ghost var outcomes := Outcomes(connections, syn);
    var none := Dns(NoAddressesAvailable(host));
    var lastError: Option<Error> := None;
    tried := [];
    for k := 0 to |ips|
      invariant tried == ips[..k]
      invariant AllFail(outcomes[..k])
      invariant lastError == if k == 0 then None else Some(outcomes[k - 1].error)
    {
      StillTrying(outcomes, k);
      tried := tried + [ips[k]];
      var outcome := TryCandidate(connections, k, syn);
      match outcome {
        case Ok(_) =>
          FailoverDecided(outcomes, k, none);
          return outcome, tried;
        case Err(e) =>
          lastError := Some(e);
      }
    }
    assert outcomes[..|ips|] == outcomes;
    FailoverExhausted(outcomes, none);
    r := Err(if lastError.Some? then lastError.value else none);
  }
}