/** The DNS-over-HTTPS lookup: reading an answer, and chasing CNAMEs against an upstream that may
    answer anything. */
module Dns {
  import opened Prelude
  import opened Errors
  import opened Scan
  import opened Text

  const TTL_FLOOR_SECS: nat := 30
  const TTL_CAP_SECS: nat := 300
  const STATUS_NOERROR: u32 := 0
  const RECORD_A: u32 := 1
  const RECORD_CNAME: u32 := 5
  const MAX_CNAME_DEPTH: nat := 4

  /** The decoded JSON; the decoding itself is the serialization library's. */
  datatype DnsAnswer = DnsAnswer(recordType: u32, ttl: Option<u32>, data: string)
  datatype DnsResponse = DnsResponse(status: u32, answers: seq<DnsAnswer>)

  /** What one response says to the chase. */
  datatype Reading = Reading(addrs: seq<Ipv4>, cname: Option<string>, ttlSecs: nat)

  datatype Record = Address(ip: Ipv4) | Alias(name: string) | Ignored

  /** `ask(depth, name)` is what asking for `name` as query number `depth` of one lookup returns; it may
      differ from query to query and from lookup to lookup. `read` is how one record of an answer reads.
      The chase and the cache are proved for every reading; what a lookup finds in the records, for a true
      one. The program's own is `ReadRecord`, which is true. */
  datatype Upstream = Upstream(ask: (nat, string) -> Result<DnsResponse, Error>, read: DnsAnswer -> Record)

  datatype Lookup = Lookup(addrs: seq<Ipv4>, ttlSecs: nat)

  // ---------------------------------------------------------------- one answer

  /** One number of a dotted address: at most three digits, no leading zero, at most 255. */
  function Octet(s: string): Option<byte> {
    if s == "" || |s| > 3 || (|s| > 1 && s[0] == '0') then None
    else
      match ParseDigits(s, 0, 10, 255)
      case Err(_) => None
      case Ok(n) =>
        ParseDigitsExactly("", s, 10, 255, n);
        Some(n as byte)
  }

  /** `parse::<Ipv4Addr>()`. */
  function ParseIpv4(s: string): Option<Ipv4> {
    var p := SplitOnce(s, '.');
    if p.None? then None else
    var q := SplitOnce(p.value.1, '.');
    if q.None? then None else
    var r := SplitOnce(q.value.1, '.');
    if r.None? then None else
    var a, b, c, d := Octet(p.value.0), Octet(q.value.0), Octet(r.value.0), Octet(r.value.1);
    if a.None? || b.None? || c.None? || d.None? then None
    else Some(Ipv4(a.value, b.value, c.value, d.value))
  }

  function PrintIpv4(ip: Ipv4): string {
    Decimal(ip.a) + "." + (Decimal(ip.b) + "." + (Decimal(ip.c) + "." + Decimal(ip.d)))
  }

  function Decimal(b: byte): string {
    PrintNumeral(b as int, 10, false)
  }

  /** A number of a dotted address is exactly its decimal print. */
  lemma OctetExactly(s: string, b: byte)
    ensures Octet(s) == Some(b) <==> s == Decimal(b)
  {
    var n := b as int;
    if s == Decimal(b) {
      DecimalShape(n);
    }
    if s != "" && |s| <= 3 && (|s| > 1 ==> s[0] != '0') {
      ParseDigitsExactly("", s, 10, 255, n);
      assert "" + s == s;
      if AllDigits(s, 10) {
        PrintCanonical(s);
      }
    }
  }

  lemma DecimalShape(n: nat)
    requires n < 256
    ensures var s := PrintNumeral(n, 10, false); 1 <= |s| <= 3 && (|s| > 1 ==> s[0] != '0')
  {
    if n >= 10 {
      assert PrintNumeral(n, 10, false) == PrintNumeral(n / 10, 10, false) + [DigitChar(n % 10, false)];
      if n >= 100 {
        assert PrintNumeral(n / 10, 10, false)
          == PrintNumeral(n / 10 / 10, 10, false) + [DigitChar(n / 10 % 10, false)];
      }
    }
  }

  /** The parser accepts exactly the canonical dotted form: no leading zeros, no signs, no blanks. */
  lemma ParseIpv4Exactly(s: string, ip: Ipv4)
    ensures ParseIpv4(s) == Some(ip) <==> s == PrintIpv4(ip)
  {
    if s == PrintIpv4(ip) {
      PrintedSplits(ip.a, Decimal(ip.b) + "." + (Decimal(ip.c) + "." + Decimal(ip.d)));
      PrintedSplits(ip.b, Decimal(ip.c) + "." + Decimal(ip.d));
      PrintedSplits(ip.c, Decimal(ip.d));
      OctetExactly(Decimal(ip.a), ip.a);
      OctetExactly(Decimal(ip.b), ip.b);
      OctetExactly(Decimal(ip.c), ip.c);
      OctetExactly(Decimal(ip.d), ip.d);
    }
    if ParseIpv4(s) == Some(ip) {
      var p := SplitOnce(s, '.').value;
      var q := SplitOnce(p.1, '.').value;
      var r := SplitOnce(q.1, '.').value;
      OctetExactly(p.0, ip.a);
      OctetExactly(q.0, ip.b);
      OctetExactly(r.0, ip.c);
      OctetExactly(r.1, ip.d);
    }
  }

  lemma PrintedSplits(b: byte, rest: string)
    ensures SplitOnce(Decimal(b) + "." + rest, '.') == Some((Decimal(b), rest))
  {
    assert '.' !in Decimal(b) by {
      assert DigitValue('.', 10).None?;
    }
    SplitOnceAt(Decimal(b), '.', rest);
  }

  /** `trim_end_matches('.')`. */
  function NormalizeName(name: string): (r: string)
    ensures r <= name
    ensures forall k :: |r| <= k < |name| ==> name[k] == '.'
    ensures r != "" ==> r[|r| - 1] != '.'
  {
    if name != "" && name[|name| - 1] == '.' then NormalizeName(name[..|name| - 1]) else name
  }

  function ReadRecord(answer: DnsAnswer): Record {
    if answer.recordType == RECORD_A then
      match ParseIpv4(answer.data)
      case Some(ip) => Address(ip)
      case None => Ignored
    else if answer.recordType == RECORD_CNAME then Alias(NormalizeName(answer.data))
    else Ignored
  }

  function Records(answers: seq<DnsAnswer>, read: DnsAnswer -> Record): (records: seq<Record>)
    ensures |records| == |answers|
  {
    if answers == [] then [] else [read(answers[0])] + Records(answers[1..], read)
  }

  lemma {:induction false} RecordsAt(answers: seq<DnsAnswer>, k: nat, read: DnsAnswer -> Record)
    requires k < |answers|
    ensures Records(answers, read)[k] == read(answers[k])
  {
    if k > 0 {
      RecordsAt(answers[1..], k - 1, read);
    }
  }

  /** The addresses, in order. */
  function Addresses(records: seq<Record>): seq<Ipv4> {
    if records == [] then []
    else
      var last := records[|records| - 1];
      Addresses(records[..|records| - 1]) + if last.Address? then [last.ip] else []
  }

  /** Every address record contributes its address, once and in order, and nothing else does. */
  lemma {:induction false} AddressesInOrder(records: seq<Record>, n: nat) returns (at: seq<nat>)
    requires n <= |records|
    ensures |at| == |Addresses(records[..n])| && Increasing(at, n)
    ensures forall m :: 0 <= m < |at| ==> records[at[m]] == Address(Addresses(records[..n])[m])
    ensures forall k :: 0 <= k < n && records[k].Address? ==> k in at
  {
    at := [];
    if n > 0 {
      at := AddressesInOrder(records, n - 1);
      assert records[..n][..n - 1] == records[..n - 1];
      if records[n - 1].Address? {
        at := at + [n - 1];
      }
    }
  }

  function FirstAlias(records: seq<Record>): Option<string> {
    if records == [] then None
    else if records[0].Alias? then Some(records[0].name)
    else FirstAlias(records[1..])
  }

  /** The smallest TTL any answer gives. */
  function MinTtl(answers: seq<DnsAnswer>): Option<u32> {
    if answers == [] then None
    else
      var rest := MinTtl(answers[1..]);
      if answers[0].ttl.None? then rest
      else if rest.None? || answers[0].ttl.value <= rest.value then answers[0].ttl
      else rest
  }

  /** `clamp` between the floor and the cap. */
  function Clamped(t: nat): (secs: nat)
    ensures TTL_FLOOR_SECS <= secs <= TTL_CAP_SECS
    ensures TTL_FLOOR_SECS <= t <= TTL_CAP_SECS ==> secs == t
  {
    if t < TTL_FLOOR_SECS then TTL_FLOOR_SECS else if t > TTL_CAP_SECS then TTL_CAP_SECS else t
  }

  function TtlOf(answers: seq<DnsAnswer>): (secs: nat)
    ensures TTL_FLOOR_SECS <= secs <= TTL_CAP_SECS
  {
    match MinTtl(answers)
    case None => Clamped(TTL_FLOOR_SECS)
    case Some(t) => Clamped(t)
  }

  lemma {:induction false} MinTtlIsGiven(answers: seq<DnsAnswer>)
    ensures MinTtl(answers).Some? ==> exists a :: a in answers && a.ttl == MinTtl(answers)
  {
    if answers != [] {
      MinTtlIsGiven(answers[1..]);
    }
  }

  lemma {:induction false} MinTtlIsLeast(answers: seq<DnsAnswer>, a: DnsAnswer)
    requires a in answers && a.ttl.Some?
    ensures MinTtl(answers).Some? && MinTtl(answers).value <= a.ttl.value
  {
    if a != answers[0] {
      assert a in answers[1..];
      MinTtlIsLeast(answers[1..], a);
    }
  }

  predicate LeastTtl(answers: seq<DnsAnswer>, t: u32) {
    && (exists a :: a in answers && a.ttl == Some(t))
    && (forall a :: a in answers && a.ttl.Some? ==> t <= a.ttl.value)
  }

  /** The smallest TTL given, exactly. */
  lemma MinTtlExactly(answers: seq<DnsAnswer>, t: u32)
    ensures MinTtl(answers) == Some(t) <==> LeastTtl(answers, t)
  {
    MinTtlIsGiven(answers);
    forall a | a in answers && a.ttl.Some?
      ensures MinTtl(answers).Some? && MinTtl(answers).value <= a.ttl.value
    {
      MinTtlIsLeast(answers, a);
    }
  }

  /** The alias followed is the first one, exactly. */
  lemma {:induction false} FirstAliasExactly(records: seq<Record>, name: string)
    ensures FirstAlias(records) == Some(name) <==>
      exists k :: 0 <= k < |records| && records[k] == Alias(name) && forall i :: 0 <= i < k ==> !records[i].Alias?
  {
    if records != [] && !records[0].Alias? {
      FirstAliasExactly(records[1..], name);
      if FirstAlias(records) == Some(name) {
        var k :|
          && 0 <= k < |records[1..]| && records[1..][k] == Alias(name)
          && forall i :: 0 <= i < k ==> !records[1..][i].Alias?;
        assert records[k + 1] == Alias(name);
        forall i | 0 <= i < k + 1
          ensures !records[i].Alias?
        {
          assert i > 0 ==> records[i] == records[1..][i - 1];
        }
      }
      forall k | 0 <= k < |records| && records[k] == Alias(name) && forall i :: 0 <= i < k ==> !records[i].Alias?
        ensures FirstAlias(records) == Some(name)
      {
        assert records[1..][k - 1] == Alias(name);
      }
    }
  }

  lemma {:induction false} FirstAliasSnoc(records: seq<Record>, r: Record)
    ensures FirstAlias(records + [r])
      == if FirstAlias(records).None? && r.Alias? then Some(r.name) else FirstAlias(records)
  {
    if records == [] {
      assert [r][1..] == [];
    } else {
      assert (records + [r])[1..] == records[1..] + [r];
      FirstAliasSnoc(records[1..], r);
    }
  }

  /** What a decoded response says to the chase. */
  function ReadingOf(response: DnsResponse, read: DnsAnswer -> Record): Reading {
    var records := Records(response.answers, read);
    Reading(Addresses(records), FirstAlias(records), TtlOf(response.answers))
  }

  method ScanRecords(records: seq<Record>) returns (addrs: seq<Ipv4>, cname: Option<string>)
    ensures addrs == Addresses(records) && cname == FirstAlias(records)
  {
    addrs := [];
    cname := None;
    for k := 0 to |records|
      invariant addrs == Addresses(records[..k])
      invariant cname == FirstAlias(records[..k])
    {
      assert records[..k + 1] == records[..k] + [records[k]];
      assert records[..k + 1][..k] == records[..k];
      FirstAliasSnoc(records[..k], records[k]);
      match records[k] {
        case Address(ip) => addrs := addrs + [ip];
        case Alias(name) =>
          if cname.None? {
            cname := Some(name);
          }
        case Ignored =>
      }
    }
    assert records[..|records|] == records;
  }

  method ParseDnsAnswers(response: DnsResponse, read: DnsAnswer -> Record) returns (reading: Reading)
    ensures reading == ReadingOf(response, read)
  {
    var addrs, cname := ScanRecords(Records(response.answers, read));
    reading := Reading(addrs, cname, TtlOf(response.answers));
  }

  // ---------------------------------------------------------------- the chase

  function Chase(up: Upstream, name: string, depth: nat): Result<Lookup, Error>
    decreases MAX_CNAME_DEPTH - depth
  {
    if depth >= MAX_CNAME_DEPTH then Err(Error.Dns(CnameDepthExceeded(name)))
    else
      match up.ask(depth, name)
      case Err(e) => Err(e)
      case Ok(response) =>
        if response.status != STATUS_NOERROR then Err(Error.Dns(ResolverStatus(response.status, name)))
        else
          var reading := ReadingOf(response, up.read);
          if reading.addrs != [] then Ok(Lookup(reading.addrs, reading.ttlSecs))
          else
            match reading.cname
            case Some(cname) => Chase(up, cname, depth + 1)
            case None => Err(Error.Dns(NoIpv4Addresses(name)))
  }

  /** The names that a chase asks for, in order. */
  function Asked(up: Upstream, name: string, depth: nat): seq<string>
    decreases MAX_CNAME_DEPTH - depth
  {
    if depth >= MAX_CNAME_DEPTH then []
    else
      match up.ask(depth, name)
      case Err(_) => [name]
      case Ok(response) =>
        var reading := ReadingOf(response, up.read);
        if response.status != STATUS_NOERROR || reading.addrs != [] || reading.cname.None? then [name]
        else [name] + Asked(up, reading.cname.value, depth + 1)
  }

  /** The recursion itself, with the names it asks for: at most four, cycles included. */
  method ResolveHostV4(up: Upstream, name: string, depth: nat) returns (r: Result<Lookup, Error>, asked: seq<string>)
    requires depth <= 4
    ensures r == Chase(up, name, depth)
    ensures asked == Asked(up, name, depth) && |asked| <= 4 - depth
    decreases MAX_CNAME_DEPTH - depth
  {
    if depth >= MAX_CNAME_DEPTH {
      return Err(Error.Dns(CnameDepthExceeded(name))), [];
    }
    asked := [name];
    match up.ask(depth, name) {
      case Err(e) => return Err(e), asked;
      case Ok(response) =>
        if response.status != STATUS_NOERROR {
          return Err(Error.Dns(ResolverStatus(response.status, name))), asked;
        }
        var reading := ParseDnsAnswers(response, up.read);
        if reading.addrs != [] {
          return Ok(Lookup(reading.addrs, reading.ttlSecs)), asked;
        }
        match reading.cname {
          case None => return Err(Error.Dns(NoIpv4Addresses(name))), asked;
          case Some(next) =>
            var rest;
            r, rest := ResolveHostV4(up, next, depth + 1);
            asked := asked + rest;
        }
    }
  }

  // ---------------------------------------------------------------- the chase, by what the answers say

  /** A usable A record (type 1): its data is the dotted form of the address. */
  predicate Gives(answer: DnsAnswer, ip: Ipv4) {
    answer.recordType == 1 && answer.data == PrintIpv4(ip)
  }

  /** `at` are the positions of all usable A records, and `addrs` their addresses. */
  ghost predicate GivenAt(answers: seq<DnsAnswer>, at: seq<nat>, addrs: seq<Ipv4>) {
    && |at| == |addrs| && Increasing(at, |answers|)
    && (forall m :: 0 <= m < |at| ==> Gives(answers[at[m]], addrs[m]))
    && (forall k, ip :: 0 <= k < |answers| && Gives(answers[k], ip) ==> k in at)
  }

  /** `addrs` are the addresses of the usable A records, each once and in order. */
  ghost predicate Lists(answers: seq<DnsAnswer>, addrs: seq<Ipv4>) {
    exists at :: GivenAt(answers, at, addrs)
  }

  predicate IsCname(answer: DnsAnswer) {
    answer.recordType == 5
  }

  predicate FirstCname(answers: seq<DnsAnswer>, k: int) {
    0 <= k < |answers| && IsCname(answers[k]) && forall i :: 0 <= i < k ==> !IsCname(answers[i])
  }

  /** `next` is what the first CNAME record names, without trailing dots. */
  ghost predicate PointsTo(answers: seq<DnsAnswer>, next: string) {
    exists k :: FirstCname(answers, k) && next == NormalizeName(answers[k].data)
  }

  /** `secs` is the least TTL given, but not below 30 and not above 300; without any TTL it is 30. */
  ghost predicate LivesFor(answers: seq<DnsAnswer>, secs: nat) {
    if exists a :: a in answers && a.ttl.Some? then exists t: u32 :: LeastTtl(answers, t) && Bounded(t, secs)
    else secs == 30
  }

  predicate Bounded(t: nat, secs: nat) {
    && (t <= 30 ==> secs == 30)
    && (30 <= t <= 300 ==> secs == t)
    && (t >= 300 ==> secs == 300)
  }

  /** A reading that takes exactly the usable A records for addresses, and exactly the CNAME records for
      aliases. */
  ghost predicate TrueReading(read: DnsAnswer -> Record) {
    && (forall a, ip :: read(a) == Address(ip) <==> Gives(a, ip))
    && (forall a, name :: read(a) == Alias(name) <==> IsCname(a) && name == NormalizeName(a.data))
  }

  /** What the program reads each record as, exactly. */
  lemma ReadRecordExactly(a: DnsAnswer, ip: Ipv4, name: string)
    ensures ReadRecord(a) == Address(ip) <==> Gives(a, ip)
    ensures ReadRecord(a) == Alias(name) <==> IsCname(a) && name == NormalizeName(a.data)
  {
    ParseIpv4Exactly(a.data, ip);
  }

  /** The program's reading is true. */
  lemma ReadRecordIsTrue()
    ensures TrueReading(ReadRecord)
  {
    forall a: DnsAnswer, ip
      ensures ReadRecord(a) == Address(ip) <==> Gives(a, ip)
    {
      ReadRecordExactly(a, ip, "");
    }
    forall a: DnsAnswer, name
      ensures ReadRecord(a) == Alias(name) <==> IsCname(a) && name == NormalizeName(a.data)
    {
      ReadRecordExactly(a, Ipv4(0, 0, 0, 0), name);
    }
  }

  lemma ListedAddresses(answers: seq<DnsAnswer>, read: DnsAnswer -> Record)
    requires TrueReading(read)
    ensures Lists(answers, Addresses(Records(answers, read)))
  {
    var records := Records(answers, read);
    var at := AddressesInOrder(records, |records|);
    assert records[..|records|] == records;
    forall m | 0 <= m < |at|
      ensures Gives(answers[at[m]], Addresses(records)[m])
    {
      RecordsAt(answers, at[m], read);
      assert read(answers[at[m]]) == Address(Addresses(records)[m]);
    }
    forall k, ip | 0 <= k < |answers| && Gives(answers[k], ip)
      ensures k in at
    {
      RecordsAt(answers, k, read);
      assert read(answers[k]) == Address(ip);
    }
    assert GivenAt(answers, at, Addresses(records));
  }

  /** The front of a list of positions, without the highest possible one. */
  function Lower(at: seq<nat>, bound: nat): seq<nat> {
    if at != [] && at[|at| - 1] == bound then at[..|at| - 1] else at
  }

  lemma LowerPositions(at: seq<nat>, bound: nat)
    requires Increasing(at, bound + 1)
    ensures Increasing(Lower(at, bound), bound)
    ensures forall k :: k in Lower(at, bound) <==> k in at && k != bound
    ensures at == Lower(at, bound) + if bound in at then [bound] else []
  {
    if bound in at {
      var m :| 0 <= m < |at| && at[m] == bound;
      assert m == |at| - 1;
    }
  }

  lemma RoomForOne(at: seq<nat>, bound: nat)
    requires Increasing(at, bound) && at != []
    ensures bound > 0
  {
    assert at[0] < bound;
  }

  ghost predicate SameMembers(at: seq<nat>, bt: seq<nat>) {
    forall k :: k in at <==> k in bt
  }

  lemma LowerBoth(at: seq<nat>, bt: seq<nat>, bound: nat)
    requires Increasing(at, bound + 1) && Increasing(bt, bound + 1) && SameMembers(at, bt)
    ensures Increasing(Lower(at, bound), bound) && Increasing(Lower(bt, bound), bound)
    ensures SameMembers(Lower(at, bound), Lower(bt, bound))
    ensures Lower(at, bound) == Lower(bt, bound) ==> at == bt
  {
    LowerPositions(at, bound);
    LowerPositions(bt, bound);
    assert bound in at <==> bound in bt;
  }

  /** Positions in order are determined by which they are. */
  lemma {:induction false} SamePositions(at: seq<nat>, bt: seq<nat>, bound: nat)
    requires Increasing(at, bound) && Increasing(bt, bound) && SameMembers(at, bt)
    ensures at == bt
    decreases bound
  {
    if bound == 0 {
      if at != [] {
        RoomForOne(at, bound);
      }
      if bt != [] {
        RoomForOne(bt, bound);
      }
    } else {
      LowerBoth(at, bt, bound - 1);
      SamePositions(Lower(at, bound - 1), Lower(bt, bound - 1), bound - 1);
    }
  }

  /** At most one list of addresses is the one listed. */
  lemma ListedOnce(answers: seq<DnsAnswer>, at: seq<nat>, addrs: seq<Ipv4>, bt: seq<nat>, others: seq<Ipv4>)
    requires GivenAt(answers, at, addrs) && GivenAt(answers, bt, others)
    ensures addrs == others
  {
    forall k | k in at
      ensures k in bt
    {
      var m :| 0 <= m < |at| && at[m] == k;
      assert Gives(answers[k], addrs[m]);
    }
    forall k | k in bt
      ensures k in at
    {
      var m :| 0 <= m < |bt| && bt[m] == k;
      assert Gives(answers[k], others[m]);
    }
    SamePositions(at, bt, |answers|);
    forall m | 0 <= m < |at|
      ensures addrs[m] == others[m]
    {
      OneAddress(answers[at[m]], addrs[m], others[m]);
    }
  }

  lemma OneAddress(answer: DnsAnswer, ip: Ipv4, other: Ipv4)
    requires Gives(answer, ip) && Gives(answer, other)
    ensures ip == other
  {
    ParseIpv4Exactly(answer.data, ip);
    ParseIpv4Exactly(answer.data, other);
  }

  /** The addresses read are the ones the answers list, exactly. */
  lemma {:induction false} ListsExactly(answers: seq<DnsAnswer>, addrs: seq<Ipv4>, read: DnsAnswer -> Record)
    requires TrueReading(read)
    ensures Lists(answers, addrs) <==> addrs == Addresses(Records(answers, read))
  {
    var own := Addresses(Records(answers, read));
    ListedAddresses(answers, read);
    var bt :| GivenAt(answers, bt, own);
    forall at | GivenAt(answers, at, addrs)
      ensures addrs == own
    {
      ListedOnce(answers, at, addrs, bt, own);
    }
  }

  lemma CnameReads(answer: DnsAnswer, read: DnsAnswer -> Record)
    requires TrueReading(read)
    ensures read(answer).Alias? <==> IsCname(answer)
    ensures IsCname(answer) ==> read(answer) == Alias(NormalizeName(answer.data))
  {
    if read(answer).Alias? {
      assert read(answer) == Alias(read(answer).name);
    }
    assert read(answer) == Alias(NormalizeName(answer.data)) <==> IsCname(answer);
  }

  /** The alias read is the one the answers point to, exactly. */
  lemma PointsToExactly(answers: seq<DnsAnswer>, next: string, read: DnsAnswer -> Record)
    requires TrueReading(read)
    ensures PointsTo(answers, next) <==> FirstAlias(Records(answers, read)) == Some(next)
  {
    var records := Records(answers, read);
    FirstAliasExactly(records, next);
    forall k | 0 <= k < |answers|
      ensures records[k].Alias? <==> IsCname(answers[k])
      ensures IsCname(answers[k]) ==> records[k] == Alias(NormalizeName(answers[k].data))
    {
      RecordsAt(answers, k, read);
      CnameReads(answers[k], read);
    }
    if PointsTo(answers, next) {
      var k :| FirstCname(answers, k) && next == NormalizeName(answers[k].data);
      assert records[k] == Alias(next);
    }
    if FirstAlias(records) == Some(next) {
      var k :| 0 <= k < |records| && records[k] == Alias(next) && forall i :: 0 <= i < k ==> !records[i].Alias?;
      assert FirstCname(answers, k);
    }
  }

  /** The lifetime read is the one the answers give, exactly. */
  lemma LivesForExactly(answers: seq<DnsAnswer>, secs: nat)
    ensures LivesFor(answers, secs) <==> secs == TtlOf(answers)
  {
    MinTtlIsGiven(answers);
    forall t: u32
      ensures LeastTtl(answers, t) <==> MinTtl(answers) == Some(t)
    {
      MinTtlExactly(answers, t);
    }
    if a :| a in answers && a.ttl.Some? {
      MinTtlIsLeast(answers, a);
      assert LeastTtl(answers, MinTtl(answers).value);
    }
  }

  lemma ShortLife(answers: seq<DnsAnswer>, secs: nat)
    requires LivesFor(answers, secs) && forall a :: a in answers && a.ttl.Some? ==> a.ttl.value <= 30
    ensures secs == 30
  {
  }

  /** `name`, asked for as query `d`, has no usable A record but an alias `next`. */
  ghost predicate Redirects(up: Upstream, d: nat, name: string, next: string) {
    var r := up.ask(d, name);
    r.Ok? && r.value.status == 0 && Lists(r.value.answers, []) && PointsTo(r.value.answers, next)
  }

  /** `name`, asked for as query `d`, has usable A records. */
  ghost predicate Answers(up: Upstream, d: nat, name: string, found: Lookup) {
    var r := up.ask(d, name);
    && r.Ok? && r.value.status == 0
    && Lists(r.value.answers, found.addrs) && found.addrs != []
    && LivesFor(r.value.answers, found.ttlSecs)
  }

  lemma HopExactly(up: Upstream, d: nat, name: string, next: string)
    requires TrueReading(up.read)
    ensures var r := up.ask(d, name);
      Redirects(up, d, name, next) <==>
        && r.Ok? && r.value.status == STATUS_NOERROR
        && ReadingOf(r.value, up.read).addrs == [] && ReadingOf(r.value, up.read).cname == Some(next)
  {
    var r := up.ask(d, name);
    if r.Ok? {
      ListsExactly(r.value.answers, [], up.read);
      PointsToExactly(r.value.answers, next, up.read);
    }
  }

  lemma AnswerExactly(up: Upstream, d: nat, name: string, found: Lookup)
    requires TrueReading(up.read)
    ensures var r := up.ask(d, name);
      Answers(up, d, name, found) <==>
        && r.Ok? && r.value.status == STATUS_NOERROR && found.addrs != []
        && found == Lookup(ReadingOf(r.value, up.read).addrs, ReadingOf(r.value, up.read).ttlSecs)
  {
    var r := up.ask(d, name);
    if r.Ok? {
      ListsExactly(r.value.answers, found.addrs, up.read);
      LivesForExactly(r.value.answers, found.ttlSecs);
    }
  }

  /** Each name is the alias that the query for the one before it gave. */
  ghost predicate IsChain(up: Upstream, names: seq<string>, depth: nat) {
    names != [] && forall k :: 0 <= k < |names| - 1 ==> Redirects(up, depth + k, names[k], names[k + 1])
  }

  ghost predicate FoundAlong(up: Upstream, names: seq<string>, name: string, depth: nat, found: Lookup) {
    && IsChain(up, names, depth)
    && names[0] == name
    && depth + |names| <= 4
    && Answers(up, depth + |names| - 1, names[|names| - 1], found)
  }

  lemma ChaseHops(up: Upstream, name: string, depth: nat, next: string)
    requires TrueReading(up.read) && depth < MAX_CNAME_DEPTH
    requires Redirects(up, depth, name, next)
    ensures Chase(up, name, depth) == Chase(up, next, depth + 1)
  {
    HopExactly(up, depth, name, next);
  }

  lemma ChaseAnswers(up: Upstream, name: string, depth: nat, found: Lookup)
    requires TrueReading(up.read) && depth < MAX_CNAME_DEPTH
    requires Answers(up, depth, name, found)
    ensures Chase(up, name, depth) == Ok(found)
  {
    AnswerExactly(up, depth, name, found);
  }

  lemma FoundHere(up: Upstream, name: string, depth: nat, found: Lookup)
    requires depth < MAX_CNAME_DEPTH && Answers(up, depth, name, found)
    ensures FoundAlong(up, [name], name, depth, found)
  {
  }

  lemma ChainBehind(up: Upstream, name: string, rest: seq<string>, next: string, depth: nat)
    requires Redirects(up, depth, name, next)
    requires rest != [] ==> IsChain(up, rest, depth + 1) && rest[0] == next
    ensures IsChain(up, [name] + rest, depth)
  {
    var names := [name] + rest;
    forall k | 0 <= k < |names| - 1
      ensures Redirects(up, depth + k, names[k], names[k + 1])
    {
      assert k > 0 ==> Redirects(up, depth + 1 + (k - 1), rest[k - 1], rest[k]);
    }
  }

  lemma FoundBehind(up: Upstream, name: string, rest: seq<string>, next: string, depth: nat, found: Lookup)
    requires Redirects(up, depth, name, next) && FoundAlong(up, rest, next, depth + 1, found)
    ensures FoundAlong(up, [name] + rest, name, depth, found)
  {
    ChainBehind(up, name, rest, next, depth);
  }

  lemma {:induction false} ChaseFollows(up: Upstream, name: string, depth: nat, found: Lookup)
    returns (names: seq<string>)
    requires TrueReading(up.read) && Chase(up, name, depth) == Ok(found)
    ensures FoundAlong(up, names, name, depth, found)
    decreases MAX_CNAME_DEPTH - depth
  {
    var reading := ReadingOf(up.ask(depth, name).value, up.read);
    if reading.addrs == [] {
      var next := reading.cname.value;
      HopExactly(up, depth, name, next);
      var rest := ChaseFollows(up, next, depth + 1, found);
      FoundBehind(up, name, rest, next, depth, found);
      names := [name] + rest;
    } else {
      AnswerExactly(up, depth, name, found);
      FoundHere(up, name, depth, found);
      names := [name];
    }
  }

  lemma ChainSplits(up: Upstream, names: seq<string>, depth: nat)
    requires IsChain(up, names, depth) && |names| > 1
    ensures Redirects(up, depth, names[0], names[1])
    ensures IsChain(up, names[1..], depth + 1)
  {
    assert Redirects(up, depth + 0, names[0], names[1]);
    forall k | 0 <= k < |names[1..]| - 1
      ensures Redirects(up, depth + 1 + k, names[1..][k], names[1..][k + 1])
    {
      assert Redirects(up, depth + (k + 1), names[k + 1], names[k + 2]);
    }
  }

  lemma ChasedBehind(up: Upstream, names: seq<string>, name: string, depth: nat, found: Lookup)
    requires TrueReading(up.read) && FoundAlong(up, names, name, depth, found) && |names| > 1
    ensures FoundAlong(up, names[1..], names[1], depth + 1, found)
    ensures Chase(up, name, depth) == Chase(up, names[1], depth + 1)
  {
    ChainSplits(up, names, depth);
    ChaseHops(up, name, depth, names[1]);
  }

  lemma {:induction false} FollowedIsChased(up: Upstream, names: seq<string>, name: string, depth: nat, found: Lookup)
    requires TrueReading(up.read) && FoundAlong(up, names, name, depth, found)
    ensures Chase(up, name, depth) == Ok(found)
    decreases |names|
  {
    if |names| == 1 {
      ChaseAnswers(up, name, depth, found);
    } else {
      ChasedBehind(up, names, name, depth, found);
      FollowedIsChased(up, names[1..], names[1], depth + 1, found);
    }
  }

  /** The chase succeeds exactly when following aliases, at most four names long, ends at a response
      with a usable A record; it returns the addresses of all of its usable A records, in order, and its
      least TTL, clamped. */
  lemma ChaseExactly(up: Upstream, host: string, found: Lookup)
    requires up.read == ReadRecord
    ensures Chase(up, host, 0) == Ok(found) <==> exists names :: FoundAlong(up, names, host, 0, found)
  {
    ReadRecordIsTrue();
    if Chase(up, host, 0) == Ok(found) {
      var names := ChaseFollows(up, host, 0, found);
    }
    forall names | FoundAlong(up, names, host, 0, found)
      ensures Chase(up, host, 0) == Ok(found)
    {
      FollowedIsChased(up, names, host, 0, found);
    }
  }

  // ---------------------------------------------------------------- the names asked for

  /** The names asked for are the chain of aliases that the answers give, and a chase that succeeds ends at
      the last of them. */
  lemma {:induction false} AskedExactly(up: Upstream, name: string, depth: nat)
    requires TrueReading(up.read) && depth < 4
    ensures var asked := Asked(up, name, depth);
      && |asked| <= 4 - depth && IsChain(up, asked, depth) && asked[0] == name
      && (Chase(up, name, depth).Ok? ==> FoundAlong(up, asked, name, depth, Chase(up, name, depth).value))
    decreases 4 - depth
  {
    var next := Next(up, name, depth);
    match next
    case None =>
      AskedHere(up, name, depth);
    case Some(cname) =>
      if depth < 3 {
        AskedExactly(up, cname, depth + 1);
      }
      AskedOn(up, name, depth);
  }

  /** The alias the chase goes on with. */
  function Next(up: Upstream, name: string, depth: nat): Option<string> {
    if depth < 4 && up.ask(depth, name).Ok? && up.ask(depth, name).value.status == 0
      && ReadingOf(up.ask(depth, name).value, up.read).addrs == []
    then ReadingOf(up.ask(depth, name).value, up.read).cname
    else None
  }

  lemma AskedHere(up: Upstream, name: string, depth: nat)
    requires TrueReading(up.read) && depth < 4 && Next(up, name, depth) == None
    ensures Asked(up, name, depth) == [name] && IsChain(up, [name], depth)
    ensures Chase(up, name, depth).Ok? ==> FoundAlong(up, [name], name, depth, Chase(up, name, depth).value)
  {
    if Chase(up, name, depth).Ok? {
      AnswerExactly(up, depth, name, Chase(up, name, depth).value);
    }
  }

  lemma AskedNext(up: Upstream, name: string, depth: nat)
    requires depth < 4 && Next(up, name, depth).Some?
    ensures Asked(up, name, depth) == [name] + Asked(up, Next(up, name, depth).value, depth + 1)
    ensures Chase(up, name, depth) == Chase(up, Next(up, name, depth).value, depth + 1)
    ensures depth == 3 ==> Asked(up, name, depth) == [name] && Chase(up, name, depth).Err?
  {
  }

  lemma AskedOn(up: Upstream, name: string, depth: nat)
    requires TrueReading(up.read) && depth < 4 && Next(up, name, depth).Some?
    requires var next := Next(up, name, depth).value; var rest := Asked(up, next, depth + 1);
      depth < 3 ==>
        && |rest| <= 3 - depth && IsChain(up, rest, depth + 1) && rest[0] == next
        && (Chase(up, next, depth + 1).Ok? ==>
          FoundAlong(up, rest, next, depth + 1, Chase(up, next, depth + 1).value))
    ensures var asked := Asked(up, name, depth);
      && |asked| <= 4 - depth && IsChain(up, asked, depth) && asked[0] == name
      && (Chase(up, name, depth).Ok? ==> FoundAlong(up, asked, name, depth, Chase(up, name, depth).value))
  {
    var next := Next(up, name, depth).value;
    AskedNext(up, name, depth);
    if depth < 3 {
      var rest := Asked(up, next, depth + 1);
      HopExactly(up, depth, name, next);
      ChainBehind(up, name, rest, next, depth);
      if Chase(up, name, depth).Ok? {
        FoundBehind(up, name, rest, next, depth, Chase(up, name, depth).value);
      }
    }
  }

  // ---------------------------------------------------------------- the chase that fails

  lemma {:induction false} FirstAliasNone(records: seq<Record>)
    ensures FirstAlias(records) == None <==> forall k :: 0 <= k < |records| ==> !records[k].Alias?
  {
    if records != [] {
      FirstAliasNone(records[1..]);
      assert forall k :: 0 < k < |records| ==> records[k] == records[1..][k - 1];
    }
  }

  lemma NoAliasExactly(answers: seq<DnsAnswer>, read: DnsAnswer -> Record)
    requires TrueReading(read)
    ensures FirstAlias(Records(answers, read)) == None <==> forall k :: 0 <= k < |answers| ==> !IsCname(answers[k])
  {
    var records := Records(answers, read);
    FirstAliasNone(records);
    forall k | 0 <= k < |answers|
      ensures records[k].Alias? <==> IsCname(answers[k])
    {
      RecordsAt(answers, k, read);
      CnameReads(answers[k], read);
    }
  }

  /** Query `d` for `name` ends the chase with this error: it is one query too many, it fails itself, the
      resolver answers with another status than 0, or the answers hold neither a usable A record nor a
      CNAME record. */
  ghost predicate FailsWith(up: Upstream, d: nat, name: string, e: Error) {
    if d >= 4 then e == Error.Dns(CnameDepthExceeded(name))
    else
      match up.ask(d, name)
      case Err(bad) => e == bad
      case Ok(response) =>
        if response.status != 0 then e == Error.Dns(ResolverStatus(response.status, name))
        else
          && Lists(response.answers, [])
          && (forall k :: 0 <= k < |response.answers| ==> !IsCname(response.answers[k]))
          && e == Error.Dns(NoIpv4Addresses(name))
  }

  ghost predicate FailedAlong(up: Upstream, names: seq<string>, name: string, depth: nat, e: Error) {
    && IsChain(up, names, depth)
    && names[0] == name
    && depth + |names| <= 5
    && FailsWith(up, depth + |names| - 1, names[|names| - 1], e)
  }

  lemma NothingExactly(answers: seq<DnsAnswer>, read: DnsAnswer -> Record)
    requires TrueReading(read)
    ensures Lists(answers, []) && (forall k :: 0 <= k < |answers| ==> !IsCname(answers[k]))
      <==> Addresses(Records(answers, read)) == [] && FirstAlias(Records(answers, read)) == None
  {
    ListsExactly(answers, [], read);
    NoAliasExactly(answers, read);
  }

  lemma FailsHere(up: Upstream, d: nat, name: string, e: Error)
    requires TrueReading(up.read) && FailsWith(up, d, name, e)
    ensures Chase(up, name, d) == Err(e)
  {
    if up.ask(d, name).Ok? {
      NothingExactly(up.ask(d, name).value.answers, up.read);
    }
  }

  /** A chase that fails either fails here or goes on. */
  lemma FailsOrHops(up: Upstream, d: nat, name: string, e: Error) returns (next: Option<string>)
    requires TrueReading(up.read) && d <= 4 && Chase(up, name, d) == Err(e)
    ensures match next
      case None => FailsWith(up, d, name, e)
      case Some(cname) => d < 4 && Redirects(up, d, name, cname)
  {
    next := None;
    if d < 4 && up.ask(d, name).Ok? && up.ask(d, name).value.status == 0 {
      var reading := ReadingOf(up.ask(d, name).value, up.read);
      next := reading.cname;
      NothingExactly(up.ask(d, name).value.answers, up.read);
      if next.Some? {
        HopExactly(up, d, name, next.value);
      }
    }
  }

  lemma FailedHere(up: Upstream, name: string, depth: nat, e: Error)
    requires depth <= 4 && FailsWith(up, depth, name, e)
    ensures FailedAlong(up, [name], name, depth, e)
  {
  }

  lemma FailedAfter(up: Upstream, name: string, rest: seq<string>, next: string, depth: nat, e: Error)
    requires Redirects(up, depth, name, next) && FailedAlong(up, rest, next, depth + 1, e)
    ensures FailedAlong(up, [name] + rest, name, depth, e)
  {
    ChainBehind(up, name, rest, next, depth);
    var names := [name] + rest;
    assert names[|names| - 1] == rest[|rest| - 1];
  }

  lemma {:induction false} FailureFollows(up: Upstream, name: string, depth: nat, e: Error)
    returns (names: seq<string>)
    requires TrueReading(up.read) && depth <= 4 && Chase(up, name, depth) == Err(e)
    ensures FailedAlong(up, names, name, depth, e)
    decreases 4 - depth
  {
    var next := FailsOrHops(up, depth, name, e);
    match next
    case None =>
      FailedHere(up, name, depth, e);
      names := [name];
    case Some(cname) =>
      ChaseHops(up, name, depth, cname);
      var rest := FailureFollows(up, cname, depth + 1, e);
      FailedAfter(up, name, rest, cname, depth, e);
      names := [name] + rest;
  }

  lemma FailedBehind(up: Upstream, names: seq<string>, name: string, depth: nat, e: Error)
    requires FailedAlong(up, names, name, depth, e) && |names| > 1
    ensures Redirects(up, depth, name, names[1])
    ensures FailedAlong(up, names[1..], names[1], depth + 1, e)
  {
    ChainSplits(up, names, depth);
    assert names[1..][|names| - 2] == names[|names| - 1];
  }

  lemma FailedOn(up: Upstream, names: seq<string>, name: string, depth: nat, e: Error)
    requires TrueReading(up.read) && FailedAlong(up, names, name, depth, e) && |names| > 1
    ensures FailedAlong(up, names[1..], names[1], depth + 1, e)
    ensures Chase(up, name, depth) == Chase(up, names[1], depth + 1)
  {
    FailedBehind(up, names, name, depth, e);
    ChaseHops(up, name, depth, names[1]);
  }

  lemma {:induction false} FailedIsChased(up: Upstream, names: seq<string>, name: string, depth: nat, e: Error)
    requires TrueReading(up.read) && FailedAlong(up, names, name, depth, e)
    ensures Chase(up, name, depth) == Err(e)
    decreases |names|
  {
    if |names| == 1 {
      FailsHere(up, depth, name, e);
    } else {
      FailedOn(up, names, name, depth, e);
      FailedIsChased(up, names[1..], names[1], depth + 1, e);
    }
  }

  /** The chase fails with an error exactly when following aliases, at most four queries long, ends at a
      query that fails so; the error carries the name of that query, not of the host. */
  lemma ChaseFailsExactly(up: Upstream, host: string, e: Error)
    requires up.read == ReadRecord
    ensures Chase(up, host, 0) == Err(e) <==> exists names :: FailedAlong(up, names, host, 0, e)
  {
    ReadRecordIsTrue();
    if Chase(up, host, 0) == Err(e) {
      var names := FailureFollows(up, host, 0, e);
    }
    forall names | FailedAlong(up, names, host, 0, e)
      ensures Chase(up, host, 0) == Err(e)
    {
      FailedIsChased(up, names, host, 0, e);
    }
  }

  /** A successful chase is never empty, and its lifetime is between 30 and 300 seconds. */
  lemma {:induction false} ChaseFindsAddresses(up: Upstream, name: string, depth: nat)
    requires Chase(up, name, depth).Ok?
    ensures Chase(up, name, depth).value.addrs != []
    ensures 30 <= Chase(up, name, depth).value.ttlSecs <= 300
    decreases MAX_CNAME_DEPTH - depth
  {
    var reading := ReadingOf(up.ask(depth, name).value, up.read);
    if reading.addrs == [] {
      ChaseFindsAddresses(up, reading.cname.value, depth + 1);
    }
  }
}
