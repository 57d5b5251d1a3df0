# VRX-64-sidecar: a verified model

VRX-64-sidecar is the library that VZGLYD sidecars use to fetch live data over HTTPS and push it to a
slide. This project models its four state-changing parts and proves what they keep over every input and
every run:

- the incremental HTTP/1.1 reader with its two chunked-framing loops (`Scan`, `Utf8`, `Text`, `Syntax`,
  `Chunked`, `Rejections`, `Headers`, `Readings`, `Response`, `Reader`), and a specification-side printer with its
  round trips (`RoundTrip`);
- the caching DNS-over-HTTPS resolver (`Dns`, `Resolver`);
- the poll, backoff and push-retry loop (`Poll`);
- the conditional GET and its validators across the host boundary (`Host`), with URL splitting (`Url`).

`Deviations` holds the concrete inputs on which the code departs from its documentation or a standard.

Check everything with `dafny verify dfyconfig.toml`.

## How to read it

**Reading early is parsing whole.** A connection is a list of non-empty pieces and one of three endings:
a clean close, `UnexpectedEof`, or another error. `Reader.HttpsGetViaIp` is the read loop; its contract
ties it to `Outcome`, a function of the concatenated bytes and the ending alone, and
`Reader.EarlyReadingIsWholeParsing` says that for a clean close this is the parse of the whole stream.
Underneath lie the finality of every scanner (`Scan`, `Chunked.WireLenFinal`, `Response.VerdictFinal`),
the lockstep of the two chunk loops, and `Chunked.Framing`, a grammar of chunked bodies defined
independently of both loops, against which each is an if-and-only-if; `Rejections` characterizes their
errors over the bytes in the same way.

**Loops are methods, specifications are functions.** Where the source moves a cursor, extends a vector or
assigns variables in a loop, the model has a method with the same branches in the same order and a loop
invariant, proved equal to a function; the lemmas are about that function. `DnsResolver` and `PollLoop` are
classes with the source's fields, whose ghost history ties the object to a function of the whole run.

**The wire layer is parametric.** `Chunked`, `Response` and `Reader` take a `Syntax`: how a head and a size
line read. They are proved for every reading; `Headers.HttpSyntax` is the program's own, and `RoundTrip`
and `Host` state their main results for it. In the same way an `Upstream` carries how one DNS record reads;
the run guarantees of `Resolver` hold for every such reading, and `Dns.ChaseExactly` is about the program's
own, `Dns.ReadRecord`.

**Numbers.** `usize` is a symbolic maximum `umax`. Buffers hold fewer than half as many bytes, as the
source's language guarantees of any allocation; for a connection this is asked only of what is read. Checked additions and parse overflows are branches;
unchecked additions go through `Chunked.Plus`, whose precondition is the absence of overflow. Clock
instants are nanoseconds up to a symbolic largest instant.

**Text.** A text is a sequence of Unicode scalar values behind a real UTF-8 decoder, and blanks are the
Unicode property White_Space, as in the source's `trim` and `split_whitespace`.

**Errors.** Each message is a constructor with the payload that tells two such messages apart. The text that
carries an error across the host boundary is kept as the error itself.

**The environment** is whatever it likes to be: connections, upstream answers (which may change from call
to call), push statuses and clock readings are parameters. Runs are arbitrary finite sequences of them.

## Where the code and its documentation or the standards differ

The model follows the code in each case.

- src/poll.rs:7-8 promises backoff "up to 60 seconds"; the first failure after a success sleeps the interval
  (src/poll.rs:98), even 300 seconds: `Poll.CapExactly`, `Poll.CapFails`.
- src/lib.rs:124-125 says a 304 preserves the cached validators; a 304 that names other ones replaces them:
  `Host.NotModifiedPreservesExactly`, `Deviations.NotModifiedReplacesValidator`.
- A 304 with a Content-Length and no body is an error (section 6.3 of RFC 9112):
  `Response.BodylessExactly`, `Deviations.NotModifiedWithLengthFails`.
- Trailers keep the completeness test at "not yet" for ever (src/http.rs:219-224), though the decoder stops
  at the zero-size line (src/http.rs:265-267): `Chunked.TrailersNeverComplete`, `Chunked.DecoderAloneExactly`,
  `Reader.TrailersNeedCleanClose`, `Deviations.TrailersDependOnEnding`.
- An unparsable Content-Length erases an earlier good one (src/http.rs:161): `Readings.LengthExactly`,
  `Deviations.BadLengthErasesGoodOne`.
- A `/` in a query that directly follows the host splits the query (src/lib.rs:226):
  `Url.HostIsAuthorityExactly`, `Url.QuerySlashSplitsQuery`.
- Two branches are dead: splitting a head always gives a first line (src/http.rs:140-142; `Text.SplitLines`
  is never empty), and the second completeness test in the `UnexpectedEof` arm (src/http.rs:78-81) always
  answers "not yet".

## Model

| member | source | states |
|---|---|---|
| `Reader.HttpsGetViaIp` | src/http.rs:54-88 | The read loop returns, for every division of the stream into pieces, the outcome of the whole stream under that ending: same value, same error. At each loop head the buffer has no verdict, and reading stops at the first piece that brings one. Only what is read has to fit in memory |
| `Reader.EarlyReadingIsWholeParsing` | src/http.rs:65-87 | Central theorem: for every byte stream that closes cleanly, reading early gives exactly what parsing the whole stream gives, on success and on error |
| `Reader.EndingMattersExactly` | src/http.rs:67-86 | How the stream ends is irrelevant if and only if its bytes have a verdict (complete or malformed) |
| `Reader.VerdictMakesEndingIrrelevant` | src/http.rs:70-83 | Once a prefix is complete or malformed, neither later bytes nor any ending change the result, and the result is the parse of the whole stream |
| `Reader.EndingsWithoutVerdict` | src/http.rs:67-86 | Without a verdict a clean close parses what is there, a missing one is an I/O error, a timeout is `Timeout` (src/lib.rs:88-95), and any other failure keeps its code |
| `Reader.FailedConnections` | src/http.rs:60-63 | A connection that is never made fails with the error of its step, and a timeout is `Timeout` |
| `Reader.TrailersNeedCleanClose` | src/http.rs:77-83 | A complete chunked response with trailers is delivered on a clean close and is an error on `UnexpectedEof`: the same bytes, two results |
| `Reader.FailoverExactly` | src/http.rs:31-40 | Trying candidates, as an if-and-only-if: all before the last one tried failed; a success is the one of the last tried; a failure means all were tried and the last error is returned |
| `Reader.HttpsGetWithCandidates` | src/http.rs:25-41 | The failover loop connects to exactly the addresses up to the first success, in order, and returns that result or the last error |
| `Response.VerdictFinal` | src/http.rs:183-200 | "Complete at n" and every error of the completeness test survive every extension of the input |
| `Response.VerdictTight` | src/http.rs:183-200 | If a message is complete at n, every prefix shorter than n is "not yet" |
| `Response.VerdictDecidesParse` | src/http.rs:104-130 | Once the completeness test has a verdict, every extension parses to what the first n bytes parse to, or to the same error |
| `Response.BodyVerdictDecides` | src/http.rs:109-122 | The same for the body alone, for chunked and for sized bodies |
| `Response.MetadataStable` | src/http.rs:132-148 | What the head says, or how it fails, never changes as bytes arrive |
| `Response.HeadDecides` | src/http.rs:132-148 | As soon as the first blank line stands, a head that does not read makes the response malformed and its parse that error; a head that reads says where the body starts |
| `Response.NoBlankLine` | src/http.rs:104-106 | Without a blank line a response is never complete, and the missing terminator is its parse error |
| `Response.BodylessExactly` | src/http.rs:183-200 | A response that ends at its blank line is seen as complete exactly when its fields declare length 0, and parses exactly when they declare length 0 or nothing, whatever its status: the code has no case for 1xx, 204 and 304 (section 6.3 of RFC 9112) |
| `Response.CompleteLen` | src/http.rs:183-200 | The complete length is at most the length of the buffer, so truncating to it is in range |
| `Response.HttpResponseCompleteLen` | src/http.rs:183-200 | The executable test computes the specified verdict with every slice in range and no unchecked addition overflowing |
| `Response.ParseHttpResponse` | src/http.rs:104-130 | The executable parser computes the specified parse, with every slice in range and no overflow |
| `Chunked.ChunkedWireLen` | src/http.rs:202-244 | The scanner loop computes its specification on arbitrary bytes; the cursor strictly grows and never passes the end, and no unchecked addition overflows even for sizes near the maximum |
| `Chunked.DecodeChunkedBody` | src/http.rs:246-285 | The decoder loop, which extends `decoded` in place, computes its specification under the same safety conditions |
| `Chunked.WireLenFinal` | src/http.rs:202-244 | A complete length or an error of the scanner survives every extension of the input |
| `Chunked.WireLenTight` | src/http.rs:202-244 | Nothing shorter than the complete length is complete or malformed |
| `Chunked.ScannerAgreesWithDecoder` | src/http.rs:202-285 | Lockstep of the two loops: the same errors; a complete body decodes, and decodes equally when cut at its complete length; while the scanner waits the decoder only complains about input that stopped |
| `Chunked.VerdictDecidesPayload` | src/http.rs:202-285 | Once the scanner has a verdict it decides what the decoder says of every longer body |
| `Chunked.PayloadFinal` | src/http.rs:246-285 | What the decoder accepted it decodes equally when more bytes follow |
| `Chunked.DecoderExactly` | src/http.rs:246-285 | The decoder accepts a body with these data if and only if a well-formed framing with these data stands at its front; neither the final line end nor trailers are needed |
| `Chunked.ScannerExactly` | src/http.rs:202-244 | The scanner says "complete at n" if and only if a well-formed framing directly followed by a line end stands at the front and n is their length |
| `Chunked.DecoderAloneExactly` | src/http.rs:219-224 | The decoder succeeds while the scanner says "not yet" if and only if the zero-size line is not directly followed by a line end |
| `Rejections.ScannerRejectsExactly` | src/http.rs:202-244 | The scanner fails with an error if and only if, behind some whole chunks that stand at the front of the body, stands what no further byte can mend: a line whose size does not read, with that error; a size past the address space; or a payload followed by two other bytes. Stated over the bytes, without the walk's own steps |
| `Rejections.DecoderRejectsExactly` | src/http.rs:246-285 | The decoder fails with an error if and only if that is the case, or the input stops behind whole chunks before a line end, a payload or its line end; and the error says which |
| `Rejections.BadSizeLineFails` | src/http.rs:212-216 | A size line that does not read fails both loops with its own error at once, behind any whole chunks and whatever follows |
| `Rejections.CutFramingFails` | src/http.rs:246-285 | A chunked body cut anywhere before the end of its zero-size line is not decoded: the scanner waits, and the decoder says that the input stopped |
| `Chunked.TrailersNeverComplete` | src/http.rs:219-224 | With trailers behind the zero-size line (section 7.1.2 of RFC 9112) the scanner says "not yet" whatever follows, while the decoder returns the data |
| `Chunked.FramingIsUnique` | src/http.rs:246-285 | A body reads as chunks in at most one way |
| `Chunked.Conservation` | src/http.rs:246-285 | Output length plus framing bytes is the number of bytes consumed; output + 5 per chunk + 3 is at most the input |
| `RoundTrip.ChunkedRoundTrip` | src/http.rs:202-285 | For every list of non-empty pieces of arbitrary bytes, sizes in either hex case, with blanks and extensions, decoding the encoding gives the concatenation, and the scanner answers exactly its length whatever follows (section 7.1 of RFC 9112) |
| `RoundTrip.ChunkedResponseRoundTrip` | src/http.rs:104-200 | The same inside a whole printed response: status, body and validators come back, and the complete length is the printed length. Nothing is asked of Content-Length: chunked framing overrides it (section 6.3 of RFC 9112) |
| `RoundTrip.SizedRoundTrip` | src/http.rs:104-200 | A printed response with a Content-Length body parses back to status, body, ETag and Last-Modified; its complete length is its printed length whatever bytes follow |
| `RoundTrip.ChunkedReads` | src/http.rs:104-200 | The chunked response round trip for every reading of heads and size lines, and every well-formed framing |
| `RoundTrip.SizedReads` | src/http.rs:104-200 | The sized response round trip for every reading of heads |
| `RoundTrip.SizedExactly` | src/http.rs:104-200 | A printed response that declares n bytes, with whatever arrived behind its head: the first n bytes are its body, complete at that length; fewer are "not yet", and at the end of the stream the error that names n |
| `RoundTrip.ChunkedExactly` | src/http.rs:104-200 | A printed response that declares chunks, with whatever arrived behind its head: the two walks decide, value for value and error for error, whatever length is declared besides |
| `RoundTrip.UnframedReads` | src/http.rs:120-122 | A printed response without either framing has the rest of the stream as its body, and is never complete before the end |
| `RoundTrip.HeadReads` | src/http.rs:132-181 | A printed head (any letter case, blanks, unrelated fields between) reads as printed |
| `RoundTrip.PrintedFieldsRead` | src/http.rs:150-171 | A printed field whose name is any case variant of etag, last-modified or content-length, and the last one so named, is the one read; a Transfer-Encoding in any case whose value holds "chunked" in any case makes the body chunked |
| `RoundTrip.TerminatorFound` | src/http.rs:133-135 | The blank line is found where the printer put it, never inside the head |
| `RoundTrip.EncodedLineIsSingle` | src/http.rs:133-139 | A line without a line end as text has none as UTF-8 bytes: the byte search and the text split agree |
| `RoundTrip.EmptySizeLine` | src/http.rs:214-216 | An empty size line is an error, which is what the byte count of `Chunked.Conservation` needs |
| `Deviations.NotModifiedWithLengthFails` | src/http.rs:111-119 | Counterexample: a complete 304 that carries the length of the unsent body is an error (section 6.3 of RFC 9112) |
| `Deviations.BadLengthErasesGoodOne` | src/http.rs:160-161 | Counterexample: a printed head with a Content-Length of 5 and then one that is no number declares no length, so with any body it is never complete and parses to all the rest of the stream |
| `Deviations.TrailersDependOnEnding` | src/http.rs:77-83 | Counterexample: one printed chunked response with a trailer line is delivered on a clean close and is an error on `UnexpectedEof` |
| `Headers.ScanFields` | src/http.rs:150-171 | The loop over header lines computes the declarative reading: the last value of each name, and the OR of the chunked markers |
| `Headers.HttpResponseMetadata` | src/http.rs:132-181 | The whole metadata scanner, error order included, computes its specification |
| `Headers.HeadFromSnoc` | src/http.rs:160-170 | One more line changes the one reading its name selects and no other |
| `Headers.LastValueExactly` | src/http.rs:166-169 | The value read for a name is that of the last line with that name, if and only if |
| `Headers.ReorderingIsHarmless` | src/http.rs:154-171 | Any permutation of the header lines that keeps lines of the same name in order leaves the whole reading unchanged |
| `Headers.MetadataOf` | src/http.rs:108-108 | The body start, four bytes past the head, is within the buffer |
| `Readings.FieldExactly` | src/http.rs:155-159 | A line is a field if and only if a colon stands in it; name and value are the two sides of the first colon without their blanks |
| `Readings.StatusExactly` | src/http.rs:143-148 | A status line gives a code if and only if its second word is a decimal numeral of at most 16 bits with that value |
| `Readings.StatusRejectedExactly` | src/http.rs:143-148 | The code is missing if and only if the line has no two words, and invalid if and only if the second word does not parse, with that parse error |
| `Readings.SizeExactly` | src/http.rs:212-216 | A size line gives a size if and only if it is UTF-8 and what precedes the first `;` is, blanks aside, a hexadecimal numeral of that value that fits `usize` |
| `Readings.SizeNotTextExactly` | src/http.rs:212-213 | A size line is rejected as text if and only if no text encodes to it |
| `Readings.SizeRejectedExactly` | src/http.rs:214-216 | A size line is rejected as a number if and only if what precedes the first `;`, blanks aside, does not parse, with that text and that parse error |
| `Readings.LengthExactly` | src/http.rs:160-161 | A head declares a length if and only if its last Content-Length line, in any letter case, holds a decimal numeral that fits: an unparsable one erases an earlier good one |
| `Readings.ValidatorsExactly` | src/http.rs:166-169 | ETag and Last-Modified are read with a value if and only if the last line with that name, in any letter case, has it |
| `Readings.ChunkedExactly` | src/http.rs:162-165 | The body is chunked if and only if "chunked" stands, in any letter case, somewhere in the value of some Transfer-Encoding line |
| `Readings.ListedChunkedCounts` | src/http.rs:162-165 | The value `gzip, Chunked` counts |
| `Readings.HeadExactly` | src/http.rs:132-181 | What a head says is what its status line and its other lines say, where its lines are the one way to cut its text |
| `Readings.HeadRejectedExactly` | src/http.rs:137-148 | A head is rejected if and only if it is not UTF-8 or its status line is rejected, with that error |
| `Readings.TrimExactly` | src/http.rs:158-159 | Trimming takes a text apart into blanks, core, blanks in one way only |
| `Text.ParseUintExactly` | src/http.rs:147-216 | Integer parsing succeeds if and only if the text is a non-empty digit string, with or without one plus sign before it, whose positional value fits: no wrap-around, no false overflow |
| `Text.ParseUintErrors` | src/http.rs:147-216 | The parse error is "empty" if and only if there is nothing, "overflow" if and only if a numeral at the front is too large, and else an invalid digit |
| `Text.DigitTable` | src/http.rs:215-216 | The digits of both radices, as a table |
| `Text.WhitespaceTable` | src/http.rs:144-159 | The blanks that trimming and word splitting know, as a table |
| `Text.EqIgnoreCaseExactly` | src/http.rs:160-168 | Names match if and only if they have the same length and each pair of characters is equal or the two cases of one ASCII letter |
| `Text.ContainsVariantExactly` | src/http.rs:163-163 | Searching the lower-cased value finds a word if and only if some case variant of it stands in the value |
| `Text.ParseDigitsOverflows` | src/http.rs:215-216 | Overflow is reported if and only if digits up to some point denote too large a number, whatever stands behind them |
| `Text.SplitExactly` | src/http.rs:139-139 | Splitting at line ends is the one way to cut a text into lines without line ends |
| `Text.ContainsExactly` | src/http.rs:163-163 | The substring test holds if and only if the part stands somewhere |
| `Scan.FindPairExactly` | src/http.rs:205-208 | The line-end search returns the first match, if and only if |
| `Scan.FindPairStable` | src/http.rs:205-208 | A line end once found stays the first one however the buffer grows |
| `Scan.FindTerminatorStable` | src/http.rs:133-135 | The blank line once found stays the first one however the buffer grows |
| `Utf8.DecodeExactly` | src/http.rs:137-138 | Bytes decode to a text if and only if they are its UTF-8 encoding: overlong forms, surrogates and truncated characters are rejected |
| `Utf8.EncodedBits` | src/http.rs:137-138 | The bits of an encoded character, in the shortest form that holds them |
| `Utf8.NoTextExactly` | src/http.rs:137-138 | Decoding fails if and only if no text encodes to the bytes |
| `Resolver.DnsResolver.constructor` | src/dns.rs:47-51 | A new resolver has an empty cache and an empty history |
| `Resolver.DnsResolver.Resolve` | src/dns.rs:53-72 | One call, with its whole new state: the cache stays the one of the history, the result is what the history determines, a hit asks nothing upstream, a miss at most four names, and a success is never empty |
| `Resolver.CacheIsLastRefresh` | src/dns.rs:60-70 | At every moment of every run the cache holds for a host exactly what the last lookup for it left: its addresses until expiry, or nothing after a failure; calls for other hosts change nothing |
| `Resolver.NoEntryBeforeRefresh` | src/dns.rs:47-60 | A host never looked up has no entry |
| `Resolver.HitsAreFresh` | src/dns.rs:53-71 | Freshness over every run: a hit serves exactly what the last lookup for that host returned, at a time before that lookup's lifetime has passed; without a hit a call returns its own lookup's addresses or error |
| `Resolver.NoRefreshWithinLifetime` | src/dns.rs:54-63 | Until its lifetime has passed, a successful lookup without clock overflow answers every call for that host |
| `Resolver.NoRefreshWithinThirtySeconds` | src/dns.rs:53-72 | ... so, through the clamp of src/dns.rs:125-134 on whatever TTLs the upstream gives, no new lookup for that host starts within 30 seconds of a successful one |
| `Resolver.ShortTtlExpires` | src/dns.rs:62-70 | When no TTL of the answers that a lookup ended with is above 30 seconds, its entry is never served from 30 seconds after the lookup on |
| `Resolver.OverflowNeverServes` | src/dns.rs:63-63 | If adding the lifetime overflows the clock, the entry is never served |
| `Resolver.NeverEmpty` | src/dns.rs:64-70 | No reachable cache holds an empty address list |
| `Resolver.NeverServesNothing` | src/dns.rs:53-72 | No reachable call returns an empty address list |
| `Dns.ResolveHostV4` | src/dns.rs:74-118 | The recursion, which parses each response it gets, computes the specified chase and asks the specified names: at most four against any upstream, cycles included |
| `Dns.AskedExactly` | src/dns.rs:85-113 | The names asked for are a chain: each is the one the first CNAME record of the answer before it gives, where no usable A record stood; a successful chase ends at the last of them |
| `Dns.ChaseExactly` | src/dns.rs:79-155 | Over raw responses: the chase succeeds with a result if and only if a chain of at most four names, each the first CNAME of an answer without a usable A record, ends at a response with one; the result is the addresses of all its A records in canonical dotted form, in order, and its least TTL brought between 30 and 300 |
| `Dns.ChaseFailsExactly` | src/dns.rs:79-117 | Over raw responses: the chase fails with an error if and only if such a chain ends at a query that is the fifth, that fails itself, that is answered with another status than 0, or whose answers hold neither a usable A record nor a CNAME; the error carries that query's name |
| `Dns.ReadRecordExactly` | src/dns.rs:141-151 | A record reads as an address if and only if it has type A and the canonical dotted form of that address; as an alias if and only if it has type CNAME, and then as its data without trailing dots |
| `Dns.ListsExactly` | src/dns.rs:142-146 | The addresses read are the addresses of all usable A records, each once and in order, if and only if |
| `Dns.PointsToExactly` | src/dns.rs:147-149 | The alias read is the one the first CNAME record gives, if and only if |
| `Dns.LivesForExactly` | src/dns.rs:125-134 | The lifetime read is the least TTL given, 30 if that is at most 30, 300 if it is at least 300, and 30 without any TTL, if and only if |
| `Dns.ChaseFindsAddresses` | src/dns.rs:107-117 | A successful chase is never empty, and its lifetime lies between 30 and 300 seconds |
| `Dns.ParseDnsAnswers` | src/dns.rs:136-155 | Reading a response computes the addresses, the first alias and the clamped lifetime |
| `Dns.ScanRecords` | src/dns.rs:140-152 | The loop over the records, pushing addresses and setting the alias once, computes both |
| `Dns.AddressesInOrder` | src/dns.rs:142-146 | Every parsable A record contributes its address once and in order, and nothing else does |
| `Dns.FirstAliasExactly` | src/dns.rs:147-149 | The alias followed is that of the first CNAME record, if and only if |
| `Dns.MinTtlExactly` | src/dns.rs:126-129 | The lifetime before clamping is the smallest TTL any answer gives, if and only if |
| `Dns.ParseIpv4Exactly` | src/dns.rs:143-143 | An address parses if and only if it is the canonical dotted form of that address |
| `Dns.NormalizeName` | src/dns.rs:121-123 | Normalizing drops exactly the trailing dots |
| `Poll.PollLoop.constructor` | src/poll.rs:17-19 | The loop starts with the interval, at least one second, as its backoff |
| `Poll.PollLoop.DriveOnce` | src/poll.rs:47-111 | One iteration: the actions it appends and the backoff it leaves, and that both stay those of the history |
| `Poll.PollLoop.PushWithRetries` | src/poll.rs:64-84 | The bounded retry loop pushes until the first acceptance, at most three times, with a one-second sleep after each refusal |
| `Poll.PollLoop.Run` | src/poll.rs:20-22 | Every finite run of the loop keeps backoff and trace those of its rounds |
| `Poll.BackoffClosedForm` | src/poll.rs:91-106 | Over every run, the backoff after j failures since the last success or the start is the interval i when j = 0 and min(i * 2^j, 60) otherwise |
| `Poll.NextFailureSleeps` | src/poll.rs:98-105 | ... and that is exactly what the next failure of any run sleeps |
| `Poll.SteadyFromSixth` | src/poll.rs:98-106 | From j = 6 on the sleep is 60 |
| `Poll.SaturationIsInvisible` | src/poll.rs:106-106 | The saturating multiplication never changes the capped result |
| `Poll.CapExactly` | src/poll.rs:98-98 | The documented 60-second cap (src/poll.rs:8) holds for a reachable failure if and only if the interval is at most 60 or another failure came just before |
| `Poll.CapFails` | src/poll.rs:98-98 | Counterexample: with interval 300 the first failure sleeps 300 |
| `Poll.FetchedLanguage` | src/poll.rs:62-96 | A fetched payload is pushed k <= 3 times in vain, each push followed by sleep(1), then accepted exactly when k < 3, then sleep(interval) |
| `Poll.AcceptedIsDelivered` | src/poll.rs:62-96 | Over every run the channel accepts exactly the payloads of the rounds that deliver, once each, in order |
| `Poll.DeliveredIsSubsequence` | src/poll.rs:62-96 | Accepted payloads are an in-order subsequence of the fetched ones, and none the channel took is missing |
| `Poll.BackoffRange` | src/poll.rs:18-106 | Reachable backoff lies between min(i, 60) and max(i, 60) |
| `Poll.SleepRate` | src/poll.rs:20-106 | Requested sleep over any n rounds lies between n * min(i, 60) and n * (max(i, 60) + 3) |
| `Host.BoundaryRoundTrip` | src/lib.rs:265-275 | Every response crosses the host boundary without loss: status, body and both validators |
| `Host.HeadersFromResponse` | src/host_request.rs:196-211 | The header vector built for the boundary holds the validators present, in order, and nothing else |
| `Host.HeaderValueExactly` | src/lib.rs:315-320 | Looking up a header finds a value if and only if the first header with that name, in any letter case, has it |
| `Host.ErrorVariantExactly` | src/host_request.rs:218-228 | An error stays an error, and keeps its variant if and only if it is not an HTTP status error |
| `Host.ErrorCrossesAs` | src/host_request.rs:180-187 | What every error is on the other side of the boundary, with its text; a timeout stays a timeout, and a TCP answer to an HTTPS request is an error |
| `Host.HttpsGetConditional` | src/lib.rs:130-159 | The request headers sent and the result, for every answer of the host |
| `Host.ConditionalExactly` | src/lib.rs:144-158 | The caller gets the body and validators of a 2xx response; an empty body and the validators given or else held for a 304; the status and body as an error for every other status; and a failure as it is |
| `Host.RequestCarriesHeld` | src/lib.rs:136-142 | The request carries exactly the validators the caller holds, each under its own name, and no other header |
| `Host.NotModifiedPreservesExactly` | src/lib.rs:145-153 | A 304 gives an empty body, never loses a validator, and preserves both if and only if it names no other ones |
| `Host.BoundaryKeepsHeld` | src/host_request.rs:146-157 | Over every run the boundary makes no difference to the validators a caller holds |
| `Host.HeldIsLatest` | src/lib.rs:144-158 | Over every run of responses and errors a caller that feeds validators back holds that of the latest 2xx response, overlaid by that of any later 304 that gives one (section 15.4.5 of RFC 9110) |
| `Host.HeldIsNone` | src/lib.rs:144-158 | ... and none before the first reply that decides it |
| `Host.NeverLost` | src/lib.rs:144-153 | A 304, an error status or an error never loses a validator in any reachable state |
| `Host.PerformGet` | src/lib.rs:241-248 | Resolving through the cache and failing over: the result is the resolver's error or the failover over the served addresses |
| `Host.FallbackUnreachable` | src/host_request.rs:213-216 | In every run, the failover behind the resolver has a candidate to try, so the "no IPv4 addresses available" fallbacks (src/http.rs:39-40, src/socket.rs:131-135) never decide a result |
| `Host.PrintedArrives` | src/http.rs:54-88 | A printed response, with a sized, a chunked or an unframed body, arrives as printed for every division into pieces, every ending and whatever follows it; only the unframed body needs a clean close behind it |
| `Host.PrintedBodyReturns` | src/lib.rs:130-158 | End to end, whatever the caller holds: a printed 2xx response, read from the wire and passed across the boundary, gives it the printed body and validators, and another status but 304 an error with that body |
| `Host.TruncatedFails` | src/http.rs:111-119 | A printed response with fewer body bytes than it declares never arrives: a clean close is the error that names the declared length, and a missing close an I/O error, for every division into pieces |
| `Host.PrintedValidatorsReturn` | src/lib.rs:130-158 | End to end, after any earlier run: the validators printed in a 2xx response, read from the wire and passed across the host boundary, are exactly the `If-None-Match` and `If-Modified-Since` headers of the next request |
| `Deviations.NotModifiedReplacesValidator` | src/lib.rs:145-153 | Counterexample: a printed 304 with another ETag, read and passed across the boundary, replaces the one held |
| `Url.RebuiltSplits` | src/lib.rs:217-239 | Rebuilding a URL from a host and a path and splitting it gives the pair back |
| `Url.SplitTwice` | src/lib.rs:217-239 | Splitting is idempotent through rebuilding, for every URL it accepts |
| `Url.QuerySplits` | src/lib.rs:228-229 | Without a `/`, `https://host?query` splits to the host and `/?query` |
| `Url.HostAlone` | src/lib.rs:230-232 | A host alone splits to the host and `/` |
| `Url.RefusedExactly` | src/lib.rs:218-236 | A URL is refused if and only if its scheme is another one, or nothing stands where the host should: the end, a `/`, or a `?` with no `/` behind it; and the error says which |
| `Url.HostIsAuthorityExactly` | src/lib.rs:226-232 | The host is the authority (section 3.2 of RFC 3986) if and only if the authority runs to the end, or ends at a `/`, or at a `?` with no `/` anywhere behind it |
| `Url.QuerySlashSplitsQuery` | src/lib.rs:226-227 | Counterexample: a `/` inside a query that directly follows the host splits the query |

## Left out

- TLS, sockets and the WASI calls (src/tls.rs, src/socket.rs): a connection is its pieces and its ending, or a handshake or transport failure.
- The 4096-byte read buffer (src/http.rs:66): pieces may have any positive length, which covers every buffer size.
- `connect_any` as a loop with its timing (src/socket.rs:117-136): it is the same failover; only the unreachability of its fallback is stated, in `Host.FallbackUnreachable`.
- The HTTPS exchange and JSON decoding inside the chase (src/dns.rs:85-97): the upstream is an arbitrary function from query number and name to a decoded response, or an error.
- JSON text of requests and responses (src/host_request.rs:101-143): the model works on the structured values.
- The message text of errors and `Display` (src/lib.rs:74-84), and lossy UTF-8 text of error bodies (src/http.rs:287-289): errors are structured values.
- `build_request`, `https_get`, `https_get_text`, `env_var` and `tcp_connect` (src/http.rs:90-102, src/lib.rs:98-117, 182-210): straight-line members.
- The host channel and the real length of a sleep (src/channel.rs, src/poll.rs:37-44): push statuses are arbitrary, and claims are about requested sleep, since the host may skip one.
- Trace spans and manifest types (src/trace.rs, src/manifest.rs): declarations and host calls.
- The poll loop's endlessness (src/poll.rs:13-23): the claims cover every finite run.
- Poll.PollLoop.Run: runs for as many rounds as the environment is described for, because the loop in the source never returns.
- Chunked.Conservation: asks that an empty size line be an error, which `RoundTrip.EmptySizeLine` shows for the program's own reading.
