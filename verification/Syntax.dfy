/** The seam between the wire layer, which moves a cursor over bytes, and the text layer, which
    reads one size line or one response head. The wire layer is proved for every such reading;
    `Headers.HttpSyntax` is the one the program uses. */
module Syntax {
  import opened Prelude
  import opened Errors

  datatype Metadata = Metadata(
    headerEnd: nat,
    statusCode: u16,
    contentLength: Option<nat>,
    chunked: bool,
    etag: Option<string>,
    lastModified: Option<string>)

  /** What a response head says, apart from where it ends. */
  datatype Head = Head(
    statusCode: u16,
    contentLength: Option<nat>,
    chunked: bool,
    etag: Option<string>,
    lastModified: Option<string>)

  /** The answer to "is this message complete?": `Ok(None)`, `Ok(Some(length))` and `Err(error)`. */
  datatype Verdict = NotYet | CompleteAt(length: nat) | Malformed(error: Error)

  /** How a head and a chunk-size line read, on a target whose largest `usize` is `umax`. */
  datatype Syntax = Syntax(
    readHead: bytes -> Result<Head, Error>,
    readSize: bytes -> Result<nat, Error>,
    umax: nat)
}
