/** Error values. The source formats messages; the model keeps one constructor for each message,
    with the payload that tells two messages of that kind apart. */
module Errors {
  import opened Prelude

  /** The ways integer parsing fails. */
  datatype IntError = EmptyNumber | InvalidDigit | NumberOverflow

  datatype IoCause =
    // head of the response
    | HeaderTerminatorMissing
    | HeaderNotUtf8(head: bytes)
    | StatusCodeMissing
    | StatusCodeInvalid(status: IntError)
    | BodyShorterThanDeclared(declared: nat)
    // chunked body
    | ChunkDelimiterMissing
    | ChunkLineNotUtf8(line: bytes)
    | ChunkSizeInvalid(sizeText: string, size: IntError)
    | ChunkSizeOverflow
    | ChunkPayloadTruncated
    | ChunkCrlfMissing
    // transport
    | UnexpectedEnd
    | SocketFailed(code: nat)
    | UnsupportedScheme(url: string)
    | MissingHost(url: string)
    | WrongResponseKind
    // an error that crossed the host boundary as text
    | RelayedIo(io: Error)

  datatype DnsCause =
    | NoAddressesAvailable(host: string)
    | CnameDepthExceeded(name: string)
    | ResponseUndecodable(name: string)
    | ResolverStatus(status: u32, name: string)
    | NoIpv4Addresses(name: string)
    | RelayedDns(dns: Error)

  datatype Error =
    | Dns(dnsCause: DnsCause)
    | Tls(tlsCause: TlsCause)
    | Http(status: u16, body: bytes)
    | Io(ioCause: IoCause)
    | Timeout

  datatype TlsCause = TlsFailed(code: nat) | RelayedTls(tls: Error)
}
