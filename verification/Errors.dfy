/** Error codes, close codes, and the result types of operations that fail or have nothing to return. */
module Errors {

  /** A 16-bit close frame status code (section 7.4 of RFC 6455). */
  type CloseCode = bv16

  const NOT_SET: CloseCode := 0
  const NORMAL_CLOSURE: CloseCode := 1000
  const GOING_AWAY: CloseCode := 1001
  const PROTOCOL_ERROR: CloseCode := 1002
  const UNACCEPTABLE_DATA_TYPE: CloseCode := 1003
  const INVALID_FRAME_PAYLOAD_DATA: CloseCode := 1007
  const POLICY_VIOLATION: CloseCode := 1008
  const MESSAGE_TOO_BIG: CloseCode := 1009
  const MISSING_EXTENSION: CloseCode := 1010
  const UNEXPECTED_CONDITION: CloseCode := 1011

  /** Close codes a server may send: the named ones, and 3000 to 4999. */
  predicate IsValidCloseCode(code: CloseCode) {
    || code == NORMAL_CLOSURE || code == GOING_AWAY
    || code == PROTOCOL_ERROR || code == UNACCEPTABLE_DATA_TYPE
    || code == INVALID_FRAME_PAYLOAD_DATA || code == POLICY_VIOLATION
    || code == MESSAGE_TOO_BIG || code == MISSING_EXTENSION
    || code == UNEXPECTED_CONDITION
    || 3000 <= code <= 4999
  }

  datatype ErrorCode =
    | ConnectionClosed | TransportError | ProtocolError | UrlError | BufferError
    | CompressionError | TimeoutError | LogicError

  /** An error without its message text: what went wrong and how the caller should close. */
  datatype WSError = WSError(code: ErrorCode, closeWith: CloseCode)

  datatype Result<+T> = Ok(value: T) | Err(error: WSError)

  datatype Option<+T> = None | Some(value: T)
}
