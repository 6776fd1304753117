/** The driver's error values (u6/errors.go and the ad-hoc `errors.New`/`fmt.Errorf` values of
    the core), and the Option/Result wrappers that carry them. */
module Errors {

  datatype Error =
    | InvalidChecksumInput        // ErrInvalidChecksumInput: checksum input too short
    | InvalidChecksumResponse     // ErrInvalidChecksumResponse: the device reports (or we detect) a bad checksum
    | InvalidChecksum8Response    // ErrInvalidChecksum8Response: used by the stop handshake
    | InvalidChecksum             // ErrInvalidChecksum
    | InvalidResponseHeader       // ErrInvalidResponseHeader
    | ResponseTooShort            // ErrResponseTooShort
    | EndpointRecvError           // ErrEndpointRecvError: fewer bytes received than expected
    | LabJackErrorCode(code: int) // ErrLabJackErrorCode: the device's own error byte
    | TransportError              // an error returned by the USB library itself
    | EndOfInput                  // io.EOF from reading an exhausted response buffer
    | InvalidFrameNumber          // "Invalid frame number in feedback response"
    | IncompleteResponse(received: nat, expected: nat) // "Full response was not recieved from device"
    | IncompleteDecode(remaining: int)                 // "Feedback response was not decoded completely"
    | ResponseErrorCode(code: int)                     // "Feedback response error code (%d)"
    | InvalidGainIndex            // "Invalid gain index"
    | InvalidConfigResponse       // "Invalid config response"

  datatype Option<+T> = None | Some(value: T)

  datatype Result<+T> = Success(value: T) | Failure(error: Error)
}
