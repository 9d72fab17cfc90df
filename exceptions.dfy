/**
 * The errors the protocol engine raises. The source raises `ValueError` for
 * bad arguments and `ElliptecError(message, status=..., reply=...)` (or, in
 * elliptec/elliptec_speed_serial.py, `RuntimeError`/`TimeoutError`) for
 * everything else; here each distinct raise site kind is one constructor.
 */
module Exceptions {
  import opened Results
  import opened Enums

  datatype Error =
    | InvalidAddress(addr: string)                         // not a single hex digit
    | InvalidRange(minAddr: string, maxAddr: string)       // min address above max address
    | InvalidPercent(percent: int)                         // percent outside [0, 100]
    | UnexpectedReply(reply: string)                       // too short, wrong address or wrong tag
    | MalformedReply(reply: string)                        // payload is not hexadecimal
    | NoReply                                              // nothing read before the timeout
    | DeviceStatus(status: StatusCode, line: Option<string>) // the device reported a status other than OK
    | NonZeroStatus(code: nat, statusLine: string)         // the same, reported as the raw code
    | NoDevice                                             // discovery found no address
    | MultipleDevices(found: seq<char>)                    // discovery found several addresses
    | MotionTimeout(lastReply: Option<string>)             // motion did not complete before the deadline
}
