/**
 * Outbound frames as the device sessions build them
 * (`f"{address}{HostCommand.X.value}{payload}"`), and the abstraction of the
 * serial line used for one-shot exchanges.
 */
module Wire {
  import opened Results
  import opened Enums
  import opened Exceptions
  import opened Hex
  import opened Helpers

  /**
   * The bus seen from the host for one exchange: the reply line read after
   * writing a frame (CRLF and surrounding whitespace already stripped), or
   * None when the read timed out.
   */
  type Responder = string -> Option<string>

  /** A single carriage return: resets the receive state machine of every device. */
  const ParserReset: string := "\r"

  function Frame(a: char, c: HostCommand, payload: string): string {
    [a] + c.Mnemonic() + payload
  }

  function StatusQuery(a: char): (f: string)
    ensures |f| == 3 && f[0] == a && f[1..] == "gs"
  {
    Frame(a, GetStatus, "")
  }

  function VelocityQuery(a: char): (f: string)
    ensures |f| == 3 && f[0] == a && f[1..] == "gv"
  {
    Frame(a, GetVelocity, "")
  }

  function PositionQuery(a: char): (f: string)
    ensures |f| == 3 && f[0] == a && f[1..] == "gp"
  {
    Frame(a, GetPosition, "")
  }

  function StopFrame(a: char): (f: string)
    ensures |f| == 3 && f[0] == a && f[1..] == "st"
  {
    Frame(a, Stop, "")
  }

  /** The set-velocity frame, 5 characters; a percent outside [0, 100] never becomes a frame. */
  function SetVelocityFrame(a: char, percent: int): (r: Result<string, Error>)
    ensures r.Success? <==> 0 <= percent <= 100
    ensures r.Failure? ==> r.error == InvalidPercent(percent)
    ensures r.Success? ==>
      && |r.value| == 5 && r.value[0] == a && r.value[1..3] == "sv"
      && IsUpperHex(r.value[3..]) && IsHexString(r.value[3..]) && HexValue(r.value[3..]) == percent
  {
    var vv :- EncodeU8Percent(percent);
    var f := Frame(a, SetVelocity, vv);
    assert f[3..] == vv;
    Success(f)
  }

  /** The home frame, 4 characters: the direction is the digit '0' (CW) or '1' (CCW). */
  function HomeFrame(a: char, direction: HomeDirection): (f: string)
    ensures |f| == 4 && f[0] == a && f[1..3] == "ho"
    ensures f[3] as int - '0' as int == direction.Value()
  {
    Frame(a, Home, [direction.Digit()])
  }

  /** The move frames, 11 characters: the count is carried modulo 2^32 as eight hex digits. */
  function MoveFrame(a: char, relative: bool, counts: int): (f: string)
    ensures |f| == 11 && f[0] == a && f[1..3] == (if relative then "mr" else "ma")
    ensures IsUpperHex(f[3..]) && IsHexString(f[3..]) && HexValue(f[3..]) == counts % TwoPow32
  {
    var f := Frame(a, if relative then MoveRelative else MoveAbsolute, EncodeLong32(counts));
    assert f[3..] == EncodeLong32(counts);
    f
  }

  /** The count of a move frame is the one a position reply carrying the same digits decodes to. */
  lemma MoveFrameCarriesCount(a: Address, relative: bool, counts: int)
    requires -TwoPow31 <= counts < TwoPow31
    ensures ParsePositionReply([a] + "PO" + MoveFrame(a, relative, counts)[3..], a) == Success(counts)
  {
    var f := MoveFrame(a, relative, counts);
    assert f[3..] == EncodeLong32(counts);
    PositionRoundTrip(a, counts);
  }
}
