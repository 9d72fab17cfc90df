/**
 * The protocol's constant tables (elliptec/base/enums.py): host mnemonics,
 * reply tags, status codes and the homing direction.
 */
module Enums {
  import opened Results

  /** Commands sent from host to device; the mnemonic is lower case on the wire. */
  datatype HostCommand =
    | GetStatus | GetVelocity | SetVelocity
    | Home | MoveAbsolute | MoveRelative
    | GetPosition | Stop
  {
    function Mnemonic(): (m: string)
      ensures |m| == 2 && 'a' <= m[0] <= 'z' && 'a' <= m[1] <= 'z'
    {
      match this
      case GetStatus => "gs"
      case GetVelocity => "gv"
      case SetVelocity => "sv"
      case Home => "ho"
      case MoveAbsolute => "ma"
      case MoveRelative => "mr"
      case GetPosition => "gp"
      case Stop => "st"
    }
  }

  /** No two host commands share a mnemonic. */
  lemma MnemonicsDistinct(c: HostCommand, d: HostCommand)
    ensures c != d ==> c.Mnemonic() != d.Mnemonic()
  {
  }

  /** Reply tags sent from device to host; upper case on the wire. */
  datatype ReplyCommand = Status | Velocity | Position
  {
    function Tag(): (t: string)
      ensures |t| == 2 && 'A' <= t[0] <= 'Z' && 'A' <= t[1] <= 'Z'
    {
      match this
      case Status => "GS"
      case Velocity => "GV"
      case Position => "PO"
    }
  }

  /** No two reply kinds share a tag. */
  lemma TagsDistinct(c: ReplyCommand, d: ReplyCommand)
    ensures c != d ==> c.Tag() != d.Tag()
  {
  }

  /**
   * Device status codes. The fourteen codes 0..13 are the enumeration of
   * elliptec/base/enums.py; `Unknown` (255) exists only in the enumeration of
   * elliptec/elliptec_trace.py, which uses it for codes outside 0..13.
   */
  datatype StatusCode =
    | Ok | CommunicationTimeout | MechanicalTimeout | CommandErrorOrNotSupported
    | ValueOutOfRange | ModuleIsolated | ModuleOutOfIsolation | InitializingError
    | ThermalError | Busy | SensorError | MotorError | OutOfRange | OverCurrent
    | Unknown
  {
    /** The integer value of the code (an IntEnum is an int in Python). */
    function Code(): (n: nat)
      ensures Unknown? <==> n == 255
      ensures !Unknown? <==> n <= 13
    {
      match this
      case Ok => 0
      case CommunicationTimeout => 1
      case MechanicalTimeout => 2
      case CommandErrorOrNotSupported => 3
      case ValueOutOfRange => 4
      case ModuleIsolated => 5
      case ModuleOutOfIsolation => 6
      case InitializingError => 7
      case ThermalError => 8
      case Busy => 9
      case SensorError => 10
      case MotorError => 11
      case OutOfRange => 12
      case OverCurrent => 13
      case Unknown => 255
    }
  }

  /** `StatusCode(n)`: the defined code with value n, if there is one. */
  function FromCode(n: int): (r: Option<StatusCode>)
    ensures r.Some? <==> 0 <= n <= 13
    ensures r.Some? ==> r.value.Code() == n && r.value != Unknown
  {
    if n == 0 then Some(Ok)
    else if n == 1 then Some(CommunicationTimeout)
    else if n == 2 then Some(MechanicalTimeout)
    else if n == 3 then Some(CommandErrorOrNotSupported)
    else if n == 4 then Some(ValueOutOfRange)
    else if n == 5 then Some(ModuleIsolated)
    else if n == 6 then Some(ModuleOutOfIsolation)
    else if n == 7 then Some(InitializingError)
    else if n == 8 then Some(ThermalError)
    else if n == 9 then Some(Busy)
    else if n == 10 then Some(SensorError)
    else if n == 11 then Some(MotorError)
    else if n == 12 then Some(OutOfRange)
    else if n == 13 then Some(OverCurrent)
    else None
  }

  /** The codes are pairwise distinct, and every defined code is found again from its value. */
  lemma CodesDistinct(s: StatusCode, t: StatusCode)
    ensures s != t ==> s.Code() != t.Code()
    ensures s != Unknown ==> FromCode(s.Code()) == Some(s)
  {
  }

  /** The values the protocol names explicitly. */
  lemma NamedCodes()
    ensures Ok.Code() == 0 && MechanicalTimeout.Code() == 2
    ensures CommandErrorOrNotSupported.Code() == 3 && Busy.Code() == 9
  {
  }

  /** Homing direction for rotary stages; other devices ignore it. */
  datatype HomeDirection = CW | CCW
  {
    function Value(): (n: nat)
      ensures n <= 1
    {
      match this
      case CW => 0
      case CCW => 1
    }

    /** The single payload digit of a home frame, `str(int(direction))`. */
    function Digit(): (c: char)
      ensures c == '0' || c == '1'
      ensures c as int - '0' as int == Value()
    {
      match this
      case CW => '0'
      case CCW => '1'
    }
  }
}
