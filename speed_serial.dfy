/**
 * The stand-alone speed helpers of elliptec/elliptec_speed_serial.py: each
 * opens the port, writes a parser reset and exchanges frames one at a time,
 * clearing the input before every frame. Addresses here are free strings:
 * they are upper-cased but never validated.
 */
module SpeedSerial {
  import opened Results
  import opened Enums
  import opened Exceptions
  import opened Hex
  import opened Helpers
  import opened Wire
  import opened Discovery

  /** The default `addresses` argument of `find_addresses`. */
  const AllAddresses: string := "0123456789ABCDEF"

  /** `str.upper()` on ASCII text. */
  function UpperAscii(s: string): (r: string)
    ensures |r| == |s| && forall i :: 0 <= i < |s| ==> r[i] == ToUpper(s[i])
  {
    if |s| == 0 then [] else UpperAscii(s[..|s| - 1]) + [ToUpper(s[|s| - 1])]
  }

  /** `r[0] == address` for a one-character `r[0]`: only a one-character address can match. */
  predicate AddressedTo(reply: string, address: string) {
    |reply| >= 1 && [reply[0]] == address
  }

  /**
   * `find_addresses`: a parser reset, then one status probe per character of
   * `addresses`, in order; the characters whose probe got a well-formed status
   * reply are returned in that order.
   */
  method FindAddresses(addresses: string, bus: Responder) returns (found: seq<char>, sent: seq<string>)
    ensures found == Discovered(addresses, bus)
    ensures sent == [ParserReset] + ProbeFrames(addresses)
  {
    found := [];
    sent := [ParserReset];
    var i := 0;
    while i < |addresses|
      invariant 0 <= i <= |addresses|
      invariant found == Discovered(addresses[..i], bus)
      invariant sent == [ParserReset] + ProbeFrames(addresses[..i])
    {
      var a := addresses[i];
      assert addresses[..i + 1][..i] == addresses[..i];
      var r := bus(StatusQuery(a));
      sent := sent + [StatusQuery(a)];
      if r.Some? && |r.value| >= 5 && r.value[0] == a && r.value[1..3] == "GS" {
        found := found + [a];
      }
      i := i + 1;
    }
    assert addresses[..i] == addresses;
  }

  /** The velocity query `get_speed` writes for an already upper-cased address. */
  function SpeedQuery(address: string): (f: string)
    ensures |f| == |address| + 2 && f[..|address|] == address && f[|address|..] == "gv"
  {
    address + HostCommand.GetVelocity.Mnemonic()
  }

  /**
   * `get_speed`: the two hex digits after "GV" in the reply to the velocity
   * query; no reply or an empty one is a timeout.
   */
  function GetSpeed(address: string, bus: Responder): (r: Result<nat, Error>)
    ensures var reply := bus(SpeedQuery(UpperAscii(address)));
      && (reply.None? || reply == Some("") ==> r == Failure(NoReply))
      && (r.Success? <==>
           && reply.Some? && |reply.value| >= 5 && AddressedTo(reply.value, UpperAscii(address))
           && reply.value[1..3] == "GV" && IsHexString(reply.value[3..5]))
      && (r.Success? ==> r.value == HexValue(reply.value[3..5]) && r.value < 256)
  {
    var a := UpperAscii(address);
    match bus(SpeedQuery(a))
    case None => Failure(NoReply)
    case Some(line) =>
      if line == "" then Failure(NoReply)
      else if |line| < 5 || [line[0]] != a || line[1..3] != ReplyCommand.Velocity.Tag() then Failure(UnexpectedReply(line))
      else
        Pow16Of8();
        match ParseHex(line[3..5])
        case None => Failure(MalformedReply(line))
        case Some(v) => Success(v)
  }

  /** For a valid address this `get_speed` decodes exactly like `_parse_velocity_reply`. */
  lemma GetSpeedAgreesWithHelpers(a: Address, bus: Responder)
    requires bus(SpeedQuery([a])).Some? && bus(SpeedQuery([a])).value != ""
    ensures GetSpeed([a], bus) == ParseVelocityReply(bus(SpeedQuery([a])).value, a)
  {
    assert UpperAscii([a]) == [a];
  }

  /** An address of any length other than one never matches a reply. */
  lemma LongAddressNeverAnswers(address: string, bus: Responder)
    requires |address| != 1
    ensures GetSpeed(address, bus).Failure?
  {
  }

  /** A velocity reply carrying `p` as two hex digits reads back as `p`. */
  lemma SpeedReadBack(a: Address, p: int, bus: Responder)
    requires 0 <= p <= 100
    requires bus(SpeedQuery([a])) == Some([a] + "GV" + ToHex(p, 2))
    ensures GetSpeed([a], bus) == Success(p)
  {
    GetSpeedAgreesWithHelpers(a, bus);
    VelocityRoundTrip(a, p);
  }

  /** The set-velocity frame, `f"{address}sv{p:02X}"`. */
  function SpeedFrame(address: string, percent: int): (f: string)
    requires 0 <= percent <= 100
    ensures |f| == |address| + 4 && f[..|address|] == address && f[|address|..|address| + 2] == "sv"
    ensures IsUpperHex(f[|address| + 2..]) && IsHexString(f[|address| + 2..]) && HexValue(f[|address| + 2..]) == percent
  {
    var f := address + HostCommand.SetVelocity.Mnemonic() + EncodeU8Percent(percent).value;
    assert f[|address| + 2..] == EncodeU8Percent(percent).value;
    f
  }

  /** The frames of the module header: 50% is sv32, 70% is sv46, 100% is sv64. */
  lemma SpeedFrameExamples()
    ensures SpeedFrame("0", 50) == "0sv32" && SpeedFrame("0", 70) == "0sv46" && SpeedFrame("0", 100) == "0sv64"
  {
    PercentExamples();
    SpeedFrameSpelled("0", 50, "32");
    SpeedFrameSpelled("0", 70, "46");
    SpeedFrameSpelled("0", 100, "64");
  }

  lemma SpeedFrameSpelled(address: string, percent: int, digits: string)
    requires 0 <= percent <= 100 && EncodeU8Percent(percent) == Success(digits)
    ensures SpeedFrame(address, percent) == address + "sv" + digits
  {
  }

  /** For a valid address this frame is the one the other two copies write. */
  lemma SpeedFrameMatchesWire(a: Address, p: int)
    requires 0 <= p <= 100
    ensures SpeedFrame([a], p) == SetVelocityFrame(a, p).value
  {
  }

  /**
   * The acknowledgement check of `set_speed`: a non-empty reply addressed to
   * the device, tagged GS, whose status code is 0.
   */
  function Acknowledge(address: string, reply: Option<string>): (r: Result<(), Error>)
    ensures reply.None? || reply == Some("") ==> r == Failure(NoReply)
    ensures r.Success? <==>
      && reply.Some? && |reply.value| >= 5 && AddressedTo(reply.value, address)
      && reply.value[1..3] == "GS" && ParseHex(reply.value[3..5]) == Some(0)
    ensures r.Failure? && r.error.NonZeroStatus? ==> r.error.code != 0 && r.error.code < 256
    ensures r.Failure? && r.error.NonZeroStatus? ==>
      && reply.Some? && |reply.value| >= 5 && IsHexString(reply.value[3..5])
      && r.error == NonZeroStatus(HexValue(reply.value[3..5]), reply.value)
    ensures reply.Some? && reply.value != "" ==>
      if !(|reply.value| >= 5 && AddressedTo(reply.value, address) && reply.value[1..3] == "GS") then
        r == Failure(UnexpectedReply(reply.value))
      else match ParseHex(reply.value[3..5])
        case None => r == Failure(MalformedReply(reply.value))
        case Some(code) => code != 0 ==> r == Failure(NonZeroStatus(code, reply.value))
  {
    match reply
    case None => Failure(NoReply)
    case Some(line) =>
      if line == "" then Failure(NoReply)
      else if |line| < 5 || [line[0]] != address || line[1..3] != ReplyCommand.Status.Tag() then Failure(UnexpectedReply(line))
      else
        Pow16Of8();
        match ParseHex(line[3..5])
        case None => Failure(MalformedReply(line))
        case Some(code) => if code != 0 then Failure(NonZeroStatus(code, line)) else Success(())
  }

  /** The address `set_speed` talks to: the given one, or the single device found on the bus. */
  function Target(address: Option<string>, bus: Responder): (r: Result<string, Error>)
    ensures address.Some? ==> r == Success(address.value)
    ensures address.None? ==> (r.Success? <==> |Discovered(AllAddresses, bus)| == 1)
    ensures address.None? && r.Success? ==> r.value == [Discovered(AllAddresses, bus)[0]]
  {
    match address
    case Some(a) => Success(a)
    case None =>
      var only :- BindingPolicy(Discovered(AllAddresses, bus));
      Success([only])
  }

  /** The address step of `set_speed`: the given address, or a scan of the whole bus. */
  method ResolveTarget(address: Option<string>, bus: Responder) returns (r: Result<string, Error>, sent: seq<string>)
    ensures r == Target(address, bus)
    ensures sent == if address.None? then [ParserReset] + ProbeFrames(AllAddresses) else []
  {
    if address.Some? {
      return Success(address.value), [];
    }
    var found;
    found, sent := FindAddresses(AllAddresses, bus);
    if |found| == 0 {
      return Failure(NoDevice), sent;
    }
    if |found| > 1 {
      return Failure(MultipleDevices(found)), sent;
    }
    r := Success([found[0]]);
  }

  /**
   * `set_speed`: a percent outside [0, 100] is refused before any I/O;
   * without an address the bus is scanned and exactly one device is used;
   * the frame is acknowledged or the call fails; with `verify` the speed is
   * read back, otherwise the percent itself is returned.
   */
  method SetSpeed(percent: int, address: Option<string>, verify: bool, bus: Responder)
    returns (r: Result<nat, Error>, sent: seq<string>)
    ensures !(0 <= percent <= 100) ==> r == Failure(InvalidPercent(percent)) && sent == []
    ensures 0 <= percent <= 100 && Target(address, bus).Failure? ==>
      r == Failure(Target(address, bus).error) && sent == [ParserReset] + ProbeFrames(AllAddresses)
    ensures 0 <= percent <= 100 && Target(address, bus).Success? ==>
      var a := UpperAscii(Target(address, bus).value);
      var frame := SpeedFrame(a, percent);
      var scan := if address.None? then [ParserReset] + ProbeFrames(AllAddresses) else [];
      && (Acknowledge(a, bus(frame)).Failure? ==>
            r == Failure(Acknowledge(a, bus(frame)).error) && sent == scan + [ParserReset, frame])
      && (Acknowledge(a, bus(frame)).Success? ==>
            && r == (if verify then GetSpeed(a, bus) else Success(percent))
            && sent == scan + [ParserReset, frame] + (if verify then [ParserReset, SpeedQuery(a)] else []))
  {
    sent := [];
    if !(0 <= percent <= 100) {
      return Failure(InvalidPercent(percent)), sent;
    }
    var target;
    target, sent := ResolveTarget(address, bus);
    if target.Failure? {
      return Failure(target.error), sent;
    }
    var a := UpperAscii(target.value);
    var frame := SpeedFrame(a, percent);
    sent := sent + [ParserReset, frame];
    var ack := Acknowledge(a, bus(frame));
    if ack.Failure? {
      return Failure(ack.error), sent;
    }
    if verify {
      UpperAsciiIdempotent(a);
      sent := sent + [ParserReset, SpeedQuery(a)];
      r := GetSpeed(a, bus);
    } else {
      r := Success(percent);
    }
  }

  /** Upper-casing twice is upper-casing once: `get_speed` re-upper-cases the address `set_speed` passes it. */
  lemma {:induction false} UpperAsciiIdempotent(s: string)
    ensures UpperAscii(UpperAscii(s)) == UpperAscii(s)
  {
    var u := UpperAscii(s);
    assert forall i :: 0 <= i < |u| ==> ToUpper(u[i]) == u[i];
  }

  /** Setting a speed the device acknowledges and then reports back returns that speed. */
  lemma SetSpeedReadsBack(a: Address, p: int, bus: Responder)
    requires 0 <= p <= 100
    requires bus(SpeedFrame([a], p)) == Some([a] + "GS00")
    requires bus(SpeedQuery([a])) == Some([a] + "GV" + ToHex(p, 2))
    ensures Acknowledge([a], bus(SpeedFrame([a], p))) == Success(())
    ensures GetSpeed([a], bus) == Success(p)
  {
    var line := [a] + "GS00";
    assert line[1..3] == "GS" && line[3..5] == "00";
    assert ParseHex("00") == Some(0);
    SpeedReadBack(a, p, bus);
  }
}
