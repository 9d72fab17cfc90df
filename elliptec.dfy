/**
 * The device session of elliptec/elliptec.py: one-shot queries, set_speed,
 * stop, discovery and binding, and the motion wait that reads asynchronous
 * lines and polls the status when none arrives.
 */
module Elliptec {
  import opened Results
  import opened Enums
  import opened Exceptions
  import opened Hex
  import opened Helpers
  import opened Wire
  import opened Discovery
  import opened Motion

  /** This copy decodes an undefined status code with `BUSY if code == 9 else COMMAND_ERROR`. */
  const StatusFallback: Fallback := BusyIfNineFallback

  /** `get_status`: the status carried by the reply to the status query. */
  function GetStatus(address: Address, reply: Option<string>): (r: Result<StatusCode, Error>)
    ensures reply.None? ==> r == Failure(NoReply)
    ensures r.Success? <==> reply.Some? && OwnStatusLine(reply.value, address) && IsHexString(reply.value[3..5])
    ensures r.Success? ==> r.value != Unknown && (r.value == Ok <==> HexValue(reply.value[3..5]) == 0)
    ensures r.Success? ==> (r.value == Busy <==> HexValue(reply.value[3..5]) == 9)
    ensures r.Failure? ==> !r.error.DeviceStatus?
    ensures reply.Some? ==> r == ParseStatusReply(reply.value, address, StatusFallback)
  {
    match reply
    case None => Failure(NoReply)
    case Some(line) =>
      var r := ParseStatusReply(line, address, StatusFallback);
      if r.Success? then
        CodesDistinct(r.value, Ok);
        CodesDistinct(r.value, Busy);
        r
      else r
  }

  /** `get_speed`: the velocity percent of the reply, read but not range checked. */
  function GetSpeed(address: Address, reply: Option<string>): (r: Result<nat, Error>)
    ensures reply.None? ==> r == Failure(NoReply)
    ensures r.Success? <==>
      && reply.Some? && |reply.value| >= 5 && reply.value[0] == address
      && reply.value[1..3] == "GV" && IsHexString(reply.value[3..5])
    ensures r.Success? ==> r.value < 256
    ensures reply.Some? ==> r == ParseVelocityReply(reply.value, address)
  {
    match reply
    case None => Failure(NoReply)
    case Some(line) => ParseVelocityReply(line, address)
  }

  /** `get_position_counts`: the signed 32-bit position of the reply. */
  function GetPositionCounts(address: Address, reply: Option<string>): (r: Result<int, Error>)
    ensures reply.None? ==> r == Failure(NoReply)
    ensures r.Success? <==>
      && reply.Some? && |reply.value| >= 11 && reply.value[0] == address
      && reply.value[1..3] == "PO" && IsHexString(reply.value[3..11])
    ensures r.Success? ==> -TwoPow31 <= r.value < TwoPow31
    ensures reply.Some? ==> r == ParsePositionReply(reply.value, address)
  {
    match reply
    case None => Failure(NoReply)
    case Some(line) => ParsePositionReply(line, address)
  }

  /**
   * `set_speed`: a percent outside [0, 100] is refused before anything is
   * written; otherwise the command succeeds exactly when the device answers
   * with status OK, either directly or, when its reply is not a status line,
   * in answer to a follow-up status query. No reply fails with NoReply, a
   * status that does not decode fails as `get_status` does, and any other
   * status fails carrying it and the reply to the set frame.
   */
  method SetSpeed(address: Address, percent: int, bus: Responder) returns (r: Result<(), Error>, sent: seq<string>)
    ensures !(0 <= percent <= 100) ==> r == Failure(InvalidPercent(percent)) && sent == []
    ensures r.Success? <==>
      && 0 <= percent <= 100
      && var reply := bus(SetVelocityFrame(address, percent).value);
      && reply.Some?
      && if Slice(reply.value, 1, 3) == "GS" then ReportsOk(address, reply)
         else ReportsOk(address, bus(StatusQuery(address)))
    ensures 0 <= percent <= 100 ==>
      var frame := SetVelocityFrame(address, percent).value;
      var reply := bus(frame);
      var gs := reply.Some? && Slice(reply.value, 1, 3) == "GS";
      && sent == [frame] + (if reply.Some? && !gs then [StatusQuery(address)] else [])
      && (reply.None? ==> r == Failure(NoReply))
      && (reply.Some? ==>
            var st := GetStatus(address, if gs then reply else bus(StatusQuery(address)));
            && (st.Failure? ==> r == Failure(st.error))
            && (st.Success? && st.value != Ok ==> r == Failure(DeviceStatus(st.value, reply))))
    ensures r.Failure? && r.error.DeviceStatus? ==> r.error.status != Ok
  {
    var frame := SetVelocityFrame(address, percent);
    if frame.Failure? {
      return Failure(frame.error), [];
    }
    sent := [frame.value];
    var reply := bus(frame.value);
    if reply.None? {
      return Failure(NoReply), sent;
    }
    var st;
    if Slice(reply.value, 1, 3) == ReplyCommand.Status.Tag() {
      st := GetStatus(address, reply);
    } else {
      sent := sent + [StatusQuery(address)];
      st := GetStatus(address, bus(StatusQuery(address)));
    }
    if st.Failure? {
      return Failure(st.error), sent;
    }
    if st.value != Ok {
      return Failure(DeviceStatus(st.value, reply)), sent;
    }
    r := Success(());
  }

  /** One observation of the motion wait: a line that was read, or a read timeout followed by a status poll. */
  datatype BaseEvent =
    | Line(text: string)
    | Silence(pollReply: Option<string>)

  /** The line an event carries: the text read, or none for a silence. */
  function LineOf(e: BaseEvent): (r: Option<string>)
    ensures r.Some? <==> e.Line?
  {
    if e.Line? then Some(e.text) else None
  }

  /**
   * One iteration of `_wait_until_done`: it stops exactly on a deciding
   * event and succeeds exactly on a completing one, a step that keeps
   * waiting remembers the line it read, and a device-status failure never
   * reports OK or BUSY.
   */
  function BaseStep(address: Address, last: Option<string>, e: BaseEvent): (r: Step)
    ensures r.Stop? <==> Decides(address, e)
    ensures r == Step.Stop(Success(())) <==> Completes(address, e)
    ensures r.Continue? ==> r.last == Latest(last, LineOf(e))
    ensures r.Stop? && r.outcome.Failure? && r.outcome.error.DeviceStatus? ==>
      r.outcome.error.status != Ok && r.outcome.error.status != Busy
    ensures e.Line? && Classify(e.text, address, StatusFallback).Failed? ==>
      r == Step.Stop(Failure(Classify(e.text, address, StatusFallback).error))
    ensures e.Silence? && GetStatus(address, e.pollReply).Failure? ==>
      r == Step.Stop(Failure(GetStatus(address, e.pollReply).error))
    ensures e.Silence? && GetStatus(address, e.pollReply).Success? && GetStatus(address, e.pollReply).value !in {Ok, Busy} ==>
      r == Step.Stop(Failure(DeviceStatus(GetStatus(address, e.pollReply).value, last)))
  {
    match e
    case Line(text) =>
      (match Classify(text, address, StatusFallback)
       case Finished => Step.Stop(Success(()))
       case Failed(err) => Step.Stop(Failure(err))
       case _ => Continue(Some(text)))
    case Silence(pollReply) =>
      match GetStatus(address, pollReply)
      case Failure(err) => Step.Stop(Failure(err))
      case Success(st) =>
        if st == Busy then Continue(last)
        else if st != Ok then Step.Stop(Failure(DeviceStatus(st, last)))
        else Step.Stop(Success(()))
  }

  function BaseStepper(address: Address): (Option<string>, BaseEvent) -> Step {
    (last, e) => BaseStep(address, last, e)
  }

  /** The status queries the wait writes: one per silence it polls on, up to the event that stops it. */
  function WaitFrames(address: Address, events: seq<BaseEvent>, last: Option<string>): (frames: seq<string>)
    ensures |frames| <= |events|
    ensures forall i :: 0 <= i < |frames| ==> frames[i] == StatusQuery(address)
    decreases |events|
  {
    if |events| == 0 then []
    else
      var poll := if events[0].Silence? then [StatusQuery(address)] else [];
      match BaseStep(address, last, events[0])
      case Continue(l) => poll + WaitFrames(address, events[1..], l)
      case Stop(_) => poll
  }

  /**
   * `_wait_until_done`: the events are everything observed before the
   * deadline, in order; `sent` is the status queries its polls wrote.
   */
  method WaitUntilDone(address: Address, events: seq<BaseEvent>) returns (r: Result<(), Error>, sent: seq<string>)
    ensures r == Run(BaseStepper(address), events, None)
    ensures sent == WaitFrames(address, events, None)
  {
    var last: Option<string> := None;
    sent := [];
    var i := 0;
    while i < |events|
      invariant 0 <= i <= |events|
      invariant Run(BaseStepper(address), events[i..], last) == Run(BaseStepper(address), events, None)
      invariant sent + WaitFrames(address, events[i..], last) == WaitFrames(address, events, None)
    {
      ghost var before := sent;
      assert events[i..][0] == events[i] && events[i..][1..] == events[i + 1..];
      match events[i] {
        case Line(text) =>
          last := Some(text);
          match Classify(text, address, StatusFallback) {
            case Finished => return Success(()), sent;
            case Failed(err) => return Failure(err), sent;
            case _ =>
          }
        case Silence(pollReply) =>
          sent := sent + [StatusQuery(address)];
          var st := GetStatus(address, pollReply);
          if st.Failure? {
            return Failure(st.error), sent;
          }
          if st.value != Busy {
            if st.value != Ok {
              return Failure(DeviceStatus(st.value, last)), sent;
            }
            return Success(()), sent;
          }
          ConcatAssoc(before, [StatusQuery(address)], WaitFrames(address, events[i + 1..], last));
      }
      i := i + 1;
    }
    return Failure(MotionTimeout(last)), sent;
  }

  /** An event that ends the wait, successfully or not. */
  predicate Decides(address: Address, e: BaseEvent) {
    match e
    case Line(text) => Classify(text, address, StatusFallback).Finished? || Classify(text, address, StatusFallback).Failed?
    case Silence(pollReply) => GetStatus(address, pollReply) != Success(Busy)
  }

  /** An event that ends the wait successfully: an own GS OK or PO line, or a poll answered OK. */
  predicate Completes(address: Address, e: BaseEvent) {
    match e
    case Line(text) => Classify(text, address, StatusFallback) == Finished
    case Silence(pollReply) => GetStatus(address, pollReply) == Success(Ok)
  }

  /** The wait succeeds exactly when a completing event comes before any other deciding event. */
  lemma WaitSucceedsIff(address: Address, events: seq<BaseEvent>, last: Option<string>)
    ensures Run(BaseStepper(address), events, last) == Success(()) <==>
      exists k :: 0 <= k < |events| && Completes(address, events[k])
        && forall j :: 0 <= j < k ==> !Decides(address, events[j])
  {
    RunSucceedsIff(BaseStepper(address), e => Decides(address, e), e => Completes(address, e), events, last);
  }

  /** BUSY never fails the wait, and neither does OK: a device-status failure reports some other code. */
  lemma WaitFailsOnlyOnFaultStatus(address: Address, events: seq<BaseEvent>, last: Option<string>)
    requires Run(BaseStepper(address), events, last).Failure?
    requires Run(BaseStepper(address), events, last).error.DeviceStatus?
    ensures Run(BaseStepper(address), events, last).error.status !in {Ok, Busy}
  {
    RunFailsOnlyOnFaultStatus(BaseStepper(address), events, last);
  }

  /** A wait that no event decides times out carrying the last line read, or `last` when no line was read. */
  lemma TimeoutCarriesLastLine(address: Address, events: seq<BaseEvent>, last: Option<string>)
    requires forall k :: 0 <= k < |events| ==> !Decides(address, events[k])
    ensures Run(BaseStepper(address), events, last) == Failure(MotionTimeout(LastSeen(LineOf, events, last)))
  {
    NoDecisionNoStop(address, events, last);
    RunWithoutStopTimesOut(BaseStepper(address), LineOf, events, last);
  }

  lemma {:induction false} NoDecisionNoStop(address: Address, events: seq<BaseEvent>, last: Option<string>)
    requires forall k :: 0 <= k < |events| ==> !Decides(address, events[k])
    ensures !Stops(BaseStepper(address), events, last)
    decreases |events|
  {
    if |events| > 0 {
      NoDecisionNoStop(address, events[1..], BaseStep(address, last, events[0]).last);
    }
  }

  /** A stream of BUSY statuses ended by a position line completes the wait. */
  lemma BusyThenPositionCompletes()
    ensures Run(BaseStepper('0'), [Line("0GS09"), Line("0GS09"), Line("0PO00000000")], None) == Success(())
  {
    var events := [Line("0GS09"), Line("0GS09"), Line("0PO00000000")];
    assert "0GS09"[1..3] == "GS" && "0GS09"[3..5] == "09";
    assert ParseHex("09") == Some(9);
    assert "0PO00000000"[1..3] == "PO";
    assert events[1..] == [Line("0GS09"), Line("0PO00000000")];
    assert events[1..][1..] == [Line("0PO00000000")];
  }

  /** A value-out-of-range status fails the wait at once with that status. */
  lemma OutOfRangeFails(more: seq<BaseEvent>)
    ensures Run(BaseStepper('0'), [Line("0GS04")] + more, None)
      == Failure(DeviceStatus(ValueOutOfRange, Some("0GS04")))
  {
    assert "0GS04"[1..3] == "GS" && "0GS04"[3..5] == "04";
    assert ParseHex("04") == Some(4);
    assert ([Line("0GS04")] + more)[0] == Line("0GS04");
  }

  /** A line for another address, or shorter than 3 characters, is skipped: the wait goes on, remembering it. */
  lemma ForeignLineSkipped(address: Address, line: string, rest: seq<BaseEvent>, last: Option<string>)
    requires |line| < 3 || line[0] != address
    ensures Run(BaseStepper(address), [Line(line)] + rest, last) == Run(BaseStepper(address), rest, Some(line))
  {
    assert ([Line(line)] + rest)[1..] == rest;
  }

  /** An own status line too short to carry a code is not skipped: it fails the wait. */
  lemma ShortStatusLineFails()
    ensures Run(BaseStepper('0'), [Line("0GS0")], None) == Failure(UnexpectedReply("0GS0"))
  {
    assert "0GS0"[1..3] == "GS";
  }

  /**
   * `stop`: no reply is an error; a non-status reply is accepted silently;
   * a status reply of OK returns, of BUSY waits for the motion to end, and of
   * anything else fails with that status.
   */
  method StopMotion(address: Address, bus: Responder, events: seq<BaseEvent>) returns (r: Result<(), Error>, sent: seq<string>)
    ensures bus(StopFrame(address)).None? ==> r == Failure(NoReply)
    ensures var reply := bus(StopFrame(address));
      var waits := && reply.Some? && Slice(reply.value, 1, 3) == "GS"
                   && ParseStatusReply(reply.value, address, StatusFallback) == Success(Busy);
      sent == [StopFrame(address)] + (if waits then WaitFrames(address, events, None) else [])
    ensures bus(StopFrame(address)).Some? ==>
      var line := bus(StopFrame(address)).value;
      && (Slice(line, 1, 3) != "GS" ==> r == Success(()))
      && (Slice(line, 1, 3) == "GS" ==>
           match ParseStatusReply(line, address, StatusFallback)
           case Failure(e) => r == Failure(e)
           case Success(st) =>
             if st == Ok then r == Success(())
             else if st == Busy then r == Run(BaseStepper(address), events, None)
             else r == Failure(DeviceStatus(st, Some(line))))
  {
    sent := [StopFrame(address)];
    var reply := bus(StopFrame(address));
    if reply.None? {
      return Failure(NoReply), sent;
    }
    var line := reply.value;
    if Slice(line, 1, 3) == ReplyCommand.Status.Tag() {
      var st := ParseStatusReply(line, address, StatusFallback);
      if st.Failure? {
        return Failure(st.error), sent;
      }
      if st.value != Ok && st.value != Busy {
        return Failure(DeviceStatus(st.value, Some(line))), sent;
      }
      if st.value == Busy {
        var polls;
        r, polls := WaitUntilDone(address, events);
        sent := sent + polls;
        return;
      }
    }
    return Success(()), sent;
  }

  /** `home`: writes the home frame, then waits for the motion to end. */
  method Home(address: Address, direction: HomeDirection, events: seq<BaseEvent>) returns (sent: seq<string>, r: Result<(), Error>)
    ensures sent == [HomeFrame(address, direction)] + WaitFrames(address, events, None) && |sent[0]| == 4
    ensures r == Run(BaseStepper(address), events, None)
  {
    var polls;
    r, polls := WaitUntilDone(address, events);
    sent := [HomeFrame(address, direction)] + polls;
  }

  /** `move_absolute` / `move_relative`: writes the move frame, then waits for the motion to end. */
  method Move(address: Address, relative: bool, counts: int, events: seq<BaseEvent>) returns (sent: seq<string>, r: Result<(), Error>)
    ensures sent == [MoveFrame(address, relative, counts)] + WaitFrames(address, events, None) && |sent[0]| == 11
    ensures r == Run(BaseStepper(address), events, None)
  {
    var polls;
    r, polls := WaitUntilDone(address, events);
    sent := [MoveFrame(address, relative, counts)] + polls;
  }

  /** The probe loop of `_find_addresses`: one status query per address, in order. */
  method Scan(addrs: seq<Address>, bus: Responder) returns (found: seq<Address>, sent: seq<string>)
    ensures found == Discovered(addrs, bus) && sent == ProbeFrames(addrs)
  {
    found, sent := [], [];
    var i := 0;
    while i < |addrs|
      invariant 0 <= i <= |addrs|
      invariant found == Discovered(addrs[..i], bus) && sent == ProbeFrames(addrs[..i])
    {
      var a := addrs[i];
      assert addrs[..i + 1][..i] == addrs[..i];
      var reply := bus(StatusQuery(a));
      sent := sent + [StatusQuery(a)];
      if reply.Some? && |reply.value| >= 5 && reply.value[0] == a && reply.value[1..3] == ReplyCommand.Status.Tag() {
        found := found + [a];
      }
      i := i + 1;
    }
    assert addrs[..i] == addrs;
  }

  /**
   * `_find_addresses`: a parser reset, then one status probe per address of
   * the range, ascending; the addresses whose probe got a well-formed status
   * reply are returned in probe order.
   */
  method FindAddresses(minAddress: string, maxAddress: string, bus: Responder)
    returns (r: Result<seq<Address>, Error>, sent: seq<string>)
    ensures IterAddresses(minAddress, maxAddress).Failure? ==>
      r == Failure(IterAddresses(minAddress, maxAddress).error) && sent == [ParserReset]
    ensures IterAddresses(minAddress, maxAddress).Success? ==>
      var addrs := IterAddresses(minAddress, maxAddress).value;
      && r.Success? && r.value == Discovered(addrs, bus)
      && sent == [ParserReset] + ProbeFrames(addrs)
  {
    sent := [ParserReset];
    var range := IterAddresses(minAddress, maxAddress);
    if range.Failure? {
      return Failure(range.error), sent;
    }
    var found, probes := Scan(range.value, bus);
    sent := sent + probes;
    r := Success(found);
  }

  /**
   * `__init__` binding: an explicit address is normalised and used without
   * any traffic; otherwise both range bounds are normalised, the range is
   * scanned and exactly one responder is bound.
   */
  method Open(address: Option<string>, minAddress: string, maxAddress: string, bus: Responder)
    returns (r: Result<Address, Error>, sent: seq<string>)
    ensures address.Some? ==> r == NormalizeAddress(address.value) && sent == []
    ensures address.None? && NormalizeAddress(minAddress).Failure? ==> r == Failure(InvalidAddress(minAddress)) && sent == []
    ensures address.None? && NormalizeAddress(minAddress).Success? && NormalizeAddress(maxAddress).Failure? ==>
      r == Failure(InvalidAddress(maxAddress)) && sent == []
    ensures address.None? && r.Success? ==>
      && IterAddresses(minAddress, maxAddress).Success?
      && Discovered(IterAddresses(minAddress, maxAddress).value, bus) == [r.value]
    ensures address.None? && IterAddresses(minAddress, maxAddress).Success? ==>
      (r.Success? <==> |Discovered(IterAddresses(minAddress, maxAddress).value, bus)| == 1)
    ensures address.None? && IterAddresses(minAddress, maxAddress).Success? ==>
      var addrs := IterAddresses(minAddress, maxAddress).value;
      && sent == [ParserReset] + ProbeFrames(addrs)
      && r == BindingPolicy(Discovered(addrs, bus))
    ensures (&& address.None? && NormalizeAddress(minAddress).Success? && NormalizeAddress(maxAddress).Success?
             && IterAddresses(minAddress, maxAddress).Failure?) ==>
      && sent == [ParserReset]
      && r == Failure(InvalidRange([NormalizeAddress(minAddress).value], [NormalizeAddress(maxAddress).value]))
  {
    if address.Some? {
      return NormalizeAddress(address.value), [];
    }
    var mn := NormalizeAddress(minAddress);
    if mn.Failure? {
      return Failure(mn.error), [];
    }
    var mx := NormalizeAddress(maxAddress);
    if mx.Failure? {
      return Failure(mx.error), [];
    }
    NormalizeIdempotent(minAddress);
    NormalizeIdempotent(maxAddress);
    assert IterAddresses([mn.value], [mx.value]).Success? <==> IterAddresses(minAddress, maxAddress).Success?;
    assert IterAddresses([mn.value], [mx.value]).Success? ==>
      IterAddresses([mn.value], [mx.value]).value == IterAddresses(minAddress, maxAddress).value;
    var found;
    found, sent := FindAddresses([mn.value], [mx.value], bus);
    if found.Failure? {
      return Failure(found.error), sent;
    }
    var bound := BindingPolicy(found.value);
    if bound.Failure? {
      return Failure(bound.error), sent;
    }
    return Success(found.value[0]), sent;
  }
}
