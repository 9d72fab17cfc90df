/**
 * The motion-completion state machine shared by elliptec/elliptec.py and
 * elliptec/elliptec_trace.py: how one inbound line bears on a wait, and the
 * fold of a per-event step over the events observed before the deadline.
 */
module Motion {
  import opened Results
  import opened Enums
  import opened Exceptions
  import opened Hex
  import opened Helpers

  /** What a wait does with one inbound line. */
  datatype LineClass =
    | OtherTraffic          // empty, shorter than 3 characters, or for another address: skipped
    | KeepWaiting           // own status line reporting BUSY
    | Ignored               // own line with a tag other than GS or PO
    | Finished              // own status line reporting OK, or own position line
    | Failed(error: Error)  // own status line that does not decode or reports any other status

  /** An own status line whose code is 0. */
  predicate ReportsOk(address: char, reply: Option<string>) {
    reply.Some? && OwnStatusLine(reply.value, address) && ParseHex(reply.value[3..5]) == Some(0)
  }

  function Classify(line: string, address: char, fallback: Fallback): (v: LineClass)
    ensures v == OtherTraffic <==> |line| < 3 || line[0] != address
    ensures v == Ignored <==> |line| >= 3 && line[0] == address && line[1..3] != "GS" && line[1..3] != "PO"
    ensures v == KeepWaiting <==> OwnStatusLine(line, address) && ParseHex(line[3..5]) == Some(9)
    ensures v == Finished <==>
      || (|line| >= 3 && line[0] == address && line[1..3] == "PO")
      || (OwnStatusLine(line, address) && ParseHex(line[3..5]) == Some(0))
    ensures v.Failed? ==>
      || (v.error == UnexpectedReply(line) && |line| < 5)
      || (v.error == MalformedReply(line) && |line| >= 5 && !IsHexString(line[3..5]))
      || (v.error.DeviceStatus? && v.error.status != Ok && v.error.status != Busy && v.error.line == Some(line))
    ensures v.Failed? && v.error.DeviceStatus? ==>
      && OwnStatusLine(line, address) && IsHexString(line[3..5])
      && v.error.status == StatusFromCode(HexValue(line[3..5]), fallback)
  {
    if |line| < 3 || line[0] != address then OtherTraffic
    else if line[1..3] == ReplyCommand.Status.Tag() then
      match ParseStatusReply(line, address, fallback)
      case Failure(e) => Failed(e)
      case Success(st) =>
        CodesDistinct(st, Busy);
        CodesDistinct(st, Ok);
        if st == Busy then KeepWaiting
        else if st != Ok then Failed(DeviceStatus(st, Some(line)))
        else Finished
    else if line[1..3] == ReplyCommand.Position.Tag() then Finished
    else Ignored
  }

  /** Mechanical timeout fails the wait. */
  lemma MechanicalTimeoutFails(a: Address, fallback: Fallback)
    ensures Classify([a] + "GS02", a, fallback) == Failed(DeviceStatus(MechanicalTimeout, Some([a] + "GS02")))
  {
    var line := [a] + "GS02";
    assert line[1..3] == "GS" && line[3..5] == "02";
    assert ParseHex("02") == Some(2);
    CodesDistinct(ParseStatusReply(line, a, fallback).value, MechanicalTimeout);
  }

  /** The outcome of one step of a wait: keep going (remembering the last reply seen) or stop. */
  datatype Step = Continue(last: Option<string>) | Stop(outcome: Result<(), Error>)

  /**
   * The wait over the events observed before the deadline: the first step
   * that stops decides; running out of events is the timeout, carrying the
   * last reply seen.
   */
  function Run<E>(step: (Option<string>, E) -> Step, events: seq<E>, last: Option<string>): (r: Result<(), Error>)
    ensures Stops(step, events, last) || (r.Failure? && r.error.MotionTimeout?)
    decreases |events|
  {
    if |events| == 0 then Failure(MotionTimeout(last))
    else
      match step(last, events[0])
      case Continue(l) => Run(step, events[1..], l)
      case Stop(outcome) => outcome
  }

  /** Some event among `events` stops the wait. */
  predicate Stops<E>(step: (Option<string>, E) -> Step, events: seq<E>, last: Option<string>)
    decreases |events|
  {
    |events| > 0 &&
    match step(last, events[0])
    case Continue(l) => Stops(step, events[1..], l)
    case Stop(_) => true
  }

  /** Once a wait has stopped, later events do not change its outcome. */
  lemma {:induction false} RunIgnoresLaterEvents<E>(step: (Option<string>, E) -> Step, events: seq<E>, more: seq<E>, last: Option<string>)
    requires Stops(step, events, last)
    ensures Run(step, events + more, last) == Run(step, events, last)
  {
    assert (events + more)[0] == events[0];
    match step(last, events[0])
    case Continue(l) =>
      assert (events + more)[1..] == events[1..] + more;
      RunIgnoresLaterEvents(step, events[1..], more, l);
    case Stop(_) =>
  }

  /** The reply remembered after an event that carried `seen`, when `last` was remembered before. */
  function Latest(last: Option<string>, seen: Option<string>): (r: Option<string>)
    ensures r == last || r == seen
    ensures seen.Some? ==> r == seen
  {
    if seen.Some? then seen else last
  }

  /** Every step that keeps waiting remembers the line its event carried, or keeps the one before. */
  ghost predicate Remembers<E(!new)>(step: (Option<string>, E) -> Step, seen: E -> Option<string>) {
    forall l, e :: step(l, e).Continue? ==> step(l, e).last == Latest(l, seen(e))
  }

  /** The line carried by the latest event that carried one, or `last` when none did. */
  function LastSeen<E>(seen: E -> Option<string>, events: seq<E>, last: Option<string>): (r: Option<string>)
    ensures r == last || exists k :: 0 <= k < |events| && r == seen(events[k])
    decreases |events|
  {
    if |events| == 0 then last
    else if seen(events[|events| - 1]).Some? then seen(events[|events| - 1])
    else LastSeen(seen, events[..|events| - 1], last)
  }

  /** Looking at the first event, then the rest, finds the same latest line as looking from the end. */
  lemma {:induction false} LastSeenFromFront<E>(seen: E -> Option<string>, events: seq<E>, last: Option<string>)
    requires |events| > 0
    ensures LastSeen(seen, events, last) == LastSeen(seen, events[1..], Latest(last, seen(events[0])))
    decreases |events|
  {
    if |events| > 1 && seen(events[|events| - 1]).None? {
      var init := events[..|events| - 1];
      LastSeenFromFront(seen, init, last);
      assert init[1..] == events[1..][..|events[1..]| - 1];
    }
  }

  /** A wait in which no event stops ends in the timeout error, carrying the latest line read. */
  lemma {:induction false} RunWithoutStopTimesOut<E(!new)>(step: (Option<string>, E) -> Step, seen: E -> Option<string>,
                                                    events: seq<E>, last: Option<string>)
    requires Remembers(step, seen)
    requires !Stops(step, events, last)
    ensures Run(step, events, last) == Failure(MotionTimeout(LastSeen(seen, events, last)))
    decreases |events|
  {
    if |events| > 0 {
      var l := step(last, events[0]).last;
      RunWithoutStopTimesOut(step, seen, events[1..], l);
      LastSeenFromFront(seen, events, last);
    }
  }

  /** Concatenation regroups freely; a wait's written frames are accumulated with it. */
  lemma ConcatAssoc<T>(a: seq<T>, b: seq<T>, c: seq<T>)
    ensures (a + b) + c == a + (b + c)
  {
  }

  /** Whether a step stops, and whether it stops successfully, depend on the event only. */
  ghost predicate Decided<E(!new)>(step: (Option<string>, E) -> Step, decides: E -> bool, completes: E -> bool) {
    forall l, e :: && (step(l, e).Stop? <==> decides(e))
                   && (step(l, e) == Step.Stop(Success(())) <==> completes(e))
  }

  /** The wait succeeds exactly when a completing event comes before any other deciding event. */
  lemma {:induction false} RunSucceedsIff<E(!new)>(step: (Option<string>, E) -> Step, decides: E -> bool, completes: E -> bool,
                                            events: seq<E>, last: Option<string>)
    requires Decided(step, decides, completes)
    ensures Run(step, events, last) == Success(()) <==>
      exists k :: 0 <= k < |events| && completes(events[k]) && forall j :: 0 <= j < k ==> !decides(events[j])
    decreases |events|
  {
    if |events| > 0 {
      var e := events[0];
      if decides(e) {
        if !completes(e) {
          forall k | 0 <= k < |events| && completes(events[k])
            ensures exists j :: 0 <= j < k && decides(events[j])
          {
            assert step(last, events[k]).Stop?;
            assert k != 0;
          }
        }
      } else {
        var rest := events[1..];
        RunSucceedsIff(step, decides, completes, rest, step(last, e).last);
        if Run(step, events, last) == Success(()) {
          var k :| 0 <= k < |rest| && completes(rest[k]) && forall j :: 0 <= j < k ==> !decides(rest[j]);
          assert completes(events[k + 1]);
          forall j | 0 <= j < k + 1 ensures !decides(events[j]) {
            if j > 0 { assert events[j] == rest[j - 1]; }
          }
        }
        if exists k :: 0 <= k < |events| && completes(events[k]) && forall j :: 0 <= j < k ==> !decides(events[j]) {
          var k :| 0 <= k < |events| && completes(events[k]) && forall j :: 0 <= j < k ==> !decides(events[j]);
          assert step(last, events[k]).Stop?;
          assert k != 0;
          assert completes(rest[k - 1]);
          forall j | 0 <= j < k - 1 ensures !decides(rest[j]) {
            assert rest[j] == events[j + 1];
          }
        }
      }
    }
  }

  /** No step fails with a device status of OK or BUSY. */
  ghost predicate FaultsOnly<E(!new)>(step: (Option<string>, E) -> Step) {
    forall l, e :: step(l, e).Stop? && step(l, e).outcome.Failure? && step(l, e).outcome.error.DeviceStatus?
      ==> step(l, e).outcome.error.status != Ok && step(l, e).outcome.error.status != Busy
  }

  /** BUSY never fails the wait, and neither does OK: a device-status failure reports some other code. */
  lemma {:induction false} RunFailsOnlyOnFaultStatus<E(!new)>(step: (Option<string>, E) -> Step, events: seq<E>, last: Option<string>)
    requires FaultsOnly(step)
    requires Run(step, events, last).Failure? && Run(step, events, last).error.DeviceStatus?
    ensures Run(step, events, last).error.status != Ok && Run(step, events, last).error.status != Busy
    decreases |events|
  {
    if step(last, events[0]).Continue? {
      RunFailsOnlyOnFaultStatus(step, events[1..], step(last, events[0]).last);
    }
  }
}
