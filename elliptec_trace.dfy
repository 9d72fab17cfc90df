/**
 * The tracing device of elliptec/elliptec_trace.py: a bounded queue of
 * timestamped received lines filled by a reader, a correlator that matches
 * the reply to a command against that queue, discovery and binding through
 * the correlator, and the motion wait that prefers asynchronous lines and
 * polls the status now and then.
 *
 * Time is counted in integer ticks of one millisecond.
 */
module ElliptecTrace {
  import opened Results
  import opened Enums
  import opened Exceptions
  import opened Hex
  import opened Helpers
  import opened Wire
  import opened Discovery
  import opened Motion

  /** `deque(maxlen=50_000)` */
  const RxCapacity: nat := 50000
  /** The 1e-3 s slack by which a line may predate the send and still count. */
  const Tolerance: int := 1
  /** The default reply timeout of a query, 1.0 s. */
  const QueryTimeout: int := 1000
  /** The per-address probe timeout of a scan, 0.6 s. */
  const ProbeTimeout: int := 600
  /** The reply timeout of a status poll inside the motion wait, 0.6 s. */
  const PollTimeout: int := 600

  /** One received line with the tick at which the reader queued it. */
  datatype RxLine = RxLine(ts: int, text: string)

  /** `deque.append` on a full deque drops the oldest entry. */
  function Append(q: seq<RxLine>, l: RxLine): (r: seq<RxLine>)
    requires |q| <= RxCapacity
    ensures 0 < |r| <= RxCapacity && r[|r| - 1] == l
    ensures |q| < RxCapacity ==> r == q + [l]
    ensures |q| == RxCapacity ==> r == q[1..] + [l]
  {
    if |q| < RxCapacity then q + [l] else q[1..] + [l]
  }

  function AppendAll(q: seq<RxLine>, ls: seq<RxLine>): (r: seq<RxLine>)
    requires |q| <= RxCapacity
    ensures |r| <= RxCapacity
  {
    if |ls| == 0 then q else Append(AppendAll(q, ls[..|ls| - 1]), ls[|ls| - 1])
  }

  /** The queue always holds the newest lines, in arrival order: eviction only ever drops the oldest. */
  lemma {:induction false} AppendAllKeepsNewest(q: seq<RxLine>, ls: seq<RxLine>)
    requires |q| <= RxCapacity
    ensures |AppendAll(q, ls)| == if |q| + |ls| < RxCapacity then |q| + |ls| else RxCapacity
    ensures var r := AppendAll(q, ls); var drop := |q| + |ls| - |r|;
      forall i :: 0 <= i < |r| ==> r[i] == (q + ls)[drop + i]
  {
    if |ls| > 0 {
      var init := ls[..|ls| - 1];
      var l := ls[|ls| - 1];
      AppendAllKeepsNewest(q, init);
      var prev := AppendAll(q, init);
      var r := AppendAll(q, ls);
      assert r == Append(prev, l);
      var dropPrev := |q| + |init| - |prev|;
      var drop := |q| + |ls| - |r|;
      forall i | 0 <= i < |r| ensures r[i] == (q + ls)[drop + i] {
        if i == |r| - 1 {
          assert (q + ls)[drop + i] == l;
        } else {
          var pi := if |prev| < RxCapacity then i else i + 1;
          assert r[i] == prev[pi];
          assert prev[pi] == (q + init)[dropPrev + pi];
          assert drop + i == dropPrev + pi;
          assert (q + init)[dropPrev + pi] == (q + ls)[dropPrev + pi];
        }
      }
    }
  }

  /** A line queued no earlier than the send, up to the tolerance. */
  predicate Fresh(l: RxLine, txTs: int) {
    l.ts + Tolerance >= txTs
  }

  /** No predicate accepts every line. */
  predicate Accepts(pred: Option<string -> bool>, text: string) {
    pred.None? || pred.value(text)
  }

  /**
   * `_send_and_wait_one` after the send, as a function of the queue: the
   * reply and the queue left behind. Lines queued at or after the deadline
   * have not arrived in time. Every examined line is consumed.
   */
  function Correlate(q: seq<RxLine>, txTs: int, deadline: int, pred: Option<string -> bool>)
    : (r: (Option<string>, seq<RxLine>))
    ensures |r.1| <= |q|
    ensures r.0.Some? ==> |r.1| < |q| && Accepts(pred, r.0.value)
    decreases |q|
  {
    if |q| == 0 || q[0].ts >= deadline then (None, q)
    else if !Fresh(q[0], txTs) then Correlate(q[1..], txTs, deadline, pred)
    else if Accepts(pred, q[0].text) then (Some(q[0].text), q[1..])
    else Correlate(q[1..], txTs, deadline, pred)
  }

  /** Lines are consumed from the front and never re-queued: what is left is a suffix of the queue. */
  lemma {:induction false} CorrelateLeavesSuffix(q: seq<RxLine>, txTs: int, deadline: int, pred: Option<string -> bool>)
    ensures var rest := Correlate(q, txTs, deadline, pred).1;
      rest == q[|q| - |rest|..]
    decreases |q|
  {
    if |q| > 0 && q[0].ts < deadline && !Answers(q[0], txTs, deadline, pred) {
      CorrelateLeavesSuffix(q[1..], txTs, deadline, pred);
      var rest := Correlate(q, txTs, deadline, pred).1;
      assert rest == Correlate(q[1..], txTs, deadline, pred).1;
      assert q[1..][|q| - 1 - |rest|..] == q[|q| - |rest|..];
    }
  }

  /** A line the correlator may return: in time, fresh and accepted. */
  predicate Answers(l: RxLine, txTs: int, deadline: int, pred: Option<string -> bool>) {
    l.ts < deadline && Fresh(l, txTs) && Accepts(pred, l.text)
  }

  /**
   * A reply is the first line that answers; every line consumed before it
   * arrived in time but was stale or rejected.
   */
  lemma {:induction false} CorrelateReplyIsFirstAnswer(q: seq<RxLine>, txTs: int, deadline: int, pred: Option<string -> bool>)
    requires Correlate(q, txTs, deadline, pred).0.Some?
    ensures var r := Correlate(q, txTs, deadline, pred);
      var k := |q| - |r.1| - 1;
      && 0 <= k && q[k].text == r.0.value && Answers(q[k], txTs, deadline, pred)
      && forall j :: 0 <= j < k ==> q[j].ts < deadline && !Answers(q[j], txTs, deadline, pred)
    decreases |q|
  {
    if !Answers(q[0], txTs, deadline, pred) {
      CorrelateReplyIsFirstAnswer(q[1..], txTs, deadline, pred);
      var k := |q| - |Correlate(q, txTs, deadline, pred).1| - 1;
      assert q[k] == q[1..][k - 1];
      forall j | 1 <= j < k ensures q[j].ts < deadline && !Answers(q[j], txTs, deadline, pred) {
        assert q[j] == q[1..][j - 1];
      }
    }
  }

  /**
   * Without a reply, every consumed line arrived in time but was stale or
   * rejected, and the queue left is empty or its front arrived too late.
   */
  lemma {:induction false} CorrelateNoReplyMeansDeadline(q: seq<RxLine>, txTs: int, deadline: int, pred: Option<string -> bool>)
    requires Correlate(q, txTs, deadline, pred).0.None?
    ensures var r := Correlate(q, txTs, deadline, pred);
      && (|r.1| == 0 || r.1[0].ts >= deadline)
      && forall j :: 0 <= j < |q| - |r.1| ==> q[j].ts < deadline && !Answers(q[j], txTs, deadline, pred)
    decreases |q|
  {
    if |q| > 0 && q[0].ts < deadline {
      var r := Correlate(q, txTs, deadline, pred);
      assert !Answers(q[0], txTs, deadline, pred);
      assert r == Correlate(q[1..], txTs, deadline, pred);
      CorrelateNoReplyMeansDeadline(q[1..], txTs, deadline, pred);
      forall j | 0 <= j < |q| - |r.1| ensures q[j].ts < deadline && !Answers(q[j], txTs, deadline, pred) {
        if j > 0 {
          assert q[j] == q[1..][j - 1];
        }
      }
    }
  }

  /** A reply stamped before the send, beyond the tolerance, is never taken for the answer. */
  lemma StaleLineIgnored(l: RxLine, rest: seq<RxLine>, txTs: int, deadline: int, pred: Option<string -> bool>)
    requires l.ts + Tolerance < txTs
    ensures Correlate([l] + rest, txTs, deadline, pred)
      == (if l.ts >= deadline then (None, [l] + rest) else Correlate(rest, txTs, deadline, pred))
  {
    assert ([l] + rest)[1..] == rest;
  }

  /** The acceptance test of the query whose reply carries `tag`. */
  function ReplyTo(a: char, tag: ReplyCommand): string -> bool {
    s => HasHeader(s, a, tag, 5)
  }

  /** `get_status` after correlation: no reply, or the decoded reply. */
  function StatusOf(address: Address, reply: Option<string>): (r: Result<StatusCode, Error>)
    ensures reply.None? ==> r == Failure(NoReply)
    ensures r.Success? <==> reply.Some? && OwnStatusLine(reply.value, address) && IsHexString(reply.value[3..5])
    ensures r.Success? ==> (r.value == Unknown <==> HexValue(reply.value[3..5]) > 13)
    ensures r.Failure? ==> !r.error.DeviceStatus?
    ensures reply.Some? ==> r == ParseStatusReply(reply.value, address, UnknownFallback)
  {
    match reply
    case None => Failure(NoReply)
    case Some(line) => ParseStatusReply(line, address, UnknownFallback)
  }

  /** The reply to one scan probe of `a`, sent at `t` into a freshly cleared queue: an own status line, if any. */
  function ProbeReply(a: Address, t: int, arrivals: seq<RxLine>): (r: Option<string>)
    ensures r.Some? ==> OwnStatusLine(r.value, a)
  {
    Correlate(AppendAll([], arrivals), t, t + ProbeTimeout, Some(ReplyTo(a, ReplyCommand.Status))).0
  }

  /**
   * The queue one scan probe of `a` leaves behind: the lines its correlation
   * did not consume. Since the probe clears the queue first, they are the
   * newest of its own arrivals and nothing queued before it.
   */
  function ProbeLeftover(a: Address, t: int, arrivals: seq<RxLine>): (r: seq<RxLine>)
    ensures |r| <= RxCapacity
    ensures |r| <= |arrivals| && r == arrivals[|arrivals| - |r|..]
  {
    ClearedQueueLeavesArrivals(arrivals, t, t + ProbeTimeout, Some(ReplyTo(a, ReplyCommand.Status)));
    Correlate(AppendAll([], arrivals), t, t + ProbeTimeout, Some(ReplyTo(a, ReplyCommand.Status))).1
  }

  /** Correlating against a cleared queue leaves a suffix of the lines that arrived since. */
  lemma ClearedQueueLeavesArrivals(arrivals: seq<RxLine>, txTs: int, deadline: int, pred: Option<string -> bool>)
    ensures var rest := Correlate(AppendAll([], arrivals), txTs, deadline, pred).1;
      |rest| <= |arrivals| && rest == arrivals[|arrivals| - |rest|..]
  {
    var q := AppendAll([], arrivals);
    AppendAllKeepsNewest([], arrivals);
    assert |q| <= |arrivals|;
    assert [] + arrivals == arrivals;
    assert q == arrivals[|arrivals| - |q|..];
    CorrelateLeavesSuffix(q, txTs, deadline, pred);
    var rest := Correlate(q, txTs, deadline, pred).1;
    assert rest == q[|q| - |rest|..];
    assert q[|q| - |rest|..] == arrivals[|arrivals| - |rest|..];
  }

  /**
   * The queue a probe loop over `addrs` leaves: `q` when nothing was probed,
   * otherwise what the last probe left, since every probe clears the queue.
   */
  function ScanLeftover(q: seq<RxLine>, addrs: seq<Address>, sendTick: char -> int, replies: char -> seq<RxLine>)
    : seq<RxLine>
  {
    if |addrs| == 0 then q
    else
      var a := addrs[|addrs| - 1];
      ProbeLeftover(a, sendTick(a), replies(a))
  }

  /**
   * A probe keeps its address when a reply was matched and decodes as a
   * status; since the matcher already checked the header, only a payload
   * that is not two hex digits rejects a matched reply.
   */
  predicate ProbeAccepted(a: Address, t: int, arrivals: seq<RxLine>)
    ensures ProbeAccepted(a, t, arrivals) <==>
      ProbeReply(a, t, arrivals).Some? && IsHexString(ProbeReply(a, t, arrivals).value[3..5])
  {
    var reply := ProbeReply(a, t, arrivals);
    reply.Some? && ParseStatusReply(reply.value, a, UnknownFallback).Success?
  }

  /** The addresses, in probe order, whose probe was accepted. */
  function TraceDiscovered(addrs: seq<Address>, sendTick: char -> int, replies: char -> seq<RxLine>)
    : (found: seq<Address>)
    ensures |found| <= |addrs|
    ensures forall a :: a in found ==> a in addrs && ProbeAccepted(a, sendTick(a), replies(a))
  {
    if |addrs| == 0 then []
    else
      var a := addrs[|addrs| - 1];
      TraceDiscovered(addrs[..|addrs| - 1], sendTick, replies)
        + (if ProbeAccepted(a, sendTick(a), replies(a)) then [a] else [])
  }

  /** Every address whose matched probe reply decodes is found. */
  lemma {:induction false} TraceDiscoveredComplete(addrs: seq<Address>, sendTick: char -> int, replies: char -> seq<RxLine>, a: Address)
    requires a in addrs && ProbeAccepted(a, sendTick(a), replies(a))
    ensures a in TraceDiscovered(addrs, sendTick, replies)
  {
    if a != addrs[|addrs| - 1] {
      assert a in addrs[..|addrs| - 1];
      TraceDiscoveredComplete(addrs[..|addrs| - 1], sendTick, replies, a);
    }
  }

  /** Probing an ascending range finds the addresses in ascending order. */
  lemma {:induction false} TraceDiscoveredAscending(addrs: seq<Address>, sendTick: char -> int, replies: char -> seq<RxLine>)
    requires StrictlyAscending(addrs)
    ensures StrictlyAscending(TraceDiscovered(addrs, sendTick, replies))
  {
    if |addrs| > 0 {
      var init := addrs[..|addrs| - 1];
      var last := addrs[|addrs| - 1];
      TraceDiscoveredAscending(init, sendTick, replies);
      var prev := TraceDiscovered(init, sendTick, replies);
      forall x | x in prev ensures x < last {
        var k :| 0 <= k < |init| && init[k] == x;
      }
      var found := TraceDiscovered(addrs, sendTick, replies);
      forall i, j | 0 <= i < j < |found| ensures found[i] < found[j] {
        if j >= |prev| {
          assert found[i] == prev[i] && prev[i] in prev;
        }
      }
    }
  }

  /** A status poll inside the motion wait: not due yet, or the reply its correlation returned. */
  datatype Poll = NotDue | Polled(reply: Option<string>)

  /** One pass of the wait loop: the line popped within the short pop timeout, if any, and the poll that follows. */
  datatype TraceEvent = Tick(item: Option<string>, poll: Poll)

  /**
   * The poll half of a pass: a failed `get_status` is swallowed, BUSY keeps
   * waiting, OK completes, and any other status fails carrying the last line
   * read rather than the poll's reply.
   */
  function PollStep(address: Address, last: Option<string>, poll: Poll): (r: Step)
    ensures r.Stop? <==> PollDecides(address, poll)
    ensures r == Step.Stop(Success(())) <==> poll.Polled? && StatusOf(address, poll.reply) == Success(Ok)
    ensures r.Continue? ==> r.last == last
    ensures r.Stop? && r.outcome.Failure? ==>
      && r.outcome.error == DeviceStatus(StatusOf(address, poll.reply).value, last)
      && r.outcome.error.status != Ok && r.outcome.error.status != Busy
  {
    match poll
    case NotDue => Continue(last)
    case Polled(reply) =>
      match StatusOf(address, reply)
      case Failure(_) => Continue(last)
      case Success(st) =>
        if st == Busy then Continue(last)
        else if st != Ok then Step.Stop(Failure(DeviceStatus(st, last)))
        else Step.Stop(Success(()))
  }

  /**
   * One pass of `_wait_until_done`: a skipped or BUSY line ends the pass
   * before the poll. A pass that keeps waiting remembers the line it
   * popped, and a device-status failure never reports OK or BUSY.
   */
  function TraceStep(address: Address, last: Option<string>, e: TraceEvent): (r: Step)
    ensures r.Continue? ==> r.last == Latest(last, e.item)
    ensures r.Stop? && r.outcome.Failure? && r.outcome.error.DeviceStatus? ==>
      r.outcome.error.status != Ok && r.outcome.error.status != Busy
    ensures e.item.Some? && Classify(e.item.value, address, UnknownFallback).Failed? ==>
      r == Step.Stop(Failure(Classify(e.item.value, address, UnknownFallback).error))
    ensures e.item.None? ==> r == PollStep(address, last, e.poll)
    ensures e.item.Some? && Classify(e.item.value, address, UnknownFallback).Ignored? ==>
      r == PollStep(address, e.item, e.poll)
  {
    match e.item
    case None => PollStep(address, last, e.poll)
    case Some(line) =>
      match Classify(line, address, UnknownFallback)
      case OtherTraffic => Continue(Some(line))
      case KeepWaiting => Continue(Some(line))
      case Finished => Step.Stop(Success(()))
      case Failed(err) => Step.Stop(Failure(err))
      case Ignored => PollStep(address, Some(line), e.poll)
  }

  function TraceStepper(address: Address): (Option<string>, TraceEvent) -> Step {
    (last, e) => TraceStep(address, last, e)
  }

  /** A poll that ends the wait, successfully or not. */
  predicate PollDecides(address: Address, poll: Poll) {
    poll.Polled? && StatusOf(address, poll.reply).Success? && StatusOf(address, poll.reply).value != Busy
  }

  /** An event that ends the wait, successfully or not. */
  predicate Decides(address: Address, e: TraceEvent) {
    match e.item
    case None => PollDecides(address, e.poll)
    case Some(line) =>
      var c := Classify(line, address, UnknownFallback);
      c.Finished? || c.Failed? || (c.Ignored? && PollDecides(address, e.poll))
  }

  /** An event that ends the wait successfully. */
  predicate Completes(address: Address, e: TraceEvent) {
    var pollOk := e.poll.Polled? && StatusOf(address, e.poll.reply) == Success(Ok);
    match e.item
    case None => pollOk
    case Some(line) =>
      var c := Classify(line, address, UnknownFallback);
      c.Finished? || (c.Ignored? && pollOk)
  }

  /** A pass stops the wait exactly on a deciding event, and succeeds exactly on a completing one. */
  lemma TraceStepDecides(address: Address, last: Option<string>, e: TraceEvent)
    ensures TraceStep(address, last, e).Stop? <==> Decides(address, e)
    ensures TraceStep(address, last, e) == Step.Stop(Success(())) <==> Completes(address, e)
  {
  }

  /** The wait succeeds exactly when a completing event comes before any other deciding event. */
  lemma TraceWaitSucceedsIff(address: Address, events: seq<TraceEvent>, last: Option<string>)
    ensures Run(TraceStepper(address), events, last) == Success(()) <==>
      exists k :: 0 <= k < |events| && Completes(address, events[k])
        && forall j :: 0 <= j < k ==> !Decides(address, events[j])
  {
    forall l, e ensures TraceStepper(address)(l, e).Stop? <==> Decides(address, e)
      ensures TraceStepper(address)(l, e) == Step.Stop(Success(())) <==> Completes(address, e)
    {
      TraceStepDecides(address, l, e);
    }
    RunSucceedsIff(TraceStepper(address), e => Decides(address, e), e => Completes(address, e), events, last);
  }

  /** A device-status failure of the wait never reports OK or BUSY. */
  lemma TraceWaitFailsOnlyOnFaultStatus(address: Address, events: seq<TraceEvent>, last: Option<string>)
    requires Run(TraceStepper(address), events, last).Failure?
    requires Run(TraceStepper(address), events, last).error.DeviceStatus?
    ensures Run(TraceStepper(address), events, last).error.status !in {Ok, Busy}
  {
    RunFailsOnlyOnFaultStatus(TraceStepper(address), events, last);
  }

  /** A wait that no pass decides times out carrying the last line popped, or `last` when none was. */
  lemma TraceTimeoutCarriesLastLine(address: Address, events: seq<TraceEvent>, last: Option<string>)
    requires forall k :: 0 <= k < |events| ==> !Decides(address, events[k])
    ensures Run(TraceStepper(address), events, last) == Failure(MotionTimeout(LastSeen((e: TraceEvent) => e.item, events, last)))
  {
    TraceNoDecisionNoStop(address, events, last);
    RunWithoutStopTimesOut(TraceStepper(address), (e: TraceEvent) => e.item, events, last);
  }

  lemma {:induction false} TraceNoDecisionNoStop(address: Address, events: seq<TraceEvent>, last: Option<string>)
    requires forall k :: 0 <= k < |events| ==> !Decides(address, events[k])
    ensures !Stops(TraceStepper(address), events, last)
    decreases |events|
  {
    if |events| > 0 {
      TraceStepDecides(address, last, events[0]);
      TraceNoDecisionNoStop(address, events[1..], TraceStep(address, last, events[0]).last);
    }
  }

  /** A poll that times out or gets a malformed reply does not end the wait. */
  lemma PollErrorSwallowed(address: Address, reply: Option<string>, rest: seq<TraceEvent>, last: Option<string>)
    requires StatusOf(address, reply).Failure?
    ensures Run(TraceStepper(address), [Tick(None, Polled(reply))] + rest, last) == Run(TraceStepper(address), rest, last)
  {
    assert ([Tick(None, Polled(reply))] + rest)[1..] == rest;
  }

  /** An undefined code on an own status line fails the wait with the UNKNOWN status. */
  lemma UndefinedCodeFailsWait(rest: seq<TraceEvent>)
    ensures Run(TraceStepper('0'), [Tick(Some("0GS1F"), NotDue)] + rest, None)
      == Failure(DeviceStatus(Unknown, Some("0GS1F")))
  {
    var line := "0GS1F";
    assert line[1..3] == [line[1], line[2]] == "GS";
    assert line[3..5] == [line[3], line[4]] == "1F";
    assert ParseHex("1F") == Some(31);
    assert ([Tick(Some("0GS1F"), NotDue)] + rest)[0] == Tick(Some("0GS1F"), NotDue);
  }

  /** Whether a status poll is due in a pass: not yet, or sent at tick `at`, with `arrivals` queued before its reply is read. */
  datatype PollPlan = NotYet | DueAt(at: int, arrivals: seq<RxLine>)

  /**
   * What the environment does during one pass of the wait loop: the lines
   * the reader queues before the pop, the tick by which the pop gives up,
   * and whether a status poll is due.
   */
  datatype Pass = Pass(arrivals: seq<RxLine>, popBy: int, poll: PollPlan)

  /** A poll as the device sees it: what it observed, the queue after it, and the frames it wrote. */
  datatype PollResult = PollResult(poll: Poll, rx: seq<RxLine>, polls: seq<string>)

  /**
   * The status poll of a pass over the queue `q`: when due, `get_status`
   * writes the status query and correlates its reply against the queue,
   * with the poll's 0.6 s timeout.
   */
  function PollOver(address: Address, q: seq<RxLine>, plan: PollPlan): (r: PollResult)
    requires |q| <= RxCapacity
    ensures |r.rx| <= RxCapacity
    ensures r.poll.Polled? <==> plan.DueAt?
    ensures r.polls == (if plan.DueAt? then [StatusQuery(address)] else [])
    ensures r.poll.Polled? && r.poll.reply.Some? ==> OwnStatusLine(r.poll.reply.value, address)
  {
    match plan
    case NotYet => PollResult(NotDue, q, [])
    case DueAt(at, arrivals) =>
      var c := Correlate(AppendAll(q, arrivals), at, at + PollTimeout, Some(ReplyTo(address, ReplyCommand.Status)));
      PollResult(Polled(c.0), c.1, [StatusQuery(address)])
  }

  /** One pass as the device sees it: the event the wait reacts to, the queue after it, and the frames it wrote. */
  datatype PassResult = PassResult(event: TraceEvent, rx: seq<RxLine>, polls: seq<string>)

  /**
   * One pass of the wait loop over the queue `q`: the reader queues the
   * arrivals, the front line is popped if it arrived before `popBy`, and
   * unless that line was skipped or ended the pass, a due poll writes the
   * status query and correlates its reply against the same queue.
   */
  function PassOver(address: Address, q: seq<RxLine>, p: Pass): (r: PassResult)
    requires |q| <= RxCapacity
    ensures |r.rx| <= RxCapacity
    ensures r.event.poll.Polled? <==> r.polls == [StatusQuery(address)]
    ensures r.event.poll.NotDue? <==> r.polls == []
    ensures r.polls != [] <==>
      p.poll.DueAt? && (r.event.item.None? || Classify(r.event.item.value, address, UnknownFallback).Ignored?)
    ensures var q1 := AppendAll(q, p.arrivals);
      r.event.item.Some? <==> q1 != [] && q1[0].ts < p.popBy
    ensures r.event.item.Some? ==> r.event.item.value == AppendAll(q, p.arrivals)[0].text
  {
    var q1 := AppendAll(q, p.arrivals);
    var item := if q1 != [] && q1[0].ts < p.popBy then Some(q1[0].text) else None;
    var q2 := if item.Some? then q1[1..] else q1;
    if item.Some? && !Classify(item.value, address, UnknownFallback).Ignored? then
      PassResult(Tick(item, NotDue), q2, [])
    else
      var pr := PollOver(address, q2, p.poll);
      PassResult(Tick(item, pr.poll), pr.rx, pr.polls)
  }

  /** How a wait over the queue ends: its result, the queue left behind, and the poll frames it wrote. */
  datatype WaitOutcome = WaitOutcome(result: Result<(), Error>, rx: seq<RxLine>, polls: seq<string>)

  /** `_wait_until_done` over the queue `q` and the passes made before the deadline. */
  function WaitRun(address: Address, q: seq<RxLine>, passes: seq<Pass>, last: Option<string>): (o: WaitOutcome)
    requires |q| <= RxCapacity
    ensures |o.rx| <= RxCapacity && |o.polls| <= |passes|
    ensures forall i :: 0 <= i < |o.polls| ==> o.polls[i] == StatusQuery(address)
    decreases |passes|
  {
    if |passes| == 0 then WaitOutcome(Failure(MotionTimeout(last)), q, [])
    else
      var pr := PassOver(address, q, passes[0]);
      match TraceStep(address, last, pr.event)
      case Continue(l) =>
        var o := WaitRun(address, pr.rx, passes[1..], l);
        WaitOutcome(o.result, o.rx, pr.polls + o.polls)
      case Stop(outcome) => WaitOutcome(outcome, pr.rx, pr.polls)
  }

  /** The events the passes present to the wait, up to the one that stops it. */
  function Observed(address: Address, q: seq<RxLine>, passes: seq<Pass>, last: Option<string>): (es: seq<TraceEvent>)
    requires |q| <= RxCapacity
    ensures |es| <= |passes|
    decreases |passes|
  {
    if |passes| == 0 then []
    else
      var pr := PassOver(address, q, passes[0]);
      match TraceStep(address, last, pr.event)
      case Continue(l) => [pr.event] + Observed(address, pr.rx, passes[1..], l)
      case Stop(_) => [pr.event]
  }

  /** The number of events that carried a status poll. */
  function PollCount(es: seq<TraceEvent>): (n: nat)
    ensures n <= |es|
  {
    if |es| == 0 then 0 else (if es[0].poll.Polled? then 1 else 0) + PollCount(es[1..])
  }

  /**
   * The wait over the queue ends as the event-level wait over what the
   * passes observed, and writes one status query per observed poll.
   */
  lemma {:induction false} WaitRunObserved(address: Address, q: seq<RxLine>, passes: seq<Pass>, last: Option<string>)
    requires |q| <= RxCapacity
    ensures var es := Observed(address, q, passes, last);
      && WaitRun(address, q, passes, last).result == Run(TraceStepper(address), es, last)
      && |WaitRun(address, q, passes, last).polls| == PollCount(es)
    decreases |passes|
  {
    if |passes| > 0 {
      var pr := PassOver(address, q, passes[0]);
      var es := Observed(address, q, passes, last);
      assert es[0] == pr.event;
      match TraceStep(address, last, pr.event)
      case Continue(l) =>
        WaitRunObserved(address, pr.rx, passes[1..], l);
        assert es[1..] == Observed(address, pr.rx, passes[1..], l);
      case Stop(_) =>
        assert es[1..] == [];
    }
  }

  /**
   * Home and move do not flush the queue: an own OK status still queued
   * from before the command completes the wait at its first pass.
   */
  lemma QueuedOkCompletesWait(q: seq<RxLine>, ts: int, p: Pass, rest: seq<Pass>)
    requires 0 < |q| <= RxCapacity && q[0] == RxLine(ts, "0GS00") && p.arrivals == [] && ts < p.popBy
    ensures WaitRun('0', q, [p] + rest, None) == WaitOutcome(Success(()), q[1..], [])
  {
    var line := "0GS00";
    assert line[1..3] == [line[1], line[2]] == "GS";
    assert line[3..5] == [line[3], line[4]] == "00";
    assert ParseHex("00") == Some(0);
    assert ([p] + rest)[0] == p;
    assert Classify(line, '0', UnknownFallback) == Finished;
  }

  /** The tracing device: its bound address, its receive queue and the frames written so far. */
  class TraceDevice {
    var address: Address
    var rx: seq<RxLine>
    var sent: seq<string>

    predicate Valid()
      reads this
    {
      |rx| <= RxCapacity
    }

    /** The port is open and the reader running; no address is bound yet (see Bind). */
    constructor ()
      ensures Valid() && rx == [] && sent == []
    {
      address := '0';
      rx := [];
      sent := [];
    }

    /** The reader thread queues one decoded line. */
    method Deliver(ts: int, text: string)
      requires Valid()
      modifies this
      ensures Valid()
      ensures rx == Append(old(rx), RxLine(ts, text))
      ensures sent == old(sent) && address == old(address)
    {
      rx := Append(rx, RxLine(ts, text));
    }

    /** `flush_rx` */
    method FlushRx()
      requires Valid()
      modifies this
      ensures Valid() && rx == []
      ensures sent == old(sent) && address == old(address)
    {
      rx := [];
    }

    /** `_send_raw` and `reset_parser`: one frame is written. */
    method SendRaw(cmd: string)
      modifies this
      ensures sent == old(sent) + [cmd]
      ensures rx == old(rx) && address == old(address)
    {
      sent := sent + [cmd];
    }

    /** `_pop_rx_line`: the front line, unless none has arrived before the deadline. */
    method PopRxLine(deadline: int) returns (item: Option<RxLine>)
      requires Valid()
      modifies this
      ensures Valid()
      ensures old(rx) == [] || old(rx)[0].ts >= deadline ==> item.None? && rx == old(rx)
      ensures old(rx) != [] && old(rx)[0].ts < deadline ==> item == Some(old(rx)[0]) && rx == old(rx)[1..]
      ensures sent == old(sent) && address == old(address)
    {
      if rx == [] || rx[0].ts >= deadline {
        return None;
      }
      item := Some(rx[0]);
      rx := rx[1..];
    }

    /**
     * `_send_and_wait_one`: optionally clears the queue, writes the frame at
     * tick `now`, lets the reader queue `arrivals`, then consumes lines until
     * one is fresh and accepted or the deadline passes.
     */
    method SendAndWaitOne(cmd: string, now: int, timeout: int, pred: Option<string -> bool>, clearQueue: bool,
                          arrivals: seq<RxLine>) returns (reply: Option<string>)
      requires Valid()
      modifies this
      ensures Valid()
      ensures sent == old(sent) + [cmd] && address == old(address)
      ensures (reply, rx) == Correlate(AppendAll(if clearQueue then [] else old(rx), arrivals), now, now + timeout, pred)
    {
      if clearQueue {
        FlushRx();
      }
      SendRaw(cmd);
      Receive(arrivals);
      reply := AwaitReply(now, now + timeout, pred);
    }

    /** The reader thread queues each of `arrivals` in turn. */
    method Receive(arrivals: seq<RxLine>)
      requires Valid()
      modifies this
      ensures Valid() && rx == AppendAll(old(rx), arrivals)
      ensures sent == old(sent) && address == old(address)
    {
      var i := 0;
      while i < |arrivals|
        invariant 0 <= i <= |arrivals| && Valid()
        invariant rx == AppendAll(old(rx), arrivals[..i])
        invariant sent == old(sent) && address == old(address)
      {
        assert arrivals[..i + 1][..i] == arrivals[..i];
        Deliver(arrivals[i].ts, arrivals[i].text);
        i := i + 1;
      }
      assert arrivals[..i] == arrivals;
    }

    /** The correlation loop of `_send_and_wait_one`, after the frame `now` was written. */
    method AwaitReply(now: int, deadline: int, pred: Option<string -> bool>) returns (reply: Option<string>)
      requires Valid()
      modifies this
      ensures Valid() && (reply, rx) == Correlate(old(rx), now, deadline, pred)
      ensures sent == old(sent) && address == old(address)
    {
      while true
        invariant Valid() && Correlate(rx, now, deadline, pred) == Correlate(old(rx), now, deadline, pred)
        invariant sent == old(sent) && address == old(address)
        decreases |rx|
      {
        var item := PopRxLine(deadline);
        if item.None? {
          return None;
        }
        var line := item.value;
        if line.ts + Tolerance < now {
          continue;
        }
        if pred.None? || pred.value(line.text) {
          return Some(line.text);
        }
      }
    }

    /** `get_status`: the status reply correlated against the queue (the caller's timeout defaults to QueryTimeout). */
    method GetStatus(now: int, timeout: int, arrivals: seq<RxLine>) returns (r: Result<StatusCode, Error>)
      requires Valid()
      modifies this
      ensures Valid()
      ensures sent == old(sent) + [StatusQuery(address)] && address == old(address)
      ensures var c := Correlate(AppendAll(old(rx), arrivals), now, now + timeout, Some(ReplyTo(address, ReplyCommand.Status)));
        rx == c.1 && r == StatusOf(address, c.0)
    {
      var reply := SendAndWaitOne(StatusQuery(address), now, timeout, Some(ReplyTo(address, ReplyCommand.Status)), false, arrivals);
      r := StatusOf(address, reply);
    }

    /** `get_speed`: the velocity reply correlated against the queue (the caller's timeout defaults to QueryTimeout). */
    method GetSpeed(now: int, timeout: int, arrivals: seq<RxLine>) returns (r: Result<nat, Error>)
      requires Valid()
      modifies this
      ensures Valid()
      ensures sent == old(sent) + [VelocityQuery(address)] && address == old(address)
      ensures var c := Correlate(AppendAll(old(rx), arrivals), now, now + timeout, Some(ReplyTo(address, ReplyCommand.Velocity)));
        && rx == c.1
        && (c.0.None? ==> r == Failure(NoReply))
        && (c.0.Some? ==> r == ParseVelocityReply(c.0.value, address))
    {
      var reply := SendAndWaitOne(VelocityQuery(address), now, timeout, Some(ReplyTo(address, ReplyCommand.Velocity)), false, arrivals);
      if reply.None? {
        return Failure(NoReply);
      }
      r := ParseVelocityReply(reply.value, address);
    }

    /**
     * `set_speed`: a percent outside [0, 100] is refused before anything is
     * written; otherwise it succeeds exactly when the correlated status reply
     * reports OK; no reply or an undecodable one fails as `get_status` would,
     * and any other status fails carrying that status and the reply.
     */
    method SetSpeed(percent: int, now: int, timeout: int, arrivals: seq<RxLine>) returns (r: Result<(), Error>)
      requires Valid()
      modifies this
      ensures Valid() && address == old(address)
      ensures !(0 <= percent <= 100) ==> r == Failure(InvalidPercent(percent)) && sent == old(sent) && rx == old(rx)
      ensures 0 <= percent <= 100 ==>
        var c := Correlate(AppendAll(old(rx), arrivals), now, now + timeout, Some(ReplyTo(address, ReplyCommand.Status)));
        && sent == old(sent) + [SetVelocityFrame(address, percent).value]
        && rx == c.1
        && (r.Success? <==> ReportsOk(address, c.0))
        && (StatusOf(address, c.0).Failure? ==> r == Failure(StatusOf(address, c.0).error))
        && (c.0.Some? && StatusOf(address, c.0).Success? && !r.Success? ==>
              r == Failure(DeviceStatus(StatusOf(address, c.0).value, c.0)))
    {
      var frame := SetVelocityFrame(address, percent);
      if frame.Failure? {
        return Failure(frame.error);
      }
      var reply := SendAndWaitOne(frame.value, now, timeout, Some(ReplyTo(address, ReplyCommand.Status)), false, arrivals);
      if reply.None? {
        return Failure(NoReply);
      }
      var st := ParseStatusReply(reply.value, address, UnknownFallback);
      if st.Failure? {
        return Failure(st.error);
      }
      if st.value != Ok {
        return Failure(DeviceStatus(st.value, reply));
      }
      r := Success(());
    }

    /**
     * One pass of the loop of `_wait_until_done`: the reader queues the
     * pass's arrivals, one line is popped, and unless it was skipped or
     * ended the pass, a due status poll is sent and correlated.
     */
    method WaitPass(p: Pass, last: Option<string>) returns (step: Step)
      requires Valid()
      modifies this
      ensures Valid() && address == old(address)
      ensures var pr := PassOver(address, old(rx), p);
        && step == TraceStep(address, last, pr.event)
        && rx == pr.rx && sent == old(sent) + pr.polls
    {
      Receive(p.arrivals);
      var item := PopRxLine(p.popBy);
      var seen := last;
      if item.Some? {
        var line := item.value.text;
        seen := Some(line);
        match Classify(line, address, UnknownFallback) {
          case Finished => return Step.Stop(Success(()));
          case Failed(err) => return Step.Stop(Failure(err));
          case Ignored =>
          case _ => return Continue(seen);
        }
      }
      var poll := PollIfDue(p.poll);
      if poll.Polled? {
        var st := StatusOf(address, poll.reply);
        if st.Success? && st.value != Busy {
          if st.value != Ok {
            return Step.Stop(Failure(DeviceStatus(st.value, seen)));
          }
          return Step.Stop(Success(()));
        }
      }
      return Continue(seen);
    }

    /** The `get_status` exchange of a pass whose poll is due: the query is written and its reply correlated. */
    method PollIfDue(plan: PollPlan) returns (poll: Poll)
      requires Valid()
      modifies this
      ensures Valid() && address == old(address)
      ensures var pr := PollOver(address, old(rx), plan);
        poll == pr.poll && rx == pr.rx && sent == old(sent) + pr.polls
    {
      if plan.NotYet? {
        return NotDue;
      }
      var reply := SendAndWaitOne(StatusQuery(address), plan.at, PollTimeout, Some(ReplyTo(address, ReplyCommand.Status)), false, plan.arrivals);
      return Polled(reply);
    }

    /**
     * `_wait_until_done`: the passes of the loop made before the deadline,
     * in order. Lines are drawn from the queue, and every poll writes a
     * status query.
     */
    method WaitUntilDone(passes: seq<Pass>) returns (r: Result<(), Error>)
      requires Valid()
      modifies this
      ensures Valid() && address == old(address)
      ensures var o := WaitRun(address, old(rx), passes, None);
        && r == o.result && rx == o.rx && sent == old(sent) + o.polls
    {
      var last: Option<string> := None;
      ghost var polls: seq<string> := [];
      ghost var o0 := WaitRun(address, rx, passes, None);
      var rest := passes;
      while rest != []
        invariant Valid() && address == old(address)
        invariant sent == old(sent) + polls
        invariant var o := WaitRun(address, rx, rest, last);
          o.result == o0.result && o.rx == o0.rx && polls + o.polls == o0.polls
        decreases |rest|
      {
        ghost var pr := PassOver(address, rx, rest[0]);
        var step := WaitPass(rest[0], last);
        ConcatAssoc(old(sent), polls, pr.polls);
        polls := polls + pr.polls;
        if step.Stop? {
          return step.outcome;
        }
        last := step.last;
        rest := rest[1..];
      }
      return Failure(MotionTimeout(last));
    }

    /** `home`: writes the home frame without flushing, then waits. */
    method Home(direction: HomeDirection, passes: seq<Pass>) returns (r: Result<(), Error>)
      requires Valid()
      modifies this
      ensures Valid() && address == old(address)
      ensures var o := WaitRun(address, old(rx), passes, None);
        && sent == old(sent) + [HomeFrame(address, direction)] + o.polls
        && rx == o.rx && r == o.result
    {
      SendRaw(HomeFrame(address, direction));
      r := WaitUntilDone(passes);
    }

    /** `move_absolute` / `move_relative`: writes the move frame without flushing, then waits. */
    method Move(relative: bool, counts: int, passes: seq<Pass>) returns (r: Result<(), Error>)
      requires Valid()
      modifies this
      ensures Valid() && address == old(address)
      ensures var o := WaitRun(address, old(rx), passes, None);
        && sent == old(sent) + [MoveFrame(address, relative, counts)] + o.polls
        && rx == o.rx && r == o.result
    {
      SendRaw(MoveFrame(address, relative, counts));
      r := WaitUntilDone(passes);
    }

    /**
     * One scan probe: the queue is cleared, the status query written at `t`
     * and the reply correlated; the address is kept when the reply decodes.
     */
    method Probe(a: Address, t: int, arrivals: seq<RxLine>) returns (kept: bool)
      requires Valid()
      modifies this
      ensures Valid() && address == old(address)
      ensures sent == old(sent) + [StatusQuery(a)]
      ensures rx == ProbeLeftover(a, t, arrivals)
      ensures kept == ProbeAccepted(a, t, arrivals)
    {
      var reply := SendAndWaitOne(StatusQuery(a), t, ProbeTimeout, Some(ReplyTo(a, ReplyCommand.Status)), true, arrivals);
      kept := reply.Some? && ParseStatusReply(reply.value, a, UnknownFallback).Success?;
    }

    /** The probe loop of `_find_addresses` over the given addresses, in order. */
    method Scan(addrs: seq<Address>, sendTick: char -> int, replies: char -> seq<RxLine>) returns (found: seq<Address>)
      requires Valid()
      modifies this
      ensures Valid() && address == old(address)
      ensures found == TraceDiscovered(addrs, sendTick, replies)
      ensures sent == old(sent) + ProbeFrames(addrs)
      ensures rx == ScanLeftover(old(rx), addrs, sendTick, replies)
    {
      found := [];
      var i := 0;
      while i < |addrs|
        invariant 0 <= i <= |addrs| && Valid() && address == old(address)
        invariant found == TraceDiscovered(addrs[..i], sendTick, replies)
        invariant sent == old(sent) + ProbeFrames(addrs[..i])
        invariant rx == ScanLeftover(old(rx), addrs[..i], sendTick, replies)
      {
        var a := addrs[i];
        ghost var done := addrs[..i + 1];
        assert done[..i] == addrs[..i] && done[i] == a;
        assert ProbeFrames(done) == ProbeFrames(addrs[..i]) + [StatusQuery(a)];
        ghost var before := sent;
        var kept := Probe(a, sendTick(a), replies(a));
        assert sent == old(sent) + ProbeFrames(done) by {
          assert sent == before + [StatusQuery(a)];
          assert before == old(sent) + ProbeFrames(addrs[..i]);
        }
        assert TraceDiscovered(done, sendTick, replies)
          == TraceDiscovered(addrs[..i], sendTick, replies) + (if ProbeAccepted(a, sendTick(a), replies(a)) then [a] else []);
        if kept {
          found := found + [a];
        }
        i := i + 1;
      }
      assert addrs[..i] == addrs;
    }

    /**
     * `_find_addresses`: for each address of the range, ascending, the queue
     * is cleared, the probe is sent at `sendTick(a)` and `replies(a)` arrive;
     * the address is kept when a matching reply decodes as a status.
     */
    method FindAddresses(minAddress: string, maxAddress: string, sendTick: char -> int, replies: char -> seq<RxLine>)
      returns (r: Result<seq<Address>, Error>)
      requires Valid()
      modifies this
      ensures Valid() && address == old(address)
      ensures IterAddresses(minAddress, maxAddress).Failure? ==>
        r == Failure(IterAddresses(minAddress, maxAddress).error) && sent == old(sent) && rx == old(rx)
      ensures IterAddresses(minAddress, maxAddress).Success? ==>
        var addrs := IterAddresses(minAddress, maxAddress).value;
        && r == Success(TraceDiscovered(addrs, sendTick, replies))
        && sent == old(sent) + ProbeFrames(addrs)
        && rx == ScanLeftover(old(rx), addrs, sendTick, replies)
    {
      var range := IterAddresses(minAddress, maxAddress);
      if range.Failure? {
        return Failure(range.error);
      }
      var found := Scan(range.value, sendTick, replies);
      r := Success(found);
    }

    /**
     * Binding in `__init__`: both range bounds are normalised first, even when
     * an explicit address is given; an explicit address is then normalised and
     * bound, otherwise the range is scanned and exactly one responder is bound.
     */
    method Bind(explicit: Option<string>, minAddress: string, maxAddress: string,
                sendTick: char -> int, replies: char -> seq<RxLine>) returns (r: Result<Address, Error>)
      requires Valid()
      modifies this
      ensures Valid()
      ensures NormalizeAddress(minAddress).Failure? ==> r == Failure(InvalidAddress(minAddress))
      ensures NormalizeAddress(minAddress).Success? && NormalizeAddress(maxAddress).Failure? ==>
        r == Failure(InvalidAddress(maxAddress))
      ensures explicit.Some? && NormalizeAddress(minAddress).Success? && NormalizeAddress(maxAddress).Success? ==>
        r == NormalizeAddress(explicit.value)
      ensures explicit.None? && r.Success? ==>
        && IterAddresses(minAddress, maxAddress).Success?
        && TraceDiscovered(IterAddresses(minAddress, maxAddress).value, sendTick, replies) == [r.value]
      ensures explicit.None? && IterAddresses(minAddress, maxAddress).Success? ==>
        (r.Success? <==> |TraceDiscovered(IterAddresses(minAddress, maxAddress).value, sendTick, replies)| == 1)
      ensures r.Success? ==> address == r.value
      ensures r.Failure? ==> address == old(address)
      ensures NormalizeAddress(minAddress).Failure? || NormalizeAddress(maxAddress).Failure? || explicit.Some? ==>
        sent == old(sent) && rx == old(rx)
      ensures explicit.None? && IterAddresses(minAddress, maxAddress).Success? ==>
        var addrs := IterAddresses(minAddress, maxAddress).value;
        && r == BindingPolicy(TraceDiscovered(addrs, sendTick, replies))
        && sent == old(sent) + ProbeFrames(addrs)
        && rx == ScanLeftover(old(rx), addrs, sendTick, replies)
      ensures (&& explicit.None? && NormalizeAddress(minAddress).Success? && NormalizeAddress(maxAddress).Success?
               && IterAddresses(minAddress, maxAddress).Failure?) ==>
        && r == Failure(InvalidRange([NormalizeAddress(minAddress).value], [NormalizeAddress(maxAddress).value]))
        && sent == old(sent) && rx == old(rx)
    {
      var mn := NormalizeAddress(minAddress);
      if mn.Failure? {
        return Failure(mn.error);
      }
      var mx := NormalizeAddress(maxAddress);
      if mx.Failure? {
        return Failure(mx.error);
      }
      if explicit.Some? {
        r := NormalizeAddress(explicit.value);
        if r.Success? {
          address := r.value;
        }
        return;
      }
      NormalizeIdempotent(minAddress);
      NormalizeIdempotent(maxAddress);
      assert IterAddresses([mn.value], [mx.value]).Success? <==> IterAddresses(minAddress, maxAddress).Success?;
      assert IterAddresses([mn.value], [mx.value]).Success? ==>
        IterAddresses([mn.value], [mx.value]).value == IterAddresses(minAddress, maxAddress).value;
      var found := FindAddresses([mn.value], [mx.value], sendTick, replies);
      if found.Failure? {
        return Failure(found.error);
      }
      if |found.value| == 0 {
        return Failure(NoDevice);
      }
      if |found.value| > 1 {
        return Failure(MultipleDevices(found.value));
      }
      address := found.value[0];
      r := Success(address);
    }
  }
}
