# Elliptec ELLx bus protocol engine in Dafny

This project models the host side of the Thorlabs Elliptec ELLx ASCII bus
protocol as the MilnerLab Devices repository implements it. Frames are
`<address><mnemonic><payload>`:
- the address is one hex digit;
- the mnemonic is two lower-case letters;
- replies carry a two-letter upper-case tag (`GS`, `GV`, `PO`) and hex payloads.

The engine exists in three near-duplicate copies. The model follows each one:

- `elliptec/base/helpers.py` and `elliptec/base/enums.py`: the frame codec and the constant tables.
  - Modules `Enums`, `Hex` and `Helpers`.
  - `Wire` builds the outbound frames.
  - `Exceptions` is the error taxonomy.
- `elliptec/elliptec.py` (module `Elliptec`): a session that reads one reply line per frame.
  - It covers the getters, `set_speed`, `stop`, discovery and binding, and the motion wait.
  - The wait reads asynchronous lines and polls the status when the line is silent.
- `elliptec/elliptec_trace.py` (module `ElliptecTrace`): a session with a background reader.
  - The reader fills a bounded queue of timestamped lines.
  - A correlator matches the reply to each command against that queue.
  - `class TraceDevice` holds the bound address, the queue and the log of written frames.
  - Its methods update them in place.
- `elliptec/elliptec_speed_serial.py` (module `SpeedSerial`): stand-alone `find_addresses`, `get_speed` and `set_speed`.

Shared parts:
- `Discovery` holds the probe filter and the binding policy, which all three copies apply the same way.
- `Motion` holds the per-line classifier of the motion wait and the fold of a wait over the events observed before its deadline.

The model abstracts the environment as follows:
- **One-shot exchanges.** A `Responder` (`string -> Option<string>`) gives the reply line read after a frame is written, or `None` on a read timeout.
- **Outbound traffic.** It is returned, or kept in `sent`, as the list of frames written, including the single-`\r` parser resets.
- **Time.** It is integer ticks of one millisecond. The 1e-3 s freshness slack of the trace copy is one tick.
- **Waits.** A wait receives the sequence of events (lines read, status polls) that happened before its deadline. Running out of events is the deadline. The trace copy's wait draws its lines from the receive queue and correlates its polls against that queue. Each of its passes says which lines the reader queues, by which tick the pop gives up, and whether a poll is due.
- **The reader thread.** Its deliveries are an explicit `arrivals` sequence, queued between the send and the correlation.

The motion waits decide as the code does:
- `MECHANICAL_TIMEOUT` fails a motion wait like every status other than `BUSY`.
- An `OK` status or a `PO` line finishes it; no position reply is required after `OK`.
- Each copy keeps its own completion rule (`elliptec.py` polls only after a read timeout, `elliptec_trace.py` on its poll interval and swallows poll errors).

## Model

| member | source | states |
|---|---|---|
| Enums.HostCommand.Mnemonic | elliptec/base/enums.py:4-15 | every host mnemonic is two lower-case letters |
| Enums.MnemonicsDistinct | elliptec/base/enums.py:4-15 | distinct host commands have distinct mnemonics |
| Enums.ReplyCommand.Tag | elliptec/base/enums.py:18-22 | every reply tag is two upper-case letters |
| Enums.TagsDistinct | elliptec/base/enums.py:18-22 | distinct reply kinds have distinct tags |
| Enums.StatusCode.Code | elliptec/base/enums.py:25-39 | the defined codes have values in 0..13; only UNKNOWN has 255 |
| Enums.FromCode | elliptec/base/enums.py:25-39 | `StatusCode(n)` exists exactly for 0 <= n <= 13 and has value n |
| Enums.CodesDistinct | elliptec/base/enums.py:25-39 | the code values are pairwise distinct, and each defined code is recovered from its value |
| Enums.NamedCodes | elliptec/base/enums.py:25-39 | OK=0, MECHANICAL_TIMEOUT=2, COMMAND_ERROR_OR_NOT_SUPPORTED=3, BUSY=9 |
| Enums.HomeDirection.Value | elliptec/base/enums.py:42-45 | CW and CCW have values 0 and 1 |
| Enums.HomeDirection.Digit | elliptec/elliptec.py:313 | `str(int(direction))` is the single digit '0' or '1' whose value is the direction |
| Hex.UpperDigitsAreDigits | elliptec/base/helpers.py:6 | a character is an upper-case hex digit iff it occurs in `_HEX_DIGITS` |
| Hex.HexChar | elliptec/base/helpers.py:36 | the `X` digit of a value below 16 is upper case, reads back as that value, and is its entry in `_HEX_DIGITS` |
| Hex.HexValue | elliptec/base/helpers.py:52 | the value of an n-digit hex string is below 16^n |
| Hex.ParseHex | elliptec/base/helpers.py:51-54 | `int(s, 16)` succeeds iff s is a non-empty string of hex digits; its value is below 16^len(s) |
| Hex.ToHex | elliptec/base/helpers.py:36 | zero-padded `X` formatting yields exactly `width` upper-case digits |
| Hex.ToHexValue | elliptec/base/helpers.py:43 | formatting to `width` digits then reading back gives the value modulo 16^width |
| Hex.ParseToHex | elliptec/base/helpers.py:36 | a value that fits in `width` digits is parsed back exactly from its formatting |
| Hex.HexValueToHex | elliptec/base/helpers.py:36 | formatting the value of an upper-case digit string to its own length gives the string back |
| Helpers.NormalizeAddress | elliptec/base/helpers.py:9-15 | succeeds iff the input is one character that is a hex digit of either case; returns it upper-cased; otherwise fails with InvalidAddress |
| Helpers.NormalizeCaseInsensitive | elliptec/base/helpers.py:12-15 | a lower-case digit and its upper-case form normalise to the same address |
| Helpers.NormalizeIdempotent | elliptec/base/helpers.py:12-15 | normalising a normalised address returns it unchanged |
| Helpers.AddressValue | elliptec/base/helpers.py:19-20 | `int(a, 16)` of an address is below 16, and formatting it gives the address back |
| Helpers.IterAddresses | elliptec/base/helpers.py:18-24 | succeeds iff both bounds normalise and min <= max; yields max-min+1 addresses whose values are min, min+1, ..., max; a bad min is InvalidAddress(min), else a bad max is InvalidAddress(max), else an inverted range is InvalidRange |
| Helpers.AddressesFrom | elliptec/base/helpers.py:23-24 | the `range` loop yields `count` addresses with consecutive values from `lo` |
| Helpers.IterAddressesAscending | elliptec/base/helpers.py:18-24 | the enumeration starts at the min address, ends at the max address and is strictly ascending |
| Helpers.EncodeU8Percent | elliptec/base/helpers.py:27-36 | fails with InvalidPercent iff the percent is outside [0, 100]; otherwise gives two upper-case hex digits whose value is the percent |
| Helpers.PercentExamples | elliptec/base/helpers.py:27-31 | 0 -> "00", 50 -> "32", 70 -> "46", 100 -> "64"; -1 and 101 are refused |
| Helpers.EncodeLong32 | elliptec/base/helpers.py:39-43 | for every integer: exactly eight upper-case hex digits whose value is the integer modulo 2^32 |
| Helpers.Signed32OfResidue | elliptec/base/helpers.py:81-84 | every signed 32-bit value is recovered from its residue modulo 2^32 |
| Helpers.ToSigned32 | elliptec/base/helpers.py:81-84 | the two's-complement reading lies in [-2^31, 2^31), is negative iff bit 31 is set, and is congruent to the raw value |
| Helpers.Slice | elliptec/elliptec.py:297 | Python's clamping `s[i:j]`: the ordinary slice when in range, the tail from i when only j is past the end, empty when i is past the end |
| Helpers.StatusFromCode | elliptec/base/helpers.py:55-59 | codes 0..13 decode to the status of that value; any other code decodes to the copy's fallback |
| Helpers.BusyIfNineIsCommandError | elliptec/elliptec.py:119-123 | the `code == 9` fallback branch is dead: that copy decodes every code exactly like helpers.py |
| Helpers.ParseStatusReply | elliptec/base/helpers.py:46-59 | succeeds iff the length is >= 5, the address matches, the tag is "GS" and chars 3..5 are hex; defined codes decode to themselves, others to the fallback; failures are UnexpectedReply or MalformedReply |
| Helpers.ParseVelocityReply | elliptec/base/helpers.py:62-69 | succeeds iff the length is >= 5, the address matches, the tag is "GV" and chars 3..5 are hex; the value is theirs and is below 256 |
| Helpers.ParsePositionReply | elliptec/base/helpers.py:72-84 | succeeds iff the length is >= 11, the address matches, the tag is "PO" and chars 3..11 are hex; the result lies in [-2^31, 2^31), is congruent to the raw value modulo 2^32, and is negative iff the high bit is set |
| Helpers.PositionRoundTrip | elliptec/base/helpers.py:72-84 | a position reply carrying `_encode_long32(v)` decodes to v for every signed 32-bit v |
| Helpers.PositionWraps | elliptec/base/helpers.py:39-43 | for any integer v, the decoded count is v modulo 2^32 read as two's complement |
| Helpers.VelocityRoundTrip | elliptec/base/helpers.py:62-69 | a velocity reply carrying `_encode_u8_percent(p)` decodes to p for every p in [0, 100] |
| Helpers.StatusRoundTrip | elliptec/base/helpers.py:46-59 | a status reply carrying a defined code decodes to that code under every fallback |
| Helpers.UnknownStatusNeverFails | elliptec/base/helpers.py:55-59 | a well-formed status reply with an undefined code never fails: it decodes to COMMAND_ERROR_OR_NOT_SUPPORTED (UNKNOWN in the trace copy) |
| Wire.StatusQuery | elliptec/elliptec.py:267 | the status query is the address followed by "gs" |
| Wire.VelocityQuery | elliptec/elliptec.py:274 | the velocity query is the address followed by "gv" |
| Wire.PositionQuery | elliptec/elliptec.py:281 | the position query is the address followed by "gp" |
| Wire.StopFrame | elliptec/elliptec.py:332 | the stop frame is the address followed by "st" |
| Wire.SetVelocityFrame | elliptec/elliptec.py:293-294 | exists iff the percent is in [0, 100]; then it is 5 characters (address, "sv", two upper-case hex digits of value percent) |
| Wire.HomeFrame | elliptec/elliptec.py:313 | 4 characters: address, "ho", and the digit of the direction |
| Wire.MoveFrame | elliptec/elliptec.py:316-328 | 11 characters: address, "ma" or "mr", and eight upper-case hex digits of the count modulo 2^32 |
| Wire.MoveFrameCarriesCount | elliptec/elliptec.py:316-328 | the payload of a move frame decodes back to the signed count, as a position reply would |
| Discovery.Discovered | elliptec/elliptec.py:253-256 | only probed addresses whose probe got a well-formed GS reply are found; no more than were probed |
| Discovery.DiscoveredComplete | elliptec/elliptec.py:253-256 | every probed address whose probe got a well-formed GS reply is found |
| Discovery.DiscoveredAscending | elliptec/elliptec.py:242-258 | probing an ascending range finds addresses in ascending order |
| Discovery.ProbeFrames | elliptec/elliptec.py:253-254 | a scan writes exactly one status query per address, in probe order |
| Discovery.BindingPolicy | elliptec/elliptec.py:178-189 | no device is NoDevice, several are MultipleDevices, and exactly one is bound |
| Discovery.SingleResponderIsBound | elliptec/elliptec.py:178-189 | when exactly one probed address answers, discovery returns just it and binding succeeds with it |
| Discovery.OnlyResponder | elliptec/elliptec.py:253-256 | with one answering address, discovery returns it if it was probed and nothing otherwise |
| Discovery.TwoRespondersAreAmbiguous | elliptec/elliptec.py:184-188 | two answering probed addresses make binding fail with MultipleDevices |
| Motion.Classify | elliptec/elliptec.py:369-386 | skips foreign or short lines; BUSY keeps waiting; OK or PO finishes; other tags are ignored; an own GS line that fails to decode fails with that error; any other status fails carrying that line and the status decoded from its code |
| Motion.MechanicalTimeoutFails | elliptec/elliptec.py:376-381 | a MECHANICAL_TIMEOUT status line fails the wait with that status |
| Motion.RunIgnoresLaterEvents | elliptec/elliptec.py:355-388 | once a wait has stopped, later events do not change its outcome |
| Motion.Run | elliptec/elliptec.py:357-388 | the wait ends either at an event that stops it or, with no such event, in MotionTimeout |
| Motion.RunSucceedsIff | elliptec/elliptec.py:357-388 | when stopping and completing depend on the event only, a wait succeeds iff a completing event comes before any other deciding event |
| Motion.RunFailsOnlyOnFaultStatus | elliptec/elliptec.py:362-381 | when no step fails with OK or BUSY, neither does the wait |
| Motion.RunWithoutStopTimesOut | elliptec/elliptec.py:357-388 | when every step that keeps waiting remembers the line its event carried, a wait in which nothing stops ends in MotionTimeout carrying the latest line read, or the initial reply when none was read |
| Elliptec.GetStatus | elliptec/elliptec.py:266-270 | no reply is NoReply; a reply decodes exactly as ParseStatusReply with this copy's fallback, whose round trip fixes each defined code; succeeds iff the reply is an own GS line with a hex code; never UNKNOWN; OK iff code 0, BUSY iff code 9 |
| Elliptec.GetSpeed | elliptec/elliptec.py:272-277 | no reply is NoReply; a reply decodes exactly as ParseVelocityReply (the value of its two GV digits); succeeds iff the reply is an own GV line with hex digits; the value is below 256 |
| Elliptec.GetPositionCounts | elliptec/elliptec.py:279-284 | no reply is NoReply; a reply decodes exactly as ParsePositionReply (the signed 32-bit reading of its eight PO digits); succeeds iff the reply is an own PO line with eight hex digits |
| Elliptec.SetSpeed | elliptec/elliptec.py:288-305 | an invalid percent is refused with nothing written; otherwise writes the set frame, plus a status query only when the reply is not a GS line; succeeds iff the status, from the GS reply or the follow-up query, is OK; no reply is NoReply, an undecodable status fails as `get_status` does, and a non-OK status fails carrying it and the set reply |
| Elliptec.BaseStep | elliptec/elliptec.py:358-386 | one iteration stops exactly on a deciding event and succeeds exactly on a completing one; a failing line raises the error Classify gives it (the parse error, or its status with that line); a failed poll raises get_status's error and a polled status other than OK or BUSY raises DeviceStatus with the last reply; a line read becomes the remembered reply and a poll keeps the previous one |
| Elliptec.WaitFrames | elliptec/elliptec.py:359-363 | the wait writes only status queries, at most one per event |
| Elliptec.WaitUntilDone | elliptec/elliptec.py:346-388 | the loop's result is the fold of the per-event step over the events before the deadline, and it writes one status query per silence it polls on |
| Elliptec.WaitSucceedsIff | elliptec/elliptec.py:346-388 | the wait succeeds iff some event completes it (own OK or PO line, or a poll answered OK) and no earlier event decides it |
| Elliptec.WaitFailsOnlyOnFaultStatus | elliptec/elliptec.py:362-381 | a device-status failure of the wait never reports OK or BUSY |
| Elliptec.TimeoutCarriesLastLine | elliptec/elliptec.py:357-388 | a wait that no event decides times out carrying the last line read, or the initial reply when none was read |
| Elliptec.BusyThenPositionCompletes | elliptec/elliptec.py:376-386 | the stream 0GS09, 0GS09, 0PO00000000 completes the wait |
| Elliptec.OutOfRangeFails | elliptec/elliptec.py:376-381 | 0GS04 fails the wait at once with VALUE_OUT_OF_RANGE and that line, whatever follows |
| Elliptec.ForeignLineSkipped | elliptec/elliptec.py:369-373 | a line for another address, or shorter than 3 characters, does not end the wait and becomes the last reply |
| Elliptec.ShortStatusLineFails | elliptec/elliptec.py:372-377 | an own 4-character GS line is not skipped: it fails the wait as an unexpected reply |
| Elliptec.StopMotion | elliptec/elliptec.py:330-342 | writes the stop frame first; no reply is NoReply; a non-GS reply returns; GS OK returns; GS BUSY waits for the motion, adding the wait's status queries; any other status fails with it |
| Elliptec.Home | elliptec/elliptec.py:307-314 | writes the home frame then the wait's status queries; its result is the motion wait's |
| Elliptec.Move | elliptec/elliptec.py:316-328 | writes the move frame then the wait's status queries; its result is the motion wait's |
| Elliptec.Scan | elliptec/elliptec.py:253-256 | the probe loop finds exactly the discovered addresses and writes one status query per address |
| Elliptec.FindAddresses | elliptec/elliptec.py:242-258 | after a parser reset, the addresses of the range whose probe got a well-formed GS reply, in order; a bad range fails before any probe |
| Elliptec.Open | elliptec/elliptec.py:178-191 | an explicit address is normalised with no traffic; otherwise both bounds are normalised, and a valid range writes the parser reset and one probe per address, the result being NoDevice, MultipleDevices(found) or the single responder; an inverted range writes only the reset and fails with InvalidRange of the normalised bounds |
| ElliptecTrace.Append | elliptec/elliptec_trace.py:378-380 | appending adds the line at the back; a full queue of 50,000 drops its oldest line |
| ElliptecTrace.AppendAll | elliptec/elliptec_trace.py:378-380 | after any number of deliveries the queue still holds at most 50,000 lines |
| ElliptecTrace.Correlate | elliptec/elliptec_trace.py:433-449 | the queue never grows; a reply consumes at least its own line and satisfies the acceptance test |
| ElliptecTrace.AppendAllKeepsNewest | elliptec/elliptec_trace.py:212 | after any deliveries the queue holds the newest min(n, 50,000) lines, in arrival order |
| ElliptecTrace.CorrelateLeavesSuffix | elliptec/elliptec_trace.py:400-411 | correlation consumes lines from the front and never re-queues them |
| ElliptecTrace.CorrelateReplyIsFirstAnswer | elliptec/elliptec_trace.py:433-449 | a reply is the first in-time line that is fresh and accepted; every line before it arrived in time but was stale or rejected |
| ElliptecTrace.CorrelateNoReplyMeansDeadline | elliptec/elliptec_trace.py:433-449 | without a reply every consumed line was stale or rejected, and the queue left is empty or its front came at or after the deadline |
| ElliptecTrace.StaleLineIgnored | elliptec/elliptec_trace.py:440-442 | a line stamped more than the tolerance before the send is discarded and never taken as the answer |
| ElliptecTrace.StatusOf | elliptec/elliptec_trace.py:504-506 | no reply is NoReply; a reply decodes exactly as ParseStatusReply with the UNKNOWN fallback; succeeds iff the reply is an own GS line with hex code; UNKNOWN iff the code is above 13 |
| ElliptecTrace.ProbeReply | elliptec/elliptec_trace.py:462-468 | a matched probe reply is always an own GS line of at least 5 characters |
| ElliptecTrace.ProbeLeftover | elliptec/elliptec_trace.py:462-468 | the queue a probe leaves holds only the newest of that probe's own arrivals, in order: nothing queued before the probe survives its clear |
| ElliptecTrace.ClearedQueueLeavesArrivals | elliptec/elliptec_trace.py:428-449 | correlating after a queue clear leaves a suffix of the lines that arrived since the clear |
| ElliptecTrace.ProbeAccepted | elliptec/elliptec_trace.py:462-475 | a probe is accepted iff a reply was matched and its code is two hex digits |
| ElliptecTrace.TraceDiscovered | elliptec/elliptec_trace.py:459-475 | only probed addresses whose correlated reply decodes as a status are found |
| ElliptecTrace.TraceDiscoveredComplete | elliptec/elliptec_trace.py:459-475 | every probed address whose correlated reply decodes as a status is found |
| ElliptecTrace.TraceDiscoveredAscending | elliptec/elliptec_trace.py:459-475 | probing an ascending range finds addresses in ascending order |
| ElliptecTrace.PollStep | elliptec/elliptec_trace.py:604-618 | a failed poll is swallowed; the poll stops exactly when it decodes a status other than BUSY; it succeeds iff it reads OK; any other status fails carrying the last line read, not the poll's reply |
| ElliptecTrace.TraceStep | elliptec/elliptec_trace.py:578-618 | a failing popped line raises the error Classify gives it; a pass that popped nothing, or an own line of another tag, goes on to the poll (PollStep, remembering that line); a pass that keeps waiting remembers the line it popped, or the previous reply when it popped none; a status failure never reports OK or BUSY |
| ElliptecTrace.TraceStepDecides | elliptec/elliptec_trace.py:578-618 | a pass stops exactly on a deciding event and succeeds exactly on a completing one |
| ElliptecTrace.TraceWaitSucceedsIff | elliptec/elliptec_trace.py:563-620 | the wait succeeds iff some pass completes it (own OK or PO line, or an ignored-tag line or silence followed by a poll answered OK) before any pass decides it otherwise |
| ElliptecTrace.TraceTimeoutCarriesLastLine | elliptec/elliptec_trace.py:575-620 | a wait that no pass decides times out carrying the last line popped, or the initial reply when none was |
| ElliptecTrace.PollErrorSwallowed | elliptec/elliptec_trace.py:608-612 | a poll that times out or gets an undecodable reply does not end the wait |
| ElliptecTrace.TraceWaitFailsOnlyOnFaultStatus | elliptec/elliptec_trace.py:589-617 | a device-status failure of the wait never reports OK or BUSY |
| ElliptecTrace.UndefinedCodeFailsWait | elliptec/elliptec_trace.py:589-594 | an own status line with an undefined code fails the wait with UNKNOWN |
| ElliptecTrace.PollOver | elliptec/elliptec_trace.py:605-609 | a due poll writes exactly one status query and observes a reply that is an own GS line, or none; a poll not due writes nothing |
| ElliptecTrace.PassOver | elliptec/elliptec_trace.py:578-609 | a pass pops the front line iff one arrived before its pop timeout; it polls, writing one status query, iff the poll is due and no popped line was skipped or ended the pass first; the queue stays within capacity |
| ElliptecTrace.WaitRun | elliptec/elliptec_trace.py:563-620 | the wait over the queue keeps it within capacity and writes only status queries, at most one per pass |
| ElliptecTrace.WaitRunObserved | elliptec/elliptec_trace.py:563-620 | the wait over the queue ends as the event-level wait over the events its passes observed, and writes one status query per observed poll |
| ElliptecTrace.QueuedOkCompletesWait | elliptec/elliptec_trace.py:547-549 | since home and move do not flush, an own OK status still queued from before completes the wait at its first pass, consuming only that line |
| ElliptecTrace.TraceDevice.constructor | elliptec/elliptec_trace.py:210-215 | a new session has an empty queue and has written nothing |
| ElliptecTrace.TraceDevice.Deliver | elliptec/elliptec_trace.py:378-380 | the reader queues one line with eviction; nothing else changes |
| ElliptecTrace.TraceDevice.FlushRx | elliptec/elliptec_trace.py:347-349 | the queue is left empty; nothing else changes |
| ElliptecTrace.TraceDevice.SendRaw | elliptec/elliptec_trace.py:385-398 | exactly the frame is appended to what was written; the queue is unchanged |
| ElliptecTrace.TraceDevice.PopRxLine | elliptec/elliptec_trace.py:400-411 | returns and removes exactly the front line if it arrived before the deadline, else returns None and leaves the queue unchanged |
| ElliptecTrace.TraceDevice.Receive | elliptec/elliptec_trace.py:359-383 | the reader queues each arrival in turn |
| ElliptecTrace.TraceDevice.AwaitReply | elliptec/elliptec_trace.py:433-449 | the correlation loop's reply and remaining queue are those of the correlator |
| ElliptecTrace.TraceDevice.SendAndWaitOne | elliptec/elliptec_trace.py:413-449 | optionally clears the queue, writes the frame, then the reply and the queue left are the correlator's over the queued lines |
| ElliptecTrace.TraceDevice.GetStatus | elliptec/elliptec_trace.py:496-506 | writes the status query; the result is the decoded correlated GS reply within the given timeout, or NoReply; the queue is what correlation left |
| ElliptecTrace.TraceDevice.GetSpeed | elliptec/elliptec_trace.py:508-518 | writes the velocity query; the result is the decoded GV reply correlated within the given timeout, or NoReply; the queue is what correlation left |
| ElliptecTrace.TraceDevice.SetSpeed | elliptec/elliptec_trace.py:520-537 | an invalid percent writes nothing; otherwise writes the set frame and succeeds iff the GS reply correlated within the given timeout reports OK; no reply or an undecodable one fails as `get_status` would, and a decoded non-OK status fails carrying that status and reply |
| ElliptecTrace.TraceDevice.WaitUntilDone | elliptec/elliptec_trace.py:563-620 | the loop's result, the queue it leaves and the status queries it writes are those of the wait over the queue |
| ElliptecTrace.TraceDevice.WaitPass | elliptec/elliptec_trace.py:578-618 | one pass queues the arrivals, pops a line and polls when due; its step, the queue and the frames written are those of the pass over the queue |
| ElliptecTrace.TraceDevice.PollIfDue | elliptec/elliptec_trace.py:605-609 | a due poll writes the status query and correlates its reply against the queue with the 0.6 s timeout; otherwise nothing changes |
| ElliptecTrace.TraceDevice.Home | elliptec/elliptec_trace.py:539-549 | writes the home frame without flushing, then the wait's status queries; the queue and the result are the wait's |
| ElliptecTrace.TraceDevice.Move | elliptec/elliptec_trace.py:551-559 | writes the move frame without flushing, then the wait's status queries; the queue and the result are the wait's |
| ElliptecTrace.TraceDevice.Probe | elliptec/elliptec_trace.py:462-475 | one probe clears the queue, writes one status query, keeps the address iff its correlated reply decodes, and leaves exactly the lines its correlation did not consume |
| ElliptecTrace.TraceDevice.Scan | elliptec/elliptec_trace.py:459-475 | the probe loop finds exactly the addresses whose probe was accepted, writing one status query each; the queue is unchanged for an empty range, else what the last probe left |
| ElliptecTrace.TraceDevice.FindAddresses | elliptec/elliptec_trace.py:453-476 | a bad range fails with nothing written and the queue untouched; otherwise the accepted addresses of the range, in order, with the probe frames and the last probe's leftover queue |
| ElliptecTrace.TraceDevice.Bind | elliptec/elliptec_trace.py:220-235 | both bounds are normalised even with an explicit address; a bad bound or an explicit address writes nothing and leaves the queue; a scanned range gives NoDevice, MultipleDevices(found) or the single responder, with the probe frames and the last probe's leftover queue; an inverted range fails with InvalidRange of the normalised bounds |
| SpeedSerial.UpperAscii | elliptec/elliptec_speed_serial.py:68 | upper-casing maps every character and keeps the length |
| SpeedSerial.UpperAsciiIdempotent | elliptec/elliptec_speed_serial.py:102 | upper-casing an upper-cased address changes nothing |
| SpeedSerial.FindAddresses | elliptec/elliptec_speed_serial.py:49-61 | after a parser reset, the characters of `addresses` whose probe got a well-formed GS reply, in that order |
| SpeedSerial.SpeedQuery | elliptec/elliptec_speed_serial.py:72 | the velocity query is the address followed by "gv" |
| SpeedSerial.GetSpeed | elliptec/elliptec_speed_serial.py:64-77 | no reply or an empty one is a timeout; succeeds iff the reply is >= 5 long, starts with the upper-cased address and "GV" and has hex digits; the value is below 256 |
| SpeedSerial.GetSpeedAgreesWithHelpers | elliptec/elliptec_speed_serial.py:75-77 | for a one-digit address this check decodes exactly like `_parse_velocity_reply` |
| SpeedSerial.LongAddressNeverAnswers | elliptec/elliptec_speed_serial.py:75 | an address that is not one character never matches a reply |
| SpeedSerial.SpeedReadBack | elliptec/elliptec_speed_serial.py:64-77 | a GV reply carrying p as two hex digits reads back as p |
| SpeedSerial.SpeedFrame | elliptec/elliptec_speed_serial.py:102-103 | the frame is the address, "sv" and two upper-case hex digits whose value is the percent |
| SpeedSerial.SpeedFrameExamples | elliptec/elliptec_speed_serial.py:7-11 | 50% is 0sv32, 70% is 0sv46, 100% is 0sv64 |
| SpeedSerial.SpeedFrameMatchesWire | elliptec/elliptec_speed_serial.py:103 | for a one-digit address the frame equals the set-velocity frame of the other copies |
| SpeedSerial.Acknowledge | elliptec/elliptec_speed_serial.py:109-117 | no or an empty reply is a timeout; a reply shorter than 5, for another address or not GS is unexpected; non-hex code digits are malformed; a nonzero code fails with that code and the reply; succeeds iff the code is 0 |
| SpeedSerial.Target | elliptec/elliptec_speed_serial.py:94-100 | an explicit address is used; otherwise the whole bus is scanned and resolution succeeds iff exactly one device answers |
| SpeedSerial.ResolveTarget | elliptec/elliptec_speed_serial.py:94-100 | the address step resolves as above, writing the scan only when no address is given |
| SpeedSerial.SetSpeed | elliptec/elliptec_speed_serial.py:80-119 | an invalid percent is refused with nothing written; a failed resolution or acknowledgement fails; otherwise the result is the read-back speed with `verify`, else the percent |
| SpeedSerial.SetSpeedReadsBack | elliptec/elliptec_speed_serial.py:109-119 | an acknowledged frame followed by a matching GV reply returns the requested percent |

## Left out

- Serial I/O:
  - opening and closing the port;
  - `readline` / `read_until`, `write` / `flush` and `reset_input_buffer`.
  - Replies are inputs, and written frames are an output log. Clearing the OS input buffer has no counterpart, because replies are already given per exchange.
- Threads: the reader thread, its condition variable and its stop event in `elliptec_trace.py`.
  - Arrivals are queued before correlation starts, so eviction interleaved with correlation is not modelled.
  - `listen` and `close` are left out.
- Clocks and sleeps: monotonic time, `settle_s` and the 0.1 s post-write sleep.
  - Time is integer milliseconds, and the 1e-3 s freshness slack is one tick.
  - The trace wait's 0.15 s poll interval and 0.05 s pop timeout are abstracted into its passes: each pass gives the tick by which its pop gives up and whether a poll is due. The model does not check that these ticks follow the interval.
- Tracing and logging: `_trace_event`, `_make_logger`, `_ts_iso`, `_hexdump`. These are formatting and I/O only.
- `isinstance` / `TypeError` checks: Dafny's types rule those inputs out.
- Python `int(s, 16)` also accepts a sign, surrounding whitespace, underscores and a `0x` prefix. The model parses plain hex digits only, so such replies fail as malformed here.
- Upper-casing covers ASCII letters only.
- `set_speed` in `elliptec_speed_serial.py` rounds its `percent` with `round()`. The model takes an integer percent.
- Error messages: each raise site is an `Error` constructor, without its text.
- `angle_to_counts` (floating point) is not part of this model, and neither are the ELL14 wrapper files, the .NET-backed device, `spm_002`, the configuration dataclasses and `test.py`.
