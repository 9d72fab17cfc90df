/**
 * The frame codec of elliptec/base/helpers.py: address normalisation and
 * enumeration, payload encoders and reply decoders. The copies in
 * elliptec/elliptec.py and elliptec/elliptec_trace.py are the same code except
 * for what an unknown status code decodes to, which `Fallback` selects.
 */
module Helpers {
  import opened Results
  import opened Enums
  import opened Exceptions
  import opened Hex

  /** A normalised bus address: one upper-case hex digit. */
  type Address = c: char | IsUpperHexDigit(c) witness '0'

  /** `str.upper()` on one character (ASCII letters only). */
  function ToUpper(c: char): char {
    if 'a' <= c <= 'z' then (c as int - 32) as char else c
  }

  /** `_normalize_address`: a single hex digit of either case, returned upper case. */
  function NormalizeAddress(addr: string): (r: Result<Address, Error>)
    ensures r.Success? <==> |addr| == 1 && (addr[0] in Digits || addr[0] in "abcdef")
    ensures r.Success? ==> r.value == addr[0] || r.value as int == addr[0] as int - 32
    ensures r.Failure? ==> r.error == InvalidAddress(addr)
  {
    if |addr| != 1 then Failure(InvalidAddress(addr))
    else
      var a := ToUpper(addr[0]);
      UpperDigitsAreDigits(a);
      UpperDigitsAreDigits(addr[0]);
      if IsUpperHexDigit(a) then Success(a) else Failure(InvalidAddress(addr))
  }

  /** Normalisation ignores case: a lower-case digit and its upper-case form give the same address. */
  lemma NormalizeCaseInsensitive(c: char)
    requires 'a' <= c <= 'f'
    ensures NormalizeAddress([c]) == NormalizeAddress([(c as int - 32) as char])
    ensures NormalizeAddress([c]).Success?
  {
  }

  /** Normalisation is idempotent: a normalised address normalises to itself. */
  lemma NormalizeIdempotent(addr: string)
    requires NormalizeAddress(addr).Success?
    ensures NormalizeAddress([NormalizeAddress(addr).value]) == NormalizeAddress(addr)
  {
    var a := NormalizeAddress(addr).value;
    UpperDigitsAreDigits(a);
  }

  /** `int(a, 16)` of a normalised address. */
  function AddressValue(a: Address): (n: nat)
    ensures n < 16 && HexChar(n) == a
  {
    HexCharOfDigitValue(a);
    DigitValue(a)
  }

  /**
   * `_iter_addresses` / `_address_range`: the addresses from min to max
   * inclusive, each formatted with `X`, or the error either normalisation or
   * an inverted range raises.
   */
  function IterAddresses(minAddr: string, maxAddr: string): (r: Result<seq<Address>, Error>)
    ensures r.Success? <==>
      && NormalizeAddress(minAddr).Success? && NormalizeAddress(maxAddr).Success?
      && AddressValue(NormalizeAddress(minAddr).value) <= AddressValue(NormalizeAddress(maxAddr).value)
    ensures r.Success? ==>
      var lo, hi := AddressValue(NormalizeAddress(minAddr).value), AddressValue(NormalizeAddress(maxAddr).value);
      && |r.value| == hi - lo + 1
      && forall i :: 0 <= i < |r.value| ==> AddressValue(r.value[i]) == lo + i
    ensures NormalizeAddress(minAddr).Failure? ==> r == Failure(InvalidAddress(minAddr))
    ensures NormalizeAddress(minAddr).Success? && NormalizeAddress(maxAddr).Failure? ==> r == Failure(InvalidAddress(maxAddr))
    ensures NormalizeAddress(minAddr).Success? && NormalizeAddress(maxAddr).Success?
      && AddressValue(NormalizeAddress(minAddr).value) > AddressValue(NormalizeAddress(maxAddr).value)
      ==> r == Failure(InvalidRange(minAddr, maxAddr))
  {
    var mn :- NormalizeAddress(minAddr);
    var mx :- NormalizeAddress(maxAddr);
    var lo, hi := AddressValue(mn), AddressValue(mx);
    if lo > hi then Failure(InvalidRange(minAddr, maxAddr))
    else Success(AddressesFrom(lo, hi - lo + 1))
  }

  /** The `count` consecutive addresses starting at value `lo`. */
  function AddressesFrom(lo: nat, count: nat): (s: seq<Address>)
    requires lo + count <= 16
    ensures |s| == count && forall i :: 0 <= i < count ==> AddressValue(s[i]) == lo + i
  {
    if count == 0 then [] else AddressesFrom(lo, count - 1) + [HexChar(lo + count - 1)]
  }

  /** The enumeration is strictly ascending and begins and ends at the two bounds. */
  lemma IterAddressesAscending(minAddr: string, maxAddr: string)
    requires IterAddresses(minAddr, maxAddr).Success?
    ensures var s := IterAddresses(minAddr, maxAddr).value;
      && s[0] == NormalizeAddress(minAddr).value
      && s[|s| - 1] == NormalizeAddress(maxAddr).value
      && forall i, j :: 0 <= i < j < |s| ==> s[i] < s[j]
  {
    var s := IterAddresses(minAddr, maxAddr).value;
    forall i, j | 0 <= i < j < |s| ensures s[i] < s[j] {
      assert AddressValue(s[i]) < AddressValue(s[j]);
    }
  }

  /** `_encode_u8_percent` / `_percent_to_hex_byte`: two upper-case hex digits for 0..100. */
  function EncodeU8Percent(percent: int): (r: Result<string, Error>)
    ensures r.Success? <==> 0 <= percent <= 100
    ensures r.Failure? ==> r.error == InvalidPercent(percent)
    ensures r.Success? ==>
      |r.value| == 2 && IsUpperHex(r.value) && IsHexString(r.value) && HexValue(r.value) == percent
  {
    if 0 <= percent <= 100 then
      ToHexValue(percent, 2);
      Pow16Of8();
      Success(ToHex(percent, 2))
    else Failure(InvalidPercent(percent))
  }

  /** The examples of the protocol notes: 50% is "32", 70% is "46", 100% is "64". */
  lemma PercentExamples()
    ensures EncodeU8Percent(0) == Success("00") && EncodeU8Percent(50) == Success("32")
    ensures EncodeU8Percent(70) == Success("46") && EncodeU8Percent(100) == Success("64")
    ensures EncodeU8Percent(-1).Failure? && EncodeU8Percent(101).Failure?
  {
    assert ToHex(0, 2) == ToHex(0, 1) + ['0'] == "00";
    assert ToHex(50, 2) == ToHex(3, 1) + ['2'] == "32";
    assert ToHex(70, 2) == ToHex(4, 1) + ['6'] == "46";
    assert ToHex(100, 2) == ToHex(6, 1) + ['4'] == "64";
  }

  /** `_encode_long32`: eight upper-case hex digits of the value modulo 2^32, for any integer. */
  function EncodeLong32(value: int): (s: string)
    ensures |s| == 8 && IsUpperHex(s) && IsHexString(s)
    ensures HexValue(s) == value % TwoPow32
  {
    var raw := value % TwoPow32;
    ToHexValue(raw, 8);
    Pow16Of8();
    ToHex(raw, 8)
  }

  /** Every 32-bit signed value is recovered from its residue modulo 2^32. */
  lemma Signed32OfResidue(v: int)
    requires -TwoPow31 <= v < TwoPow31
    ensures 0 <= v % TwoPow32 < TwoPow32 && ToSigned32(v % TwoPow32) == v
  {
    if v >= 0 {
      ModOfSum(v, TwoPow32, 0, v);
    } else {
      ModOfSum(v + TwoPow32, TwoPow32, 0, v + TwoPow32);
      assert (v + TwoPow32) % TwoPow32 == v % TwoPow32;
    }
  }

  /** Reading a 32-bit field as two's complement: bit 31 set means negative. */
  function ToSigned32(raw: nat): (v: int)
    requires raw < TwoPow32
    ensures -TwoPow31 <= v < TwoPow31
    ensures v < 0 <==> raw >= TwoPow31
    ensures v % TwoPow32 == raw
  {
    if raw >= TwoPow31 then raw - TwoPow32 else raw
  }

  /** Python's `s[i:j]`, which clamps both bounds to the string. */
  function Slice(s: string, i: nat, j: nat): (r: string)
    requires i <= j
    ensures j <= |s| ==> r == s[i..j]
    ensures i < |s| < j ==> r == s[i..]
    ensures |s| <= i ==> r == []
  {
    if |s| <= i then [] else if |s| <= j then s[i..] else s[i..j]
  }

  /** What a well-formed but undefined status code decodes to, copy by copy. */
  datatype Fallback =
    | CommandErrorFallback   // elliptec/base/helpers.py
    | BusyIfNineFallback     // elliptec/elliptec.py
    | UnknownFallback        // elliptec/elliptec_trace.py

  /** `StatusCode(code)`, or the copy's fallback when the code is not defined. */
  function StatusFromCode(code: nat, fallback: Fallback): (s: StatusCode)
    ensures code <= 13 ==> s.Code() == code
    ensures code > 13 ==> s == (if fallback == UnknownFallback then Unknown else CommandErrorOrNotSupported)
  {
    match FromCode(code)
    case Some(s) => s
    case None =>
      match fallback
      case CommandErrorFallback => CommandErrorOrNotSupported
      case BusyIfNineFallback => if code == 9 then Busy else CommandErrorOrNotSupported
      case UnknownFallback => Unknown
  }

  /** The `code == 9` branch of elliptec.py is dead: that copy decodes exactly like helpers.py. */
  lemma BusyIfNineIsCommandError(code: nat)
    ensures StatusFromCode(code, BusyIfNineFallback) == StatusFromCode(code, CommandErrorFallback)
  {
  }

  /** The header test shared by all three decoders. */
  predicate HasHeader(reply: string, address: char, tag: ReplyCommand, minLen: nat)
    requires minLen >= 3
  {
    |reply| >= minLen && reply[0] == address && reply[1..3] == tag.Tag()
  }

  /** An own-address line long enough to carry a status code, tagged GS. */
  predicate OwnStatusLine(line: string, address: char) {
    HasHeader(line, address, Status, 5)
  }

  /** `_parse_status_reply`. */
  function ParseStatusReply(reply: string, address: char, fallback: Fallback): (r: Result<StatusCode, Error>)
    ensures r.Success? <==> |reply| >= 5 && reply[0] == address && reply[1..3] == "GS" && IsHexString(reply[3..5])
    ensures r.Success? ==> var code := HexValue(reply[3..5]);
      && (code <= 13 ==> r.value.Code() == code)
      && (code > 13 ==> r.value == (if fallback == UnknownFallback then Unknown else CommandErrorOrNotSupported))
    ensures r.Failure? ==> r.error == UnexpectedReply(reply) || r.error == MalformedReply(reply)
    ensures fallback != UnknownFallback && r.Success? ==> r.value != Unknown
  {
    if !HasHeader(reply, address, Status, 5) then Failure(UnexpectedReply(reply))
    else
      match ParseHex(reply[3..5])
      case None => Failure(MalformedReply(reply))
      case Some(code) => Success(StatusFromCode(code, fallback))
  }

  /** `_parse_velocity_reply`: the two hex digits after "GV", not range checked. */
  function ParseVelocityReply(reply: string, address: char): (r: Result<nat, Error>)
    ensures r.Success? <==> |reply| >= 5 && reply[0] == address && reply[1..3] == "GV" && IsHexString(reply[3..5])
    ensures r.Success? ==> r.value == HexValue(reply[3..5]) && r.value < 256
    ensures r.Failure? ==> r.error == UnexpectedReply(reply) || r.error == MalformedReply(reply)
  {
    if !HasHeader(reply, address, Velocity, 5) then Failure(UnexpectedReply(reply))
    else
      Pow16Of8();
      match ParseHex(reply[3..5])
      case None => Failure(MalformedReply(reply))
      case Some(v) => Success(v)
  }

  /** `_parse_position_reply`: eight hex digits after "PO", read as a signed 32-bit count. */
  function ParsePositionReply(reply: string, address: char): (r: Result<int, Error>)
    ensures r.Success? <==> |reply| >= 11 && reply[0] == address && reply[1..3] == "PO" && IsHexString(reply[3..11])
    ensures r.Success? ==>
      && -TwoPow31 <= r.value < TwoPow31
      && r.value % TwoPow32 == HexValue(reply[3..11])
      && (r.value < 0 <==> HexValue(reply[3..11]) >= TwoPow31)
    ensures r.Failure? ==> r.error == UnexpectedReply(reply) || r.error == MalformedReply(reply)
  {
    if !HasHeader(reply, address, Position, 11) then Failure(UnexpectedReply(reply))
    else
      Pow16Of8();
      match ParseHex(reply[3..11])
      case None => Failure(MalformedReply(reply))
      case Some(raw) => Success(ToSigned32(raw))
  }

  /** A position reply carrying `_encode_long32(v)` decodes to v for every 32-bit v. */
  lemma PositionRoundTrip(a: Address, v: int)
    requires -TwoPow31 <= v < TwoPow31
    ensures ParsePositionReply([a] + "PO" + EncodeLong32(v), a) == Success(v)
  {
    var line := [a] + "PO" + EncodeLong32(v);
    assert line[3..11] == EncodeLong32(v);
    assert line[1..3] == "PO";
    Signed32OfResidue(v);
    assert ParseHex(line[3..11]) == Some(v % TwoPow32);
  }

  /** Any integer wraps: the decoded count is v modulo 2^32 read as two's complement. */
  lemma PositionWraps(a: Address, v: int)
    ensures ParsePositionReply([a] + "PO" + EncodeLong32(v), a) == Success(ToSigned32(v % TwoPow32))
  {
    var line := [a] + "PO" + EncodeLong32(v);
    assert line[3..11] == EncodeLong32(v);
    assert line[1..3] == "PO";
    assert ParseHex(line[3..11]) == Some(v % TwoPow32);
  }

  /** A velocity reply carrying `_encode_u8_percent(p)` decodes to p. */
  lemma VelocityRoundTrip(a: Address, p: int)
    requires 0 <= p <= 100
    ensures ParseVelocityReply([a] + "GV" + EncodeU8Percent(p).value, a) == Success(p)
  {
    var line := [a] + "GV" + EncodeU8Percent(p).value;
    assert line[3..5] == EncodeU8Percent(p).value;
    assert line[1..3] == "GV";
  }

  /** A status reply carrying a defined code decodes to that code, whatever the fallback. */
  lemma StatusRoundTrip(a: Address, s: StatusCode, fallback: Fallback)
    requires s != Unknown
    ensures ParseStatusReply([a] + "GS" + ToHex(s.Code(), 2), a, fallback) == Success(s)
  {
    var code := s.Code();
    var line := [a] + "GS" + ToHex(code, 2);
    assert line[3..5] == ToHex(code, 2);
    assert HasHeader(line, a, Status, 5);
    Pow16Of8();
    ParseToHex(code, 2);
    assert ParseStatusReply(line, a, fallback) == Success(StatusFromCode(code, fallback));
    CodesDistinct(s, s);
  }

  /** A well-formed status reply never fails to decode, even for codes the table does not define. */
  lemma UnknownStatusNeverFails(a: Address, code: nat, fallback: Fallback)
    requires 13 < code < 256
    ensures ParseStatusReply([a] + "GS" + ToHex(code, 2), a, fallback)
      == Success(if fallback == UnknownFallback then Unknown else CommandErrorOrNotSupported)
  {
    var line := [a] + "GS" + ToHex(code, 2);
    assert line[3..5] == ToHex(code, 2);
    assert HasHeader(line, a, Status, 5);
    Pow16Of8();
    ParseToHex(code, 2);
  }
}
