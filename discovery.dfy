/**
 * Address discovery by status probes and the binding policy applied to its
 * result. elliptec/elliptec.py and elliptec/elliptec_speed_serial.py accept a
 * probe with the same test; elliptec/elliptec_trace.py correlates through its
 * receive queue instead (see ElliptecTrace).
 */
module Discovery {
  import opened Results
  import opened Exceptions
  import opened Wire
  import opened Helpers

  /** A probe reply that is present and is a status line of the probed address. */
  predicate AnswersStatus(a: char, reply: Option<string>) {
    reply.Some? && OwnStatusLine(reply.value, a)
  }

  /** The addresses, in probe order, whose status probe got a well-formed status reply. */
  function Discovered(addrs: seq<char>, bus: Responder): (found: seq<char>)
    ensures |found| <= |addrs|
    ensures forall a :: a in found ==> a in addrs && AnswersStatus(a, bus(StatusQuery(a)))
  {
    if |addrs| == 0 then []
    else
      var a := addrs[|addrs| - 1];
      Discovered(addrs[..|addrs| - 1], bus) + (if AnswersStatus(a, bus(StatusQuery(a))) then [a] else [])
  }

  /** Every probed address that answers is found. */
  lemma {:induction false} DiscoveredComplete(addrs: seq<char>, bus: Responder, a: char)
    requires a in addrs && AnswersStatus(a, bus(StatusQuery(a)))
    ensures a in Discovered(addrs, bus)
  {
    var last := addrs[|addrs| - 1];
    if a != last {
      assert a in addrs[..|addrs| - 1];
      DiscoveredComplete(addrs[..|addrs| - 1], bus, a);
    }
  }

  predicate StrictlyAscending(s: seq<char>) {
    forall i, j :: 0 <= i < j < |s| ==> s[i] < s[j]
  }

  /** Probing in ascending order finds the addresses in ascending order. */
  lemma {:induction false} DiscoveredAscending(addrs: seq<char>, bus: Responder)
    requires StrictlyAscending(addrs)
    ensures StrictlyAscending(Discovered(addrs, bus))
  {
    if |addrs| > 0 {
      var init := addrs[..|addrs| - 1];
      var last := addrs[|addrs| - 1];
      DiscoveredAscending(init, bus);
      var prev := Discovered(init, bus);
      forall x | x in prev ensures x < last {
        var k :| 0 <= k < |init| && init[k] == x;
      }
      var found := Discovered(addrs, bus);
      forall i, j | 0 <= i < j < |found| ensures found[i] < found[j] {
        if j >= |prev| {
          assert found[i] == prev[i] && prev[i] in prev;
        }
      }
    }
  }

  /** The frames one scan writes: a status query per address, in order. */
  function ProbeFrames(addrs: seq<char>): (frames: seq<string>)
    ensures |frames| == |addrs|
    ensures forall i :: 0 <= i < |addrs| ==> frames[i] == StatusQuery(addrs[i])
  {
    if |addrs| == 0 then [] else ProbeFrames(addrs[..|addrs| - 1]) + [StatusQuery(addrs[|addrs| - 1])]
  }

  /** No device is an error, several are an error, exactly one is bound. */
  function BindingPolicy(found: seq<char>): (r: Result<char, Error>)
    ensures r.Success? <==> |found| == 1
    ensures r.Success? ==> r.value == found[0]
    ensures |found| == 0 ==> r == Failure(NoDevice)
    ensures |found| > 1 ==> r == Failure(MultipleDevices(found))
  {
    if |found| == 0 then Failure(NoDevice)
    else if |found| > 1 then Failure(MultipleDevices(found))
    else Success(found[0])
  }

  /** A scan in which exactly one address answers binds that address. */
  lemma {:induction false} SingleResponderIsBound(addrs: seq<char>, bus: Responder, a: char)
    requires StrictlyAscending(addrs)
    requires a in addrs && AnswersStatus(a, bus(StatusQuery(a)))
    requires forall b :: b in addrs && b != a ==> !AnswersStatus(b, bus(StatusQuery(b)))
    ensures Discovered(addrs, bus) == [a]
    ensures BindingPolicy(Discovered(addrs, bus)) == Success(a)
  {
    OnlyResponder(addrs, bus, a);
  }

  lemma {:induction false} OnlyResponder(addrs: seq<char>, bus: Responder, a: char)
    requires StrictlyAscending(addrs)
    requires AnswersStatus(a, bus(StatusQuery(a)))
    requires forall b :: b in addrs && b != a ==> !AnswersStatus(b, bus(StatusQuery(b)))
    ensures Discovered(addrs, bus) == if a in addrs then [a] else []
  {
    if |addrs| > 0 {
      var init, last := addrs[..|addrs| - 1], addrs[|addrs| - 1];
      assert addrs == init + [last];
      assert StrictlyAscending(init) by {
        forall i, j | 0 <= i < j < |init| ensures init[i] < init[j] {
          assert init[i] == addrs[i] && init[j] == addrs[j];
        }
      }
      assert forall b :: b in init && b != a ==> !AnswersStatus(b, bus(StatusQuery(b)));
      OnlyResponder(init, bus, a);
      var tail := if AnswersStatus(last, bus(StatusQuery(last))) then [last] else [];
      assert Discovered(addrs, bus) == Discovered(init, bus) + tail;
      if last == a {
        LastNotEarlier(addrs);
      } else {
        assert tail == [];
      }
    }
  }

  /** In a strictly ascending sequence the last element occurs nowhere before. */
  lemma LastNotEarlier(s: seq<char>)
    requires |s| > 0 && StrictlyAscending(s)
    ensures s[|s| - 1] !in s[..|s| - 1]
  {
    forall k | 0 <= k < |s| - 1 ensures s[k] != s[|s| - 1] {
      assert s[k] < s[|s| - 1];
    }
  }

  /** A scan in which two addresses answer is ambiguous. */
  lemma TwoRespondersAreAmbiguous(addrs: seq<char>, bus: Responder, a: char, b: char)
    requires a != b && a in addrs && b in addrs
    requires AnswersStatus(a, bus(StatusQuery(a))) && AnswersStatus(b, bus(StatusQuery(b)))
    ensures BindingPolicy(Discovered(addrs, bus)) == Failure(MultipleDevices(Discovered(addrs, bus)))
  {
    var found := Discovered(addrs, bus);
    DiscoveredComplete(addrs, bus, a);
    DiscoveredComplete(addrs, bus, b);
    var i :| 0 <= i < |found| && found[i] == a;
    var j :| 0 <= j < |found| && found[j] == b;
    assert i != j;
  }
}
