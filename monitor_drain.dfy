/**
  The monitor drain check (assert_no_more_monitor_events_with_timeout): read
  handshake events until the read times out, skip the handshake failures that
  are only transport noise, count the rest, and pass only if none was counted.
 */
module MonitorDrain {

  /** The ZMQ_EVENT_HANDSHAKE_FAILED_NO_DETAIL event of the library's monitor. */
  const HANDSHAKE_FAILED_NO_DETAIL: int := 0x0800
  /** Linux errno values of the three transport errors that are skipped. */
  const EPIPE: int := 32
  const ECONNABORTED: int := 103
  const ECONNRESET: int := 104
  /** What the event read returns when no event arrived before the timeout. */
  const NO_EVENT: int := -1

  /** One read from the monitor socket: the event and its error code. */
  datatype MonitorEvent = MonitorEvent(event: int, err: int)

  /** A handshake failure without detail caused by a broken pipe, a reset or an aborted connection. */
  predicate IsTransportNoise(e: MonitorEvent): (noise: bool)
    ensures noise <==> e.event == HANDSHAKE_FAILED_NO_DETAIL && e.err in {EPIPE, ECONNRESET, ECONNABORTED}
  {
    e.event == HANDSHAKE_FAILED_NO_DETAIL && (e.err == EPIPE || e.err == ECONNRESET || e.err == ECONNABORTED)
  }

  /** The events the loop consumes: the events read before the first timeout. */
  function Received(polled: seq<MonitorEvent>): (r: seq<MonitorEvent>)
    ensures |r| <= |polled| && r == polled[..|r|]
    ensures forall k :: 0 <= k < |r| ==> r[k].event != NO_EVENT
    ensures |r| < |polled| ==> polled[|r|].event == NO_EVENT
  {
    if polled == [] || polled[0].event == NO_EVENT then []
    else [polled[0]] + Received(polled[1..])
  }

  /** The received events that are not transport noise, in order. */
  function Unexpected(events: seq<MonitorEvent>): (r: seq<MonitorEvent>)
    ensures |r| <= |events|
    ensures forall k :: 0 <= k < |r| ==> !IsTransportNoise(r[k])
  {
    if events == [] then []
    else (if IsTransportNoise(events[0]) then [] else [events[0]]) + Unexpected(events[1..])
  }

  /** Counting one more event extends the unexpected list by that event unless it is noise. */
  lemma {:induction false} UnexpectedSnoc(events: seq<MonitorEvent>, e: MonitorEvent)
    ensures Unexpected(events + [e]) == Unexpected(events) + (if IsTransportNoise(e) then [] else [e])
  {
    if events == [] {
      assert events + [e] == [e];
    } else {
      assert (events + [e])[0] == events[0] && (events + [e])[1..] == events[1..] + [e];
      UnexpectedSnoc(events[1..], e);
    }
  }

  /** An event is unexpected exactly when it was received and is not noise. */
  lemma {:induction false} UnexpectedMembers(events: seq<MonitorEvent>, e: MonitorEvent)
    ensures e in Unexpected(events) <==> e in events && !IsTransportNoise(e)
  {
    if events != [] {
      UnexpectedMembers(events[1..], e);
      assert events == [events[0]] + events[1..];
    }
  }

  /** No event is unexpected exactly when every received event is noise. */
  lemma {:induction false} NoUnexpectedIff(events: seq<MonitorEvent>)
    ensures Unexpected(events) == [] <==> forall k :: 0 <= k < |events| ==> IsTransportNoise(events[k])
  {
    if events != [] {
      NoUnexpectedIff(events[1..]);
      assert forall k :: 1 <= k < |events| ==> events[k] == events[1..][k - 1];
    }
  }

  /** The received events are exactly the events read up to the first timeout. */
  lemma ReceivedUpTo(polled: seq<MonitorEvent>, n: nat)
    requires n <= |polled|
    requires forall k :: 0 <= k < n ==> polled[k].event != NO_EVENT
    requires n == |polled| || polled[n].event == NO_EVENT
    ensures Received(polled) == polled[..n]
  {
  }

  /**
    The drain loop: eventCount is the number of unexpected events among those
    received before the timeout, and the check passes exactly when every one
    of them was transport noise.
   */
  method Drain(polled: seq<MonitorEvent>) returns (eventCount: nat, passed: bool)
    ensures eventCount == |Unexpected(Received(polled))|
    ensures passed <==> eventCount == 0
    ensures passed <==> forall k :: 0 <= k < |Received(polled)| ==> IsTransportNoise(Received(polled)[k])
  {
    eventCount := 0;
    var i := 0;
    while i < |polled| && polled[i].event != NO_EVENT
      invariant 0 <= i <= |polled|
      invariant forall k :: 0 <= k < i ==> polled[k].event != NO_EVENT
      invariant eventCount == |Unexpected(polled[..i])|
    {
      var e := polled[i];
      UnexpectedSnoc(polled[..i], e);
      assert polled[..i + 1] == polled[..i] + [e];
      if IsTransportNoise(e) {
        i := i + 1;
        continue;
      }
      eventCount := eventCount + 1;
      i := i + 1;
    }
    ReceivedUpTo(polled, i);
    NoUnexpectedIff(Received(polled));
    passed := eventCount == 0;
  }
}
