/**
 * The path from a notification to the jump detector: `raw_handler`
 * (mario.py:32-35) decodes each payload and hands IMU samples to the
 * handler's `xyz`, and `main` (mario.py:74-76) builds one fresh handler for
 * the whole session, to which the Bluetooth stack delivers notifications in
 * arrival order while `read_data` waits (mario.py:51, mario.py:60-62).
 */
module Session {
  import opened Wrappers
  import opened Packet
  import opened Detector

  /**
   * One notification. The sample of an IMU packet goes to the handler; a
   * packet of another type, or one that does not decode, leaves the handler
   * exactly as it was.
   */
  method HandleNotification(h: DataHandler, data: seq<Byte>)
    returns (r: Result<Option<Sample>, DecodeError>, fired: bool)
    modifies h
    ensures r == Decode(data)
    ensures !(r.Success? && r.value.Some?) ==>
      !fired && h.prevY == old(h.prevY) && h.events == old(h.events)
    ensures r.Success? && r.value.Some? ==>
      && fired == Fires(old(h.prevY), r.value.value.y)
      && h.prevY == Some(r.value.value.y)
      && h.events == old(h.events) + KeyStroke(fired)
  {
    r := Decode(data);
    fired := false;
    if r.Success? && r.value.Some? {
      var s := r.value.value;
      fired := h.Observe(s.x, s.y, s.z);
    }
  }

  /** The sample readings of one payload: its y if it decodes to a sample, nothing otherwise. */
  function ReadingOf(data: seq<Byte>): (ys: seq<int>)
    ensures |ys| <= 1
  {
    match Decode(data)
    case Success(Some(s)) => [s.y]
    case _ => []
  }

  /** The y readings of the payloads that decode to samples, in arrival order. */
  function Readings(packets: seq<seq<Byte>>): (ys: seq<int>)
    ensures |ys| <= |packets|

  {
    if packets == [] then []
    else
      var n := |packets| - 1;
      Readings(packets[..n]) + ReadingOf(packets[n])
  }

  /** Every reading that reaches the handler is a signed 8-bit value. */
  lemma {:induction false} ReadingsAreInt8(packets: seq<seq<Byte>>)
    ensures forall k :: 0 <= k < |Readings(packets)| ==> IsInt8(Readings(packets)[k])
  {
    if packets != [] {
      var n := |packets| - 1;
      ReadingsAreInt8(packets[..n]);
    }
  }

  /** How many of the payloads raise in the decoder. */
  function Rejected(packets: seq<seq<Byte>>): (n: nat)
    ensures n <= |packets|
  {
    if packets == [] then 0
    else
      var n := |packets| - 1;
      Rejected(packets[..n]) + (if Decode(packets[n]).Failure? then 1 else 0)
  }

  /** Readings and rejections grow one payload at a time. */
  lemma ReadingsStep(packets: seq<seq<Byte>>, i: nat)
    requires i < |packets|
    ensures Readings(packets[..i + 1]) == Readings(packets[..i]) + ReadingOf(packets[i])
    ensures Rejected(packets[..i + 1]) == Rejected(packets[..i]) + (if Decode(packets[i]).Failure? then 1 else 0)
  {
    assert packets[..i + 1][..i] == packets[..i];
  }

  /**
   * One notification advances the handler's state as observing that
   * payload's reading would: from the state after readings `ys` to the state
   * after `ys + ReadingOf(data)`.
   */
  lemma DeliverStep(prev0: Option<int>, events0: seq<KeyEvent>, ys: seq<int>, data: seq<Byte>,
                    prev: Option<int>, events: seq<KeyEvent>,
                    prev': Option<int>, events': seq<KeyEvent>, fired: bool)
    requires prev == After(prev0, ys) && events == events0 + Trace(Decisions(prev0, ys))
    requires !(Decode(data).Success? && Decode(data).value.Some?) ==> prev' == prev && events' == events
    requires Decode(data).Success? && Decode(data).value.Some? ==>
      && fired == Fires(prev, Decode(data).value.value.y)
      && prev' == Some(Decode(data).value.value.y)
      && events' == events + KeyStroke(fired)
    ensures prev' == After(prev0, ys + ReadingOf(data))
    ensures events' == events0 + Trace(Decisions(prev0, ys + ReadingOf(data)))
  {
    if Decode(data).Success? && Decode(data).value.Some? {
      var y := Decode(data).value.value.y;
      assert ReadingOf(data) == [y];
      TraceSnoc(prev0, ys, y);
      assert events' == events0 + (Trace(Decisions(prev0, ys)) + KeyStroke(fired));
    } else {
      assert ys + ReadingOf(data) == ys;
    }
  }

  /** Every payload is a sample, a foreign packet or an error. */
  lemma {:induction false} ReadingsAndRejected(packets: seq<seq<Byte>>)
    ensures |Readings(packets)| + Rejected(packets) <= |packets|
    ensures (forall k :: 0 <= k < |packets| ==> packets[k] != [] && packets[k][0] == ImuTag)
      ==> |Readings(packets)| + Rejected(packets) == |packets|
  {
    if packets != [] {
      var n := |packets| - 1;
      assert forall k :: 0 <= k < n ==> packets[..n][k] == packets[k];
      ReadingsAndRejected(packets[..n]);
    }
  }

  /**
   * The notifications of one session, delivered to `h` in order. The
   * handler ends as if it had observed the decoded readings alone, and the
   * number of payloads the decoder rejected is returned.
   */
  method Deliver(h: DataHandler, packets: seq<seq<Byte>>) returns (rejected: nat)
    modifies h
    ensures rejected == Rejected(packets)
    ensures h.prevY == After(old(h.prevY), Readings(packets))
    ensures h.events == old(h.events) + Trace(Decisions(old(h.prevY), Readings(packets)))
  {
    ghost var prev0, events0 := h.prevY, h.events;
    ghost var ys: seq<int> := [];
    rejected := 0;
    for i := 0 to |packets|
      invariant ys == Readings(packets[..i]) && rejected == Rejected(packets[..i])
      invariant h.prevY == After(prev0, ys)
      invariant h.events == events0 + Trace(Decisions(prev0, ys))
    {
      ReadingsStep(packets, i);
      ghost var prev, events := h.prevY, h.events;
      var r, fired := HandleNotification(h, packets[i]);
      if r.Failure? {
        rejected := rejected + 1;
      }
      DeliverStep(prev0, events0, ys, packets[i], prev, events, h.prevY, h.events, fired);
      ys := ys + ReadingOf(packets[i]);
    }
    assert packets[..|packets|] == packets;
  }

  /**
   * A whole session on a fresh handler: the space bar is pressed and
   * released once per upward crossing of the readings, and never otherwise.
   */
  method RunSession(packets: seq<seq<Byte>>) returns (events: seq<KeyEvent>, rejected: nat)
    ensures rejected == Rejected(packets)
    ensures events == Trace(Decisions(None, Readings(packets)))
    ensures multiset(events)[Press(Space)] == |CrossingIndices(Readings(packets))|
    ensures multiset(events)[Release(Space)] == |CrossingIndices(Readings(packets))|
  {
    var h := new DataHandler();
    rejected := Deliver(h, packets);
    events := h.events;
    TraceCounts(Decisions(None, Readings(packets)));
    FiresAtCrossings(Readings(packets));
  }
}
