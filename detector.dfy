/**
 * The edge-triggered jump detector, `DataHandler` (mario.py:15-28).
 *
 * The handler remembers the y reading of the previous sample and presses
 * and releases the space bar exactly when y crosses the threshold 100
 * upwards: the previous reading existed and was below 100, the current one
 * is above 100. The keyboard controller is replaced by a trace of key
 * events; the class below is the object the source mutates, and the
 * functions after it describe what a whole stream of readings does.
 */
module Detector {
  import opened Wrappers

  /** The tilt threshold a jump must cross. */
  const Threshold := 100

  /** The one key the handler drives. */
  datatype Key = Space

  /** What the keyboard controller is asked to do. */
  datatype KeyEvent = Press(key: Key) | Release(key: Key)

  /** The fire rule: an upward crossing from the previous reading to `y`. */
  predicate Fires(prev: Option<int>, y: int) {
    prev.Some? && prev.value < Threshold && y > Threshold
  }

  /** The events one sample emits: a press and its release if it fired, nothing otherwise. */
  function KeyStroke(fired: bool): seq<KeyEvent> {
    if fired then [Press(Space), Release(Space)] else []
  }

  class DataHandler {
    /** The y reading of the most recent sample, absent before the first. */
    var prevY: Option<int>
    /** The key events sent to the keyboard so far, oldest first. */
    var events: seq<KeyEvent>

    constructor ()
      ensures prevY == None && events == []
    {
      prevY := None;
      events := [];
    }

    /**
     * Handles one decoded sample. Only `y` takes part in the decision; `x`
     * and `z` go to the log line alone.
     */
    method Observe(x: int, y: int, z: int) returns (fired: bool)
      modifies this
      ensures fired <==> old(prevY).Some? && old(prevY).value < Threshold && y > Threshold
      ensures prevY == Some(y)
      ensures events == old(events) + KeyStroke(fired)
    {
      fired := y > Threshold && prevY.Some? && prevY.value < Threshold;
      if fired {
        events := events + [Press(Space)];
        events := events + [Release(Space)];
      }
      prevY := Some(y);
    }
  }

  /** The decisions a handler whose previous reading is `prev` makes on the readings `ys`, in order. */
  function Decisions(prev: Option<int>, ys: seq<int>): (ds: seq<bool>)
    ensures |ds| == |ys|
    decreases |ys|
  {
    if ys == [] then [] else [Fires(prev, ys[0])] + Decisions(Some(ys[0]), ys[1..])
  }

  /** The previous reading a handler holds after the readings `ys`. */
  function After(prev: Option<int>, ys: seq<int>): (last: Option<int>) {
    if ys == [] then prev else Some(ys[|ys| - 1])
  }

  /** The key events emitted for the decisions `ds`. */
  function Trace(ds: seq<bool>): (t: seq<KeyEvent>) {
    if ds == [] then [] else Trace(ds[..|ds| - 1]) + KeyStroke(ds[|ds| - 1])
  }

  /** The positions at which the decisions `ds` fire. */
  function FireIndices(ds: seq<bool>): (fires: set<nat>) {
    set i: nat | i < |ds| && ds[i]
  }

  /** Reading `i` of `ys` is a strict upward crossing of the threshold from reading `i - 1`. */
  predicate CrossingAt(ys: seq<int>, i: nat) {
    0 < i < |ys| && ys[i - 1] < Threshold && ys[i] > Threshold
  }

  /** The positions of the strict upward crossings of the threshold in `ys`. */
  function CrossingIndices(ys: seq<int>): (crossings: set<nat>) {
    set i: nat | i < |ys| && CrossingAt(ys, i)
  }

  /** Decision `i` compares reading `i` with the one before it (with `prev` before the first). */
  lemma {:induction false} DecisionAt(prev: Option<int>, ys: seq<int>, i: nat)
    requires i < |ys|
    ensures Decisions(prev, ys)[i] == Fires(if i == 0 then prev else Some(ys[i - 1]), ys[i])
    decreases i
  {
    if i > 0 {
      DecisionAt(Some(ys[0]), ys[1..], i - 1);
    }
  }

  /** One more reading appends one more decision, taken against the last reading. */
  lemma DecisionsSnoc(prev: Option<int>, ys: seq<int>, y: int)
    ensures Decisions(prev, ys + [y]) == Decisions(prev, ys) + [Fires(After(prev, ys), y)]
  {
    var l, r := Decisions(prev, ys + [y]), Decisions(prev, ys) + [Fires(After(prev, ys), y)];
    forall i | 0 <= i < |ys| + 1
      ensures l[i] == r[i]
    {
      DecisionAt(prev, ys + [y], i);
      if i < |ys| {
        DecisionAt(prev, ys, i);
      }
    }
  }

  /** One more reading extends the trace by that reading's key stroke and becomes the previous reading. */
  lemma TraceSnoc(prev: Option<int>, ys: seq<int>, y: int)
    ensures Trace(Decisions(prev, ys + [y])) == Trace(Decisions(prev, ys)) + KeyStroke(Fires(After(prev, ys), y))
    ensures After(prev, ys + [y]) == Some(y)
  {
    DecisionsSnoc(prev, ys, y);
    var ds := Decisions(prev, ys + [y]);
    assert ds[..|ds| - 1] == Decisions(prev, ys);
  }

  /** A fresh handler fires exactly at the upward crossings of its readings. */
  lemma FiresAtCrossings(ys: seq<int>)
    ensures FireIndices(Decisions(None, ys)) == CrossingIndices(ys)
  {
    var ds := Decisions(None, ys);
    forall i: nat | i < |ys|
      ensures ds[i] <==> i in CrossingIndices(ys)
    {
      DecisionAt(None, ys, i);
    }
  }

  /** The first reading a fresh handler sees never fires. */
  lemma FirstNeverFires(ys: seq<int>)
    requires |ys| > 0
    ensures !Decisions(None, ys)[0]
  {
  }

  /** A reading equal to the threshold neither fires nor lets the next reading fire. */
  lemma ThresholdNeverFires(prev: Option<int>, ys: seq<int>, i: nat)
    requires i < |ys| && ys[i] == Threshold
    ensures !Decisions(prev, ys)[i]
    ensures i + 1 < |ys| ==> !Decisions(prev, ys)[i + 1]
  {
    DecisionAt(prev, ys, i);
    if i + 1 < |ys| {
      DecisionAt(prev, ys, i + 1);
    }
  }

  /** A firing reading is above the threshold, so the reading after it cannot fire. */
  lemma NoConsecutiveFires(prev: Option<int>, ys: seq<int>, i: nat)
    requires 0 < i < |ys|
    ensures !(Decisions(prev, ys)[i - 1] && Decisions(prev, ys)[i])
  {
    DecisionAt(prev, ys, i - 1);
    DecisionAt(prev, ys, i);
  }

  /** The trace alternates press and release of the space bar, one pair per fire. */
  lemma {:induction false} TraceShape(ds: seq<bool>)
    ensures |Trace(ds)| == 2 * |FireIndices(ds)|
    ensures forall k :: 0 <= k < |Trace(ds)| ==>
      Trace(ds)[k] == if k % 2 == 0 then Press(Space) else Release(Space)
  {
    if ds != [] {
      var n := |ds| - 1;
      TraceShape(ds[..n]);
      FireIndicesSnoc(ds);
    }
  }

  /** The press events in the trace are exactly as many as the fires, and so are the releases. */
  lemma {:induction false} TraceCounts(ds: seq<bool>)
    ensures multiset(Trace(ds))[Press(Space)] == |FireIndices(ds)|
    ensures multiset(Trace(ds))[Release(Space)] == |FireIndices(ds)|
  {
    if ds != [] {
      TraceCounts(ds[..|ds| - 1]);
      FireIndicesSnoc(ds);
    }
  }

  /** The fire positions of `ds` are those of its prefix, plus the last position if it fires. */
  lemma FireIndicesSnoc(ds: seq<bool>)
    requires ds != []
    ensures var n := |ds| - 1;
      FireIndices(ds) == FireIndices(ds[..n]) + (if ds[n] then {n} else {})
      && n !in FireIndices(ds[..n])
  {
  }

  /** The number of space presses a fresh handler sends is the number of upward crossings. */
  lemma PressesAreCrossings(ys: seq<int>)
    ensures multiset(Trace(Decisions(None, ys)))[Press(Space)] == |CrossingIndices(ys)|
  {
    TraceCounts(Decisions(None, ys));
    FiresAtCrossings(ys);
  }

  /** Worked streams: the boundary case, two separate jumps, and a sustained high reading. */
  lemma DecisionExamples()
    ensures Decisions(None, [50, 100, 101, 50, 150]) == [false, false, false, false, true]
    ensures Decisions(None, [0, 150, 0, 150]) == [false, true, false, true]
    ensures Decisions(None, [100, 100]) == [false, false]
    ensures Decisions(None, [50, 120, 120, 120]) == [false, true, false, false]
  {
  }
}
