/** The line as the RMT receiver captures it.

    The receiver does not report slots: it reports runs. Each maximal stretch
    of equal level on the line becomes one segment, its duration the length
    of the stretch. A capture ends once the line has stayed idle (high) for
    the idle threshold `10 * bit_len`. The last run, the stop bit of the last
    frame together with the high data bits before it and the idle line after
    it, is then reported either with an end-marker duration of 0 or with a
    duration at least as long as the run. `fill_bits` rounds every run to its
    number of slots, and fills the rest of the frame with high slots on a
    zero duration. */
module Capture {
  import opened Bits
  import opened RmtItems
  import opened Encoder
  import opened Decoder
  import opened Loopback

  /** The slot levels of the frame of b. */
  function FrameLevels(b: byte): (levels: seq<Level>)
    ensures |levels| == FrameSlots && levels[0] == 0 && levels[FrameSlots - 1] == 1
  {
    seq(FrameSlots, s requires 0 <= s < FrameSlots => FrameBit(b, s))
  }

  /** The slot levels the line carries for a buffer: its frames back to back. */
  function LineSlots(data: seq<byte>): (levels: seq<Level>)
    ensures |levels| == FrameSlots * |data|
    ensures data != [] ==> levels[0] == 0 && levels[|levels| - 1] == 1
  {
    if data == [] then []
    else LineSlots(data[..|data| - 1]) + FrameLevels(data[|data| - 1])
  }

  /** One segment of one bit period per slot. */
  function Slots(bitLen: nat, levels: seq<Level>): (segs: seq<Segment>)
    ensures |segs| == |levels|
  {
    seq(|levels|, i requires 0 <= i < |levels| => Segment(bitLen, levels[i]))
  }

  /** The transmitter drives one bit period per slot of the buffer's frames. */
  lemma {:induction false} LineSlotsOfEncode(bitLen: nat, data: seq<byte>)
    ensures Segments(LineLevels(Encode(bitLen, data))) == Slots(bitLen, LineSlots(data))
  {
    if data != [] {
      var init, b := data[..|data| - 1], data[|data| - 1];
      LineSlotsOfEncode(bitLen, init);
      LineLevelsAppend(Encode(bitLen, init), EncodeByte(bitLen, b));
      SegmentsAppend(LineLevels(Encode(bitLen, init)), LineLevels(EncodeByte(bitLen, b)));
      LineFrame(bitLen, b);
      FrameSlotSegments(bitLen, b);
      SlotsAppend(bitLen, LineSlots(init), FrameLevels(b));
      assert Encode(bitLen, data) == Encode(bitLen, init) + EncodeByte(bitLen, b);
    }
  }

  lemma FrameSlotSegments(bitLen: nat, b: byte)
    ensures FrameSegments(bitLen, b) == Slots(bitLen, FrameLevels(b))
  {
  }

  lemma SlotsAppend(bitLen: nat, a: seq<Level>, b: seq<Level>)
    ensures Slots(bitLen, a + b) == Slots(bitLen, a) + Slots(bitLen, b)
  {
    assert forall i :: 0 <= i < |a| + |b| ==> Slots(bitLen, a + b)[i] == (Slots(bitLen, a) + Slots(bitLen, b))[i];
  }

  /** The end of the run of equal levels that starts at slot i. */
  function RunEnd(levels: seq<Level>, i: nat): (j: nat)
    requires i < |levels|
    ensures i < j <= |levels|
    decreases |levels| - i
  {
    if i + 1 == |levels| || levels[i + 1] != levels[i] then i + 1 else RunEnd(levels, i + 1)
  }

  /** The run is the longest stretch of the level of slot i. */
  lemma {:induction false} RunEndRun(levels: seq<Level>, i: nat)
    requires i < |levels|
    ensures forall k :: i <= k < RunEnd(levels, i) ==> levels[k] == levels[i]
    ensures RunEnd(levels, i) < |levels| ==> levels[RunEnd(levels, i)] != levels[i]
    decreases |levels| - i
  {
    if i + 1 < |levels| && levels[i + 1] == levels[i] {
      RunEndRun(levels, i + 1);
    }
  }

  /** The duration of c bit periods. */
  function Periods(c: nat, bitLen: nat): nat
  {
    c * bitLen
  }

  /** What the receiver captures from slot i on of a line at the given slot
      levels, one bit period per slot: one segment per maximal run of equal
      level, lasting as many bit periods as the run has slots. */
  function RunsFrom(bitLen: nat, levels: seq<Level>, i: nat): (segs: seq<Segment>)
    requires i <= |levels|
    decreases |levels| - i
  {
    if i == |levels| then []
    else
      var j := RunEnd(levels, i);
      [Segment(Periods(j - i, bitLen), levels[i])] + RunsFrom(bitLen, levels, j)
  }

  /** The runs of a whole line. */
  function Runs(bitLen: nat, levels: seq<Level>): seq<Segment>
  {
    RunsFrom(bitLen, levels, 0)
  }

  /** The levels a sequence of segments holds, each segment counted in
      slots the way the decoder counts them, by `round_closest`. */
  function Expand(bitLen: nat, segs: seq<Segment>): seq<Level>
    requires bitLen > 0
  {
    if segs == [] then []
    else seq(RoundClosest(segs[0].duration, bitLen), _ => segs[0].level) + Expand(bitLen, segs[1..])
  }

  /** The runs lose nothing: counted in slots again, they give back the
      slots. */
  lemma {:induction false} ExpandRuns(bitLen: nat, levels: seq<Level>, i: nat)
    requires bitLen > 0 && i <= |levels|
    ensures Expand(bitLen, RunsFrom(bitLen, levels, i)) == levels[i..]
    decreases |levels| - i
  {
    if i < |levels| {
      var j := RunEnd(levels, i);
      var segs := RunsFrom(bitLen, levels, i);
      assert segs[1..] == RunsFrom(bitLen, levels, j);
      ExpandRuns(bitLen, levels, j);
      RunEndRun(levels, i);
      RoundClosestExact(j - i, bitLen);
      assert seq(RoundClosest(segs[0].duration, bitLen), _ => segs[0].level) == levels[i..j];
      assert levels[i..] == levels[i..j] + levels[j..];
    }
  }

  /** Neighbouring segments differ in level. */
  predicate Alternating(segs: seq<Segment>)
  {
    forall k :: 0 <= k < |segs| - 1 ==> segs[k].level != segs[k + 1].level
  }

  /** The runs are maximal: neighbouring segments differ in level. */
  lemma {:induction false} RunsAlternate(bitLen: nat, levels: seq<Level>, i: nat)
    requires i <= |levels|
    ensures Alternating(RunsFrom(bitLen, levels, i))
    decreases |levels| - i
  {
    if i < |levels| {
      var j := RunEnd(levels, i);
      RunsAlternate(bitLen, levels, j);
      RunEndRun(levels, i);
      var rest := RunsFrom(bitLen, levels, j);
      var segs := [Segment(Periods(j - i, bitLen), levels[i])] + rest;
      assert RunsFrom(bitLen, levels, i) == segs;
      forall k | 0 <= k < |segs| - 1
        ensures segs[k].level != segs[k + 1].level
      {
        if k > 0 {
          assert segs[k] == rest[k - 1] && segs[k + 1] == rest[k];
        } else {
          assert rest[0].level == levels[j];
        }
      }
    }
  }

  lemma {:induction false} RunEndAppend(a: seq<Level>, b: seq<Level>, i: nat)
    requires i < |a| && b != [] && a[|a| - 1] != b[0]
    ensures RunEnd(a + b, i) == RunEnd(a, i)
    decreases |a| - i
  {
    if i + 1 < |a| && a[i + 1] == a[i] {
      RunEndAppend(a, b, i + 1);
    }
  }

  lemma {:induction false} RunEndShift(a: seq<Level>, b: seq<Level>, k: nat)
    requires k < |b|
    ensures RunEnd(a + b, |a| + k) == |a| + RunEnd(b, k)
    decreases |b| - k
  {
    if k + 1 < |b| && b[k + 1] == b[k] {
      RunEndShift(a, b, k + 1);
    }
  }

  /** The first run of the runs from slot i. */
  lemma RunsFromUnfold(bitLen: nat, levels: seq<Level>, i: nat)
    requires i < |levels|
    ensures var j := RunEnd(levels, i);
      RunsFrom(bitLen, levels, i) == [Segment(Periods(j - i, bitLen), levels[i])] + RunsFrom(bitLen, levels, j)
  {
  }

  lemma RunsShiftHead(bitLen: nat, a: seq<Level>, b: seq<Level>, k: nat)
    requires k < |b|
    ensures var j := RunEnd(b, k);
      RunsFrom(bitLen, a + b, |a| + k) == [Segment(Periods(j - k, bitLen), b[k])] + RunsFrom(bitLen, a + b, |a| + j)
  {
    RunEndShift(a, b, k);
    assert (a + b)[|a| + k] == b[k];
    RunsFromUnfold(bitLen, a + b, |a| + k);
  }

  lemma {:induction false} RunsFromShift(bitLen: nat, a: seq<Level>, b: seq<Level>, k: nat)
    requires k <= |b|
    ensures RunsFrom(bitLen, a + b, |a| + k) == RunsFrom(bitLen, b, k)
    decreases |b| - k
  {
    if k < |b| {
      RunsShiftHead(bitLen, a, b, k);
      RunsFromUnfold(bitLen, b, k);
      RunsFromShift(bitLen, a, b, RunEnd(b, k));
    }
  }

  /** The first run of a + b from inside a is the run of a there. */
  lemma RunsAppendHead(bitLen: nat, a: seq<Level>, b: seq<Level>, i: nat)
    requires i < |a| && b != [] && a[|a| - 1] != b[0]
    ensures var j := RunEnd(a, i);
      RunsFrom(bitLen, a + b, i) == [Segment(Periods(j - i, bitLen), a[i])] + RunsFrom(bitLen, a + b, j)
  {
    RunEndAppend(a, b, i);
    assert (a + b)[i] == a[i];
    RunsFromUnfold(bitLen, a + b, i);
  }

  /** A run never crosses a change of level, so the runs of two stretches
      that meet at a change of level are the runs of each. */
  lemma {:induction false} RunsAppend(bitLen: nat, a: seq<Level>, b: seq<Level>, i: nat)
    requires i <= |a| && a != [] && b != [] && a[|a| - 1] != b[0]
    ensures RunsFrom(bitLen, a + b, i) == RunsFrom(bitLen, a, i) + Runs(bitLen, b)
    decreases |a| - i
  {
    if i == |a| {
      RunsFromShift(bitLen, a, b, 0);
    } else {
      var j := RunEnd(a, i);
      RunsAppendHead(bitLen, a, b, i);
      RunsFromUnfold(bitLen, a, i);
      RunsAppend(bitLen, a, b, j);
      var head := [Segment(Periods(j - i, bitLen), a[i])];
      assert head + (RunsFrom(bitLen, a, j) + Runs(bitLen, b)) == (head + RunsFrom(bitLen, a, j)) + Runs(bitLen, b);
    }
  }

  /** The runs with the last one's duration replaced by what the receiver
      reports for it. */
  function WithTail(segs: seq<Segment>, tail: nat): (r: seq<Segment>)
    requires segs != []
    ensures |r| == |segs|
  {
    segs[..|segs| - 1] + [Segment(tail, segs[|segs| - 1].level)]
  }

  /** The capture of the frames of a buffer, the last run reported as `tail`. */
  function Captured(bitLen: nat, data: seq<byte>, tail: nat): seq<Segment>
    requires data != []
  {
    WithTail(Runs(bitLen, LineSlots(data)), tail)
  }

  /** Feeding one segment is filling it. */
  lemma FeedOne(s: RxState, bitLen: nat, x: Segment)
    requires bitLen > 0
    ensures Feed(s, bitLen, [x]) == Fill(s, bitLen, x)
  {
    assert [x][..0] == [];
    var q := Fill(s, bitLen, x);
    assert [] + q.out == q.out;
  }

  /** Feeding a segment in front of others. */
  lemma FeedCons(s: RxState, bitLen: nat, x: Segment, rest: seq<Segment>)
    requires bitLen > 0
    ensures var q := Fill(s, bitLen, x); var r := Feed(q.state, bitLen, rest);
      Feed(s, bitLen, [x] + rest) == Decoded(r.state, q.out + r.out)
  {
    FeedOne(s, bitLen, x);
    FeedAppend(s, bitLen, [x], rest);
  }

  /** Low slots from m on leave the low bits of v unchanged. */
  lemma {:induction false} LowBitsZeros(v: nat, m: nat, c: nat)
    requires forall i :: m <= i < m + c ==> Bit(v, i) == 0
    ensures LowBits(v, m + c) == LowBits(v, m)
  {
    if c > 0 {
      LowBitsZeros(v, m, c - 1);
      LowBitsStep(v, m + c - 1);
    }
  }

  /** ORing ones over high slots m up to m + c accumulates the low bits of v. */
  lemma {:induction false} LowBitsOnes(v: nat, m: nat, c: nat)
    requires m + c <= 16
    requires forall i :: m <= i < m + c ==> Bit(v, i) == 1
    ensures OrOnes(LowBits(v, m), m, m + c) == LowBits(v, m + c)
    decreases c
  {
    if c > 0 {
      AccumulateSlot(v, m);
      LowBitsOnes(v, m + 1, c - 1);
    }
  }

  /** A duration at least c bit periods rounds to at least c. */
  lemma RoundClosestAtLeast(d: nat, b: nat, c: nat)
    requires b > 0 && d >= c * b
    ensures RoundClosest(d, b) >= c
  {
    RoundClosestBounds(d, b);
    var q := RoundClosest(d, b);
    if q < c {
      MulMono(q + 1, c, b);
      assert false;
    }
  }

  /** One run of a frame, slots m up to m + c: from m slots holding the low
      bits of the frame value, it moves the decoder to m + c slots, or, when
      it reaches the stop slot, stores the byte. */
  lemma RunStep(bitLen: nat, b: byte, m: nat, c: nat, seg: Segment)
    requires bitLen > 0 && 1 <= c && m + c <= FrameSlots
    requires forall i :: m <= i < m + c ==> FrameBit(b, i) == seg.level
    requires m + c < FrameSlots ==> Span(bitLen, seg, m) == c
    requires m + c == FrameSlots ==> Span(bitLen, seg, m) >= c
    ensures var v := FrameValue(b);
      Fill(RxState(m, LowBits(v, m)), bitLen, seg) ==
      if m + c < FrameSlots then Decoded(RxState(m + c, LowBits(v, m + c)), [])
      else Decoded(RxState(0, 0), [b])
  {
    var v := FrameValue(b);
    FillClosedForm(RxState(m, LowBits(v, m)), bitLen, seg);
    forall i | m <= i < m + c
      ensures Bit(v, i) == seg.level
    {
      FrameValueBits(b, i);
    }
    FrameValueBits(b, 0);
    if seg.level == 0 {
      FrameValueBits(b, FrameSlots - 1);
      LowBitsZeros(v, m, c);
    } else {
      LowBitsOnes(v, m, c);
      if m + c == FrameSlots {
        LowBitsOfSmall(v, FrameSlots);
        ExtractFrameValue(b);
      }
    }
  }

  /** The slot levels of the frame of b, whatever their representation. */
  predicate IsFrame(levels: seq<Level>, b: byte)
  {
    |levels| == FrameSlots && forall i :: 0 <= i < FrameSlots ==> levels[i] == FrameBit(b, i)
  }

  /** The first run of a frame from slot m on holds one level. */
  lemma FrameRunLevel(levels: seq<Level>, b: byte, m: nat)
    requires IsFrame(levels, b) && m < FrameSlots
    ensures forall i :: m <= i < RunEnd(levels, m) ==> FrameBit(b, i) == FrameBit(b, m)
  {
    RunEndRun(levels, m);
    forall i | m <= i < RunEnd(levels, m)
      ensures FrameBit(b, i) == FrameBit(b, m)
    {
      assert levels[i] == levels[m];
    }
  }

  /** The runs of a frame from slot m on, when the first ends inside the
      frame: that run, then the runs after it, which end with the same run. */
  lemma FrameRunsInner(bitLen: nat, levels: seq<Level>, b: byte, m: nat, tail: nat)
    requires IsFrame(levels, b) && m < FrameSlots && RunEnd(levels, m) < FrameSlots
    ensures var j := RunEnd(levels, m);
      var r, rest := RunsFrom(bitLen, levels, m), RunsFrom(bitLen, levels, j);
      rest != [] && r[|r| - 1] == rest[|rest| - 1] &&
      WithTail(r, tail) == [Segment(Periods(j - m, bitLen), FrameBit(b, m))] + WithTail(rest, tail)
  {
    var j := RunEnd(levels, m);
    var seg, rest := Segment(Periods(j - m, bitLen), FrameBit(b, m)), RunsFrom(bitLen, levels, j);
    assert RunsFrom(bitLen, levels, m) == [seg] + rest;
    assert WithTail([seg] + rest, tail) == [seg] + WithTail(rest, tail);
  }

  /** The runs of a frame from slot m on, when the first reaches the stop
      bit: that run alone. */
  lemma FrameRunsLast(bitLen: nat, levels: seq<Level>, b: byte, m: nat, tail: nat)
    requires IsFrame(levels, b) && m < FrameSlots && RunEnd(levels, m) == FrameSlots
    ensures var r := RunsFrom(bitLen, levels, m);
      r == [Segment(Periods(FrameSlots - m, bitLen), FrameBit(b, m))] &&
      WithTail(r, tail) == [Segment(tail, FrameBit(b, m))]
  {
    assert RunsFrom(bitLen, levels, FrameSlots) == [];
  }

  /** A run that ends inside the frame, followed by what completes it. */
  lemma InnerRun(bitLen: nat, b: byte, m: nat, j: nat, rest: seq<Segment>)
    requires bitLen > 0 && m < j < FrameSlots
    requires forall i :: m <= i < j ==> FrameBit(b, i) == FrameBit(b, m)
    requires Feed(RxState(j, LowBits(FrameValue(b), j)), bitLen, rest) == Decoded(RxState(0, 0), [b])
    ensures Feed(RxState(m, LowBits(FrameValue(b), m)), bitLen, [Segment(Periods(j - m, bitLen), FrameBit(b, m))] + rest) ==
      Decoded(RxState(0, 0), [b])
  {
    var seg := Segment(Periods(j - m, bitLen), FrameBit(b, m));
    RoundClosestExact(j - m, bitLen);
    RunStep(bitLen, b, m, j - m, seg);
    FeedCons(RxState(m, LowBits(FrameValue(b), m)), bitLen, seg, rest);
    assert [] + [b] == [b];
  }

  /** The run that reaches the stop bit, reported with a zero duration or
      with one at least as long as the run. */
  lemma LastRun(bitLen: nat, b: byte, m: nat, tail: nat)
    requires bitLen > 0 && m < FrameSlots
    requires forall i :: m <= i < FrameSlots ==> FrameBit(b, i) == FrameBit(b, m)
    requires tail == 0 || tail >= Periods(FrameSlots - m, bitLen)
    ensures Feed(RxState(m, LowBits(FrameValue(b), m)), bitLen, [Segment(tail, FrameBit(b, m))]) ==
      Decoded(RxState(0, 0), [b])
  {
    var last := Segment(tail, FrameBit(b, m));
    assert FrameBit(b, FrameSlots - 1) == 1;
    if RoundClosest(tail, bitLen) != 0 {
      RoundClosestAtLeast(tail, bitLen, FrameSlots - m);
    }
    RunStep(bitLen, b, m, FrameSlots - m, last);
    FeedOne(RxState(m, LowBits(FrameValue(b), m)), bitLen, last);
  }

  /** FrameRunsFrom when the first run ends inside the frame, given what
      the runs after it do. */
  lemma FrameRunsFromInner(bitLen: nat, levels: seq<Level>, b: byte, m: nat, tail: nat)
    requires bitLen > 0 && IsFrame(levels, b) && m < FrameSlots
    requires RunEnd(levels, m) < FrameSlots
    requires var j := RunEnd(levels, m);
      Feed(RxState(j, LowBits(FrameValue(b), j)), bitLen, WithTail(RunsFrom(bitLen, levels, j), tail)) ==
      Decoded(RxState(0, 0), [b])
    ensures Feed(RxState(m, LowBits(FrameValue(b), m)), bitLen, WithTail(RunsFrom(bitLen, levels, m), tail)) ==
      Decoded(RxState(0, 0), [b])
  {
    var j := RunEnd(levels, m);
    FrameRunLevel(levels, b, m);
    FrameRunsInner(bitLen, levels, b, m, tail);
    InnerRun(bitLen, b, m, j, WithTail(RunsFrom(bitLen, levels, j), tail));
  }

  /** FrameRunsFrom when the first run reaches the stop bit. */
  lemma FrameRunsFromLast(bitLen: nat, levels: seq<Level>, b: byte, m: nat, tail: nat)
    requires bitLen > 0 && IsFrame(levels, b) && m < FrameSlots
    requires RunEnd(levels, m) == FrameSlots
    requires var r := RunsFrom(bitLen, levels, m); tail == 0 || tail >= r[|r| - 1].duration
    ensures Feed(RxState(m, LowBits(FrameValue(b), m)), bitLen, WithTail(RunsFrom(bitLen, levels, m), tail)) ==
      Decoded(RxState(0, 0), [b])
  {
    FrameRunLevel(levels, b, m);
    FrameRunsLast(bitLen, levels, b, m, tail);
    LastRun(bitLen, b, m, tail);
  }

  /** The runs of a frame from slot m on, fed to a decoder holding the first
      m slots, store the byte and end between frames, whatever the last run
      reports: a zero duration or one at least as long as the run. */
  lemma {:induction false} FrameRunsFrom(bitLen: nat, levels: seq<Level>, b: byte, m: nat, tail: nat)
    requires bitLen > 0 && IsFrame(levels, b) && m < FrameSlots
    requires var r := RunsFrom(bitLen, levels, m); tail == 0 || tail >= r[|r| - 1].duration
    ensures Feed(RxState(m, LowBits(FrameValue(b), m)), bitLen, WithTail(RunsFrom(bitLen, levels, m), tail)) ==
      Decoded(RxState(0, 0), [b])
    decreases FrameSlots - m
  {
    var j := RunEnd(levels, m);
    if j < FrameSlots {
      FrameRunsInner(bitLen, levels, b, m, tail);
      FrameRunsFrom(bitLen, levels, b, j, tail);
      FrameRunsFromInner(bitLen, levels, b, m, tail);
    } else {
      FrameRunsFromLast(bitLen, levels, b, m, tail);
    }
  }

  /** Replacing the last duration only touches the last stretch. */
  lemma WithTailAppend(a: seq<Segment>, b: seq<Segment>, tail: nat)
    requires b != []
    ensures WithTail(a + b, tail) == a + WithTail(b, tail)
  {
    assert (a + b)[..|a + b| - 1] == a + b[..|b| - 1];
  }

  /** The capture of a single frame. */
  lemma CaptureSingle(bitLen: nat, b: byte, tail: nat)
    ensures Runs(bitLen, LineSlots([b])) == RunsFrom(bitLen, FrameLevels(b), 0)
    ensures Captured(bitLen, [b], tail) == WithTail(RunsFrom(bitLen, FrameLevels(b), 0), tail)
  {
    assert [b][..0] == [];
    assert LineSlots([b]) == [] + FrameLevels(b) == FrameLevels(b);
  }

  /** The capture of several frames: the runs of all frames but the last,
      then the runs of the last frame, whose last run is the capture's. */
  lemma CaptureSplit(bitLen: nat, data: seq<byte>, tail: nat)
    requires |data| > 1
    ensures var init, b := data[..|data| - 1], data[|data| - 1];
      var r, rf := Runs(bitLen, LineSlots(data)), Runs(bitLen, FrameLevels(b));
      r != [] && rf != [] && r[|r| - 1] == rf[|rf| - 1] &&
      Captured(bitLen, data, tail) == Runs(bitLen, LineSlots(init)) + WithTail(rf, tail)
  {
    var init, b := data[..|data| - 1], data[|data| - 1];
    var a, frame := LineSlots(init), FrameLevels(b);
    RunsAppend(bitLen, a, frame, 0);
    var ra, rf := Runs(bitLen, a), Runs(bitLen, frame);
    assert rf == [Segment(Periods(RunEnd(frame, 0), bitLen), frame[0])] + RunsFrom(bitLen, frame, RunEnd(frame, 0));
    WithTailAppend(ra, rf, tail);
  }

  /** Round trip through the receiver's capture format: the frames of a
      buffer, captured as runs with the last run reported as a zero
      duration or as a duration at least as long as the run, decode to
      exactly the buffer and leave the decoder between frames. */
  lemma {:induction false} CaptureRoundTrip(bitLen: nat, data: seq<byte>, tail: nat)
    requires bitLen > 0 && data != []
    requires var r := Runs(bitLen, LineSlots(data)); tail == 0 || tail >= r[|r| - 1].duration
    ensures Feed(RxState(0, 0), bitLen, Captured(bitLen, data, tail)) == Decoded(RxState(0, 0), data)
  {
    var init, b := data[..|data| - 1], data[|data| - 1];
    var frame := FrameLevels(b);
    assert LowBits(FrameValue(b), 0) == 0;
    assert IsFrame(frame, b);
    if |data| == 1 {
      assert data == [b];
      CaptureSingle(bitLen, b, tail);
      FrameRunsFrom(bitLen, frame, b, 0, tail);
    } else {
      assert init + [b] == data;
      CaptureSplit(bitLen, data, tail);
      var ra, rf := Runs(bitLen, LineSlots(init)), Runs(bitLen, frame);
      assert WithTail(ra, ra[|ra| - 1].duration) == ra;
      CaptureRoundTrip(bitLen, init, ra[|ra| - 1].duration);
      FeedAppend(RxState(0, 0), bitLen, ra, WithTail(rf, tail));
      FrameRunsFrom(bitLen, frame, b, 0, tail);
    }
  }

  /** The idle threshold the receive channel is configured with: a level
      held this long ends the capture. */
  function IdleThreshold(bitLen: nat): nat
  {
    10 * bitLen
  }

  /** The last run of a frame starts after the start bit, so it is at most
      nine bit periods long. */
  lemma {:induction false} FrameLastRun(bitLen: nat, levels: seq<Level>, b: byte, m: nat)
    requires IsFrame(levels, b) && m < FrameSlots
    ensures var r := RunsFrom(bitLen, levels, m); r != [] && r[|r| - 1].duration <= Periods(FrameSlots - 1, bitLen)
    decreases FrameSlots - m
  {
    var j := RunEnd(levels, m);
    FrameRunLevel(levels, b, m);
    if j < FrameSlots {
      FrameRunsInner(bitLen, levels, b, m, 0);
      FrameLastRun(bitLen, levels, b, j);
    } else {
      FrameRunsLast(bitLen, levels, b, m, 0);
      assert FrameBit(b, 0) != FrameBit(b, FrameSlots - 1);
      MulMono(FrameSlots - m, FrameSlots - 1, bitLen);
    }
  }

  /** A capture that ends on the idle threshold, or with a zero duration,
      decodes to exactly the buffer sent. */
  lemma CaptureAtIdle(bitLen: nat, data: seq<byte>, tail: nat)
    requires bitLen > 0 && data != []
    requires tail == 0 || tail >= IdleThreshold(bitLen)
    ensures Feed(RxState(0, 0), bitLen, Captured(bitLen, data, tail)) == Decoded(RxState(0, 0), data)
  {
    var b := data[|data| - 1];
    var frame := FrameLevels(b);
    assert IsFrame(frame, b);
    FrameLastRun(bitLen, frame, b, 0);
    if |data| == 1 {
      assert data == [b];
      CaptureSingle(bitLen, b, tail);
    } else {
      CaptureSplit(bitLen, data, tail);
    }
    MulMono(FrameSlots - 1, 10, bitLen);
    CaptureRoundTrip(bitLen, data, tail);
  }

  /** How the receiver stores runs in its items: two per item, the last
      item of an odd count closed by an end marker of duration 0. */
  function Pack(segs: seq<Segment>, pad: Level): (items: seq<Item>)
    decreases |segs|
  {
    if segs == [] then []
    else if |segs| == 1 then [Item(segs[0].duration, segs[0].level, 0, pad)]
    else [Item(segs[0].duration, segs[0].level, segs[1].duration, segs[1].level)] + Pack(segs[2..], pad)
  }

  /** The end marker that closes n runs: present when n is odd. */
  function Marker(n: nat, pad: Level): seq<Segment>
  {
    if n == 0 then [] else if n == 1 then [Segment(0, pad)] else Marker(n - 2, pad)
  }

  lemma {:induction false} MarkerOdd(n: nat, pad: Level)
    ensures Marker(n, pad) == if n % 2 == 1 then [Segment(0, pad)] else []
  {
    if n >= 2 {
      MarkerOdd(n - 2, pad);
    }
  }

  /** Read back as segments, the packed items are the runs, then the end
      marker when there is one. */
  lemma {:induction false} PackSegments(segs: seq<Segment>, pad: Level)
    ensures Segments(Pack(segs, pad)) == segs + Marker(|segs|, pad)
    decreases |segs|
  {
    if segs == [] {
      assert Segments([]) == [];
    } else if |segs| == 1 {
      PackOne(segs, pad);
    } else {
      var rest := segs[2..];
      PackStep(segs, pad);
      PackSegments(rest, pad);
      SplitTwo(segs, Marker(|rest|, pad));
    }
  }

  /** A single run is closed by the end marker. */
  lemma PackOne(segs: seq<Segment>, pad: Level)
    requires |segs| == 1
    ensures Segments(Pack(segs, pad)) == segs + [Segment(0, pad)]
  {
    SegmentsSingle(Item(segs[0].duration, segs[0].level, 0, pad));
  }

  /** The first item of a packing holds the first two runs. */
  lemma PackStep(segs: seq<Segment>, pad: Level)
    requires |segs| >= 2
    ensures Segments(Pack(segs, pad)) == [segs[0], segs[1]] + Segments(Pack(segs[2..], pad))
  {
    var item := Item(segs[0].duration, segs[0].level, segs[1].duration, segs[1].level);
    var packed := Pack(segs[2..], pad);
    assert Pack(segs, pad) == [item] + packed;
    SegmentsAppend([item], packed);
    SegmentsSingle(item);
  }

  /** Splitting off the first two runs, followed by c. Stated apart so that
      `PackSegments` sees only this instance. */
  lemma SplitTwo(segs: seq<Segment>, c: seq<Segment>)
    requires |segs| >= 2
    ensures [segs[0], segs[1]] + (segs[2..] + c) == segs + c
  {
    assert [segs[0], segs[1]] + segs[2..] == segs;
  }

  /** An end marker between frames changes nothing, whatever its level. */
  lemma EndMarker(bitLen: nat, pad: Level)
    requires bitLen > 0
    ensures Fill(RxState(0, 0), bitLen, Segment(0, pad)) == Decoded(RxState(0, 0), [])
  {
    FillClosedForm(RxState(0, 0), bitLen, Segment(0, pad));
    assert RoundClosest(0, bitLen) == 0;
  }

  /** One read call over the items the receiver stores for a capture that
      ended on the idle threshold returns exactly the buffer sent. */
  lemma CaptureReadCall(bitLen: nat, data: seq<byte>, tail: nat, pad: Level)
    requires bitLen > 0 && data != []
    requires tail == 0 || tail >= IdleThreshold(bitLen)
    ensures ReadCall(0, bitLen, Pack(Captured(bitLen, data, tail), pad)) == Decoded(RxState(0, 0), data)
  {
    var segs := Captured(bitLen, data, tail);
    CaptureAtIdle(bitLen, data, tail);
    PackSegments(segs, pad);
    MarkerOdd(|segs|, pad);
    if |segs| % 2 == 1 {
      FeedSnoc(RxState(0, 0), bitLen, segs, Segment(0, pad));
      EndMarker(bitLen, pad);
      assert data + [] == data;
    } else {
      assert segs + [] == segs;
    }
  }

  /** The level of each segment. */
  function Levels(segs: seq<Segment>): (levels: seq<Level>)
    ensures |levels| == |segs|
  {
    seq(|segs|, i requires 0 <= i < |segs| => segs[i].level)
  }

  lemma LevelsOfSlots(bitLen: nat, levels: seq<Level>)
    ensures Levels(Slots(bitLen, levels)) == levels
  {
  }

  /** Writing a buffer and reading it back through the receiver's capture
      format: the line the transmitter drives is captured as runs, the last
      one ending on the idle threshold or reported as 0, packed two per item,
      and one read call on a fresh receiver decodes them. Whenever the write
      succeeds, the bytes read are the bytes written. */
  method CapturedTransfer(bitLen: nat, bufferSize: nat, src: seq<byte>, tail: nat, pad: Level)
    returns (status: Status, received: seq<byte>)
    requires bitLen > 0 && bufferSize >= 4
    requires tail == 0 || tail >= IdleThreshold(bitLen)
    ensures var data := src[..|src| % 0x10000];
      status == (if |data| == 0 || 5 * |data| < bufferSize / 4 then EspOk else EspFail) &&
      (status == EspOk ==> received == data)
  {
    var tx := new TxContext(bitLen, bufferSize);
    var sent;
    status, sent := tx.WriteBytes(src);
    if status == EspFail {
      return status, [];
    }
    ghost var data := src[..|src| % 0x10000];
    var captured: seq<Item> := [];
    if sent != [] {
      var line := Levels(Segments(LineLevels(sent)));
      LineSlotsOfEncode(bitLen, data);
      LevelsOfSlots(bitLen, LineSlots(data));
      assert data != [] && line == LineSlots(data);
      captured := Pack(WithTail(Runs(bitLen, line), tail), pad);
      CaptureReadCall(bitLen, data, tail, pad);
    } else {
      assert data == [];
    }
    var rx := new RxContext(bitLen);
    var buf := new byte[2 * |captured|];
    var n := rx.ReadBytes(buf, captured);
    received := buf[..n];
  }
}
