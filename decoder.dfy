/** The receive half of the codec: `round_closest`, `fill_bits` and the
    segment-feeding loop of `rmt_uart_read_bytes` in rmt_uart.c.

    The decoder state is `bit_num`, the number of frame slots filled so far,
    and `raw_data`, the 16-bit accumulator in which the level of slot j is
    ORed at bit j. Each captured segment covers a number of slots, its
    duration rounded to whole bit periods. A frame completes when slot 9 (the
    stop bit) is filled high; the byte is then `(raw_data >> 1) & 0xFF`. */
module Decoder {
  import opened Bits
  import opened RmtItems

  /** `round_closest`: the quotient rounded half up, `(dividend + divisor / 2) / divisor`.
      Durations are 15-bit fields and the divisor a `uint16_t`, so the
      unsigned sum never wraps. */
  function RoundClosest(dividend: nat, divisor: nat): nat
    requires divisor > 0
  {
    (dividend + divisor / 2) / divisor
  }

  /** The rounded quotient q satisfies `q * b <= d + b / 2 < (q + 1) * b`. */
  lemma RoundClosestBounds(d: nat, b: nat)
    requires b > 0
    ensures RoundClosest(d, b) * b <= d + b / 2 < (RoundClosest(d, b) + 1) * b
  {
  }

  lemma MulMono(x: nat, y: nat, b: nat)
    requires x <= y
    ensures x * b <= y * b
  {
    assert y * b == x * b + (y - x) * b;
  }

  /** The rounded quotient is the only q with `q * b <= d + b / 2 < (q + 1) * b`. */
  lemma RoundClosestUnique(d: nat, b: nat, q: nat)
    requires b > 0 && q * b <= d + b / 2 < (q + 1) * b
    ensures RoundClosest(d, b) == q
  {
    var r := RoundClosest(d, b);
    RoundClosestBounds(d, b);
    if r < q {
      MulMono(r + 1, q, b);
      assert false;
    } else if r > q {
      MulMono(q + 1, r, b);
      assert false;
    }
  }

  /** Jitter tolerance: every duration from `k * b - b / 2` up to
      `k * b + b - b / 2 - 1` counts as k bit periods. */
  lemma RoundClosestWindow(d: nat, b: nat, k: nat)
    requires b > 0 && k * b - b / 2 <= d < k * b + b - b / 2
    ensures RoundClosest(d, b) == k
  {
    assert (k + 1) * b == k * b + b;
    RoundClosestUnique(d, b, k);
  }

  /** An exact multiple of the bit period counts as that many bits. */
  lemma RoundClosestExact(k: nat, b: nat)
    requires b > 0
    ensures RoundClosest(k * b, b) == k
  {
    RoundClosestWindow(k * b, b, k);
  }

  /** `bit_num` and `raw_data` of the receive context. */
  datatype RxState = RxState(bitNum: nat, rawData: nat)

  /** What feeding segments does: the new state and the bytes stored, in order. */
  datatype Decoded = Decoded(state: RxState, out: seq<byte>)

  /** `raw_data |= level << j` on the `uint16_t raw_data`: a bit shifted to
      position 16 or beyond does not survive the store (C leaves shifts by 32
      or more undefined; the model drops those too). */
  function OrLevel(raw: nat, level: Level, j: nat): nat
  {
    if level == 1 && j < 16 then SetBit(raw, j) else raw
  }

  /** The store keeps `raw_data` a 16-bit value. */
  lemma OrLevelBound(raw: nat, level: Level, j: nat)
    requires raw < 0x10000
    ensures OrLevel(raw, level, j) < 0x10000
  {
    if level == 1 && j < 16 {
      Pow2Values();
      SetBitBound(raw, j, 16);
    }
  }

  /** `(raw_data >> 1) & 0xFF`: drops the start bit and the stop bit. */
  function Extract(raw: nat): byte
  {
    (raw / 2) % 0x100
  }

  /** `rmt_bit_numbers`: the slots a segment covers. A high segment that
      rounds to zero slots stands for the rest of the frame, `10 - bit_num`
      (zero or negative once `bit_num` is 10 or more). */
  function Span(bitLen: nat, seg: Segment, bitNum: nat): int
    requires bitLen > 0
  {
    var n := RoundClosest(seg.duration, bitLen);
    if n == 0 && seg.level == 1 then FrameSlots - bitNum else n
  }

  /** The loop of `fill_bits`, one slot j per step up to `to`: the new state
      and the bytes stored. */
  function FillLoop(s: RxState, j: nat, to: int, level: Level): Decoded
    decreases to - j
  {
    if j >= to then Decoded(s, [])
    // not a start bit: the rest of the segment is skipped
    else if s.bitNum == 0 && level == 1 then Decoded(s, [])
    // not a stop bit: returns with bit_num at 10
    else if s.bitNum + 1 == FrameSlots && level == 0 then Decoded(RxState(FrameSlots, s.rawData), [])
    else
      var raw := OrLevel(s.rawData, level, j);
      if s.bitNum + 1 == FrameSlots then
        var rest := FillLoop(RxState(0, 0), j + 1, to, level);
        Decoded(rest.state, [Extract(raw)] + rest.out)
      else
        FillLoop(RxState(s.bitNum + 1, raw), j + 1, to, level)
  }

  /** `fill_bits` on one segment. */
  function Fill(s: RxState, bitLen: nat, seg: Segment): Decoded
    requires bitLen > 0
  {
    FillLoop(s, s.bitNum, s.bitNum + Span(bitLen, seg, s.bitNum), seg.level)
  }

  /** `raw` with the high level ORed into every slot from `from` up to `to`. */
  function OrOnes(raw: nat, from: nat, to: int): nat
    decreases to - from
  {
    if from >= to then raw else OrOnes(OrLevel(raw, 1, from), from + 1, to)
  }

  /** Reference definition of `fill_bits` in closed form, for a segment of
      `n` slots at `level`. */
  function FillOutcome(s: RxState, n: int, level: Level): Decoded
  {
    if n <= 0 then Decoded(s, [])
    else if level == 1 then
      if s.bitNum == 0 then Decoded(s, [])
      else if s.bitNum < FrameSlots <= s.bitNum + n then
        Decoded(RxState(0, 0), [Extract(OrOnes(s.rawData, s.bitNum, FrameSlots))])
      else
        Decoded(RxState(s.bitNum + n, OrOnes(s.rawData, s.bitNum, s.bitNum + n)), [])
    else if s.bitNum < FrameSlots <= s.bitNum + n then Decoded(RxState(FrameSlots, s.rawData), [])
    else Decoded(RxState(s.bitNum + n, s.rawData), [])
  }

  /** The slot-by-slot loop agrees with the closed form. */
  lemma {:induction false} FillLoopClosedForm(s: RxState, n: int, level: Level)
    ensures FillLoop(s, s.bitNum, s.bitNum + n, level) == FillOutcome(s, n, level)
    decreases n
  {
    if n > 0 && !(s.bitNum == 0 && level == 1) && !(s.bitNum + 1 == FrameSlots && level == 0) {
      var raw := OrLevel(s.rawData, level, s.bitNum);
      if s.bitNum + 1 != FrameSlots {
        FillLoopClosedForm(RxState(s.bitNum + 1, raw), n - 1, level);
        assert FillLoop(s, s.bitNum, s.bitNum + n, level) ==
          FillLoop(RxState(s.bitNum + 1, raw), s.bitNum + 1, s.bitNum + n, level);
        if level == 1 {
          if s.bitNum < FrameSlots {
            assert OrOnes(s.rawData, s.bitNum, FrameSlots) == OrOnes(raw, s.bitNum + 1, FrameSlots);
          }
          assert OrOnes(s.rawData, s.bitNum, s.bitNum + n) == OrOnes(raw, s.bitNum + 1, s.bitNum + n);
        }
      } else {
        assert level == 1;
        assert FillLoop(RxState(0, 0), FrameSlots, s.bitNum + n, level) == Decoded(RxState(0, 0), []);
        assert [Extract(raw)] + [] == [Extract(raw)];
        assert OrOnes(s.rawData, s.bitNum, FrameSlots) == raw;
      }
    }
  }

  lemma FillClosedForm(s: RxState, bitLen: nat, seg: Segment)
    requires bitLen > 0
    ensures Fill(s, bitLen, seg) == FillOutcome(s, Span(bitLen, seg, s.bitNum), seg.level)
  {
    FillLoopClosedForm(s, Span(bitLen, seg, s.bitNum), seg.level);
  }

  /** ORing ones sets exactly the slots from `from` up to `to` below 16. */
  lemma {:induction false} OrOnesBits(raw: nat, from: nat, to: int, i: nat)
    ensures Bit(OrOnes(raw, from, to), i) == (if from <= i < to && i < 16 then 1 else Bit(raw, i))
    decreases if from < to then to - from else 0
  {
    if from < to {
      OrOnesBits(OrLevel(raw, 1, from), from + 1, to, i);
      if from < 16 {
        SetBitBits(raw, from, i);
      }
    }
  }

  /** ORing ones keeps the accumulator within 16 bits. */
  lemma {:induction false} OrOnesBound(raw: nat, from: nat, to: int)
    requires raw < Pow2(16)
    ensures OrOnes(raw, from, to) < Pow2(16)
    decreases if from < to then to - from else 0
  {
    if from < to {
      if from < 16 {
        SetBitBound(raw, from, 16);
      }
      OrOnesBound(OrLevel(raw, 1, from), from + 1, to);
    }
  }

  /** Bit i of the extracted byte is bit i + 1 of the accumulator. */
  lemma ExtractBits(raw: nat, i: nat)
    requires i < 8
    ensures Bit(Extract(raw), i) == Bit(raw, i + 1)
  {
    BitMod256(raw / 2, i);
  }

  /** `fill_bits` keeps `raw_data` a 16-bit value. */
  lemma FillKeepsRaw16(s: RxState, bitLen: nat, seg: Segment)
    requires bitLen > 0 && s.rawData < 0x10000
    ensures Fill(s, bitLen, seg).state.rawData < 0x10000
  {
    Pow2Values();
    FillClosedForm(s, bitLen, seg);
    OrOnesBound(s.rawData, s.bitNum, s.bitNum + Span(bitLen, seg, s.bitNum));
  }

  /** Idle skip: a high segment while no frame has started changes nothing,
      whatever its duration. */
  lemma IdleSkip(s: RxState, bitLen: nat, seg: Segment)
    requires bitLen > 0 && s.bitNum == 0 && seg.level == 1
    ensures Fill(s, bitLen, seg) == Decoded(s, [])
  {
    FillClosedForm(s, bitLen, seg);
  }

  /** One call stores at most one byte, and a stored byte leaves the decoder
      between frames. */
  lemma FillAtMostOne(s: RxState, bitLen: nat, seg: Segment)
    requires bitLen > 0
    ensures |Fill(s, bitLen, seg).out| <= 1
    ensures |Fill(s, bitLen, seg).out| == 1 ==> Fill(s, bitLen, seg).state == RxState(0, 0)
  {
    FillClosedForm(s, bitLen, seg);
  }

  /** Byte completion: a high segment that reaches slot 9 of a started frame
      stores one byte and resets the state. Data bit i of the byte is slot
      i + 1 of the accumulator with every slot from `bit_num` on set high. */
  lemma ByteCompletion(s: RxState, bitLen: nat, seg: Segment)
    requires bitLen > 0 && seg.level == 1
    requires 0 < s.bitNum < FrameSlots <= s.bitNum + Span(bitLen, seg, s.bitNum)
    ensures Fill(s, bitLen, seg).state == RxState(0, 0)
    ensures |Fill(s, bitLen, seg).out| == 1
    ensures forall i :: 0 <= i < 8 ==>
      Bit(Fill(s, bitLen, seg).out[0], i) == (if i + 1 >= s.bitNum then 1 else Bit(s.rawData, i + 1))
  {
    FillClosedForm(s, bitLen, seg);
    var acc := OrOnes(s.rawData, s.bitNum, FrameSlots);
    forall i | 0 <= i < 8
      ensures Bit(Extract(acc), i) == (if i + 1 >= s.bitNum then 1 else Bit(s.rawData, i + 1))
    {
      ExtractBits(acc, i);
      OrOnesBits(s.rawData, s.bitNum, FrameSlots, i + 1);
    }
  }

  /** Tail fill: a high segment too short to count as one bit, inside a
      frame, completes the frame with high bits, the stop bit among them. */
  lemma TailFill(s: RxState, bitLen: nat, seg: Segment)
    requires bitLen > 0 && seg.level == 1 && RoundClosest(seg.duration, bitLen) == 0
    requires 0 < s.bitNum < FrameSlots
    ensures Span(bitLen, seg, s.bitNum) == FrameSlots - s.bitNum
    ensures Fill(s, bitLen, seg).state == RxState(0, 0) && |Fill(s, bitLen, seg).out| == 1
    ensures forall i :: 0 <= i < 8 ==>
      Bit(Fill(s, bitLen, seg).out[0], i) == (if i + 1 >= s.bitNum then 1 else Bit(s.rawData, i + 1))
  {
    ByteCompletion(s, bitLen, seg);
  }

  /** Stop-bit error: a low segment that reaches slot 9 stores nothing and
      leaves `bit_num` at 10, the accumulator untouched. */
  lemma StopBitError(s: RxState, bitLen: nat, seg: Segment)
    requires bitLen > 0 && seg.level == 0
    requires s.bitNum < FrameSlots <= s.bitNum + Span(bitLen, seg, s.bitNum)
    ensures Fill(s, bitLen, seg) == Decoded(RxState(FrameSlots, s.rawData), [])
  {
    FillClosedForm(s, bitLen, seg);
  }

  /** After a stop-bit error `bit_num` never comes down again: no later
      segment completes a byte. */
  lemma FillAfterStopError(s: RxState, bitLen: nat, seg: Segment)
    requires bitLen > 0 && s.bitNum >= FrameSlots
    ensures Fill(s, bitLen, seg).out == [] && Fill(s, bitLen, seg).state.bitNum >= s.bitNum
  {
    FillClosedForm(s, bitLen, seg);
  }

  /** `fill_bits` applied to each segment in turn: the final state and the
      bytes stored, in order. */
  function Feed(s: RxState, bitLen: nat, segs: seq<Segment>): Decoded
    requires bitLen > 0
  {
    if segs == [] then Decoded(s, [])
    else
      var p := Feed(s, bitLen, segs[..|segs| - 1]);
      var q := Fill(p.state, bitLen, segs[|segs| - 1]);
      Decoded(q.state, p.out + q.out)
  }

  /** Feeding one more segment. */
  lemma FeedSnoc(s: RxState, bitLen: nat, segs: seq<Segment>, x: Segment)
    requires bitLen > 0
    ensures var p := Feed(s, bitLen, segs); var q := Fill(p.state, bitLen, x);
      Feed(s, bitLen, segs + [x]).state == q.state && Feed(s, bitLen, segs + [x]).out == p.out + q.out
  {
    assert (segs + [x])[..|segs|] == segs;
  }

  /** Regrouping the bytes of three calls. Stated apart so that the
      proofs using it see the one instance they need. */
  lemma AppendAssoc(a: seq<byte>, b: seq<byte>, c: seq<byte>)
    ensures (a + b) + c == a + (b + c)
  {
  }

  /** Feeding two runs of segments one after the other. */
  lemma {:induction false} FeedAppend(s: RxState, bitLen: nat, a: seq<Segment>, b: seq<Segment>)
    requires bitLen > 0
    ensures var p := Feed(s, bitLen, a); var q := Feed(p.state, bitLen, b);
      Feed(s, bitLen, a + b).state == q.state && Feed(s, bitLen, a + b).out == p.out + q.out
  {
    if b == [] {
      assert a + b == a;
    } else {
      var b', x := b[..|b| - 1], b[|b| - 1];
      assert b == b' + [x];
      assert a + b == (a + b') + [x];
      FeedAppend(s, bitLen, a, b');
      FeedSnoc(s, bitLen, a + b', x);
      var p := Feed(s, bitLen, a);
      FeedSnoc(p.state, bitLen, b', x);
      var q' := Feed(p.state, bitLen, b');
      AppendAssoc(p.out, q'.out, Fill(q'.state, bitLen, x).out);
    }
  }

  /** At most one byte per segment. */
  lemma {:induction false} FeedOutputBound(s: RxState, bitLen: nat, segs: seq<Segment>)
    requires bitLen > 0
    ensures |Feed(s, bitLen, segs).out| <= |segs|
  {
    if segs != [] {
      FeedOutputBound(s, bitLen, segs[..|segs| - 1]);
      FillAtMostOne(Feed(s, bitLen, segs[..|segs| - 1]).state, bitLen, segs[|segs| - 1]);
    }
  }

  /** Once `bit_num` is past the stop slot, the rest of the read call stores
      nothing. */
  lemma {:induction false} FeedAfterStopError(s: RxState, bitLen: nat, segs: seq<Segment>)
    requires bitLen > 0 && s.bitNum >= FrameSlots
    ensures Feed(s, bitLen, segs).out == [] && Feed(s, bitLen, segs).state.bitNum >= FrameSlots
  {
    if segs != [] {
      FeedAfterStopError(s, bitLen, segs[..|segs| - 1]);
      FillAfterStopError(Feed(s, bitLen, segs[..|segs| - 1]).state, bitLen, segs[|segs| - 1]);
    }
  }

  /** A batch of idle (high) segments at the start of a read call is
      skipped entirely. */
  lemma {:induction false} FeedIdle(s: RxState, bitLen: nat, segs: seq<Segment>)
    requires bitLen > 0 && s.bitNum == 0
    requires forall k :: 0 <= k < |segs| ==> segs[k].level == 1
    ensures Feed(s, bitLen, segs) == Decoded(s, [])
  {
    if segs != [] {
      var init, x := segs[..|segs| - 1], segs[|segs| - 1];
      assert segs == init + [x];
      FeedIdle(s, bitLen, init);
      IdleSkip(s, bitLen, x);
      FeedSnoc(s, bitLen, init, x);
      assert Feed(s, bitLen, segs).out == [] + [];
    }
  }

  /** One call of `rmt_uart_read_bytes` on the received items, as written:
      `bit_num` restarts at 0 but `raw_data` keeps what the previous call
      left in it. */
  function ReadCall(rawData: nat, bitLen: nat, items: seq<Item>): Decoded
    requires bitLen > 0
  {
    Feed(RxState(0, rawData), bitLen, Segments(items))
  }

  /** Feeding the items up to i + 1: the two segments of item i after the
      items before it. */
  lemma FeedItemStep(s: RxState, bitLen: nat, items: seq<Item>, i: nat)
    requires bitLen > 0 && i < |items|
    ensures var p := Feed(s, bitLen, Segments(items[..i]));
      var q1 := Fill(p.state, bitLen, Segment(items[i].duration0, items[i].level0));
      var q2 := Fill(q1.state, bitLen, Segment(items[i].duration1, items[i].level1));
      Feed(s, bitLen, Segments(items[..i + 1])) == Decoded(q2.state, p.out + (q1.out + q2.out))
  {
    var x0, x1 := Segment(items[i].duration0, items[i].level0), Segment(items[i].duration1, items[i].level1);
    assert items[..i + 1] == items[..i] + [items[i]];
    SegmentsAppend(items[..i], [items[i]]);
    SegmentsSingle(items[i]);
    var before := Segments(items[..i]);
    assert Segments(items[..i + 1]) == (before + [x0]) + [x1];
    FeedSnoc(s, bitLen, before, x0);
    FeedSnoc(s, bitLen, before + [x0], x1);
    var p := Feed(s, bitLen, before);
    var q1 := Fill(p.state, bitLen, x0);
    AppendAssoc(p.out, q1.out, Fill(q1.state, bitLen, x1).out);
  }

  /** Feeding items one by one, both segments of each, as the read loop does. */
  function FeedByItem(s: RxState, bitLen: nat, items: seq<Item>): Decoded
    requires bitLen > 0
  {
    if items == [] then Decoded(s, [])
    else
      var p := FeedByItem(s, bitLen, items[..|items| - 1]);
      var last := items[|items| - 1];
      var q1 := Fill(p.state, bitLen, Segment(last.duration0, last.level0));
      var q2 := Fill(q1.state, bitLen, Segment(last.duration1, last.level1));
      Decoded(q2.state, p.out + (q1.out + q2.out))
  }

  /** Feeding by item is feeding the flat sequence of segments. */
  lemma {:induction false} FeedByItemSegments(s: RxState, bitLen: nat, items: seq<Item>)
    requires bitLen > 0
    ensures FeedByItem(s, bitLen, items) == Feed(s, bitLen, Segments(items))
  {
    if items != [] {
      var i := |items| - 1;
      FeedByItemSegments(s, bitLen, items[..i]);
      FeedItemStep(s, bitLen, items, i);
      assert items[..i + 1] == items;
    }
  }

  /** Two runs of bytes stored one after the other at position k. */
  lemma StoreTwice(b0: seq<byte>, k: nat, q1: seq<byte>, q2: seq<byte>, b1: seq<byte>, b2: seq<byte>)
    requires k + |q1| + |q2| <= |b0|
    requires b1 == b0[..k] + q1 + b0[k + |q1|..]
    requires b2 == b1[..k + |q1|] + q2 + b1[k + |q1| + |q2|..]
    ensures b2 == b0[..k] + (q1 + q2) + b0[k + |q1| + |q2|..]
  {
    assert b1[..k + |q1|] == b0[..k] + q1;
  }

  /** A run of bytes stored right behind the bytes already stored. */
  lemma StoreAfter(orig: seq<byte>, p: seq<byte>, q: seq<byte>, b0: seq<byte>, b1: seq<byte>)
    requires |p| + |q| <= |orig|
    requires b0 == p + orig[|p|..]
    requires b1 == b0[..|p|] + q + b0[|p| + |q|..]
    ensures b1 == (p + q) + orig[|p| + |q|..]
  {
    assert b0[..|p|] == p;
  }

  /** The receive context `rmt_uart_contex_rx_t` with `rmt_bit_len`; the
      ring buffer handle is replaced by the items given to `ReadBytes`. */
  class RxContext {
    const bitLen: nat
    var bytes: array<byte>
    var byteNum: nat
    var bitNum: nat
    var rawData: nat

    ghost predicate Valid()
      reads this
    {
      bitLen > 0 && byteNum <= bytes.Length && rawData < 0x10000
    }

    ghost function State(): RxState
      reads this
    {
      RxState(bitNum, rawData)
    }

    /** The zero-initialised context of the static context table. */
    constructor (bitLen: nat)
      requires bitLen > 0
      ensures Valid() && this.bitLen == bitLen
      ensures State() == RxState(0, 0) && byteNum == 0
    {
      this.bitLen := bitLen;
      bytes := new byte[0];
      byteNum, bitNum, rawData := 0, 0, 0;
    }

    /** `fill_bits`: feeds one captured segment, storing a completed byte at
        `bytes[byte_num]`. The source does not check the bound; the caller
        here must leave room for the one byte a segment can complete. */
    method FillBits(duration: nat, level: Level)
      requires Valid() && byteNum < bytes.Length
      modifies this`bitNum, this`rawData, this`byteNum, bytes
      ensures Valid()
      ensures var r := Fill(old(State()), bitLen, Segment(duration, level));
        State() == r.state && byteNum == old(byteNum) + |r.out| &&
        bytes[..] == old(bytes[..])[..old(byteNum)] + r.out + old(bytes[..])[byteNum..]
      ensures byteNum <= old(byteNum) + 1
    {
      var n: int := RoundClosest(duration, bitLen);
      if n == 0 && level == 1 {
        n := FrameSlots - bitNum;
      }
      FillSlots(bitNum, bitNum + n, level);
    }

    /** The slot loop of `fill_bits`, for j from `from` up to `to`. */
    method FillSlots(from: nat, to: int, level: Level)
      requires Valid() && byteNum < bytes.Length && from == bitNum
      modifies this`bitNum, this`rawData, this`byteNum, bytes
      ensures Valid()
      ensures var r := FillLoop(old(State()), from, to, level);
        State() == r.state && byteNum == old(byteNum) + |r.out| && |r.out| <= 1 &&
        bytes[..] == old(bytes[..])[..old(byteNum)] + r.out + old(bytes[..])[byteNum..]
    {
      ghost var spec := FillLoop(State(), from, to, level);
      ghost var b0 := byteNum;
      ghost var before := bytes[..];
      ghost var stored: seq<byte> := [];
      var j: nat := from;
      while j < to
        invariant Valid() && b0 + |stored| == byteNum
        invariant stored == [] ==> bytes[..] == before
        invariant stored != [] ==> |stored| == 1 && bitNum == 0 && rawData == 0 && level == 1 && bytes[..] == before[b0 := stored[0]]
        invariant stored == [] ==> FillLoop(State(), j, to, level) == spec
        invariant stored != [] ==> spec == Decoded(RxState(0, 0), stored)
        decreases if j <= to then to - j else 0
      {
        if bitNum == 0 && level == 1 {
          break;
        }
        ghost var rest := FillLoop(State(), j, to, level);
        bitNum := bitNum + 1;
        if bitNum == FrameSlots && level == 0 {
          break;
        }
        OrLevelBound(rawData, level, j);
        rawData := OrLevel(rawData, level, j);
        if bitNum == FrameSlots {
          rawData := rawData / 2;
          rawData := rawData % 0x100;
          bytes[byteNum] := rawData;
          byteNum := byteNum + 1;
          bitNum := 0;
          rawData := 0;
          assert FillLoop(State(), j + 1, to, level) == Decoded(RxState(0, 0), []);
          assert [bytes[b0]] + [] == [bytes[b0]];
          stored := [bytes[b0]];
        } else {
          assert rest == FillLoop(State(), j + 1, to, level);
        }
        j := j + 1;
      }
      if stored != [] {
        assert before[b0 := stored[0]] == before[..b0] + stored + before[b0 + 1..];
      }
    }

    /** The two `fill_bits` calls the read loop makes for one item. */
    method FillItem(item: Item)
      requires Valid() && byteNum + 2 <= bytes.Length
      modifies this`bitNum, this`rawData, this`byteNum, bytes
      ensures Valid()
      ensures var q1 := Fill(old(State()), bitLen, Segment(item.duration0, item.level0));
        var q2 := Fill(q1.state, bitLen, Segment(item.duration1, item.level1));
        State() == q2.state && byteNum == old(byteNum) + |q1.out| + |q2.out| &&
        bytes[..] == old(bytes[..])[..old(byteNum)] + (q1.out + q2.out) + old(bytes[..])[byteNum..]
      ensures byteNum <= old(byteNum) + 2
    {
      ghost var b0 := bytes[..];
      FillBits(item.duration0, item.level0);
      ghost var b1 := bytes[..];
      FillBits(item.duration1, item.level1);
      StoreTwice(b0, old(byteNum), Fill(old(State()), bitLen, Segment(item.duration0, item.level0)).out,
        Fill(Fill(old(State()), bitLen, Segment(item.duration0, item.level0)).state, bitLen, Segment(item.duration1, item.level1)).out,
        b1, bytes[..]);
    }

    /** The segment loop of `rmt_uart_read_bytes` on the items one ring
        buffer receive returned (none after a timeout): resets `byte_num`
        and `bit_num` but not `raw_data`, feeds (duration0, level0) and then
        (duration1, level1) of every item, and returns the bytes stored.
        The `size` argument plays no part, as in the source; the buffer must
        hold one byte per segment. */
    method ReadBytes(buf: array<byte>, items: seq<Item>) returns (n: int)
      requires Valid() && buf.Length >= 2 * |items|
      modifies this`bytes, this`byteNum, this`bitNum, this`rawData, buf
      ensures Valid() && bytes == buf
      ensures var r := ReadCall(old(rawData), bitLen, items);
        State() == r.state && n == byteNum == |r.out| && buf[..] == r.out + old(buf[..])[|r.out|..]
    {
      bytes := buf;
      byteNum := 0;
      bitNum := 0;
      FillItems(items);
      n := byteNum;
    }

    /** The loop of `rmt_uart_read_bytes`: every item of the received
        buffer, stored from the start of `bytes`. */
    method FillItems(items: seq<Item>)
      requires Valid() && byteNum == 0 && bytes.Length >= 2 * |items|
      modifies this`bitNum, this`rawData, this`byteNum, bytes
      ensures Valid()
      ensures var r := Feed(old(State()), bitLen, Segments(items));
        State() == r.state && byteNum == |r.out| && bytes[..] == r.out + old(bytes[..])[|r.out|..]
    {
      ghost var start := State();
      ghost var orig := bytes[..];
      var i := 0;
      while i < |items|
        invariant 0 <= i <= |items|
        invariant Valid() && byteNum <= 2 * i
        invariant var acc := FeedByItem(start, bitLen, items[..i]);
          State() == acc.state && byteNum == |acc.out| && bytes[..] == acc.out + orig[byteNum..]
      {
        ghost var acc := FeedByItem(start, bitLen, items[..i]);
        ghost var b0 := bytes[..];
        FillItem(items[i]);
        ghost var b1 := bytes[..];
        assert items[..i + 1][..i] == items[..i];
        ghost var next := FeedByItem(start, bitLen, items[..i + 1]);
        StoreAfter(orig, acc.out, next.out[|acc.out|..], b0, b1);
        i := i + 1;
      }
      assert items[..i] == items;
      FeedByItemSegments(start, bitLen, items);
    }
  }
}
