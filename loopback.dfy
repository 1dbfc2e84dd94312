/** The two halves of the codec put together: what the transmitter puts on
    the line is what the receiver decodes.

    The transmit channel inverts the levels of the items `convert` writes,
    so the line carries the 8-N-1 frames themselves: slot s of a frame is a
    segment of `bit_len` ticks at the frame's level s. Fed segment by
    segment to `fill_bits`, every frame gives its byte back. */
module Loopback {
  import opened Bits
  import opened RmtItems
  import opened Encoder
  import opened Decoder

  /** The segments of the frame of b as the line carries them. */
  function FrameSegments(bitLen: nat, b: byte): (segs: seq<Segment>)
    ensures |segs| == FrameSlots
  {
    seq(FrameSlots, s requires 0 <= s < FrameSlots => Segment(bitLen, FrameBit(b, s)))
  }

  /** The encoded byte, sent through the inverting channel, is its frame. */
  lemma LineFrame(bitLen: nat, b: byte)
    ensures Segments(LineLevels(EncodeByte(bitLen, b))) == FrameSegments(bitLen, b)
  {
    var items := EncodeByte(bitLen, b);
    EncodeByteFrame(bitLen, b);
    SegmentsLineLevels(items);
    var line, frame := Segments(LineLevels(items)), FrameSegments(bitLen, b);
    forall s | 0 <= s < FrameSlots
      ensures line[s] == frame[s]
    {
      assert Segments(items)[s] == Segment(bitLen, 1 - FrameBit(b, s));
    }
  }

  /** One segment of one bit period covers exactly one slot. */
  lemma OneSlot(bitLen: nat, level: Level, bitNum: nat)
    requires bitLen > 0
    ensures Span(bitLen, Segment(bitLen, level), bitNum) == 1
  {
    RoundClosestExact(1, bitLen);
  }

  /** A one-period segment inside a frame, before the stop slot, fills one
      slot: its level is ORed in at slot `bit_num`. */
  lemma FillOneSlot(s: RxState, bitLen: nat, level: Level)
    requires bitLen > 0 && s.bitNum + 1 < FrameSlots && !(s.bitNum == 0 && level == 1)
    ensures Fill(s, bitLen, Segment(bitLen, level)) ==
      Decoded(RxState(s.bitNum + 1, OrLevel(s.rawData, level, s.bitNum)), [])
  {
    OneSlot(bitLen, level, s.bitNum);
    FillClosedForm(s, bitLen, Segment(bitLen, level));
    assert OrOnes(s.rawData, s.bitNum, s.bitNum + 1) == OrLevel(s.rawData, 1, s.bitNum);
  }

  /** A one-period high segment in the stop slot completes the frame. */
  lemma FillStopSlot(s: RxState, bitLen: nat)
    requires bitLen > 0 && s.bitNum + 1 == FrameSlots
    ensures Fill(s, bitLen, Segment(bitLen, 1)) ==
      Decoded(RxState(0, 0), [Extract(OrLevel(s.rawData, 1, s.bitNum))])
  {
    OneSlot(bitLen, 1, s.bitNum);
    FillClosedForm(s, bitLen, Segment(bitLen, 1));
    assert OrOnes(s.rawData, s.bitNum, FrameSlots) == OrLevel(s.rawData, 1, s.bitNum);
  }

  /** ORing bit k of v in at slot k of the k low bits of v gives its k + 1
      low bits. */
  lemma AccumulateSlot(v: nat, k: nat)
    requires k < 16
    ensures OrLevel(LowBits(v, k), Bit(v, k), k) == LowBits(v, k + 1)
  {
    LowBitsStep(v, k);
    if Bit(v, k) == 1 {
      LowBitsBound(v, k);
      BitOfSmall(LowBits(v, k), k);
    }
  }

  /** Slot k of a frame, k <= 8, moves the decoder from k filled slots to
      k + 1, the accumulator holding the frame's low slots. */
  lemma FrameSlot(bitLen: nat, b: byte, k: nat)
    requires bitLen > 0 && k <= 8
    ensures var v := FrameValue(b);
      Fill(RxState(k, LowBits(v, k)), bitLen, Segment(bitLen, FrameBit(b, k))) ==
      Decoded(RxState(k + 1, LowBits(v, k + 1)), [])
  {
    var v := FrameValue(b);
    FrameValueBits(b, k);
    FillOneSlot(RxState(k, LowBits(v, k)), bitLen, FrameBit(b, k));
    AccumulateSlot(v, k);
  }

  /** After the first k slots of a frame, k <= 9, the decoder has k slots
      filled with the frame's k low bits and has stored nothing. */
  lemma {:induction false} FramePrefix(bitLen: nat, b: byte, k: nat)
    requires bitLen > 0 && k <= 9
    ensures Feed(RxState(0, 0), bitLen, FrameSegments(bitLen, b)[..k]) ==
      Decoded(RxState(k, LowBits(FrameValue(b), k)), [])
  {
    var segs := FrameSegments(bitLen, b);
    if k > 0 {
      FramePrefix(bitLen, b, k - 1);
      assert segs[..k] == segs[..k - 1] + [segs[k - 1]];
      FeedSnoc(RxState(0, 0), bitLen, segs[..k - 1], segs[k - 1]);
      FrameSlot(bitLen, b, k - 1);
      var none: seq<byte> := [];
      assert none + none == none;
    }
  }

  /** `(raw_data >> 1) & 0xFF` of a complete frame value is its byte. */
  lemma ExtractFrameValue(b: byte)
    ensures Extract(FrameValue(b)) == b
  {
    assert FrameValue(b) / 2 == b + 256;
    assert (b + 256) % 0x100 == b;
  }

  /** A whole frame, fed between frames, stores its byte and leaves the
      decoder between frames again. */
  lemma DecodeFrame(bitLen: nat, b: byte)
    requires bitLen > 0
    ensures Feed(RxState(0, 0), bitLen, FrameSegments(bitLen, b)) == Decoded(RxState(0, 0), [b])
  {
    var segs, v := FrameSegments(bitLen, b), FrameValue(b);
    FramePrefix(bitLen, b, 9);
    assert segs == segs[..9] + [segs[9]];
    FeedSnoc(RxState(0, 0), bitLen, segs[..9], segs[9]);
    FrameValueBits(b, 9);
    FillStopSlot(RxState(9, LowBits(v, 9)), bitLen);
    AccumulateSlot(v, 9);
    LowBitsOfSmall(v, 10);
    ExtractFrameValue(b);
    assert [] + [b] == [b];
  }

  /** Round trip: one read call over the items a write hands to the
      transmitter, as they come off the line, gives back exactly the bytes
      written and ends between frames. */
  lemma {:induction false} RoundTrip(bitLen: nat, data: seq<byte>)
    requires bitLen > 0
    ensures ReadCall(0, bitLen, LineLevels(Encode(bitLen, data))) == Decoded(RxState(0, 0), data)
  {
    if data != [] {
      var init, b := data[..|data| - 1], data[|data| - 1];
      RoundTrip(bitLen, init);
      var a, e := LineLevels(Encode(bitLen, init)), LineLevels(EncodeByte(bitLen, b));
      assert Encode(bitLen, data) == Encode(bitLen, init) + EncodeByte(bitLen, b);
      LineLevelsAppend(Encode(bitLen, init), EncodeByte(bitLen, b));
      SegmentsAppend(a, e);
      assert Segments(LineLevels(Encode(bitLen, data))) == Segments(a) + Segments(e);
      FeedAppend(RxState(0, 0), bitLen, Segments(a), Segments(e));
      LineFrame(bitLen, b);
      DecodeFrame(bitLen, b);
      assert init + [b] == data;
    }
  }

  /** Items that are high in both halves give only high segments. */
  lemma IdleSegments(idle: seq<Item>)
    requires forall i :: 0 <= i < |idle| ==> idle[i].level0 == 1 && idle[i].level1 == 1
    ensures forall k :: 0 <= k < |Segments(idle)| ==> Segments(idle)[k].level == 1
  {
    var segs := Segments(idle);
    forall k | 0 <= k < |segs|
      ensures segs[k].level == 1
    {
      var i := k / 2;
      if k % 2 == 0 {
        assert segs[2 * i].level == idle[i].level0;
      } else {
        assert segs[2 * i + 1].level == idle[i].level1;
      }
    }
  }

  /** Leading idle line (high segments) before the frames changes nothing. */
  lemma RoundTripAfterIdle(bitLen: nat, idle: seq<Item>, data: seq<byte>)
    requires bitLen > 0
    requires forall i :: 0 <= i < |idle| ==> idle[i].level0 == 1 && idle[i].level1 == 1
    ensures ReadCall(0, bitLen, idle + LineLevels(Encode(bitLen, data))) == Decoded(RxState(0, 0), data)
  {
    var line := LineLevels(Encode(bitLen, data));
    SegmentsAppend(idle, line);
    IdleSegments(idle);
    FeedIdle(RxState(0, 0), bitLen, Segments(idle));
    FeedAppend(RxState(0, 0), bitLen, Segments(idle), Segments(line));
    RoundTrip(bitLen, data);
    assert [] + data == data;
  }

  /** `raw_data` is not cleared when a read call starts: one that ended in
      the middle of a frame (here after a start bit and a high data bit 0)
      leaves bits behind that show up in the first byte of the next call,
      which decodes a sent 0 as 1. */
  lemma StaleRawData(bitLen: nat)
    requires bitLen > 0
    ensures var first := ReadCall(0, bitLen, [Item(bitLen, 0, bitLen, 1)]);
      first == Decoded(RxState(2, 2), []) &&
      ReadCall(first.state.rawData, bitLen, LineLevels(Encode(bitLen, [0]))).out == [1]
  {
    var x0, x1 := Segment(bitLen, 0), Segment(bitLen, 1);
    SegmentsSingle(Item(bitLen, 0, bitLen, 1));
    assert [x0, x1] == [] + [x0] + [x1];
    FeedSnoc(RxState(0, 0), bitLen, [], x0);
    FeedSnoc(RxState(0, 0), bitLen, [x0], x1);
    OneSlot(bitLen, 0, 0);
    OneSlot(bitLen, 1, 1);
    FillClosedForm(RxState(0, 0), bitLen, x0);
    FillClosedForm(RxState(1, 0), bitLen, x1);
    assert Pow2(1) == 2;
    assert OrOnes(0, 1, 2) == 2;
    StaleFrame(bitLen);
  }

  /** Slots 0 to 8 of the frame of 0 are low: from an accumulator holding
      bit 1 they only count. */
  lemma {:induction false} StaleFramePrefix(bitLen: nat, k: nat)
    requires bitLen > 0 && k <= 9
    ensures Feed(RxState(0, 2), bitLen, FrameSegments(bitLen, 0)[..k]) == Decoded(RxState(k, 2), [])
  {
    var segs := FrameSegments(bitLen, 0);
    if k > 0 {
      StaleFramePrefix(bitLen, k - 1);
      assert segs[..k] == segs[..k - 1] + [segs[k - 1]];
      FeedSnoc(RxState(0, 2), bitLen, segs[..k - 1], segs[k - 1]);
      if k > 1 {
        BitOfSmall(0, k - 2);
      }
      FillOneSlot(RxState(k - 1, 2), bitLen, 0);
      var none: seq<byte> := [];
      assert none + none == none;
    }
  }

  /** The frame of 0 decoded from an accumulator holding bit 1. */
  lemma StaleFrame(bitLen: nat)
    requires bitLen > 0
    ensures ReadCall(2, bitLen, LineLevels(Encode(bitLen, [0]))).out == [1]
  {
    assert Encode(bitLen, [0]) == EncodeByte(bitLen, 0);
    LineFrame(bitLen, 0);
    var segs := FrameSegments(bitLen, 0);
    StaleFramePrefix(bitLen, 9);
    assert segs == segs[..9] + [segs[9]];
    FeedSnoc(RxState(0, 2), bitLen, segs[..9], segs[9]);
    StaleStop(bitLen);
  }

  /** The stop slot of that frame stores 1: bit 1 of the accumulator was
      never cleared. */
  lemma StaleStop(bitLen: nat)
    requires bitLen > 0
    ensures Fill(RxState(9, 2), bitLen, Segment(bitLen, 1)) == Decoded(RxState(0, 0), [1])
  {
    FillStopSlot(RxState(9, 2), bitLen);
    Pow2Values();
    BitOfSmall(2, 9);
    assert OrLevel(2, 1, 9) == 514;
  }

  /** A transmitter and a fresh receiver with the same bit period, wired
      together: `rmt_uart_write_bytes` followed by one `rmt_uart_read_bytes`
      over the items on the line. When the write succeeds the read returns
      the bytes written (the first `size % 65536` of them). */
  method Transfer(bitLen: nat, bufferSize: nat, src: seq<byte>) returns (status: Status, received: seq<byte>)
    requires bitLen > 0 && bufferSize >= 4
    ensures var data := src[..|src| % 0x10000];
      status == (if |data| == 0 || 5 * |data| < bufferSize / 4 then EspOk else EspFail) &&
      (status == EspOk ==> received == data)
  {
    var tx := new TxContext(bitLen, bufferSize);
    var sent;
    status, sent := tx.WriteBytes(src);
    if status == EspFail {
      return status, [];
    }
    var rx := new RxContext(bitLen);
    var buf := new byte[2 * |sent|];
    var n := rx.ReadBytes(buf, LineLevels(sent));
    RoundTrip(bitLen, src[..|src| % 0x10000]);
    received := buf[..n];
  }
}
