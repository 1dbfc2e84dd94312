/** The pulse items the RMT peripheral sends and captures.

    An `rmt_item32_t` packs two segments, each a 15-bit duration in ticks and
    a one-bit level. The transmit path fills items; the receive path reads
    them back as one flat sequence of segments, first (duration0, level0) and
    then (duration1, level1) of every item. */
module RmtItems {

  /** Slots in an 8-N-1 frame: start bit, 8 data bits, stop bit. */
  const FrameSlots: nat := 10

  /** A `uint8_t`. */
  type byte = x: int | 0 <= x < 0x100

  /** A one-bit level field of `rmt_item32_t`. */
  type Level = x: int | 0 <= x < 2

  /** One `rmt_item32_t`. */
  datatype Item = Item(duration0: nat, level0: Level, duration1: nat, level1: Level)

  /** One half of an item: a level held for a number of ticks. */
  datatype Segment = Segment(duration: nat, level: Level)

  /** The segments of a sequence of items, in the order the read loop visits them. */
  function Segments(items: seq<Item>): (segs: seq<Segment>)
    ensures |segs| == 2 * |items|
    ensures forall i :: 0 <= i < |items| ==>
      segs[2 * i] == Segment(items[i].duration0, items[i].level0) &&
      segs[2 * i + 1] == Segment(items[i].duration1, items[i].level1)
  {
    if items == [] then []
    else
      var last := items[|items| - 1];
      Segments(items[..|items| - 1]) + [Segment(last.duration0, last.level0), Segment(last.duration1, last.level1)]
  }

  lemma SegmentsAppend(a: seq<Item>, b: seq<Item>)
    ensures Segments(a + b) == Segments(a) + Segments(b)
  {
    var l, r := Segments(a + b), Segments(a) + Segments(b);
    assert |l| == |r|;
    forall s | 0 <= s < |l|
      ensures l[s] == r[s]
    {
      var i := s / 2;
      if i < |a| {
        assert (a + b)[i] == a[i];
      } else {
        assert (a + b)[i] == b[i - |a|];
        assert s - 2 * |a| == 2 * (i - |a|) + s % 2;
      }
    }
  }

  lemma SegmentsSingle(item: Item)
    ensures Segments([item]) == [Segment(item.duration0, item.level0), Segment(item.duration1, item.level1)]
  {
    assert [item][..0] == [];
  }

  /** An item as the line carries it: the TX channel is configured with
      `RMT_CHANNEL_FLAGS_INVERT_SIG`, so it drives every level inverted. */
  function Invert(item: Item): Item
  {
    Item(item.duration0, 1 - item.level0, item.duration1, 1 - item.level1)
  }

  /** The items of an inverting transmit channel as they appear on the line. */
  function LineLevels(items: seq<Item>): (line: seq<Item>)
    ensures |line| == |items|
  {
    seq(|items|, i requires 0 <= i < |items| => Invert(items[i]))
  }

  /** Inverting twice gives back the items, and inversion keeps every duration. */
  lemma LineLevelsInvolution(items: seq<Item>)
    ensures LineLevels(LineLevels(items)) == items
    ensures forall i :: 0 <= i < |items| ==>
      LineLevels(items)[i].duration0 == items[i].duration0 &&
      LineLevels(items)[i].duration1 == items[i].duration1 &&
      LineLevels(items)[i].level0 != items[i].level0 &&
      LineLevels(items)[i].level1 != items[i].level1
  {
  }

  /** Read as segments, the line carries every segment with its level inverted. */
  lemma SegmentsLineLevels(items: seq<Item>)
    ensures |Segments(LineLevels(items))| == |Segments(items)|
    ensures forall k :: 0 <= k < |Segments(items)| ==>
      Segments(LineLevels(items))[k] == Segment(Segments(items)[k].duration, 1 - Segments(items)[k].level)
  {
    var line, segs := Segments(LineLevels(items)), Segments(items);
    forall k | 0 <= k < |segs|
      ensures line[k] == Segment(segs[k].duration, 1 - segs[k].level)
    {
      var i := k / 2;
      if k % 2 == 0 {
        assert line[2 * i] == Segment(LineLevels(items)[i].duration0, LineLevels(items)[i].level0);
        assert segs[2 * i] == Segment(items[i].duration0, items[i].level0);
      } else {
        assert line[2 * i + 1] == Segment(LineLevels(items)[i].duration1, LineLevels(items)[i].level1);
        assert segs[2 * i + 1] == Segment(items[i].duration1, items[i].level1);
      }
    }
  }

  lemma LineLevelsAppend(a: seq<Item>, b: seq<Item>)
    ensures LineLevels(a + b) == LineLevels(a) + LineLevels(b)
  {
  }
}
