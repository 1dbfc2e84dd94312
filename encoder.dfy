/** The transmit half of the codec: `convert` and `convert_bytes` of
    rmt_uart.c, and the encoding step of `rmt_uart_write_bytes`.

    Each byte becomes the 10-bit frame `(byte << 1) | (1 << 9)`: start bit 0
    in slot 0, the data bits least significant first in slots 1 to 8, stop
    bit 1 in slot 9. The frame goes out as 5 items of two segments, one
    segment per slot, each `bit_len` ticks long and with the slot's bit
    inverted, because the TX channel inverts the line again. */
module Encoder {
  import opened Bits
  import opened RmtItems

  /** Items per frame: two slots per item. */
  const ItemsPerFrame: nat := 5

  /** The 16-bit frame value `(byte << 1) | (1 << 9)`; the OR is an addition
      because `byte << 1` is below `1 << 9`. */
  function FrameValue(b: byte): nat
  {
    2 * b + 512
  }

  /** Reference definition of an 8-N-1 frame: slot s of the frame of b. */
  function FrameBit(b: byte, s: nat): Level
    requires s < FrameSlots
  {
    if s == 0 then 0 else if s == 9 then 1 else Bit(b, s - 1)
  }

  /** The frame value carries exactly the 8-N-1 frame in its 10 low bits,
      and nothing above them. */
  lemma FrameValueBits(b: byte, s: nat)
    requires s < FrameSlots
    ensures Bit(FrameValue(b), s) == FrameBit(b, s)
    ensures FrameValue(b) < Pow2(10)
  {
    Pow2Values();
    var v := FrameValue(b);
    if s > 0 {
      assert Bit(v, s) == Bit(b + Pow2(8), s - 1);
      if s == 9 {
        BitOfTop(b, 8);
      } else {
        BitAddHigh(b, 1, 8, s - 1);
      }
    }
  }

  /** The level stored for slot i of v: the low bit of `(v >> i) ^ 1`, the
      only bit a one-bit level field keeps. */
  function InvertedBit(v: nat, i: nat): Level
  {
    1 - Bit(v, i)
  }

  /** The 5 items `convert` writes for one byte. */
  function EncodeByte(bitLen: nat, b: byte): (items: seq<Item>)
    ensures |items| == ItemsPerFrame
  {
    var v := FrameValue(b);
    seq(ItemsPerFrame, k requires 0 <= k < ItemsPerFrame =>
      Item(bitLen, InvertedBit(v, 2 * k), bitLen, InvertedBit(v, 2 * k + 1)))
  }

  /** Item t of the encoded byte carries slots 2t and 2t + 1. */
  lemma EncodeByteItem(bitLen: nat, b: byte, t: nat)
    requires t < ItemsPerFrame
    ensures EncodeByte(bitLen, b)[t] ==
      Item(bitLen, InvertedBit(FrameValue(b), 2 * t), bitLen, InvertedBit(FrameValue(b), 2 * t + 1))
  {
  }

  /** Slot s of the encoded byte, read as segments. */
  lemma EncodeByteSlot(bitLen: nat, b: byte, s: nat)
    requires s < FrameSlots
    ensures Segments(EncodeByte(bitLen, b))[s] == Segment(bitLen, 1 - FrameBit(b, s))
  {
    FrameValueBits(b, s);
    var items := EncodeByte(bitLen, b);
    var k := s / 2;
    if s % 2 == 0 {
      assert Segments(items)[2 * k] == Segment(items[k].duration0, items[k].level0);
    } else {
      assert Segments(items)[2 * k + 1] == Segment(items[k].duration1, items[k].level1);
    }
  }

  /** The encoded byte, read as segments, is the inverted 8-N-1 frame, one
      slot per segment, every segment `bitLen` ticks long: the first level
      is 1 (inverted start bit), the last is 0 (inverted stop bit). */
  lemma EncodeByteFrame(bitLen: nat, b: byte)
    ensures Segments(EncodeByte(bitLen, b)) ==
      seq(FrameSlots, s requires 0 <= s < FrameSlots => Segment(bitLen, 1 - FrameBit(b, s)))
    ensures EncodeByte(bitLen, b)[0].level0 == 1 && EncodeByte(bitLen, b)[4].level1 == 0
  {
    var segs := Segments(EncodeByte(bitLen, b));
    var frame := seq(FrameSlots, s requires 0 <= s < FrameSlots => Segment(bitLen, 1 - FrameBit(b, s)));
    forall s | 0 <= s < FrameSlots
      ensures segs[s] == frame[s]
    {
      EncodeByteSlot(bitLen, b, s);
    }
    FrameValueBits(b, 0);
    FrameValueBits(b, 9);
  }

  /** The items `convert_bytes` produces for a whole buffer when nothing
      overflows: the bytes' items, in order. */
  function Encode(bitLen: nat, data: seq<byte>): (items: seq<Item>)
    ensures |items| == 5 * |data|
  {
    if data == [] then []
    else Encode(bitLen, data[..|data| - 1]) + EncodeByte(bitLen, data[|data| - 1])
  }

  /** Encoding a prefix of the data gives a prefix of the items. */
  lemma {:induction false} EncodePrefix(bitLen: nat, data: seq<byte>, n: nat)
    requires n <= |data|
    ensures Encode(bitLen, data)[..5 * n] == Encode(bitLen, data[..n])
  {
    if n < |data| {
      var init := data[..|data| - 1];
      EncodePrefix(bitLen, init, n);
      assert init[..n] == data[..n];
    } else {
      assert data[..n] == data;
    }
  }

  lemma EncodeStep(bitLen: nat, data: seq<byte>, i: nat)
    requires i < |data|
    ensures Encode(bitLen, data[..i + 1]) == Encode(bitLen, data[..i]) + EncodeByte(bitLen, data[i])
  {
    assert data[..i + 1][..i] == data[..i];
  }

  /** When the capacity falls inside the items of byte i, the items written
      up to it are the encoding of all the data cut at the capacity. */
  lemma EncodeOverflow(bitLen: nat, data: seq<byte>, i: nat, cap: nat)
    requires i < |data| && 5 * i < cap <= 5 * (i + 1)
    ensures Encode(bitLen, data[..i]) + EncodeByte(bitLen, data[i])[..cap - 5 * i] ==
      Encode(bitLen, data)[..cap]
  {
    EncodeStep(bitLen, data, i);
    EncodePrefix(bitLen, data, i + 1);
    var whole := Encode(bitLen, data);
    assert whole[..cap] == whole[..5 * (i + 1)][..cap];
  }

  /** Storing item t of enc just past the t items already written at k. */
  lemma WriteItem(orig: seq<Item>, k: nat, enc: seq<Item>, t: nat, prev: seq<Item>, now: seq<Item>)
    requires k + t < |orig| && t < |enc|
    requires prev == orig[..k] + enc[..t] + orig[k + t..]
    requires now == prev[k + t := enc[t]]
    ensures now == orig[..k] + enc[..t + 1] + orig[k + t + 1..]
  {
    assert enc[..t + 1] == enc[..t] + [enc[t]];
  }

  /** One byte of `convert_bytes`: the buffer held the items of the first i
      bytes followed by the untouched rest of orig, and `convert` wrote the
      first m items of byte i after them. */
  lemma ConvertBytesStep(bitLen: nat, data: seq<byte>, i: nat, orig: seq<Item>, prev: seq<Item>, now: seq<Item>)
    requires i < |data| && 5 * i < |orig|
    requires prev == Encode(bitLen, data[..i]) + orig[5 * i..]
    requires 5 * i + 5 < |orig| ==> now == prev[..5 * i] + EncodeByte(bitLen, data[i]) + prev[5 * i + 5..]
    requires 5 * i + 5 >= |orig| ==> now == prev[..5 * i] + EncodeByte(bitLen, data[i])[..|orig| - 5 * i]
    ensures 5 * i + 5 < |orig| ==> now == Encode(bitLen, data[..i + 1]) + orig[5 * (i + 1)..]
    ensures 5 * i + 5 >= |orig| ==> now == Encode(bitLen, data)[..|orig|] + orig[|orig|..]
  {
    var enc := Encode(bitLen, data[..i]);
    assert prev[..5 * i] == enc;
    if 5 * i + 5 < |orig| {
      assert prev[5 * i + 5..] == orig[5 * i + 5..];
      EncodeStep(bitLen, data, i);
    } else {
      EncodeOverflow(bitLen, data, i, |orig|);
    }
  }

  /** `esp_err_t` results of a write. */
  datatype Status = EspOk | EspFail

  /** The transmit context `rmt_uart_contex_tx_t` with the two configuration
      values the encoder reads: `rmt_bit_len` and the item capacity
      `buffer_size / sizeof(rmt_item32_t)`, which is `items.Length`. */
  class TxContext {
    const bitLen: nat
    const items: array<Item>
    var itemIndex: int

    ghost predicate Valid()
      reads this
    {
      bitLen > 0 && items.Length >= 1 && 0 <= itemIndex <= items.Length
    }

    /** The buffer `calloc(1, buffer_size)` of `rmt_uart_init`; a buffer of
        fewer than 4 bytes holds no item and is not modelled. */
    constructor (bitLen: nat, bufferSize: nat)
      requires bitLen > 0 && bufferSize >= 4
      ensures Valid() && fresh(items)
      ensures this.bitLen == bitLen && items.Length == bufferSize / 4 && itemIndex == 0
    {
      this.bitLen := bitLen;
      items := new Item[bufferSize / 4];
      itemIndex := 0;
    }

    /** `convert`: writes the 5 items of b from `itemIndex` on and returns 0;
        returns -1 as soon as `itemIndex` reaches the capacity, leaving the
        items written so far. A byte whose items would exactly fill the
        buffer therefore fails too. */
    method Convert(b: byte) returns (r: int)
      requires Valid() && itemIndex < items.Length
      modifies this`itemIndex, items
      ensures Valid()
      ensures var k := old(itemIndex);
        k + 5 < items.Length ==>
          r == 0 && itemIndex == k + 5 &&
          items[..] == old(items[..])[..k] + EncodeByte(bitLen, b) + old(items[..])[k + 5..]
      ensures var k := old(itemIndex);
        k + 5 >= items.Length ==>
          r == -1 && itemIndex == items.Length &&
          items[..] == old(items[..])[..k] + EncodeByte(bitLen, b)[..items.Length - k]
    {
      var data := FrameValue(b);
      ghost var encoded := EncodeByte(bitLen, b);
      ghost var k := itemIndex;
      ghost var orig := items[..];
      ghost var t := 0;
      var i := 0;
      while i < 9
        invariant 0 <= t <= ItemsPerFrame && i == 2 * t
        invariant itemIndex == k + t < items.Length
        invariant items[..] == orig[..k] + encoded[..t] + orig[k + t..]
      {
        ghost var prev := items[..];
        EncodeByteItem(bitLen, b, t);
        items[itemIndex] := Item(bitLen, InvertedBit(data, i), bitLen, InvertedBit(data, i + 1));
        WriteItem(orig, k, encoded, t, prev, items[..]);
        itemIndex := itemIndex + 1;
        t := t + 1;
        if itemIndex >= items.Length {
          return -1;
        }
        i := i + 2;
      }
      assert encoded[..t] == encoded;
      return 0;
    }

    /** `convert_bytes`: restarts at item 0 and converts every byte. It
        returns the item count 5 * |data| when that count stays below the
        capacity (or there is no data), and -1 otherwise; in both cases the
        buffer starts with the data's items, cut at the capacity. */
    method ConvertBytes(data: seq<byte>) returns (r: int)
      requires Valid() && |data| < 0x10000
      modifies this`itemIndex, items
      ensures Valid()
      ensures r == (if |data| == 0 || 5 * |data| < items.Length then 5 * |data| else -1)
      ensures itemIndex == (if r >= 0 then r else items.Length)
      ensures var n := if 5 * |data| < items.Length then 5 * |data| else items.Length;
        items[..] == Encode(bitLen, data)[..n] + old(items[..])[n..]
    {
      ghost var orig := items[..];
      itemIndex := 0;
      assert items[..] == Encode(bitLen, data[..0]) + orig[0..];
      var i := 0;
      while i < |data|
        invariant 0 <= i <= |data|
        invariant itemIndex == 5 * i < items.Length
        invariant items[..] == Encode(bitLen, data[..i]) + orig[5 * i..]
      {
        ghost var prev := items[..];
        var e := Convert(data[i]);
        ConvertBytesStep(bitLen, data, i, orig, prev, items[..]);
        if e != 0 {
          return -1;
        }
        i := i + 1;
      }
      assert data[..i] == data;
      return itemIndex;
    }

    /** The encoding step of `rmt_uart_write_bytes`: the length is passed to
        `convert_bytes` as a `uint16_t`, so only the first `size % 65536`
        bytes are encoded. On failure ESP_FAIL is returned and nothing is
        handed to the transmitter; otherwise the items handed to
        `rmt_write_items` are the encoded bytes, and EspOk stands for the
        status that call returns. The item buffer is left as `convert_bytes`
        leaves it. */
    method WriteBytes(src: seq<byte>) returns (status: Status, sent: seq<Item>)
      requires Valid()
      modifies this`itemIndex, items
      ensures Valid()
      ensures var data := src[..|src| % 0x10000];
        status == (if |data| == 0 || 5 * |data| < items.Length then EspOk else EspFail) &&
        sent == (if status == EspOk then Encode(bitLen, data) else [])
      ensures itemIndex == (if status == EspOk then |sent| else items.Length)
      ensures var data := src[..|src| % 0x10000];
        var n := if 5 * |data| < items.Length then 5 * |data| else items.Length;
        items[..] == Encode(bitLen, data)[..n] + old(items[..])[n..]
    {
      var r := ConvertBytes(src[..|src| % 0x10000]);
      if r < 0 {
        return EspFail, [];
      }
      return EspOk, items[..itemIndex];
    }
  }
}
