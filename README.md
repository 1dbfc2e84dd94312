# RMT-UART frame codec

A model of the 8-N-1 serial codec at the heart of the ESP32 RMT-UART driver,
with proofs about it. The driver emulates a UART on the RMT pulse peripheral.

- On transmit, `convert` turns each byte into a 10-slot frame: a start bit 0,
  the eight data bits least significant first, and a stop bit 1.
- The frame goes out as 5 RMT items of two segments each. Each segment is one
  bit period (`rmt_bit_len` ticks) at the slot's inverted level.
- The TX channel is configured with `RMT_CHANNEL_FLAGS_INVERT_SIG`, so the
  line carries the frame itself.
- On receive, `rmt_uart_read_bytes` feeds every captured segment to
  `fill_bits`. That function rounds the segment's duration to a number of
  bit slots (`round_closest`) and ORs the level into the 16-bit
  accumulator `raw_data`, one slot after another.
- When slot 9, the stop bit, is filled high, the byte
  `(raw_data >> 1) & 0xFF` is stored.

The modules follow the structure of `rmt_uart.c`:

- `Bits` is arithmetic on natural numbers for the shifts, masks and ORs the
  codec uses.
- `RmtItems` holds `rmt_item32_t`, its segments and the inverting channel.
- `Encoder` holds `convert`, `convert_bytes` and the encoding step of
  `rmt_uart_write_bytes`. The TX context is a class whose `items` array and
  `itemIndex` are updated in place.
- `Decoder` holds `round_closest`, `fill_bits` and the read loop. The RX
  context is a class with `bytes`, `byteNum`, `bitNum` and `rawData`.
  `fill_bits` has two descriptions:
  - its slot-by-slot loop, `FillLoop`;
  - a closed form, `FillOutcome`.

  They are proved to agree.
- `Loopback` wires the two halves together and proves the round trip, with
  the receiver fed the transmitted segments one per bit period.
- `Capture` feeds the receiver what the RMT receive channel is assumed to
  capture; the format belongs to the peripheral, not to rmt_uart.c:
  - each maximal stretch of equal level on the line becomes one run;
  - the capture ends once the line has been high for the idle threshold
    `10 * bit_len` (rmt_uart.c:136);
  - the last run is reported with duration 0 or with a duration at least
    the idle threshold;
  - the runs are stored two per item, and an odd count is closed by an end
    marker of duration 0.

  `fill_bits` relies on these facts: it rounds each run to its number of
  slots, and it completes a frame with high bits on a zero duration.

Behaviour of the code that the model keeps as written:

- A buffer whose items would exactly fill the item buffer is rejected.
  `convert` checks `item_index >= capacity` after storing each item
  (rmt_uart.c:49), so the write fails and one item slot is never used.
- On failure, the items written before the overflow stay in the buffer, but
  none of them is handed to `rmt_write_items` (rmt_uart.c:174).
- `rmt_uart_read_bytes` resets `bit_num` on every read call
  (rmt_uart.c:190), so a frame cannot span two calls.
- `raw_data` is not cleared by that reset. Bits left by a call that ended
  mid-frame end up in the first byte of the next call; `StaleRawData`
  exhibits this.

## Model

| member | source | states |
|---|---|---|
| RmtItems.Segments | rmt_uart.c:196-201 | the read loop visits the segments of item i at positions 2i (duration0, level0) and 2i + 1 (duration1, level1) |
| RmtItems.LineLevelsInvolution | rmt_uart.c:157 | the inverting channel flips every level and keeps every duration; inverting twice is the identity |
| RmtItems.LineLevels | rmt_uart.c:157 | what the inverting TX channel puts on the line: every item with both levels flipped, one item per item |
| RmtItems.SegmentsLineLevels | rmt_uart.c:157 | read as segments, the line carries every transmitted segment with its level inverted |
| Encoder.FrameValueBits | rmt_uart.c:39 | `(byte << 1) \| (1 << 9)` holds the start bit 0 in slot 0, data bit s - 1 in slot s, the stop bit 1 in slot 9, and nothing above slot 9 |
| Encoder.FrameValue | rmt_uart.c:39 | the frame value `(byte << 1) \| (1 << 9)`; `FrameValueBits` states its slots |
| Encoder.EncodeByte | rmt_uart.c:41-48 | the 5 items `convert` stores for a byte, item t holding slots 2t and 2t + 1 inverted; `EncodeByteSlot` and `EncodeByteFrame` state their contents |
| Encoder.EncodeByteSlot | rmt_uart.c:41-48 | segment s of an encoded byte is one bit period at the inverted frame level of slot s |
| Encoder.EncodeByteFrame | rmt_uart.c:36-57 | the 10 segments of an encoded byte are exactly the inverted 8-N-1 frame; it begins at level 1 and ends at level 0 |
| Encoder.Encode | rmt_uart.c:59-69 | the items of a buffer number 5 per byte |
| Encoder.EncodePrefix | rmt_uart.c:64-67 | encoding a prefix of the bytes gives the matching prefix of the items |
| Encoder.EncodeOverflow | rmt_uart.c:49-53 | when the capacity falls inside byte i, the items left behind are the whole encoding cut at the capacity |
| Encoder.TxContext.constructor | rmt_uart.c:144-148 | the item buffer holds `buffer_size / 4` items and the index starts at 0 |
| Encoder.TxContext.Convert | rmt_uart.c:36-57 | below the capacity, writes the 5 items of the byte at `item_index`, advances it by 5 and returns 0; otherwise writes the items that fit, leaves `item_index` at the capacity and returns -1; no other item changes |
| Encoder.TxContext.ConvertBytes | rmt_uart.c:59-69 | returns 5 × len when that stays below the capacity (or len is 0), else -1; the buffer starts with the encoding of the data cut at the capacity, the rest untouched |
| Encoder.TxContext.WriteBytes | rmt_uart.c:168-180 | only the first `size % 65536` bytes are encoded (the `uint16_t` length); ESP_FAIL exactly when their items reach the capacity; otherwise the items handed on are their encoding; `item_index` and the item buffer are left as `convert_bytes` leaves them |
| Decoder.RoundClosest | rmt_uart.c:71-74 | `round_closest` on unsigned operands; `RoundClosestBounds` and `RoundClosestUnique` state what it computes |
| Decoder.RoundClosestBounds | rmt_uart.c:71-74 | the rounded quotient q satisfies `q * b <= d + b / 2 < (q + 1) * b` |
| Decoder.RoundClosestUnique | rmt_uart.c:71-74 | that q is the only such number |
| Decoder.RoundClosestWindow | rmt_uart.c:71-74 | jitter tolerance: every duration from `k * b - b / 2` to `k * b + b - b / 2 - 1` rounds to k |
| Decoder.RoundClosestExact | rmt_uart.c:71-74 | an exact multiple k of the bit period rounds to k |
| Decoder.OrLevel | rmt_uart.c:101 | `raw_data \|= level << j` on the `uint16_t` accumulator: sets bit j for a high level below bit 16, otherwise no change |
| Decoder.OrLevelBound | rmt_uart.c:101 | `raw_data \|= level << j` keeps the accumulator a 16-bit value |
| Decoder.Extract | rmt_uart.c:104-105 | `(raw_data >> 1) & 0xFF`; `ExtractBits` states its bits |
| Decoder.ExtractBits | rmt_uart.c:104-105 | bit i of `(raw_data >> 1) & 0xFF` is bit i + 1 of raw_data |
| Decoder.Span | rmt_uart.c:79-84 | `rmt_bit_numbers`: the rounded slot count, or `10 - bit_num` for a high segment that rounds to 0 |
| Decoder.FillLoop | rmt_uart.c:86-112 | the slot loop of `fill_bits` as written, step by step; `FillLoopClosedForm` states its outcome |
| Decoder.Fill | rmt_uart.c:76-113 | `fill_bits` on one segment: the slot loop from `bit_num` over the segment's span; `FillClosedForm` states its outcome |
| Decoder.FillLoopClosedForm | rmt_uart.c:86-112 | the slot loop agrees with the closed form: idle skip, stop-bit error, byte completion, or slots filled |
| Decoder.FillClosedForm | rmt_uart.c:76-113 | `fill_bits` on a segment is the closed form at the segment's rounded span |
| Decoder.FillKeepsRaw16 | rmt_uart.c:76-113 | `fill_bits` keeps raw_data below 2^16 |
| Decoder.IdleSkip | rmt_uart.c:90-94 | a high segment with no frame started changes nothing, whatever its duration |
| Decoder.FillAtMostOne | rmt_uart.c:102-111 | one segment stores at most one byte, and storing one leaves bit_num and raw_data at 0 |
| Decoder.ByteCompletion | rmt_uart.c:102-111 | a high segment reaching slot 9 of a started frame stores one byte; each data bit comes from raw_data or is 1 from the segment's own slots on |
| Decoder.TailFill | rmt_uart.c:79-84 | a high segment shorter than half a bit, inside a frame, spans the rest of the frame and completes the byte with high bits |
| Decoder.StopBitError | rmt_uart.c:95-100 | a low segment reaching slot 9 stores nothing and leaves bit_num at 10, raw_data untouched |
| Decoder.FillAfterStopError | rmt_uart.c:86-100 | with bit_num at 10 or more, no segment stores a byte or lowers bit_num |
| Decoder.ReadCall | rmt_uart.c:187-201 | one read call on the received items: `bit_num` restarts at 0, `raw_data` carries over, and every segment is filled in order |
| Decoder.FeedAppend | rmt_uart.c:196-201 | feeding two runs of segments in turn is feeding their concatenation |
| Decoder.FeedOutputBound | rmt_uart.c:196-201 | a read call stores at most one byte per segment |
| Decoder.FeedAfterStopError | rmt_uart.c:196-201 | after a stop-bit error the rest of the read call stores nothing |
| Decoder.FeedIdle | rmt_uart.c:196-201 | high segments before any frame are skipped entirely |
| Decoder.FeedByItemSegments | rmt_uart.c:196-201 | feeding items two segments at a time is feeding the flat segment sequence |
| Decoder.RxContext.constructor | rmt_uart.c:34 | the zero-initialised context: no slot filled, raw_data 0 |
| Decoder.RxContext.FillBits | rmt_uart.c:76-113 | the new bit_num and raw_data and the byte completed, if any, are those of the functional `Fill`, whose outcome `FillClosedForm` spells out; the byte is stored at `bytes[byte_num]` and byte_num advances past it; no other byte changes |
| Decoder.RxContext.FillSlots | rmt_uart.c:86-112 | the slot loop of `fill_bits` leaves the state of `FillLoop` and stores at most one byte at `byte_num` |
| Decoder.RxContext.FillItem | rmt_uart.c:199-200 | the two `fill_bits` calls for one item store the bytes of both segments, in order |
| Decoder.RxContext.FillItems | rmt_uart.c:196-201 | the read loop leaves the state the segments of all items lead to, with their bytes stored from the start of `bytes` |
| Decoder.RxContext.ReadBytes | rmt_uart.c:187-201 | bit_num restarts at 0 and raw_data carries over; the call returns the number of bytes decoded from the items, stores them at the start of buf and leaves the rest of buf untouched |
| Loopback.LineFrame | rmt_uart.c:36-57 | the items of an encoded byte, as they come off the inverting channel, are its 8-N-1 frame, one bit period per slot |
| Loopback.FillOneSlot | rmt_uart.c:86-112 | a one-period segment inside a frame ORs its level into slot bit_num and advances bit_num |
| Loopback.FillStopSlot | rmt_uart.c:102-111 | a one-period high stop bit stores `(raw_data >> 1) & 0xFF` and resets the state |
| Loopback.DecodeFrame | rmt_uart.c:76-113 | a whole frame fed between frames stores exactly its byte and ends between frames |
| Loopback.RoundTrip | rmt_uart.c:36-69 | one read call over the encoded items of a buffer, as they come off the line, returns exactly that buffer and ends between frames |
| Loopback.RoundTripAfterIdle | rmt_uart.c:90-94 | idle high items before the frames do not change the round trip |
| Loopback.StaleRawData | rmt_uart.c:187-190 | raw_data survives a read call: a call ending after a start bit and a high data bit 0 makes the next call decode a sent 0 as 1 |
| Loopback.StaleFrame | rmt_uart.c:101 | the frame of 0 decoded with bit 1 already set in raw_data stores 1 |
| Loopback.Transfer | rmt_uart.c:168-201 | writing a buffer and reading the line on a fresh receiver with the same bit period returns the bytes written whenever the encoding fits; it fails exactly when their items reach the capacity (the transmitter's own status is taken to be ESP_OK) |
| Capture.LineSlotsOfEncode | rmt_uart.c:36-69 | the transmitter drives exactly one bit period per slot of the frames of the buffer, back to back, as the line level |
| Capture.RunEndRun | rmt_uart.c:133-141 | capture assumed of the RX channel configured here: a run is a stretch of one level, and it is maximal: the slot after it has the other level |
| Capture.ExpandRuns | rmt_uart.c:133-141 | capture assumed of the RX channel configured here: the runs lose nothing: rounded back to slots, they give the line's slot levels |
| Capture.RunsAlternate | rmt_uart.c:133-141 | capture assumed of the RX channel configured here: neighbouring runs of a capture differ in level |
| Capture.RunsAppend | rmt_uart.c:133-141 | capture assumed of the RX channel configured here: the runs of two stretches of line that meet at a level change are the runs of each, in order |
| Capture.RoundClosestAtLeast | rmt_uart.c:71-74 | a duration of at least c bit periods rounds to at least c slots |
| Capture.LowBitsOnes | rmt_uart.c:101 | ORing ones into slots m up to m + c of a value's low bits gives its low bits up to m + c when those bits are 1 |
| Capture.RunStep | rmt_uart.c:76-113 | one run of a frame advances the decoder by its number of slots, keeping raw_data equal to the frame's low bits, or stores the byte when it reaches the stop slot |
| Capture.FrameRunsFrom | rmt_uart.c:76-113 | the runs of a frame from slot m on, fed to a decoder holding its first m slots, store exactly its byte and end between frames, whether the last run reports 0 or at least its length |
| Capture.CaptureRoundTrip | rmt_uart.c:71-113 | the captured runs of a buffer, the last one reported as 0 or at least its length, decode to exactly that buffer and end between frames |
| Capture.FrameLastRun | rmt_uart.c:136 | the last run of a frame starts after the start bit, so it lasts at most nine bit periods, below the idle threshold |
| Capture.CaptureAtIdle | rmt_uart.c:136 | a capture that ends on the idle threshold, or reports 0 for its last run, decodes to exactly the buffer sent |
| Capture.MarkerOdd | rmt_uart.c:133-141 | capture assumed of the RX channel configured here: an end marker is present exactly when the number of runs is odd |
| Capture.PackSegments | rmt_uart.c:196-201 | read back two segments per item, the stored items are the runs followed by the end marker when there is one |
| Capture.EndMarker | rmt_uart.c:79-94 | a zero-duration end marker between frames changes nothing, whatever its level |
| Capture.CaptureReadCall | rmt_uart.c:187-201 | one read call over the items stored for a capture that ended on the idle threshold returns exactly the buffer sent and ends between frames |
| Capture.CapturedTransfer | rmt_uart.c:168-201 | writing a buffer and reading its capture on a fresh receiver returns the bytes written whenever the encoding fits; it fails exactly when their items reach the capacity (the transmitter's own status is taken to be ESP_OK) |

## Left out

- `rmt_uart_init` is not modelled: channel configuration, clock dividers, baud-rate checks and driver installation are hardware setup. The bit period is a parameter (`bitLen > 0`), and so is the buffer size.
- `rmt_write_items`, `xRingbufferReceive` and `vRingbufferReturnItem` are left out; they are the peripheral and the FreeRTOS ring buffer. The items a read call receives are a parameter of `ReadBytes`. A null ring-buffer item behaves like an empty one, which the model covers.
- Logging (`ESP_LOGx`, `printf`), the `configured` and mode checks of the public calls, and the global context table `rmt_uart_contex[]` are left out. Each context is its own object here.
- rmt_uart.h is not part of this model.
- In the source, the item buffer is allocated only in the RX branch of `rmt_uart_init`. The model always allocates it in the `TxContext` constructor.
- Encoder.TxContext.constructor: requires a buffer of at least 4 bytes. With no room for an item, `convert` stores item 0 out of bounds before checking.
- Decoder.RxContext.ReadBytes: requires `buf` to hold two bytes per received item, the most a call can store. The source ignores `size` and never checks the bound; writing past the buffer is undefined behaviour and is not modelled.
- Decoder.RxContext.FillBits: requires room for the byte a segment may complete, for the same reason.
- Durations are unbounded naturals; the 15-bit width of the duration fields is not modelled. Neither is the 16-bit `rmt_bit_len`: `round_closest` takes its operands as unsigned int, so the sum cannot wrap for 15-bit durations.
- Decoder.OrLevelBound: `level << j` for j of 32 or more is undefined in C. The model treats every bit shifted to position 16 or beyond as lost in the `uint16_t` store.
- Encoder.TxContext.WriteBytes: on a successful encode `rmt_uart_write_bytes` returns whatever `rmt_write_items` returns (rmt_uart.c:179). That call is the peripheral and is not modelled; its status is taken to be ESP_OK, so `EspOk` means the items were handed to the transmitter. The same holds for `Loopback.Transfer` and `Capture.CapturedTransfer`.
- The receiver's glitch filter (`filter_ticks_thresh = bit_len / 2`, rmt_uart.c:137-138) is not modelled. Captured runs are exact multiples of the bit period; jittered durations are covered only per segment, by `RoundClosestWindow`.
- A capture is one whole transmission received in one ring-buffer item. Captures split across items or across read calls are not modelled.
- The capture format (runs, idle end, end marker) belongs to the RMT peripheral and its driver, not to rmt_uart.c. `Capture` models it as described above and proves `fill_bits` correct against it.
