# neotrellis-monome protocol engine, in Dafny

A model of the serial protocol engine of a monome-compatible grid controller
built on NeoTrellis boards (`neotrellis_monome_circuitpython/monome_serial_device.py`).
The device receives opcode-prefixed commands from a host over USB serial. Each
command is one opcode byte followed by a fixed number of payload bytes. The
commands change an LED intensity buffer, the global brightness or the device
identity. Some of them append key and encoder events to two input queues, and
the queries answer with fixed-format replies. The device also sends its own
key and encoder events to the host in the same byte layout.

The model is functional. The serial port becomes an input byte sequence and an
output byte sequence, and one call of `Protocol.Step(device, input)` is one
`process_serial` call. It returns the new device, the reply bytes and the
number of bytes the command took. If the input does not yet hold the whole
command, it returns `Incomplete` and changes nothing. It returns `Crash` for
the two faults the model keeps: a device with no rows, and a reply value above
255. The other places where the source raises are listed under "Left out"
(writes outside the buffer, UTF-8 decoding of the identity) and under
"Findings" (the constructor, the three-into-two unpack and `int()` of a byte);
`AsWritten` models the latter as written.

Modules:

- `Bytes` (bytes.dfy): the wire byte type; bitwise AND defined bit by bit; the
  masks the protocol uses (`(b >> i) & 1`, `(b >> 4) & 0x0F`, `b & 0x0F`,
  `b & 0xF8`) with their arithmetic meaning.
- `Events` (events.dfy): the grid and arc FIFO queues (`MonomeEventQueue`).
- `Outbound` (outbound.dfy): `send_grid_key`, `send_arc_key`, `send_arc_delta`.
- `LedBuffer` (leds.dfy): the `[row][column]` buffer shared by grid (`[y][x]`)
  and arc (`[ring][position]`) commands. It holds the single-cell and
  whole-buffer setters, and the write lists that model the source's loops of
  `set_grid_led`/`set_arc_led` calls, each with a closed-form lemma.
- `Payload` (payload.dfy): bit-mask and packed-nibble payload decodings, with
  the host-side packing and round-trip lemmas.
- `MonomeDevice` (device.dfy): the device state, its constructor, `as_grid` and
  the refresh flags.
- `Protocol` (protocol.dfy): payload lengths per opcode, the LED command
  handlers, the dispatcher `Execute` and the step function `Step`.
- `ProtocolProperties` (properties.dfy): properties of whole steps.
- `AsWritten` (aswritten.dfy): the source as written where it differs from its
  evident intent (see Findings).

Where the code and the protocol description it follows disagree, the model
follows the code:
- Explicit levels (0x18, 0x90, 0x93) are stored as the received byte. They
  are not masked to 4 bits, so no [0, 15] invariant is claimed for them. Only
  nibble-decoded levels are proved to lie in [0, 15]. (The brightness (0x17)
  and the all-LED level (0x19) are read with `int()` in the code; the model
  takes the byte's value, which is the intent, and `AsWritten` models the
  code; see Findings.)
- The encoder delta of an inbound turn (0x50) is stored as the received byte,
  0 to 255, with no sign.
- The get-id reply pads the identity with zeros up to 32 bytes but never
  truncates a longer one.
- The level row and level column commands (0x1B, 0x1C) mask both x and y with
  `& 0xF8`. The on/off row and column commands (0x15, 0x16) mask only one of
  them.
- The firmware-version reply (0x0F) is eight zero bytes with no opcode prefix.

## Model

| member | source | states |
|---|---|---|
| Bytes.Bit | neotrellis_monome_circuitpython/monome_serial_device.py:228 | `(b >> i) & 1` is set exactly when `b / 2^i` is odd |
| Bytes.HighNibble | neotrellis_monome_circuitpython/monome_serial_device.py:275 | `(b >> 4) & 0x0F` is the first packed level, `b / 16`, in [0, 15] |
| Bytes.LowNibble | neotrellis_monome_circuitpython/monome_serial_device.py:282 | `b & 0x0F` is the second packed level, `b % 16`, in [0, 15] |
| Bytes.AlignDown8 | neotrellis_monome_circuitpython/monome_serial_device.py:223-224 | `b & 0xF8` is the largest multiple of 8 not above `b` (so x = 10 gives 8 and y = 5 gives 0) |
| Bytes.ShrIsDiv | neotrellis_monome_circuitpython/monome_serial_device.py:275 | shifting right by i places divides by 2^i, dropping the remainder |
| Bytes.AndAlign | neotrellis_monome_circuitpython/monome_serial_device.py:223-224 | masking with 0xF8 keeps exactly `8 * (b / 8)` |
| Bytes.AndLowBits | neotrellis_monome_circuitpython/monome_serial_device.py:282 | ANDing with k low one-bits keeps `x % 2^k`, the low k bits |
| Bytes.NibbleRoundTrip | neotrellis_monome_circuitpython/monome_serial_device.py:273-287 | splitting a byte into its nibbles and packing them again is the identity, and so is the reverse |
| Events.Empty | neotrellis_monome_circuitpython/monome_serial_device.py:28-30 | a new queue pair has no event available on either side |
| Events.AddGridEvent | neotrellis_monome_circuitpython/monome_serial_device.py:32-33 | the event goes to the back of the grid queue; earlier events and the arc queue are kept |
| Events.AddArcTurnEvent | neotrellis_monome_circuitpython/monome_serial_device.py:43-44 | a Turn goes to the back of the arc queue; the grid queue is kept |
| Events.AddArcPressEvent | neotrellis_monome_circuitpython/monome_serial_device.py:46-47 | a Press goes to the back of the arc queue; the grid queue is kept |
| Events.GridEventAvailable | neotrellis_monome_circuitpython/monome_serial_device.py:35-36 | true exactly when some grid event is waiting in the queue |
| Events.ArcEventAvailable | neotrellis_monome_circuitpython/monome_serial_device.py:49-50 | true exactly when some arc event is waiting in the queue |
| Events.ReadGridEvent | neotrellis_monome_circuitpython/monome_serial_device.py:35-41 | returns an event exactly when one is available, and then the oldest one, removed; an empty queue gives None and is unchanged; the arc queue is never touched |
| Events.ReadArcEvent | neotrellis_monome_circuitpython/monome_serial_device.py:49-55 | as for the grid queue, on the arc queue only |
| Events.DrainGridIsFifo | neotrellis_monome_circuitpython/monome_serial_device.py:32-41 | reading until empty returns every queued grid event once, oldest first |
| Events.DrainArcIsFifo | neotrellis_monome_circuitpython/monome_serial_device.py:43-55 | reading until empty returns every queued arc event once, oldest first |
| Events.GridQueueOrder | neotrellis_monome_circuitpython/monome_serial_device.py:32-41 | adding e1 then e2 to an empty queue and reading three times gives e1, e2, then None, and leaves the queue as it began |
| Events.ReadGridAddCommute | neotrellis_monome_circuitpython/monome_serial_device.py:32-41 | on a non-empty grid queue, adding does not change what the next read returns |
| Events.ReadArcAddCommute | neotrellis_monome_circuitpython/monome_serial_device.py:43-55 | on a non-empty arc queue, adding a Turn or a Press does not change what the next read returns |
| Outbound.SendGridKey | neotrellis_monome_circuitpython/monome_serial_device.py:63-64 | three bytes: 0x21 for a press or 0x20 for a release, then x and y |
| Outbound.SendArcKey | neotrellis_monome_circuitpython/monome_serial_device.py:60-61 | two bytes: 0x52 for a press or 0x51 for a release, then the index |
| Outbound.SendArcDelta | neotrellis_monome_circuitpython/monome_serial_device.py:57-58 | three bytes: 0x50, the index, the delta |
| LedBuffer.SetGridLed | neotrellis_monome_circuitpython/monome_serial_device.py:114-115 | cell [y][x] takes the level, every other cell and the buffer's shape stay |
| LedBuffer.OutOfRangeWriteIsDropped | neotrellis_monome_circuitpython/monome_serial_device.py:114-115 | a write outside the buffer leaves it unchanged |
| LedBuffer.ClearGridLed | neotrellis_monome_circuitpython/monome_serial_device.py:117-118 | the same call as `SetGridLed` with level 0: cell [y][x] becomes 0, nothing else changes |
| LedBuffer.SetAllGridLeds | neotrellis_monome_circuitpython/monome_serial_device.py:109-112 | every cell takes the value; the shape is kept |
| LedBuffer.SetArcLed | neotrellis_monome_circuitpython/monome_serial_device.py:120-121 | position `led` of ring `ring` takes the level, nothing else changes |
| LedBuffer.ClearArcLed | neotrellis_monome_circuitpython/monome_serial_device.py:123-124 | position `led` of ring `ring` becomes 0, nothing else changes |
| LedBuffer.ClearArcRing | neotrellis_monome_circuitpython/monome_serial_device.py:126-127 | every position of the ring becomes 0, whatever its length; other rings stay |
| LedBuffer.SetAllArcLeds | neotrellis_monome_circuitpython/monome_serial_device.py:129-131 | positions 0..63 of the ring become 0 whatever value is passed; later positions and other rings stay |
| LedBuffer.ApplyWrites | neotrellis_monome_circuitpython/monome_serial_device.py:225-231 | a loop of single-cell writes leaves each cell at the level of the last write to it, or as it was |
| LedBuffer.WriteRow | neotrellis_monome_circuitpython/monome_serial_device.py:296-311 | values written left to right from (ox, y) land at exactly those cells of row y, value k at column ox + k; every other cell stays (also the loops at :237-241 and the ring loop at :372-383) |
| LedBuffer.WriteColumn | neotrellis_monome_circuitpython/monome_serial_device.py:319-334 | values written top to bottom from (x, oy) land at exactly those cells of column x, value k at row oy + k; every other cell stays (also the loop at :247-251) |
| LedBuffer.WriteBlock | neotrellis_monome_circuitpython/monome_serial_device.py:270-288 | 64 values written row by row land in the 8x8 block at the origin, value (y-oy)*8+(x-ox) at (x, y); cells outside the block stay |
| LedBuffer.WriteRing | neotrellis_monome_circuitpython/monome_serial_device.py:385-394 | a level written at a list of positions of one ring sets exactly those positions |
| Payload.Clamp | neotrellis_monome_circuitpython/monome_serial_device.py:279 | a level above the threshold is kept, any level at or below it becomes 0 |
| Payload.Nibble | neotrellis_monome_circuitpython/monome_serial_device.py:273-287 | level k is the high nibble of byte k/2 for even k and the low nibble for odd k |
| Payload.NibbleLevels | neotrellis_monome_circuitpython/monome_serial_device.py:370-383 | two clamped levels per byte, each in [0, 15], each either 0 or above the threshold |
| Payload.NibbleLevelsRoundTrip | neotrellis_monome_circuitpython/monome_serial_device.py:264-288 | unpacking host-packed levels gives each level back, clamped; with threshold 0, exactly the packed levels |
| Payload.MaskLevels | neotrellis_monome_circuitpython/monome_serial_device.py:237-241 | flag i is `on` when bit i of the mask is set and 0 otherwise |
| Payload.FrameLevels | neotrellis_monome_circuitpython/monome_serial_device.py:225-231 | frame value row*8+col comes from bit col of row byte `row` |
| Payload.MaskBit | neotrellis_monome_circuitpython/monome_serial_device.py:228 | bit i of a mask packed from flags is flag i |
| Payload.MaskLevelsRoundTrip | neotrellis_monome_circuitpython/monome_serial_device.py:233-241 | a host mask packed from eight flags lights exactly the flagged LEDs |
| MonomeDevice.New | neotrellis_monome_circuitpython/monome_serial_device.py:70-92 | a rows by cols buffer of zeros, empty identity, brightness 15, threshold 0, clean flags, empty queues |
| MonomeDevice.AsGrid | neotrellis_monome_circuitpython/monome_serial_device.py:94-98 | an active monome grid with no encoders, a dark buffer and the grid redraw flag raised |
| MonomeDevice.RefreshGrid | neotrellis_monome_circuitpython/monome_serial_device.py:133-134 | raises the grid flag, nothing else changes |
| MonomeDevice.RefreshArc | neotrellis_monome_circuitpython/monome_serial_device.py:136-137 | raises the arc flag, nothing else changes |
| Protocol.PayloadLength | neotrellis_monome_circuitpython/monome_serial_device.py:153-394 | the bytes each opcode reads after itself: at most 34, none for a query, and none for an opcode the dispatcher does not know |
| Protocol.IdReply | neotrellis_monome_circuitpython/monome_serial_device.py:162-168 | 0x01, the identity, then zeros up to 33 bytes; a longer identity is sent whole |
| Protocol.LedMap | neotrellis_monome_circuitpython/monome_serial_device.py:220-231 | in the 8x8 block at (x & 0xF8, y & 0xF8), cell (ox+i, oy+r) is `brightness` exactly when bit i of row byte r is set, else 0; all other cells stay |
| Protocol.LedRow | neotrellis_monome_circuitpython/monome_serial_device.py:233-241 | eight cells of row y from x & 0xF8 take 15 or 0 by mask bit; y is not masked; others stay |
| Protocol.LedCol | neotrellis_monome_circuitpython/monome_serial_device.py:243-251 | eight cells of column x from y & 0xF8 take 15 or 0 by mask bit; x is not masked; others stay |
| Protocol.LevelMap | neotrellis_monome_circuitpython/monome_serial_device.py:264-288 | cell k of the aligned 8x8 block (row-major) gets clamped nibble k, a value in [0, 15]; others stay |
| Protocol.LevelRow | neotrellis_monome_circuitpython/monome_serial_device.py:290-311 | eight cells of row y & 0xF8 from x & 0xF8 get clamped nibbles 0..7; others stay |
| Protocol.LevelCol | neotrellis_monome_circuitpython/monome_serial_device.py:313-334 | eight cells of column x & 0xF8 from y & 0xF8 get clamped nibbles 0..7; others stay |
| Protocol.ArcMap | neotrellis_monome_circuitpython/monome_serial_device.py:370-383 | positions 0..63 of the ring get clamped nibbles 0..63, each in [0, 15]; other rings stay |
| Protocol.ArcRange | neotrellis_monome_circuitpython/monome_serial_device.py:385-394 | the level is set at exactly the positions of [start, end) when start < end, otherwise of [start, 64) and [0, end); nothing else changes |
| Protocol.LedCommand | neotrellis_monome_circuitpython/monome_serial_device.py:206-262 | every LED command keeps the buffer's shape |
| Protocol.InputCommand | neotrellis_monome_circuitpython/monome_serial_device.py:336-354 | 0x20/0x21 append exactly one grid event (released/pressed) and keep the arc queue; 0x50/0x51/0x52 append exactly one Turn or Press and keep the grid queue |
| Protocol.QueryReply | neotrellis_monome_circuitpython/monome_serial_device.py:155-204 | queries leave the device unchanged and fault only when the quadrant count or the size does not fit in a byte |
| Protocol.Execute | neotrellis_monome_circuitpython/monome_serial_device.py:153-394 | one command consumes opcode plus payload; geometry and threshold never change; only LED commands touch the buffer, only input commands the queues, only queries reply, only 0x02 the identity, only 0x17 the brightness; unmatched opcodes change nothing |
| Protocol.Step | neotrellis_monome_circuitpython/monome_serial_device.py:139-154 | no rows faults on every step; otherwise the step is incomplete exactly when the input is shorter than opcode plus payload; a completed step consumes exactly that many bytes and keeps the buffer rows by cols |
| ProtocolProperties.FixedReplies | neotrellis_monome_circuitpython/monome_serial_device.py:155-204 | 0x00 replies [0, 1, q, 0, 2, q] with q = cols / rows; 0x03 replies [2, 1, 0, 0]; 0x05 replies [3, cols, rows]; 0x0F replies eight zeros |
| ProtocolProperties.SetIdThenGetId | neotrellis_monome_circuitpython/monome_serial_device.py:162-171 | setting a 32-byte identity B and then asking for it replies [1] + B |
| ProtocolProperties.AllOffIdempotentAllOnBright | neotrellis_monome_circuitpython/monome_serial_device.py:214-218 | a second "all off" changes nothing; "all on" sets every cell to the brightness |
| ProtocolProperties.ArcAllIgnoresLevel | neotrellis_monome_circuitpython/monome_serial_device.py:366-368 | "arc all" gives the same result for every level byte and zeroes positions 0..63 of the ring only |
| ProtocolProperties.ArcRangeFullCircle | neotrellis_monome_circuitpython/monome_serial_device.py:385-394 | an arc range step whose start equals its end takes 5 bytes and sets every position below 64 of the ring (and below the start, for a start past 63) and nothing else |
| ProtocolProperties.ArcRangeWrapExample | neotrellis_monome_circuitpython/monome_serial_device.py:385-394 | the arc range step from 60 to 4 sets positions 60..63 and 0..3 of the ring and nothing else |
| ProtocolProperties.NibblePairExample | neotrellis_monome_circuitpython/monome_serial_device.py:370-383 | byte 0xAB unpacks to 0xA then 0xB |
| ProtocolProperties.SendGridKeyLoopsBack | neotrellis_monome_circuitpython/monome_serial_device.py:336-342 | the dispatcher reads an outbound grid key message back as exactly that grid event |
| ProtocolProperties.SendArcKeyLoopsBack | neotrellis_monome_circuitpython/monome_serial_device.py:348-354 | the dispatcher reads an outbound encoder key message back as exactly that Press event |
| ProtocolProperties.SendArcDeltaLoopsBack | neotrellis_monome_circuitpython/monome_serial_device.py:344-346 | the dispatcher reads an outbound encoder delta message back as exactly that Turn event |
| ProtocolProperties.StepIgnoresLaterBytes | neotrellis_monome_circuitpython/monome_serial_device.py:153 | a complete command is processed the same whatever bytes follow it |
| ProtocolProperties.IgnoredOpcodes | neotrellis_monome_circuitpython/monome_serial_device.py:356-360 | tilt opcodes and unmatched opcodes take one byte and change nothing |
| AsWritten.ConstructAsWritten | neotrellis_monome_circuitpython/monome_serial_device.py:86-90 | as written, construction raises whenever rows and cols are both positive, and otherwise leaves an empty buffer |
| AsWritten.AsGridAsWrittenRaises | neotrellis_monome_circuitpython/monome_serial_device.py:94-98 | the 8 by 16 grid cannot be built as written, while the intended one is a dark 8 by 16 buffer |
| AsWritten.StepLiteral | neotrellis_monome_circuitpython/monome_serial_device.py:264-265 | as written, 0x1A, 0x1B and 0x1C raise after taking four bytes; opcodes that do not read with `int()` step as intended; a raise takes at least one byte |
| AsWritten.ReadInts | neotrellis_monome_circuitpython/monome_serial_device.py:370-374 | successive `int()` reads give the decimal values of a run of digits, stop at the first non-digit, or wait when the bytes have not arrived; exactly one of the three, each pinned to the input |
| AsWritten.IntCommand | neotrellis_monome_circuitpython/monome_serial_device.py:253-262 | as written, a command read with `int()` raises at the first non-digit byte, within its own bytes and after the digits before it; when it completes it takes its full length and replies nothing |
| AsWritten.StepLiteralOnDigits | neotrellis_monome_circuitpython/monome_serial_device.py:224-231 | when every byte read with `int()` is a digit, the literal step (0x14, 0x17, 0x19, 0x92) equals the intended step on the digits' decimal values |
| AsWritten.StepLiteralRaisesAtNonDigit | neotrellis_monome_circuitpython/monome_serial_device.py:226 | the first non-digit byte read with `int()` makes the literal step raise after exactly the bytes up to it |
| AsWritten.FrameAsWrittenRaises | neotrellis_monome_circuitpython/monome_serial_device.py:221-231 | a frame whose first row byte is 0xFF raises after 4 bytes as written, while the intended step takes 11 bytes and sets all eight cells of row 0, columns 0..7, to the brightness |
| AsWritten.ArcMapAsWrittenRaises | neotrellis_monome_circuitpython/monome_serial_device.py:370-374 | an arc map for ring 0 raises at the ring byte as written, while the intended step takes all 34 bytes |
| AsWritten.LevelRowAsWrittenRaises | neotrellis_monome_circuitpython/monome_serial_device.py:290-291 | a level row command raises as written, while the intended step consumes its 7 bytes |
| AsWritten.IntOfOneByte | neotrellis_monome_circuitpython/monome_serial_device.py:254 | `int()` of one byte accepts only the digits '0' to '9', giving 0 to 9 |
| AsWritten.BrightnessAsWrittenMisreads | neotrellis_monome_circuitpython/monome_serial_device.py:253-262 | brightness byte 10 raises and 0x37 gives 7 as written, and all-level 15 raises; the intended step stores 10, 0x37 and 15 |

## Left out

- `neotrellis_monome_circuitpython/code.py` is not part of this model. It is hardware setup, LED colour output through a gamma table, the key callbacks and the refresh loop.
- The USB serial transport (`Serial.read`, `Serial.write`, `Serial.connected`) and `poll` are left out. The input is a byte sequence, and the replies and outbound messages are returned as byte sequences. A read that blocks until the payload arrives is modelled as `Incomplete`, which consumes nothing and changes nothing. A read without a size is taken as one byte.
- `get_device_info` is left out. It writes the single byte 0x00 to the transport and nothing else.
- The `queue.Queue` library is left out. Each queue is a sequence, and because the queue is unbounded, adding never fails.
- UTF-8 encoding and decoding of `device_id` is left out. The identity is kept as raw bytes, so invalid UTF-8 from the host is not rejected as it would be in the source.
- Nothing in the core reads the dirty flags. They are modelled only as boolean fields.
- Protocol.Step: the quadrant count `int(cols / rows)` is modelled as integer division. That agrees with the source's floating-point division for all sizes below 2^53.
- LedBuffer.SetGridLed: takes natural indices. The source would also accept negative Python indices, but no command produces one, because every index comes from a byte or from a masked byte plus 0..7.
- LedBuffer.SetGridLed: a write outside the buffer is dropped, whereas the source raises `IndexError`.
- LedBuffer.SetAllGridLeds: fills the whole buffer, while the source loops over rows by cols. These are the same cells, because `MonomeDevice.WellFormed` keeps the buffer at rows by cols, and `Protocol.Step` preserves it.
- Outbound.SendGridKey: takes x and y as bytes. The source writes the integers it is given, and that fails for values outside 0..255; the firmware's key callbacks pass only grid coordinates.
- Outbound.SendArcKey: takes the index as a byte. The source writes the integer it is given, and that fails for values outside 0..255; nothing in the firmware calls it.
- Outbound.SendArcDelta: takes the delta as a byte. The source writes the integer it is given, and that fails for values outside 0..255, including negative deltas.
- MonomeDevice.New: allocates the rows by cols zero buffer at construction, which is the evident intent of the code (see Findings). The arc rings share that buffer as its rows.
- AsWritten.StepLiteral: after a raise, the state the partly run command leaves is not modelled, only the bytes taken. Nothing catches the exception (the main loop calls `poll` bare), so the program stops there.
- The `int()` reads at `monome_serial_device.py` lines 274, 298 and 321 are not modelled as written: the unpack at lines 265, 291 and 314 raises before they are reached.
- AsWritten.IntOfOneByte: follows CPython's `int()` on a `bytes` object. This model does not decide whether CircuitPython's `int()` accepts `bytes` in the same way.

## Findings

| source | as written | input that shows it | evidently intended | confidence | as-written member | corrected member |
|---|---|---|---|---|---|---|
| neotrellis_monome_circuitpython/monome_serial_device.py:86-90 | `set_all_grid_leds(0)` indexes `self.leds` before it is assigned, then `self.leds = []` | `as_grid(8, 16)`, the size the firmware uses | allocate a rows by cols buffer of zeros | high; not executed | AsWritten.AsGridAsWrittenRaises | MonomeDevice.New |
| neotrellis_monome_circuitpython/monome_serial_device.py:265 | `[read_x, read_y] = Serial.read(data, 3)` unpacks three bytes into two names (also at :291 and :314) | `[0x1B, 0, 0, 0xFF, 0xFF, 0xFF, 0xFF]` | read the 2-byte origin, then the packed levels | high; not executed | AsWritten.LevelRowAsWrittenRaises | Protocol.LevelRow |
| neotrellis_monome_circuitpython/monome_serial_device.py:254 | `int(Serial.read(data))` parses the brightness byte as decimal text (also the all-level byte at :261) | `[0x17, 10]` raises; `[0x17, 0x37]` sets brightness 7; `[0x19, 15]` raises | use the byte's value | medium; not executed | AsWritten.BrightnessAsWrittenMisreads | Protocol.Execute |
| neotrellis_monome_circuitpython/monome_serial_device.py:226 | `int(Serial.read(data))` parses each frame row mask as decimal text | `[0x14, 0, 0, 0xFF, …]` raises at the first row | use the byte as the row's bit mask | medium; not executed | AsWritten.FrameAsWrittenRaises | Protocol.LedMap |
| neotrellis_monome_circuitpython/monome_serial_device.py:371 | `int(Serial.read(data))` parses the arc map ring byte as decimal text (and each packed level byte at :374) | `[0x92, 0, …]` raises at the ring byte | use the bytes' values | medium; not executed | AsWritten.ArcMapAsWrittenRaises | Protocol.ArcMap |
