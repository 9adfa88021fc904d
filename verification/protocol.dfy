/** The serial command dispatcher. One step reads an opcode byte, then that
    opcode's fixed-length payload, then changes the LED buffer, the
    brightness, the identity or the input queues, or writes a reply. The
    transport is replaced by the bytes received so far (the input) and the
    bytes written back (the output). */
module Protocol {
  import opened Bytes
  import opened LedBuffer
  import opened Payload
  import opened MonomeDevice
  import Events

  /** What the source would raise instead of completing a command. */
  datatype Fault =
    | DivisionByZero   // the quadrant count cols / rows with rows == 0
    | ByteOutOfRange   // a reply value that does not fit in a byte

  /** The result of one dispatcher step: the new state, the reply bytes and
      how many input bytes the command took; or not enough input yet for the
      whole command (nothing is consumed and nothing changes); or a fault. */
  datatype Outcome =
    | Done(dev: Device, out: seq<byte>, consumed: nat)
    | Incomplete
    | Crash(fault: Fault)

  /** Payload bytes that follow each opcode. Opcodes the dispatcher does not
      know take none. */
  function PayloadLength(op: byte): (r: nat)
    ensures r <= 34
    ensures r > 0 ==> IsKnown(op)
    ensures IsQuery(op) ==> r == 0
  {
    match op
    case 0x02 => 32
    case 0x04 => 3
    case 0x06 => 2
    case 0x08 => 2
    case 0x10 => 2
    case 0x11 => 2
    case 0x14 => 2 + 8
    case 0x15 => 3
    case 0x16 => 3
    case 0x17 => 1
    case 0x18 => 3
    case 0x19 => 1
    case 0x1A => 2 + 32
    case 0x1B => 2 + 4
    case 0x1C => 2 + 4
    case 0x20 => 2
    case 0x21 => 2
    case 0x50 => 2
    case 0x51 => 1
    case 0x52 => 1
    case 0x90 => 3
    case 0x91 => 2
    case 0x92 => 1 + 32
    case 0x93 => 4
    case _ => 0
  }

  /** Opcodes that write a reply. */
  predicate IsQuery(op: byte)
  {
    op == 0x00 || op == 0x01 || op == 0x03 || op == 0x05 || op == 0x0F
  }

  /** Opcodes that change the LED buffer. */
  predicate IsLedCommand(op: byte)
  {
    0x10 <= op <= 0x16 || 0x18 <= op <= 0x1C || 0x90 <= op <= 0x93
  }

  /** Opcodes that append to an input queue. */
  predicate IsInputCommand(op: byte)
  {
    op == 0x20 || op == 0x21 || op == 0x50 || op == 0x51 || op == 0x52
  }

  /** Opcodes with a case in the dispatcher. */
  predicate IsKnown(op: byte)
  {
    || IsQuery(op) || IsLedCommand(op) || IsInputCommand(op)
    || op == 0x02 || op == 0x04 || op == 0x06 || op == 0x08 || op == 0x17
    || op == 0x80 || op == 0x81
  }

  function ZeroBytes(n: nat): (r: seq<byte>)
    ensures |r| == n && forall k :: 0 <= k < n ==> r[k] == 0
  {
    seq(n, _ => 0)
  }

  /** The "get id" reply: 0x01, the identity, then zeros up to 32 identity
      bytes; a longer identity is sent whole. */
  function IdReply(id: seq<byte>): (r: seq<byte>)
    ensures |r| == 1 + (if |id| < 32 then 32 else |id|)
    ensures r[0] == 0x01 && r[1..1 + |id|] == id
    ensures forall k :: 1 + |id| <= k < |r| ==> r[k] == 0
  {
    [0x01] + id + ZeroBytes(if |id| < 32 then 32 - |id| else 0)
  }

  // LED commands with a payload that is more than a single cell.

  /** 0x14: eight row masks over the 8x8 block at (x & 0xF8, y & 0xF8); a
      set bit i in row byte r lights (ox + i, oy + r) at `on`, a clear bit
      turns it off. */
  function LedMap(b: Buffer, x: byte, y: byte, masks: seq<byte>, on: int): (r: Buffer)
    requires |masks| == 8
    ensures SameShape(r, b)
    ensures forall j, i :: InBounds(b, i, j) ==>
              r[j][i] == (if InBlock(AlignDown8(x), AlignDown8(y), i, j)
                          then (if Bit(masks[j - AlignDown8(y)], i - AlignDown8(x)) then on else 0)
                          else b[j][i])
  {
    var ox, oy := AlignDown8(x), AlignDown8(y);
    var vals := FrameLevels(masks, on);
    var r := WriteBlock(b, ox, oy, vals);
    forall j, i | InBounds(b, i, j) && InBlock(ox, oy, i, j)
      ensures r[j][i] == (if Bit(masks[j - oy], i - ox) then on else 0)
    {
      assert vals[BlockIndex(ox, oy, i, j)] == MaskLevels(masks[j - oy], on)[i - ox];
    }
    r
  }

  /** 0x15: eight cells of row y from x & 0xF8 on; set bits give 15. */
  function LedRow(b: Buffer, x: byte, y: byte, mask: byte): (r: Buffer)
    ensures SameShape(r, b)
    ensures forall j, i :: InBounds(b, i, j) ==>
              r[j][i] == (if j == y && AlignDown8(x) <= i < AlignDown8(x) + 8
                          then (if Bit(mask, i - AlignDown8(x)) then 15 else 0)
                          else b[j][i])
  {
    WriteRow(b, AlignDown8(x), y, MaskLevels(mask, 15))
  }

  /** 0x16: eight cells of column x from y & 0xF8 on; set bits give 15. */
  function LedCol(b: Buffer, x: byte, y: byte, mask: byte): (r: Buffer)
    ensures SameShape(r, b)
    ensures forall j, i :: InBounds(b, i, j) ==>
              r[j][i] == (if i == x && AlignDown8(y) <= j < AlignDown8(y) + 8
                          then (if Bit(mask, j - AlignDown8(y)) then 15 else 0)
                          else b[j][i])
  {
    WriteColumn(b, x, AlignDown8(y), MaskLevels(mask, 15))
  }

  /** 0x1A: 64 packed levels over the 8x8 block at (x & 0xF8, y & 0xF8), row
      by row; every level stored is in [0, 15]. */
  function LevelMap(b: Buffer, x: byte, y: byte, packed: seq<byte>, thresh: int): (r: Buffer)
    requires |packed| == 32
    ensures SameShape(r, b)
    ensures forall j, i :: InBounds(b, i, j) ==>
              r[j][i] == (if InBlock(AlignDown8(x), AlignDown8(y), i, j)
                          then Clamp(Nibble(packed, BlockIndex(AlignDown8(x), AlignDown8(y), i, j)), thresh)
                          else b[j][i])
    ensures forall j, i :: InBounds(b, i, j) && InBlock(AlignDown8(x), AlignDown8(y), i, j) ==>
              0 <= r[j][i] < 16
  {
    var ox, oy := AlignDown8(x), AlignDown8(y);
    var vals := NibbleLevels(packed, thresh);
    var r := WriteBlock(b, ox, oy, vals);
    forall j, i | InBounds(b, i, j) && InBlock(ox, oy, i, j)
      ensures 0 <= r[j][i] < 16
    {
      assert r[j][i] == vals[BlockIndex(ox, oy, i, j)];
    }
    r
  }

  /** 0x1B: 8 packed levels along row y & 0xF8 from column x & 0xF8. */
  function LevelRow(b: Buffer, x: byte, y: byte, packed: seq<byte>, thresh: int): (r: Buffer)
    requires |packed| == 4
    ensures SameShape(r, b)
    ensures forall j, i :: InBounds(b, i, j) ==>
              r[j][i] == (if j == AlignDown8(y) && AlignDown8(x) <= i < AlignDown8(x) + 8
                          then Clamp(Nibble(packed, i - AlignDown8(x)), thresh)
                          else b[j][i])
  {
    WriteRow(b, AlignDown8(x), AlignDown8(y), NibbleLevels(packed, thresh))
  }

  /** 0x1C: 8 packed levels down column x & 0xF8 from row y & 0xF8. */
  function LevelCol(b: Buffer, x: byte, y: byte, packed: seq<byte>, thresh: int): (r: Buffer)
    requires |packed| == 4
    ensures SameShape(r, b)
    ensures forall j, i :: InBounds(b, i, j) ==>
              r[j][i] == (if i == AlignDown8(x) && AlignDown8(y) <= j < AlignDown8(y) + 8
                          then Clamp(Nibble(packed, j - AlignDown8(y)), thresh)
                          else b[j][i])
  {
    WriteColumn(b, AlignDown8(x), AlignDown8(y), NibbleLevels(packed, thresh))
  }

  /** 0x92: 64 packed levels over positions 0..63 of one ring. */
  function ArcMap(b: Buffer, ring: byte, packed: seq<byte>, thresh: int): (r: Buffer)
    requires |packed| == 32
    ensures SameShape(r, b)
    ensures forall j, i :: InBounds(b, i, j) ==>
              r[j][i] == (if j == ring && i < 64 then Clamp(Nibble(packed, i), thresh) else b[j][i])
    ensures forall j, i :: InBounds(b, i, j) && j == ring && i < 64 ==> 0 <= r[j][i] < 16
  {
    WriteRow(b, 0, ring, NibbleLevels(packed, thresh))
  }

  /** Whether the arc range from `start` to `end` covers position p: the
      half-open interval when start < end, otherwise the interval wrapped
      round through position 63 back to 0. */
  predicate InArcRange(start: nat, end: nat, p: nat)
  {
    if start < end then start <= p < end else start <= p < 64 || p < end
  }

  /** 0x93: `level` at every position of the arc range, nothing else. */
  function ArcRange(b: Buffer, ring: byte, start: byte, end: byte, level: int): (r: Buffer)
    ensures SameShape(r, b)
    ensures forall j, i :: InBounds(b, i, j) ==>
              r[j][i] == (if j == ring && InArcRange(start, end, i) then level else b[j][i])
  {
    var positions := if start < end then Range(start, end) else Range(start, 64) + Range(0, end);
    WriteRing(b, ring, positions, level)
  }

  /** The new LED buffer after an LED command. */
  function LedCommand(d: Device, op: byte, p: seq<byte>): (r: Buffer)
    requires IsLedCommand(op)
    requires |p| == PayloadLength(op)
    ensures SameShape(r, d.leds)
  {
    var b := d.leds;
    match op
    case 0x10 => ClearGridLed(b, p[0], p[1])
    case 0x11 => SetGridLed(b, p[0], p[1], d.brightness)
    case 0x12 => SetAllGridLeds(b, 0)
    case 0x13 => SetAllGridLeds(b, d.brightness)
    case 0x14 => LedMap(b, p[0], p[1], p[2..], d.brightness)
    case 0x15 => LedRow(b, p[0], p[1], p[2])
    case 0x16 => LedCol(b, p[0], p[1], p[2])
    case 0x18 => SetGridLed(b, p[0], p[1], p[2])
    case 0x19 => SetAllGridLeds(b, p[0])
    case 0x1A => LevelMap(b, p[0], p[1], p[2..], d.variMonoThresh)
    case 0x1B => LevelRow(b, p[0], p[1], p[2..], d.variMonoThresh)
    case 0x1C => LevelCol(b, p[0], p[1], p[2..], d.variMonoThresh)
    case 0x90 => SetArcLed(b, p[0], p[1], p[2])
    case 0x91 => SetAllArcLeds(b, p[0], p[1])
    case 0x92 => ArcMap(b, p[0], p[1..], d.variMonoThresh)
    case 0x93 => ArcRange(b, p[0], p[1], p[2], p[3])
  }

  /** The input queues after an inbound key or encoder command: exactly one
      event of the matching kind is appended, and the other queue is kept. */
  function InputCommand(q: Events.EventQueue, op: byte, p: seq<byte>): (r: Events.EventQueue)
    requires IsInputCommand(op)
    requires |p| == PayloadLength(op)
    ensures op == 0x20 || op == 0x21 ==>
              r.arc == q.arc && r.grid == q.grid + [Events.GridEvent(p[0], p[1], op == 0x21)]
    ensures op == 0x50 ==> r.grid == q.grid && r.arc == q.arc + [Events.Turn(p[0], p[1])]
    ensures op == 0x51 || op == 0x52 ==>
              r.grid == q.grid && r.arc == q.arc + [Events.Press(p[0], op == 0x52)]
  {
    match op
    case 0x20 => Events.AddGridEvent(q, p[0], p[1], false)
    case 0x21 => Events.AddGridEvent(q, p[0], p[1], true)
    case 0x50 => Events.AddArcTurnEvent(q, p[0], p[1])
    case 0x51 => Events.AddArcPressEvent(q, p[0], false)
    case 0x52 => Events.AddArcPressEvent(q, p[0], true)
  }

  /** The reply to a query, or the fault the source raises building it. */
  function QueryReply(d: Device, op: byte): (r: Outcome)
    requires d.rows > 0
    requires IsQuery(op)
    ensures r.Crash? <==> (op == 0x00 && d.cols / d.rows >= 256)
                          || (op == 0x05 && (d.cols >= 256 || d.rows >= 256))
    ensures r.Done? ==> r.dev == d && r.consumed == 1
  {
    match op
    case 0x00 =>
      var quads := d.cols / d.rows;
      if quads < 256 then Done(d, [0x00, 0x01, quads, 0x00, 0x02, quads], 1)
      else Crash(ByteOutOfRange)
    case 0x01 => Done(d, IdReply(d.deviceId), 1)
    case 0x03 => Done(d, [0x02, 0x01, 0, 0], 1)
    case 0x05 =>
      if d.cols < 256 && d.rows < 256 then Done(d, [0x03, d.cols, d.rows], 1)
      else Crash(ByteOutOfRange)
    case 0x0F => Done(d, ZeroBytes(8), 1)
  }

  /** Runs one opcode on its complete payload. */
  function Execute(d: Device, op: byte, p: seq<byte>): (r: Outcome)
    requires d.rows > 0
    requires |p| == PayloadLength(op)
    ensures r.Incomplete? == false
    ensures r.Crash? <==> (op == 0x00 && d.cols / d.rows >= 256)
                          || (op == 0x05 && (d.cols >= 256 || d.rows >= 256))
    ensures r.Done? ==> r.consumed == 1 + |p|
    ensures r.Done? ==> r.dev.rows == d.rows && r.dev.cols == d.cols && r.dev.encoders == d.encoders
    ensures r.Done? ==> r.dev.variMonoThresh == d.variMonoThresh
    ensures r.Done? ==> SameShape(r.dev.leds, d.leds)
    ensures r.Done? ==> WellFormed(d) ==> WellFormed(r.dev)
    ensures r.Done? && !IsLedCommand(op) ==> r.dev.leds == d.leds
    ensures r.Done? && !IsInputCommand(op) ==> r.dev.events == d.events
    ensures r.Done? && !IsQuery(op) ==> r.out == []
    ensures r.Done? && op != 0x02 ==> r.dev.deviceId == d.deviceId
    ensures r.Done? && op != 0x17 ==> r.dev.brightness == d.brightness
    ensures r.Done? && !IsKnown(op) ==> r.dev == d
  {
    var n := 1 + |p|;
    if IsQuery(op) then QueryReply(d, op)
    else if IsLedCommand(op) then Done(d.(leds := LedCommand(d, op, p)), [], n)
    else if IsInputCommand(op) then Done(d.(events := InputCommand(d.events, op, p)), [], n)
    else if op == 0x02 then Done(d.(deviceId := p), [], n)
    else if op == 0x17 then Done(d.(brightness := p[0]), [], n)
    else Done(d, [], n)  // 0x04, 0x06, 0x08: payload read and discarded; 0x80, 0x81: no-ops; others unmatched
  }

  /** One dispatcher step on the bytes received so far. The quadrant count is
      computed before anything is read, so a device with no rows faults on
      every step. */
  function Step(d: Device, input: seq<byte>): (r: Outcome)
    ensures d.rows == 0 <==> r == Crash(DivisionByZero)
    ensures d.rows > 0 ==>
              (r.Incomplete? <==> |input| == 0 || |input| < 1 + PayloadLength(input[0]))
    ensures r.Done? ==> 0 < r.consumed <= |input| && r.consumed == 1 + PayloadLength(input[0])
    ensures r.Done? && WellFormed(d) ==> WellFormed(r.dev)
    ensures r.Done? ==> r.dev.rows == d.rows && r.dev.cols == d.cols
    ensures r.Done? && !IsKnown(input[0]) ==> r.dev == d && r.out == [] && r.consumed == 1
  {
    if d.rows == 0 then Crash(DivisionByZero)
    else if |input| == 0 || |input| < 1 + PayloadLength(input[0]) then Incomplete
    else Execute(d, input[0], input[1..1 + PayloadLength(input[0])])
  }
}
