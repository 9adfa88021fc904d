/** Properties of whole dispatcher steps: the fixed replies, the identity
    round trip, idempotence of "all off", the loop from the outbound encoder
    back through the dispatcher, and the arc and nibble examples the protocol
    is known by. */
module ProtocolProperties {
  import opened Bytes
  import opened LedBuffer
  import opened Payload
  import opened MonomeDevice
  import opened Protocol
  import opened Outbound
  import Events

  /** The queries answer with fixed bytes built from the geometry alone. */
  lemma FixedReplies(d: Device, rest: seq<byte>)
    requires d.rows > 0
    ensures d.cols / d.rows < 256 ==>
              Step(d, [0x00] + rest)
              == Done(d, [0x00, 0x01, d.cols / d.rows, 0x00, 0x02, d.cols / d.rows], 1)
    ensures Step(d, [0x03] + rest) == Done(d, [0x02, 0x01, 0x00, 0x00], 1)
    ensures d.cols < 256 && d.rows < 256 ==>
              Step(d, [0x05] + rest) == Done(d, [0x03, d.cols, d.rows], 1)
    ensures Step(d, [0x0F] + rest) == Done(d, [0, 0, 0, 0, 0, 0, 0, 0], 1)
  {
  }

  /** Writing a 32-byte identity and then asking for it echoes 0x01 followed
      by exactly those 32 bytes, trailing zeros included. */
  lemma SetIdThenGetId(d: Device, id: seq<byte>, rest: seq<byte>)
    requires d.rows > 0 && |id| == 32
    ensures Step(d, [0x02] + id + rest).Done?
    ensures Step(d, [0x02] + id + rest).consumed == 33
    ensures Step(Step(d, [0x02] + id + rest).dev, [0x01] + rest).out == [0x01] + id
  {
    var input := [0x02] + id + rest;
    assert input[1..33] == id;
    var d1 := Step(d, input).dev;
    assert d1.deviceId == id;
    assert IdReply(id) == [0x01] + id;
  }

  /** "All off" twice leaves the device as "all off" once does, and "all on"
      lights every cell at the current brightness. */
  lemma AllOffIdempotentAllOnBright(d: Device, rest: seq<byte>)
    requires d.rows > 0
    ensures Step(d, [0x12] + rest).Done?
    ensures var d1 := Step(d, [0x12] + rest).dev;
            Step(d1, [0x12] + rest) == Done(d1, [], 1)
    ensures forall j, i :: InBounds(d.leds, i, j) ==>
              Step(d, [0x13] + rest).dev.leds[j][i] == d.brightness
  {
    var d1 := Step(d, [0x12] + rest).dev;
    var b2 := SetAllGridLeds(d1.leds, 0);
    assert |b2| == |d1.leds|;
    forall j | 0 <= j < |b2|
      ensures b2[j] == d1.leds[j]
    {
      assert |b2[j]| == |d1.leds[j]|;
      forall i | 0 <= i < |b2[j]|
        ensures b2[j][i] == d1.leds[j][i]
      {
        assert InBounds(d1.leds, i, j);
        assert InBounds(d.leds, i, j);
      }
    }
    assert b2 == d1.leds;
  }

  /** "Arc all" zeroes the first 64 positions of the ring whatever level the
      host sends, and leaves every other ring alone. */
  lemma ArcAllIgnoresLevel(d: Device, ring: byte, v1: byte, v2: byte)
    requires d.rows > 0
    ensures Step(d, [0x91, ring, v1]) == Step(d, [0x91, ring, v2])
    ensures Step(d, [0x91, ring, v1]).Done?
    ensures forall j, i :: InBounds(d.leds, i, j) ==>
              Step(d, [0x91, ring, v1]).dev.leds[j][i] == (if j == ring && i < 64 then 0 else d.leds[j][i])
  {
    assert [0x91, ring, v1][1..3] == [ring, v1];
    assert Step(d, [0x91, ring, v1]) == Done(d.(leds := SetAllArcLeds(d.leds, ring, v1)), [], 3);
    assert [0x91, ring, v2][1..3] == [ring, v2];
    assert Step(d, [0x91, ring, v2]) == Done(d.(leds := SetAllArcLeds(d.leds, ring, v2)), [], 3);
  }

  /** An arc range command whose start equals its end sets the whole ring:
      every position below 64 of that ring, and nothing else. (A start past
      63 also reaches the positions below it, which a 64-LED ring does not
      have.) */
  lemma ArcRangeFullCircle(d: Device, ring: byte, start: byte, level: byte, rest: seq<byte>)
    requires d.rows > 0
    ensures Step(d, [0x93, ring, start, start, level] + rest).Done?
    ensures Step(d, [0x93, ring, start, start, level] + rest).consumed == 5
    ensures forall j, i :: InBounds(d.leds, i, j) ==>
              Step(d, [0x93, ring, start, start, level] + rest).dev.leds[j][i]
              == (if j == ring && (i < 64 || i < start) then level else d.leds[j][i])
  {
    var input := [0x93, ring, start, start, level] + rest;
    assert input[1..5] == [ring, start, start, level];
    assert Step(d, input) == Done(d.(leds := ArcRange(d.leds, ring, start, start, level)), [], 5);
    forall i: nat
      ensures InArcRange(start, start, i) <==> i < 64 || i < start
    {
    }
  }

  /** The wrapped arc range from 60 to 4 sets positions 60, 61, 62, 63, 0, 1,
      2 and 3 of the ring and nothing else. */
  lemma ArcRangeWrapExample(d: Device, ring: byte, level: byte, rest: seq<byte>)
    requires d.rows > 0
    ensures Step(d, [0x93, ring, 60, 4, level] + rest).Done?
    ensures forall j, i :: InBounds(d.leds, i, j) ==>
              Step(d, [0x93, ring, 60, 4, level] + rest).dev.leds[j][i]
              == (if j == ring && (60 <= i < 64 || i < 4) then level else d.leds[j][i])
  {
    var input := [0x93, ring, 60, 4, level] + rest;
    assert input[1..5] == [ring, 60, 4, level];
    assert Step(d, input) == Done(d.(leds := ArcRange(d.leds, ring, 60, 4, level)), [], 5);
  }

  /** Byte 0xAB unpacks to level 0xA then level 0xB. */
  lemma NibblePairExample()
    ensures NibbleLevels([0xAB], 0) == [0xA, 0xB]
  {
    assert Nibble([0xAB], 0) == 0xA;
    assert Nibble([0xAB], 1) == 0xB;
  }

  /** A grid key message from the outbound encoder, fed to the dispatcher,
      appends exactly that key event to the grid queue and nothing else. */
  lemma SendGridKeyLoopsBack(d: Device, x: byte, y: byte, pressed: bool)
    requires d.rows > 0
    ensures Step(d, SendGridKey(x, y, pressed))
            == Done(d.(events := Events.AddGridEvent(d.events, x, y, pressed)), [], 3)
  {
    assert SendGridKey(x, y, pressed)[1..3] == [x, y];
  }

  lemma SendArcKeyLoopsBack(d: Device, index: byte, pressed: bool)
    requires d.rows > 0
    ensures Step(d, SendArcKey(index, pressed))
            == Done(d.(events := Events.AddArcPressEvent(d.events, index, pressed)), [], 2)
  {
    assert SendArcKey(index, pressed)[1..2] == [index];
  }

  lemma SendArcDeltaLoopsBack(d: Device, index: byte, delta: byte)
    requires d.rows > 0
    ensures Step(d, SendArcDelta(index, delta))
            == Done(d.(events := Events.AddArcTurnEvent(d.events, index, delta)), [], 3)
  {
    assert SendArcDelta(index, delta)[1..3] == [index, delta];
  }

  /** A complete command is processed the same whatever bytes follow it. */
  lemma StepIgnoresLaterBytes(d: Device, input: seq<byte>, more: seq<byte>)
    requires Step(d, input).Done?
    ensures Step(d, input + more) == Step(d, input)
  {
    var n := 1 + PayloadLength(input[0]);
    assert (input + more)[0] == input[0];
    assert (input + more)[1..n] == input[1..n];
  }

  /** The tilt opcodes and every opcode without a case consume one byte and
      change nothing. */
  lemma IgnoredOpcodes(d: Device, op: byte, rest: seq<byte>)
    requires d.rows > 0
    requires op == 0x80 || op == 0x81 || !IsKnown(op)
    ensures Step(d, [op] + rest) == Done(d, [], 1)
  {
  }
}
