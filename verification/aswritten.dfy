/** Three places where the device's code, read literally, cannot do what it
    evidently means to do. Each is modelled here as written, up to the state
    a raise leaves behind (nothing catches it, so the program stops), with a
    concrete input that shows the difference; the rest of the model uses the
    evidently intended behaviour (`MonomeDevice.New`, `Protocol.Step`). */
module AsWritten {
  import opened Bytes
  import opened MonomeDevice
  import Protocol

  /** The Python exceptions the literal code raises. */
  datatype PyError = AttributeError | ValueError

  datatype Built = Built(dev: Device) | Raises(error: PyError)

  /** The constructor as written: it fills `leds` row by row before the
      attribute exists, which raises as soon as the first cell is written;
      otherwise it ends with an empty buffer. */
  function ConstructAsWritten(active: bool, isMonome: bool, isGrid: bool,
                              rows: nat, cols: nat, encoders: nat): (r: Built)
    ensures r.Raises? <==> rows > 0 && cols > 0
    ensures r.Built? ==> r.dev.leds == [] && r.dev.brightness == 15 && r.dev.deviceId == []
  {
    if rows > 0 && cols > 0 then Raises(AttributeError)
    else Built(New(active, isMonome, isGrid, rows, cols, encoders).(leds := []))
  }

  /** The 8 by 16 grid the firmware builds cannot be constructed as written,
      while the intended constructor yields a dark 8 by 16 buffer. */
  lemma AsGridAsWrittenRaises()
    ensures ConstructAsWritten(true, true, true, 8, 16, 0) == Raises(AttributeError)
    ensures WellFormed(AsGrid(8, 16)) && |AsGrid(8, 16).leds| == 8 && |AsGrid(8, 16).leds[7]| == 16
    ensures AsGrid(8, 16).leds[7][15] == 0
  {
    assert LedBuffer.InBounds(AsGrid(8, 16).leds, 15, 7);
  }

  /** Whether `int()` accepts a one-byte `bytes` object: it parses the
      byte as decimal text, so only the digits '0' to '9' are accepted. */
  predicate IsDigit(b: byte)
  {
    0x30 <= b <= 0x39
  }

  datatype Parsed = Parsed(value: int) | ParseRaises(error: PyError)

  /** `int(b)` on a one-byte `bytes` object: the digits '0' to '9' give 0 to
      9, and any other byte raises. */
  function IntOfOneByte(b: byte): (r: Parsed)
    ensures r.ParseRaises? <==> !IsDigit(b)
    ensures r.Parsed? ==> 0 <= r.value <= 9 && r.value == b - 0x30
  {
    if IsDigit(b) then Parsed(b - 0x30) else ParseRaises(ValueError)
  }

  /** The outcome of `n` successive `int(Serial.read(data))` calls on the
      bytes from `input[start]` on: the parsed values, or the position of the
      first byte that raises, or not enough bytes yet (with no byte raising
      among those that have arrived). */
  datatype IntReads = Digits(values: seq<byte>) | NonDigitAt(index: nat) | ShortOfDigits

  function ReadInts(input: seq<byte>, start: nat, n: nat): (r: IntReads)
    ensures r.Digits? ==> start + n <= |input| && |r.values| == n
    ensures r.Digits? ==> forall j :: start <= j < start + n ==>
              IsDigit(input[j]) && r.values[j - start] == input[j] - 0x30
    ensures r.NonDigitAt? ==> start <= r.index < start + n && r.index < |input|
    ensures r.NonDigitAt? ==> !IsDigit(input[r.index]) && forall j :: start <= j < r.index ==> IsDigit(input[j])
    ensures r.ShortOfDigits? ==> |input| < start + n && forall j :: start <= j < |input| ==> IsDigit(input[j])
    decreases n
  {
    if n == 0 then (if start <= |input| then Digits([]) else ShortOfDigits)
    else if |input| <= start then ShortOfDigits
    else match IntOfOneByte(input[start])
      case ParseRaises(_) => NonDigitAt(start)
      case Parsed(v) =>
        match ReadInts(input, start + 1, n - 1)
        case Digits(vs) => Digits([v] + vs)
        case other => other
  }

  /** The opcodes whose handlers read with `int()`: the frame rows (0x14),
      the brightness (0x17), the all-LED level (0x19) and the arc ring and
      levels (0x92). */
  predicate ReadsWithInt(op: byte)
  {
    op == 0x14 || op == 0x17 || op == 0x19 || op == 0x92
  }

  /** The input position of the first byte such an opcode reads with
      `int()`; the reads then run to the end of the command. */
  function IntReadStart(op: byte): nat
  {
    if op == 0x14 then 3 else 1
  }

  /** The outcome of a step as written. A raise is not caught anywhere (the
      firmware's main loop calls `poll` bare), so it ends the program; the
      state it leaves behind is therefore not modelled, only how many bytes
      were taken before it. */
  datatype StepAsWritten = Stepped(outcome: Protocol.Outcome) | RaisesAfter(consumed: nat, error: PyError)

  /** A step as written. The level map, row and column commands read three
      origin bytes and unpack them into two names, which raises after four
      bytes have been taken. The frame, brightness, all-level and arc map
      commands parse their bytes with `int()` (`IntCommand`). Every other
      opcode behaves as in `Protocol.Step`. */
  function StepLiteral(d: Device, input: seq<byte>): (r: StepAsWritten)
    ensures |input| > 0 && d.rows > 0 && |input| >= 4 && 0x1A <= input[0] <= 0x1C ==>
              r == RaisesAfter(4, ValueError)
    ensures |input| == 0 || (!(0x1A <= input[0] <= 0x1C) && !ReadsWithInt(input[0])) ==>
              r == Stepped(Protocol.Step(d, input))
    ensures r.RaisesAfter? ==> d.rows > 0 && 0 < r.consumed <= |input| && r.error == ValueError
  {
    if d.rows == 0 || |input| == 0 then Stepped(Protocol.Step(d, input))
    else if 0x1A <= input[0] <= 0x1C then
      if |input| < 4 then Stepped(Protocol.Incomplete) else RaisesAfter(4, ValueError)
    else if ReadsWithInt(input[0]) then IntCommand(d, input)
    else Stepped(Protocol.Step(d, input))
  }

  /** A command whose bytes are parsed with `int()`, as written: the first
      of them that is not a decimal digit raises once it has been taken; if
      all are digits, their decimal values are used where the protocol means
      the bytes themselves. */
  function IntCommand(d: Device, input: seq<byte>): (r: StepAsWritten)
    requires d.rows > 0 && |input| > 0 && ReadsWithInt(input[0])
    ensures r.RaisesAfter? ==> r.error == ValueError
    ensures r.RaisesAfter? ==> IntReadStart(input[0]) < r.consumed <= |input|
    ensures r.RaisesAfter? ==> r.consumed <= 1 + Protocol.PayloadLength(input[0])
    ensures r.RaisesAfter? ==> !IsDigit(input[r.consumed - 1])
    ensures r.RaisesAfter? ==> forall j :: IntReadStart(input[0]) <= j < r.consumed - 1 ==> IsDigit(input[j])
    ensures r.Stepped? && r.outcome.Done? ==> r.outcome.consumed == 1 + Protocol.PayloadLength(input[0])
    ensures r.Stepped? && r.outcome.Done? ==> r.outcome.out == []
  {
    var op := input[0];
    var lo := IntReadStart(op);
    var n := 1 + Protocol.PayloadLength(op);
    match ReadInts(input, lo, n - lo)
    case NonDigitAt(k) => RaisesAfter(k + 1, ValueError)
    case ShortOfDigits => Stepped(Protocol.Incomplete)
    case Digits(v) => Stepped(Protocol.Done(IntCommandEffect(d, input, v), [], n))
  }

  /** The state after an `int()`-reading command whose parsed values are `v`. */
  function IntCommandEffect(d: Device, input: seq<byte>, v: seq<byte>): (r: Device)
    requires |input| > 0 && ReadsWithInt(input[0])
    requires |input| >= IntReadStart(input[0])
    requires |v| == Protocol.PayloadLength(input[0]) + 1 - IntReadStart(input[0])
    ensures input[0] == 0x17 ==> r == d.(brightness := v[0])
    ensures input[0] != 0x17 ==> r == d.(leds := r.leds) && LedBuffer.SameShape(r.leds, d.leds)
  {
    match input[0]
    case 0x14 => d.(leds := Protocol.LedMap(d.leds, input[1], input[2], v, d.brightness))
    case 0x17 => d.(brightness := v[0])
    case 0x19 => d.(leds := LedBuffer.SetAllGridLeds(d.leds, v[0]))
    case 0x92 => d.(leds := Protocol.ArcMap(d.leds, v[0], v[1..], d.variMonoThresh))
  }

  /** The input with every digit byte at positions lo to hi - 1 replaced by
      its decimal value. */
  function Decimalised(s: seq<byte>, lo: nat, hi: nat): (r: seq<byte>)
    ensures |r| == |s|
    ensures forall j :: 0 <= j < |s| ==> r[j] == (if lo <= j < hi && IsDigit(s[j]) then s[j] - 0x30 else s[j])
  {
    seq(|s|, j requires 0 <= j < |s| => if lo <= j < hi && IsDigit(s[j]) then s[j] - 0x30 else s[j])
  }

  /** When every byte an `int()`-reading command parses is a decimal digit,
      the literal step is the intended step on the decimal values of those
      bytes: the code reads digits where the protocol sends values. */
  lemma StepLiteralOnDigits(d: Device, input: seq<byte>)
    requires d.rows > 0 && |input| > 0 && ReadsWithInt(input[0])
    requires forall j :: IntReadStart(input[0]) <= j < |input| && j < 1 + Protocol.PayloadLength(input[0]) ==>
               IsDigit(input[j])
    ensures StepLiteral(d, input)
            == Stepped(Protocol.Step(d, Decimalised(input, IntReadStart(input[0]), 1 + Protocol.PayloadLength(input[0]))))
  {
    var op := input[0];
    var n := 1 + Protocol.PayloadLength(op);
    var lo := IntReadStart(op);
    var s := Decimalised(input, lo, n);
    assert StepLiteral(d, input) == IntCommand(d, input);
    if |input| < n {
      assert !ReadInts(input, lo, n - lo).Digits?;
      assert Protocol.Step(d, s) == Protocol.Incomplete;
    } else {
      DigitsEffect(d, input);
    }
  }

  /** The full-length half of `StepLiteralOnDigits`. */
  lemma DigitsEffect(d: Device, input: seq<byte>)
    requires d.rows > 0 && |input| > 0 && ReadsWithInt(input[0])
    requires |input| >= 1 + Protocol.PayloadLength(input[0])
    requires forall j :: IntReadStart(input[0]) <= j < 1 + Protocol.PayloadLength(input[0]) ==> IsDigit(input[j])
    ensures IntCommand(d, input)
            == Stepped(Protocol.Step(d, Decimalised(input, IntReadStart(input[0]), 1 + Protocol.PayloadLength(input[0]))))
  {
    match input[0]
    case 0x14 => FrameOnDigits(d, input);
    case 0x17 => SingleOnDigits(d, input);
    case 0x19 => SingleOnDigits(d, input);
    case 0x92 => ArcMapOnDigits(d, input);
  }

  /** Parsing a run of digits gives the run of the decimalised input. */
  lemma ReadIntsDecimalised(input: seq<byte>, lo: nat, hi: nat)
    requires lo <= hi <= |input|
    requires forall j :: lo <= j < hi ==> IsDigit(input[j])
    ensures ReadInts(input, lo, hi - lo) == Digits(Decimalised(input, lo, hi)[lo..hi])
  {
    var rd := ReadInts(input, lo, hi - lo);
    var s := Decimalised(input, lo, hi);
    assert rd.Digits?;
    assert |rd.values| == |s[lo..hi]|;
    forall k | 0 <= k < hi - lo
      ensures rd.values[k] == s[lo..hi][k]
    {
      assert rd.values[(lo + k) - lo] == input[lo + k] - 0x30;
    }
  }

  /** `DigitsEffect` for the frame command (0x14). */
  lemma FrameOnDigits(d: Device, input: seq<byte>)
    requires d.rows > 0 && |input| >= 11 && input[0] == 0x14
    requires forall j :: 3 <= j < 11 ==> IsDigit(input[j])
    ensures IntCommand(d, input) == Stepped(Protocol.Step(d, Decimalised(input, 3, 11)))
  {
    var s := Decimalised(input, 3, 11);
    ReadIntsDecimalised(input, 3, 11);
    assert IntCommand(d, input)
           == Stepped(Protocol.Done(d.(leds := Protocol.LedMap(d.leds, input[1], input[2], s[3..11], d.brightness)), [], 11));
    assert s[0] == 0x14 && s[1] == input[1] && s[2] == input[2];
    FrameStep(d, s);
  }

  /** The intended frame step, with its payload split into origin and rows. */
  lemma FrameStep(d: Device, s: seq<byte>)
    requires d.rows > 0 && |s| >= 11 && s[0] == 0x14
    ensures Protocol.Step(d, s) == Protocol.Done(d.(leds := Protocol.LedMap(d.leds, s[1], s[2], s[3..11], d.brightness)), [], 11)
  {
    var p := s[1..11];
    assert p[2..] == s[3..11];
    assert Protocol.Step(d, s) == Protocol.Execute(d, 0x14, p);
  }

  /** `DigitsEffect` for the arc map command (0x92). */
  lemma ArcMapOnDigits(d: Device, input: seq<byte>)
    requires d.rows > 0 && |input| >= 34 && input[0] == 0x92
    requires forall j :: 1 <= j < 34 ==> IsDigit(input[j])
    ensures IntCommand(d, input) == Stepped(Protocol.Step(d, Decimalised(input, 1, 34)))
  {
    var s := Decimalised(input, 1, 34);
    ReadIntsDecimalised(input, 1, 34);
    var rd := ReadInts(input, 1, 33);
    assert s[0] == 0x92;
    assert Protocol.Step(d, s) == Protocol.Execute(d, 0x92, rd.values);
  }

  /** `DigitsEffect` for the brightness (0x17) and all-level (0x19) commands. */
  lemma SingleOnDigits(d: Device, input: seq<byte>)
    requires d.rows > 0 && |input| >= 2 && (input[0] == 0x17 || input[0] == 0x19)
    requires IsDigit(input[1])
    ensures IntCommand(d, input) == Stepped(Protocol.Step(d, Decimalised(input, 1, 2)))
  {
    var s := Decimalised(input, 1, 2);
    ReadIntsDecimalised(input, 1, 2);
    var rd := ReadInts(input, 1, 1);
    assert s[0] == input[0];
    assert Protocol.Step(d, s) == Protocol.Execute(d, input[0], rd.values);
  }

  /** The first byte of an `int()`-reading command that is not a decimal
      digit raises, after exactly the bytes up to it have been taken. */
  lemma StepLiteralRaisesAtNonDigit(d: Device, input: seq<byte>, k: nat)
    requires d.rows > 0 && |input| > 0 && ReadsWithInt(input[0])
    requires IntReadStart(input[0]) <= k < |input| && k < 1 + Protocol.PayloadLength(input[0])
    requires !IsDigit(input[k])
    requires forall j :: IntReadStart(input[0]) <= j < k ==> IsDigit(input[j])
    ensures StepLiteral(d, input) == RaisesAfter(k + 1, ValueError)
  {
    var op := input[0];
    var lo := IntReadStart(op);
    assert StepLiteral(d, input) == IntCommand(d, input);
    var rd := ReadInts(input, lo, 1 + Protocol.PayloadLength(op) - lo);
    assert rd.NonDigitAt? && rd.index == k;
  }

  /** A level row command that should light eight LEDs never completes as
      written, while the intended step consumes the 7 bytes and applies it. */
  lemma LevelRowAsWrittenRaises(d: Device)
    requires d.rows > 0
    ensures StepLiteral(d, [0x1B, 0, 0, 0xFF, 0xFF, 0xFF, 0xFF]) == RaisesAfter(4, ValueError)
    ensures Protocol.Step(d, [0x1B, 0, 0, 0xFF, 0xFF, 0xFF, 0xFF]).Done?
    ensures Protocol.Step(d, [0x1B, 0, 0, 0xFF, 0xFF, 0xFF, 0xFF]).consumed == 7
  {
  }

  /** Brightness 10 is rejected as written, and the byte 0x37 gives 7
      rather than 55; all-level 15 is rejected too. The intended step takes
      each byte as the value. */
  lemma BrightnessAsWrittenMisreads(d: Device)
    requires d.rows > 0
    ensures StepLiteral(d, [0x17, 10]) == RaisesAfter(2, ValueError)
    ensures StepLiteral(d, [0x17, 0x37]) == Stepped(Protocol.Done(d.(brightness := 7), [], 2))
    ensures Protocol.Step(d, [0x17, 10]) == Protocol.Done(d.(brightness := 10), [], 2)
    ensures Protocol.Step(d, [0x17, 0x37]) == Protocol.Done(d.(brightness := 0x37), [], 2)
    ensures StepLiteral(d, [0x19, 15]) == RaisesAfter(2, ValueError)
    ensures Protocol.Step(d, [0x19, 15]) == Protocol.Done(d.(leds := LedBuffer.SetAllGridLeds(d.leds, 15)), [], 2)
  {
    StepLiteralRaisesAtNonDigit(d, [0x17, 10], 1);
    StepLiteralOnDigits(d, [0x17, 0x37]);
    assert Decimalised([0x17, 0x37], 1, 2) == [0x17, 7];
    assert [0x17, 7][1..2] == [7];
    assert [0x17, 10][1..2] == [10];
    assert [0x17, 0x37][1..2] == [0x37];
    StepLiteralRaisesAtNonDigit(d, [0x19, 15], 1);
    assert [0x19, 15][1..2] == [15];
  }

  /** A frame whose first row byte is 0xFF raises at that row as written,
      while the intended step takes all 11 bytes and lights the whole row. */
  lemma FrameAsWrittenRaises(d: Device, rest: seq<byte>)
    requires d.rows > 0
    ensures StepLiteral(d, [0x14, 0, 0, 0xFF] + rest) == RaisesAfter(4, ValueError)
    ensures |rest| >= 7 ==> Protocol.Step(d, [0x14, 0, 0, 0xFF] + rest).Done?
    ensures |rest| >= 7 ==> Protocol.Step(d, [0x14, 0, 0, 0xFF] + rest).consumed == 11
    ensures |rest| >= 7 ==> forall i :: 0 <= i < 8 && LedBuffer.InBounds(d.leds, i, 0) ==>
              Protocol.Step(d, [0x14, 0, 0, 0xFF] + rest).dev.leds[0][i] == d.brightness
  {
    var input := [0x14, 0, 0, 0xFF] + rest;
    StepLiteralRaisesAtNonDigit(d, input, 3);
    if |rest| >= 7 {
      FrameStep(d, input);
      assert input[3..11][0] == 0xFF;
      assert AlignDown8(0) == 0;
      forall i | 0 <= i < 8
        ensures Bit(0xFF, i)
      {
        assert Pow2(1) == 2 && Pow2(2) == 4 && Pow2(3) == 8 && Pow2(4) == 16;
        assert Pow2(5) == 32 && Pow2(6) == 64 && Pow2(7) == 128;
      }
    }
  }

  /** An arc map for ring 0 raises at the ring byte as written, while the
      intended step takes all 34 bytes. */
  lemma ArcMapAsWrittenRaises(d: Device, rest: seq<byte>)
    requires d.rows > 0
    ensures StepLiteral(d, [0x92, 0] + rest) == RaisesAfter(2, ValueError)
    ensures |rest| >= 32 ==> Protocol.Step(d, [0x92, 0] + rest).consumed == 34
  {
    StepLiteralRaisesAtNonDigit(d, [0x92, 0] + rest, 1);
  }
}
