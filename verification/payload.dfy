/** How LED commands turn payload bytes into intensity values: on/off bit
    masks (one bit per LED, lowest bit first) and packed 4-bit levels (two per
    byte, high nibble first) with the variable-brightness threshold applied.
    Each decoding is paired with the packing a host performs, and a lemma
    shows the device recovers what the host packed. */
module Payload {
  import opened Bytes

  /** A decoded level at or below the threshold is stored as 0. */
  function Clamp(v: int, thresh: int): (r: int)
    ensures r == 0 || r > thresh
    ensures v > thresh ==> r == v
    ensures v <= thresh ==> r == 0
    ensures 0 <= v ==> 0 <= r <= v
  {
    if v > thresh then v else 0
  }

  /** Level `k` of a packed payload: the high nibble of byte k/2 when k is
      even, its low nibble when k is odd. */
  function Nibble(packed: seq<byte>, k: nat): (r: int)
    requires k < 2 * |packed|
    ensures 0 <= r < 16
    ensures k % 2 == 0 ==> r == packed[k / 2] / 16
    ensures k % 2 == 1 ==> r == packed[k / 2] % 16
  {
    if k % 2 == 0 then HighNibble(packed[k / 2]) else LowNibble(packed[k / 2])
  }

  /** All 2 * |packed| levels of a packed payload, clamped. */
  function NibbleLevels(packed: seq<byte>, thresh: int): (r: seq<int>)
    ensures |r| == 2 * |packed|
    ensures forall k :: 0 <= k < |r| ==> r[k] == Clamp(Nibble(packed, k), thresh)
    ensures forall k :: 0 <= k < |r| ==> 0 <= r[k] < 16
    ensures forall k :: 0 <= k < |r| ==> (r[k] == 0 || r[k] > thresh)
  {
    seq(2 * |packed|, k requires 0 <= k < 2 * |packed| => Clamp(Nibble(packed, k), thresh))
  }

  predicate IsLevel(v: int)
  {
    0 <= v < 16
  }

  /** Host side: pack an even number of 4-bit levels two to a byte. */
  function PackLevels(levels: seq<int>): (r: seq<byte>)
    requires |levels| % 2 == 0
    requires forall k :: 0 <= k < |levels| ==> IsLevel(levels[k])
    ensures |r| == |levels| / 2
  {
    seq(|levels| / 2, i requires 0 <= i < |levels| / 2 =>
          assert IsLevel(levels[2 * i]) && IsLevel(levels[2 * i + 1]);
          PackNibbles(levels[2 * i], levels[2 * i + 1]))
  }

  /** Unpacking packed levels gives each level back, clamped by the threshold;
      with the default threshold 0 it gives back exactly the packed levels. */
  lemma NibbleLevelsRoundTrip(levels: seq<int>, thresh: int)
    requires |levels| % 2 == 0
    requires forall k :: 0 <= k < |levels| ==> IsLevel(levels[k])
    ensures |NibbleLevels(PackLevels(levels), thresh)| == |levels|
    ensures forall k :: 0 <= k < |levels| ==>
              NibbleLevels(PackLevels(levels), thresh)[k] == Clamp(levels[k], thresh)
    ensures thresh == 0 ==> NibbleLevels(PackLevels(levels), thresh) == levels
  {
    var packed := PackLevels(levels);
    var r := NibbleLevels(packed, thresh);
    forall k | 0 <= k < |levels|
      ensures r[k] == Clamp(levels[k], thresh)
    {
      var i := k / 2;
      assert packed[i] == PackNibbles(levels[2 * i], levels[2 * i + 1]);
      if k % 2 == 0 {
        assert k == 2 * i;
      } else {
        assert k == 2 * i + 1;
      }
    }
  }

  /** Eight on/off flags, lowest bit first: bit i set gives `on`, clear gives 0. */
  function MaskLevels(mask: byte, on: int): (r: seq<int>)
    ensures |r| == 8
    ensures forall i :: 0 <= i < 8 ==> r[i] == (if (mask / Pow2(i)) % 2 == 1 then on else 0)
  {
    seq(8, i requires 0 <= i < 8 => if Bit(mask, i) then on else 0)
  }

  /** An 8x8 frame from eight row masks: level k comes from bit k % 8 of row
      byte k / 8. */
  function FrameLevels(masks: seq<byte>, on: int): (r: seq<int>)
    requires |masks| == 8
    ensures |r| == 64
    ensures forall row, col :: 0 <= row < 8 && 0 <= col < 8 ==>
              r[row * 8 + col] == MaskLevels(masks[row], on)[col]
  {
    var r := seq(64, k requires 0 <= k < 64 => if Bit(masks[k / 8], k % 8) then on else 0);
    forall row, col | 0 <= row < 8 && 0 <= col < 8
      ensures r[row * 8 + col] == MaskLevels(masks[row], on)[col]
    {
      var k := row * 8 + col;
      assert k / 8 == row && k % 8 == col;
    }
    r
  }

  /** Host side: eight flags packed into a mask byte, lowest bit first. */
  function MaskOf(flags: seq<bool>): (r: nat)
    ensures r < Pow2(|flags|)
  {
    if |flags| == 0 then 0
    else (if flags[0] then 1 else 0) + 2 * MaskOf(flags[1..])
  }

  /** Shifting right by i + 1 is halving, then shifting right by i. */
  lemma ShiftStep(a: nat, i: nat)
    ensures a / Pow2(i + 1) == (a / 2) / Pow2(i)
  {
    ModDouble(a, Pow2(i));
  }

  /** Bit i of a packed mask is flag i. */
  lemma {:induction false} MaskBit(flags: seq<bool>, i: nat)
    requires i < |flags|
    ensures (MaskOf(flags) / Pow2(i)) % 2 == 1 <==> flags[i]
    decreases i
  {
    var m := MaskOf(flags);
    if i > 0 {
      ShiftStep(m, i - 1);
      assert m / 2 == MaskOf(flags[1..]);
      MaskBit(flags[1..], i - 1);
    }
  }

  /** Unpacking a mask the host packed from eight flags turns on exactly the
      LEDs whose flag is set. */
  lemma MaskLevelsRoundTrip(flags: seq<bool>, on: int)
    requires |flags| == 8
    ensures MaskOf(flags) < 256
    ensures forall i :: 0 <= i < 8 ==> MaskLevels(MaskOf(flags), on)[i] == (if flags[i] then on else 0)
  {
    assert Pow2(8) == 256;
    forall i | 0 <= i < 8
      ensures (MaskOf(flags) / Pow2(i)) % 2 == 1 <==> flags[i]
    {
      MaskBit(flags, i);
    }
  }
}
