/** Messages the device sends to the host when its own keys or encoders
    change. They use the same byte layout as the matching inbound opcodes,
    which is what lets the dispatcher read them back (see
    `ProtocolProperties.SendGridKeyLoopsBack`). */
module Outbound {
  import opened Bytes

  /** Key-down is 0x21, key-up 0x20, followed by x and y. */
  function SendGridKey(x: byte, y: byte, pressed: bool): (r: seq<byte>)
    ensures |r| == 3 && r[1] == x && r[2] == y
    ensures r[0] == 0x20 || r[0] == 0x21
    ensures r[0] == 0x21 <==> pressed
  {
    [if pressed then 0x21 else 0x20, x, y]
  }

  /** Encoder push is 0x52, release 0x51, followed by the encoder index. */
  function SendArcKey(index: byte, pressed: bool): (r: seq<byte>)
    ensures |r| == 2 && r[1] == index
    ensures r[0] == 0x51 || r[0] == 0x52
    ensures r[0] == 0x52 <==> pressed
  {
    [if pressed then 0x52 else 0x51, index]
  }

  /** An encoder turn: 0x50, the index, then the delta byte. */
  function SendArcDelta(index: byte, delta: byte): (r: seq<byte>)
    ensures |r| == 3 && r[0] == 0x50 && r[1] == index && r[2] == delta
  {
    [0x50, index, delta]
  }
}
