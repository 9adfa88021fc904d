/** The LED intensity buffer, indexed [row][column]. Grid commands address it
    as [y][x] and arc commands as [ring][position], so one buffer serves
    both. A write to an index outside the buffer is dropped. */
module LedBuffer {

  type Buffer = seq<seq<int>>

  predicate InBounds(b: Buffer, x: int, y: int)
  {
    0 <= y < |b| && 0 <= x < |b[y]|
  }

  /** Same number of rows, and each row the same length. */
  predicate SameShape(a: Buffer, b: Buffer)
  {
    |a| == |b| && forall j :: 0 <= j < |a| ==> |a[j]| == |b[j]|
  }

  /** A `rows` by `cols` buffer of zeros. */
  function Zeros(rows: nat, cols: nat): (b: Buffer)
    ensures |b| == rows
    ensures forall j :: 0 <= j < rows ==> |b[j]| == cols
    ensures forall j, i :: InBounds(b, i, j) ==> b[j][i] == 0
  {
    seq(rows, _ => seq(cols, _ => 0))
  }

  /** `set_grid_led(x, y, level)`: only cell [y][x] takes `level`. */
  function SetGridLed(b: Buffer, x: nat, y: nat, level: int): (r: Buffer)
    ensures SameShape(r, b)
    ensures forall j, i :: InBounds(b, i, j) ==>
              r[j][i] == (if i == x && j == y then level else b[j][i])
  {
    if InBounds(b, x, y) then b[y := b[y][x := level]] else b
  }

  /** A write the buffer cannot hold leaves it exactly as it was. */
  lemma OutOfRangeWriteIsDropped(b: Buffer, x: nat, y: nat, level: int)
    requires !InBounds(b, x, y)
    ensures SetGridLed(b, x, y, level) == b
  {
  }

  function ClearGridLed(b: Buffer, x: nat, y: nat): (r: Buffer)
    ensures r == SetGridLed(b, x, y, 0)
    ensures forall j, i :: InBounds(b, i, j) && (i != x || j != y) ==> r[j][i] == b[j][i]
    ensures InBounds(b, x, y) ==> r[y][x] == 0
  {
    SetGridLed(b, x, y, 0)
  }

  /** `set_all_grid_leds(value)`: every cell takes `value`. */
  function SetAllGridLeds(b: Buffer, value: int): (r: Buffer)
    ensures SameShape(r, b)
    ensures forall j, i :: InBounds(b, i, j) ==> r[j][i] == value
  {
    seq(|b|, j requires 0 <= j < |b| => seq(|b[j]|, _ => value))
  }

  /** `set_arc_led(ring, led, level)`: the arc view of the same buffer. */
  function SetArcLed(b: Buffer, ring: nat, led: nat, level: int): (r: Buffer)
    ensures SameShape(r, b)
    ensures forall j, i :: InBounds(b, i, j) ==>
              r[j][i] == (if j == ring && i == led then level else b[j][i])
  {
    SetGridLed(b, led, ring, level)
  }

  function ClearArcLed(b: Buffer, ring: nat, led: nat): (r: Buffer)
    ensures r == SetArcLed(b, ring, led, 0)
    ensures forall j, i :: InBounds(b, i, j) ==>
              r[j][i] == (if j == ring && i == led then 0 else b[j][i])
  {
    SetArcLed(b, ring, led, 0)
  }

  /** `clear_arc_ring(ring)`: the whole ring, whatever its length, goes to 0. */
  function ClearArcRing(b: Buffer, ring: nat): (r: Buffer)
    ensures SameShape(r, b)
    ensures forall j, i :: InBounds(b, i, j) ==> r[j][i] == (if j == ring then 0 else b[j][i])
  {
    if ring < |b| then b[ring := seq(|b[ring]|, _ => 0)] else b
  }

  // A write list: the sequence of single-cell writes a command's loop makes,
  // in the order it makes them.

  /** One single-cell write: `level` into [y][x]. */
  datatype Write = Write(x: nat, y: nat, level: int)

  predicate Hits(w: Write, x: int, y: int)
  {
    w.x == x && w.y == y
  }

  /** The level the last write to (x, y) stores, or `d` if none writes it. */
  function LastWrite(ws: seq<Write>, x: int, y: int, d: int): int
    decreases |ws|
  {
    if |ws| == 0 then d
    else if Hits(ws[|ws| - 1], x, y) then ws[|ws| - 1].level
    else LastWrite(ws[..|ws| - 1], x, y, d)
  }

  /** Performs the writes one after another with `SetGridLed`. */
  function ApplyWrites(b: Buffer, ws: seq<Write>): (r: Buffer)
    ensures SameShape(r, b)
    ensures forall j, i :: InBounds(b, i, j) ==> r[j][i] == LastWrite(ws, i, j, b[j][i])
    decreases |ws|
  {
    if |ws| == 0 then b
    else
      var w := ws[|ws| - 1];
      SetGridLed(ApplyWrites(b, ws[..|ws| - 1]), w.x, w.y, w.level)
  }

  lemma {:induction false} LastWriteNone(ws: seq<Write>, x: int, y: int, d: int)
    requires forall k :: 0 <= k < |ws| ==> !Hits(ws[k], x, y)
    ensures LastWrite(ws, x, y, d) == d
    decreases |ws|
  {
    if |ws| > 0 {
      LastWriteNone(ws[..|ws| - 1], x, y, d);
    }
  }

  lemma {:induction false} LastWriteAt(ws: seq<Write>, k: nat, x: int, y: int, d: int)
    requires k < |ws| && Hits(ws[k], x, y)
    requires forall m :: k < m < |ws| ==> !Hits(ws[m], x, y)
    ensures LastWrite(ws, x, y, d) == ws[k].level
    decreases |ws|
  {
    if k < |ws| - 1 {
      LastWriteAt(ws[..|ws| - 1], k, x, y, d);
    }
  }

  /** `vals` written left to right along row `y`, starting at column `ox`. */
  function WriteRow(b: Buffer, ox: nat, y: nat, vals: seq<int>): (r: Buffer)
    ensures SameShape(r, b)
    ensures forall j, i :: InBounds(b, i, j) ==>
              r[j][i] == (if j == y && ox <= i < ox + |vals| then vals[i - ox] else b[j][i])
  {
    var ws := seq(|vals|, k requires 0 <= k < |vals| => Write(ox + k, y, vals[k]));
    var r := ApplyWrites(b, ws);
    forall j, i | InBounds(b, i, j)
      ensures r[j][i] == (if j == y && ox <= i < ox + |vals| then vals[i - ox] else b[j][i])
    {
      if j == y && ox <= i < ox + |vals| {
        LastWriteAt(ws, i - ox, i, j, b[j][i]);
      } else {
        LastWriteNone(ws, i, j, b[j][i]);
      }
    }
    r
  }

  /** `vals` written top to bottom down column `x`, starting at row `oy`. */
  function WriteColumn(b: Buffer, x: nat, oy: nat, vals: seq<int>): (r: Buffer)
    ensures SameShape(r, b)
    ensures forall j, i :: InBounds(b, i, j) ==>
              r[j][i] == (if i == x && oy <= j < oy + |vals| then vals[j - oy] else b[j][i])
  {
    var ws := seq(|vals|, k requires 0 <= k < |vals| => Write(x, oy + k, vals[k]));
    var r := ApplyWrites(b, ws);
    forall j, i | InBounds(b, i, j)
      ensures r[j][i] == (if i == x && oy <= j < oy + |vals| then vals[j - oy] else b[j][i])
    {
      if i == x && oy <= j < oy + |vals| {
        LastWriteAt(ws, j - oy, i, j, b[j][i]);
      } else {
        LastWriteNone(ws, i, j, b[j][i]);
      }
    }
    r
  }

  /** Whether (x, y) lies in the 8x8 block whose top-left cell is (ox, oy). */
  predicate InBlock(ox: nat, oy: nat, x: int, y: int)
  {
    ox <= x < ox + 8 && oy <= y < oy + 8
  }

  /** Position of cell (x, y) in the row-by-row order of the block at (ox, oy). */
  function BlockIndex(ox: nat, oy: nat, x: int, y: int): (k: nat)
    requires InBlock(ox, oy, x, y)
    ensures k < 64 && k % 8 == x - ox && k / 8 == y - oy
  {
    (y - oy) * 8 + (x - ox)
  }

  /** 64 values written row by row into the 8x8 block at (ox, oy): value k
      goes to column ox + k % 8 of row oy + k / 8. */
  function WriteBlock(b: Buffer, ox: nat, oy: nat, vals: seq<int>): (r: Buffer)
    requires |vals| == 64
    ensures SameShape(r, b)
    ensures forall j, i :: InBounds(b, i, j) ==>
              r[j][i] == (if InBlock(ox, oy, i, j) then vals[BlockIndex(ox, oy, i, j)] else b[j][i])
  {
    var ws := seq(64, k requires 0 <= k < 64 => Write(ox + k % 8, oy + k / 8, vals[k]));
    var r := ApplyWrites(b, ws);
    forall j, i | InBounds(b, i, j)
      ensures r[j][i] == (if InBlock(ox, oy, i, j) then vals[BlockIndex(ox, oy, i, j)] else b[j][i])
    {
      if InBlock(ox, oy, i, j) {
        var k := BlockIndex(ox, oy, i, j);
        forall m | k < m < 64
          ensures !Hits(ws[m], i, j)
        {
          assert m == (m / 8) * 8 + m % 8;
        }
        LastWriteAt(ws, k, i, j, b[j][i]);
      } else {
        LastWriteNone(ws, i, j, b[j][i]);
      }
    }
    r
  }

  /** `level` written at each listed position of `ring`, in list order. */
  function WriteRing(b: Buffer, ring: nat, positions: seq<nat>, level: int): (r: Buffer)
    ensures SameShape(r, b)
    ensures forall j, i :: InBounds(b, i, j) ==>
              r[j][i] == (if j == ring && i in positions then level else b[j][i])
  {
    var ws := seq(|positions|, k requires 0 <= k < |positions| => Write(positions[k], ring, level));
    var r := ApplyWrites(b, ws);
    forall j, i | InBounds(b, i, j)
      ensures r[j][i] == (if j == ring && i in positions then level else b[j][i])
    {
      if j == ring && i in positions {
        var k :| 0 <= k < |positions| && positions[k] == i;
        LastWriteUniform(ws, k, i, j, b[j][i], level);
      } else {
        LastWriteNone(ws, i, j, b[j][i]);
      }
    }
    r
  }

  lemma {:induction false} LastWriteUniform(ws: seq<Write>, k: nat, x: int, y: int, d: int, level: int)
    requires forall m :: 0 <= m < |ws| ==> ws[m].level == level
    requires k < |ws| && Hits(ws[k], x, y)
    ensures LastWrite(ws, x, y, d) == level
    decreases |ws|
  {
    if !Hits(ws[|ws| - 1], x, y) {
      LastWriteUniform(ws[..|ws| - 1], k, x, y, d, level);
    }
  }

  /** The positions lo .. hi-1 in increasing order. */
  function Range(lo: nat, hi: nat): (r: seq<nat>)
    ensures forall i :: i in r <==> lo <= i < hi
  {
    var r := seq(if lo < hi then hi - lo else 0, k requires 0 <= k => (lo + k) as nat);
    forall i | lo <= i < hi
      ensures i in r
    {
      assert r[i - lo] == i;
    }
    r
  }

  /** `set_all_arc_leds(ring, value)`: positions 0..63 of the ring are set to
      0; `value` is not used. */
  function SetAllArcLeds(b: Buffer, ring: nat, value: int): (r: Buffer)
    ensures SameShape(r, b)
    ensures forall j, i :: InBounds(b, i, j) ==>
              r[j][i] == (if j == ring && i < 64 then 0 else b[j][i])
  {
    WriteRing(b, ring, Range(0, 64), 0)
  }
}
