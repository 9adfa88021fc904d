/** The device's state: fixed geometry and mode flags, the LED buffer, the
    identity and brightness the host can change, and the input queues. */
module MonomeDevice {
  import opened Bytes
  import opened LedBuffer
  import Events

  datatype Device = Device(
    active: bool,
    isMonome: bool,
    isGrid: bool,
    rows: nat,
    cols: nat,
    encoders: nat,
    leds: Buffer,
    /** Raw identity bytes as last written by the host. */
    deviceId: seq<byte>,
    /** Level used by "led on", "all on" and frames; stored as received. */
    brightness: int,
    /** Decoded 4-bit levels at or below this are stored as 0. */
    variMonoThresh: int,
    gridDirty: bool,
    arcDirty: bool,
    events: Events.EventQueue)

  /** The buffer is exactly `rows` by `cols`. */
  predicate WellFormed(d: Device)
  {
    |d.leds| == d.rows && forall j :: 0 <= j < |d.leds| ==> |d.leds[j]| == d.cols
  }

  /** The constructor: a dark `rows` by `cols` buffer, an empty identity,
      brightness 15, threshold 0, clean dirty flags and empty queues. */
  function New(active: bool, isMonome: bool, isGrid: bool, rows: nat, cols: nat, encoders: nat): (d: Device)
    ensures WellFormed(d)
    ensures d.rows == rows && d.cols == cols && d.encoders == encoders
    ensures d.active == active && d.isMonome == isMonome && d.isGrid == isGrid
    ensures forall j, i :: InBounds(d.leds, i, j) ==> d.leds[j][i] == 0
    ensures d.deviceId == [] && d.brightness == 15 && d.variMonoThresh == 0
    ensures !d.gridDirty && !d.arcDirty
    ensures !Events.GridEventAvailable(d.events) && !Events.ArcEventAvailable(d.events)
  {
    Device(active, isMonome, isGrid, rows, cols, encoders, Zeros(rows, cols),
           [], 15, 0, false, false, Events.Empty())
  }

  /** `as_grid`: an active monome grid with no encoders, marked for redraw. */
  function AsGrid(rows: nat, cols: nat): (d: Device)
    ensures WellFormed(d) && d.rows == rows && d.cols == cols && d.encoders == 0
    ensures d.active && d.isMonome && d.isGrid
    ensures d.gridDirty && !d.arcDirty
    ensures forall j, i :: InBounds(d.leds, i, j) ==> d.leds[j][i] == 0
  {
    New(true, true, true, rows, cols, 0).(gridDirty := true)
  }

  /** `refresh_grid`: raises the grid redraw flag and touches nothing else. */
  function RefreshGrid(d: Device): (r: Device)
    ensures r.gridDirty && r.(gridDirty := d.gridDirty) == d
  {
    d.(gridDirty := true)
  }

  /** `refresh_arc`: raises the arc redraw flag and touches nothing else. */
  function RefreshArc(d: Device): (r: Device)
    ensures r.arcDirty && r.(arcDirty := d.arcDirty) == d
  {
    d.(arcDirty := true)
  }
}
