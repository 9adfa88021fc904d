/** The device's two input queues: one of grid key events and one of arc
    events. Each is a strict FIFO, and the two never affect each other. */
module Events {

  datatype Option<T> = None | Some(value: T)

  /** A key edge at grid position (x, y). */
  datatype GridEvent = GridEvent(x: int, y: int, pressed: bool)

  /** An encoder event: a turn, or a push-button edge. The turn's delta is
      kept as received; the inbound command carries it as one unsigned byte. */
  datatype ArcEvent =
    | Turn(index: int, delta: int)
    | Press(index: int, pressed: bool)

  /** Oldest entry first in both sequences. */
  datatype EventQueue = EventQueue(grid: seq<GridEvent>, arc: seq<ArcEvent>)

  function Empty(): (q: EventQueue)
    ensures !GridEventAvailable(q) && !ArcEventAvailable(q)
  {
    EventQueue([], [])
  }

  function AddGridEvent(q: EventQueue, x: int, y: int, pressed: bool): (r: EventQueue)
    ensures r.arc == q.arc
    ensures |r.grid| == |q.grid| + 1
    ensures r.grid[..|q.grid|] == q.grid && r.grid[|q.grid|] == GridEvent(x, y, pressed)
  {
    q.(grid := q.grid + [GridEvent(x, y, pressed)])
  }

  function AddArcTurnEvent(q: EventQueue, index: int, delta: int): (r: EventQueue)
    ensures r.grid == q.grid
    ensures |r.arc| == |q.arc| + 1
    ensures r.arc[..|q.arc|] == q.arc && r.arc[|q.arc|] == Turn(index, delta)
  {
    q.(arc := q.arc + [Turn(index, delta)])
  }

  function AddArcPressEvent(q: EventQueue, index: int, pressed: bool): (r: EventQueue)
    ensures r.grid == q.grid
    ensures |r.arc| == |q.arc| + 1
    ensures r.arc[..|q.arc|] == q.arc && r.arc[|q.arc|] == Press(index, pressed)
  {
    q.(arc := q.arc + [Press(index, pressed)])
  }

  /** True exactly when a read would return an event: some grid event is
      waiting. */
  function GridEventAvailable(q: EventQueue): (r: bool)
    ensures r <==> exists e :: e in q.grid
  {
    assert |q.grid| > 0 ==> q.grid[0] in q.grid;
    |q.grid| > 0
  }

  /** True exactly when an arc read would return an event. */
  function ArcEventAvailable(q: EventQueue): (r: bool)
    ensures r <==> exists e :: e in q.arc
  {
    assert |q.arc| > 0 ==> q.arc[0] in q.arc;
    |q.arc| > 0
  }

  /** Pops the oldest grid event; an empty queue yields None and is left as is. */
  function ReadGridEvent(q: EventQueue): (r: (Option<GridEvent>, EventQueue))
    ensures r.0.Some? <==> GridEventAvailable(q)
    ensures r.0.None? ==> r.1 == q
    ensures r.1.arc == q.arc
    ensures r.0.Some? ==> [r.0.value] + r.1.grid == q.grid
  {
    if |q.grid| == 0 then (None, q)
    else (Some(q.grid[0]), q.(grid := q.grid[1..]))
  }

  /** Pops the oldest arc event; an empty queue yields None and is left as is. */
  function ReadArcEvent(q: EventQueue): (r: (Option<ArcEvent>, EventQueue))
    ensures r.0.Some? <==> ArcEventAvailable(q)
    ensures r.0.None? ==> r.1 == q
    ensures r.1.grid == q.grid
    ensures r.0.Some? ==> [r.0.value] + r.1.arc == q.arc
  {
    if |q.arc| == 0 then (None, q)
    else (Some(q.arc[0]), q.(arc := q.arc[1..]))
  }

  /** Everything a consumer gets by reading grid events until none is left. */
  function DrainGrid(q: EventQueue): seq<GridEvent>
    decreases |q.grid|
  {
    var (e, q') := ReadGridEvent(q);
    if e.None? then [] else [e.value] + DrainGrid(q')
  }

  function DrainArc(q: EventQueue): seq<ArcEvent>
    decreases |q.arc|
  {
    var (e, q') := ReadArcEvent(q);
    if e.None? then [] else [e.value] + DrainArc(q')
  }

  /** Reading to exhaustion yields the queued grid events oldest first, each
      exactly once. */
  lemma {:induction false} DrainGridIsFifo(q: EventQueue)
    ensures DrainGrid(q) == q.grid
    decreases |q.grid|
  {
    if |q.grid| > 0 {
      DrainGridIsFifo(ReadGridEvent(q).1);
    }
  }

  lemma {:induction false} DrainArcIsFifo(q: EventQueue)
    ensures DrainArc(q) == q.arc
    decreases |q.arc|
  {
    if |q.arc| > 0 {
      DrainArcIsFifo(ReadArcEvent(q).1);
    }
  }

  /** Adding e1 then e2 to an empty grid queue and reading three times returns
      e1, then e2, then nothing, with the arc queue untouched throughout. */
  lemma GridQueueOrder(q: EventQueue, e1: GridEvent, e2: GridEvent)
    requires !GridEventAvailable(q)
    ensures var q2 := AddGridEvent(AddGridEvent(q, e1.x, e1.y, e1.pressed), e2.x, e2.y, e2.pressed);
            var (r1, q3) := ReadGridEvent(q2);
            var (r2, q4) := ReadGridEvent(q3);
            var (r3, q5) := ReadGridEvent(q4);
            r1 == Some(e1) && r2 == Some(e2) && r3 == None && q5 == q
  {
  }

  /** Adding to the back never changes what the next read returns from a
      non-empty queue: reading and adding commute. */
  lemma ReadGridAddCommute(q: EventQueue, x: int, y: int, pressed: bool)
    requires GridEventAvailable(q)
    ensures ReadGridEvent(AddGridEvent(q, x, y, pressed)).0 == ReadGridEvent(q).0
    ensures ReadGridEvent(AddGridEvent(q, x, y, pressed)).1
         == AddGridEvent(ReadGridEvent(q).1, x, y, pressed)
  {
    assert (q.grid + [GridEvent(x, y, pressed)])[1..] == q.grid[1..] + [GridEvent(x, y, pressed)];
  }

  lemma ReadArcAddCommute(q: EventQueue, e: ArcEvent)
    requires ArcEventAvailable(q)
    ensures var add := (p: EventQueue) => if e.Turn? then AddArcTurnEvent(p, e.index, e.delta)
                                          else AddArcPressEvent(p, e.index, e.pressed);
            ReadArcEvent(add(q)).0 == ReadArcEvent(q).0
            && ReadArcEvent(add(q)).1 == add(ReadArcEvent(q).1)
  {
    assert (q.arc + [e])[1..] == q.arc[1..] + [e];
  }
}
