/**
 Replacement data shared by the LRU-derived policies LRU2 and LIP2: every
 cache line carries the tick of its last touch, and a replacement decision
 looks at a sequence of candidate lines.
 */
module ReplData {

  /** gem5's Tick is an unsigned 64-bit count of simulated time. */
  const MaxTick: nat := 0xFFFF_FFFF_FFFF_FFFF

  type Tick = t: nat | t <= MaxTick

  /** A slot that may be empty, standing in for a possibly-null entry pointer. */
  datatype Option<T> = None | Some(value: T)

  /** The LRU replacement data of one cache line. */
  datatype Entry = Entry(lastTouchTick: Tick)

  /** The candidates' last-touch ticks, in candidate order. */
  function Ticks(lines: seq<Entry>): (ts: seq<Tick>)
    ensures |ts| == |lines|
    ensures forall i :: 0 <= i < |lines| ==> ts[i] == lines[i].lastTouchTick
  {
    seq(|lines|, i requires 0 <= i < |lines| => lines[i].lastTouchTick)
  }

  /**
   Touching line `i` of a cache set stamps it with the current tick; no other
   line of the set changes.
   */
  function Touch(lines: seq<Entry>, i: nat, curTick: Tick): (r: seq<Entry>)
    requires i < |lines|
    ensures |r| == |lines|
    ensures r[i].lastTouchTick == curTick
    ensures forall j :: 0 <= j < |lines| && j != i ==> r[j] == lines[j]
  {
    lines[i := Entry(curTick)]
  }
}
