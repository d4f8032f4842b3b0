/**
 LIP2: a variant of the LRU insertion policy. Victim selection evicts the
 least recently touched candidate and, as a side effect, records the smallest
 and second-smallest ticks it saw (the current tick counted twice). A newly
 inserted line is stamped one tick above that second-smallest tick, so it
 lands near the least-recently-used end of its set instead of at the
 most-recently-used end.
 */
module Lip2 {
  import opened ReplData

  /** The policy's two tick fields, written by every victim selection. */
  datatype Lip2State = Lip2State(smallestTick: Tick, secondSmallestTick: Tick)

  /** `v` is the LIP2 victim: a least recently touched candidate, the earliest such. */
  ghost predicate IsLipVictim(c: seq<Entry>, v: nat)
  {
    && v < |c|
    && (forall j :: 0 <= j < |c| ==> c[v].lastTouchTick <= c[j].lastTouchTick)
    && (forall j :: 0 <= j < v ==> c[v].lastTouchTick < c[j].lastTouchTick)
  }

  /** The ticks victim selection ranks: the current tick twice, then every candidate's. */
  ghost function Pool(curTick: Tick, c: seq<Entry>): multiset<Tick>
  {
    multiset{curTick, curTick} + multiset(Ticks(c))
  }

  /** `x` is a smallest element of `m`. */
  ghost predicate IsMinOf(m: multiset<Tick>, x: Tick)
  {
    x in m && forall y | y in m :: x <= y
  }

  /**
   `st` holds the smallest and the second-smallest element of the pool, the
   second being the smallest once one copy of the first is taken out.
   */
  ghost predicate TracksTwoSmallest(curTick: Tick, c: seq<Entry>, st: Lip2State)
  {
    && IsMinOf(Pool(curTick, c), st.smallestTick)
    && IsMinOf(Pool(curTick, c) - multiset{st.smallestTick}, st.secondSmallestTick)
  }

  /** Two positions holding the same tick put two copies of it in the multiset. */
  lemma TwoCopies(t: seq<Tick>, a: nat, b: nat)
    requires a < |t| && b < |t| && a != b && t[a] == t[b]
    ensures multiset(t)[t[a]] >= 2
  {
    var hi := if a < b then b else a;
    var lo := if a < b then a else b;
    assert t == t[..hi] + [t[hi]] + t[hi + 1..];
    assert t[lo] in t[..hi];
  }

  /** A tick with two copies in the multiset sits at a position other than `v` too. */
  lemma OtherCopy(t: seq<Tick>, v: nat) returns (j: nat)
    requires v < |t| && multiset(t)[t[v]] >= 2
    ensures j < |t| && j != v && t[j] == t[v]
  {
    assert t == t[..v] + [t[v]] + t[v + 1..];
    if t[v] in t[..v] {
      j :| 0 <= j < v && t[..v][j] == t[v];
    } else {
      assert t[v] in t[v + 1..];
      var k :| 0 <= k < |t| - v - 1 && t[v + 1..][k] == t[v];
      j := v + 1 + k;
    }
  }

  /**
   The positional description the scan maintains determines the two smallest
   ticks of the pool: the smallest is the victim's tick or the clock, and the
   second is the clock or the tick of a candidate other than the victim, no
   larger than any of them.
   */
  lemma ScanTracksTwoSmallest(c: seq<Entry>, curTick: Tick, v: nat, smallest: Tick, second: Tick, w: nat)
    requires IsLipVictim(c, v)
    requires smallest == if c[v].lastTouchTick < curTick then c[v].lastTouchTick else curTick
    requires second <= curTick
    requires forall j :: 0 <= j < |c| && j != v ==> second <= c[j].lastTouchTick
    requires second == curTick || (w < |c| && w != v && c[w].lastTouchTick == second)
    ensures TracksTwoSmallest(curTick, c, Lip2State(smallest, second))
  {
    var t := Ticks(c);
    var pool := Pool(curTick, c);
    assert t[v] in multiset(t);
    forall y | y in pool
      ensures smallest <= y
    {
      if y != curTick {
        assert y in t;
        var j :| 0 <= j < |t| && t[j] == y;
      }
    }
    if second != curTick && second == smallest {
      TwoCopies(t, v, w);
    }
    assert second in pool - multiset{smallest};
    forall y | y in pool - multiset{smallest}
      ensures second <= y
    {
      if y != curTick {
        assert y in t;
        var j :| 0 <= j < |t| && t[j] == y;
        if j == v && y == smallest {
          var k := OtherCopy(t, v);
          assert second <= c[k].lastTouchTick;
        }
      }
    }
  }

  /**
   The victim scan of the LIP2 policy: a scan for the earliest least recently
   touched candidate, which also returns the new values of the policy's two
   tick fields. The candidates themselves are not changed.
   */
  method ScanForVictim(candidates: seq<Entry>, curTick: Tick) returns (victim: nat, st: Lip2State)
    requires |candidates| > 0
    ensures IsLipVictim(candidates, victim)
    ensures TracksTwoSmallest(curTick, candidates, st)
    ensures st.smallestTick <= st.secondSmallestTick <= curTick
    ensures st.smallestTick <= candidates[victim].lastTouchTick
    ensures forall j :: 0 <= j < |candidates| && j != victim ==> st.secondSmallestTick <= candidates[j].lastTouchTick
  {
    var smallestTick: Tick := curTick;
    var secondSmallestTick: Tick := curTick;
    victim := 0;
    // a candidate other than the victim whose tick the second tracker holds
    ghost var secondFrom: nat := 0;
    var i := 0;
    while i < |candidates|
      invariant 0 <= i <= |candidates|
      invariant victim < |candidates| && (victim < i || victim == 0)
      invariant forall j :: 0 <= j < i ==> candidates[victim].lastTouchTick <= candidates[j].lastTouchTick
      invariant forall j :: 0 <= j < victim ==> candidates[victim].lastTouchTick < candidates[j].lastTouchTick
      invariant smallestTick == if i > 0 && candidates[victim].lastTouchTick < curTick
                                then candidates[victim].lastTouchTick else curTick
      invariant secondSmallestTick <= curTick
      invariant forall j :: 0 <= j < i && j != victim ==> secondSmallestTick <= candidates[j].lastTouchTick
      invariant secondSmallestTick == curTick
                || (secondFrom < i && secondFrom != victim
                    && candidates[secondFrom].lastTouchTick == secondSmallestTick)
    {
      var lastTouchTick := candidates[i].lastTouchTick;
      ghost var previous := victim;
      if lastTouchTick < candidates[victim].lastTouchTick {
        victim := i;
      }
      if lastTouchTick < smallestTick {
        secondSmallestTick := smallestTick;
        smallestTick := lastTouchTick;
        secondFrom := previous;
      } else if lastTouchTick < secondSmallestTick {
        secondSmallestTick := lastTouchTick;
        secondFrom := i;
      }
      i := i + 1;
    }
    ScanTracksTwoSmallest(candidates, curTick, victim, smallestTick, secondSmallestTick, secondFrom);
    st := Lip2State(smallestTick, secondSmallestTick);
  }

  /** At most one candidate is the LIP2 victim: the victim is determined. */
  lemma LipVictimUnique(c: seq<Entry>, v: nat, w: nat)
    requires IsLipVictim(c, v) && IsLipVictim(c, w)
    ensures v == w
  {
    assert c[v].lastTouchTick == c[w].lastTouchTick;
  }

  /**
   After victim selection the smallest tracked tick is the victim's tick, or
   the current tick when the victim was touched no earlier than that.
   */
  lemma SmallestIsVictimOrClock(c: seq<Entry>, curTick: Tick, v: nat, st: Lip2State)
    requires IsLipVictim(c, v) && TracksTwoSmallest(curTick, c, st)
    ensures st.smallestTick == if c[v].lastTouchTick < curTick then c[v].lastTouchTick else curTick
  {
    var ticks := Ticks(c);
    assert ticks[v] in multiset(ticks);
    assert c[v].lastTouchTick in Pool(curTick, c);
    assert curTick in Pool(curTick, c);
    if st.smallestTick != curTick {
      assert st.smallestTick in multiset(ticks);
      assert st.smallestTick in ticks;
      var j :| 0 <= j < |ticks| && ticks[j] == st.smallestTick;
      assert c[v].lastTouchTick <= c[j].lastTouchTick;
    }
  }

  /** The tick stamped on a newly inserted line: one above the second-smallest tick, modulo 2^64. */
  function ResetTick(st: Lip2State): (t: Tick)
    ensures st.secondSmallestTick < MaxTick ==> st.secondSmallestTick < t <= st.secondSmallestTick + 1
    ensures st.secondSmallestTick == MaxTick ==> t == 0
  {
    (st.secondSmallestTick + 1) % (MaxTick + 1)
  }

  /**
   Resetting line `i` of a cache set for a newly inserted block; the policy's
   tick fields and every other line are unchanged.
   */
  function Reset(st: Lip2State, lines: seq<Entry>, i: nat): (r: seq<Entry>)
    requires i < |lines|
    ensures |r| == |lines|
    ensures r[i] == Entry(ResetTick(st))
    ensures st.smallestTick <= st.secondSmallestTick < MaxTick ==> r[i].lastTouchTick > st.smallestTick
    ensures st.secondSmallestTick == MaxTick ==> r[i].lastTouchTick == 0
    ensures forall j :: 0 <= j < |lines| && j != i ==> r[j] == lines[j]
  {
    lines[i := Entry(ResetTick(st))]
  }

  /**
   Invalidating line `i` of a cache set stamps it with tick 0; the policy's
   tick fields and every other line are unchanged.
   */
  function Invalidate(lines: seq<Entry>, i: nat): (r: seq<Entry>)
    requires i < |lines|
    ensures |r| == |lines|
    ensures r[i].lastTouchTick == 0
    ensures forall j :: 0 <= j < |lines| && j != i ==> r[j] == lines[j]
  {
    lines[i := Entry(0)]
  }

  /**
   After a victim selection at a tick before the end of time, a newly inserted
   line is stamped strictly above the smallest tracked tick and at most one
   tick past the clock.
   */
  lemma ResetAfterScan(c: seq<Entry>, curTick: Tick, st: Lip2State)
    requires TracksTwoSmallest(curTick, c, st)
    requires curTick < MaxTick
    ensures st.smallestTick < ResetTick(st) <= curTick + 1
  {
    assert curTick in Pool(curTick, c) - multiset{st.smallestTick};
    assert st.secondSmallestTick in Pool(curTick, c);
  }

  /**
   A newly inserted line can be stamped later than the clock: in a set of one
   line touched at tick 5, victim selection at tick 10 tracks 5 and 10, and
   reset stamps tick 11.
   */
  lemma ResetCanPassClock(st: Lip2State)
    requires TracksTwoSmallest(10, [Entry(5)], st)
    ensures ResetTick(st) == 11
  {
  }

  /** An invalidated line is evicted before any valid line that follows it. */
  lemma InvalidatedLineEvictedFirst(lines: seq<Entry>, i: nat, v: nat)
    requires i < |lines|
    requires IsLipVictim(Invalidate(lines, i), v)
    ensures Invalidate(lines, i)[v].lastTouchTick == 0
    ensures v <= i
  {
  }

  /**
   A line touched at the current tick is not the next victim while some other
   line of its set was last touched earlier.
   */
  lemma TouchedLineNotLipVictim(lines: seq<Entry>, i: nat, curTick: Tick, other: nat, v: nat)
    requires i < |lines| && other < |lines| && other != i
    requires lines[other].lastTouchTick < curTick
    requires IsLipVictim(Touch(lines, i, curTick), v)
    ensures v != i
  {
  }

  /**
   The LIP2 policy object: its two mutable tick fields are written by every
   victim selection and read by reset.
   */
  class Lip2Policy {
    var smallestTick: Tick
    var secondSmallestTick: Tick

    constructor (initial: Lip2State)
      ensures State() == initial
    {
      smallestTick := initial.smallestTick;
      secondSmallestTick := initial.secondSmallestTick;
    }

    function State(): Lip2State
      reads this
    {
      Lip2State(smallestTick, secondSmallestTick)
    }

    method GetVictim(candidates: seq<Entry>, curTick: Tick) returns (victim: nat)
      requires |candidates| > 0
      modifies this
      ensures IsLipVictim(candidates, victim)
      ensures TracksTwoSmallest(curTick, candidates, State())
      ensures smallestTick <= secondSmallestTick <= curTick
    {
      var st;
      victim, st := ScanForVictim(candidates, curTick);
      smallestTick := st.smallestTick;
      secondSmallestTick := st.secondSmallestTick;
    }
  }
}
