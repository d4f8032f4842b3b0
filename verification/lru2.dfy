/** Cardinality facts used to count the candidates ahead of an LRU2 victim. */
module Cardinality {

  lemma SubsetCard<T>(a: set<T>, b: set<T>)
    requires a <= b
    ensures |a| <= |b|
  {
    assert b == a + (b - a);
    assert a * (b - a) == {};
  }
}

/**
 LRU2: a replacement policy derived from LRU that evicts the third most
 recently used candidate of a set rather than the least recently used one.

 Most-recently-used order is made total by candidate position: of two
 candidates touched at the same tick, the one earlier in the candidate list
 counts as the more recent, because the scan only displaces a tracked slot on
 a strictly greater tick.
 */
module Lru2 {
  import opened ReplData
  import Cardinality

  /** Candidate `a` comes before candidate `b` in most-recently-used order. */
  predicate Newer(c: seq<Entry>, a: nat, b: nat)
    requires a < |c| && b < |c|
  {
    || c[a].lastTouchTick > c[b].lastTouchTick
    || (c[a].lastTouchTick == c[b].lastTouchTick && a < b)
  }

  /** The candidates that come before `v` in most-recently-used order. */
  ghost function NewerThan(c: seq<Entry>, v: nat): set<nat>
    requires v < |c|
  {
    set j | 0 <= j < |c| && Newer(c, j, v)
  }

  /** The candidates touched strictly after tick `t`. */
  ghost function TouchedAfter(c: seq<Entry>, t: Tick): set<nat>
  {
    set j | 0 <= j < |c| && c[j].lastTouchTick > t
  }

  /** The candidates touched at tick `t` or later. */
  ghost function TouchedSince(c: seq<Entry>, t: Tick): set<nat>
  {
    set j | 0 <= j < |c| && c[j].lastTouchTick >= t
  }

  /** `v` is the third most recently used candidate: exactly two come before it. */
  ghost predicate IsThirdMru(c: seq<Entry>, v: nat)
  {
    v < |c| && |NewerThan(c, v)| == 2
  }

  /**
   Three tracked slots in most-recently-used order, with every other scanned
   candidate behind the last of them, leave exactly the first two ahead of
   the last one.
   */
  lemma SlotsRankThird(c: seq<Entry>, m0: nat, m1: nat, m2: nat)
    requires m0 < |c| && m1 < |c| && m2 < |c|
    requires m0 != m1 && m1 != m2 && m0 != m2
    requires Newer(c, m0, m1) && Newer(c, m1, m2)
    requires forall j :: 0 <= j < |c| && j != m0 && j != m1 && j != m2 ==> Newer(c, m2, j)
    ensures IsThirdMru(c, m2)
  {
    assert Newer(c, m0, m2);
    forall j | 0 <= j < |c| && j != m0 && j != m1
      ensures !Newer(c, j, m2)
    {
      if j != m2 {
        assert Newer(c, m2, j);
      }
    }
    assert NewerThan(c, m2) == {m0, m1};
  }

  /**
   The victim scan of the LRU2 policy. It keeps the three most recently used
   candidates seen so far in slots `mru0`, `mru1`, `mru2` and returns the
   last slot.
   */
  method GetVictim(candidates: seq<Entry>) returns (victim: nat)
    requires |candidates| >= 3
    ensures victim < |candidates|
    ensures IsThirdMru(candidates, victim)
  {
    var mru0: Option<nat> := None;
    var mru1: Option<nat> := None;
    var mru2: Option<nat> := None;
    var i := 0;
    while i < |candidates|
      invariant 0 <= i <= |candidates|
      invariant mru0.Some? <==> i >= 1
      invariant mru1.Some? <==> i >= 2
      invariant mru2.Some? <==> i >= 3
      invariant mru0.Some? ==> mru0.value < i
      invariant mru1.Some? ==> mru1.value < i && mru1 != mru0 && Newer(candidates, mru0.value, mru1.value)
      invariant mru2.Some? ==> mru2.value < i && mru2 != mru0 && mru2 != mru1
                               && Newer(candidates, mru1.value, mru2.value)
      invariant forall j :: 0 <= j < i && Some(j) != mru0 && Some(j) != mru1 && Some(j) != mru2
                            ==> mru2.Some? && Newer(candidates, mru2.value, j)
    {
      var lastTouchTick := candidates[i].lastTouchTick;
      if mru0.None? || lastTouchTick > candidates[mru0.value].lastTouchTick {
        mru2 := mru1;
        mru1 := mru0;
        mru0 := Some(i);
      } else if mru1.None? || lastTouchTick > candidates[mru1.value].lastTouchTick {
        mru2 := mru1;
        mru1 := Some(i);
      } else if mru2.None? || lastTouchTick > candidates[mru2.value].lastTouchTick {
        mru2 := Some(i);
      }
      i := i + 1;
    }
    SlotsRankThird(candidates, mru0.value, mru1.value, mru2.value);
    victim := mru2.value;
  }

  /** A candidate ahead of another in MRU order has strictly fewer candidates ahead of it. */
  lemma NewerHasFewerAhead(c: seq<Entry>, a: nat, b: nat)
    requires a < |c| && b < |c| && Newer(c, a, b)
    ensures |NewerThan(c, a)| < |NewerThan(c, b)|
  {
    var ahead := NewerThan(c, a);
    assert a !in ahead;
    assert ahead + {a} <= NewerThan(c, b);
    Cardinality.SubsetCard(ahead + {a}, NewerThan(c, b));
  }

  /** At most one candidate is the third most recently used: the victim is determined. */
  lemma ThirdMruUnique(c: seq<Entry>, v: nat, w: nat)
    requires IsThirdMru(c, v) && IsThirdMru(c, w)
    ensures v == w
  {
    if v != w {
      if Newer(c, v, w) {
        NewerHasFewerAhead(c, v, w);
      } else {
        NewerHasFewerAhead(c, w, v);
      }
    }
  }

  /** A third most recently used candidate exists only in a set of at least three. */
  lemma ThirdMruNeedsThreeCandidates(c: seq<Entry>, v: nat)
    requires IsThirdMru(c, v)
    ensures |c| >= 3
  {
    if |c| < 3 {
      // only the other of at most two candidates can be ahead of v
      Cardinality.SubsetCard(NewerThan(c, v), {1 - v});
      assert false;
    }
  }

  /** At most two candidates were touched strictly later than the victim. */
  lemma ThirdMruHasAtMostTwoNewer(c: seq<Entry>, v: nat)
    requires IsThirdMru(c, v)
    ensures |TouchedAfter(c, c[v].lastTouchTick)| <= 2
  {
    Cardinality.SubsetCard(TouchedAfter(c, c[v].lastTouchTick), NewerThan(c, v));
  }

  /**
   At least three candidates, the victim among them, were touched no earlier
   than the victim; with the lemma above, the victim's tick is the third
   largest of the candidate ticks counted with multiplicity.
   */
  lemma ThirdMruHasThreeAsRecent(c: seq<Entry>, v: nat)
    requires IsThirdMru(c, v)
    ensures |TouchedSince(c, c[v].lastTouchTick)| >= 3
  {
    assert v !in NewerThan(c, v);
    Cardinality.SubsetCard(NewerThan(c, v) + {v}, TouchedSince(c, c[v].lastTouchTick));
  }

  /** A candidate touched strictly later than every other one is never the victim. */
  lemma StrictMruNeverVictim(c: seq<Entry>, k: nat)
    requires k < |c|
    requires forall j :: 0 <= j < |c| && j != k ==> c[j].lastTouchTick < c[k].lastTouchTick
    ensures !IsThirdMru(c, k)
  {
  }

  /** When every candidate was touched at the same tick, the victim is the third candidate. */
  lemma EqualTicksVictimIsThird(c: seq<Entry>, v: nat)
    requires |c| >= 3
    requires forall j :: 0 <= j < |c| ==> c[j].lastTouchTick == c[0].lastTouchTick
    ensures IsThirdMru(c, v) <==> v == 2
  {
    assert NewerThan(c, 2) == {0, 1};
    if IsThirdMru(c, v) {
      ThirdMruUnique(c, v, 2);
    }
  }

  /**
   Touching a line at a tick later than every line's last touch makes it the
   most recently used line, so it is not the next LRU2 victim.
   */
  lemma TouchedLineSurvives(lines: seq<Entry>, i: nat, curTick: Tick)
    requires i < |lines|
    requires forall j :: 0 <= j < |lines| ==> lines[j].lastTouchTick < curTick
    ensures !IsThirdMru(Touch(lines, i, curTick), i)
  {
  }
}
