# LRU2 and LIP2 cache replacement policies

This project models two replacement policies written as plugins for the gem5
simulator's cache model, and proves properties of them in Dafny.

- **LRU2** (`lru_2.cc`) is derived from gem5's LRU policy. Its victim
  selection scans the candidate lines of a set. It keeps the three most
  recently used lines seen so far in three slots. It evicts the third most
  recently used line instead of the least recently used one.
- **LIP2** (`lip_2.cc`) is a variant of the LRU insertion policy.
  - Victim selection evicts the least recently touched candidate.
  - While it scans, it stores the smallest and second-smallest ticks it sees
    in two policy fields. The current tick is counted twice, because both
    fields start there.
  - `reset` stamps a newly inserted line one tick above that second-smallest
    tick. The new line therefore lands near the least-recently-used end of
    its set.
  - `touch` stamps a line with the current tick.
  - `invalidate` stamps a line with tick 0.

The model has three parts:

- `repl_data.dfy`, module `ReplData`, holds the shared pieces:
  - the replacement data of a line, an `Entry` carrying `lastTouchTick`;
  - gem5's `Tick`, an unsigned 64-bit integer, as a `nat` bounded by `MaxTick`;
  - `Touch`.
- `lru2.dfy`, module `Lru2`, holds the LRU2 victim scan and its specification,
  next to a small `Cardinality` module for the set sizes its lemmas count.
- `lip2.dfy`, module `Lip2`, holds the LIP2 scan, `reset` and `invalidate`, and
  the `Lip2Policy` class whose two mutable fields are the policy's tick fields.

The model replaces some of the source's machinery with plain values:

- A candidate list is a `seq<Entry>`, and `getVictim` returns an index into it
  instead of an entry pointer.
- The simulator clock `curTick()` is an explicit parameter.
- `touch`, `reset` and `invalidate` act on line `i` of a cache set given as a
  `seq<Entry>`. This lets their contracts say that no other line changes.

Victim selection never changes a candidate. The candidates are an immutable
sequence, and the scans return only an index and, for LIP2, the new tick
fields. This matches `getVictim` being `const` in both classes. None of
LIP2's `touch`, `reset` and `invalidate` returns the policy's tick fields, so
none of them can change them; `reset` only reads them through its `st`
parameter, and the other two do not use them at all.

**Most-recently-used order.** The LRU2 scan only displaces a slot on a
strictly greater tick. So of two candidates touched at the same tick, the
earlier one in the list counts as the more recent. `Lru2.Newer` is this total
order. The victim is the unique candidate with exactly two candidates ahead
of it (`Lru2.IsThirdMru`).

**Two smallest ticks.** LIP2's fields are specified over the multiset `Pool`,
which holds the current tick twice plus every candidate's tick. The smallest
tick is the minimum of that multiset. The second-smallest tick is the minimum
after one copy of the smallest is removed (`Lip2.TracksTwoSmallest`).

**LRU2 against gem5's LRU.** Unlike gem5's LRU policy, which evicts the least
recently used line, LRU2 evicts the third most recently used one.

**A consequence of `reset` worth knowing.** The tick `reset` stamps can be
later than the clock. Take a set of one line touched at tick 5. Victim
selection at tick 10 records 5 and 10, and `reset` then stamps tick 11
(`Lip2.ResetCanPassClock`). The bound is one tick past the clock
(`Lip2.ResetAfterScan`).

## Model

| member | source | states |
|---|---|---|
| `Lru2.GetVictim` | src/mem/cache/replacement_policies/lru_2.cc:19-53 | given at least three candidates, the victim is one of them and exactly two candidates come before it in most-recently-used order (a later tick, or the same tick and an earlier position); the scan's loop keeps its slots distinct, in that order, and filled once three candidates have been scanned |
| `Lru2.SlotsRankThird` | src/mem/cache/replacement_policies/lru_2.cc:33-52 | three distinct slots in MRU order, with every other candidate behind the last slot, make the last slot the third most recently used candidate |
| `Lru2.ThirdMruUnique` | src/mem/cache/replacement_policies/lru_2.cc:29-52 | at most one candidate is the third most recently used, so position fully breaks ties and the victim is determined |
| `Lru2.ThirdMruNeedsThreeCandidates` | src/mem/cache/replacement_policies/lru_2.cc:21-22 | a third most recently used candidate exists only when there are at least three candidates, which is the scan's assertion |
| `Lru2.ThirdMruHasAtMostTwoNewer` | src/mem/cache/replacement_policies/lru_2.cc:29-52 | at most two candidates have a strictly later tick than the victim |
| `Lru2.ThirdMruHasThreeAsRecent` | src/mem/cache/replacement_policies/lru_2.cc:29-52 | at least three candidates, the victim included, have a tick no earlier than the victim's, so the victim's tick is the third largest candidate tick counted with multiplicity |
| `Lru2.StrictMruNeverVictim` | src/mem/cache/replacement_policies/lru_2.cc:33-38 | a candidate whose tick is strictly later than every other candidate's is never the victim |
| `Lru2.EqualTicksVictimIsThird` | src/mem/cache/replacement_policies/lru_2.cc:33-47 | when all candidates share one tick, the victim is exactly the third candidate |
| `Lru2.TouchedLineSurvives` | src/mem/cache/replacement_policies/lru_2.cc:33-38 | a line touched at a tick later than every line's last touch is not the next victim |
| `ReplData.Touch` | src/mem/cache/replacement_policies/lip_2.cc:42-49 | touching a line stamps it with the current tick and leaves every other line of the set as it was |
| `Lip2.ScanForVictim` | src/mem/cache/replacement_policies/lip_2.cc:51-85 | given at least one candidate, the victim has a tick no later than any candidate's and is the earliest such candidate; the two returned ticks are the smallest and second-smallest of the pool, with smallest <= second <= current tick; the smallest is no later than the victim's tick; the second is no later than any other candidate's tick |
| `Lip2.ScanTracksTwoSmallest` | src/mem/cache/replacement_policies/lip_2.cc:57-79 | the victim's tick capped at the clock, together with the least of the clock and the other candidates' ticks, are exactly the two smallest elements of the pool |
| `Lip2.LipVictimUnique` | src/mem/cache/replacement_policies/lip_2.cc:61-71 | at most one candidate is the earliest least-recently-touched one, so the victim is determined |
| `Lip2.SmallestIsVictimOrClock` | src/mem/cache/replacement_policies/lip_2.cc:57-79 | after victim selection, the smallest tracked tick is the victim's tick if that is before the current tick, and the current tick otherwise |
| `Lip2.Lip2Policy.GetVictim` | src/mem/cache/replacement_policies/lip_2.cc:51-85 | the victim is the earliest least-recently-touched candidate; afterwards the object's two fields hold the two smallest ticks of the pool, with smallest <= second <= current tick; only this object changes |
| `Lip2.ResetTick` | src/mem/cache/replacement_policies/lip_2.cc:24-25 | the inserted line's tick is the one immediately above the second-smallest tick (strictly above it, and at most one more), except that it wraps to 0 when that tick is the largest 64-bit value |
| `Lip2.Reset` | src/mem/cache/replacement_policies/lip_2.cc:19-29 | the reset line gets exactly the tick `ResetTick` computes from the second-smallest tick; when smallest <= second and no wrap-around occurs, that tick is strictly greater than the smallest tracked tick; every other line stays as it was |
| `Lip2.Invalidate` | src/mem/cache/replacement_policies/lip_2.cc:31-40 | the invalidated line gets tick 0 and every other line stays as it was |
| `Lip2.ResetAfterScan` | src/mem/cache/replacement_policies/lip_2.cc:24-25 | after victim selection at any tick but the last, the inserted line's tick is strictly above the smallest tracked tick and at most one past the clock |
| `Lip2.ResetCanPassClock` | src/mem/cache/replacement_policies/lip_2.cc:24-25 | in a one-line set touched at tick 5, victim selection at tick 10 followed by reset stamps tick 11, later than the clock |
| `Lip2.InvalidatedLineEvictedFirst` | src/mem/cache/replacement_policies/lip_2.cc:31-40 | after an invalidation, the next victim has tick 0 and is the invalidated line or a line before it |
| `Lip2.TouchedLineNotLipVictim` | src/mem/cache/replacement_policies/lip_2.cc:42-49 | a line just touched at the current tick is not the next victim while another line of its set was last touched earlier |

## Left out

- LRU2's `touch`, `reset` and `invalidate` are inherited from gem5's base LRU policy, which is not part of this model. `Lru2.TouchedLineSurvives` assumes only that `touch` stamps the current tick, as LIP2's `touch` does.
- The initial values of LIP2's two tick fields are declared in `lip_2.hh`, which is not part of this model. The `Lip2Policy` constructor therefore takes them as a parameter.
- `Lru2.GetVictim` and `Lip2.ScanForVictim`: the source checks its minimum number of candidates with `assert`, and the model states that check as a precondition. Builds that compile assertions out would let LRU2 return a null pointer for fewer than three candidates. That behaviour is not modelled.
- Entry pointers, `shared_ptr` casts and the `ReplacementData` hierarchy are replaced by indices into a sequence of `Entry` values.
- The simulator clock and the rest of gem5 are out of scope. This covers the cache itself, MSHRs, latencies, prefetchers, branch predictors, the event queue and the CPU pipeline. The clock appears only as a parameter.
- The configuration scripts `configs/tutorial/part1/assg3.py` and `configs/tutorial/part1/run-benchmark.py` are left out. They only construct and wire simulator objects, and all their behaviour lives in the simulator.
