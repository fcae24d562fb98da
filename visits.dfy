/** The per-point visit counters of the bounded trace walks. A Go
    `map[Point]int` reads as 0 for an absent key, so two counter maps that
    agree under that reading are interchangeable. The walk terminates because
    every step spends one of finitely many "slots" (point, count below the
    repeat limit). */
module Visits {
  import opened Wrappers

  type Counts = map<int, int>

  function Count(visits: Counts, p: int): int
  {
    Get(visits, p, 0)
  }

  predicate NonNegative(visits: Counts)
  {
    forall p :: p in visits ==> visits[p] >= 0
  }

  /** Two counter maps that read the same everywhere. */
  ghost predicate SameCounts(a: Counts, b: Counts)
  {
    forall p :: Count(a, p) == Count(b, p)
  }

  /** The visits still available: (p, k) for each point p and each count k
      between p's current count and the limit. */
  function Slots(visits: Counts, points: set<int>, limit: int): set<(int, int)>
  {
    set p, k | p in points && 0 <= k < limit && Count(visits, p) <= k :: (p, k)
  }

  /** Entering a point below its limit spends exactly one slot. */
  lemma SlotsShrink(visits: Counts, points: set<int>, limit: int, q: int)
    requires NonNegative(visits) && q in points && Count(visits, q) < limit
    ensures NonNegative(visits[q := Count(visits, q) + 1])
    ensures Slots(visits[q := Count(visits, q) + 1], points, limit) < Slots(visits, points, limit)
  {
    var v := Count(visits, q);
    var after := visits[q := v + 1];
    assert (q, v) in Slots(visits, points, limit);
    assert (q, v) !in Slots(after, points, limit);
    assert Slots(after, points, limit) <= Slots(visits, points, limit);
  }

  lemma SameCountsSlots(a: Counts, b: Counts, points: set<int>, limit: int)
    requires SameCounts(a, b)
    ensures Slots(a, points, limit) == Slots(b, points, limit)
  {
  }

  /** Updating one point the same way keeps two counter maps interchangeable. */
  lemma SameCountsUpdate(a: Counts, b: Counts, q: int, v: int)
    requires SameCounts(a, b)
    ensures SameCounts(a[q := v], b[q := v])
  {
    var a', b' := a[q := v], b[q := v];
    forall p ensures Count(a', p) == Count(b', p) {
      if p != q {
        assert Count(a, p) == Count(b, p);
      }
    }
  }

  /** Leaving a point again undoes the increment made on entering it. */
  lemma SameCountsRestore(before: Counts, after: Counts, q: int)
    requires NonNegative(before) && NonNegative(after)
    requires SameCounts(after, before[q := Count(before, q) + 1])
    ensures NonNegative(after[q := Count(after, q) - 1])
    ensures SameCounts(after[q := Count(after, q) - 1], before)
  {
    assert Count(after, q) == Count(before[q := Count(before, q) + 1], q);
    forall p ensures Count(after[q := Count(after, q) - 1], p) == Count(before, p) {
      if p != q {
        assert Count(after, p) == Count(before[q := Count(before, q) + 1], p);
      }
    }
  }

  lemma SameCountsTrans(a: Counts, b: Counts, c: Counts)
    requires SameCounts(a, b) && SameCounts(b, c)
    ensures SameCounts(a, c)
  {
  }
}
