/** The order the factorization sorts field paths by: Go's `slices.Compare`
    over paths whose elements are compared with `cmp.Compare` on strings,
    and the insertion sort that stands for `sort.Slice` with that order. */
module PathOrder {
  import opened ExecutionOps

  /** cmp.Compare on two strings: lexicographic, character by character, a
      proper prefix coming first. */
  function CompareStrings(a: string, b: string): (c: int)
    ensures -1 <= c <= 1
  {
    if |a| == 0 then (if |b| == 0 then 0 else -1)
    else if |b| == 0 then 1
    else if a[0] < b[0] then -1
    else if a[0] > b[0] then 1
    else CompareStrings(a[1..], b[1..])
  }

  /** slices.Compare on two paths: the first differing field decides, a
      proper prefix coming first. */
  function ComparePaths(a: Path, b: Path): (c: int)
    ensures -1 <= c <= 1
  {
    if |a| == 0 then (if |b| == 0 then 0 else -1)
    else if |b| == 0 then 1
    else if CompareStrings(a[0], b[0]) != 0 then CompareStrings(a[0], b[0])
    else ComparePaths(a[1..], b[1..])
  }

  lemma {:induction false} StringsEqual(a: string, b: string)
    ensures CompareStrings(a, b) == 0 <==> a == b
  {
    if |a| > 0 && |b| > 0 && a[0] == b[0] {
      StringsEqual(a[1..], b[1..]);
      assert a == [a[0]] + a[1..] && b == [b[0]] + b[1..];
    }
  }

  lemma {:induction false} StringsAntisymmetric(a: string, b: string)
    ensures CompareStrings(a, b) == -CompareStrings(b, a)
  {
    if |a| > 0 && |b| > 0 && a[0] == b[0] {
      StringsAntisymmetric(a[1..], b[1..]);
    }
  }

  lemma {:induction false} StringsTransitive(a: string, b: string, c: string)
    requires CompareStrings(a, b) <= 0 && CompareStrings(b, c) <= 0
    ensures CompareStrings(a, c) <= 0
  {
    if |a| > 0 && |b| > 0 && |c| > 0 && a[0] == b[0] == c[0] {
      StringsTransitive(a[1..], b[1..], c[1..]);
    }
  }

  lemma {:induction false} PathsEqual(a: Path, b: Path)
    ensures ComparePaths(a, b) == 0 <==> a == b
  {
    if |a| > 0 && |b| > 0 {
      StringsEqual(a[0], b[0]);
      if a[0] == b[0] {
        PathsEqual(a[1..], b[1..]);
        assert a == [a[0]] + a[1..] && b == [b[0]] + b[1..];
      }
    }
  }

  lemma {:induction false} PathsAntisymmetric(a: Path, b: Path)
    ensures ComparePaths(a, b) == -ComparePaths(b, a)
  {
    if |a| > 0 && |b| > 0 {
      StringsAntisymmetric(a[0], b[0]);
      PathsAntisymmetric(a[1..], b[1..]);
    }
  }

  lemma {:induction false} PathsTransitive(a: Path, b: Path, c: Path)
    requires ComparePaths(a, b) <= 0 && ComparePaths(b, c) <= 0
    ensures ComparePaths(a, c) <= 0
  {
    if |a| > 0 && |b| > 0 && |c| > 0 {
      StringsEqual(a[0], b[0]);
      StringsEqual(b[0], c[0]);
      StringsEqual(a[0], c[0]);
      StringsAntisymmetric(a[0], c[0]);
      StringsAntisymmetric(a[0], b[0]);
      StringsTransitive(a[0], b[0], c[0]);
      if a[0] == b[0] == c[0] {
        PathsTransitive(a[1..], b[1..], c[1..]);
      }
    }
  }

  /** A path comes no later than every path it is a prefix of, and strictly
      earlier than every proper extension. */
  lemma {:induction false} PrefixFirst(p: Path, q: Path)
    requires p <= q
    ensures ComparePaths(p, q) <= 0
    ensures p != q ==> ComparePaths(p, q) < 0
  {
    if |p| > 0 {
      StringsEqual(p[0], q[0]);
      PrefixFirst(p[1..], q[1..]);
    }
  }

  /** A path that sits between p and an extension r of p in the order
      extends p as well. */
  lemma {:induction false} BetweenExtends(p: Path, q: Path, r: Path)
    requires ComparePaths(p, q) <= 0 && ComparePaths(q, r) <= 0 && p <= r
    ensures p <= q
  {
    if |p| > 0 {
      StringsEqual(p[0], q[0]);
      StringsAntisymmetric(q[0], r[0]);
      BetweenExtends(p[1..], q[1..], r[1..]);
      assert p == [p[0]] + p[1..] && q == [q[0]] + q[1..];
    }
  }

  /** Ascending order, equal paths allowed (the order sort.Slice produces). */
  predicate Sorted(s: seq<Path>)
  {
    forall i, j :: 0 <= i < j < |s| ==> ComparePaths(s[i], s[j]) <= 0
  }

  /** Ascending order without repetitions. */
  predicate StrictlySorted(s: seq<Path>)
  {
    forall i, j :: 0 <= i < j < |s| ==> ComparePaths(s[i], s[j]) < 0
  }

  /** `x` placed before the first element it does not exceed. */
  function Insert(x: Path, s: seq<Path>): (r: seq<Path>)
    ensures multiset(r) == multiset(s) + multiset{x}
  {
    if |s| == 0 then [x]
    else if ComparePaths(x, s[0]) <= 0 then [x] + s
    else
      assert s == [s[0]] + s[1..];
      [s[0]] + Insert(x, s[1..])
  }

  lemma {:induction false} InsertSorted(x: Path, s: seq<Path>)
    requires Sorted(s)
    ensures Sorted(Insert(x, s))
  {
    if |s| > 0 {
      if ComparePaths(x, s[0]) <= 0 {
        forall j | 0 < j < |s| ensures ComparePaths(x, s[j]) <= 0 {
          PathsTransitive(x, s[0], s[j]);
        }
      } else {
        PathsAntisymmetric(x, s[0]);
        InsertSorted(x, s[1..]);
        var t := Insert(x, s[1..]);
        forall j | 0 <= j < |t| ensures ComparePaths(s[0], t[j]) <= 0 {
          assert t[j] in multiset(t);
          if t[j] != x {
            var k :| 1 <= k < |s| && s[k] == t[j] by {
              assert t[j] in multiset(s[1..]);
              assert t[j] in s[1..];
            }
          }
        }
      }
    }
  }

  /** sort.Slice with slices.Compare: an ascending permutation. */
  function SortPaths(s: seq<Path>): (r: seq<Path>)
    ensures Sorted(r) && multiset(r) == multiset(s)
  {
    if |s| == 0 then []
    else
      assert s == [s[0]] + s[1..];
      InsertSorted(s[0], SortPaths(s[1..]));
      Insert(s[0], SortPaths(s[1..]))
  }

  /** The tail of an ascending list without repetitions holds every element
      but the head. */
  lemma StrictlySortedTail(a: seq<Path>, p: Path)
    requires StrictlySorted(a) && |a| > 0
    ensures p in a[1..] <==> p in a && p != a[0]
  {
    assert a == [a[0]] + a[1..];
    if p in a[1..] {
      var k :| 1 <= k < |a| && a[k] == p;
      PathsEqual(a[0], p);
    }
  }

  /** Two ascending lists without repetitions that hold the same paths are
      the same list. */
  lemma {:induction false} StrictlySortedUnique(a: seq<Path>, b: seq<Path>)
    requires StrictlySorted(a) && StrictlySorted(b)
    requires forall p :: p in a <==> p in b
    ensures a == b
  {
    assert |b| > 0 ==> b[0] in a;
    if |a| > 0 {
      assert a[0] in b;
      assert b[0] in a;
      if a[0] != b[0] {
        var i :| 0 <= i < |b| && b[i] == a[0];
        var j :| 0 <= j < |a| && a[j] == b[0];
        PathsAntisymmetric(a[0], b[0]);
      }
      forall p ensures p in a[1..] <==> p in b[1..] {
        StrictlySortedTail(a, p);
        StrictlySortedTail(b, p);
      }
      StrictlySortedUnique(a[1..], b[1..]);
      assert a == [a[0]] + a[1..] && b == [b[0]] + b[1..];
    }
  }

  /** sort.Slice is not stable, but under this order equal keys are equal
      paths: any two ascending arrangements of the same paths coincide. */
  lemma {:induction false} SortedUnique(a: seq<Path>, b: seq<Path>)
    requires Sorted(a) && Sorted(b) && multiset(a) == multiset(b)
    ensures a == b
  {
    if |a| == 0 {
      assert |b| == |multiset(b)|;
    } else {
      SortedHeads(a, b);
      SameTails(a, b);
      SortedUnique(a[1..], b[1..]);
      assert a == [a[0]] + a[1..] && b == [b[0]] + b[1..];
    }
  }

  lemma SortedHeads(a: seq<Path>, b: seq<Path>)
    requires Sorted(a) && Sorted(b) && multiset(a) == multiset(b) && |a| > 0
    ensures |b| > 0 && a[0] == b[0]
  {
    assert a[0] in multiset(b);
    assert b[0] in multiset(a);
    var i :| 0 <= i < |b| && b[i] == a[0];
    var j :| 0 <= j < |a| && a[j] == b[0];
    PathsEqual(a[0], a[0]);
    PathsEqual(b[0], b[0]);
    assert i == 0 || ComparePaths(b[0], b[i]) <= 0;
    assert j == 0 || ComparePaths(a[0], a[j]) <= 0;
    PathsAntisymmetric(a[0], b[0]);
    PathsEqual(a[0], b[0]);
  }

  lemma SameTails(a: seq<Path>, b: seq<Path>)
    requires multiset(a) == multiset(b) && |a| > 0 && |b| > 0 && a[0] == b[0]
    ensures multiset(a[1..]) == multiset(b[1..])
  {
    assert a == [a[0]] + a[1..] && b == [b[0]] + b[1..];
    assert multiset(a) == multiset{a[0]} + multiset(a[1..]);
    assert multiset(b) == multiset{b[0]} + multiset(b[1..]);
    assert multiset(a[1..]) == multiset(a) - multiset{a[0]};
    assert multiset(b[1..]) == multiset(b) - multiset{b[0]};
  }
}
