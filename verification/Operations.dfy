/** The reductions applied to the values of one group. Quantities are integers in nano units. */
module Operations {
  import opened Grouping

  datatype Op = Sum | Max | Avg | P95 | Median | Hist | Other(name: string)

  // ---------------------------------------------------------------- sorting

  ghost predicate IsSorted(xs: seq<int>) {
    forall i, j :: 0 <= i < j < |xs| ==> xs[i] <= xs[j]
  }

  function Insert(x: int, xs: seq<int>): (ys: seq<int>)
    ensures multiset(ys) == multiset(xs) + multiset{x}
  {
    if xs == [] || x <= xs[0] then [x] + xs
    else
      assert xs == [xs[0]] + xs[1..];
      [xs[0]] + Insert(x, xs[1..])
  }

  lemma {:induction false} InsertBounded(x: int, xs: seq<int>, lo: int)
    requires lo <= x && forall i :: 0 <= i < |xs| ==> lo <= xs[i]
    ensures forall i :: 0 <= i < |Insert(x, xs)| ==> lo <= Insert(x, xs)[i]
  {
    if xs != [] && x > xs[0] {
      InsertBounded(x, xs[1..], lo);
    }
  }

  lemma {:induction false} InsertKeepsOrder(x: int, xs: seq<int>)
    requires IsSorted(xs)
    ensures IsSorted(Insert(x, xs))
  {
    if xs != [] && x > xs[0] {
      InsertKeepsOrder(x, xs[1..]);
      InsertBounded(x, xs[1..], xs[0]);
    }
  }

  /** The ascending rearrangement of a list. */
  function Sorted(xs: seq<int>): (ys: seq<int>)
    ensures IsSorted(ys) && multiset(ys) == multiset(xs) && |ys| == |xs|
  {
    if xs == [] then []
    else
      var n := |xs| - 1;
      var t := Sorted(xs[..n]);
      var ys := Insert(xs[n], t);
      InsertKeepsOrder(xs[n], t);
      assert xs == xs[..n] + [xs[n]];
      assert |multiset(ys)| == |multiset(xs)|;
      ys
  }

  /** The first value of an ascending list is its least one. */
  lemma FirstIsLeast(xs: seq<int>)
    requires xs != [] && IsSorted(xs)
    ensures xs[0] in multiset(xs) && forall x :: x in multiset(xs) ==> xs[0] <= x
  {
    forall x | x in multiset(xs) ensures xs[0] <= x {
      var j :| 0 <= j < |xs| && xs[j] == x;
    }
  }

  lemma TailBag(xs: seq<int>)
    requires xs != []
    ensures multiset(xs) == multiset(xs[1..]) + multiset{xs[0]}
  {
    assert xs == [xs[0]] + xs[1..];
  }

  lemma SameLength(xs: seq<int>, ys: seq<int>)
    requires multiset(xs) == multiset(ys)
    ensures |xs| == |ys|
  {
    assert |multiset(xs)| == |xs| && |multiset(ys)| == |ys|;
  }

  lemma SameTail(a: multiset<int>, b: multiset<int>, x: int)
    requires a + multiset{x} == b + multiset{x}
    ensures a == b
  {
    assert a + multiset{x} - multiset{x} == a && b + multiset{x} - multiset{x} == b;
  }

  /** A bag has only one ascending arrangement. */
  lemma {:induction false} SortedIsUnique(xs: seq<int>, ys: seq<int>)
    requires IsSorted(xs) && IsSorted(ys) && multiset(xs) == multiset(ys)
    ensures xs == ys
  {
    SameLength(xs, ys);
    if xs != [] {
      FirstIsLeast(xs);
      FirstIsLeast(ys);
      TailBag(xs);
      TailBag(ys);
      SameTail(multiset(xs[1..]), multiset(ys[1..]), xs[0]);
      SortedIsUnique(xs[1..], ys[1..]);
      assert xs == [xs[0]] + xs[1..] && ys == [ys[0]] + ys[1..];
    }
  }

  // ---------------------------------------------------------------- rounding

  /** `n / d` rounded to the nearest integer, halves away from zero. */
  function RoundHalfUp(n: int, d: nat): int
    requires d > 0
  {
    if n >= 0 then (2 * n + d) / (2 * d) else -((-2 * n + d) / (2 * d))
  }

  /** An average is kept to six decimals, that is to a thousand nano units. */
  const AVERAGE_STEP: nat := 1000

  /** `q` is the integer nearest to `total / d`, halves away from zero. */
  ghost predicate Nearest(q: int, total: int, d: nat) {
    if total >= 0 then 2 * (q * d - total) <= d && 2 * (total - q * d) < d
    else 2 * (total - q * d) <= d && 2 * (q * d - total) < d
  }

  lemma RoundIsNearest(total: int, d: nat)
    requires d > 0
    ensures Nearest(RoundHalfUp(total, d), total, d)
  {
    var t := if total >= 0 then total else -total;
    var q := (2 * t + d) / (2 * d);
    assert q * (2 * d) <= 2 * t + d < q * (2 * d) + 2 * d;
    assert q * (2 * d) == 2 * (q * d);
    assert (-q) * d == -(q * d);
  }

  lemma NearestIsUnique(q: int, q': int, total: int, d: nat)
    requires d > 0 && Nearest(q, total, d) && Nearest(q', total, d)
    ensures q == q'
  {
    if q < q' { Apart(q, q', d); }
    if q' < q { Apart(q', q, d); }
  }

  lemma Apart(a: int, b: int, d: nat)
    requires a < b
    ensures b * d >= a * d + d
  {
    var more := b - a - 1;
    assert more * d >= 0;
    assert b * d == (a + 1 + more) * d == a * d + d + more * d;
  }

  /** `a` is the multiple of the step nearest to `total / n`. */
  ghost predicate IsAverage(a: int, total: int, n: nat) {
    exists q :: a == q * AVERAGE_STEP && Nearest(q, total, n * AVERAGE_STEP)
  }

  // ---------------------------------------------------------------- specification

  lemma {:induction false} Arrange(b: multiset<int>) returns (xs: seq<int>)
    ensures IsSorted(xs) && multiset(xs) == b
    decreases |b|
  {
    if b == multiset{} {
      xs := [];
    } else {
      Inhabited(b);
      var x :| x in b;
      var t := Arrange(b - multiset{x});
      InsertKeepsOrder(x, t);
      xs := Insert(x, t);
      assert b - multiset{x} + multiset{x} == b;
    }
  }

  /** The ascending arrangement of a bag. */
  ghost function Ascending(b: multiset<int>): (xs: seq<int>)
    ensures IsSorted(xs) && multiset(xs) == b && |xs| == |b|
  {
    assert exists xs :: IsSorted(xs) && multiset(xs) == b by {
      var xs := Arrange(b);
    }
    var xs :| IsSorted(xs) && multiset(xs) == b;
    assert |multiset(xs)| == |xs|;
    xs
  }

  function P95Index(n: nat): (i: nat)
    requires n > 0
    ensures i < n
  {
    95 * (n - 1) / 100
  }

  function MedianIndex(n: nat): (i: nat)
    requires n > 0
    ensures i < n
  {
    (n - 1) / 2
  }

  /** `out` is the outcome of `op` on the values of bag `b`, which were sorted beforehand or not. */
  ghost predicate IsResult(op: Op, b: multiset<int>, sorted: bool, out: seq<int>)
    requires b != multiset{}
  {
    var s := Ascending(b);
    match op
    case Sum => out == [FoldBag(AddUp, b)]
    case Max => out == [if sorted then s[|b| - 1] else FoldBag(TakeMax, b)]
    case Avg => |out| == 1 && IsAverage(out[0], FoldBag(AddUp, b), |b|)
    case P95 => out == [s[P95Index(|b|)]]
    case Median => out == [s[MedianIndex(|b|)]]
    case Hist => multiset(out) == b
    case Other(_) => out == [0]
  }

  /** Operations that need their values sorted. */
  predicate NeedsSort(op: Op) { op.P95? || op.Median? }

  // ---------------------------------------------------------------- the code

  /** Reduces one list. `after` is what the list holds when the call returns: sorting is done in place. */
  method Aggregate(op: Op, values: seq<int>, sorted: bool) returns (result: seq<int>, after: seq<int>)
    requires sorted ==> IsSorted(values)
    requires NeedsSort(op) || (op.Max? && sorted) ==> values != []
    ensures values != [] ==> IsResult(op, multiset(values), sorted, result)
    ensures values != [] ==> result != []
    ensures values == [] ==> result == if op.Avg? || op.Hist? then [] else [0]
    ensures op.Sum? ==> result == [Total(values)]
    ensures after == if NeedsSort(op) && !sorted then Sorted(values) else values
  {
    if NeedsSort(op) {
      after := SortIfNeeded(values, sorted);
      result := [after[if op.P95? then P95Index(|after|) else MedianIndex(|after|)]];
    } else {
      after := values;
      result := Reduce(op, values, sorted);
    }
  }

  /** The reductions that do not rearrange their list. */
  method Reduce(op: Op, values: seq<int>, sorted: bool) returns (result: seq<int>)
    requires !NeedsSort(op) && (sorted ==> IsSorted(values)) && (op.Max? && sorted ==> values != [])
    ensures values != [] ==> IsResult(op, multiset(values), sorted, result)
    ensures values != [] ==> result != []
    ensures values == [] ==> result == if op.Avg? || op.Hist? then [] else [0]
    ensures op.Sum? ==> result == [Total(values)]
  {
    var acc := 0;
    match op {
      case Sum =>
        acc := Add(values);
      case Max =>
        if sorted {
          SortedIsUnique(values, Ascending(multiset(values)));
          acc := values[|values| - 1];
        } else {
          acc := ScanMax(values);
        }
      case Avg =>
        if values == [] {
          return [];
        }
        acc := Average(values);
      case Hist =>
        return values;
      case Other(_) =>
    }
    result := [acc];
  }

  /** The list sorted, unless the caller says it already is. */
  method SortIfNeeded(values: seq<int>, sorted: bool) returns (after: seq<int>)
    requires sorted ==> IsSorted(values)
    ensures after == if sorted then values else Sorted(values)
    ensures after == Ascending(multiset(values)) && |after| == |values|
  {
    after := if sorted then values else Sorted(values);
    SortedIsUnique(after, Ascending(multiset(values)));
  }

  /** The largest value, or zero if none exceeds it. */
  method ScanMax(values: seq<int>) returns (acc: int)
    ensures acc == FoldBag(TakeMax, multiset(values))
  {
    acc := 0;
    for i := 0 to |values|
      invariant acc == FoldSeq(TakeMax, values[..i])
    {
      assert values[..i + 1][..i] == values[..i];
      if acc < values[i] {
        acc := values[i];
      }
    }
    assert values[..|values|] == values;
    FoldSeqIsFoldBag(TakeMax, values);
  }

  method Average(values: seq<int>) returns (a: int)
    requires values != []
    ensures IsAverage(a, FoldBag(AddUp, multiset(values)), |multiset(values)|)
  {
    var acc := Add(values);
    var d := |values| * AVERAGE_STEP;
    RoundIsNearest(acc, d);
    a := RoundHalfUp(acc, d) * AVERAGE_STEP;
  }

  method Add(values: seq<int>) returns (acc: int)
    ensures acc == FoldBag(AddUp, multiset(values)) == Total(values)
  {
    acc := 0;
    for i := 0 to |values|
      invariant acc == FoldSeq(AddUp, values[..i])
    {
      assert values[..i + 1][..i] == values[..i];
      acc := acc + values[i];
    }
    assert values[..|values|] == values;
    FoldSeqIsFoldBag(AddUp, values);
    AddUpIsTotal(values);
  }

  // ---------------------------------------------------------------- meaning

  ghost function CountAtMost(xs: seq<int>, x: int): nat {
    if xs == [] then 0 else CountAtMost(xs[..|xs| - 1], x) + if xs[|xs| - 1] <= x then 1 else 0
  }

  ghost function CountAtLeast(xs: seq<int>, x: int): nat {
    if xs == [] then 0 else CountAtLeast(xs[..|xs| - 1], x) + if xs[|xs| - 1] >= x then 1 else 0
  }

  lemma {:induction false} CountsOfConcat(xs: seq<int>, ys: seq<int>, x: int)
    ensures CountAtMost(xs + ys, x) == CountAtMost(xs, x) + CountAtMost(ys, x)
    ensures CountAtLeast(xs + ys, x) == CountAtLeast(xs, x) + CountAtLeast(ys, x)
  {
    if ys == [] {
      assert xs + ys == xs;
    } else {
      var n := |ys| - 1;
      CountsOfConcat(xs, ys[..n], x);
      assert (xs + ys)[..|xs + ys| - 1] == xs + ys[..n];
    }
  }

  lemma {:induction false} CountsOfInsert(y: int, xs: seq<int>, x: int)
    ensures CountAtMost(Insert(y, xs), x) == CountAtMost(xs, x) + if y <= x then 1 else 0
    ensures CountAtLeast(Insert(y, xs), x) == CountAtLeast(xs, x) + if y >= x then 1 else 0
  {
    if xs == [] || y <= xs[0] {
      CountsOfConcat([y], xs, x);
    } else {
      CountsOfInsert(y, xs[1..], x);
      CountsOfConcat([xs[0]], Insert(y, xs[1..]), x);
      CountsOfConcat([xs[0]], xs[1..], x);
      assert [xs[0]] + xs[1..] == xs;
    }
  }

  /** Sorting does not change how many values are above or below a bound. */
  lemma {:induction false} CountsOfSorted(xs: seq<int>, x: int)
    ensures CountAtMost(Sorted(xs), x) == CountAtMost(xs, x)
    ensures CountAtLeast(Sorted(xs), x) == CountAtLeast(xs, x)
  {
    if xs != [] {
      var n := |xs| - 1;
      CountsOfSorted(xs[..n], x);
      CountsOfInsert(xs[n], Sorted(xs[..n]), x);
    }
  }

  /** In an ascending list the values up to `x` come first. */
  lemma {:induction false} CountsOfAscending(s: seq<int>, i: nat, x: int)
    requires IsSorted(s) && i < |s|
    ensures CountAtMost(s, x) >= i + 1 <==> s[i] <= x
    ensures CountAtLeast(s, x) >= |s| - i <==> x <= s[i]
  {
    var n := |s| - 1;
    var t := s[..n];
    CountsBounded(t, x);
    if i < n {
      CountsOfAscending(t, i, x);
    } else if n > 0 {
      CountsOfAscending(t, n - 1, x);
    }
    if n > 0 && s[n] < x { AllBelow(t, x); }
    if n > 0 && s[0] >= x { AllAbove(t, x); }
    if i < n && s[n] < x {
      AllBelow(t, x);
    }
  }

  lemma {:induction false} CountsBounded(s: seq<int>, x: int)
    ensures CountAtMost(s, x) <= |s| && CountAtLeast(s, x) <= |s|
  {
    if s != [] { CountsBounded(s[..|s| - 1], x); }
  }

  lemma {:induction false} AllBelow(s: seq<int>, x: int)
    requires forall i :: 0 <= i < |s| ==> s[i] < x
    ensures CountAtLeast(s, x) == 0
  {
    if s != [] { AllBelow(s[..|s| - 1], x); }
  }

  lemma {:induction false} AllAbove(s: seq<int>, x: int)
    requires forall i :: 0 <= i < |s| ==> s[i] >= x
    ensures CountAtLeast(s, x) == |s|
  {
    if s != [] { AllAbove(s[..|s| - 1], x); }
  }

  /** The value picked at rank `i` is the one with at least `i + 1` values not above it and at least
      `n - i` not below it, in whatever order the values arrived. */
  lemma OrderStatistic(xs: seq<int>, i: nat, x: int)
    requires i < |xs|
    ensures x == Ascending(multiset(xs))[i] <==> CountAtMost(xs, x) >= i + 1 && CountAtLeast(xs, x) >= |xs| - i
  {
    SortedIsUnique(Sorted(xs), Ascending(multiset(xs)));
    CountsOfSorted(xs, x);
    CountsOfAscending(Sorted(xs), i, x);
  }

  lemma {:induction false} MaxFoldIs(b: multiset<int>)
    ensures forall x :: x in b ==> x <= FoldBag(TakeMax, b)
    ensures FoldBag(TakeMax, b) == 0 || FoldBag(TakeMax, b) in b
    decreases |b|
  {
    if b != multiset{} {
      Inhabited(b);
      var x :| x in b;
      FoldRemove(TakeMax, b, x);
      MaxFoldIs(b - multiset{x});
      assert forall y :: y in b ==> y == x || y in b - multiset{x};
    }
  }

  lemma LastIsLargest(s: seq<int>)
    requires s != [] && IsSorted(s)
    ensures s[|s| - 1] in multiset(s) && forall x :: x in multiset(s) ==> x <= s[|s| - 1]
  {
    forall x | x in multiset(s) ensures x <= s[|s| - 1] {
      var j :| 0 <= j < |s| && s[j] == x;
    }
  }

  /** The unsorted maximum starts from zero, so the two agree exactly on groups with a value that is
      not negative. */
  lemma MaximaAgree(b: multiset<int>, s: seq<int>)
    requires s != [] && IsSorted(s) && multiset(s) == b
    ensures s[|s| - 1] == FoldBag(TakeMax, b) <==> exists x :: x in b && x >= 0
  {
    var m, m0 := s[|s| - 1], FoldBag(TakeMax, b);
    LastIsLargest(s);
    MaxFoldIs(b);
    MaxNotNegative(b);
    assert m <= m0;
  }

  /** The median of `n` values has more than (n - 1) / 2 of them not above it, and at most (n - 1) / 2 below it. */
  lemma MedianMeans(xs: seq<int>, sorted: bool, x: int)
    requires xs != []
    ensures IsResult(Median, multiset(xs), sorted, [x]) <==>
            2 * CountAtMost(xs, x) > |xs| - 1 && 2 * (|xs| - CountAtLeast(xs, x)) <= |xs| - 1
  {
    BagSize(xs);
    OrderStatistic(xs, MedianIndex(|xs|), x);
    SingletonIs(x, Ascending(multiset(xs))[MedianIndex(|xs|)]);
  }

  /** The 95th percentile of `n` values has more than 95% of n - 1 of them not above it, and at most 95% of n - 1
      below it. */
  lemma P95Means(xs: seq<int>, sorted: bool, x: int)
    requires xs != []
    ensures IsResult(P95, multiset(xs), sorted, [x]) <==>
            100 * CountAtMost(xs, x) > 95 * (|xs| - 1) && 100 * (|xs| - CountAtLeast(xs, x)) <= 95 * (|xs| - 1)
  {
    BagSize(xs);
    OrderStatistic(xs, P95Index(|xs|), x);
    SingletonIs(x, Ascending(multiset(xs))[P95Index(|xs|)]);
  }

  lemma BagSize(xs: seq<int>)
    ensures |multiset(xs)| == |xs|
  {
  }

  lemma SingletonIs(x: int, y: int)
    ensures [x] == [y] <==> x == y
  {
    if [x] == [y] { assert [x][0] == [y][0]; }
  }

  /** The average is a multiple of a thousand nano units, and no further than half of that from the mean. */
  lemma AverageMeans(xs: seq<int>, sorted: bool, a: int)
    requires xs != [] && IsResult(Avg, multiset(xs), sorted, [a])
    ensures a % 1000 == 0
    ensures -1000 * |xs| <= 2 * (a * |xs| - Total(xs)) <= 1000 * |xs|
  {
    BagSize(xs);
    AddUpIsTotal(xs);
    AverageClose(a, Total(xs), |xs|);
  }

  lemma AverageClose(a: int, total: int, n: nat)
    requires IsAverage(a, total, n)
    ensures a % 1000 == 0 && -1000 * n <= 2 * (a * n - total) <= 1000 * n
  {
    var q :| a == q * AVERAGE_STEP && Nearest(q, total, n * AVERAGE_STEP);
    Reorder(q, n);
  }

  lemma Reorder(q: int, n: int)
    ensures q * 1000 * n == q * (n * 1000)
  {
  }

  /** Median, 95th percentile and maximum of the same values are ordered, whichever way the maximum was found. */
  lemma MedianP95MaxOrdered(b: multiset<int>, sorted: bool, median: int, p95: int, max: int)
    requires b != multiset{}
    requires IsResult(Median, b, true, [median]) && IsResult(P95, b, true, [p95]) && IsResult(Max, b, sorted, [max])
    ensures median <= p95 <= max
  {
    assert MedianIndex(|b|) <= P95Index(|b|) <= |b| - 1;
    LastIsLargest(Ascending(b));
    MaxFoldIs(b);
  }

  lemma AverageIsUnique(a: int, a': int, total: int, n: nat)
    requires n > 0 && IsAverage(a, total, n) && IsAverage(a', total, n)
    ensures a == a'
  {
    var q :| a == q * AVERAGE_STEP && Nearest(q, total, n * AVERAGE_STEP);
    var q' :| a' == q' * AVERAGE_STEP && Nearest(q', total, n * AVERAGE_STEP);
    NearestIsUnique(q, q', total, n * AVERAGE_STEP);
  }

  /** Whether or not another operation had the values sorted, each operation but `max` gives the same
      result, histograms up to order. */
  lemma SharingTheSort(op: Op, b: multiset<int>, s: bool, out: seq<int>, s': bool, out': seq<int>)
    requires b != multiset{} && !op.Max? && IsResult(op, b, s, out) && IsResult(op, b, s', out')
    ensures multiset(out) == multiset(out')
    ensures !op.Hist? ==> out == out'
  {
    if op.Avg? {
      AverageIsUnique(out[0], out'[0], FoldBag(AddUp, b), |b|);
      assert out == out';
    }
  }

  /** For `max`, sharing a sort is invisible exactly on groups that are not all negative. */
  lemma SharingTheSortMax(b: multiset<int>, out: seq<int>, out': seq<int>)
    requires b != multiset{} && IsResult(Max, b, true, out) && IsResult(Max, b, false, out')
    ensures out == out' <==> exists x :: x in b && x >= 0
  {
    MaximaAgree(b, Ascending(b));
    if out[0] == out'[0] {
      assert out == out';
    }
  }

  /** They differ on a group of one negative value. */
  lemma {:induction false} NegativeGroupMax()
    ensures IsResult(Max, multiset{-1}, true, [-1]) && IsResult(Max, multiset{-1}, false, [0])
  {
    SortedIsUnique([-1], Ascending(multiset{-1}));
    FoldInsert(TakeMax, multiset{}, -1);
    assert multiset{} + multiset{-1} == multiset{-1};
  }
}
