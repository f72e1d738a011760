/**
 The quicksort of deque.c. Its upward scan has no bound of its own: it relies on the slot just above
 the range holding an element that is at least as large as the pivot.
 */
module QuickSort {
  // ----- Comparison functions -----

  /** What Q_Sort asks of Comp: the sign of a total preorder. */
  ghost predicate TotalPreorder<T(!new)>(comp: (T, T) -> int) {
    && (forall x, y :: comp(x, y) < 0 <==> comp(y, x) > 0)
    && (forall x, y, z :: comp(x, y) <= 0 && comp(y, z) <= 0 ==> comp(x, z) <= 0)
  }

  ghost predicate Sorted<T>(s: seq<T>, comp: (T, T) -> int) {
    forall i, j :: 0 <= i < j < |s| ==> comp(s[i], s[j]) <= 0
  }

  // ----- Permutations of a range -----

  /** b is a with the positions from lo to hi - 1 rearranged. */
  ghost predicate Shuffled<T>(a: seq<T>, b: seq<T>, lo: int, hi: int) {
    && 0 <= lo <= hi <= |a| == |b|
    && a[..lo] == b[..lo] && a[hi..] == b[hi..]
    && multiset(a[lo..hi]) == multiset(b[lo..hi])
  }

  lemma Slices<T>(s: seq<T>, lo': int, lo: int, hi: int, hi': int)
    requires 0 <= lo' <= lo <= hi <= hi' <= |s|
    ensures s[lo'..hi'] == s[lo'..lo] + s[lo..hi] + s[hi..hi']
  {
  }

  lemma ShuffledWider<T>(a: seq<T>, b: seq<T>, lo: int, hi: int, lo': int, hi': int)
    requires Shuffled(a, b, lo, hi) && 0 <= lo' <= lo && hi <= hi' <= |a|
    ensures Shuffled(a, b, lo', hi')
  {
    assert a[lo'..lo] == a[..lo][lo'..] && b[lo'..lo] == b[..lo][lo'..];
    assert a[hi..hi'] == a[hi..][..hi' - hi] && b[hi..hi'] == b[hi..][..hi' - hi];
    assert a[..lo'] == a[..lo][..lo'] && b[..lo'] == b[..lo][..lo'];
    assert a[hi'..] == a[hi..][hi' - hi..] && b[hi'..] == b[hi..][hi' - hi..];
    Slices(a, lo', lo, hi, hi');
    Slices(b, lo', lo, hi, hi');
  }

  lemma ShuffledTrans<T>(a: seq<T>, b: seq<T>, c: seq<T>, lo: int, hi: int)
    requires Shuffled(a, b, lo, hi) && Shuffled(b, c, lo, hi)
    ensures Shuffled(a, c, lo, hi)
  {
  }

  lemma SwapShuffles<T>(a: seq<T>, i: int, j: int, lo: int, hi: int)
    requires 0 <= lo <= i <= j < hi <= |a|
    ensures Shuffled(a, Swapped(a, i, j), lo, hi)
  {
    var b := Swapped(a, i, j);
    if i < j {
      SwapEnds(a, b, i, j);
    } else {
      assert b == a;
    }
    ShuffledWider(a, b, i, j + 1, lo, hi);
  }

  lemma SwapEnds<T>(a: seq<T>, b: seq<T>, i: int, j: int)
    requires 0 <= i < j < |a| && b == Swapped(a, i, j)
    ensures Shuffled(a, b, i, j + 1)
  {
    var middle := a[i + 1..j];
    assert a[i..j + 1] == [a[i]] + middle + [a[j]];
    assert b[i..j + 1] == [a[j]] + middle + [a[i]];
    EndsSwapped(a[i], middle, a[j]);
    assert a[..i] == b[..i];
    assert a[j + 1..] == b[j + 1..];
  }

  lemma EndsSwapped<T>(x: T, middle: seq<T>, y: T)
    ensures multiset([x] + middle + [y]) == multiset([y] + middle + [x])
  {
  }

  /** What holds of every element of the range still holds after rearranging it. */
  lemma ShuffledKeeps<T>(a: seq<T>, b: seq<T>, lo: int, hi: int, p: T -> bool)
    requires Shuffled(a, b, lo, hi)
    requires forall k :: lo <= k < hi ==> p(a[k])
    ensures forall k :: lo <= k < hi ==> p(b[k])
  {
    forall k | lo <= k < hi ensures p(b[k]) {
      assert b[lo..hi][k - lo] in multiset(b[lo..hi]);
      assert b[k] in a[lo..hi];
    }
  }

  // ----- One partition -----

  /** Everything up to i is not above the key, and everything from j on is not below it. */
  ghost predicate Split<T>(s: seq<T>, comp: (T, T) -> int, key: T, low: int, high: int, i: int, j: int) {
    && (forall k :: low <= k <= i && 0 <= k < |s| ==> comp(s[k], key) <= 0)
    && (forall k :: j <= k <= high && 0 <= k < |s| ==> comp(s[k], key) >= 0)
  }

  /** The element above the range is what stops the first upward scan. */
  ghost predicate Guarded<T>(s: seq<T>, comp: (T, T) -> int, low: int, high: int) {
    0 <= low && high + 1 < |s| && forall k :: low <= k <= high ==> comp(s[k], s[high + 1]) <= 0
  }

  /** The last element of the range is not below any other. */
  ghost predicate LastIsTop<T>(s: seq<T>, comp: (T, T) -> int, low: int, high: int) {
    0 <= low <= high < |s| && forall k :: low <= k <= high ==> comp(s[k], s[high]) <= 0
  }

  /** The element at p is not below any other of the range. */
  ghost predicate TopAt<T>(s: seq<T>, comp: (T, T) -> int, low: int, high: int, p: int) {
    0 <= low <= p <= high < |s| && forall k :: low <= k <= high ==> comp(s[k], s[p]) <= 0
  }

  /** The largest element of the range occurs twice. */
  ghost predicate Tied<T>(s: seq<T>, comp: (T, T) -> int, low: int, high: int) {
    exists p, q :: p < q && TopAt(s, comp, low, high, p) && TopAt(s, comp, low, high, q)
  }

  /** The largest element of the range comes last or occurs twice. */
  ghost predicate Topped<T>(s: seq<T>, comp: (T, T) -> int, low: int, high: int) {
    LastIsTop(s, comp, low, high) || Tied(s, comp, low, high)
  }

  /** What keeps the upward scans inside the array. */
  ghost predicate Bounded<T>(s: seq<T>, comp: (T, T) -> int, low: int, high: int) {
    Guarded(s, comp, low, high) || Topped(s, comp, low, high)
  }

  /** The pivot is strictly above every other element of the range. */
  ghost predicate PivotIsTop<T>(s: seq<T>, comp: (T, T) -> int, low: int, high: int)
    requires 0 <= low <= high < |s|
  {
    forall k :: low < k <= high ==> comp(s[k], s[low]) < 0
  }

  /** Where the upward scan stops: at the first element from i on that is not below the key, or nowhere. */
  function UpFrom<T>(s: seq<T>, comp: (T, T) -> int, key: T, i: nat): (k: nat)
    requires i <= |s|
    ensures i <= k <= |s| && (k < |s| ==> comp(s[k], key) >= 0)
    ensures forall m :: i <= m < k ==> comp(s[m], key) < 0
    decreases |s| - i
  {
    if i == |s| || comp(s[i], key) >= 0 then i else UpFrom(s, comp, key, i + 1)
  }

  /** Where the downward scan stops: at the last element up to j that is not above the key, which the pivot is not. */
  function DownTo<T>(s: seq<T>, comp: (T, T) -> int, key: T, j: int, low: nat): (k: nat)
    requires low <= j < |s|
    ensures low <= k <= j && (k > low ==> comp(s[k], key) <= 0)
    ensures forall m :: k < m <= j ==> comp(s[m], key) > 0
    decreases j
  {
    if j == low || comp(s[j], key) <= 0 then j else DownTo(s, comp, key, j - 1, low)
  }

  function Swapped<T>(s: seq<T>, i: nat, j: nat): (t: seq<T>)
    requires i < |s| && j < |s|
    ensures |t| == |s|
  {
    s[i := s[j]][j := s[i]]
  }

  /** What the loop of QuickSort makes of the array when it stands at i and j, and where the pivot ends up. */
  function Moved<T>(s: seq<T>, comp: (T, T) -> int, low: nat, i: nat, j: nat): (r: (seq<T>, nat))
    requires low <= i < j <= |s|
    ensures |r.0| == |s| && low <= r.1 < j
    decreases j - i
  {
    var i' := UpFrom(s, comp, s[low], i + 1);
    var j' := DownTo(s, comp, s[low], j - 1, low);
    if i' < j' then Moved(Swapped(s, i', j'), comp, low, i', j') else (Swapped(s, low, j'), j')
  }

  /** The upward scan from the pivot at this position stops inside the array. */
  predicate Stops<T>(s: seq<T>, comp: (T, T) -> int, low: nat)
    requires low < |s|
  {
    UpFrom(s, comp, s[low], low + 1) < |s|
  }

  /**
   No scan of QuickSort leaves the array: the pivot of the range and those of the right parts are stopped.
   In every left part the pivot that was placed above it stops the scan.
   */
  predicate InBounds<T>(s: seq<T>, comp: (T, T) -> int, low: int, high: int)
    requires 0 <= low <= high + 1 <= |s|
    decreases high - low
  {
    low >= high ||
    (Stops(s, comp, low) && var (t, p) := Moved(s, comp, low, low, high + 1); InBounds(t, comp, p + 1, high))
  }

  /** Some scan looks at the slot above the range. */
  ghost predicate Looks<T>(s: seq<T>, comp: (T, T) -> int, low: int, high: int)
    requires 0 <= low <= high + 1 <= |s|
    decreases high - low
  {
    low < high &&
    (PivotIsTop(s, comp, low, high) ||
     var (t, p) := Moved(s, comp, low, low, high + 1); Looks(t, comp, p + 1, high))
  }

  lemma {:induction false} UpIs<T>(s: seq<T>, comp: (T, T) -> int, key: T, i: nat, k: nat)
    requires i <= k < |s| && comp(s[k], key) >= 0 && forall m :: i <= m < k ==> comp(s[m], key) < 0
    ensures UpFrom(s, comp, key, i) == k
    decreases k - i
  {
    if i < k {
      UpIs(s, comp, key, i + 1, k);
    }
  }

  lemma {:induction false} DownIs<T>(s: seq<T>, comp: (T, T) -> int, key: T, j: int, low: nat, k: nat)
    requires low <= k <= j < |s| && comp(s[k], key) <= 0 && forall m :: k < m <= j ==> comp(s[m], key) > 0
    ensures DownTo(s, comp, key, j, low) == k
    decreases j
  {
    if k < j {
      DownIs(s, comp, key, j - 1, low, k);
    }
  }

  method ScanUp<T>(list: array<T>, from: int, ghost stop: int, key: T, comp: (T, T) -> int) returns (i: int)
    requires 0 <= from <= stop < list.Length && comp(list[stop], key) >= 0
    ensures i == UpFrom(list[..], comp, key, from) <= stop
  {
    i := from;
    while comp(list[i], key) < 0
      invariant from <= i <= stop
      invariant forall k :: from <= k < i ==> comp(list[k], key) < 0
      decreases stop - i
    {
      i := i + 1;
    }
    UpIs(list[..], comp, key, from, i);
  }

  method ScanDown<T>(list: array<T>, from: int, ghost stop: int, key: T, comp: (T, T) -> int, ghost low: nat)
    returns (j: int)
    requires low <= stop <= from < list.Length && comp(list[stop], key) <= 0
    ensures j == DownTo(list[..], comp, key, from, low) && stop <= j && comp(list[j], key) <= 0
  {
    j := from;
    while comp(list[j], key) > 0
      invariant stop <= j <= from
      invariant forall k :: j < k <= from ==> comp(list[k], key) > 0
      decreases j
    {
      j := j - 1;
    }
    DownIs(list[..], comp, key, from, low, j);
  }

  /** The loop ends with the pivot in its place: nothing above it to the left, nothing below it to the right. */
  ghost predicate Partitioned<T>(s: seq<T>, t: seq<T>, comp: (T, T) -> int, low: int, high: int, p: int)
    requires 0 <= low < |s|
  {
    && Shuffled(s, t, low, high + 1)
    && low <= p <= high < |t| && t[p] == s[low]
    && Split(t, comp, t[p], low, high, p, p)
    && (Topped(s, comp, low, high) ==> Topped(t, comp, low, high))
  }

  lemma MovedStep<T>(s: seq<T>, comp: (T, T) -> int, low: nat, i: nat, j: nat)
    requires low <= i < j <= |s|
    ensures
      var i' := UpFrom(s, comp, s[low], i + 1);
      var j' := DownTo(s, comp, s[low], j - 1, low);
      Moved(s, comp, low, i, j) ==
        if i' < j' then Moved(Swapped(s, i', j'), comp, low, i', j') else (Swapped(s, low, j'), j')
  {
    hide UpFrom, DownTo, Swapped;
  }

  /** What the loop knows of the elements it has passed. */
  ghost predicate Passed<T>(s: seq<T>, comp: (T, T) -> int, low: int, high: int, i: int, j: int)
    requires 0 <= low <= i && high < |s| && low < |s|
  {
    && (forall k :: low <= k <= i && k < |s| ==> comp(s[k], s[low]) <= 0)
    && (forall k :: j <= k <= high && 0 <= k ==> comp(s[k], s[low]) >= 0)
  }

  lemma SwapPasses<T(!new)>(s: seq<T>, comp: (T, T) -> int, low: int, high: int, i: int, j: int)
    requires 0 <= low < i < j <= high < |s|
    requires Passed(s, comp, low, high, i - 1, j + 1) && comp(s[i], s[low]) >= 0 && comp(s[j], s[low]) <= 0
    ensures Passed(Swapped(s, i, j), comp, low, high, i, j) && Swapped(s, i, j)[low] == s[low]
  {
  }

  lemma PivotPlaced<T(!new)>(s: seq<T>, comp: (T, T) -> int, low: int, high: int, j: int)
    requires TotalPreorder(comp) && 0 <= low <= j <= high < |s|
    requires Passed(s, comp, low, high, j, j + 1)
    ensures Partitioned(s, Swapped(s, low, j), comp, low, high, j)
  {
    hide TotalPreorder, Shuffled, Topped;
    Signs(comp, s[low], s[low]);
    SwapShuffles(s, low, j, low, high + 1);
    SwapKeepsTop(s, comp, s[low], low, j, low, high);
  }

  lemma {:induction false} MovedPartitions<T(!new)>(
    s: seq<T>, comp: (T, T) -> int, low: nat, high: nat, i: nat, j: nat)
    requires TotalPreorder(comp) && low <= i < j <= high + 1 <= |s| && low < high
    requires Passed(s, comp, low, high, i, j)
    ensures var (t, p) := Moved(s, comp, low, i, j); Partitioned(s, t, comp, low, high, p)
    decreases j - i
  {
    hide TotalPreorder, Partitioned, Swapped, Moved, UpFrom, DownTo;
    var key := s[low];
    var i', j' := UpFrom(s, comp, key, i + 1), DownTo(s, comp, key, j - 1, low);
    Signs(comp, key, key);
    MovedStep(s, comp, low, i, j);
    if i' < j' {
      var w := Swapped(s, i', j');
      SwapPasses(s, comp, low, high, i', j');
      MovedPartitions(w, comp, low, high, i', j');
      var (t, p) := Moved(w, comp, low, i', j');
      PartitionedAfter(s, comp, t, low, high, i', j', p);
    } else {
      PivotPlaced(s, comp, low, high, j');
    }
  }

  /** Exchanging two elements on the wrong sides first makes no difference to what a partition is. */
  lemma PartitionedAfter<T(!new)>(
    s: seq<T>, comp: (T, T) -> int, t: seq<T>, low: int, high: int, i: int, j: int, p: int)
    requires TotalPreorder(comp) && 0 <= low < i < j <= high < |s|
    requires comp(s[i], s[low]) >= 0 && comp(s[j], s[low]) <= 0
    requires Partitioned(Swapped(s, i, j), t, comp, low, high, p)
    ensures Partitioned(s, t, comp, low, high, p)
  {
    hide TotalPreorder, Shuffled, Topped, Split, Swapped;
    SwapsFar(s, low, i, j);
    SwapShuffles(s, i, j, low, high + 1);
    SwapKeepsTop(s, comp, s[low], i, j, low, high);
    ShuffledTrans(s, Swapped(s, i, j), t, low, high + 1);
  }

  /** The two scans of one pass: the first is stopped as required, any other by the last exchange. */
  method Scans<T(!new)>(list: array<T>, low: int, high: int, i0: int, j0: int, comp: (T, T) -> int)
    returns (i: int, j: int)
    requires 0 <= low <= i0 < j0 <= high + 1 <= list.Length && low < high && TotalPreorder(comp)
    requires comp(list[i0], list[low]) <= 0
    requires i0 == low || (j0 <= high && comp(list[j0], list[low]) >= 0)
    requires i0 == low ==> Stops(list[..], comp, low)
    ensures i == UpFrom(list[..], comp, list[low], i0 + 1) < list.Length
    ensures j == DownTo(list[..], comp, list[low], j0 - 1, low)
    ensures comp(list[i], list[low]) >= 0 && comp(list[j], list[low]) <= 0
  {
    hide TotalPreorder, UpFrom, DownTo;
    var key := list[low];
    i := ScanUp(list, i0 + 1, if i0 == low then UpFrom(list[..], comp, key, low + 1) else j0, key, comp);
    j := ScanDown(list, j0 - 1, i0, key, comp, low);
  }

  /**
   The loop of QuickSort, as Moved says, if its first upward scan stops inside the array. It looks at the
   slot above the range exactly when the pivot is strictly above everything else in the range.
   */
  method Partition<T(!new)>(list: array<T>, low: int, high: int, comp: (T, T) -> int)
    returns (j: int, ghost looked: bool)
    requires 0 <= low < high < list.Length && TotalPreorder(comp) && Stops(list[..], comp, low)
    modifies list
    ensures (list[..], j) == Moved(old(list[..]), comp, low, low, high + 1)
    ensures Partitioned(old(list[..]), list[..], comp, low, high, j)
    ensures looked <==> PivotIsTop(old(list[..]), comp, low, high)
  {
    hide *;
    var i := low;
    j := high + 1;
    ghost var start := list[..];
    looked := false;
    FirstScan(start, comp, low, high);
    Signs(comp, list[low], list[low]);
    WholePartitions(start, comp, low, high);
    var flag := true;
    while flag
      invariant low <= i && low <= j <= high + 1
      invariant flag ==> i < j && Moved(start, comp, low, low, high + 1) == Moved(list[..], comp, low, i, j)
      invariant flag ==> comp(list[i], list[low]) <= 0
      invariant flag && i > low ==> j <= high && comp(list[j], list[low]) >= 0
      invariant !flag ==> j <= high && Moved(start, comp, low, low, high + 1) == (Swapped(list[..], low, j), j)
      invariant flag && i == low ==> list[..] == start
      invariant !flag || i > low ==> (looked <==> PivotIsTop(start, comp, low, high))
      decreases flag, j - i
    {
      ghost var first := i == low;
      MovedStep(list[..], comp, low, i, j);
      i, j := Scans(list, low, high, i, j, comp);
      if first {
        looked := i > high;
      }
      if i < j {
        SwapsFar(list[..], low, i, j);
        Swap(list, i, j);
      } else {
        flag := false;
      }
    }
    Swap(list, low, j);
  }

  /** A slot above the range, or a largest element that is not the pivot, stops the first upward scan. */
  lemma BoundedStops<T(!new)>(s: seq<T>, comp: (T, T) -> int, low: int, high: int)
    requires 0 <= low < high < |s| && TotalPreorder(comp) && Bounded(s, comp, low, high)
    ensures Stops(s, comp, low)
  {
    hide TotalPreorder, Topped;
    var stop := high + 1;
    if Topped(s, comp, low, high) {
      stop := OtherTop(s, comp, low, high);
    }
    Signs(comp, s[low], s[stop]);
  }

  /** Exchanging an element that is not below the key with one that is not above it keeps the top last. */
  lemma SwapKeepsLast<T(!new)>(s: seq<T>, comp: (T, T) -> int, key: T, i: int, j: int, low: int, high: int)
    requires TotalPreorder(comp) && 0 <= low <= i <= j <= high < |s|
    requires comp(s[i], key) >= 0 && comp(s[j], key) <= 0
    requires LastIsTop(s, comp, low, high)
    ensures LastIsTop(Swapped(s, i, j), comp, low, high)
  {
    hide TotalPreorder;
    var t := Swapped(s, i, j);
    forall k | low <= k <= high ensures comp(t[k], t[high]) <= 0 {
      var x := t[k];
      assert comp(x, s[high]) <= 0 by {
        assert x == s[if k == i then j else if k == j then i else k];
      }
      if j == high {
        Signs(comp, key, s[i]);
        Transitive(comp, s[high], key, s[i]);
        Transitive(comp, x, s[high], s[i]);
      }
    }
  }

  /** Any exchange keeps two tops. */
  lemma SwapKeepsTied<T>(s: seq<T>, comp: (T, T) -> int, i: int, j: int, low: int, high: int)
    requires 0 <= low <= i <= j <= high < |s| && Tied(s, comp, low, high)
    ensures Tied(Swapped(s, i, j), comp, low, high)
  {
    var p, q :| p < q && TopAt(s, comp, low, high, p) && TopAt(s, comp, low, high, q);
    var p' := TopMoves(s, comp, i, j, low, high, p);
    var q' := TopMoves(s, comp, i, j, low, high, q);
    var (first, second) := if p' < q' then (p', q') else (q', p');
    assert first < second;
  }

  lemma TopMoves<T>(s: seq<T>, comp: (T, T) -> int, i: int, j: int, low: int, high: int, p: int) returns (p': int)
    requires 0 <= low <= i <= j <= high < |s| && TopAt(s, comp, low, high, p)
    ensures p' == if p == i then j else if p == j then i else p
    ensures TopAt(Swapped(s, i, j), comp, low, high, p')
  {
    p' := if p == i then j else if p == j then i else p;
    var t := Swapped(s, i, j);
    assert forall k :: low <= k <= high ==> t[k] == s[if k == i then j else if k == j then i else k];
  }

  lemma SwapKeepsTop<T(!new)>(s: seq<T>, comp: (T, T) -> int, key: T, i: int, j: int, low: int, high: int)
    requires TotalPreorder(comp) && 0 <= low <= i <= j <= high < |s|
    requires comp(s[i], key) >= 0 && comp(s[j], key) <= 0
    ensures Topped(s, comp, low, high) ==> Topped(Swapped(s, i, j), comp, low, high)
  {
    hide TotalPreorder, LastIsTop, Tied, Swapped;
    if LastIsTop(s, comp, low, high) {
      SwapKeepsLast(s, comp, key, i, j, low, high);
    } else if Tied(s, comp, low, high) {
      SwapKeepsTied(s, comp, i, j, low, high);
    }
  }

  /** A largest element that is not the pivot, if there is one. */
  lemma OtherTop<T(!new)>(s: seq<T>, comp: (T, T) -> int, low: int, high: int) returns (q: int)
    requires 0 <= low < high < |s| && Topped(s, comp, low, high)
    ensures low < q <= high && comp(s[low], s[q]) <= 0
  {
    if LastIsTop(s, comp, low, high) {
      q := high;
    } else {
      var p, second :| p < second && TopAt(s, comp, low, high, p) && TopAt(s, comp, low, high, second);
      q := second;
    }
  }

  lemma PivotUnderTop<T(!new)>(s: seq<T>, comp: (T, T) -> int, low: int, high: int)
    requires 0 <= low < high < |s| && TotalPreorder(comp)
    ensures Topped(s, comp, low, high) ==> !PivotIsTop(s, comp, low, high)
  {
    hide TotalPreorder, Topped;
    if Topped(s, comp, low, high) {
      var q := OtherTop(s, comp, low, high);
      Signs(comp, s[low], s[q]);
    }
  }

  lemma SwapsFar<T>(s: seq<T>, low: nat, i: nat, j: nat)
    requires low < i < j < |s|
    ensures var t := Swapped(s, i, j); t[low] == s[low] && t[i] == s[j] && t[j] == s[i]
  {
  }

  method Swap<T>(list: array<T>, i: int, j: int)
    requires 0 <= i < list.Length && 0 <= j < list.Length
    modifies list
    ensures list[..] == Swapped(old(list[..]), i, j)
  {
    var temp := list[i];
    list[i] := list[j];
    list[j] := temp;
  }

  lemma Signs<T(!new)>(comp: (T, T) -> int, x: T, y: T)
    requires TotalPreorder(comp)
    ensures comp(x, x) == 0
    ensures comp(x, y) <= 0 <==> comp(y, x) >= 0
  {
  }

  lemma Transitive<T(!new)>(comp: (T, T) -> int, x: T, y: T, z: T)
    requires TotalPreorder(comp) && comp(x, y) <= 0 && comp(y, z) <= 0
    ensures comp(x, z) <= 0
  {
  }

  /** Where the first upward scan stops says whether it looked above the range. */
  lemma FirstScan<T>(s: seq<T>, comp: (T, T) -> int, low: int, high: int)
    requires 0 <= low < high < |s|
    ensures UpFrom(s, comp, s[low], low + 1) > high <==> PivotIsTop(s, comp, low, high)
  {
  }

  // ----- What is left of the pivot does not matter for the right part -----

  ghost predicate SameFrom<T>(a: seq<T>, b: seq<T>, from: nat) {
    |a| == |b| && forall k :: from <= k < |a| ==> a[k] == b[k]
  }

  lemma {:induction false} SameUp<T>(a: seq<T>, b: seq<T>, comp: (T, T) -> int, key: T, i: nat)
    requires i <= |a| && SameFrom(a, b, i)
    ensures UpFrom(a, comp, key, i) == UpFrom(b, comp, key, i)
    decreases |a| - i
  {
    if i < |a| {
      SameUp(a, b, comp, key, i + 1);
    }
  }

  lemma {:induction false} SameDown<T>(a: seq<T>, b: seq<T>, comp: (T, T) -> int, key: T, j: int, low: nat)
    requires low <= j < |a| && SameFrom(a, b, low)
    ensures DownTo(a, comp, key, j, low) == DownTo(b, comp, key, j, low)
    decreases j
  {
    if low < j {
      SameDown(a, b, comp, key, j - 1, low);
    }
  }

  lemma {:induction false} SameMoved<T>(a: seq<T>, b: seq<T>, comp: (T, T) -> int, low: nat, i: nat, j: nat)
    requires low <= i < j <= |a| && SameFrom(a, b, low)
    ensures
      var (ra, rb) := (Moved(a, comp, low, i, j), Moved(b, comp, low, i, j));
      ra.1 == rb.1 && SameFrom(ra.0, rb.0, low)
    decreases j - i
  {
    hide UpFrom, DownTo, Moved, Swapped;
    MovedStep(a, comp, low, i, j);
    MovedStep(b, comp, low, i, j);
    SameUp(a, b, comp, a[low], i + 1);
    SameDown(a, b, comp, a[low], j - 1, low);
    var i', j' := UpFrom(a, comp, a[low], i + 1), DownTo(a, comp, a[low], j - 1, low);
    if i' < j' {
      SameSwapped(a, b, low, i', j');
      SameMoved(Swapped(a, i', j'), Swapped(b, i', j'), comp, low, i', j');
    } else {
      SameSwapped(a, b, low, low, j');
    }
  }

  lemma SameSwapped<T>(a: seq<T>, b: seq<T>, from: nat, i: nat, j: nat)
    requires SameFrom(a, b, from) && from <= i < |a| && from <= j < |a|
    ensures SameFrom(Swapped(a, i, j), Swapped(b, i, j), from)
  {
  }

  lemma {:induction false} SameBounds<T>(a: seq<T>, b: seq<T>, comp: (T, T) -> int, low: int, high: int)
    requires 0 <= low <= high + 1 <= |a| && SameFrom(a, b, low)
    ensures InBounds(a, comp, low, high) == InBounds(b, comp, low, high)
    ensures Looks(a, comp, low, high) == Looks(b, comp, low, high)
    decreases high - low
  {
    hide UpFrom, Moved;
    if low < high {
      SameUp(a, b, comp, a[low], low + 1);
      SameMoved(a, b, comp, low, low, high + 1);
      var (ta, p) := Moved(a, comp, low, low, high + 1);
      SameBounds(ta, Moved(b, comp, low, low, high + 1).0, comp, p + 1, high);
    }
  }

  /**
   A slot above the range that is not below any element, or a largest element that comes last or occurs
   twice, keeps every scan inside the array; with such an element, no scan looks at the slot.
   */
  lemma {:induction false} BoundedIsInBounds<T(!new)>(s: seq<T>, comp: (T, T) -> int, low: int, high: int)
    requires 0 <= low <= high + 1 <= |s| && TotalPreorder(comp) && (low < high ==> Bounded(s, comp, low, high))
    ensures InBounds(s, comp, low, high)
    ensures low >= high || Topped(s, comp, low, high) ==> !Looks(s, comp, low, high)
    decreases high - low
  {
    hide TotalPreorder, Bounded, Topped, Moved, Stops, Partitioned, PivotIsTop;
    if low < high {
      var (t, p) := Moved(s, comp, low, low, high + 1);
      BoundedStops(s, comp, low, high);
      PivotUnderTop(s, comp, low, high);
      WholePartitions(s, comp, low, high);
      RightIsBounded(s, t, comp, low, high, p);
      BoundedIsInBounds(t, comp, p + 1, high);
    }
  }

  lemma WholePartitions<T(!new)>(s: seq<T>, comp: (T, T) -> int, low: int, high: int)
    requires TotalPreorder(comp) && 0 <= low < high < |s|
    ensures var (t, p) := Moved(s, comp, low, low, high + 1); Partitioned(s, t, comp, low, high, p)
  {
    hide TotalPreorder, Partitioned;
    Signs(comp, s[low], s[low]);
    MovedPartitions(s, comp, low, high, low, high + 1);
  }

  /**
   QuickSort. The range ends up sorted whenever no scan leaves the array, which InBounds says of the array
   as it is given; `looked` says whether any scan looks at the slot above the range.
   */
  method Sort<T(!new)>(list: array<T>, low: int, high: int, comp: (T, T) -> int) returns (ghost looked: bool)
    requires 0 <= low <= high + 1 <= list.Length
    requires TotalPreorder(comp) && InBounds(list[..], comp, low, high)
    modifies list
    ensures Shuffled(old(list[..]), list[..], low, high + 1)
    ensures Sorted(list[low..high + 1], comp)
    ensures looked == Looks(old(list[..]), comp, low, high)
    decreases high - low
  {
    hide *;
    looked := false;
    if low >= high {
      ShortIsSorted(list[..], comp, low, high);
    } else {
      ghost var inPartition, inRight;
      var j;
      ghost var a := list[..];
      OnePartition(a, comp, low, high);
      j, inPartition := Partition(list, low, high, comp);
      ghost var b := list[..];
      assert b == Moved(a, comp, low, low, high + 1).0 && j == Moved(a, comp, low, low, high + 1).1;
      LeftIsInBounds(a, b, comp, low, high, j);
      var _ := Sort(list, low, j - 1, comp);
      ghost var c := list[..];
      RightIsInBounds(b, c, comp, low, high, j);
      inRight := Sort(list, j + 1, high, comp);
      looked := inPartition || inRight;
      Assemble(a, b, c, list[..], comp, low, high, j);
    }
  }

  lemma OnePartition<T>(s: seq<T>, comp: (T, T) -> int, low: int, high: int)
    requires 0 <= low < high < |s| && InBounds(s, comp, low, high)
    ensures Stops(s, comp, low)
    ensures
      var (t, p) := Moved(s, comp, low, low, high + 1);
      && InBounds(t, comp, p + 1, high)
      && Looks(s, comp, low, high) == (PivotIsTop(s, comp, low, high) || Looks(t, comp, p + 1, high))
  {
  }

  /** The placed pivot is the slot above the left part. */
  lemma LeftIsInBounds<T(!new)>(a: seq<T>, b: seq<T>, comp: (T, T) -> int, low: int, high: int, j: int)
    requires 0 <= low < high < |a| && Partitioned(a, b, comp, low, high, j) && TotalPreorder(comp)
    ensures InBounds(b, comp, low, j - 1)
  {
    hide Shuffled, Topped, TotalPreorder, InBounds, Looks;
    BoundedIsInBounds(b, comp, low, j - 1);
  }

  lemma RightIsInBounds<T>(b: seq<T>, c: seq<T>, comp: (T, T) -> int, low: int, high: int, j: int)
    requires 0 <= low <= j <= high < |b| && Shuffled(b, c, low, j)
    ensures |b| == |c| && InBounds(b, comp, j + 1, high) == InBounds(c, comp, j + 1, high)
    ensures Looks(b, comp, j + 1, high) == Looks(c, comp, j + 1, high)
  {
    hide Shuffled, InBounds, Looks;
    ShuffledOutside(b, c, low, j);
    SameBounds(b, c, comp, j + 1, high);
  }

  /** The right part inherits what bounds the whole range. */
  lemma RightIsBounded<T(!new)>(a: seq<T>, b: seq<T>, comp: (T, T) -> int, low: int, high: int, j: int)
    requires 0 <= low < high < |a| && Bounded(a, comp, low, high) && TotalPreorder(comp)
    requires Partitioned(a, b, comp, low, high, j)
    ensures j + 1 < high ==> Bounded(b, comp, j + 1, high)
    ensures j < high && Topped(a, comp, low, high) ==> Topped(b, comp, j + 1, high)
  {
    hide Shuffled, Guarded, LastIsTop, Tied, TotalPreorder, Split;
    if LastIsTop(b, comp, low, high) {
      LastStaysTop(b, comp, low, high, j);
    } else if Tied(b, comp, low, high) {
      TiesStay(b, comp, low, high, j);
    }
    if Guarded(a, comp, low, high) {
      SlotStays(a, b, comp, low, high, j);
    }
  }

  /** Either both tops are on the right, or the pivot is a top and everything on the right is one. */
  lemma TiesStay<T(!new)>(b: seq<T>, comp: (T, T) -> int, low: int, high: int, j: int)
    requires 0 <= low <= j <= high < |b| && TotalPreorder(comp)
    requires Tied(b, comp, low, high) && Split(b, comp, b[j], low, high, j, j)
    ensures j < high ==> Topped(b, comp, j + 1, high)
  {
    hide TotalPreorder;
    var p, q :| p < q && TopAt(b, comp, low, high, p) && TopAt(b, comp, low, high, q);
    if j < p {
      assert TopAt(b, comp, j + 1, high, p) && TopAt(b, comp, j + 1, high, q);
    } else {
      forall k | j < k <= high ensures comp(b[k], b[high]) <= 0 {
        Signs(comp, b[j], b[high]);
        Transitive(comp, b[k], b[p], b[j]);
        Transitive(comp, b[k], b[j], b[high]);
      }
    }
  }

  lemma LastStaysTop<T>(b: seq<T>, comp: (T, T) -> int, low: int, high: int, j: int)
    requires 0 <= low <= j <= high && LastIsTop(b, comp, low, high)
    ensures j < high ==> LastIsTop(b, comp, j + 1, high)
  {
  }

  lemma SlotStays<T(!new)>(a: seq<T>, b: seq<T>, comp: (T, T) -> int, low: int, high: int, j: int)
    requires 0 <= low <= j <= high && Shuffled(a, b, low, high + 1)
    requires Guarded(a, comp, low, high)
    ensures Guarded(b, comp, j + 1, high)
  {
    hide Shuffled;
    ShuffledOutside(a, b, low, high + 1);
    var top := a[high + 1];
    ShuffledKeeps(a, b, low, high + 1, x => comp(x, top) <= 0);
  }

  lemma ShortIsSorted<T>(a: seq<T>, comp: (T, T) -> int, low: int, high: int)
    requires 0 <= low <= high + 1 <= |a| && low >= high
    ensures Shuffled(a, a, low, high + 1) && Sorted(a[low..high + 1], comp) && !Looks(a, comp, low, high)
  {
  }

  lemma ShuffledOutside<T>(a: seq<T>, b: seq<T>, lo: int, hi: int)
    requires Shuffled(a, b, lo, hi)
    ensures |a| == |b|
    ensures forall k :: 0 <= k < lo || hi <= k < |a| ==> b[k] == a[k]
    ensures a[..lo] == b[..lo]
  {
    forall k | 0 <= k < lo || hi <= k < |a| ensures b[k] == a[k] {
      if k < lo {
        assert b[..lo][k] == a[..lo][k];
      } else {
        assert b[hi..][k - hi] == a[hi..][k - hi];
      }
    }
  }

  ghost predicate PivotBetween<T>(d: seq<T>, comp: (T, T) -> int, low: int, high: int, j: int) {
    && 0 <= low <= j <= high < |d|
    && (forall k :: low <= k < j ==> comp(d[k], d[j]) <= 0)
    && (forall k :: j < k <= high ==> comp(d[k], d[j]) >= 0)
  }

  lemma PivotStays<T(!new)>(b: seq<T>, c: seq<T>, d: seq<T>, comp: (T, T) -> int, low: int, high: int, j: int)
    requires 0 <= low <= j <= high < |b| && Split(b, comp, b[j], low, high, j, j)
    requires Shuffled(b, c, low, j) && Shuffled(c, d, j + 1, high + 1)
    ensures PivotBetween(d, comp, low, high, j) && d[low..j] == c[low..j]
  {
    hide Shuffled;
    var pivot := b[j];
    ShuffledOutside(b, c, low, j);
    ShuffledOutside(c, d, j + 1, high + 1);
    ShuffledKeeps(b, c, low, j, x => comp(x, pivot) <= 0);
    ShuffledKeeps(c, d, j + 1, high + 1, x => comp(x, pivot) >= 0);
  }

  /** Two sorted parts around the pivot are a sorted whole. */
  lemma Assemble<T(!new)>(a: seq<T>, b: seq<T>, c: seq<T>, d: seq<T>, comp: (T, T) -> int, low: int, high: int, j: int)
    requires TotalPreorder(comp)
    requires 0 <= low <= j <= high < |a| && Partitioned(a, b, comp, low, high, j)
    requires Shuffled(b, c, low, j) && Shuffled(c, d, j + 1, high + 1)
    requires Sorted(c[low..j], comp) && Sorted(d[j + 1..high + 1], comp)
    ensures Shuffled(a, d, low, high + 1) && Sorted(d[low..high + 1], comp)
  {
    hide Shuffled, Split, Topped, Sorted, TotalPreorder, PivotBetween;
    ShuffledOutside(a, b, low, high + 1);
    ShuffledOutside(b, c, low, j);
    ShuffledOutside(c, d, j + 1, high + 1);
    ShuffledWider(b, c, low, j, low, high + 1);
    ShuffledWider(c, d, j + 1, high + 1, low, high + 1);
    ShuffledTrans(a, b, c, low, high + 1);
    ShuffledTrans(a, c, d, low, high + 1);
    PivotStays(b, c, d, comp, low, high, j);
    SortedAround(d, comp, low, high, j);
  }

  lemma SortedAround<T(!new)>(d: seq<T>, comp: (T, T) -> int, low: int, high: int, j: int)
    requires TotalPreorder(comp) && 0 <= low <= j <= high < |d|
    requires PivotBetween(d, comp, low, high, j)
    requires Sorted(d[low..j], comp) && Sorted(d[j + 1..high + 1], comp)
    ensures Sorted(d[low..high + 1], comp)
  {
    hide TotalPreorder;
    var s := d[low..high + 1];
    forall m, n | 0 <= m < n < |s| ensures comp(s[m], s[n]) <= 0 {
      var p, q := low + m, low + n;
      if q < j {
        assert d[low..j][m] == d[p] && d[low..j][n] == d[q];
      } else if j < p {
        assert d[j + 1..high + 1][p - j - 1] == d[p] && d[j + 1..high + 1][q - j - 1] == d[q];
      } else {
        Signs(comp, d[j], d[q]);
        Signs(comp, d[j], d[j]);
        Transitive(comp, d[p], d[j], d[q]);
      }
    }
  }

  // ----- The slot above the range is read -----

  /** An order without a slot above it that is sorted although its largest element is neither last nor tied. */
  lemma OneOrderInBounds()
    ensures
      var s := [2, 3, 1];
      InBounds(s, Difference, 0, 2) && !Looks(s, Difference, 0, 2) && !Bounded(s, Difference, 0, 2)
  {
    var s := [2, 3, 1];
    UpIs(s, Difference, 2, 1, 1);
    DownIs(s, Difference, 2, 2, 0, 2);
    MovedStep(s, Difference, 0, 0, 3);
    var w := Swapped(s, 1, 2);
    assert w == [2, 1, 3];
    UpIs(w, Difference, 2, 2, 2);
    DownIs(w, Difference, 2, 1, 0, 1);
    MovedStep(w, Difference, 0, 1, 2);
  }

  lemma {:induction false} SomeTop<T(!new)>(s: seq<T>, comp: (T, T) -> int, low: int, high: int) returns (p: int)
    requires TotalPreorder(comp) && 0 <= low <= high < |s|
    ensures TopAt(s, comp, low, high, p)
    decreases high
  {
    hide TotalPreorder;
    Signs(comp, s[high], s[high]);
    if low == high {
      p := low;
    } else {
      p := SomeTop(s, comp, low, high - 1);
      Signs(comp, s[p], s[high]);
      if comp(s[high], s[p]) > 0 {
        Signs(comp, s[high], s[p]);
        forall k | low <= k <= high ensures comp(s[k], s[high]) <= 0 {
          if k < high {
            Transitive(comp, s[k], s[p], s[high]);
          }
        }
        p := high;
      }
    }
  }

  /** Two elements of a range are in the rest of it, or one of them is, wherever the range is rearranged. */
  lemma OneIsNotFirst<T>(u: seq<T>, x: T, y: T) returns (k: int)
    requires u != [] && multiset{x, y} <= multiset(u)
    ensures 0 < k < |u| && u[k] in {x, y}
  {
    assert u == [u[0]] + u[1..];
    var z := if u[0] == x then y else x;
    assert multiset(u) == multiset{u[0]} + multiset(u[1..]);
    assert z in multiset(u[1..]);
    assert z in u[1..];
    var i :| 0 <= i < |u| - 1 && u[1..][i] == z;
    k := i + 1;
  }

  /** Whatever the order: some order of the range makes the first scan leave it exactly if no largest is tied. */
  lemma SomeOrderLooks<T(!new)>(s: seq<T>, comp: (T, T) -> int, low: int, high: int)
    requires TotalPreorder(comp) && 0 <= low < high < |s|
    ensures (exists t :: |t| == |s| && Shuffled(s, t, low, high + 1) && PivotIsTop(t, comp, low, high))
       <==> !Tied(s, comp, low, high)
  {
    hide TotalPreorder, Shuffled, PivotIsTop, Tied;
    if Tied(s, comp, low, high) {
      forall t | |t| == |s| && Shuffled(s, t, low, high + 1)
        ensures !PivotIsTop(t, comp, low, high)
      {
        TiedStaysTied(s, t, comp, low, high);
      }
    } else {
      var p := SomeTop(s, comp, low, high);
      SwapShuffles(s, low, p, low, high + 1);
      TopFirst(s, comp, low, high, p);
    }
  }

  lemma TopFirst<T(!new)>(s: seq<T>, comp: (T, T) -> int, low: int, high: int, p: int)
    requires TotalPreorder(comp) && 0 <= low < high < |s| && TopAt(s, comp, low, high, p)
    requires !Tied(s, comp, low, high)
    ensures PivotIsTop(Swapped(s, low, p), comp, low, high)
  {
    hide TotalPreorder;
    var t := Swapped(s, low, p);
    forall k | low < k <= high ensures comp(t[k], t[low]) < 0 {
      var q := if k == p then low else k;
      assert t[k] == s[q] && t[low] == s[p] && q != p;
      AlsoTop(s, comp, low, high, p, q);
    }
  }

  lemma AlsoTop<T(!new)>(s: seq<T>, comp: (T, T) -> int, low: int, high: int, p: int, q: int)
    requires TotalPreorder(comp) && 0 <= low <= q <= high < |s| && TopAt(s, comp, low, high, p) && q != p
    ensures comp(s[q], s[p]) >= 0 ==> Tied(s, comp, low, high)
  {
    hide TotalPreorder;
    if comp(s[q], s[p]) >= 0 {
      Signs(comp, s[p], s[q]);
      forall m | low <= m <= high ensures comp(s[m], s[q]) <= 0 {
        Transitive(comp, s[m], s[p], s[q]);
      }
      var (first, second) := if p < q then (p, q) else (q, p);
      assert TopAt(s, comp, low, high, first) && TopAt(s, comp, low, high, second);
    }
  }

  lemma TiedStaysTied<T(!new)>(s: seq<T>, t: seq<T>, comp: (T, T) -> int, low: int, high: int)
    requires TotalPreorder(comp) && 0 <= low < high < |s| && Shuffled(s, t, low, high + 1) && Tied(s, comp, low, high)
    ensures |t| == |s| && !PivotIsTop(t, comp, low, high)
  {
    hide TotalPreorder, Shuffled;
    var p, q :| p < q && TopAt(s, comp, low, high, p) && TopAt(s, comp, low, high, q);
    var (x, y) := (s[p], s[q]);
    ShuffledOutside(s, t, low, high + 1);
    ShuffledKeeps(s, t, low, high + 1, z => comp(z, x) <= 0 && comp(z, y) <= 0);
    var k := NotFirst(s, t, low, high, p, q);
    Signs(comp, t[low], t[k]);
  }

  lemma NotFirst<T>(s: seq<T>, t: seq<T>, low: int, high: int, p: int, q: int) returns (k: int)
    requires 0 <= low <= p < q <= high < |s| == |t| && Shuffled(s, t, low, high + 1)
    ensures low < k <= high && t[k] in {s[p], s[q]}
  {
    TwoOf(s[low..high + 1], p - low, q - low);
    k := OneIsNotFirst(t[low..high + 1], s[p], s[q]);
    k := low + k;
  }

  lemma TwoOf<T>(s: seq<T>, p: int, q: int)
    requires 0 <= p < q < |s|
    ensures multiset{s[p], s[q]} <= multiset(s)
  {
    assert s == s[..p] + [s[p]] + s[p + 1..q] + [s[q]] + s[q + 1..];
  }

  function Difference(x: int, y: int): int {
    x - y
  }

  /** Two elements in descending order: partitioning them reads the slot behind them. */
  method DescendingPair() returns (list: array<int>, ghost looked: bool)
    ensures fresh(list) && looked && list[..] == [1, 2, 2]
  {
    list := new int[3];
    list[0], list[1], list[2] := 2, 1, 2;
    assert list[..] == [2, 1, 2];
    ghost var before := list[..];
    assert PivotIsTop(before, Difference, 0, 1);
    var j;
    j, looked := Partition(list, 0, 1, Difference);
    DescendingPairSwaps(before, list[..], j);
  }

  lemma DescendingPairSwaps(before: seq<int>, after: seq<int>, j: int)
    requires before == [2, 1, 2] && Shuffled(before, after, 0, 2)
    requires 0 <= j <= 1 && after[j] == 2 && Split(after, Difference, 2, 0, 1, j, j)
    ensures after == [1, 2, 2]
  {
    ShuffledOutside(before, after, 0, 2);
    assert before[0..2] == [2, 1] && after[0..2] == [after[0], after[1]];
    assert multiset([after[0], after[1]]) == multiset{after[0], after[1]} == multiset{2, 1};
    assert multiset{after[0], after[1]}[1] == 1 && multiset{after[0], after[1]}[2] == 1;
  }
}
