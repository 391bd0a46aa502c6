/** `permute(n, yieldOdds)`: lexicographic enumeration of the permutations
    of degree n by Narayana's next-permutation step, with a parity flag
    toggled by every exchange; the alternating group's enumeration skips
    the arrangements whose flag is odd. */
module Enumerate {
  import opened Perms
  import opened Cycles
  import opened Parity
  import opened Arith

  /** a and b agree before index d and a is smaller at d. */
  ghost predicate LexLessAt(a: seq<nat>, b: seq<nat>, d: nat) {
    d < |a| == |b| && a[..d] == b[..d] && a[d] < b[d]
  }

  /** Strict lexicographic order on arrays of one length. */
  ghost predicate LexLess(a: seq<nat>, b: seq<nat>) {
    exists d: nat :: LexLessAt(a, b, d)
  }

  /** From index k on, the entries never increase. */
  ghost predicate NonIncreasingFrom(a: seq<nat>, k: nat) {
    forall s, t :: k <= s < t < |a| ==> a[s] >= a[t]
  }

  /** From index k on, the entries strictly increase. */
  ghost predicate AscendingFrom(a: seq<nat>, k: nat) {
    forall s, t :: k <= s < t < |a| ==> a[s] < a[t]
  }

  /** What one step makes of arr when its last ascent is at index k: the
      entries before k are kept, entry k grows to the least larger value
      after it, and the rest is sorted ascending. */
  ghost predicate NextAt(arr: seq<nat>, next: seq<nat>, k: nat) {
    && k + 1 < |arr| == |next|
    && arr[k] < arr[k + 1] && NonIncreasingFrom(arr, k + 1)
    && next[..k] == arr[..k]
    && arr[k] < next[k]
    && (forall t :: k < t < |arr| && arr[k] < arr[t] ==> next[k] <= arr[t])
    && AscendingFrom(next, k + 1)
  }

  /** After the exchange at the pivot k and at j, the tail is still
      non-increasing. */
  lemma PivotExchangeKeepsTail(a: seq<nat>, k: nat, j: nat)
    requires k < j < |a| && NonIncreasingFrom(a, k + 1)
    requires a[k] < a[j] && forall t :: j < t < |a| ==> a[t] <= a[k]
    ensures NonIncreasingFrom(Swapped(a, k, j), k + 1)
  {
  }

  /** Reversing a non-increasing, duplicate-free tail sorts it ascending. */
  lemma ReversedTailAscends(a1: seq<nat>, b: seq<nat>, k: nat)
    requires |a1| == |b| && k < |a1| && NonIncreasingFrom(a1, k + 1) && Distinct(a1)
    requires forall t :: k < t < |b| ==> b[t] == a1[|b| + k - t]
    ensures AscendingFrom(b, k + 1)
  {
    forall s, t | k + 1 <= s < t < |b|
      ensures b[s] < b[t]
    {
      var n := |b|;
      assert a1[n + k - t] >= a1[n + k - s];
      assert a1[n + k - t] != a1[n + k - s];
    }
  }

  /** Exchanging two distinct entries keeps a permutation, the multiset of
      its entries, and toggles the parity of `swaps`. */
  lemma ExchangeToggles(a: seq<nat>, x: nat, y: nat, parity: nat)
    requires IsPerm(a) && x < |a| && y < |a| && x != y && parity == Swaps(a) % 2
    ensures IsPerm(Swapped(a, x, y)) && multiset(Swapped(a, x, y)) == multiset(a)
    ensures 1 - parity == Swaps(Swapped(a, x, y)) % 2
  {
    SwapsExchange(a, x, y);
    SwappedMultiset(a, x, y);
  }

  /** The first inner loop: i-1 is the last ascent, or i <= 0 when the
      whole array is non-increasing. */
  method LastAscent(a: seq<nat>) returns (i: int)
    ensures i <= 0 <==> NonIncreasingFrom(a, 0)
    ensures i > 0 ==> i < |a| && a[i - 1] < a[i] && NonIncreasingFrom(a, i)
  {
    i := |a| - 1;
    while i > 0 && a[i - 1] >= a[i]
      invariant -1 <= i < |a| || (|a| == 0 && i == -1)
      invariant NonIncreasingFrom(a, if i < 0 then 0 else i)
      decreases i
    {
      i := i - 1;
    }
  }

  /** The second inner loop: j-1 is the last index after the ascent k whose
      entry exceeds entry k. */
  method LastLarger(a: seq<nat>, k: nat) returns (j: nat)
    requires k + 1 < |a| && a[k] < a[k + 1]
    ensures k + 1 < j <= |a| && a[k] < a[j - 1]
    ensures forall t :: j <= t < |a| ==> a[t] <= a[k]
  {
    j := |a|;
    while j > k + 1 && a[j - 1] <= a[k]
      invariant k + 1 <= j <= |a|
      invariant forall t :: j <= t < |a| ==> a[t] <= a[k]
      decreases j
    {
      j := j - 1;
    }
  }

  /** Positions k+1 .. i-2 and j .. n-1 hold the mirrored entries of a1
      and the ones between are untouched. */
  ghost predicate Mirrored(a1: seq<nat>, k: nat, a: seq<nat>, i: int, j: int) {
    var n := |a1|;
    && k < n && k + 2 <= i && j <= n && i + j == n + k + 2 && |a| == n
    && (forall t {:trigger a[t]} :: 0 <= t <= k ==> a[t] == a1[t])
    && (forall t {:trigger a[t]} :: k < t < n && (t < i - 1 || j - 1 < t) ==> a[t] == a1[n + k - t])
    && (forall t {:trigger a[t]} :: i - 1 <= t < j ==> a[t] == a1[t])
  }

  lemma MirroredStep(a1: seq<nat>, k: nat, a: seq<nat>, i: int, j: int)
    requires Mirrored(a1, k, a, i, j) && i < j
    ensures Mirrored(a1, k, Swapped(a, i - 1, j - 1), i + 1, j - 1)
  {
    var b := Swapped(a, i - 1, j - 1);
    assert b[..k + 1] == a[..k + 1];
  }

  /** The state of the reversal loop: the mirroring so far, and the flag is
      the parity of the current array. */
  ghost predicate Reversing(a1: seq<nat>, k: nat, a: seq<nat>, par: nat, i: int, j: int) {
    && Mirrored(a1, k, a, i, j)
    && IsPerm(a)
    && par == Swaps(a) % 2
  }

  /** One round of the reversal loop keeps its state. */
  lemma ReversingStep(a1: seq<nat>, k: nat, a: seq<nat>, par: nat, i: int, j: int)
    requires Reversing(a1, k, a, par, i, j) && i < j
    ensures Reversing(a1, k, Swapped(a, i - 1, j - 1), 1 - par, i + 1, j - 1)
  {
    var b := Swapped(a, i - 1, j - 1);
    ExchangeToggles(a, i - 1, j - 1, par);
    MirroredStep(a1, k, a, i, j);
  }

  /** The third inner loop: reverses the entries after k by exchanges,
      toggling the flag at each. */
  method ReverseTail(a1: seq<nat>, k: nat, parity: nat) returns (a: seq<nat>, par: nat)
    requires IsPerm(a1) && k < |a1| && parity == Swaps(a1) % 2
    ensures IsPerm(a) && |a| == |a1| && multiset(a) == multiset(a1)
    ensures par == Swaps(a) % 2
    ensures a[..k + 1] == a1[..k + 1]
    ensures forall t :: k < t < |a| ==> a[t] == a1[|a| + k - t]
  {
    a, par := a1, parity;
    var i, j := k + 2, |a1|;
    while i < j
      invariant Reversing(a1, k, a, par, i, j)
      decreases j - i
    {
      ReversingStep(a1, k, a, par, i, j);
      a, par := Swapped(a, i - 1, j - 1), 1 - par;
      i, j := i + 1, j - 1;
    }
    PermsSameEntries(a, a1);
  }

  /** The exchange at the pivot followed by the reversal yields the
      successor described by NextAt. */
  lemma ExchangeThenReverse(arr: seq<nat>, k: nat, j: nat, a: seq<nat>)
    requires IsPerm(arr) && k + 1 < j <= |arr| == |a|
    requires arr[k] < arr[k + 1] && NonIncreasingFrom(arr, k + 1)
    requires arr[k] < arr[j - 1] && forall t :: j <= t < |arr| ==> arr[t] <= arr[k]
    requires var a1 := Swapped(arr, k, j - 1);
             a[..k + 1] == a1[..k + 1] && forall t :: k < t < |a| ==> a[t] == a1[|a| + k - t]
    ensures NextAt(arr, a, k)
  {
    var a1 := Swapped(arr, k, j - 1);
    SwappedIsPerm(arr, k, j - 1);
    PivotExchangeKeepsTail(arr, k, j - 1);
    ReversedTailAscends(a1, a, k);
    assert a[..k] == arr[..k] by {
      assert a[..k] == a1[..k + 1][..k];
    }
    assert a[k] == arr[j - 1] by {
      assert a[k] == a1[..k + 1][k];
    }
  }

  /** The body of the generator's loop after a yield: find the last ascent
      at k = i-1, exchange entry k with the last entry larger than it, then
      reverse the entries after k. `done` is the early return when there is
      no ascent; `pivot` reports k. */
  method Advance(arr: seq<nat>, parity: nat) returns (done: bool, next: seq<nat>, parityOut: nat, pivot: nat)
    requires IsPerm(arr) && parity == Swaps(arr) % 2
    ensures done <==> NonIncreasingFrom(arr, 0)
    ensures !done ==> && IsPerm(next) && multiset(next) == multiset(arr)
                      && parityOut == Swaps(next) % 2
                      && NextAt(arr, next, pivot)
  {
    var i := LastAscent(arr);
    if i <= 0 {
      return true, arr, parity, 0;
    }
    var k: nat := i - 1;
    var j := LastLarger(arr, k);
    ExchangeToggles(arr, k, j - 1, parity);
    var a, par := ReverseTail(Swapped(arr, k, j - 1), k, 1 - parity);
    ExchangeThenReverse(arr, k, j, a);
    return false, a, par, k;
  }

  // ---------------------------------------------------------------------
  // The step yields the immediate lexicographic successor

  /** Equal prefixes of arrays with equal multisets leave equal suffixes. */
  lemma SuffixMultiset(s: seq<nat>, r: seq<nat>, d: nat)
    requires d <= |s| == |r| && s[..d] == r[..d] && multiset(s) == multiset(r)
    ensures multiset(s[d..]) == multiset(r[d..])
  {
    assert s == s[..d] + s[d..];
    assert r == r[..d] + r[d..];
    assert multiset(s) == multiset(s[..d]) + multiset(s[d..]);
    assert multiset(r) == multiset(r[..d]) + multiset(r[d..]);
    forall v
      ensures multiset(s[d..])[v] == multiset(r[d..])[v]
    {
      assert multiset(s)[v] == multiset(s[..d])[v] + multiset(s[d..])[v];
    }
  }

  /** A value of a suffix sits at some index of it. */
  lemma SuffixIndex(s: seq<nat>, d: nat, v: nat) returns (t: nat)
    requires d <= |s| && v in multiset(s[d..])
    ensures d <= t < |s| && s[t] == v
  {
    var u :| 0 <= u < |s[d..]| && s[d..][u] == v;
    t := d + u;
  }

  /** Where a non-increasing tail starts no rearrangement can grow. */
  lemma NoGrowthInTail(arr: seq<nat>, q: seq<nat>, d: nat, k: nat)
    requires NonIncreasingFrom(arr, k) && k <= d && multiset(q) == multiset(arr)
    ensures !LexLessAt(arr, q, d)
  {
    if LexLessAt(arr, q, d) {
      SuffixMultiset(arr, q, d);
      assert q[d] in multiset(q[d..]) by {
        assert q[d..][0] == q[d];
      }
      var t := SuffixIndex(arr, d, q[d]);
    }
  }

  /** An ascending array is the least rearrangement of its entries. */
  lemma AscendingIsLeast(s: seq<nat>, r: seq<nat>)
    requires AscendingFrom(s, 0) && multiset(s) == multiset(r)
    ensures s == r || LexLess(s, r)
  {
    if s != r {
      assert |s| == |multiset(s)| == |r|;
      var d := FirstDifference(s, r);
      SuffixMultiset(s, r, d);
      assert r[d] in multiset(s[d..]) by {
        assert r[d..][0] == r[d];
      }
      var t := SuffixIndex(s, d, r[d]);
      assert LexLessAt(s, r, d);
    }
  }

  /** The first index where two different arrays of one length differ. */
  lemma FirstDifference(s: seq<nat>, r: seq<nat>) returns (d: nat)
    requires |s| == |r| && s != r
    ensures d < |s| && s[..d] == r[..d] && s[d] != r[d]
  {
    d := 0;
    while s[d] == r[d]
      invariant d < |s| && s[..d] == r[..d]
      decreases |s| - d
    {
      assert s[..d + 1] == r[..d + 1];
      d := d + 1;
    }
  }

  /** When q first exceeds arr at the pivot, the step is at most q. */
  lemma NextBelowAtPivot(arr: seq<nat>, next: seq<nat>, k: nat, q: seq<nat>)
    requires NextAt(arr, next, k) && multiset(next) == multiset(arr)
    requires multiset(q) == multiset(arr) && LexLessAt(arr, q, k)
    ensures next == q || LexLess(next, q)
  {
    SuffixMultiset(arr, q, k);
    assert q[k] in multiset(arr[k..]) by {
      assert q[k..][0] == q[k];
    }
    var t := SuffixIndex(arr, k, q[k]);
    if next[k] < q[k] {
      assert LexLessAt(next, q, k);
    } else {
      assert next[..k + 1] == q[..k + 1];
      SuffixMultiset(next, q, k + 1);
      AscendingTailIsLeast(next, q, k + 1);
    }
  }

  /** Arrays with a common prefix compare as their suffixes, and an
      ascending suffix is the least. */
  lemma AscendingTailIsLeast(a: seq<nat>, q: seq<nat>, m: nat)
    requires m <= |a| == |q| && a[..m] == q[..m] && AscendingFrom(a, m)
    requires multiset(a[m..]) == multiset(q[m..])
    ensures a == q || LexLess(a, q)
  {
    var at, qt := a[m..], q[m..];
    AscendingIsLeast(at, qt);
    if at == qt {
      assert a == a[..m] + at && q == q[..m] + qt;
    } else {
      var e: nat :| LexLessAt(at, qt, e);
      assert a[..m + e] == a[..m] + at[..e];
      assert q[..m + e] == q[..m] + qt[..e];
      assert LexLessAt(a, q, m + e);
    }
  }

  /** Nothing lies strictly between an array and its step: the step is the
      immediate successor among the rearrangements of its entries. */
  lemma NextIsImmediate(arr: seq<nat>, next: seq<nat>, k: nat, q: seq<nat>)
    requires NextAt(arr, next, k) && multiset(next) == multiset(arr)
    requires multiset(q) == multiset(arr) && LexLess(arr, q)
    ensures next == q || LexLess(next, q)
  {
    var d: nat :| LexLessAt(arr, q, d);
    if d < k {
      assert next[..d] == arr[..k][..d];
      assert LexLessAt(next, q, d);
    } else if d > k {
      NoGrowthInTail(arr, q, d, k + 1);
    } else {
      NextBelowAtPivot(arr, next, k, q);
    }
  }

  /** The step is lexicographically larger. */
  lemma NextIsLarger(arr: seq<nat>, next: seq<nat>, k: nat)
    requires NextAt(arr, next, k)
    ensures LexLess(arr, next)
  {
    assert LexLessAt(arr, next, k);
  }

  /** A non-increasing array is the largest rearrangement of its entries. */
  lemma LastHasNoSuccessor(arr: seq<nat>, q: seq<nat>)
    requires NonIncreasingFrom(arr, 0) && multiset(q) == multiset(arr)
    ensures !LexLess(arr, q)
  {
    forall d: nat
      ensures !LexLessAt(arr, q, d)
    {
      NoGrowthInTail(arr, q, d, 0);
    }
  }

  lemma LexTransitive(a: seq<nat>, b: seq<nat>, c: seq<nat>)
    requires LexLess(a, b) && LexLess(b, c)
    ensures LexLess(a, c)
  {
    var d1: nat :| LexLessAt(a, b, d1);
    var d2: nat :| LexLessAt(b, c, d2);
    if d1 <= d2 {
      assert a[..d1] == b[..d2][..d1];
      assert c[..d1] == c[..d2][..d1];
      assert LexLessAt(a, c, d1);
    } else {
      assert a[..d2] == a[..d1][..d2];
      assert b[..d2] == b[..d1][..d2];
      assert LexLessAt(a, c, d2);
    }
  }

  // ---------------------------------------------------------------------
  // Termination: arrays read as numerals in base n

  /** The array read as a numeral in base b, most significant entry first. */
  ghost function Numeral(a: seq<nat>, b: nat): nat {
    if |a| == 0 then 0 else Scale(a[0], Pow(b, |a| - 1)) + Numeral(a[1..], b)
  }

  /** A numeral of |a| digits below b is below b to the |a|. */
  lemma {:induction false} NumeralBelow(a: seq<nat>, b: nat)
    requires forall t :: 0 <= t < |a| ==> a[t] < b
    ensures Numeral(a, b) < Pow(b, |a|)
  {
    if |a| > 0 {
      NumeralBelow(a[1..], b);
      ScaleMono(a[0] + 1, b, Pow(b, |a| - 1));
    }
  }

  /** A lexicographically smaller array is a smaller numeral. */
  lemma {:induction false} LexNumeral(a: seq<nat>, c: seq<nat>, d: nat, b: nat)
    requires LexLessAt(a, c, d)
    requires forall t :: 0 <= t < |a| ==> a[t] < b
    ensures Numeral(a, b) < Numeral(c, b)
  {
    if d == 0 {
      NumeralBelow(a[1..], b);
      ScaleMono(a[0] + 1, c[0], Pow(b, |a| - 1));
    } else {
      assert a[0] == a[..d][0] && c[0] == c[..d][0];
      assert a[1..][..d - 1] == a[..d][1..];
      assert c[1..][..d - 1] == c[..d][1..];
      LexNumeral(a[1..], c[1..], d - 1, b);
    }
  }

  /** The step is a larger numeral that still fits n digits. */
  lemma StepNumeral(arr: seq<nat>, next: seq<nat>, k: nat)
    requires NextAt(arr, next, k) && InRange(arr) && InRange(next)
    ensures Numeral(arr, |arr|) < Numeral(next, |arr|) < Pow(|arr|, |arr|)
  {
    LexNumeral(arr, next, k, |arr|);
    NumeralBelow(next, |arr|);
  }

  // ---------------------------------------------------------------------
  // The generator

  /** Every rearrangement of 0 .. n-1. */
  ghost predicate Arrangement(q: seq<nat>, n: nat) {
    multiset(q) == multiset(Iota(n))
  }

  /** The alternating enumeration passes over odd arrangements. */
  ghost predicate Skipped(yieldOdds: bool, q: seq<nat>) {
    !yieldOdds && InRange(q) && Swaps(q) % 2 == 1
  }

  /** Every arrangement strictly between lo and hi is skipped. */
  ghost predicate GapSkipped(lo: seq<nat>, hi: seq<nat>, n: nat, yieldOdds: bool) {
    forall q :: Arrangement(q, n) && LexLess(lo, q) && LexLess(q, hi) ==> Skipped(yieldOdds, q)
  }

  lemma LexIrreflexive(a: seq<nat>)
    ensures !LexLess(a, a)
  {
  }

  /** One step of the enumeration keeps the gap after the last yielded
      array skipped: nothing lies between the array and its step. */
  lemma Step(last: seq<nat>, arr: seq<nat>, next: seq<nat>, k: nat, n: nat, yieldOdds: bool)
    requires NextAt(arr, next, k) && multiset(next) == multiset(arr) && Arrangement(arr, n)
    requires last == arr || LexLess(last, arr)
    requires last != arr ==> Skipped(yieldOdds, arr)
    requires GapSkipped(last, arr, n, yieldOdds)
    ensures LexLess(last, next) && GapSkipped(last, next, n, yieldOdds)
  {
    NextIsLarger(arr, next, k);
    if last != arr {
      LexTransitive(last, arr, next);
    }
    forall q | Arrangement(q, n) && LexLess(last, q) && LexLess(q, next)
      ensures Skipped(yieldOdds, q)
    {
      if LexLess(arr, q) {
        NextIsImmediate(arr, next, k, q);
        if next != q {
          LexTransitive(next, q, next);
          LexIrreflexive(next);
        }
        LexIrreflexive(q);
      } else if q == arr {
        LexIrreflexive(q);
      } else {
        LexTotal(arr, q);
      }
    }
  }

  /** Arrays of one length are equal or ordered one way or the other. */
  lemma LexTotal(a: seq<nat>, b: seq<nat>)
    requires |a| == |b|
    ensures a == b || LexLess(a, b) || LexLess(b, a)
  {
    if a != b {
      var d := FirstDifference(a, b);
      if a[d] < b[d] {
        assert LexLessAt(a, b, d);
      } else {
        assert LexLessAt(b, a, d);
      }
    }
  }

  /** The arrays yielded so far start at the identity, are not skipped,
      increase, and only skipped arrangements lie between them. */
  ghost predicate Listed(out: seq<seq<nat>>, n: nat, yieldOdds: bool) {
    && |out| > 0 && out[0] == Iota(n)
    && (forall t :: 0 <= t < |out| ==> IsPerm(out[t]) && |out[t]| == n)
    && (forall t :: 0 <= t < |out| ==> !Skipped(yieldOdds, out[t]))
    && (forall t :: 0 < t < |out| ==> LexLess(out[t - 1], out[t]))
    && (forall t :: 0 < t < |out| ==> GapSkipped(out[t - 1], out[t], n, yieldOdds))
  }

  /** The current array is the last yielded one, or is skipped and reached
      from it through skipped arrangements only. */
  ghost predicate Pending(last: seq<nat>, arr: seq<nat>, n: nat, yieldOdds: bool) {
    && (last == arr || LexLess(last, arr))
    && (last != arr ==> Skipped(yieldOdds, arr))
    && GapSkipped(last, arr, n, yieldOdds)
  }

  /** Yielding or skipping the step keeps both predicates. */
  lemma ListedStep(out: seq<seq<nat>>, arr: seq<nat>, next: seq<nat>, k: nat, n: nat, yieldOdds: bool)
    requires Listed(out, n, yieldOdds) && Pending(out[|out| - 1], arr, n, yieldOdds)
    requires NextAt(arr, next, k) && multiset(next) == multiset(arr) && Arrangement(arr, n)
    requires IsPerm(next)
    ensures !Skipped(yieldOdds, next) ==> Listed(out + [next], n, yieldOdds) && Pending(next, next, n, yieldOdds)
    ensures Skipped(yieldOdds, next) ==> Pending(out[|out| - 1], next, n, yieldOdds)
  {
    Step(out[|out| - 1], arr, next, k, n, yieldOdds);
    if !Skipped(yieldOdds, next) {
      GapEmpty(next, n, yieldOdds);
      ListedExtend(out, next, n, yieldOdds);
    }
  }

  /** Nothing lies strictly between an array and itself. */
  lemma GapEmpty(a: seq<nat>, n: nat, yieldOdds: bool)
    ensures GapSkipped(a, a, n, yieldOdds)
  {
    forall q | LexLess(a, q) && LexLess(q, a)
      ensures false
    {
      LexTransitive(a, q, a);
      LexIrreflexive(a);
    }
  }

  /** Appending a larger, unskipped array across a skipped gap. */
  lemma ListedExtend(out: seq<seq<nat>>, next: seq<nat>, n: nat, yieldOdds: bool)
    requires Listed(out, n, yieldOdds) && IsPerm(next) && |next| == n && !Skipped(yieldOdds, next)
    requires LexLess(out[|out| - 1], next) && GapSkipped(out[|out| - 1], next, n, yieldOdds)
    ensures Listed(out + [next], n, yieldOdds)
  {
    var out' := out + [next];
    forall t | 0 <= t < |out'|
      ensures IsPerm(out'[t]) && |out'[t]| == n && !Skipped(yieldOdds, out'[t])
    {
      if t < |out| {
        assert out'[t] == out[t];
      }
    }
    forall t | 0 < t < |out'|
      ensures LexLess(out'[t - 1], out'[t]) && GapSkipped(out'[t - 1], out'[t], n, yieldOdds)
    {
      assert out'[t - 1] == out[t - 1];
      if t < |out| {
        assert out'[t] == out[t];
      }
    }
  }

  /** At the last arrangement nothing follows the last yielded array but
      skipped arrangements. */
  lemma ListedEnd(last: seq<nat>, arr: seq<nat>, n: nat, yieldOdds: bool)
    requires Pending(last, arr, n, yieldOdds) && NonIncreasingFrom(arr, 0) && Arrangement(arr, n)
    ensures forall q :: Arrangement(q, n) && LexLess(last, q) ==> Skipped(yieldOdds, q)
  {
    forall q | Arrangement(q, n) && LexLess(last, q)
      ensures Skipped(yieldOdds, q)
    {
      LastHasNoSuccessor(arr, q);
      LexTotal(arr, q);
      LexIrreflexive(q);
    }
  }

  /** The state of the generator between two steps: the current array
      with its parity flag, and the arrays yielded so far. */
  ghost predicate Enumerating(out: seq<seq<nat>>, arr: seq<nat>, parity: nat, n: nat, yieldOdds: bool) {
    && IsPerm(arr) && |arr| == n && Arrangement(arr, n) && parity == Swaps(arr) % 2
    && Listed(out, n, yieldOdds) && Pending(out[|out| - 1], arr, n, yieldOdds)
  }

  /** The generator's state before the first step. */
  lemma EnumeratingStart(n: nat, yieldOdds: bool)
    ensures Enumerating([Iota(n)], Iota(n), 0, n, yieldOdds)
    ensures Numeral(Iota(n), n) < Pow(n, n)
  {
    IdentityIsPerm(n);
    SwapsIdentity(n);
    GapEmpty(Iota(n), n, yieldOdds);
    NumeralBelow(Iota(n), n);
  }

  /** One pass of the generator's loop: the step, then the yield when the
      new parity allows it. */
  method Visit(out: seq<seq<nat>>, arr: seq<nat>, parity: nat, n: nat, yieldOdds: bool)
    returns (done: bool, out': seq<seq<nat>>, next: seq<nat>, parity': nat)
    requires Enumerating(out, arr, parity, n, yieldOdds)
    ensures done <==> NonIncreasingFrom(arr, 0)
    ensures done ==> forall q :: Arrangement(q, n) && LexLess(out[|out| - 1], q) ==> Skipped(yieldOdds, q)
    ensures !done ==> Enumerating(out', next, parity', n, yieldOdds)
    ensures !done ==> Numeral(arr, n) < Numeral(next, n) < Pow(n, n)
    ensures !done ==> out' == (if yieldOdds || parity' == 0 then out + [next] else out)
  {
    var k;
    done, next, parity', k := Advance(arr, parity);
    if done {
      ListedEnd(out[|out| - 1], arr, n, yieldOdds);
      return done, out, arr, parity;
    }
    PermFromMultiset(next);
    ListedStep(out, arr, next, k, n, yieldOdds);
    StepNumeral(arr, next, k);
    out' := if yieldOdds || parity' == 0 then out + [next] else out;
  }

  /** `permute(n, yieldOdds)`, with the yielded arrays collected in order.
      The result lists, in increasing lexicographic order starting from the
      identity, exactly the arrangements that are not skipped: every
      arrangement between two consecutive results, or after the last one,
      is odd and yieldOdds is false. */
  method Permute(n: nat, yieldOdds: bool) returns (out: seq<seq<nat>>)
    ensures |out| > 0 && out[0] == Iota(n)
    ensures forall t :: 0 <= t < |out| ==> IsPerm(out[t]) && |out[t]| == n
    ensures forall t :: 0 <= t < |out| ==> !Skipped(yieldOdds, out[t])
    ensures forall t :: 0 < t < |out| ==> LexLess(out[t - 1], out[t])
    ensures forall t :: 0 < t < |out| ==> GapSkipped(out[t - 1], out[t], n, yieldOdds)
    ensures forall q :: Arrangement(q, n) && LexLess(out[|out| - 1], q) ==> Skipped(yieldOdds, q)
  {
    var arr := Iota(n);
    var parity := 0;
    out := [arr];
    EnumeratingStart(n, yieldOdds);
    while true
      invariant Enumerating(out, arr, parity, n, yieldOdds) && Numeral(arr, n) < Pow(n, n)
      decreases Pow(n, n) - Numeral(arr, n)
    {
      var done, out', next, parity' := Visit(out, arr, parity, n, yieldOdds);
      if done {
        return;
      }
      out, arr, parity := out', next, parity';
    }
  }
}
