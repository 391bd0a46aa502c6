/** `generate(n)`: Heap's algorithm, iterative form, printing every
    arrangement of the first n letters of "ABCDEFGHIJK".

    The printed lines are collected in order instead of being written out.
    The letters are at most eleven; for n above eleven the counter array has
    eleven entries and every index past it reads as `undefined`, which is
    never below the index, so the loop only climbs to n without printing. */
module Heap {
  import opened Arith
  const Letters: string := "ABCDEFGHIJK"

  function Min(a: nat, b: nat): nat {
    if a <= b then a else b
  }

  /** The line with the letters at places x and y exchanged. */
  function Exchanged(a: string, x: nat, y: nat): (b: string)
    requires x < |a| && y < |a|
    ensures |b| == |a| && b[x] == a[y] && b[y] == a[x]
    ensures forall k :: 0 <= k < |a| && k != x && k != y ==> b[k] == a[k]
    ensures multiset(b) == multiset(a)
  {
    a[x := a[y]][y := a[x]]
  }

  /** Consecutive lines differ by exchanging the letters at two distinct
      places. */
  ghost predicate OneSwapApart(a: string, b: string) {
    exists x: nat, y: nat :: x < |a| && y < |a| && x != y && b == Exchanged(a, x, y)
  }

  // ---------------------------------------------------------------------
  // The counter array as a factorial-base numeral

  /** Entries from j on, entry k weighing k!. */
  ghost function Weight(c: seq<nat>, j: nat): nat
    decreases |c| - j
  {
    if j >= |c| then 0 else Scale(c[j], Fact(j)) + Weight(c, j + 1)
  }

  /** Every entry is a digit of its place: entry k is at most k. */
  ghost predicate Digits(c: seq<nat>) {
    forall k :: 0 <= k < |c| ==> c[k] <= k
  }

  /** The largest numeral from place j on is |c|! - j!. */
  lemma {:induction false} WeightBound(c: seq<nat>, j: nat)
    requires Digits(c) && j <= |c|
    ensures Weight(c, j) + Fact(j) <= Fact(|c|)
    decreases |c| - j
  {
    if j < |c| {
      WeightBound(c, j + 1);
      ScaleMono(c[j], j, Fact(j));
    }
  }

  /** Zero entries before place i add nothing. */
  lemma {:induction false} WeightZeroPrefix(c: seq<nat>, j: nat, i: nat)
    requires j <= i <= |c| && forall k :: j <= k < i ==> c[k] == 0
    ensures Weight(c, j) == Weight(c, i)
    decreases i - j
  {
    if j < i {
      WeightZeroPrefix(c, j + 1, i);
    }
  }

  /** Changing one entry changes the numeral by the difference at its
      place. */
  lemma {:induction false} WeightUpdate(c: seq<nat>, j: nat, i: nat, v: nat)
    requires j <= i < |c|
    ensures Weight(c[i := v], j) + Scale(c[i], Fact(i)) == Weight(c, j) + Scale(v, Fact(i))
    decreases |c| - j
  {
    if j < i {
      WeightUpdate(c, j + 1, i, v);
    } else {
      assert Weight(c[i := v], i + 1) == Weight(c, i + 1) by {
        WeightSame(c, c[i := v], i + 1);
      }
    }
  }

  lemma {:induction false} WeightSame(c: seq<nat>, d: seq<nat>, j: nat)
    requires |c| == |d| && forall k :: j <= k < |c| ==> c[k] == d[k]
    ensures Weight(c, j) == Weight(d, j)
    decreases |c| - j
  {
    if j < |c| {
      WeightSame(c, d, j + 1);
    }
  }

  // ---------------------------------------------------------------------
  // The loop

  /** The loop's state: the counter holds digits, is zero below i, and the
      lines printed so far number its value plus i!, the count reached once
      the carry in progress completes. */
  ghost predicate Counting(c: seq<nat>, i: nat, m: nat, count: nat) {
    && |c| == m && Digits(c)
    && (forall k :: 0 <= k < i && k < m ==> c[k] == 0)
    && (i <= m ==> count == Weight(c, 0) + Fact(i))
    && (i > m ==> count == Fact(m) && Weight(c, 0) == 0)
  }

  /** The count never passes m!. */
  lemma CountingBound(c: seq<nat>, i: nat, m: nat, count: nat)
    requires Counting(c, i, m, count)
    ensures count <= Fact(m)
  {
    if i <= m {
      WeightZeroPrefix(c, 0, i);
      WeightBound(c, i);
    }
  }

  /** A printing step: entry i grows by one, the count by one, and the
      climb restarts from 0. */
  lemma CountingAdvance(c: seq<nat>, i: nat, m: nat, count: nat)
    requires Counting(c, i, m, count) && i < m && c[i] < i
    ensures Counting(c[i := c[i] + 1], 0, m, count + 1)
  {
    WeightUpdate(c, 0, i, c[i] + 1);
  }

  /** A carry: a full entry i resets to 0 and the climb moves on. */
  lemma CountingCarry(c: seq<nat>, i: nat, m: nat, count: nat)
    requires Counting(c, i, m, count) && i < m && c[i] >= i
    ensures Counting(c[i := 0], i + 1, m, count)
  {
    WeightUpdate(c, 0, i, 0);
    assert c[i] == i;
    if i + 1 == m {
      WeightZeroPrefix(c[i := 0], 0, m);
    }
  }

  /** Past the counter nothing changes but the index. */
  lemma CountingPast(c: seq<nat>, i: nat, m: nat, count: nat)
    requires Counting(c, i, m, count) && i >= m
    ensures Counting(c, i + 1, m, count)
  {
    if i == m {
      WeightZeroPrefix(c, 0, m);
    }
  }

  /** Every line is a rearrangement of the first, and each is one exchange
      away from the one before. */
  ghost predicate Chained(lines: seq<string>) {
    && |lines| > 0
    && (forall t :: 0 <= t < |lines| ==> multiset(lines[t]) == multiset(lines[0]))
    && (forall t :: 0 < t < |lines| ==> OneSwapApart(lines[t - 1], lines[t]))
  }

  lemma ChainExtend(lines: seq<string>, a: string)
    requires Chained(lines) && OneSwapApart(lines[|lines| - 1], a)
    requires multiset(a) == multiset(lines[0])
    ensures Chained(lines + [a])
  {
    var l' := lines + [a];
    assert forall t :: 0 <= t < |lines| ==> l'[t] == lines[t];
  }

  /** The state of the loop: a is the last line printed, the lines form a
      chain from the letters in order, and the counter agrees with their
      number. */
  ghost predicate Printing(lines: seq<string>, a: string, c: seq<nat>, i: nat, m: nat) {
    && |a| == m && Chained(lines) && lines[|lines| - 1] == a
    && m <= |Letters| && lines[0] == Letters[..m]
    && Counting(c, i, m, |lines|)
  }

  /** One pass of the loop: print after an exchange, or carry. */
  method Pass(lines: seq<string>, a: string, c: seq<nat>, i: nat, m: nat)
    returns (lines': seq<string>, a': string, c': seq<nat>, i': nat)
    requires Printing(lines, a, c, i, m)
    ensures Printing(lines', a', c', i', m) && |lines'| <= Fact(m)
    ensures (|lines'| == |lines| + 1 && i' == 0) || (|lines'| == |lines| && i' == i + 1)
  {
    CountingBound(c, i, m, |lines|);
    if i < m && c[i] < i {
      var x := if i % 2 == 1 then c[i] else 0;
      a' := Exchanged(a, x, i);
      assert OneSwapApart(a, a') by {
        assert x < |a| && i < |a| && x != i && a' == Exchanged(a, x, i);
      }
      ChainExtend(lines, a');
      lines' := lines + [a'];
      CountingAdvance(c, i, m, |lines|);
      c', i' := c[i := c[i] + 1], 0;
      CountingBound(c', i', m, |lines'|);
    } else {
      if i < m {
        CountingCarry(c, i, m, |lines|);
        c' := c[i := 0];
      } else {
        CountingPast(c, i, m, |lines|);
        c' := c;
      }
      lines', a', i' := lines, a, i + 1;
    }
  }

  /** `generate(n)`, with the printed lines collected: n! lines for n up
      to eleven, the first the letters in order, each a rearrangement of
      them, and each reached from the previous one by one exchange. */
  method Generate(n: nat) returns (lines: seq<string>)
    ensures |lines| == Fact(Min(n, |Letters|))
    ensures lines[0] == Letters[..Min(n, |Letters|)]
    ensures forall t :: 0 <= t < |lines| ==> multiset(lines[t]) == multiset(lines[0])
    ensures forall t :: 0 < t < |lines| ==> OneSwapApart(lines[t - 1], lines[t])
  {
    var m := Min(n, |Letters|);
    var a := Letters[..m];
    var c: seq<nat> := seq(m, _ => 0);
    WeightZeroPrefix(c, 0, m);
    lines := [a];
    var i: nat := 0;
    while i < n
      invariant Printing(lines, a, c, i, m) && |lines| <= Fact(m)
      decreases Fact(m) - |lines|, n - i
    {
      lines, a, c, i := Pass(lines, a, c, i, m);
    }
    if i <= m {
      WeightZeroPrefix(c, 0, m);
    }
  }
}
