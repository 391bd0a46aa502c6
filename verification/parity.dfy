/** Parity of permutations, as counted by `swaps`.

    The count is related to the degree-reduction that takes the largest
    position n-1 out of its cycle: if n-1 is fixed it is simply dropped, and
    otherwise the position j mapping to n-1 is redirected to where n-1 went.
    `swaps` loses nothing in the first case and exactly one transposition in
    the second; this recurrence gives, by induction on the degree, that
    exchanging two entries changes `swaps` by exactly one. */
module Parity {
  import opened Perms
  import opened Cycles

  /** Removes the non-fixed largest position n-1 from its cycle. */
  function Reduce(p: seq<nat>): (r: seq<nat>)
    requires IsPerm(p) && |p| > 0 && p[|p| - 1] != |p| - 1
    ensures |r| == |p| - 1 && InRange(r)
  {
    var n := |p| - 1;
    var j := IndexOf(p, n);
    p[..n][j := p[n]]
  }

  /** The first n-1 entries with entry j replaced by the last one. */
  function Redirect(p: seq<nat>, j: nat): (r: seq<nat>)
    requires j < |p| - 1
    ensures |r| == |p| - 1 && r[j] == p[|p| - 1]
    ensures forall i :: 0 <= i < |r| && i != j ==> r[i] == p[i]
  {
    p[..|p| - 1][j := p[|p| - 1]]
  }

  lemma ReduceIsPerm(p: seq<nat>)
    requires IsPerm(p) && |p| > 0 && p[|p| - 1] != |p| - 1
    ensures IsPerm(Reduce(p))
  {
    var n := |p| - 1;
    var j := IndexOf(p, n);
    var r := Reduce(p);
    forall v | 0 <= v < n
      ensures v in r
    {
      var k := IndexOf(p, v);
      if k == n {
        assert r[j] == v;
      } else {
        assert r[k] == v;
      }
    }
  }

  lemma DropFixedIsPerm(p: seq<nat>)
    requires IsPerm(p) && |p| > 0 && p[|p| - 1] == |p| - 1
    ensures IsPerm(p[..|p| - 1])
  {
    var n := |p| - 1;
    var r := p[..n];
    forall v | 0 <= v < n
      ensures v in r
    {
      var k := IndexOf(p, v);
      assert r[k] == v;
    }
  }

  // ---------------------------------------------------------------------
  // Fixed largest position

  lemma {:induction false} TraceDropFixed(p: seq<nat>, s: set<nat>, x: nat)
    requires IsPerm(p) && |p| > 0 && p[|p| - 1] == |p| - 1
    requires x < |p| - 1 && |p| - 1 !in s
    ensures IsPerm(p[..|p| - 1])
    ensures Trace(p, s, x) == Trace(p[..|p| - 1], s, x)
    decreases Below(|p|) - s
  {
    DropFixedIsPerm(p);
    var q := p[..|p| - 1];
    if x !in s {
      assert p[x] != |p| - 1;
      TraceDropFixed(p, s + {x}, p[x]);
      assert q[x] == p[x];
    }
  }

  lemma {:induction false} SwapsFromDropFixed(p: seq<nat>, i: nat, s: set<nat>)
    requires IsPerm(p) && |p| > 0 && p[|p| - 1] == |p| - 1
    requires i <= |p| - 1 && |p| - 1 !in s
    ensures IsPerm(p[..|p| - 1])
    ensures SwapsFrom(p, i, s) == SwapsFrom(p[..|p| - 1], i, s)
    decreases |p| - i
  {
    DropFixedIsPerm(p);
    var n := |p| - 1;
    var q := p[..n];
    if i == n {
      var t := Trace(p, s, n);
      assert t == [n] + Trace(p, s + {n}, n);
      assert Trace(p, s + {n}, n) == [];
    } else {
      var t := Trace(p, s, i);
      TraceDropFixed(p, s, i);
      TraceFresh(q, s, i);
      assert n !in Elems(t);
      SwapsFromDropFixed(p, i + 1, s + Elems(t));
    }
  }

  /** A fixed largest position contributes no transposition. */
  lemma SwapsDropFixed(p: seq<nat>)
    requires IsPerm(p) && |p| > 0 && p[|p| - 1] == |p| - 1
    ensures IsPerm(p[..|p| - 1])
    ensures Swaps(p) == Swaps(p[..|p| - 1])
  {
    SwapsFromDropFixed(p, 0, {});
  }

  // ---------------------------------------------------------------------
  // Non-fixed largest position

  /** The seen sets of the walks over p and over Reduce(p) agree except on
      n-1, which is seen exactly when its predecessor j is. */
  ghost predicate Coupled(p: seq<nat>, s: set<nat>)
    requires IsPerm(p) && |p| > 0
  {
    (|p| - 1 in s <==> IndexOf(p, |p| - 1) in s)
  }

  /** t is t' with n inserted once if t' passes j: as long, plus one, and
      with the same positions, plus n. */
  ghost predicate SimRel(t: seq<nat>, t': seq<nat>, j: nat, n: nat) {
    && |t| == |t'| + (if j in t' then 1 else 0)
    && Elems(t) == Elems(t') + (if j in t' then {n} else {})
  }

  lemma SimCons(t: seq<nat>, t': seq<nat>, u: seq<nat>, u': seq<nat>, x: nat, j: nat, n: nat)
    requires t == [x] + u && t' == [x] + u' && x != j && x != n
    requires SimRel(u, u', j, n)
    ensures SimRel(t, t', j, n)
  {
    assert (j in t') == (j in u');
    assert Elems(t) == {x} + Elems(u);
    assert Elems(t') == {x} + Elems(u');
  }

  lemma SimAtJ(t: seq<nat>, t': seq<nat>, u: seq<nat>, u': seq<nat>, j: nat, n: nat)
    requires t == [j, n] + u && t' == [j] + u' && j !in u'
    requires SimRel(u, u', j, n)
    ensures SimRel(t, t', j, n)
  {
    assert Elems(t) == {j, n} + Elems(u);
    assert Elems(t') == {j} + Elems(u');
  }

  /** r is p with position n-1 taken out of its cycle: j, which mapped to
      n-1, maps to where n-1 went, and every other position keeps its
      image. */
  ghost predicate Redirected(p: seq<nat>, r: seq<nat>, j: nat) {
    && |p| > 0 && |r| == |p| - 1 && j < |r|
    && InRange(p) && InRange(r)
    && p[j] == |p| - 1 && r[j] == p[|p| - 1] && p[|p| - 1] < |p| - 1
    && (forall i :: 0 <= i < |r| && i != j ==> r[i] == p[i] && p[i] != |p| - 1)
  }

  lemma ReduceRedirected(p: seq<nat>)
    requires IsPerm(p) && |p| > 0 && p[|p| - 1] != |p| - 1
    ensures Redirected(p, Reduce(p), IndexOf(p, |p| - 1))
  {
    var n := |p| - 1;
    assert IndexOf(p, n) < n by {
      assert p[IndexOf(p, n)] == n != p[n];
    }
  }

  /** A walk from an unseen position x takes x and goes on from x's
      image. */
  lemma TraceStep(p: seq<nat>, seen: set<nat>, x: nat)
    requires InRange(p) && x < |p| && x !in seen
    ensures Trace(p, seen, x) == [x] + Trace(p, seen + {x}, p[x])
  {
  }

  lemma MarkCommutes(s: set<nat>, x: nat, n: nat)
    requires x != n
    ensures (s + {x}) - {n} == (s - {n}) + {x}
  {
  }

  /** A step of both walks from a position other than j and n-1. */
  lemma SimStepOther(p: seq<nat>, r: seq<nat>, j: nat, n: nat, s: set<nat>, x: nat)
    requires Redirected(p, r, j) && n == |r| && x < n && x !in s && x != j
    requires p[x] < n
    requires SimRel(Trace(p, s + {x}, p[x]), Trace(r, (s + {x}) - {n}, p[x]), j, n)
    ensures SimRel(Trace(p, s, x), Trace(r, s - {n}, x), j, n)
  {
    MarkCommutes(s, x, n);
    assert r[x] == p[x];
    TraceStep(p, s, x);
    TraceStep(r, s - {n}, x);
    SimCons(Trace(p, s, x), Trace(r, s - {n}, x),
            Trace(p, s + {x}, p[x]), Trace(r, (s - {n}) + {x}, r[x]), x, j, n);
  }

  /** A step of both walks from j: the walk over p passes n-1 as well. */
  lemma SimStepAtJ(p: seq<nat>, r: seq<nat>, j: nat, n: nat, s: set<nat>)
    requires Redirected(p, r, j) && n == |r| && j !in s && n !in s && p[n] < n
    requires SimRel(Trace(p, s + {j} + {n}, p[n]), Trace(r, (s + {j} + {n}) - {n}, p[n]), j, n)
    ensures SimRel(Trace(p, s, j), Trace(r, s - {n}, j), j, n)
  {
    var m := p[n];
    DropUnmarked(s, j, n);
    TraceStep(p, s, j);
    TraceStep(p, s + {j}, n);
    TraceStep(r, s, j);
    var u := Trace(p, s + {j} + {n}, m);
    var u' := Trace(r, s + {j}, m);
    TraceFresh(r, s + {j}, m);
    SimAtJ(Trace(p, s, j), Trace(r, s, j), u, u', j, n);
  }

  lemma DropUnmarked(s: set<nat>, j: nat, n: nat)
    requires n !in s && j != n
    ensures s - {n} == s && (s + {j} + {n}) - {n} == s + {j}
  {
  }

  /** A walk over p is the walk over r with n-1 put back after j. */
  lemma {:induction false} TraceRedirected(p: seq<nat>, r: seq<nat>, j: nat, n: nat, s: set<nat>, x: nat)
    requires Redirected(p, r, j) && n == |r| && x < n
    requires n in s <==> j in s
    ensures SimRel(Trace(p, s, x), Trace(r, s - {n}, x), j, n)
    decreases Below(|p|) - s
  {
    if x in s {
      assert Trace(p, s, x) == [] && Trace(r, s - {n}, x) == [];
    } else if x != j {
      TraceRedirected(p, r, j, n, s + {x}, p[x]);
      SimStepOther(p, r, j, n, s, x);
    } else {
      TraceRedirected(p, r, j, n, s + {j} + {n}, p[n]);
      SimStepAtJ(p, r, j, n, s);
    }
  }

  /** A walk over p is the walk over Reduce(p) with n-1 put back after j. */
  lemma TraceReduce(p: seq<nat>, s: set<nat>, x: nat)
    requires IsPerm(p) && |p| > 0 && p[|p| - 1] != |p| - 1
    requires x < |p| - 1 && Coupled(p, s)
    ensures SimRel(Trace(p, s, x), Trace(Reduce(p), s - {|p| - 1}, x), IndexOf(p, |p| - 1), |p| - 1)
  {
    ReduceRedirected(p);
    TraceRedirected(p, Reduce(p), IndexOf(p, |p| - 1), |p| - 1, s, x);
  }

  /** What the outer loop of `swaps` over p counts from position i on: the
      count over Reduce(p), plus one if j is not seen yet. */
  ghost predicate SwapsSim(p: seq<nat>, i: nat, s: set<nat>)
    requires IsPerm(p) && |p| > 0 && p[|p| - 1] != |p| - 1 && i <= |p| - 1
  {
    var n := |p| - 1;
    SwapsFrom(p, i, s) ==
      SwapsFrom(Reduce(p), i, s - {n}) + (if IndexOf(p, n) in s then 0 else 1)
  }

  /** A walk one longer because it passes j adds one transposition. */
  lemma WalkContribution(t: seq<nat>, t': seq<nat>, j: nat, n: nat)
    requires SimRel(t, t', j, n)
    ensures (if |t| > 1 then |t| - 1 else 0) ==
            (if |t'| > 1 then |t'| - 1 else 0) + (if j in t' then 1 else 0)
  {
  }

  /** One step of the outer loop keeps the seen sets coupled. */
  lemma CoupledStep(p: seq<nat>, i: nat, s: set<nat>)
    requires IsPerm(p) && |p| > 0 && p[|p| - 1] != |p| - 1
    requires i < |p| - 1 && Coupled(p, s)
    ensures Coupled(p, s + Elems(Trace(p, s, i)))
  {
    var n := |p| - 1;
    TraceReduce(p, s, i);
    TraceFresh(Reduce(p), s - {n}, i);
    assert n !in Elems(Trace(Reduce(p), s - {n}, i));
  }

  lemma SwapsSimStep(p: seq<nat>, i: nat, s: set<nat>)
    requires IsPerm(p) && |p| > 0 && p[|p| - 1] != |p| - 1
    requires i < |p| - 1 && Coupled(p, s)
    requires var s2 := s + Elems(Trace(p, s, i));
             SwapsSim(p, i + 1, s2)
    ensures SwapsSim(p, i, s)
  {
    var n := |p| - 1;
    var j := IndexOf(p, n);
    var r := Reduce(p);
    var t := Trace(p, s, i);
    var t' := Trace(r, s - {n}, i);
    TraceReduce(p, s, i);
    WalkContribution(t, t', j, n);
    TraceFresh(r, s - {n}, i);
    TraceFresh(p, s, i);
    var s2 := s + Elems(t);
    assert n !in Elems(t');
    assert s2 - {n} == (s - {n}) + Elems(t');
  }

  lemma {:induction false} SwapsFromReduce(p: seq<nat>, i: nat, s: set<nat>)
    requires IsPerm(p) && |p| > 0 && p[|p| - 1] != |p| - 1
    requires i <= |p| - 1 && Coupled(p, s)
    requires forall x :: 0 <= x < i ==> x in s
    ensures SwapsSim(p, i, s)
    decreases |p| - i
  {
    var n := |p| - 1;
    if i == n {
      assert IndexOf(p, n) in s && n in s;
      assert Trace(p, s, n) == [];
    } else {
      var t := Trace(p, s, i);
      TraceReduce(p, s, i);
      var s2 := s + Elems(t);
      assert i in s2 by {
        if i !in s {
          assert t == [i] + Trace(p, s + {i}, p[i]);
        }
      }
      CoupledStep(p, i, s);
      SwapsFromReduce(p, i + 1, s2);
      SwapsSimStep(p, i, s);
    }
  }

  /** Taking a non-fixed largest position out of its cycle removes exactly
      one transposition. */
  lemma SwapsReduce(p: seq<nat>)
    requires IsPerm(p) && |p| > 0 && p[|p| - 1] != |p| - 1
    ensures IsPerm(Reduce(p))
    ensures Swaps(p) == Swaps(Reduce(p)) + 1
  {
    ReduceIsPerm(p);
    SwapsFromReduce(p, 0, {});
    assert SwapsSim(p, 0, {});
    assert {} - {|p| - 1} == {};
  }

  // ---------------------------------------------------------------------
  // Exchanging two entries

  /** Exchanging two entries below n-1 commutes with reducing. */
  lemma ReduceSwapped(p: seq<nat>, a: nat, b: nat)
    requires IsPerm(p) && |p| > 0 && p[|p| - 1] != |p| - 1
    requires a < |p| - 1 && b < |p| - 1
    ensures IsPerm(Swapped(p, a, b))
    ensures Reduce(Swapped(p, a, b)) == Swapped(Reduce(p), a, b)
  {
    var n := |p| - 1;
    var j := IndexOf(p, n);
    assert j < n by {
      assert p[j] == n != p[n];
    }
    var k := if j == a then b else if j == b then a else j;
    IndexAfterSwap(p, a, b, k);
    RedirectSwapped(p, j, a, b, k);
    assert Reduce(p) == Redirect(p, j);
    assert Reduce(Swapped(p, a, b)) == Redirect(Swapped(p, a, b), k);
  }

  /** Redirecting after an exchange is exchanging after redirecting, once
      the redirected position follows the exchange. */
  lemma RedirectSwapped(p: seq<nat>, j: nat, a: nat, b: nat, k: nat)
    requires j < |p| - 1 && a < |p| - 1 && b < |p| - 1
    requires k == if j == a then b else if j == b then a else j
    ensures Redirect(Swapped(p, a, b), k) == Swapped(Redirect(p, j), a, b)
  {
    var l, r := Redirect(Swapped(p, a, b), k), Swapped(Redirect(p, j), a, b);
    forall x | 0 <= x < |l|
      ensures l[x] == r[x]
    {
    }
  }

  /** Where n-1 sits after the exchange. */
  lemma IndexAfterSwap(p: seq<nat>, a: nat, b: nat, k: nat)
    requires IsPerm(p) && |p| > 0 && a < |p| - 1 && b < |p| - 1
    requires var j := IndexOf(p, |p| - 1); k == if j == a then b else if j == b then a else j
    ensures IsPerm(Swapped(p, a, b)) && IndexOf(Swapped(p, a, b), |p| - 1) == k
  {
    SwappedIsPerm(p, a, b);
    var q := Swapped(p, a, b);
    assert q[k] == |p| - 1;
    IndexOfPerm(q, k);
  }

  /** Exchanging the last entry with the one of a fixed last position moves
      n-1 to position a, and reducing undoes the exchange. */
  lemma ReduceSwappedLastFixed(p: seq<nat>, a: nat)
    requires IsPerm(p) && a < |p| - 1 && p[|p| - 1] == |p| - 1
    ensures IsPerm(Swapped(p, a, |p| - 1))
    ensures Swapped(p, a, |p| - 1)[|p| - 1] != |p| - 1
    ensures Reduce(Swapped(p, a, |p| - 1)) == p[..|p| - 1]
  {
    var n := |p| - 1;
    SwappedIsPerm(p, a, n);
    IndexOfPerm(Swapped(p, a, n), a);
  }

  /** Exchanging the last entry with the one of an other position than j
      is reducing followed by exchanging a and j. */
  lemma ReduceSwappedLast(p: seq<nat>, a: nat)
    requires IsPerm(p) && a < |p| - 1 && p[|p| - 1] != |p| - 1
    requires a != IndexOf(p, |p| - 1)
    ensures IsPerm(Swapped(p, a, |p| - 1))
    ensures Swapped(p, a, |p| - 1)[|p| - 1] != |p| - 1
    ensures Reduce(Swapped(p, a, |p| - 1)) == Swapped(Reduce(p), a, IndexOf(p, |p| - 1))
  {
    var n := |p| - 1;
    var j := IndexOf(p, n);
    SwappedIsPerm(p, a, n);
    var q := Swapped(p, a, n);
    assert q[j] == n;
    IndexOfPerm(q, j);
  }

  /** Exchanging two distinct entries of a permutation changes `swaps` by
      exactly one, so it flips the parity. */
  lemma {:induction false} SwapsExchange(p: seq<nat>, a: nat, b: nat)
    requires IsPerm(p) && a < |p| && b < |p| && a != b
    ensures IsPerm(Swapped(p, a, b))
    ensures Swaps(Swapped(p, a, b)) == Swaps(p) + 1 ||
            Swaps(Swapped(p, a, b)) + 1 == Swaps(p)
    decreases |p|, 1
  {
    SwappedIsPerm(p, a, b);
    var n := |p| - 1;
    var q := Swapped(p, a, b);
    if a == n {
      SwappedSymmetric(p, a, b);
      SwapsExchangeLast(p, b);
    } else if b == n {
      SwapsExchangeLast(p, a);
    } else if p[n] == n {
      SwapsDropFixed(p);
      SwapsDropFixed(q);
      assert q[..n] == Swapped(p[..n], a, b);
      SwapsExchange(p[..n], a, b);
    } else {
      ReduceSwapped(p, a, b);
      SwapsReduce(p);
      SwapsReduce(q);
      SwapsExchange(Reduce(p), a, b);
    }
  }

  /** The case of SwapsExchange where one of the entries is the last. */
  lemma {:induction false} SwapsExchangeLast(p: seq<nat>, a: nat)
    requires IsPerm(p) && a < |p| - 1
    ensures IsPerm(Swapped(p, a, |p| - 1))
    ensures Swaps(Swapped(p, a, |p| - 1)) == Swaps(p) + 1 ||
            Swaps(Swapped(p, a, |p| - 1)) + 1 == Swaps(p)
    decreases |p|, 0
  {
    var n := |p| - 1;
    SwappedIsPerm(p, a, n);
    var q := Swapped(p, a, n);
    if p[n] == n {
      ReduceSwappedLastFixed(p, a);
      SwapsReduce(q);
      SwapsDropFixed(p);
    } else {
      var j := IndexOf(p, n);
      SwapsReduce(p);
      if a == j {
        SwapsDropFixed(q);
        assert q[..n] == Reduce(p);
      } else {
        ReduceSwappedLast(p, a);
        SwapsReduce(q);
        SwapsExchange(Reduce(p), a, j);
      }
    }
  }

  /** Exchanging the first two entries flips the parity of `swaps`. */
  lemma SwapFirstTwoFlipsParity(p: seq<nat>)
    requires IsPerm(p) && |p| >= 2
    ensures IsPerm(Swapped(p, 0, 1))
    ensures Swaps(Swapped(p, 0, 1)) % 2 != Swaps(p) % 2
  {
    SwapsExchange(p, 0, 1);
  }

  /** The identity array needs no transposition. */
  lemma {:induction false} SwapsIdentity(n: nat)
    ensures Swaps(Iota(n)) == 0
  {
    IdentityIsPerm(n);
    if n > 0 {
      SwapsDropFixed(Iota(n));
      assert Iota(n)[..n - 1] == Iota(n - 1);
      SwapsIdentity(n - 1);
    }
  }
}
