/** The cycle engine: `cycles` and `swaps`.

    Both scan positions 0, 1, ..., n-1 in order. From every position they
    follow the array (j := perm[j]), marking each visited position in a
    "seen" set, until they reach a position already seen. `cycles` keeps
    the visited positions of every walk longer than one; `swaps` adds up
    (length - 1) of those walks. */
module Cycles {
  import opened Outcomes
  import opened Perms

  /** The positions below n. */
  ghost function Below(n: nat): (r: set<nat>)
    ensures forall x: nat :: x in r <==> x < n
  {
    IotaMembers(n);
    set x | x in Iota(n)
  }

  /** The values of a sequence, as a set. */
  function Elems(t: seq<nat>): set<nat> {
    set x | x in t
  }

  /** One inner walk: the positions visited from j, in order, until a seen
      one is reached. */
  function Trace(p: seq<nat>, seen: set<nat>, j: nat): seq<nat>
    requires InRange(p) && j < |p|
    decreases Below(|p|) - seen
  {
    if j in seen then [] else [j] + Trace(p, seen + {j}, p[j])
  }

  /** The outer loop of `cycles` from position i on, with `seen` marked. */
  function CyclesFrom(p: seq<nat>, i: nat, seen: set<nat>): seq<seq<nat>>
    requires InRange(p) && i <= |p|
    decreases |p| - i
  {
    if i == |p| then []
    else
      var t := Trace(p, seen, i);
      var rest := CyclesFrom(p, i + 1, seen + Elems(t));
      if |t| > 1 then [t] + rest else rest
  }

  /** `cycles(perm)`: the disjoint cycles of length two or more. */
  function CyclesOf(p: seq<nat>): (cs: seq<seq<nat>>)
    requires InRange(p)
    ensures forall k :: 0 <= k < |cs| ==> |cs[k]| >= 2
  {
    SwapsFromCounts(p, 0, {});
    CyclesFrom(p, 0, {})
  }

  /** The outer loop of `swaps` from position i on, with `seen` marked. */
  function SwapsFrom(p: seq<nat>, i: nat, seen: set<nat>): nat
    requires InRange(p) && i <= |p|
    decreases |p| - i
  {
    if i == |p| then 0
    else
      var t := Trace(p, seen, i);
      var rest := SwapsFrom(p, i + 1, seen + Elems(t));
      if |t| > 1 then |t| - 1 + rest else rest
  }

  /** `swaps(perm)`: the number of transpositions in the cycle
      decomposition. */
  function Swaps(p: seq<nat>): (r: nat)
    requires InRange(p)
    ensures r >= |CyclesOf(p)|
    ensures r == 0 <==> CyclesOf(p) == []
  {
    SwapsFromCounts(p, 0, {});
    SwapsFrom(p, 0, {})
  }

  /** Every walk the outer loops keep is longer than one, and adds at least
      one transposition. */
  lemma {:induction false} SwapsFromCounts(p: seq<nat>, i: nat, seen: set<nat>)
    requires InRange(p) && i <= |p|
    ensures var cs := CyclesFrom(p, i, seen);
            forall k :: 0 <= k < |cs| ==> |cs[k]| >= 2
    ensures SwapsFrom(p, i, seen) >= |CyclesFrom(p, i, seen)|
    ensures SwapsFrom(p, i, seen) == 0 <==> CyclesFrom(p, i, seen) == []
    decreases |p| - i
  {
    if i < |p| {
      var t := Trace(p, seen, i);
      SwapsFromCounts(p, i + 1, seen + Elems(t));
    }
  }

  // ---------------------------------------------------------------------
  // Vocabulary for the properties of the decomposition

  /** c is a cycle of p: at least two distinct positions, each mapped by p
      to the next one and the last one back to the first. */
  ghost predicate IsCycleOf(p: seq<nat>, c: seq<nat>) {
    && |c| >= 2
    && (forall k :: 0 <= k < |c| ==> c[k] < |p|)
    && Distinct(c)
    && (forall k :: 0 <= k < |c| - 1 ==> p[c[k]] == c[k + 1])
    && p[c[|c| - 1]] == c[0]
  }

  /** The cycle starts at its smallest position. */
  ghost predicate StartsAtMin(c: seq<nat>) {
    |c| > 0 && forall k :: 0 <= k < |c| ==> c[0] <= c[k]
  }

  /** All positions named by a list of cycles. */
  function Covered(cs: seq<seq<nat>>): set<nat> {
    if |cs| == 0 then {} else Elems(cs[0]) + Covered(cs[1..])
  }

  /** The positions p moves. */
  ghost function Moved(p: seq<nat>): set<nat> {
    set x: nat | x < |p| && p[x] != x
  }

  /** S is mapped into itself by p and by p's inverse. */
  ghost predicate Closed(p: seq<nat>, s: set<nat>) {
    forall x :: 0 <= x < |p| ==> (x in s <==> p[x] in s)
  }

  /** The list describes cycles of p, each starting at its minimum, sorted by
      that minimum, pairwise disjoint. */
  ghost predicate WellFormedCycles(p: seq<nat>, cs: seq<seq<nat>>) {
    && (forall a :: 0 <= a < |cs| ==> IsCycleOf(p, cs[a]) && StartsAtMin(cs[a]))
    && (forall a, b :: 0 <= a < b < |cs| ==> cs[a][0] < cs[b][0])
    && (forall a, b :: 0 <= a < b < |cs| ==> Elems(cs[a]) !! Elems(cs[b]))
  }

  // ---------------------------------------------------------------------
  // Walks

  /** Every position a walk visits is a valid, unseen position. */
  lemma TraceFresh(p: seq<nat>, seen: set<nat>, j: nat)
    requires InRange(p) && j < |p|
    ensures forall k :: 0 <= k < |Trace(p, seen, j)| ==>
              Trace(p, seen, j)[k] < |p| && Trace(p, seen, j)[k] !in seen
    decreases Below(|p|) - seen
  {
    if j !in seen {
      TraceFresh(p, seen + {j}, p[j]);
    }
  }

  /** A walk that has already visited the distinct, consecutive positions w
      (starting outside a closed set S) ends exactly when it comes back to
      w[0], and never revisits a position. */
  lemma {:induction false} TraceCloses(p: seq<nat>, s: set<nat>, w: seq<nat>)
    requires IsPerm(p) && Closed(p, s)
    requires |w| >= 1 && Distinct(w)
    requires forall k :: 0 <= k < |w| ==> w[k] < |p| && w[k] !in s
    requires forall k :: 0 <= k < |w| - 1 ==> p[w[k]] == w[k + 1]
    ensures var c := w + Trace(p, s + Elems(w), p[w[|w| - 1]]);
            && Distinct(c)
            && (forall k :: 0 <= k < |c| ==> c[k] < |p| && c[k] !in s)
            && (forall k :: 0 <= k < |c| - 1 ==> p[c[k]] == c[k + 1])
            && p[c[|c| - 1]] == c[0]
    decreases Below(|p|) - (s + Elems(w))
  {
    var last := w[|w| - 1];
    var j := p[last];
    var seen := s + Elems(w);
    if j in seen {
      WalkReturns(p, s, w);
      assert Trace(p, seen, j) == [];
      assert w + Trace(p, seen, j) == w;
    } else {
      var w' := w + [j];
      WalkExtend(p, s, w);
      TraceCloses(p, s, w');
      assert Trace(p, seen, j) == [j] + Trace(p, seen + {j}, p[j]);
      assert w + Trace(p, seen, j) == w' + Trace(p, s + Elems(w'), p[w'[|w'| - 1]]);
    }
  }

  /** A walk whose next position is unseen can take it. */
  lemma WalkExtend(p: seq<nat>, s: set<nat>, w: seq<nat>)
    requires IsPerm(p) && |w| >= 1 && Distinct(w)
    requires forall k :: 0 <= k < |w| ==> w[k] < |p| && w[k] !in s
    requires forall k :: 0 <= k < |w| - 1 ==> p[w[k]] == w[k + 1]
    requires p[w[|w| - 1]] !in s + Elems(w)
    ensures var w' := w + [p[w[|w| - 1]]];
            && Distinct(w')
            && (forall k :: 0 <= k < |w'| ==> w'[k] < |p| && w'[k] !in s)
            && (forall k :: 0 <= k < |w'| - 1 ==> p[w'[k]] == w'[k + 1])
            && s + Elems(w') == s + Elems(w) + {p[w[|w| - 1]]}
            && Below(|p|) - (s + Elems(w')) < Below(|p|) - (s + Elems(w))
  {
    var j := p[w[|w| - 1]];
    var w' := w + [j];
    assert Elems(w') == Elems(w) + {j};
    assert j in Below(|p|);
  }

  /** A walk whose next position is already seen comes back to its start:
      the seen positions outside w are closed, and every position of w but
      the first already has its predecessor in w. */
  lemma WalkReturns(p: seq<nat>, s: set<nat>, w: seq<nat>)
    requires IsPerm(p) && Closed(p, s)
    requires |w| >= 1 && Distinct(w)
    requires forall k :: 0 <= k < |w| ==> w[k] < |p| && w[k] !in s
    requires forall k :: 0 <= k < |w| - 1 ==> p[w[k]] == w[k + 1]
    requires p[w[|w| - 1]] in s + Elems(w)
    ensures p[w[|w| - 1]] == w[0]
  {
    var last := w[|w| - 1];
    var j := p[last];
    assert j !in s;
    forall m | 0 < m < |w|
      ensures w[m] != j
    {
      assert w[m - 1] != last;
    }
  }

  /** The walk from an unseen position of a permutation, when everything seen
      so far is closed, is exactly the cycle through that position, and the
      seen set stays closed. */
  lemma TraceIsCycle(p: seq<nat>, s: set<nat>, i: nat)
    requires IsPerm(p) && Closed(p, s) && i < |p| && i !in s
    ensures var t := Trace(p, s, i);
            && |t| >= 1 && t[0] == i
            && Distinct(t)
            && (forall k :: 0 <= k < |t| ==> t[k] < |p| && t[k] !in s)
            && (forall k :: 0 <= k < |t| - 1 ==> p[t[k]] == t[k + 1])
            && p[t[|t| - 1]] == i
            && Closed(p, s + Elems(t))
  {
    assert Elems([i]) == {i};
    TraceCloses(p, s, [i]);
    var t := Trace(p, s, i);
    assert t == [i] + Trace(p, s + {i}, p[i]);
    var s' := s + Elems(t);
    forall x | 0 <= x < |p|
      ensures x in s' <==> p[x] in s'
    {
      if x in Elems(t) {
        var k :| 0 <= k < |t| && t[k] == x;
        if k < |t| - 1 {
          assert p[x] == t[k + 1];
        } else {
          assert p[x] == t[0];
        }
      }
      if p[x] in Elems(t) && p[x] !in s {
        var k :| 0 <= k < |t| && t[k] == p[x];
        if k > 0 {
          assert p[t[k - 1]] == p[x];
          assert x == t[k - 1];
        } else {
          assert p[t[|t| - 1]] == p[x];
          assert x == t[|t| - 1];
        }
      }
    }
  }

  lemma CoveredAppend(c: seq<nat>, cs: seq<seq<nat>>)
    ensures Covered([c] + cs) == Elems(c) + Covered(cs)
  {
    assert ([c] + cs)[1..] == cs;
  }

  lemma CoveredMember(cs: seq<seq<nat>>, a: nat, x: nat)
    requires a < |cs| && x in cs[a]
    ensures x in Covered(cs)
  {
    if a > 0 {
      CoveredMember(cs[1..], a - 1, x);
    }
  }

  lemma CoveredHas(cs: seq<seq<nat>>, x: nat)
    requires x in Covered(cs)
    ensures exists a :: 0 <= a < |cs| && x in cs[a]
  {
    if x !in Elems(cs[0]) {
      CoveredHas(cs[1..], x);
      var a :| 0 <= a < |cs[1..]| && x in cs[1..][a];
      assert x in cs[a + 1];
    }
  }

  /** Loop state of `cycles` at position i: every position below i is seen
      and the seen set is closed. */
  ghost predicate LoopState(p: seq<nat>, i: nat, s: set<nat>) {
    IsPerm(p) && i <= |p| && Closed(p, s) && forall x :: 0 <= x < i ==> x in s
  }

  /** One step of the outer loop keeps the loop state. */
  lemma StepKeepsState(p: seq<nat>, i: nat, s: set<nat>)
    requires LoopState(p, i, s) && i < |p|
    ensures LoopState(p, i + 1, s + Elems(Trace(p, s, i)))
  {
    if i !in s {
      TraceIsCycle(p, s, i);
      assert i in Elems(Trace(p, s, i));
    }
  }

  /** A walk from an unseen position i visits only positions >= i. */
  lemma TraceAboveStart(p: seq<nat>, i: nat, s: set<nat>)
    requires LoopState(p, i, s) && i < |p| && i !in s
    ensures forall k :: 0 <= k < |Trace(p, s, i)| ==> Trace(p, s, i)[k] >= i
  {
    TraceIsCycle(p, s, i);
    var t := Trace(p, s, i);
  }

  /** What the outer loop of `cycles` guarantees from position i on: well
      formed cycles of unseen positions, each starting at or after i. */
  ghost predicate ShapeFrom(p: seq<nat>, i: nat, s: set<nat>, cs: seq<seq<nat>>) {
    && WellFormedCycles(p, cs)
    && (forall a :: 0 <= a < |cs| ==> cs[a][0] >= i && Elems(cs[a]) !! s)
  }

  /** Putting a cycle that starts at i, avoids S and precedes the remaining
      cycles in front of them keeps the shape. */
  lemma ShapePrepend(p: seq<nat>, i: nat, s: set<nat>, t: seq<nat>, rest: seq<seq<nat>>)
    requires IsCycleOf(p, t) && StartsAtMin(t) && t[0] == i && Elems(t) !! s
    requires ShapeFrom(p, i + 1, s + Elems(t), rest)
    ensures ShapeFrom(p, i, s, [t] + rest)
  {
    var cs := [t] + rest;
    forall a, b | 0 <= a < b < |cs|
      ensures cs[a][0] < cs[b][0] && Elems(cs[a]) !! Elems(cs[b])
    {
      if a == 0 {
        assert cs[b] == rest[b - 1];
      } else {
        assert cs[a] == rest[a - 1] && cs[b] == rest[b - 1];
      }
    }
  }

  /** A shape guaranteed from a later position and a larger seen set holds
      from an earlier one. */
  lemma ShapeWeaken(p: seq<nat>, i: nat, s: set<nat>, s': set<nat>, cs: seq<seq<nat>>)
    requires s <= s' && ShapeFrom(p, i + 1, s', cs)
    ensures ShapeFrom(p, i, s, cs)
  {
  }

  /** One step of the outer loop keeps the shape of the cycles it yields. */
  lemma ShapeStep(p: seq<nat>, i: nat, s: set<nat>)
    requires LoopState(p, i, s) && i < |p|
    requires var s' := s + Elems(Trace(p, s, i));
             ShapeFrom(p, i + 1, s', CyclesFrom(p, i + 1, s'))
    ensures ShapeFrom(p, i, s, CyclesFrom(p, i, s))
  {
    var t := Trace(p, s, i);
    var s' := s + Elems(t);
    var rest := CyclesFrom(p, i + 1, s');
    if i !in s && |t| > 1 {
      TraceIsCycle(p, s, i);
      TraceAboveStart(p, i, s);
      ShapePrepend(p, i, s, t, rest);
    } else {
      ShapeWeaken(p, i, s, s', rest);
    }
  }

  /** The outer loop of `cycles` yields well-formed cycles of unseen
      positions, each starting at or after i. */
  lemma {:induction false} CyclesFromShape(p: seq<nat>, i: nat, s: set<nat>)
    requires LoopState(p, i, s)
    ensures ShapeFrom(p, i, s, CyclesFrom(p, i, s))
    decreases |p| - i
  {
    if i < |p| {
      StepKeepsState(p, i, s);
      CyclesFromShape(p, i + 1, s + Elems(Trace(p, s, i)));
      ShapeStep(p, i, s);
    }
  }

  /** A walk of length two or more moves every position it visits; a walk of
      length one is a fixed point. */
  lemma TraceMoved(p: seq<nat>, i: nat, s: set<nat>)
    requires LoopState(p, i, s) && i < |p| && i !in s
    ensures |Trace(p, s, i)| > 1 ==> Elems(Trace(p, s, i)) <= Moved(p) - s
    ensures |Trace(p, s, i)| == 1 ==> i !in Moved(p) && Elems(Trace(p, s, i)) == {i}
  {
    TraceIsCycle(p, s, i);
    var t := Trace(p, s, i);
    if |t| > 1 {
      forall x | x in Elems(t)
        ensures x in Moved(p) && x !in s
      {
        var k :| 0 <= k < |t| && t[k] == x;
        if k < |t| - 1 {
          assert p[x] == t[k + 1];
        } else {
          assert p[x] == t[0];
        }
      }
    } else {
      assert t == [i];
    }
  }

  /** The cycles cover exactly the moved positions outside S. */
  ghost predicate CoverFrom(p: seq<nat>, s: set<nat>, cs: seq<seq<nat>>) {
    Covered(cs) == Moved(p) - s
  }

  lemma AllSeenAtEnd(p: seq<nat>, s: set<nat>)
    requires LoopState(p, |p|, s)
    ensures CoverFrom(p, s, [])
  {
    assert Moved(p) <= s;
  }

  /** One step of the outer loop of `cycles`: if the remaining cycles cover
      the moved positions still unseen after position i, then so do the
      cycles from position i on. */
  lemma CoverStep(p: seq<nat>, i: nat, s: set<nat>)
    requires LoopState(p, i, s) && i < |p|
    requires var s' := s + Elems(Trace(p, s, i));
             CoverFrom(p, s', CyclesFrom(p, i + 1, s'))
    ensures CoverFrom(p, s, CyclesFrom(p, i, s))
  {
    var t := Trace(p, s, i);
    if i in s {
      assert t == [];
      assert s + Elems(t) == s;
    } else {
      TraceMoved(p, i, s);
      if |t| > 1 {
        CoveredAppend(t, CyclesFrom(p, i + 1, s + Elems(t)));
      }
    }
  }

  /** The cycles the outer loop yields cover exactly the unseen moved
      positions. */
  lemma {:induction false} CyclesFromCover(p: seq<nat>, i: nat, s: set<nat>)
    requires LoopState(p, i, s)
    ensures CoverFrom(p, s, CyclesFrom(p, i, s))
    decreases |p| - i
  {
    if i == |p| {
      AllSeenAtEnd(p, s);
    } else {
      StepKeepsState(p, i, s);
      CyclesFromCover(p, i + 1, s + Elems(Trace(p, s, i)));
      CoverStep(p, i, s);
    }
  }

  /** `cycles(perm)` returns pairwise disjoint cycles of perm, each of length
      at least two and starting at its smallest position, in ascending order
      of those positions, covering exactly the positions perm moves. */
  lemma CyclesOfSound(p: seq<nat>)
    requires IsPerm(p)
    ensures WellFormedCycles(p, CyclesOf(p))
    ensures Covered(CyclesOf(p)) == Moved(p)
  {
    CyclesFromShape(p, 0, {});
    CyclesFromCover(p, 0, {});
  }

  /** No cycles exactly for the identity array. */
  lemma CyclesEmptyIffIdentity(p: seq<nat>)
    requires IsPerm(p)
    ensures CyclesOf(p) == [] <==> p == Iota(|p|)
  {
    CyclesOfSound(p);
    var cs := CyclesOf(p);
    if cs == [] {
      forall x | 0 <= x < |p|
        ensures p[x] == x
      {
        assert x !in Moved(p);
      }
    }
    if p == Iota(|p|) {
      assert Moved(p) == {};
    }
  }

  // ---------------------------------------------------------------------
  // Transposition count

  /** Sum of (length - 1) over a list of cycles. */
  function CycleSwaps(cs: seq<seq<nat>>): int {
    if |cs| == 0 then 0 else |cs[0]| - 1 + CycleSwaps(cs[1..])
  }

  lemma {:induction false} SwapsFromIsSum(p: seq<nat>, i: nat, s: set<nat>)
    requires InRange(p) && i <= |p|
    ensures SwapsFrom(p, i, s) == CycleSwaps(CyclesFrom(p, i, s))
    decreases |p| - i
  {
    if i < |p| {
      var t := Trace(p, s, i);
      SwapsFromIsSum(p, i + 1, s + Elems(t));
      var rest := CyclesFrom(p, i + 1, s + Elems(t));
      if |t| > 1 {
        assert ([t] + rest)[1..] == rest;
      }
    }
  }

  /** `swaps(perm)` is the sum of (length - 1) over `cycles(perm)`. */
  lemma SwapsIsCycleSum(p: seq<nat>)
    requires InRange(p)
    ensures Swaps(p) == CycleSwaps(CyclesOf(p))
  {
    SwapsFromIsSum(p, 0, {});
  }

  // ---------------------------------------------------------------------
  // `swaps` as written in group.ts

  /** The group.ts copy of `swaps` declares its counter constant, so adding
      the first walk longer than one throws a TypeError instead. */
  function SwapsConstFrom(p: seq<nat>, i: nat, seen: set<nat>): (r: Result<nat>)
    requires InRange(p) && i <= |p|
    decreases |p| - i
  {
    if i == |p| then Ok(0)
    else
      var t := Trace(p, seen, i);
      if |t| > 1 then Failure("Assignment to constant variable.")
      else SwapsConstFrom(p, i + 1, seen + Elems(t))
  }

  function SwapsAsWritten(p: seq<nat>): (r: Result<nat>)
    requires InRange(p)
    ensures r.Failure? <==> CyclesOf(p) != []
    ensures r.Ok? ==> r.value == 0
  {
    SwapsConstFromFails(p, 0, {});
    SwapsFromCounts(p, 0, {});
    SwapsConstFrom(p, 0, {})
  }

  /** The copy throws exactly when `cycles` finds a cycle, and otherwise
      agrees with `swaps`. */
  lemma {:induction false} SwapsConstFromFails(p: seq<nat>, i: nat, s: set<nat>)
    requires InRange(p) && i <= |p|
    ensures SwapsConstFrom(p, i, s).Failure? <==> CyclesFrom(p, i, s) != []
    ensures SwapsConstFrom(p, i, s).Ok? ==> SwapsConstFrom(p, i, s).value == SwapsFrom(p, i, s)
    decreases |p| - i
  {
    if i < |p| {
      var t := Trace(p, s, i);
      SwapsConstFromFails(p, i + 1, s + Elems(t));
    }
  }

  /** On a permutation the group.ts copy throws for every array but the
      identity; only there does it return, and then it agrees with
      `swaps`. */
  lemma SwapsAsWrittenThrows(p: seq<nat>)
    requires IsPerm(p)
    ensures SwapsAsWritten(p).Failure? <==> p != Iota(|p|)
    ensures SwapsAsWritten(p).Ok? ==> SwapsAsWritten(p).value == Swaps(p) == 0
  {
    SwapsConstFromFails(p, 0, {});
    CyclesEmptyIffIdentity(p);
    SwapsIsCycleSum(p);
  }

  /** The single exchange of degree two: `swaps` counts one transposition,
      the group.ts copy throws. */
  lemma SwapsAsWrittenExample()
    ensures SwapsAsWritten([1, 0]).Failure? && Swaps([1, 0]) == 1
  {
    var p: seq<nat> := [1, 0];
    assert Trace(p, {}, 0) == [0, 1] by {
      assert Trace(p, {0, 1}, 0) == [];
      assert Trace(p, {0}, 1) == [1];
    }
    assert Elems([0, 1]) == {0, 1};
    assert Trace(p, {0, 1}, 1) == [];
  }
}
