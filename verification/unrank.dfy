/** The permutation unrank codec: `pick` and `permutation`.

    A rank p is decoded as follows. Its low bit is the required parity. The
    rest of p is read as mixed-radix digits with radices n, n-1, ..., 1,
    least significant first; each digit picks a value out of the "remaining
    values" array, and the picked values are placed at positions n-1 down to
    0. The remaining-values array is materialised lazily: an empty slot k
    stands for the value k, and removing a value moves the last slot's value
    into its place before popping the last slot. Finally, if the parity of
    the result (as counted by `swaps`) disagrees with the low bit, entries 0
    and 1 are exchanged. */
module Unrank {
  import opened Outcomes
  import opened Perms
  import opened Cycles
  import opened Parity

  /** One slot of the remaining-values array. */
  datatype Slot = Hole | Held(value: nat)

  /** The value slot k stands for. */
  function Value(rest: seq<Slot>, k: nat): nat
    requires k < |rest|
  {
    match rest[k]
    case Hole => k
    case Held(v) => v
  }

  /** The values the remaining-values array stands for, slot by slot. */
  function Contents(rest: seq<Slot>): (c: seq<nat>)
    ensures |c| == |rest|
    ensures forall k :: 0 <= k < |rest| ==> c[k] == Value(rest, k)
  {
    seq(|rest|, k requires 0 <= k < |rest| => Value(rest, k))
  }

  /** `new Array(n)`: n empty slots. */
  function Holes(n: nat): (r: seq<Slot>)
    ensures |r| == n && Contents(r) == Iota(n)
  {
    seq(n, _ => Hole)
  }

  /** Removing slot k by moving the last value into it keeps every other
      value. */
  lemma SwapRemoveMultiset(c: seq<nat>, k: nat)
    requires k < |c|
    ensures multiset(c[k := c[|c| - 1]][..|c| - 1]) + multiset{c[k]} == multiset(c)
  {
    var n := |c| - 1;
    var d := c[k := c[n]];
    assert d == d[..n] + [d[n]];
    assert c == c[..n] + [c[n]];
    if k < n {
      assert c == c[..k] + [c[k]] + c[k + 1..];
      assert d == c[..k] + [c[n]] + c[k + 1..];
    }
  }

  /** `pick(i, arr)`: takes the value at virtual index len-1-i out of the
      remaining-values array and shortens the array by one. */
  function Pick(i: nat, rest: seq<Slot>): (res: (nat, seq<Slot>))
    requires i < |rest|
    ensures var k := |rest| - 1 - i;
            var c := Contents(rest);
            && res.0 == c[k]
            && |res.1| == |rest| - 1
            && Contents(res.1) == c[k := c[|rest| - 1]][..|rest| - 1]
            && multiset(Contents(res.1)) + multiset{res.0} == multiset(c)
  {
    var n := |rest| - 1;
    var k := n - i;
    var result := Value(rest, k);
    var arr := if k < n then rest[k := Held(Value(rest, n))] else rest;
    var res := (result, arr[..n]);
    SwapRemoveMultiset(Contents(rest), k);
    PickedContents(rest, k);
    res
  }

  /** The slots left by `pick` stand for the values with slot k's replaced
      by the last one, the last dropped. */
  lemma PickedContents(rest: seq<Slot>, k: nat)
    requires k < |rest|
    ensures var n := |rest| - 1;
            var arr := if k < n then rest[k := Held(Value(rest, n))] else rest;
            Contents(arr[..n]) == Contents(rest)[k := Contents(rest)[n]][..n]
  {
    var n := |rest| - 1;
    var arr := if k < n then rest[k := Held(Value(rest, n))] else rest;
    var a, b := Contents(arr[..n]), Contents(rest)[k := Contents(rest)[n]][..n];
    forall t | 0 <= t < n
      ensures a[t] == b[t]
    {
    }
  }

  /** The lowest digit of q in radix m. */
  function Digit(q: nat, m: nat): (d: nat)
    requires m > 0
    ensures d < m
  {
    q % m
  }

  /** q with its lowest radix-m digit removed. */
  function Shift(q: nat, m: nat): nat
    requires m > 0
  {
    q / m
  }

  /** The loop of `permutation` over the remaining digits q: the values it
      places at positions 0 .. |rest|-1. */
  function Fill(rest: seq<Slot>, q: nat): (perm: seq<nat>)
    ensures |perm| == |rest|
    ensures multiset(perm) == multiset(Contents(rest))
    decreases |rest|
  {
    if |rest| == 0 then []
    else
      var m := |rest|;
      var (v, rest') := Pick(Digit(q, m), rest);
      Fill(rest', Shift(q, m)) + [v]
  }

  /** The loop of `permutation` as it runs: `placed` holds the values
      already written to positions |rest| .. n-1. */
  function FillOnto(rest: seq<Slot>, q: nat, placed: seq<nat>): seq<nat>
    decreases |rest|
  {
    if |rest| == 0 then placed
    else
      var m := |rest|;
      var (v, rest') := Pick(Digit(q, m), rest);
      FillOnto(rest', Shift(q, m), [v] + placed)
  }

  /** Running the loop to the end puts the filled positions in front of
      those already placed. */
  lemma {:induction false} FillOntoIsFill(rest: seq<Slot>, q: nat, placed: seq<nat>)
    ensures FillOnto(rest, q, placed) == Fill(rest, q) + placed
    decreases |rest|
  {
    if |rest| > 0 {
      var m := |rest|;
      var (v, rest') := Pick(Digit(q, m), rest);
      FillOntoIsFill(rest', Shift(q, m), [v] + placed);
      assert Fill(rest', Shift(q, m)) + ([v] + placed)
          == (Fill(rest', Shift(q, m)) + [v]) + placed;
    }
  }

  /** Filling all n empty slots yields a permutation of degree n. */
  lemma FillHolesIsPerm(n: nat, q: nat)
    ensures |Fill(Holes(n), q)| == n && IsPerm(Fill(Holes(n), q))
  {
    PermFromMultiset(Fill(Holes(n), q));
  }

  /** A permutation of degree below two is the identity and has no
      transposition. */
  lemma SwapsShort(p: seq<nat>)
    requires IsPerm(p) && |p| < 2
    ensures Swaps(p) == 0
  {
    assert p == Iota(|p|);
    SwapsIdentity(|p|);
  }

  /** `permutation(n, p)`, the decoded permutation array of rank p. Below
      degree two an odd rank would make the source exchange entries of an
      array too short to have them, so such ranks are excluded. */
  function Unrank(n: nat, p: nat): (perm: seq<nat>)
    requires n >= 2 || p % 2 == 0
    ensures |perm| == n && IsPerm(perm)
  {
    var parity := p % 2;
    FillHolesIsPerm(n, p / 2);
    var perm := Fill(Holes(n), p / 2);
    if n < 2 then
      SwapsShort(perm);
      perm
    else if Swaps(perm) % 2 != parity then
      SwappedIsPerm(perm, 0, 1);
      Swapped(perm, 0, 1)
    else
      perm
  }

  /** For degree two and more the parity of the decoded permutation is the
      low bit of the rank. */
  lemma UnrankParity(n: nat, p: nat)
    requires n >= 2
    ensures Swaps(Unrank(n, p)) % 2 == p % 2
  {
    var perm := Fill(Holes(n), p / 2);
    FillHolesIsPerm(n, p / 2);
    if Swaps(perm) % 2 != p % 2 {
      SwapFirstTwoFlipsParity(perm);
    }
  }

  /** With digits all zero every pick takes the last slot's own value. */
  lemma {:induction false} FillZero(rest: seq<Slot>)
    requires Contents(rest) == Iota(|rest|)
    ensures Fill(rest, 0) == Iota(|rest|)
    decreases |rest|
  {
    if |rest| > 0 {
      var m := |rest|;
      var (v, rest') := Pick(0, rest);
      assert v == m - 1;
      assert Contents(rest') == Iota(m - 1);
      FillZero(rest');
    }
  }

  /** Rank 0 decodes to the identity array. */
  lemma UnrankZero(n: nat)
    ensures Unrank(n, 0) == Iota(n)
  {
    FillZero(Holes(n));
    SwapsIdentity(n);
  }

  /** The loop form of `permutation`: each round picks one value and
      places it in front of those already placed, so positions n-1 down to
      0 are written in turn; then the parity fix is applied. */
  method Permutation(n: nat, p: nat) returns (perm: seq<nat>)
    requires n >= 2 || p % 2 == 0
    ensures perm == Unrank(n, p)
    ensures IsPerm(perm) && |perm| == n
    ensures n >= 2 ==> Swaps(perm) % 2 == p % 2
    ensures p == 0 ==> perm == Iota(n)
  {
    var q: nat := p / 2;
    var rest := Holes(n);
    var placed: seq<nat> := [];
    while |rest| > 0
      invariant FillOnto(rest, q, placed) == FillOnto(Holes(n), p / 2, [])
      decreases |rest|
    {
      var m := |rest|;
      var picked := Pick(Digit(q, m), rest);
      rest, q, placed := picked.1, Shift(q, m), [picked.0] + placed;
    }
    FillOntoIsFill(Holes(n), p / 2, []);
    assert placed == Fill(Holes(n), p / 2);
    FillHolesIsPerm(n, p / 2);
    if n < 2 {
      SwapsShort(placed);
    } else if Swaps(placed) % 2 != p % 2 {
      placed := Swapped(placed, 0, 1);
    }
    perm := placed;
    if n >= 2 {
      UnrankParity(n, p);
    }
    if p == 0 {
      UnrankZero(n);
    }
  }

  /** Degree two with digits 1: the first pick takes slot 0, so the array
      is the exchange [1, 0]. */
  lemma FillTwoOne(n: nat, q: nat)
    requires n == 2 && q == 1
    ensures Fill(Holes(n), q) == Swapped(Iota(n), 0, 1)
  {
    FillHolesIsPerm(n, q);
    assert Pick(Digit(q, n), Holes(n)).0 == 0;
    assert Fill(Holes(n), q) == Fill(Pick(q, Holes(n)).1, 0) + [0];
  }

  /** The exchange of degree two has one transposition. */
  lemma SwapsTwo(n: nat)
    requires n == 2
    ensures Swaps(Iota(n)) == 0 && Swaps(Swapped(Iota(n), 0, 1)) == 1
  {
    SwapsIdentity(n);
    SwapsExchange(Iota(n), 0, 1);
  }

  /** Degree two and above: the decoded array is the digit arrangement,
      exchanged at 0 and 1 when its parity disagrees with the rank's. */
  lemma UnrankUnfold(n: nat, p: nat, q: nat, perm: seq<nat>)
    requires n >= 2 && q == p / 2 && perm == Fill(Holes(n), q)
    ensures IsPerm(perm) && |perm| == n
    ensures Unrank(n, p) == if Swaps(perm) % 2 != p % 2 then Swapped(perm, 0, 1) else perm
  {
    FillHolesIsPerm(n, q);
  }

  /** Exchanging the same two entries twice restores the array. */
  lemma SwappedTwice(p: seq<nat>, a: nat, b: nat)
    requires a < |p| && b < |p|
    ensures Swapped(Swapped(p, a, b), a, b) == p
  {
  }

  /** Rank n of degree n = 2: the digits give the exchange, which is odd,
      so the parity fix exchanges it back to the identity. */
  lemma UnrankTwoTwo(n: nat)
    requires n == 2
    ensures Unrank(n, n) == Iota(n)
  {
    var ex := Swapped(Iota(n), 0, 1);
    FillTwoOne(n, 1);
    SwapsTwo(n);
    UnrankUnfold(n, n, 1, ex);
    assert Unrank(n, n) == Swapped(ex, 0, 1);
    SwappedTwice(Iota(n), 0, 1);
  }

  /** The two ranks that share their digits decode to arrays that differ by
      the exchange of entries 0 and 1: the low bit only chooses the parity. */
  lemma UnrankLowBit(n: nat, q: nat)
    requires n >= 2
    ensures Unrank(n, 2 * q + 1) == Swapped(Unrank(n, 2 * q), 0, 1)
  {
    var perm := Fill(Holes(n), q);
    UnrankUnfold(n, 2 * q, q, perm);
    UnrankUnfold(n, 2 * q + 1, q, perm);
    if Swaps(perm) % 2 == 1 {
      assert Swapped(Swapped(perm, 0, 1), 0, 1) == perm;
    }
  }

  /** Ranks 0 and n! = 2 of degree two both decode to the identity: the
      rank n! repeats rank 0, so distinct arrays need ranks below n!. */
  lemma UnrankRepeatsEven(n: nat)
    requires n == 2
    ensures Unrank(n, n) == Unrank(n, 0) == Iota(n)
  {
    UnrankZero(n);
    UnrankTwoTwo(n);
  }

  /** Ranks 1 and n! + 1 = 3 of degree two both decode to the exchange
      [1, 0]: each is the rank below it with entries 0 and 1 exchanged. */
  lemma UnrankRepeatsOdd(n: nat)
    requires n == 2
    ensures Unrank(n, n + 1) == Unrank(n, 1) == Swapped(Iota(n), 0, 1)
  {
    UnrankRepeatsEven(n);
    UnrankLowBit(n, 0);
    UnrankLowBit(n, 1);
    assert n + 1 == 2 * 1 + 1;
  }

  /** `permutation` in src/group.ts, whose parity test calls the
      group.ts copy of `swaps`: that copy throws on every array but the
      identity, so the decoder throws unless the digits alone already
      give the identity, and otherwise agrees with `Unrank`. */
  function UnrankAsWritten(n: nat, p: nat): (r: Result<seq<nat>>)
    requires n >= 2 || p % 2 == 0
    ensures r.Failure? <==> Fill(Holes(n), p / 2) != Iota(n)
    ensures r.Ok? ==> r.value == Unrank(n, p)
  {
    var perm := Fill(Holes(n), p / 2);
    FillHolesIsPerm(n, p / 2);
    SwapsAsWrittenThrows(perm);
    match SwapsAsWritten(perm)
    case Failure(e) => Failure(e)
    case Ok(k) =>
      if k % 2 != p % 2 then Ok(Swapped(perm, 0, 1)) else Ok(perm)
  }

  /** The decoder as written throws on rank 2 of degree two, whose digits
      give [1, 0]; the corrected decoder returns [0, 1]. */
  lemma UnrankAsWrittenExample(n: nat)
    requires n == 2
    ensures UnrankAsWritten(n, n).Failure?
    ensures Unrank(n, n) == Iota(n)
  {
    UnrankTwoTwo(n);
    FillTwoOne(n, 1);
    assert Swapped(Iota(n), 0, 1)[0] == 1;
  }
}
