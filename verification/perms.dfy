/** Permutation arrays.

    A permutation of degree n is an array of n naturals in which every value
    below n occurs exactly once; entry i is the image of position i. This
    module holds the vocabulary shared by the codec, the cycle engine and the
    array-level algebra. */
module Perms {

  /** The identity array [0, 1, ..., n-1]. */
  function Iota(n: nat): (r: seq<nat>)
    ensures |r| == n
    ensures forall i :: 0 <= i < n ==> r[i] == i
  {
    if n == 0 then [] else Iota(n - 1) + [n - 1]
  }

  /** The identity array holds exactly the values below n. */
  lemma IotaMembers(n: nat)
    ensures forall x: nat :: x in Iota(n) <==> x < n
  {
    forall x: nat | x < n
      ensures x in Iota(n)
    {
      assert Iota(n)[x] == x;
    }
  }

  /** Every entry is a valid index into the array itself. */
  ghost predicate InRange(p: seq<nat>) {
    forall i :: 0 <= i < |p| ==> p[i] < |p|
  }

  /** No value occurs twice. */
  ghost predicate Distinct(p: seq<nat>) {
    forall i, j :: 0 <= i < j < |p| ==> p[i] != p[j]
  }

  /** A bijection of {0, ..., |p|-1}. */
  ghost predicate IsPerm(p: seq<nat>) {
    && InRange(p)
    && Distinct(p)
    && forall v :: 0 <= v < |p| ==> v in p
  }

  /** The array with entries a and b exchanged. */
  function Swapped(p: seq<nat>, a: nat, b: nat): (q: seq<nat>)
    requires a < |p| && b < |p|
    ensures |q| == |p| && q[a] == p[b] && q[b] == p[a]
    ensures forall k :: 0 <= k < |p| && k != a && k != b ==> q[k] == p[k]
  {
    p[a := p[b]][b := p[a]]
  }

  /** Position of the first occurrence of v. */
  function IndexOf(s: seq<nat>, v: nat): (k: nat)
    requires v in s
    ensures k < |s| && s[k] == v
    ensures forall i :: 0 <= i < k ==> s[i] != v
  {
    if s[0] == v then 0 else 1 + IndexOf(s[1..], v)
  }

  lemma IdentityIsPerm(n: nat)
    ensures IsPerm(Iota(n))
  {
    var p := Iota(n);
    forall v | 0 <= v < n
      ensures v in p
    {
      assert p[v] == v;
    }
  }

  /** In a permutation the position of a value is unique. */
  lemma IndexOfPerm(p: seq<nat>, k: nat)
    requires IsPerm(p) && k < |p|
    ensures IndexOf(p, p[k]) == k
  {
  }

  lemma SwappedIsPerm(p: seq<nat>, a: nat, b: nat)
    requires IsPerm(p) && a < |p| && b < |p|
    ensures IsPerm(Swapped(p, a, b))
  {
    var q := Swapped(p, a, b);
    forall v | 0 <= v < |p|
      ensures v in q
    {
      var k := IndexOf(p, v);
      if k == a {
        assert q[b] == v;
      } else if k == b {
        assert q[a] == v;
      } else {
        assert q[k] == v;
      }
    }
  }

  lemma SwappedSymmetric(p: seq<nat>, a: nat, b: nat)
    requires a < |p| && b < |p|
    ensures Swapped(p, a, b) == Swapped(p, b, a)
  {
  }

  lemma SwappedMultiset(p: seq<nat>, a: nat, b: nat)
    requires a < |p| && b < |p|
    ensures multiset(Swapped(p, a, b)) == multiset(p)
  {
  }

  /** The identity array holds each value below n exactly once. */
  lemma IotaCount(n: nat, v: nat)
    ensures multiset(Iota(n))[v] == if v < n then 1 else 0
  {
    IdentityIsPerm(n);
    PermCount(Iota(n), v);
  }

  /** A value occurring at two distinct positions is counted twice. */
  lemma TwiceCounted(s: seq<nat>, i: nat, j: nat)
    requires i < j < |s| && s[i] == s[j]
    ensures multiset(s)[s[i]] >= 2
  {
    assert s == s[..j] + s[j..];
    assert s[i] in s[..j];
    assert s[j..][0] == s[j];
  }

  /** A rearrangement of the identity array is a permutation. */
  lemma PermFromMultiset(s: seq<nat>)
    requires multiset(s) == multiset(Iota(|s|))
    ensures IsPerm(s)
  {
    var n := |s|;
    forall i | 0 <= i < n
      ensures s[i] < n
    {
      assert s[i] in multiset(s);
      IotaCount(n, s[i]);
    }
    forall i, j | 0 <= i < j < n
      ensures s[i] != s[j]
    {
      if s[i] == s[j] {
        TwiceCounted(s, i, j);
        IotaCount(n, s[i]);
      }
    }
    forall v | 0 <= v < n
      ensures v in s
    {
      IotaCount(n, v);
      assert v in multiset(s);
    }
  }

  /** A duplicate-free array holds every value at most once. */
  lemma {:induction false} DistinctCount(s: seq<nat>, v: nat)
    requires Distinct(s)
    ensures multiset(s)[v] <= 1
  {
    if |s| > 0 {
      var r := s[..|s| - 1];
      var x := s[|s| - 1];
      assert s == r + [x];
      DistinctCount(r, v);
      if x == v {
        assert v !in r by {
          forall t | 0 <= t < |r|
            ensures r[t] != v
          {
            assert r[t] == s[t];
          }
        }
      }
    }
  }

  /** A permutation holds each value below its degree exactly once. */
  lemma PermCount(p: seq<nat>, v: nat)
    requires IsPerm(p)
    ensures multiset(p)[v] == if v < |p| then 1 else 0
  {
    DistinctCount(p, v);
    if v < |p| {
      var t := IndexOf(p, v);
      assert p[t] in multiset(p);
    } else {
      assert v !in p;
    }
  }

  /** A permutation is a rearrangement of the identity array. */
  lemma PermMultiset(p: seq<nat>)
    requires IsPerm(p)
    ensures multiset(p) == multiset(Iota(|p|))
  {
    forall v: nat
      ensures multiset(p)[v] == multiset(Iota(|p|))[v]
    {
      IotaCount(|p|, v);
      PermCount(p, v);
    }
  }

  /** Two permutations of one degree have the same entries. */
  lemma PermsSameEntries(p: seq<nat>, q: seq<nat>)
    requires IsPerm(p) && IsPerm(q) && |p| == |q|
    ensures multiset(p) == multiset(q)
  {
    PermMultiset(p);
    PermMultiset(q);
  }
}
