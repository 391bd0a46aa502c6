/** Array-level permutation algebra: `Permutation.mul`, `inv` and `eq`.

    A `Permutation` wraps its array; labels only affect naming and are not
    carried here. */
module Algebra {
  import opened Outcomes
  import opened Perms

  /** `this.mul(that)`: entry i of the product is this[that[i]], so the
      right factor is applied first. Arrays of different lengths belong to
      different groups and the product throws. */
  function Compose(a: seq<nat>, b: seq<nat>): (r: Result<seq<nat>>)
    requires InRange(b)
    ensures r.Failure? <==> |a| != |b|
    ensures r.Ok? ==> |r.value| == |a|
  {
    if |a| != |b| then Failure("Different groups")
    else Ok(seq(|b|, i requires 0 <= i < |b| => a[b[i]]))
  }

  /** The product of two permutations of one degree is a permutation. */
  lemma ComposeIsPerm(a: seq<nat>, b: seq<nat>)
    requires IsPerm(a) && IsPerm(b) && |a| == |b|
    ensures IsPerm(Compose(a, b).value)
  {
    var c := Compose(a, b).value;
    forall v | 0 <= v < |c|
      ensures v in c
    {
      var k := IndexOf(a, v);
      var i := IndexOf(b, k);
      assert c[i] == v;
    }
  }

  /** The order of the factors: the right factor is applied first, so
      rotating by one after exchanging the first two entries differs from
      the opposite order. */
  lemma ComposeOrder()
    ensures Compose([1, 2, 0], [1, 0, 2]) == Ok([2, 1, 0])
    ensures Compose([1, 0, 2], [1, 2, 0]) == Ok([0, 2, 1])
  {
    var ab := Compose([1, 2, 0], [1, 0, 2]).value;
    assert ab[0] == 2 && ab[1] == 1 && ab[2] == 0;
    assert ab == [2, 1, 0];
    var ba := Compose([1, 0, 2], [1, 2, 0]).value;
    assert ba[0] == 0 && ba[1] == 2 && ba[2] == 1;
    assert ba == [0, 2, 1];
  }

  /** The identity array is a two-sided unit. */
  lemma ComposeIdentity(p: seq<nat>)
    requires InRange(p)
    ensures Compose(p, Iota(|p|)) == Ok(p)
    ensures Compose(Iota(|p|), p) == Ok(p)
  {
    var id := Iota(|p|);
    assert Compose(p, id).value == p;
    assert Compose(id, p).value == p;
  }

  lemma ComposeAssociative(a: seq<nat>, b: seq<nat>, c: seq<nat>)
    requires InRange(a) && InRange(b) && InRange(c) && |a| == |b| == |c|
    ensures Compose(a, b).Ok? && Compose(b, c).Ok?
    ensures InRange(Compose(a, b).value) && InRange(Compose(b, c).value)
    ensures Compose(Compose(a, b).value, c) == Compose(a, Compose(b, c).value)
  {
    var ab, bc := Compose(a, b).value, Compose(b, c).value;
    assert Compose(ab, c).value == Compose(a, bc).value;
  }

  /** `inv()`: writes out[arr[i]] = i for every i. */
  method Invert(p: seq<nat>) returns (q: seq<nat>)
    requires IsPerm(p)
    ensures |q| == |p| && IsPerm(q)
    ensures forall i :: 0 <= i < |p| ==> q[p[i]] == i
    ensures forall v :: 0 <= v < |p| ==> p[q[v]] == v
  {
    var out := new nat[|p|];
    for i := 0 to |p|
      invariant forall k :: 0 <= k < i ==> out[p[k]] == k
    {
      out[p[i]] := i;
    }
    q := out[..];
    forall v | 0 <= v < |p|
      ensures q[v] < |p| && p[q[v]] == v
    {
      var k := IndexOf(p, v);
      assert q[p[k]] == k;
    }
    forall v | 0 <= v < |p|
      ensures v in q
    {
      assert q[p[v]] == v;
    }
  }

  /** The inverse composes with the permutation to the identity on both
      sides. */
  lemma InverseComposes(p: seq<nat>, q: seq<nat>)
    requires IsPerm(p) && IsPerm(q) && |p| == |q|
    requires forall v :: 0 <= v < |p| ==> p[q[v]] == v
    requires forall i :: 0 <= i < |p| ==> q[p[i]] == i
    ensures Compose(p, q) == Ok(Iota(|p|))
    ensures Compose(q, p) == Ok(Iota(|p|))
  {
    assert Compose(p, q).value == Iota(|p|);
    assert Compose(q, p).value == Iota(|p|);
  }

  /** `eq(that)`: same length and the same entry at every index. */
  method Equal(a: seq<nat>, b: seq<nat>) returns (r: bool)
    ensures r <==> a == b
  {
    if |a| != |b| {
      return false;
    }
    var i := 0;
    while i < |a|
      invariant 0 <= i <= |a|
      invariant a[..i] == b[..i]
    {
      if a[i] != b[i] {
        return false;
      }
      i := i + 1;
    }
    assert a == a[..i] && b == b[..i];
    return true;
  }
}
