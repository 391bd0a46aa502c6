/** Products, powers and factorials as repeated addition.

    Keeping multiplication behind a recursive definition leaves the proofs
    about numerals (the lexicographic rank of an array, the factorial-base
    counter of Heap's algorithm) in linear arithmetic. */
module Arith {

  /** x copies of p added up. */
  function Scale(x: nat, p: nat): nat {
    if x == 0 then 0 else Scale(x - 1, p) + p
  }

  /** Scale is the product. */
  lemma {:induction false} ScaleIsProduct(x: nat, p: nat)
    ensures Scale(x, p) == x * p
  {
    if x > 0 {
      ScaleIsProduct(x - 1, p);
    }
  }

  /** More copies add up to more. */
  lemma {:induction false} ScaleMono(x: nat, y: nat, p: nat)
    requires x <= y
    ensures Scale(x, p) <= Scale(y, p)
    decreases y - x
  {
    if x < y {
      ScaleMono(x, y - 1, p);
    }
  }

  function Pow(b: nat, e: nat): nat {
    if e == 0 then 1 else Scale(b, Pow(b, e - 1))
  }

  function Fact(k: nat): (f: nat)
    ensures f >= 1
  {
    if k == 0 then 1 else Scale(k, Fact(k - 1))
  }
}
