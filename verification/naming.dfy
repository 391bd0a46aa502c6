/** Cycle notation: `PermutationGroup.name` and `Permutation.toString`.

    A permutation is written "e" when it has no cycle of length two or more,
    and otherwise as its cycles in the order `cycles` lists them, each in
    parentheses with its points separated by spaces: "(1 2)(3 5 4)". A point
    e is written as its label when the group has labels, else as e + 1.
    Unlabelled permutations of degree below `CyclePivot` would be written
    as a bracketed list instead; the bound is 0, so that never applies. */
module Naming {
  import opened Outcomes
  import opened Perms
  import opened Cycles
  import opened Decimal
  import opened Unrank

  /** How a point is written: its label, or its one-based number. A label
      index past the end of the labels yields `undefined`, which `join`
      writes as the empty text. */
  function PointText(labels: Option<seq<string>>, e: nat): string {
    match labels
    case None => NatText(e + 1)
    case Some(ls) => if e < |ls| then ls[e] else ""
  }

  /** `parts.join(sep)`. */
  function Join(parts: seq<string>, sep: string): string {
    if |parts| == 0 then ""
    else if |parts| == 1 then parts[0]
    else parts[0] + sep + Join(parts[1..], sep)
  }

  /** The points of one cycle, separated by spaces. */
  function CycleText(labels: Option<seq<string>>, c: seq<nat>): string {
    Join(seq(|c|, k requires 0 <= k < |c| => PointText(labels, c[k])), " ")
  }

  /** The degree below which an unlabelled permutation is written as a
      bracketed list of its one-based entries. */
  const CyclePivot: nat := 0

  /** Whether the bracketed-list notation applies. */
  predicate ListNotation(labels: Option<seq<string>>, degree: nat) {
    labels.None? && degree < CyclePivot
  }

  /** The bracketed list of one-based entries, written without separators. */
  function ListText(perm: seq<nat>): string {
    "[" + Join(seq(|perm|, k requires 0 <= k < |perm| => NatText(perm[k] + 1)), "") + "]"
  }

  /** The cycle notation of a permutation array: "e" exactly when `cycles`
      finds no cycle, else one parenthesised group per cycle. */
  function NameOf(labels: Option<seq<string>>, perm: seq<nat>): (name: string)
    requires InRange(perm)
    ensures |name| > 0
    ensures name == "e" <==> CyclesOf(perm) == []
    ensures CyclesOf(perm) != [] ==> name[0] == '(' && name[|name| - 1] == ')'
  {
    var cs := CyclesOf(perm);
    if |cs| == 0 then "e"
    else "(" + Join(seq(|cs|, k requires 0 <= k < |cs| => CycleText(labels, cs[k])), ")(") + ")"
  }

  /** `PermutationGroup.name(index)`: the name of the permutation of rank
      index, decoded with the corrected `swaps`. */
  function GroupName(n: nat, labels: Option<seq<string>>, index: nat): (name: string)
    requires n >= 2 || index % 2 == 0
    ensures name == "e" <==> Unrank.Unrank(n, index) == Iota(n)
  {
    var perm := Unrank.Unrank(n, index);
    NameIsIdentity(labels, perm);
    if ListNotation(labels, n) then ListText(perm) else NameOf(labels, perm)
  }

  /** A permutation is named "e" exactly when it is the identity. */
  lemma NameIsIdentity(labels: Option<seq<string>>, perm: seq<nat>)
    requires IsPerm(perm)
    ensures NameOf(labels, perm) == "e" <==> perm == Iota(|perm|)
  {
    CyclesEmptyIffIdentity(perm);
    if CyclesOf(perm) != [] {
      assert NameOf(labels, perm)[0] == '(';
    }
  }

  /** Rank 0 is named "e". */
  lemma GroupNameZero(n: nat, labels: Option<seq<string>>)
    ensures GroupName(n, labels, 0) == "e"
  {
    UnrankZero(n);
    IdentityIsPerm(n);
    NameIsIdentity(labels, Iota(n));
  }

  /** Occurrences of a character in a text. */
  function Count(s: string, ch: char): nat {
    if |s| == 0 then 0 else (if s[0] == ch then 1 else 0) + Count(s[1..], ch)
  }

  lemma {:induction false} CountAppend(a: string, b: string, ch: char)
    ensures Count(a + b, ch) == Count(a, ch) + Count(b, ch)
  {
    if |a| > 0 {
      assert (a + b)[1..] == a[1..] + b;
      CountAppend(a[1..], b, ch);
    } else {
      assert a + b == b;
    }
  }

  lemma {:induction false} CountDigits(s: string)
    requires AllDigits(s)
    ensures Count(s, '(') == 0
  {
    if |s| > 0 {
      CountDigits(s[1..]);
    }
  }

  /** Joining texts free of a character adds one occurrence per separator
      that holds it once. */
  lemma {:induction false} CountJoin(parts: seq<string>, sep: string, ch: char)
    requires |parts| > 0
    requires forall k :: 0 <= k < |parts| ==> Count(parts[k], ch) == 0
    ensures Count(Join(parts, sep), ch) == (|parts| - 1) * Count(sep, ch)
  {
    if |parts| > 1 {
      CountJoin(parts[1..], sep, ch);
      CountAppend(parts[0] + sep, Join(parts[1..], sep), ch);
      CountAppend(parts[0], sep, ch);
    }
  }

  lemma CountSpaced(labels: Option<seq<string>>, c: seq<nat>)
    requires labels.Some? ==> forall k :: 0 <= k < |labels.value| ==> Count(labels.value[k], '(') == 0
    ensures Count(CycleText(labels, c), '(') == 0
  {
    var parts := seq(|c|, k requires 0 <= k < |c| => PointText(labels, c[k]));
    forall k | 0 <= k < |c|
      ensures Count(parts[k], '(') == 0
    {
      if labels.None? {
        CountDigits(NatText(c[k] + 1));
      }
    }
    if |c| > 0 {
      CountJoin(parts, " ", '(');
    }
  }

  /** When no label holds an opening parenthesis, a non-identity name has
      one per cycle: the name lists every cycle `cycles` finds. */
  lemma NameCountsCycles(labels: Option<seq<string>>, perm: seq<nat>)
    requires InRange(perm) && CyclesOf(perm) != []
    requires labels.Some? ==> forall k :: 0 <= k < |labels.value| ==> Count(labels.value[k], '(') == 0
    ensures Count(NameOf(labels, perm), '(') == |CyclesOf(perm)|
  {
    var cs := CyclesOf(perm);
    var texts := seq(|cs|, k requires 0 <= k < |cs| => CycleText(labels, cs[k]));
    forall k | 0 <= k < |cs|
      ensures Count(texts[k], '(') == 0
    {
      CountSpaced(labels, cs[k]);
    }
    CountJoin(texts, ")(", '(');
    assert Count(")(", '(') == 1;
    var body := Join(texts, ")(");
    CountAppend("(" + body, ")", '(');
    CountAppend("(", body, '(');
  }

  /** `Permutation.toString` as written: the bracketed list when it
      applies, and otherwise a call of `this.toCycles()`, which the class
      does not define, so the call throws a TypeError. The degree bound of
      the list notation is 0, so every call throws. */
  function ToStringAsWritten(labels: Option<seq<string>>, perm: seq<nat>): (r: Result<string>)
    ensures r.Failure?
  {
    if ListNotation(labels, |perm|) then Ok(ListText(perm))
    else Failure("this.toCycles is not a function")
  }

  /** The finding on a small input: the exchange of two points has no
      printable name as written, while the cycle notation `name` uses for
      the same array, which is what `toString` evidently means to print,
      is "(1 2)". */
  lemma ToStringAsWrittenExample()
    ensures ToStringAsWritten(None, [1, 0]).Failure?
    ensures NameOf(None, [1, 0]) == "(1 2)"
  {
    var p: seq<nat> := [1, 0];
    assert Trace(p, {0, 1}, 0) == [];
    assert Trace(p, {0}, 1) == [1];
    assert Trace(p, {}, 0) == [0, 1];
    assert Elems([0, 1]) == {0, 1};
    assert Trace(p, {0, 1}, 1) == [];
    assert CyclesFrom(p, 2, {0, 1}) == [];
    assert CyclesFrom(p, 1, {0, 1}) == [];
    assert CyclesOf(p) == [[0, 1]];
    assert NatText(1) == "1" && NatText(2) == "2";
    var parts := seq(2, k requires 0 <= k < 2 => PointText(None, [0, 1][k]));
    assert parts == ["1", "2"];
    assert Join(parts, " ") == "1" + " " + Join(["2"], " ");
    assert CycleText(None, [0, 1]) == "1 2";
    var texts := seq(1, k requires 0 <= k < 1 => CycleText(None, [[0, 1]][k]));
    assert texts == ["1 2"];
  }
}
