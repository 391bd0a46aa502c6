# twisty group core in Dafny

A model of the group-arithmetic and permutation core of the `twisty`
puzzle-group toolkit (`src/group.ts`, `src/perm.js`, `src/heap.js`).

The project covers the following:

- **Rank-encoded groups.** `pmod` is the non-negative remainder. `CyclicGroup`
  is Z_n on the residues 0 .. n-1, with the names "e", "g", "g2", ....
  `DihedralGroup` is D_n on ranks 2r + s, with the names "e", "s", "r",
  "rs", "r2", .... The model covers parsing, naming, products and inverses.
- **Permutation unrank codec** (`pick`, `permutation`). The low bit of a rank
  is the required parity. The remaining bits are mixed-radix digits, and each
  digit picks a value out of a lazily filled "remaining values" array. Entries
  0 and 1 are exchanged when the parity disagrees.
- **Cycle engine.** `cycles` lists the disjoint cycles of length two or more.
  `swaps` counts transpositions. `PermutationGroup.name` renders a
  permutation in cycle notation.
- **Array-level algebra.** `Permutation.mul`, `inv` and `eq`.
- **Lexicographic enumeration** (`permute`). This is the next-permutation
  step, with a parity flag toggled on every exchange and an option to skip
  odd permutations.
- **Heap's algorithm** (`generate` in `src/heap.js`). The printed lines are
  collected into a sequence.

Bigints are `int`, except that permutation degrees and ranks are `nat`;
negative degrees and ranks are listed under "## Left out". The bit tricks
are written out: `x & 1n` is `x % 2` and `x >> 1n` is `x / 2`, both floor-based as in the source. The truncating
bigint `%` is `TruncRem`. The `seen` bit-set of `cycles` and `swaps` is a
`set<nat>`. An exception is a `Failure` (or the `Thrown` outcome of a
parse).

Modules:

| file | module | contents |
|---|---|---|
| outcomes.dfy | Outcomes | `Option`, `Result` |
| arith.dfy | Arith | repeated-addition product, powers, factorials |
| decimal.dfy | Decimal | decimal text of naturals and its value |
| perms.dfy | Perms | permutation arrays, exchanges, entry counts |
| groups.dfy | Groups | `pmod`, Z_n, D_n |
| cycles.dfy | Cycles | `cycles`, `swaps`, the cycle decomposition theory |
| parity.dfy | Parity | one exchange changes `swaps` by exactly one |
| unrank.dfy | Unrank | `pick`, `permutation` |
| naming.dfy | Naming | cycle notation |
| algebra.dfy | Algebra | `mul`, `inv`, `eq` |
| permute.dfy | Enumerate | `permute` |
| heap.dfy | Heap | `generate` |

## Model

| member | source | states |
|---|---|---|
| Groups.TruncRem | src/group.ts:431 | the bigint remainder has magnitude below \|b\|, and is the Euclidean residue or that residue minus \|b\| |
| Groups.AddUntilNonNeg | src/group.ts:432 | the add-until-non-negative loop ends non-negative; it leaves a non-negative value alone and adds b once to a value in [-b, 0) |
| Groups.Pmod | src/group.ts:428-434 | for b ≠ 0, `pmod(a, b)` lies in 0 .. \|b\|-1 and is congruent to a modulo \|b\| |
| Groups.PmodSmall | src/group.ts:428-434 | a value already in 0 .. \|b\|-1 is returned unchanged |
| Groups.CyclicParse | src/group.ts:71-77 | a parsed rank lies in 0 .. \|n\|-1, and the only name whose conversion throws is "g-" |
| Groups.CyclicName | src/group.ts:78-81 | a cyclic name is non-empty, and is "e" or starts with "g" |
| Groups.CyclicMul | src/group.ts:83-85 | the product lies in 0 .. \|n\|-1 |
| Groups.CyclicInv | src/group.ts:86-88 | the inverse lies in 0 .. \|n\|-1 |
| Groups.CyclicNameParse | src/group.ts:71-81 | parsing the name of any rank x gives back `pmod(x, n)` |
| Groups.CyclicRoundTrip | src/group.ts:71-81 | `parse(name(x)) == x` on 0 .. \|n\|-1, with `name(0) == "e"` and `name(1) == "g"` |
| Groups.CyclicNameInjective | src/group.ts:78-81 | distinct residues have distinct names |
| Groups.CyclicIdentity | src/group.ts:83-85 | 0 is a two-sided identity of `mul` on the residues |
| Groups.CyclicInverse | src/group.ts:83-88 | `mul(a, inv(a))` and `mul(inv(a), a)` are 0 for every a |
| Groups.CyclicAssociative | src/group.ts:83-85 | `mul` is associative on all ranks |
| Groups.Rotation | src/group.ts:37 | the rotation `pmod(x >> 1n, n)` lies in 0 .. \|n\|-1 |
| Groups.DihedralName | src/group.ts:35-41 | a dihedral name is never empty |
| Groups.DigitRun | src/group.ts:26 | the greedy `\d*` match covers only digits and stops at the first non-digit |
| Groups.SignedRun | src/group.ts:26 | the greedy `-?\d*` match covers a well-formed signed numeral |
| Groups.SplitNameSound | src/group.ts:26 | a match of `^(r?)(-?\d*)(s?)(\d*)$` splits the name into well-shaped groups that concatenate back to it |
| Groups.SplitNameExact | src/group.ts:26 | well-shaped groups, with the last group after an "s", are split back into exactly those groups |
| Groups.SplitNameComplete | src/group.ts:26 | every concatenation of well-shaped groups matches the pattern |
| Groups.FieldsRank | src/group.ts:28-32 | matched groups give a rank in 0 .. 2\|n\|-1, and throw only for the rotation numeral "-" |
| Groups.DihedralParse | src/group.ts:24-33 | a parsed rank lies in 0 .. 2\|n\|-1, and a name whose conversion throws starts with "r-" |
| Groups.RotationNameParse | src/group.ts:24-40 | the name "r…" of a rotation r in 1 .. n-1 with reflection bit s parses to 2r + s |
| Groups.DihedralRoundTrip | src/group.ts:24-41 | `parse(name(x)) == x` for every x in 0 .. 2n-1 |
| Groups.ParityOfSum | src/group.ts:44-46 | the exclusive or of the two low bits is the low bit of the sum |
| Groups.Flip | src/group.ts:44-46 | the product's reflection bit `sa ^ sb` is (a + b) mod 2 |
| Groups.DihedralMul | src/group.ts:43-51 | for n > 0, the product as written lies in 0 .. 2n-1 |
| Groups.DihedralMulRepacked | src/group.ts:43-51 | on every input, the product as written is the corrected rank 2r + s with its halves swapped: s·n + r |
| Groups.DihedralInv | src/group.ts:53-56 | for n > 0, the inverse lies in 0 .. 2n-1 whatever the argument |
| Groups.DihedralInvCases | src/group.ts:53-56 | `inv` fixes 0 and every odd rank, sends an even non-zero x to 2n - x, and stays in 0 .. 2n-1 |
| Groups.DihedralInvInvolution | src/group.ts:53-56 | `inv(inv(x)) == x` on 0 .. 2n-1 |
| Groups.DihedralMulMisencodes | src/group.ts:32-51 | for every n > 1, the product e·s comes out as rank n, which `name` renders as a rotation; the intended rank is 1, named "s" |
| Groups.DihedralMulFixed | src/group.ts:43-51 | the corrected product has the same rotation and reflection as `mul`, packed as 2r + s |
| Groups.DihedralFixedIdentity | src/group.ts:43-56 | under the corrected product, 0 is a two-sided identity |
| Groups.DihedralFixedInverse | src/group.ts:43-56 | under the corrected product, `inv` gives two-sided inverses |
| Groups.DihedralFixedAssociative | src/group.ts:43-51 | the corrected product is associative on all ranks |
| Groups.TurnAssociative | src/group.ts:47-49 | the rotations of (ab)c and a(bc) agree modulo n |
| Perms.SwappedIsPerm | src/group.ts:259-264 | exchanging two entries of a permutation gives a permutation |
| Perms.PermFromMultiset | src/perm.js:51-68 | an array holding each of 0 .. n-1 once (as a multiset) is a permutation |
| Perms.PermMultiset | src/perm.js:51-68 | a permutation of degree n holds each of 0 .. n-1 exactly once |
| Cycles.CyclesOf | src/perm.js:1-20 | every cycle `cycles` lists has length two or more |
| Cycles.Swaps | src/perm.js:22-40 | `swaps` is at least the number of listed cycles, and 0 exactly when `cycles` lists none |
| Cycles.SwapsFromCounts | src/perm.js:22-40 | from any position and seen set, the outer loops agree: each kept walk is longer than one and adds at least one transposition |
| Cycles.TraceIsCycle | src/perm.js:4-14 | one inner walk from an unseen position traces exactly the cycle through it, and the seen set stays closed under the permutation |
| Cycles.CyclesOfSound | src/perm.js:1-20 | `cycles` lists disjoint cycles of length two or more that follow the permutation, each starting at its minimum, sorted by that minimum, and together covering exactly the moved positions |
| Cycles.CyclesEmptyIffIdentity | src/group.ts:217-236 | `cycles` is empty exactly for the identity |
| Cycles.SwapsIsCycleSum | src/perm.js:22-40 | `swaps` is the sum over the listed cycles of (length - 1) |
| Cycles.SwapsAsWritten | src/group.ts:238-254 | `swaps` as written throws exactly when `cycles` lists a cycle, and otherwise returns 0 |
| Cycles.SwapsConstFromFails | src/group.ts:238-254 | the outer loop of `swaps` as written throws exactly when it reaches a cycle of length two or more; otherwise it agrees with the corrected count |
| Cycles.SwapsAsWrittenThrows | src/group.ts:238-254 | `swaps` as written throws on every permutation except the identity, on which it returns 0 |
| Cycles.SwapsAsWrittenExample | src/group.ts:240-251 | on [1, 0], `swaps` as written throws, while the count is 1 |
| Parity.SwapsDropFixed | src/perm.js:22-40 | dropping a fixed last position keeps `swaps` |
| Parity.SwapsReduce | src/perm.js:22-40 | taking a non-fixed last position out of its cycle lowers `swaps` by exactly one |
| Parity.SwapsExchange | src/perm.js:22-40 | exchanging two distinct entries of a permutation changes `swaps` by exactly one |
| Parity.SwapFirstTwoFlipsParity | src/perm.js:62-66 | exchanging entries 0 and 1 flips the parity of `swaps` |
| Parity.SwapsIdentity | src/perm.js:22-40 | `swaps` of the identity is 0 |
| Unrank.Holes | src/perm.js:56 | `new Array(n)` stands for the values 0 .. n-1 |
| Unrank.Pick | src/perm.js:42-49 | `pick(i, arr)` returns the value at index len-1-i and shortens the array by one; the remaining values are the old ones with the last moved into the picked slot, i.e. the old multiset minus the returned value |
| Unrank.Fill | src/perm.js:57-61 | the digit loop writes as many values as there are slots, a rearrangement of the remaining values |
| Unrank.FillOntoIsFill | src/perm.js:57-61 | filling from position n-1 down to 0 places the picks in the order the recursive definition gives |
| Unrank.FillHolesIsPerm | src/perm.js:51-61 | starting from n empty slots, the digit loop yields a permutation of 0 .. n-1 |
| Unrank.Unrank | src/perm.js:51-68 | `permutation(n, p)` is a permutation of 0 .. n-1 |
| Unrank.UnrankParity | src/perm.js:52-66 | for n ≥ 2, the parity of `swaps(permutation(n, p))` is p mod 2 |
| Unrank.UnrankZero | src/perm.js:51-68 | rank 0 decodes to the identity |
| Unrank.UnrankLowBit | src/perm.js:52-66 | the two ranks 2q and 2q + 1 decode to arrays that differ by the exchange of entries 0 and 1 |
| Unrank.UnrankTwoTwo | src/perm.js:51-68 | rank 2 of degree two decodes to the identity: its digits give [1, 0], which is odd, and the parity fix exchanges it back |
| Unrank.UnrankRepeatsEven | src/perm.js:51-68 | for degree two, ranks 0 and n! = 2 decode alike, to [0, 1] |
| Unrank.UnrankRepeatsOdd | src/perm.js:51-68 | for degree two, ranks 1 and n! + 1 = 3 decode alike, to [1, 0] |
| Unrank.UnrankAsWritten | src/group.ts:140-157 | the group.ts decoder throws exactly when the digits alone do not give the identity, and otherwise agrees with the corrected decoder |
| Unrank.UnrankAsWrittenExample | src/group.ts:140-157 | the group.ts decoder throws on rank 2 of degree two, which the corrected decoder maps to [0, 1] |
| Unrank.Permutation | src/perm.js:51-68 | the loop version returns a permutation of 0 .. n-1 whose `swaps` parity is p mod 2 for n ≥ 2, and the identity for rank 0 |
| Naming.NameOf | src/group.ts:121-125 | the cycle notation is non-empty, is "e" exactly when `cycles` lists nothing, and is otherwise wrapped in parentheses |
| Naming.GroupName | src/group.ts:114-126 | a rank is named "e" exactly when it decodes to the identity; the bracketed-list branch is guarded by a degree bound of 0 |
| Naming.NameIsIdentity | src/group.ts:121-122 | a permutation is named "e" exactly when it is the identity |
| Naming.GroupNameZero | src/group.ts:114-126 | rank 0 is named "e" in every group |
| Naming.NameCountsCycles | src/group.ts:121-125 | when no label holds "(", a non-identity name holds one "(" per cycle `cycles` lists |
| Naming.ToStringAsWritten | src/group.ts:337-347 | `toString` as written throws on every permutation: the bracketed list needs a degree below 0, so every call reaches the undefined `toCycles` |
| Naming.ToStringAsWrittenExample | src/group.ts:337-347 | on [1, 0], `toString` throws, while the cycle notation of that array is "(1 2)" |
| Algebra.Compose | src/group.ts:310-319 | `mul` throws exactly when the lengths differ, and otherwise keeps the length |
| Algebra.ComposeOrder | src/group.ts:315-316 | entry i of `a.mul(b)` is a[b[i]]: [1, 2, 0]·[1, 0, 2] is [2, 1, 0], while the opposite order gives [0, 2, 1] |
| Algebra.ComposeIsPerm | src/group.ts:310-319 | the product of two permutations of one degree is a permutation |
| Algebra.ComposeIdentity | src/group.ts:310-319 | the identity array is a two-sided unit of `mul` |
| Algebra.ComposeAssociative | src/group.ts:310-319 | `mul` is associative |
| Algebra.Invert | src/group.ts:328-334 | `inv` returns a permutation q with q[p[i]] == i and p[q[v]] == v |
| Algebra.InverseComposes | src/group.ts:310-334 | `p.mul(p.inv())` and `p.inv().mul(p)` are both the identity |
| Algebra.Equal | src/group.ts:321-326 | `eq` holds exactly when the arrays are equal |
| Enumerate.LastAscent | src/group.ts:267-269 | the scan finds the last ascent, or reports that the array is non-increasing |
| Enumerate.LastLarger | src/group.ts:270-271 | the scan finds the last entry after the pivot that exceeds the pivot |
| Enumerate.ExchangeToggles | src/group.ts:259-264 | each `swap` keeps a permutation and toggles the tracked parity in step with `swaps` |
| Enumerate.ReverseTail | src/group.ts:273-276 | the closing loop reverses the tail after the pivot, keeps the head, and keeps the parity flag equal to the parity of the array |
| Enumerate.Advance | src/group.ts:267-276 | one step either stops on the last arrangement, or produces the next one with its parity |
| Enumerate.NextIsLarger | src/group.ts:267-276 | the step's result is lexicographically larger |
| Enumerate.NextIsImmediate | src/group.ts:267-276 | no rearrangement lies strictly between an array and its step result |
| Enumerate.LastHasNoSuccessor | src/group.ts:269 | a non-increasing array has no lexicographically larger rearrangement |
| Enumerate.StepNumeral | src/group.ts:265-277 | each step raises the array read as a base-n numeral, which stays below n^n, so the generator terminates |
| Enumerate.Visit | src/group.ts:265-277 | one pass of the loop stops exactly on the last arrangement, with nothing but skipped ones after the last yield; otherwise it steps, raises the numeral, and yields the new arrangement unless it is odd and odd ones are skipped |
| Enumerate.Permute | src/group.ts:256-278 | `permute` yields the identity first, then arrangements of 0 .. n-1 in strictly increasing lexicographic order with nothing but skipped odd ones between and after them; with `yieldOdds` false, no odd one is yielded |
| Heap.Exchanged | src/heap.js:3-7 | `swap` exchanges two entries and keeps the letters |
| Heap.WeightBound | src/heap.js:8-25 | the counter array, read as a factorial-base numeral from place j up, stays at least j! below the total count \|c\|! |
| Heap.Pass | src/heap.js:11-25 | one pass either prints after one exchange and restarts the climb, or carries, keeping the counter equal to the number of lines |
| Heap.Generate | src/heap.js:1-25 | `generate(n)` prints min(n, 11)! lines, the first being the first min(n, 11) letters in order, each a rearrangement of it and one exchange of two distinct places away from the line before |

## Left out

- Groups.Pmod: requires b ≠ 0. A bigint remainder by zero throws a
  RangeError. In a group of degree 0, every operation that calls `pmod`
  throws; `parse("e")` still returns 0 and a name the pattern rejects still
  returns `undefined`. The model carries the degree-0 group only through
  `requires n != 0`.
- Groups.CyclicParse: `Number(...)` rounds numerals above 2^53, and a
  numeral of about 309 digits or more becomes `Infinity`, so `BigInt(...)`
  throws a RangeError. The model reads every numeral exactly and returns a
  rank for it; only "g-" (NaN) is modelled as throwing.
- Unrank.Unrank: requires n ≥ 2 or an even rank. For n < 2 and an odd rank,
  the closing exchange writes `undefined` into the array, which a
  `seq<nat>` cannot hold.
- Unrank.Unrank: models `permutation` of src/perm.js, which counts with the
  `let` counter of its own `swaps`. The copy in src/group.ts calls the
  group.ts `swaps`, which throws; that copy is Unrank.UnrankAsWritten.
- Unrank.Unrank: ranks are `nat`, so negative ranks are excluded. The
  source takes any bigint; on a negative rank `pick` reads past the end of
  its array (for degree 2 and rank -2 the digits give [0, 2]) and `swaps`
  then throws a TypeError on the missing entry.
- Unrank.Unrank: degrees are `nat`, so negative degrees are excluded. On
  a negative degree `new Array(Number(n))` throws a RangeError.
- Unrank.Permutation: the same exclusions as Unrank.Unrank. Negative ranks
  are excluded, and the source throws a TypeError on them. Negative degrees
  are excluded, and the source throws a RangeError on them. The
  requirement n ≥ 2 or an even rank excludes the case where the closing
  exchange writes `undefined` into the array.
- Unrank.UnrankAsWritten: the same exclusion of negative ranks; the
  group.ts decoder throws a TypeError on them as well, so "throws exactly
  when" is stated only for ranks 0 and up. Negative degrees are excluded,
  and there `new Array(Number(n))` throws a RangeError. The requirement
  n ≥ 2 or an even rank excludes inputs that the group.ts decoder does
  accept. For n < 2 and an odd rank, the throwing `swaps` finds no cycle
  and returns 0, so the parity fix yields an array holding `undefined`
  (for degree 1 and rank 1, `[undefined, 0]`).
- Naming.GroupName: the index is `nat`; `PermutationGroup.name` on a
  negative index throws a TypeError through the decoder. The degree is
  `nat`; the constructor takes any bigint, and `name` on a negative degree
  throws a RangeError in the decoder's `new Array`. The requirement n ≥ 2
  or an even index excludes degree 0 or 1 with an odd index. There the
  source names an array holding `undefined`, such as `[undefined, 0]` for
  degree 1 and index 1.
- Enumerate.Permute: n is `nat`. For a negative n, `range(n)` builds an
  empty array, so the source yields the single empty arrangement, as it
  does for 0.
- Naming.GroupName: decodes with the corrected Unrank.Unrank. The source's
  `PermutationGroup.name` calls the group.ts decoder, so as written it
  throws on every rank whose digits do not give the identity.
- Algebra.Compose: requires the right factor's entries to be in range. An
  out-of-range index reads `undefined`.
- Algebra.Invert: requires a permutation. On other arrays, `inv` leaves
  holes or overwrites entries.
- Naming.NameOf: requires every entry to be in range, as `cycles` does.
- Heap.Generate: states the count and the one-exchange steps, but not that
  the printed lines are pairwise distinct. For n above 11, the counter array
  grows past its eleven entries while the loop climbs on to n. Those extra
  entries never print anything, so the model passes over them without
  storing them. Negative n is
  not modelled; it prints the same single empty line as 0.
- Unrank.UnrankRepeatsEven: that distinct ranks in 0 .. n!-1 decode to
  distinct arrays is not stated. Only the repetition past n!-1 is shown, and
  only for degree two (Unrank.UnrankRepeatsOdd covers the odd ranks).
- `permutationIndex` is an unfinished stub with no result.
  `PermutationGroup.parse` throws "not implemented".
- `SymmetricGroup`, `AlternatingGroup`, `DirectProductGroup` and
  `DirectProductElement` are left out. They define no products of their own,
  or depend on types and methods that are not defined.
- The cached `name` getter of `Permutation` is left out.
- Labels are not carried by `mul` and `inv`: they only affect naming.
- `console.log` output becomes the returned sequence of lines. The driver
  loops at the ends of `src/perm.js` and `src/heap.js` are left out.

## Findings

| source | as written | input that shows it | evidently intended | confidence | as-written member | corrected member |
|---|---|---|---|---|---|---|
| src/group.ts:50 | `mul` packs the product as `s * n + r` | n = 2, a = 0 (e), b = 1 (s): the result 2 is named "r" instead of "s" | `r << 1n \| s`, the 2r + s packing that `parse`, `name` and `inv` use | high; not executed | Groups.DihedralMulMisencodes | Groups.DihedralFixedAssociative |
| src/group.ts:240 | `const swaps = 0` is later incremented at line 251; `permutation` (line 151) and `PermutationGroup.name` call it | [1, 0]: the increment throws a TypeError; `permutation(2n, 2n)` reaches it with [1, 0] | a `let` counter, as in src/perm.js:24 | high for a build that emits despite the TypeScript error on line 251 (assignment to a constant) with an ES2015 or later target, where the `const` survives; an ES5 emit turns it into `var`; not executed | Cycles.SwapsAsWrittenThrows | Cycles.SwapsIsCycleSum |
| src/group.ts:342 | `toString` calls `this.toCycles()`, which `Permutation` does not define | [1, 0]: the call throws a TypeError | `cycles(this.arr)`, as `PermutationGroup.name` does | high for a build that emits despite the TypeScript error on line 342 (no such property); not executed | Naming.ToStringAsWritten | Naming.NameIsIdentity |
