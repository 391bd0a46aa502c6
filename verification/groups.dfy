/** The rank-encoded groups: `pmod`, the cyclic group Z_n and the dihedral
    group D_n.

    Elements are integer ranks (bigints in the program). Z_n uses the
    residues 0 .. n-1 and the names "e", "g", "g2", ...; D_n packs a rotation
    r and a reflection bit s into the rank 2r + s (`r << 1n | s`) and names
    elements "e", "s", "r", "rs", "r2", "r2s", .... Every operation reduces
    with `pmod`, whose remainder by zero throws, so the degree n is non-zero
    throughout. */
module Groups {
  import opened Outcomes
  import opened Decimal

  function Abs(x: int): nat {
    if x < 0 then -x else x
  }

  // ---------------------------------------------------------------------
  // Euclidean division facts used by the group laws

  lemma MulBound(k: int, m: int)
    requires m > 0 && k != 0
    ensures k * m >= m || k * m <= -m
    decreases if k > 0 then k else -k
  {
    if k > 0 {
      assert k * m == (k - 1) * m + m;
      if k > 1 { MulBound(k - 1, m); }
    } else {
      assert k * m == (k + 1) * m - m;
      if k < -1 { MulBound(k + 1, m); }
    }
  }

  /** Quotient and remainder are determined by x = q*m + r, 0 <= r < m. */
  lemma ModUnique(x: int, q: int, r: int, m: int)
    requires m > 0 && x == q * m + r && 0 <= r < m
    ensures x % m == r && x / m == q
  {
    var q0, r0 := x / m, x % m;
    assert x == q0 * m + r0;
    assert (q - q0) * m == r0 - r;
    if q != q0 {
      MulBound(q - q0, m);
    }
  }

  /** Reducing a summand first does not change the residue of a sum. */
  lemma ModAdd(x: int, y: int, m: int)
    requires m > 0
    ensures (x % m + y) % m == (x + y) % m
  {
    ModUnique(x % m + y, (x % m + y) / m, (x % m + y) % m, m);
    ModUnique(x + y, x / m + (x % m + y) / m, (x % m + y) % m, m);
  }

  /** Reducing a subtrahend first does not change the residue. */
  lemma ModSub(x: int, y: int, m: int)
    requires m > 0
    ensures (x - y % m) % m == (x - y) % m
  {
    ModUnique(x - y % m, (x - y % m) / m, (x - y % m) % m, m);
    ModUnique(x - y, (x - y % m) / m - y / m, (x - y % m) % m, m);
  }

  // ---------------------------------------------------------------------
  // pmod

  /** The bigint `%` operator: truncates toward zero, so the remainder has
      the sign of the dividend. */
  function TruncRem(a: int, b: int): (r: int)
    requires b != 0
    ensures 0 < r + Abs(b) && r < Abs(b)
    ensures r == a % Abs(b) || r == a % Abs(b) - Abs(b)
  {
    var m := Abs(a) % Abs(b);
    TruncRemCongruent(a, Abs(b));
    if a < 0 then -m else m
  }

  /** A truncated remainder differs from the Euclidean one by 0 or m. */
  lemma TruncRemCongruent(a: int, m: int)
    requires m > 0
    ensures var t := Abs(a) % m;
            a >= 0 || -t == a % m || -t == a % m - m
  {
    if a < 0 {
      var q, t := (-a) / m, (-a) % m;
      assert -a == q * m + t;
      if t == 0 {
        assert a == (-q) * m + 0;
        ModUnique(a, -q, 0, m);
      } else {
        assert a == (-q - 1) * m + (m - t);
        ModUnique(a, -q - 1, m - t, m);
      }
    }
  }

  /** The `while (x < 0n) x += b` loop. */
  function AddUntilNonNeg(x: int, b: int): (r: int)
    requires b > 0
    ensures r >= 0
    ensures x >= 0 ==> r == x
    ensures -b <= x < 0 ==> r == x + b
    decreases if x < 0 then -x else 0
  {
    if x >= 0 then x else AddUntilNonNeg(x + b, b)
  }

  /** `pmod(a, b)`: the remainder of a by |b| in 0 .. |b|-1. */
  function Pmod(a: int, b: int): (r: int)
    requires b != 0
    ensures 0 <= r < Abs(b)
    ensures r == a % Abs(b)
  {
    var m := Abs(b);
    var x := TruncRem(a, m);
    AddUntilNonNeg(x, m)
  }

  /** A rank already in 0 .. |b|-1 is its own residue. */
  lemma PmodSmall(a: int, b: int)
    requires b != 0 && 0 <= a < Abs(b)
    ensures Pmod(a, b) == a
  {
    ModUnique(a, 0, a, Abs(b));
  }

  /** The outcome of a `parse`: a rank, `undefined` for a name the pattern
      rejects, or an exception from the bigint conversion. */
  datatype Parsed = Rank(rank: int) | Undefined | Thrown

  // ---------------------------------------------------------------------
  // CyclicGroup

  /** `CyclicGroup.parse`: "e", or "g" followed by an optional minus sign
      and digits; "g" alone is the generator and "g-" converts the NaN of
      `Number("-")` to a bigint, which throws. */
  function CyclicParse(n: int, name: string): (r: Parsed)
    requires n != 0
    ensures r.Rank? ==> 0 <= r.rank < Abs(n)
    ensures r.Thrown? <==> name == "g-"
  {
    if name == "e" then Rank(0)
    else if |name| == 0 || name[0] != 'g' || !SignedDigits(name[1..]) then Undefined
    else
      var t := name[1..];
      if t == "" then Rank(Pmod(1, n))
      else if t == "-" then Thrown
      else Rank(Pmod(SignedValue(t), n))
  }

  /** `CyclicGroup.name`. */
  function CyclicName(n: int, x: int): (s: string)
    requires n != 0
    ensures |s| > 0 && (s == "e" || s[0] == 'g')
  {
    var y := Pmod(x, n);
    if y == 0 then "e" else "g" + (if y > 1 then NatText(y) else "")
  }

  /** `CyclicGroup.mul`. */
  function CyclicMul(n: int, a: int, b: int): (r: int)
    requires n != 0
    ensures 0 <= r < Abs(n)
  {
    Pmod(a + b, n)
  }

  /** `CyclicGroup.inv`. */
  function CyclicInv(n: int, x: int): (r: int)
    requires n != 0
    ensures 0 <= r < Abs(n)
  {
    Pmod(-x, n)
  }

  /** Parsing a name gives back the residue of the named rank. */
  lemma CyclicNameParse(n: int, x: int)
    requires n != 0
    ensures CyclicParse(n, CyclicName(n, x)) == Rank(Pmod(x, n))
  {
    var y := Pmod(x, n);
    if y == 1 {
      assert CyclicName(n, x) == "g";
      assert CyclicName(n, x)[1..] == "";
      PmodSmall(1, n);
    } else if y > 1 {
      var name := CyclicName(n, x);
      assert name[1..] == NatText(y);
      NatTextValue(y);
      PmodSmall(y, n);
    }
  }

  /** `parse(name(x)) == x` on the canonical ranks 0 .. |n|-1, with
      `name(0) == "e"` and `name(1) == "g"`. */
  lemma CyclicRoundTrip(n: int, x: int)
    requires n != 0 && 0 <= x < Abs(n)
    ensures CyclicParse(n, CyclicName(n, x)) == Rank(x)
    ensures x == 0 ==> CyclicName(n, x) == "e"
    ensures x == 1 ==> CyclicName(n, x) == "g"
  {
    CyclicNameParse(n, x);
    PmodSmall(x, n);
  }

  /** Names of distinct canonical ranks differ. */
  lemma CyclicNameInjective(n: int, x: int, y: int)
    requires n != 0 && 0 <= x < Abs(n) && 0 <= y < Abs(n)
    requires CyclicName(n, x) == CyclicName(n, y)
    ensures x == y
  {
    CyclicRoundTrip(n, x);
    CyclicRoundTrip(n, y);
  }

  /** 0 is a two-sided identity on canonical ranks. */
  lemma CyclicIdentity(n: int, x: int)
    requires n != 0 && 0 <= x < Abs(n)
    ensures CyclicMul(n, 0, x) == x && CyclicMul(n, x, 0) == x
  {
    PmodSmall(x, n);
  }

  /** `mul(a, inv(a)) == 0` and `mul(inv(a), a) == 0`. */
  lemma CyclicInverse(n: int, a: int)
    requires n != 0
    ensures CyclicMul(n, a, CyclicInv(n, a)) == 0
    ensures CyclicMul(n, CyclicInv(n, a), a) == 0
  {
    var m := Abs(n);
    ModAdd(-a, a, m);
    assert a + CyclicInv(n, a) == CyclicInv(n, a) + a;
    ModUnique(0, 0, 0, m);
  }

  lemma CyclicAssociative(n: int, a: int, b: int, c: int)
    requires n != 0
    ensures CyclicMul(n, CyclicMul(n, a, b), c) == CyclicMul(n, a, CyclicMul(n, b, c))
  {
    var m := Abs(n);
    ModAdd(a + b, c, m);
    ModAdd(b + c, a, m);
    assert (b + c) % m + a == a + (b + c) % m;
    assert (a + b) + c == (b + c) + a;
  }

  // ---------------------------------------------------------------------
  // DihedralGroup

  /** The rotation amount of a rank, reduced: `pmod(x >> 1n, n)`. */
  function Rotation(n: int, x: int): (r: int)
    requires n != 0
    ensures 0 <= r < Abs(n)
  {
    Pmod(x / 2, n)
  }

  /** `DihedralGroup.name`. */
  function DihedralName(n: int, x: int): (name: string)
    requires n != 0
    ensures |name| > 0
  {
    var s := x % 2;
    var r := Rotation(n, x);
    if s == 0 && r == 0 then "e"
    else if r == 0 then "s"
    else RotationName(r, s)
  }

  /** The name of a rotation r > 0, with the reflection bit s as a
      trailing "s": "r", "rs", "r2", "r2s", .... */
  function RotationName(r: int, s: int): string
    requires r > 0
  {
    "r" + (if r > 1 then NatText(r) else "") + (if s == 1 then "s" else "")
  }

  /** The four capture groups of the pattern ^(r?)(-?\d*)(s?)(\d*)$. */
  datatype Fields = Fields(rot: string, rotNum: string, refl: string, reflNum: string)

  /** Length of the longest prefix of ASCII digits. */
  function DigitRun(s: string): (k: nat)
    ensures k <= |s| && AllDigits(s[..k])
    ensures k < |s| ==> !IsDigit(s[k])
  {
    if |s| == 0 || !IsDigit(s[0]) then 0
    else
      var k := 1 + DigitRun(s[1..]);
      assert s[..k] == [s[0]] + s[1..][..k - 1];
      k
  }

  /** Length of the longest prefix matched by -?\d*. */
  function SignedRun(s: string): (k: nat)
    ensures k <= |s| && SignedDigits(s[..k])
  {
    if |s| > 0 && s[0] == '-' then
      var k := 1 + DigitRun(s[1..]);
      assert s[..k][1..] == s[1..][..k - 1];
      k
    else DigitRun(s)
  }

  /** The match of the dihedral name pattern. Each optional part is taken
      whenever it can be (the greedy match); no other split of a name
      matches, since a shorter rotation number leaves a digit where only
      "s" or the end may follow. */
  function SplitName(name: string): Option<Fields> {
    if |name| > 0 && name[0] == 'r' then SplitAfter("r", name[1..])
    else SplitAfter("", name)
  }

  /** The last three groups, matched in what follows the first. */
  function SplitAfter(rot: string, t: string): Option<Fields> {
    var i1 := SignedRun(t);
    var i2 := if i1 < |t| && t[i1] == 's' then i1 + 1 else i1;
    if AllDigits(t[i2..]) then Some(Fields(rot, t[..i1], t[i1..i2], t[i2..]))
    else None
  }

  /** The shapes the four capture groups may take. */
  predicate Shaped(f: Fields) {
    && (f.rot == "" || f.rot == "r")
    && SignedDigits(f.rotNum)
    && (f.refl == "" || f.refl == "s")
    && AllDigits(f.reflNum)
  }

  function Joined(f: Fields): string {
    f.rot + f.rotNum + f.refl + f.reflNum
  }

  /** A match splits the name into well-shaped groups. */
  lemma SplitNameSound(name: string)
    requires SplitName(name).Some?
    ensures Shaped(SplitName(name).value)
    ensures Joined(SplitName(name).value) == name
  {
    var rot := if |name| > 0 && name[0] == 'r' then "r" else "";
    var t := name[|rot|..];
    assert name == rot + t;
    SplitAfterSound(rot, t);
  }

  lemma SplitAfterSound(rot: string, t: string)
    requires SplitAfter(rot, t).Some?
    ensures var f := SplitAfter(rot, t).value;
            && SignedDigits(f.rotNum) && (f.refl == "" || f.refl == "s")
            && AllDigits(f.reflNum) && f.rot == rot && Joined(f) == rot + t
  {
    var f := SplitAfter(rot, t).value;
    assert t == f.rotNum + f.refl + f.reflNum;
  }

  /** The longest digit prefix of a + b covers the digits a and stops at
      a following non-digit. */
  lemma {:induction false} DigitRunCovers(a: string, b: string)
    requires AllDigits(a)
    ensures |a| <= DigitRun(a + b)
    ensures |b| > 0 && !IsDigit(b[0]) ==> DigitRun(a + b) == |a|
  {
    if |a| > 0 {
      assert (a + b)[1..] == a[1..] + b;
      DigitRunCovers(a[1..], b);
    } else {
      assert a + b == b;
    }
  }

  /** The same for the longest prefix matched by -?\d*. */
  lemma SignedRunCovers(a: string, b: string)
    requires SignedDigits(a)
    ensures |a| <= SignedRun(a + b)
    ensures |b| > 0 && !IsDigit(b[0]) && (|a| > 0 || b[0] != '-') ==> SignedRun(a + b) == |a|
  {
    if |a| > 0 && a[0] == '-' {
      assert (a + b)[1..] == a[1..] + b;
      DigitRunCovers(a[1..], b);
    } else {
      DigitRunCovers(a, b);
    }
  }

  /** A name of well-shaped groups whose last group follows an "s" (or is
      empty) is split back into exactly those groups. */
  lemma SplitNameExact(f: Fields)
    requires Shaped(f) && (f.refl == "s" || f.reflNum == "")
    ensures SplitName(Joined(f)) == Some(f)
  {
    var t := f.rotNum + f.refl + f.reflNum;
    var name := Joined(f);
    assert name == f.rot + t;
    SplitAfterExact(f);
    if f.rot == "r" {
      assert name[0] == 'r' && name[1..] == t;
    } else {
      assert name == t;
      if |t| > 0 {
        if |f.rotNum| > 0 {
          assert t[0] == f.rotNum[0];
        } else if |f.refl| > 0 {
          assert t[0] == 's';
        }
      }
    }
  }

  lemma SplitAfterExact(f: Fields)
    requires Shaped(f) && (f.refl == "s" || f.reflNum == "")
    ensures SplitAfter(f.rot, f.rotNum + f.refl + f.reflNum) == Some(f)
  {
    var rest := f.refl + f.reflNum;
    var t := f.rotNum + rest;
    assert t == f.rotNum + f.refl + f.reflNum;
    SignedRunCovers(f.rotNum, rest);
    var i1 := SignedRun(t);
    assert i1 == |f.rotNum|;
    assert t[..i1] == f.rotNum && t[i1..] == rest;
    if f.refl == "s" {
      assert t[i1] == 's';
      assert t[i1..i1 + 1] == "s" && t[i1 + 1..] == f.reflNum;
      assert AllDigits(t[i1 + 1..]);
      assert SplitAfter(f.rot, t) == Some(Fields(f.rot, t[..i1], t[i1..i1 + 1], t[i1 + 1..]));
    } else {
      assert i1 == |t|;
      assert t[i1..] == "";
      assert SplitAfter(f.rot, t) == Some(Fields(f.rot, t[..i1], t[i1..i1], t[i1..]));
    }
  }

  /** Every name made of well-shaped groups matches. */
  lemma SplitNameComplete(f: Fields)
    requires Shaped(f)
    ensures SplitName(Joined(f)).Some?
  {
    if f.refl == "" && f.reflNum != "" {
      var g := Fields(f.rot, f.rotNum + f.reflNum, "", "");
      assert Joined(g) == Joined(f);
      if |f.rotNum| > 0 && f.rotNum[0] == '-' {
        assert g.rotNum[1..] == f.rotNum[1..] + f.reflNum;
      }
      SplitNameExact(g);
    } else {
      SplitNameExact(f);
    }
  }

  /** `DihedralGroup.parse`. */
  function DihedralParse(n: int, name: string): (r: Parsed)
    requires n != 0
    ensures r.Rank? ==> 0 <= r.rank < 2 * Abs(n)
    ensures r.Thrown? ==> |name| >= 2 && name[..2] == "r-"
  {
    if name == "e" then Rank(0)
    else match SplitName(name)
      case None => Undefined
      case Some(f) =>
        SplitNameSound(name);
        assert f.rot == "r" && f.rotNum == "-" ==> name[..2] == "r-" by {
          if f.rot == "r" && f.rotNum == "-" {
            assert name == "r-" + (f.refl + f.reflNum);
          }
        }
        FieldsRank(n, f)
  }

  /** The rank named by matched groups: a number needs its letter, "r-"
      makes `BigInt("-")` throw, a bare letter counts once and a missing
      one zero times. */
  function FieldsRank(n: int, f: Fields): (r: Parsed)
    requires n != 0 && Shaped(f)
    ensures r.Rank? ==> 0 <= r.rank < 2 * Abs(n)
    ensures r.Thrown? ==> f.rot == "r" && f.rotNum == "-"
  {
    if f.rotNum != "" && f.rot == "" then Undefined
    else if f.reflNum != "" && f.refl == "" then Undefined
    else if f.rot != "" && f.rotNum == "-" then Thrown
    else
      var r := Pmod(if f.rot == "" then 0 else if f.rotNum == "" then 1 else SignedValue(f.rotNum), n);
      var s := Pmod(if f.refl == "" then 0 else if f.reflNum == "" then 1 else DigitsValue(f.reflNum), 2);
      Rank(2 * r + s)
  }


  /** The rotation of a product before reduction: a reflection in the left
      factor reverses the right factor's rotation. */
  function Turn(a: int, b: int): int {
    if a % 2 == 1 then a / 2 - b / 2 else a / 2 + b / 2
  }

  /** The reflection bit of a product: the exclusive or of the factors'. */
  function Flip(a: int, b: int): (s: int)
    ensures s == (a + b) % 2
  {
    ParityOfSum(a, b);
    if a % 2 == b % 2 then 0 else 1
  }

  /** `DihedralGroup.mul` as written: the product's rotation and reflection
      are packed as s*n + r rather than in the 2r + s encoding of the other
      operations. */
  function DihedralMul(n: int, a: int, b: int): (x: int)
    requires n != 0
    ensures n > 0 ==> 0 <= x < 2 * n
  {
    Flip(a, b) * n + Pmod(Turn(a, b), n)
  }

  /** The product with the packing the rest of the group uses: the rank
      2r + s of the same rotation r and reflection s as `DihedralMul`. */
  function DihedralMulFixed(n: int, a: int, b: int): (x: int)
    requires n != 0
    ensures 0 <= x < 2 * Abs(n)
    ensures x % 2 == (a + b) % 2 && x / 2 == Turn(a, b) % Abs(n)
  {
    var r := Pmod(Turn(a, b), n);
    var s := Flip(a, b);
    ModUnique(2 * r + s, r, s, 2);
    2 * r + s
  }

  /** What line 50 does wrong, on every input: the as-written product
      holds the corrected product's reflection bit in the place of n and
      its rotation in the units, swapping the halves of 2r + s. */
  lemma DihedralMulRepacked(n: int, a: int, b: int)
    requires n > 0
    ensures var x := DihedralMulFixed(n, a, b);
      DihedralMul(n, a, b) == (x % 2) * n + x / 2
  {
    Unpack(2 * Pmod(Turn(a, b), n) + Flip(a, b), Pmod(Turn(a, b), n), Flip(a, b));
  }

  /** The reflection bit of a product is the exclusive or of the operands'
      bits, i.e. the parity of their sum. */
  lemma ParityOfSum(a: int, b: int)
    ensures (a + b) % 2 == if a % 2 == b % 2 then 0 else 1
  {
    ModUnique(a, a / 2, a % 2, 2);
    ModUnique(b, b / 2, b % 2, 2);
    if a % 2 == b % 2 {
      ModUnique(a + b, a / 2 + b / 2 + a % 2, 0, 2);
    } else {
      ModUnique(a + b, a / 2 + b / 2, 1, 2);
    }
  }

  /** `DihedralGroup.inv`: ranks outside 0 .. 2n-1 are reduced first; the
      identity and the reflections are their own inverses and the rotation
      of rank x is inverted by order - x. */
  function DihedralInv(n: int, x: int): (y: int)
    requires n != 0
    ensures n > 0 ==> 0 <= y < 2 * n
  {
    var order := 2 * n;
    var z := if x < 0 || x >= order then Pmod(x, order) else x;
    if z != 0 && z % 2 == 0 then order - z else z
  }

  /** A name made of well-shaped groups other than "e" parses through its
      groups. */
  lemma ParseJoined(n: int, f: Fields)
    requires n != 0 && Shaped(f) && (f.refl == "s" || f.reflNum == "")
    requires Joined(f) != "e"
    ensures DihedralParse(n, Joined(f)) == FieldsRank(n, f)
  {
    SplitNameExact(f);
  }

  /** The name of a rotation r > 0, followed by "s" when s is 1, parses
      back to 2r + s. */
  lemma RotationNameParse(n: int, r: int, s: int)
    requires 0 < r < n && (s == 0 || s == 1)
    ensures DihedralParse(n, RotationName(r, s)) == Rank(2 * r + s)
  {
    var num := if r > 1 then NatText(r) else "";
    var refl := if s == 1 then "s" else "";
    var f := Fields("r", num, refl, "");
    assert Joined(f) == RotationName(r, s);
    assert Joined(f)[0] == 'r';
    assert SignedDigits(num) && num != "-" by {
      if r > 1 {
        assert IsDigit(num[0]);
      }
    }
    ParseJoined(n, f);
    var rotation := if num == "" then 1 else SignedValue(num);
    assert rotation == r by {
      if r > 1 {
        assert IsDigit(num[0]);
        NatTextValue(r);
      }
    }
    PmodSmall(r, n);
    PmodSmall(s, 2);
    assert Pmod(if refl == "" then 0 else 1, 2) == s;
  }

  /** Parsing a dihedral name gives back its rank in 0 .. 2n-1. */
  lemma DihedralRoundTrip(n: int, x: int)
    requires n > 0 && 0 <= x < 2 * n
    ensures DihedralParse(n, DihedralName(n, x)) == Rank(x)
  {
    var s := x % 2;
    var r := Rotation(n, x);
    PmodSmall(x / 2, n);
    assert x == 2 * r + s;
    if r == 0 && s == 1 {
      var f := Fields("", "", "s", "");
      assert Joined(f) == "s";
      SplitNameExact(f);
      PmodSmall(0, n);
      PmodSmall(1, 2);
    } else if r != 0 {
      RotationNameParse(n, r, s);
    }
  }

  /** `inv` fixes 0 and every odd rank and sends an even non-zero rank x to
      2n - x. */
  lemma DihedralInvCases(n: int, x: int)
    requires n > 0 && 0 <= x < 2 * n
    ensures x == 0 || x % 2 == 1 ==> DihedralInv(n, x) == x
    ensures x != 0 && x % 2 == 0 ==> DihedralInv(n, x) == 2 * n - x
    ensures 0 <= DihedralInv(n, x) < 2 * n
  {
  }

  /** `inv` is an involution on the canonical ranks. */
  lemma DihedralInvInvolution(n: int, x: int)
    requires n > 0 && 0 <= x < 2 * n
    ensures DihedralInv(n, DihedralInv(n, x)) == x
  {
    DihedralInvCases(n, x);
    DihedralInvCases(n, DihedralInv(n, x));
  }

  /** The finding: for every n > 1 the product of the identity and the
      reflection s comes out as rank n, which the group's own `name` calls a
      rotation ("r..."), instead of rank 1, named "s". */
  lemma DihedralMulMisencodes(n: int)
    requires n > 1
    ensures DihedralMul(n, 0, 1) == n
    ensures DihedralName(n, 1) == "s" && DihedralName(n, n)[0] == 'r'
    ensures DihedralMulFixed(n, 0, 1) == 1
  {
    PmodSmall(0, n);
    PmodSmall(n / 2, n);
    ModUnique(1, 0, 1, 2);
  }

  /** Under the corrected product 0 is a two-sided identity. */
  lemma DihedralFixedIdentity(n: int, x: int)
    requires n > 0 && 0 <= x < 2 * n
    ensures DihedralMulFixed(n, 0, x) == x && DihedralMulFixed(n, x, 0) == x
  {
    PmodSmall(x / 2, n);
    ModUnique(x, x / 2, x % 2, 2);
  }

  /** Under the corrected product `inv` gives two-sided inverses. */
  lemma DihedralFixedInverse(n: int, x: int)
    requires n > 0 && 0 <= x < 2 * n
    ensures DihedralMulFixed(n, x, DihedralInv(n, x)) == 0
    ensures DihedralMulFixed(n, DihedralInv(n, x), x) == 0
  {
    var y := DihedralInv(n, x);
    DihedralInvCases(n, x);
    ModUnique(x, x / 2, x % 2, 2);
    ModUnique(0, 0, 0, n);
    if x != 0 && x % 2 == 0 {
      ModUnique(y, n - x / 2, 0, 2);
      ModUnique(n, 1, 0, n);
    }
  }

  /** The corrected product is associative on all ranks. */
  lemma DihedralFixedAssociative(n: int, a: int, b: int, c: int)
    requires n != 0
    ensures DihedralMulFixed(n, DihedralMulFixed(n, a, b), c)
         == DihedralMulFixed(n, a, DihedralMulFixed(n, b, c))
  {
    var m := Abs(n);
    var ab := DihedralMulFixed(n, a, b);
    var bc := DihedralMulFixed(n, b, c);
    var left := DihedralMulFixed(n, ab, c);
    var right := DihedralMulFixed(n, a, bc);
    FlipAssociative(a, b, c);
    assert left % 2 == right % 2;
    TurnAssociative(m, a, b, c);
    assert left / 2 == right / 2;
    ModUnique(left, left / 2, left % 2, 2);
    ModUnique(right, right / 2, right % 2, 2);
  }

  lemma FlipAssociative(a: int, b: int, c: int)
    ensures ((a + b) % 2 + c) % 2 == (a + (b + c) % 2) % 2
  {
    ModAdd(a + b, c, 2);
    ModAdd(b + c, a, 2);
    assert (b + c) % 2 + a == a + (b + c) % 2;
  }

  /** The rotations of both bracketings agree modulo m. */
  lemma TurnAssociative(m: int, a: int, b: int, c: int)
    requires m > 0
    ensures var ab := 2 * (Turn(a, b) % m) + (a + b) % 2;
            var bc := 2 * (Turn(b, c) % m) + (b + c) % 2;
            Turn(ab, c) % m == Turn(a, bc) % m
  {
    var ra, rb, rc := a / 2, b / 2, c / 2;
    var tab, tbc := Turn(a, b), Turn(b, c);
    var sab, sbc := (a + b) % 2, (b + c) % 2;
    ParityOfSum(a, b);
    ParityOfSum(b, c);
    var ab := 2 * (tab % m) + sab;
    var bc := 2 * (tbc % m) + sbc;
    Unpack(ab, tab % m, sab);
    Unpack(bc, tbc % m, sbc);
    var left, right := Turn(ab, c), Turn(a, bc);
    if a % 2 == 0 && b % 2 == 0 {
      assert left == tab % m + rc && right == ra + tbc % m;
      AddAdd(m, ra, rb, rc, tab, tbc);
    } else if a % 2 == 0 {
      assert left == tab % m - rc && right == ra + tbc % m;
      AddSub(m, ra, rb, rc, tab, tbc);
    } else if b % 2 == 0 {
      assert left == tab % m - rc && right == ra - tbc % m;
      SubAdd(m, ra, rb, rc, tab, tbc);
    } else {
      assert left == tab % m + rc && right == ra - tbc % m;
      SubSub(m, ra, rb, rc, tab, tbc);
    }
  }

  /** The halves of a packed rank 2r + s. */
  lemma Unpack(x: int, r: int, s: int)
    requires x == 2 * r + s && 0 <= s < 2
    ensures x / 2 == r && x % 2 == s
  {
    ModUnique(x, r, s, 2);
  }

  /** A value that differs from t by a multiple of m has t's residue. */
  lemma ModShifted(u: int, t: int, k: int, m: int)
    requires m > 0 && u == t - k * m
    ensures u % m == t % m
  {
    var q := t / m;
    assert u == (q - k) * m + t % m by {
      assert (q - k) * m == q * m - k * m;
    }
    ModUnique(u, q - k, t % m, m);
  }

  /** The four rotation identities behind TurnAssociative, one per pair of
      reflection bits of the outer factors; s and t are the unreduced
      rotations of the inner products. */
  lemma AddAdd(m: int, x: int, y: int, z: int, s: int, t: int)
    requires m > 0 && s == x + y && t == y + z
    ensures (s % m + z) % m == (x + t % m) % m
  {
    ModShifted(s % m + z, x + y + z, s / m, m);
    ModShifted(x + t % m, x + y + z, t / m, m);
  }

  lemma AddSub(m: int, x: int, y: int, z: int, s: int, t: int)
    requires m > 0 && s == x + y && t == y - z
    ensures (s % m - z) % m == (x + t % m) % m
  {
    ModShifted(s % m - z, x + y - z, s / m, m);
    ModShifted(x + t % m, x + y - z, t / m, m);
  }

  lemma SubAdd(m: int, x: int, y: int, z: int, s: int, t: int)
    requires m > 0 && s == x - y && t == y + z
    ensures (s % m - z) % m == (x - t % m) % m
  {
    ModShifted(s % m - z, x - y - z, s / m, m);
    ModShifted(x - t % m, x - y - z, -(t / m), m);
  }

  lemma SubSub(m: int, x: int, y: int, z: int, s: int, t: int)
    requires m > 0 && s == x - y && t == y - z
    ensures (s % m + z) % m == (x - t % m) % m
  {
    ModShifted(s % m + z, x - y + z, s / m, m);
    ModShifted(x - t % m, x - y + z, -(t / m), m);
  }
}
