/** Positional arithmetic on little-endian sequences of base-2^32 limbs.
    Everything here is about numbers, not about the BigInt record; the
    engine's functions are proved against `Value`. */
module Limbs {

  /** kBaseDegree: the number of bits in one limb. */
  const BASE_DEGREE: nat := 32

  /** kBase: the limb radix, 2^kBaseDegree. */
  const BASE: nat := 0x1_0000_0000

  /** A limb holds a value in [0, 2^32); the source stores it in a uint64 cell. */
  type Limb = x: nat | x < 0x1_0000_0000

  /** BASE^k. */
  function Pow(k: nat): (p: nat)
    ensures p >= 1
  {
    if k == 0 then 1 else BASE * Pow(k - 1)
  }

  /** The magnitude denoted by limbs, least-significant limb first. */
  function Value(s: seq<Limb>): nat
  {
    if |s| == 0 then 0 else s[0] + BASE * Value(s[1..])
  }

  /** `k` zero limbs. */
  function Zeros(k: nat): (z: seq<Limb>)
    ensures |z| == k
    ensures forall i :: 0 <= i < k ==> z[i] == 0
  {
    seq(k, _ => 0)
  }

  /** No redundant most-significant zero limb (a single zero limb is allowed). */
  predicate Trimmed(s: seq<Limb>)
  {
    |s| == 1 || (|s| > 1 && s[|s| - 1] != 0)
  }

  /** Three-way comparison of integers, as a sign in {-1, 0, 1}. */
  function Cmp(a: int, b: int): (c: int)
    ensures -1 <= c <= 1
    ensures c < 0 <==> a < b
    ensures c > 0 <==> a > b
  {
    if a < b then -1 else if a > b then 1 else 0
  }

  lemma {:induction false} PowAdd(a: nat, b: nat)
    ensures Pow(a + b) == Pow(a) * Pow(b)
    decreases a
  {
    if a > 0 {
      PowAdd(a - 1, b);
      assert Pow(a + b) == BASE * Pow(a - 1 + b);
      assert BASE * (Pow(a - 1) * Pow(b)) == (BASE * Pow(a - 1)) * Pow(b);
    }
  }

  lemma {:induction false} PowMonotone(a: nat, b: nat)
    requires a <= b
    ensures Pow(a) <= Pow(b)
    decreases b
  {
    if a < b {
      PowMonotone(a, b - 1);
    }
  }

  /** Appending limbs at the top scales the appended part by BASE^|s|. */
  lemma {:induction false} ValueAppend(s: seq<Limb>, t: seq<Limb>)
    ensures Value(s + t) == Value(s) + Pow(|s|) * Value(t)
    decreases |s|
  {
    if |s| == 0 {
      assert s + t == t;
    } else {
      assert (s + t)[1..] == s[1..] + t;
      ValueAppend(s[1..], t);
      calc {
        Value(s + t);
        s[0] + BASE * Value(s[1..] + t);
        s[0] + BASE * (Value(s[1..]) + Pow(|s| - 1) * Value(t));
        { assert BASE * (Pow(|s| - 1) * Value(t)) == (BASE * Pow(|s| - 1)) * Value(t); }
        s[0] + BASE * Value(s[1..]) + Pow(|s|) * Value(t);
      }
    }
  }

  /** Splitting at any offset: low part plus BASE^k times the high part. */
  lemma ValueSplit(s: seq<Limb>, k: nat)
    requires k <= |s|
    ensures Value(s) == Value(s[..k]) + Pow(k) * Value(s[k..])
  {
    assert s == s[..k] + s[k..];
    ValueAppend(s[..k], s[k..]);
  }

  /** The top limb's contribution. */
  lemma ValueTop(s: seq<Limb>)
    requires |s| >= 1
    ensures Value(s) == Value(s[..|s| - 1]) + Pow(|s| - 1) * s[|s| - 1]
  {
    ValueSplit(s, |s| - 1);
    var top := s[|s| - 1..];
    assert top == [s[|s| - 1]] && top[1..] == [];
    assert Value(top) == s[|s| - 1];
  }

  lemma {:induction false} ValueZeros(k: nat)
    ensures Value(Zeros(k)) == 0
    decreases k
  {
    if k > 0 {
      assert Zeros(k)[1..] == Zeros(k - 1);
      ValueZeros(k - 1);
    }
  }

  /** Align: zero limbs at the top do not change the value. */
  lemma ValueAlign(s: seq<Limb>, k: nat)
    ensures Value(s + Zeros(k)) == Value(s)
  {
    ValueAppend(s, Zeros(k));
    ValueZeros(k);
  }

  /** Shift: zero limbs at the bottom multiply by BASE^k. */
  lemma ValueShift(s: seq<Limb>, k: nat)
    ensures Value(Zeros(k) + s) == Pow(k) * Value(s)
  {
    ValueAppend(Zeros(k), s);
    ValueZeros(k);
  }

  /** k limbs hold less than BASE^k. */
  lemma {:induction false} ValueBound(s: seq<Limb>)
    ensures Value(s) < Pow(|s|)
    decreases |s|
  {
    if |s| > 0 {
      ValueBound(s[1..]);
      assert Value(s[1..]) <= Pow(|s| - 1) - 1;
      assert BASE * Value(s[1..]) <= BASE * (Pow(|s| - 1) - 1);
    }
  }

  /** A trimmed sequence of two or more limbs is at least BASE^(|s|-1). */
  lemma TrimmedLowerBound(s: seq<Limb>)
    requires Trimmed(s) && |s| >= 2
    ensures Value(s) >= Pow(|s| - 1)
  {
    ValueTop(s);
    assert Pow(|s| - 1) * s[|s| - 1] >= Pow(|s| - 1) * 1;
  }

  /** A value with a zero top limb is below BASE^(|s|-1). */
  lemma TopZeroBound(s: seq<Limb>)
    requires |s| >= 1 && s[|s| - 1] == 0
    ensures Value(s) < Pow(|s| - 1)
  {
    ValueTop(s);
    ValueBound(s[..|s| - 1]);
  }

  /** Between trimmed sequences, the longer one denotes the larger number. */
  lemma TrimmedLengthOrder(s: seq<Limb>, t: seq<Limb>)
    requires Trimmed(s) && Trimmed(t) && |s| < |t|
    ensures Value(s) < Value(t)
  {
    ValueBound(s);
    PowMonotone(|s|, |t| - 1);
    TrimmedLowerBound(t);
  }

  /** A trimmed sequence denotes zero exactly when it is the single zero limb. */
  lemma TrimmedZero(s: seq<Limb>)
    requires Trimmed(s)
    ensures Value(s) == 0 <==> (|s| == 1 && s[0] == 0)
  {
    if |s| >= 2 {
      TrimmedLowerBound(s);
    } else {
      assert s[1..] == [];
    }
  }

  /** Two trimmed sequences with the same value are equal. */
  lemma {:induction false} TrimmedUnique(s: seq<Limb>, t: seq<Limb>)
    requires Trimmed(s) && Trimmed(t) && Value(s) == Value(t)
    ensures s == t
    decreases |s|
  {
    if |s| < |t| {
      TrimmedLengthOrder(s, t);
    } else if |t| < |s| {
      TrimmedLengthOrder(t, s);
    } else if |s| == 1 {
      assert s[1..] == [] && t[1..] == [];
    } else {
      // equal lengths >= 2: the low limbs agree, then the upper parts do
      DivModUnique(Value(s), BASE, Value(s[1..]), s[0]);
      DivModUnique(Value(t), BASE, Value(t[1..]), t[0]);
      assert s[1..][|s[1..]| - 1] == s[|s| - 1];
      assert t[1..][|t[1..]| - 1] == t[|t| - 1];
      TrimmedUnique(s[1..], t[1..]);
      assert s == [s[0]] + s[1..];
      assert t == [t[0]] + t[1..];
    }
  }

  /** Division with remainder is determined by its defining equation. */
  lemma DivModUnique(x: int, m: int, q: int, r: int)
    requires m > 0 && 0 <= r < m && x == m * q + r
    ensures q == x / m && r == x % m
  {
    var q0, r0 := x / m, x % m;
    MulAtLeast(m, q - q0);
    assert m * (q - q0) == r0 - r;
  }

  lemma MulAtLeast(m: int, d: int)
    requires m > 0
    ensures d >= 1 ==> m * d >= m
    ensures d <= -1 ==> m * d <= -m
  {
    if d >= 1 {
      assert m * d == m + m * (d - 1);
    } else if d <= -1 {
      assert m * d == -m + m * (d + 1);
    }
  }

  /** A larger high digit outweighs any low part below the scale `p`. */
  lemma HighDigitDecides(a: nat, b: nat, p: nat, x: nat, y: nat)
    requires a < p && b < p && x < y
    ensures a + p * x < b + p * y
  {
    assert p * y >= p * (x + 1);
  }

  /** Products are monotone in both factors. */
  lemma MulMono(a: nat, b: nat, c: nat, d: nat)
    requires a <= c && b <= d
    ensures a * b <= c * d
  {
    assert a * b <= c * b;
    assert c * b <= c * d;
  }

  /** A number below m*k has a quotient by m below k. */
  lemma DivBelow(x: nat, m: nat, k: nat)
    requires m > 0 && x < m * k
    ensures x / m < k
  {
    var q := x / m;
    assert x == m * q + x % m;
    if q >= k {
      MulMono(m, k, m, q);
    }
  }

  lemma SplitDivMod(v: nat, p: nat, hi: nat, lo: nat)
    requires p > 0 && lo < p && v == lo + p * hi
    ensures hi == v / p && lo == v % p
  {
    DivModUnique(v, p, hi, lo);
  }

  /** TrimFront (drop k low limbs) is division by BASE^k. */
  lemma ValueDropLow(s: seq<Limb>, k: nat)
    requires k <= |s|
    ensures Value(s[k..]) == Value(s) / Pow(k)
    ensures Value(s[..k]) == Value(s) % Pow(k)
  {
    ValueSplit(s, k);
    ValueBound(s[..k]);
    SplitDivMod(Value(s), Pow(k), Value(s[k..]), Value(s[..k]));
  }

  /** Dropping at least all the limbs leaves nothing. */
  lemma ValueDropAll(s: seq<Limb>, k: nat)
    requires |s| <= k
    ensures Value(s) / Pow(k) == 0
  {
    ValueBound(s);
    PowMonotone(|s|, k);
    DivModUnique(Value(s), Pow(k), 0, Value(s));
  }

  /** Lexicographic comparison from the top of two equal-length sequences,
      looking at indices 0..j. */
  lemma {:induction false} PrefixCompare(s: seq<Limb>, t: seq<Limb>, j: nat)
    requires |s| == |t| && j < |s|
    requires s[j] != t[j]
    ensures s[j] < t[j] ==> Value(s[..j + 1]) < Value(t[..j + 1])
    ensures s[j] > t[j] ==> Value(s[..j + 1]) > Value(t[..j + 1])
  {
    ValueTop(s[..j + 1]);
    ValueTop(t[..j + 1]);
    assert s[..j + 1][..j] == s[..j];
    assert t[..j + 1][..j] == t[..j];
    ValueBound(s[..j]);
    ValueBound(t[..j]);
    if s[j] < t[j] {
      HighDigitDecides(Value(s[..j]), Value(t[..j]), Pow(j), s[j], t[j]);
    } else {
      HighDigitDecides(Value(t[..j]), Value(s[..j]), Pow(j), t[j], s[j]);
    }
  }

  /** Equal top limbs: the comparison is decided below. */
  lemma PrefixSameTop(s: seq<Limb>, t: seq<Limb>, j: nat)
    requires |s| == |t| && 0 < j < |s|
    requires s[j] == t[j]
    ensures Cmp(Value(s[..j + 1]), Value(t[..j + 1])) == Cmp(Value(s[..j]), Value(t[..j]))
  {
    ValueTop(s[..j + 1]);
    ValueTop(t[..j + 1]);
    assert s[..j + 1][..j] == s[..j];
    assert t[..j + 1][..j] == t[..j];
  }
}
