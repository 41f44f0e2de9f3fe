/** The BigInt record and its normalisation helpers (big_integer.hpp and the
    helper part of big_integer.cpp).

    A value is a sign tag in {-1, 0, 1} and a non-empty little-endian limb
    vector. The record is deliberately loose: the engine builds zero
    magnitudes with a Plus sign and untrimmed limb vectors in its internal
    steps, so `Canonical` is a predicate stated where the source promises it,
    not a type invariant. The source keeps `body_size_` next to the vector;
    here it is `|body|`, so the two cannot disagree. */
module BigInts {
  import opened Limbs

  /** SignValues, kept as the ints the source multiplies and adds. */
  type Sign = s: int | -1 <= s <= 1

  const Minus: Sign := -1
  const Zero: Sign := 0
  const Plus: Sign := 1

  /** kRadixBase: the only radix used for text. */
  const RADIX: nat := 10

  /** kMaxValue: the magnitude of INT64_MIN. */
  const MAX_VALUE: nat := 0x8000_0000_0000_0000

  /** body_ is never empty. */
  type Body = s: seq<Limb> | |s| >= 1 witness [0]

  datatype BigInt = BigInt(sign: Sign, body: Body)

  /** BigInt(): the zero value. */
  const ZERO: BigInt := BigInt(Zero, [0])

  function Magnitude(x: BigInt): nat
  {
    Value(x.body)
  }

  /** The signed integer a record denotes. */
  function ToInt(x: BigInt): int
  {
    x.sign * Value(x.body)
  }

  /** The representation invariant of the public interface: trimmed, and
      the sign is Zero exactly when the magnitude is zero. */
  predicate Canonical(x: BigInt)
  {
    Trimmed(x.body) && (x.sign == Zero <==> Value(x.body) == 0)
  }

  /** Signs multiply to a sign, and their order is Minus < Zero < Plus. */
  lemma SignAlgebra(a: Sign, b: Sign)
    ensures -1 <= a * b <= 1
    ensures Minus < Zero < Plus
    ensures a * b == 0 <==> a == Zero || b == Zero
  {
  }

  /** ToInt by cases of the sign. */
  lemma ToIntBySign(x: BigInt)
    ensures x.sign == Plus ==> ToInt(x) == Value(x.body)
    ensures x.sign == Minus ==> ToInt(x) == 0 - Value(x.body)
    ensures x.sign == Zero ==> ToInt(x) == 0
  {
  }

  /** Two signs multiply to Minus exactly when they are opposite and nonzero. */
  lemma SignProduct(a: Sign, b: Sign)
    ensures a * b == -1 <==> (a == Minus && b == Plus) || (a == Plus && b == Minus)
    ensures a * b == 1 <==> (a == b && a != Zero)
  {
  }

  /** Canonical records are determined by the integer they denote. */
  lemma CanonicalUnique(x: BigInt, y: BigInt)
    requires Canonical(x) && Canonical(y) && ToInt(x) == ToInt(y)
    ensures x == y
  {
    if Value(x.body) == 0 || Value(y.body) == 0 {
      TrimmedZero(x.body);
      TrimmedZero(y.body);
    } else {
      assert x.sign == y.sign;
      assert Value(x.body) == Value(y.body);
      TrimmedUnique(x.body, y.body);
    }
  }

  /** The canonical record for an integer. */
  lemma CanonicalToInt(x: BigInt)
    requires Canonical(x)
    ensures ToInt(x) == 0 <==> x == ZERO
    ensures ToInt(x) < 0 <==> x.sign == Minus
    ensures ToInt(x) > 0 <==> x.sign == Plus
  {
    TrimmedZero(x.body);
  }

  /** IsZero: the single zero limb. */
  function IsZero(x: BigInt): (b: bool)
    ensures b ==> Value(x.body) == 0
    ensures Trimmed(x.body) ==> (b <==> Value(x.body) == 0)
  {
    TrimmedZeroIfTrimmed(x.body);
    |x.body| == 1 && x.body[0] == 0
  }

  lemma TrimmedZeroIfTrimmed(s: Body)
    ensures |s| == 1 && s[0] == 0 ==> Value(s) == 0
    ensures Trimmed(s) ==> (Value(s) == 0 <==> (|s| == 1 && s[0] == 0))
  {
    if |s| == 1 {
      assert s[1..] == [];
    }
    if Trimmed(s) {
      TrimmedZero(s);
    }
  }

  /** The values the public interface hands out: the canonical records,
      and the single zero limb under a Plus or Minus sign, which the string
      constructor leaves for numerals such as "00" and "-0000". */
  predicate PublicValue(x: BigInt)
  {
    Canonical(x) || IsZero(x)
  }

  /** A public value denotes zero exactly when it is the single zero limb,
      and is canonical otherwise. */
  lemma PublicValueZero(x: BigInt)
    requires PublicValue(x)
    ensures IsZero(x) <==> ToInt(x) == 0
    ensures !IsZero(x) ==> Canonical(x)
  {
    ToIntBySign(x);
  }

  /** TrimZeroes: pops zero top limbs while more than one limb remains. */
  function TrimZeroes(x: BigInt): (r: BigInt)
    ensures r.sign == x.sign
    ensures Trimmed(r.body)
    ensures Value(r.body) == Value(x.body)
    ensures |r.body| <= |x.body| && r.body == x.body[..|r.body|]
    ensures forall i :: |r.body| <= i < |x.body| ==> x.body[i] == 0
    decreases |x.body|
  {
    if |x.body| != 1 && x.body[|x.body| - 1] == 0 then
      ValueTop(x.body);
      TrimZeroes(BigInt(x.sign, x.body[..|x.body| - 1]))
    else
      x
  }

  /** TrimZeroes followed by the `if (IsZero()) sign_ = Zero` step. */
  function Normalize(x: BigInt): (r: BigInt)
    ensures Value(r.body) == Value(x.body)
    ensures Trimmed(r.body)
    ensures r.sign == (if Value(x.body) == 0 then Zero else x.sign)
    ensures x.sign != Zero ==> Canonical(r)
    ensures |r.body| <= |x.body|
  {
    var t := TrimZeroes(x);
    if IsZero(t) then BigInt(Zero, t.body) else t
  }

  /** Align: k zero limbs appended at the most-significant end. */
  function Align(x: BigInt, k: nat): (r: BigInt)
    ensures r.sign == x.sign
    ensures |r.body| == |x.body| + k
    ensures Value(r.body) == Value(x.body)
    ensures r.body[..|x.body|] == x.body
  {
    ValueAlign(x.body, k);
    BigInt(x.sign, x.body + Zeros(k))
  }

  /** Shift: k zero limbs prepended at the least-significant end. */
  function Shift(x: BigInt, k: nat): (r: BigInt)
    ensures r.sign == x.sign
    ensures |r.body| == |x.body| + k
    ensures Value(r.body) == Pow(k) * Value(x.body)
    ensures r.body[k..] == x.body
  {
    ValueShift(x.body, k);
    BigInt(x.sign, Zeros(k) + x.body)
  }

  /** TrimFront: drops the k least-significant limbs, or gives zero when
      nothing would remain. */
  function TrimFront(x: BigInt, k: nat): (r: BigInt)
    ensures Value(r.body) == Value(x.body) / Pow(k)
    ensures |x.body| > k ==> r == BigInt(x.sign, x.body[k..])
    ensures |x.body| <= k ==> r == ZERO
  {
    if |x.body| > k then
      ValueDropLow(x.body, k);
      BigInt(x.sign, x.body[k..])
    else
      ValueDropAll(x.body, k);
      ZeroValue();
      ZERO
  }

  /** TrimBack: drops the k most-significant limbs, or gives zero when
      nothing would remain. */
  function TrimBack(x: BigInt, k: nat): (r: BigInt)
    ensures |x.body| > k ==> Value(r.body) == Value(x.body) % Pow(|x.body| - k)
    ensures |x.body| > k ==> r == BigInt(x.sign, x.body[..|x.body| - k])
    ensures |x.body| <= k ==> r == ZERO
  {
    if |x.body| > k then
      ValueDropLow(x.body, |x.body| - k);
      BigInt(x.sign, x.body[..|x.body| - k])
    else
      ZERO
  }

  lemma ZeroValue()
    ensures Value(ZERO.body) == 0 && Canonical(ZERO) && ToInt(ZERO) == 0
  {
    assert ZERO.body[1..] == [];
  }

  /** GetMaxEven: the least even number that is at least both sizes. */
  function GetMaxEven(a: nat, b: nat): (r: nat)
    ensures r % 2 == 0
    ensures r >= a && r >= b
    ensures r <= a + 1 || r <= b + 1
    ensures r - 1 <= a || r - 1 <= b
  {
    if a >= b then a + a % 2 else b + b % 2
  }

  /** Unary minus: flips the sign, leaving Zero as Zero. */
  function Negate(x: BigInt): (r: BigInt)
    ensures ToInt(r) == -ToInt(x)
    ensures r.body == x.body
    ensures r.sign == Zero <==> x.sign == Zero
    ensures Canonical(x) ==> Canonical(r)
  {
    BigInt(x.sign * Minus, x.body)
  }

  /** GetAbsolute: the magnitude with a non-negative sign. */
  function GetAbsolute(x: BigInt): (r: BigInt)
    ensures r.body == x.body
    ensures r.sign == (if x.sign == Zero then Zero else Plus)
    ensures ToInt(r) == (if x.sign == Zero then 0 else Magnitude(x))
    ensures Canonical(x) ==> Canonical(r) && ToInt(r) == (if ToInt(x) < 0 then -ToInt(x) else ToInt(x))
  {
    if x.sign < 0 then Negate(x) else x
  }
}
