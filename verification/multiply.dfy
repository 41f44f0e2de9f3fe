/** Karatsuba multiplication: RecursiveMultiplication, MultiplyChunks and
    operator* (big_integer.cpp).

    The recursion does not shrink operands by length alone: the half sums
    x1 + y1 can keep n/2 + 1 limbs, so at n = 2 a call can repeat at the
    same size. Termination is by the sum of the operand values, with the
    single-limb base case as the tie-breaker. */
module Multiply {
  import opened Limbs
  import opened BigInts
  import opened ShortArith
  import opened AddSub

  /** The tie-breaker of the termination measure: 0 for the single-limb
      base case, 2 otherwise (MultiplyChunks itself sits at 1). */
  function Rank(l: BigInt, r: BigInt): nat
  {
    if |l.body| == 1 && |r.body| == 1 then 0 else 2
  }

  /** The base case of RecursiveMultiplication: one limb times one limb
      through ShortMul, with the product of the signs. */
  function MulLimb(l: BigInt, r: BigInt): (res: BigInt)
    requires |l.body| == 1 && |r.body| == 1
    ensures res.sign == l.sign * r.sign
    ensures Value(res.body) == Value(l.body) * Value(r.body)
    ensures Trimmed(res.body)
  {
    assert r.body[1..] == [];
    BigInt(l.sign * r.sign, ShortMul(l, r.body[0]).body)
  }

  /** RecursiveMultiplication as written. */
  function RecMulAsWritten(l: BigInt, r: BigInt): (res: BigInt)
    ensures res.sign == l.sign * r.sign
    ensures Trimmed(res.body)
    ensures |l.body| == 1 && |r.body| == 1 ==> Value(res.body) == Value(l.body) * Value(r.body)
    decreases Value(l.body) + Value(r.body), Rank(l, r)
  {
    if |l.body| == 1 && |r.body| == 1 then
      MulLimb(l, r)
    else
      MultiplyChunksAsWritten(l, r)
  }

  /** The operands of MultiplyChunks after TrimZeroes, the Plus sign and
      Align to an even size 2k, cut into high halves x and low halves y. */
  datatype Halves = Halves(k: nat, x1: BigInt, y1: BigInt, x2: BigInt, y2: BigInt)

  /** The splitting steps of MultiplyChunks. */
  function SplitOperands(l: BigInt, r: BigInt): (h: Halves)
    ensures h.k >= 1
    ensures |h.x1.body| == h.k && |h.y1.body| == h.k && |h.x2.body| == h.k && |h.y2.body| == h.k
    ensures h.x1.sign == Plus && h.y1.sign == Plus && h.x2.sign == Plus && h.y2.sign == Plus
    ensures Value(l.body) == Value(h.y1.body) + Pow(h.k) * Value(h.x1.body)
    ensures Value(r.body) == Value(h.y2.body) + Pow(h.k) * Value(h.x2.body)
    ensures MeasureFacts(Value(l.body), Value(r.body), h)
  {
    var lc := BigInt(Plus, TrimZeroes(l).body);
    var rc := BigInt(Plus, TrimZeroes(r).body);
    var size := GetMaxEven(|lc.body|, |rc.body|);
    var k := size / 2;
    var la := Align(lc, size - |lc.body|);
    var ra := Align(rc, size - |rc.body|);
    var h := Halves(k, TrimFront(la, k), TrimBack(la, k), TrimFront(ra, k), TrimBack(ra, k));
    HalfValues(la, k, h.x1, h.y1);
    HalfValues(ra, k, h.x2, h.y2);
    SplitMeasure(lc.body, rc.body, k);
    h
  }

  /** TrimFront and TrimBack by half of an even-sized record give its high
      and low halves: quotient and remainder by BASE^k. */
  lemma HalfValues(a: BigInt, k: nat, hi: BigInt, lo: BigInt)
    requires |a.body| == 2 * k && k >= 1
    requires hi == TrimFront(a, k) && lo == TrimBack(a, k)
    ensures |hi.body| == k && |lo.body| == k && hi.sign == a.sign && lo.sign == a.sign
    ensures Value(hi.body) == Value(a.body) / Pow(k) && Value(lo.body) == Value(a.body) % Pow(k)
    ensures Value(a.body) == Value(lo.body) + Pow(k) * Value(hi.body)
  {
    ValueSplit(a.body, k);
    ValueDropLow(a.body, k);
    assert a.body[..|a.body| - k] == a.body[..k];
  }

  /** The measure facts the three recursive calls need, in terms of the
      halves' values. */
  predicate MeasureFacts(a: nat, c: nat, h: Halves)
  {
    var xa, ya, xc, yc := Value(h.x1.body), Value(h.y1.body), Value(h.x2.body), Value(h.y2.body);
    && ya + yc <= a + c && xa + xc <= a + c && xa + ya + xc + yc <= a + c
    && (h.k >= 2 ==> ya + yc < a + c && xa + xc < a + c && xa + ya + xc + yc < a + c)
    && (h.k == 1 ==> xa + xc == 0 || xa + ya + xc + yc < a + c)
  }

  /** The recombination steps of MultiplyChunks:
      (z1 - z0 - z2) shifted by k limbs, plus z0, plus z2 shifted by 2k.
      On canonical non-negative products with z1 >= z0 + z2 the result is
      z0 + (z1 - z0 - z2) * BASE^k + z2 * BASE^(2k). */
  function Recombine(z0: BigInt, z1: BigInt, z2: BigInt, k: nat): (res: BigInt)
    ensures RecombinePre(z0, z1, z2) ==>
              res.sign >= 0 && Recombined(Value(res.body), Value(z0.body), Value(z1.body), Value(z2.body), k)
  {
    var mid := Sub(Sub(z1, z0), z2);
    var low := Add(Shift(mid, k), z0);
    var res := Add(low, Shift(z2, 2 * k));
    RecombineValue(z0, z1, z2, k, mid, low, res);
    res
  }

  /** The products Recombine is correct on. */
  predicate RecombinePre(z0: BigInt, z1: BigInt, z2: BigInt)
  {
    && Canonical(z0) && Canonical(z1) && Canonical(z2)
    && z0.sign >= 0 && z1.sign >= 0 && z2.sign >= 0
    && Value(z1.body) >= Value(z0.body) + Value(z2.body)
  }

  lemma RecombineValue(z0: BigInt, z1: BigInt, z2: BigInt, k: nat, mid: BigInt, low: BigInt, res: BigInt)
    requires mid == Sub(Sub(z1, z0), z2)
    requires low == Add(Shift(mid, k), z0)
    requires res == Add(low, Shift(z2, 2 * k))
    ensures RecombinePre(z0, z1, z2) ==>
              res.sign >= 0 && Recombined(Value(res.body), Value(z0.body), Value(z1.body), Value(z2.body), k)
  {
    if RecombinePre(z0, z1, z2) {
      MiddleTerm(z0, z1, z2, mid);
      var sm := Shift(mid, k);
      var sh := Shift(z2, 2 * k);
      assert low == Add(sm, z0) && res == Add(low, sh);
      RecombineArith(Value(res.body), Value(low.body), Value(sm.body), Value(sh.body), Value(mid.body),
                     Value(z0.body), Value(z1.body), Value(z2.body), k);
    }
  }

  /** On the products Recombine is correct on, z1 - z0 - z2 is canonical
      and non-negative. */
  lemma MiddleTerm(z0: BigInt, z1: BigInt, z2: BigInt, mid: BigInt)
    requires RecombinePre(z0, z1, z2)
    requires mid == Sub(Sub(z1, z0), z2)
    ensures Canonical(mid) && mid.sign >= 0
    ensures Value(mid.body) == Value(z1.body) - Value(z0.body) - Value(z2.body)
  {
    ToIntBySign(z0);
    ToIntBySign(z1);
    ToIntBySign(z2);
    ToIntBySign(mid);
  }

  /** r is z0 + (z1 - z0 - z2) * BASE^k + z2 * BASE^(2k), with the
      subtracted terms moved to the left. */
  predicate Recombined(r: int, z0: int, z1: int, z2: int, k: nat)
  {
    r + Pow(k) * (z0 + z2) == z0 + Pow(k) * z1 + Pow(2 * k) * z2
  }

  /** The last step of the recombination, over plain numbers. */
  lemma RecombineArith(r: int, low: int, sm: int, sh: int, m: int, v0: int, v1: int, v2: int, k: nat)
    requires r == low + sh && low == sm + v0
    requires sm == Pow(k) * m && sh == Pow(2 * k) * v2
    requires m == v1 - v0 - v2
    ensures Recombined(r, v0, v1, v2, k)
  {
    var p := Pow(k);
    assert p * m + p * (v0 + v2) == p * v1;
  }

  /** MultiplyChunks as written: the halves of the trimmed, Plus-signed,
      aligned operands are multiplied recursively and recombined as
      z0 + (z1 - z0 - z2) * BASE^k + z2 * BASE^(2k). A zero half keeps
      the Plus sign. */
  function MultiplyChunksAsWritten(l: BigInt, r: BigInt): (res: BigInt)
    ensures res.sign == l.sign * r.sign
    ensures Trimmed(res.body)
    decreases Value(l.body) + Value(r.body), 1
  {
    var h := SplitOperands(l, r);
    var z0 := RecMulAsWritten(h.y1, h.y2);
    var z2 := RecMulAsWritten(h.x1, h.x2);
    var s1 := Add(h.x1, h.y1);
    var s2 := Add(h.x2, h.y2);
    SumRank(h.x1, h.y1, h.x2, h.y2, s1, s2, h.k);
    var z1 := RecMulAsWritten(s1, s2);
    var answer := Recombine(z0, z1, z2, h.k);
    SignAlgebra(l.sign, r.sign);
    TrimZeroes(BigInt(l.sign * r.sign, answer.body))
  }

  /** The quotient and remainder by p >= 1 together are no larger than the
      number, and strictly smaller when p >= 2 and the quotient is positive. */
  lemma DivParts(a: nat, p: nat)
    requires p >= 1
    ensures a / p + a % p <= a
    ensures p >= 2 && a / p >= 1 ==> a / p + a % p < a
  {
    var q := a / p;
    assert a == p * q + a % p;
    MulMono(1, q, p, q);
    if p >= 2 && q >= 1 {
      MulMono(2, q, p, q);
    }
  }

  /** The value measure of the three recursive calls of MultiplyChunks. */
  lemma SplitMeasure(a: seq<Limb>, c: seq<Limb>, k: nat)
    requires Trimmed(a) && Trimmed(c)
    requires k == GetMaxEven(|a|, |c|) / 2
    ensures k >= 1
    ensures var A, C, P := Value(a), Value(c), Pow(k);
      && A / P + A % P + C / P + C % P <= A + C
      && (k >= 2 ==> A / P + A % P + C / P + C % P < A + C && A % P + C % P < A + C && A / P + C / P < A + C)
      && (k == 1 ==> A / P + C / P == 0 || A / P + A % P + C / P + C % P < A + C)
  {
    var A, C, P := Value(a), Value(c), Pow(k);
    DivParts(A, P);
    DivParts(C, P);
    if k == 1 {
      assert P == BASE;
    } else if |a| >= |c| {
      LongerReachesSplit(a, k);
      BigPart(A, C, P);
    } else {
      LongerReachesSplit(c, k);
      BigPart(C, A, P);
    }
  }

  /** Once the halves have two or more limbs, the longer operand is at
      least BASE^k. */
  lemma LongerReachesSplit(a: seq<Limb>, k: nat)
    requires Trimmed(a) && k >= 2 && 2 * k <= |a| + 1
    ensures 2 <= Pow(k) <= Value(a)
  {
    TrimmedLowerBound(a);
    PowMonotone(k, |a| - 1);
    PowMonotone(1, k);
    assert Pow(1) == BASE;
  }

  /** When one operand reaches the split point, every half measure drops. */
  lemma BigPart(A: nat, C: nat, P: nat)
    requires 2 <= P <= A
    ensures A / P + A % P + C / P + C % P < A + C
    ensures A % P + C % P < A + C && A / P + C / P < A + C
  {
    DivAtLeastOne(A, P);
    DivParts(A, P);
    DivParts(C, P);
    assert A == P * (A / P) + A % P;
    MulMono(1, A / P, P, A / P);
    assert P * (A / P) >= P;
  }

  lemma DivAtLeastOne(a: nat, p: nat)
    requires 1 <= p <= a
    ensures a / p >= 1
  {
    assert a == p * (a / p) + a % p;
  }

  /** At k = 1 with both high halves zero, the half sums are single limbs,
      so the middle call is a base case. */
  lemma SumRank(x1: BigInt, y1: BigInt, x2: BigInt, y2: BigInt, s1: BigInt, s2: BigInt, k: nat)
    requires |x1.body| <= k && |y1.body| <= k && |x2.body| <= k && |y2.body| <= k
    requires x1.sign >= 0 && y1.sign >= 0 && x2.sign >= 0 && y2.sign >= 0
    requires s1 == Add(x1, y1) && s2 == Add(x2, y2)
    ensures Value(s1.body) == Value(x1.body) + Value(y1.body)
    ensures Value(s2.body) == Value(x2.body) + Value(y2.body)
    ensures k == 1 && Value(x1.body) + Value(x2.body) == 0 ==> Rank(s1, s2) == 0
  {
    if k == 1 && Value(x1.body) + Value(x2.body) == 0 {
      SingleLimbBelowBase(s1);
      SingleLimbBelowBase(s2);
      ValueBound(y1.body);
      ValueBound(y2.body);
      assert Pow(1) == BASE;
    }
  }

  lemma SingleLimbBelowBase(x: BigInt)
    requires Trimmed(x.body) && Value(x.body) < BASE
    ensures |x.body| == 1
  {
    if |x.body| >= 2 {
      TrimmedLowerBound(x.body);
    }
  }

  /** The correction of MultiplyChunks: each half is trimmed and a zero half
      takes the Zero sign, so every recursive call receives canonical
      operands. */
  function NormalizeHalves(h: Halves): (n: Halves)
    requires h.x1.sign == Plus && h.y1.sign == Plus && h.x2.sign == Plus && h.y2.sign == Plus
    ensures n.k == h.k
    ensures Value(n.x1.body) == Value(h.x1.body) && Value(n.y1.body) == Value(h.y1.body)
    ensures Value(n.x2.body) == Value(h.x2.body) && Value(n.y2.body) == Value(h.y2.body)
    ensures Canonical(n.x1) && Canonical(n.y1) && Canonical(n.x2) && Canonical(n.y2)
    ensures n.x1.sign >= 0 && n.y1.sign >= 0 && n.x2.sign >= 0 && n.y2.sign >= 0
    ensures |n.x1.body| <= |h.x1.body| && |n.y1.body| <= |h.y1.body|
    ensures |n.x2.body| <= |h.x2.body| && |n.y2.body| <= |h.y2.body|
  {
    Halves(h.k, Normalize(h.x1), Normalize(h.y1), Normalize(h.x2), Normalize(h.y2))
  }

  /** RecursiveMultiplication over the corrected MultiplyChunks: the
      magnitude of the product, and a canonical result on canonical
      operands. */
  function RecMul(l: BigInt, r: BigInt): (res: BigInt)
    ensures Value(res.body) == Value(l.body) * Value(r.body)
    ensures res.sign == l.sign * r.sign
    ensures Trimmed(res.body)
    ensures Canonical(l) && Canonical(r) ==> Canonical(res)
    decreases Value(l.body) + Value(r.body), Rank(l, r)
  {
    if |l.body| == 1 && |r.body| == 1 then
      var res := MulLimb(l, r);
      ProductCanonical(l, r, res);
      res
    else
      MultiplyChunks(l, r)
  }

  /** MultiplyChunks with NormalizeHalves applied to the four halves. */
  function MultiplyChunks(l: BigInt, r: BigInt): (res: BigInt)
    ensures Value(res.body) == Value(l.body) * Value(r.body)
    ensures res.sign == l.sign * r.sign
    ensures Trimmed(res.body)
    ensures Canonical(l) && Canonical(r) ==> Canonical(res)
    decreases Value(l.body) + Value(r.body), 1
  {
    var split := SplitOperands(l, r);
    var h := NormalizeHalves(split);
    assert MeasureFacts(Value(l.body), Value(r.body), h);
    var z0 := RecMul(h.y1, h.y2);
    var z2 := RecMul(h.x1, h.x2);
    var s1 := Add(h.x1, h.y1);
    var s2 := Add(h.x2, h.y2);
    SumRank(h.x1, h.y1, h.x2, h.y2, s1, s2, h.k);
    var z1 := RecMul(s1, s2);
    Assemble(l, r, h, z0, z1, z2, s1, s2)
  }

  /** The tail of the corrected MultiplyChunks: recombine the three
      products, attach the product of the signs and trim. */
  function Assemble(l: BigInt, r: BigInt, h: Halves, z0: BigInt, z1: BigInt, z2: BigInt,
                    s1: BigInt, s2: BigInt): (res: BigInt)
    requires Canonical(h.x1) && Canonical(h.y1) && Canonical(h.x2) && Canonical(h.y2)
    requires h.x1.sign >= 0 && h.y1.sign >= 0 && h.x2.sign >= 0 && h.y2.sign >= 0
    requires Value(l.body) == Value(h.y1.body) + Pow(h.k) * Value(h.x1.body)
    requires Value(r.body) == Value(h.y2.body) + Pow(h.k) * Value(h.x2.body)
    requires s1 == Add(h.x1, h.y1) && s2 == Add(h.x2, h.y2)
    requires Value(z0.body) == Value(h.y1.body) * Value(h.y2.body) && z0.sign == h.y1.sign * h.y2.sign
    requires Value(z2.body) == Value(h.x1.body) * Value(h.x2.body) && z2.sign == h.x1.sign * h.x2.sign
    requires Value(z1.body) == Value(s1.body) * Value(s2.body) && z1.sign == s1.sign * s2.sign
    requires Canonical(z0) && Canonical(z1) && Canonical(z2)
    ensures Value(res.body) == Value(l.body) * Value(r.body)
    ensures res.sign == l.sign * r.sign
    ensures Trimmed(res.body)
    ensures Canonical(l) && Canonical(r) ==> Canonical(res)
  {
    var answer := Recombine(z0, z1, z2, h.k);
    KaratsubaStep(h, z0, z1, z2, s1, s2, answer, Value(l.body), Value(r.body));
    SignAlgebra(l.sign, r.sign);
    var res := TrimZeroes(BigInt(l.sign * r.sign, answer.body));
    ProductCanonical(l, r, res);
    res
  }

  /** The three products of canonical halves meet Recombine's precondition,
      and the recombined value is the product of the operands. */
  lemma KaratsubaStep(h: Halves, z0: BigInt, z1: BigInt, z2: BigInt, s1: BigInt, s2: BigInt,
                      answer: BigInt, a: nat, c: nat)
    requires Canonical(h.x1) && Canonical(h.y1) && Canonical(h.x2) && Canonical(h.y2)
    requires h.x1.sign >= 0 && h.y1.sign >= 0 && h.x2.sign >= 0 && h.y2.sign >= 0
    requires a == Value(h.y1.body) + Pow(h.k) * Value(h.x1.body)
    requires c == Value(h.y2.body) + Pow(h.k) * Value(h.x2.body)
    requires s1 == Add(h.x1, h.y1) && s2 == Add(h.x2, h.y2)
    requires Value(z0.body) == Value(h.y1.body) * Value(h.y2.body) && z0.sign == h.y1.sign * h.y2.sign
    requires Value(z2.body) == Value(h.x1.body) * Value(h.x2.body) && z2.sign == h.x1.sign * h.x2.sign
    requires Value(z1.body) == Value(s1.body) * Value(s2.body) && z1.sign == s1.sign * s2.sign
    requires Canonical(z0) && Canonical(z1) && Canonical(z2)
    requires answer == Recombine(z0, z1, z2, h.k)
    ensures Value(answer.body) == a * c
  {
    NonNegativeProduct(h.y1.sign, h.y2.sign);
    NonNegativeProduct(h.x1.sign, h.x2.sign);
    NonNegativeProduct(s1.sign, s2.sign);
    CrossTerms(Value(h.x1.body), Value(h.y1.body), Value(h.x2.body), Value(h.y2.body),
               Value(s1.body), Value(s2.body), Value(z0.body), Value(z1.body), Value(z2.body));
    assert RecombinePre(z0, z1, z2);
    KaratsubaIdentity(Value(answer.body), Value(h.x1.body), Value(h.y1.body), Value(h.x2.body), Value(h.y2.body),
                      Value(s1.body), Value(s2.body), Value(z0.body), Value(z1.body), Value(z2.body), h.k, a, c);
  }

  lemma NonNegativeProduct(a: Sign, b: Sign)
    requires a >= 0 && b >= 0
    ensures a * b >= 0
  {
  }

  /** The middle product covers the two outer ones. */
  lemma CrossTerms(xa: nat, ya: nat, xc: nat, yc: nat, s1: nat, s2: nat, v0: int, v1: int, v2: int)
    requires s1 == xa + ya && s2 == xc + yc
    requires v0 == ya * yc && v1 == s1 * s2 && v2 == xa * xc
    ensures v1 >= v0 + v2
  {
    ExpandSum(xa, ya, xc, yc);
  }

  /** Karatsuba's identity: recombining the three products of the halves
      gives the product of the operands. */
  lemma KaratsubaIdentity(r: int, xa: nat, ya: nat, xc: nat, yc: nat, s1: nat, s2: nat,
                          v0: int, v1: int, v2: int, k: nat, a: nat, c: nat)
    requires s1 == xa + ya && s2 == xc + yc
    requires v0 == ya * yc && v1 == s1 * s2 && v2 == xa * xc
    requires a == ya + Pow(k) * xa && c == yc + Pow(k) * xc
    requires Recombined(r, v0, v1, v2, k)
    ensures r == a * c
  {
    PowAdd(k, k);
    assert k + k == 2 * k;
    var p := Pow(k);
    var d, e, f, g := ya * yc, xa * xc, xa * yc, ya * xc;
    ExpandSum(xa, ya, xc, yc);
    Distribute(p, d + e, f + g);
    ExpandSplit(ya, xa, yc, xc, p);
    KaratsubaLinear(r, p, Pow(2 * k), d, e, f, g, v1);
  }

  lemma ExpandSum(xa: nat, ya: nat, xc: nat, yc: nat)
    ensures (xa + ya) * (xc + yc) == xa * xc + xa * yc + ya * xc + ya * yc
  {
  }

  lemma Distribute(p: int, a: int, b: int)
    ensures p * (a + b) == p * a + p * b
  {
  }

  /** (a + p b)(c + p e) expanded by powers of p. */
  lemma ExpandSplit(a: nat, b: nat, c: nat, e: nat, p: nat)
    ensures (a + p * b) * (c + p * e) == a * c + p * (b * c + a * e) + (p * p) * (b * e)
  {
    assert (a + p * b) * (c + p * e) == a * c + a * (p * e) + (p * b) * c + (p * b) * (p * e);
    assert a * (p * e) == p * (a * e);
    assert (p * b) * c == p * (b * c);
    assert (p * b) * (p * e) == (p * p) * (b * e);
  }

  /** The linear part of Karatsuba's identity, over the monomials. */
  lemma KaratsubaLinear(r: int, p: int, q: int, d: int, e: int, f: int, g: int, m: int)
    requires r + p * (d + e) == d + p * m + q * e
    requires m == e + f + g + d
    requires p * ((d + e) + (f + g)) == p * (d + e) + p * (f + g)
    ensures r == d + p * (f + g) + q * e
  {
    assert (d + e) + (f + g) == m;
  }

  /** A product with the product of the signs is canonical when both
      operands are. */
  lemma ProductCanonical(l: BigInt, r: BigInt, res: BigInt)
    requires Value(res.body) == Value(l.body) * Value(r.body)
    requires res.sign == l.sign * r.sign && Trimmed(res.body)
    ensures Canonical(l) && Canonical(r) ==> Canonical(res)
  {
    SignAlgebra(l.sign, r.sign);
    if Canonical(l) && Canonical(r) && Value(l.body) != 0 && Value(r.body) != 0 {
      MulAtLeast(Value(l.body), Value(r.body));
    }
  }

  /** operator*: the product of canonical operands. */
  function Mul(l: BigInt, r: BigInt): (res: BigInt)
    ensures Canonical(l) && Canonical(r) ==> Canonical(res) && ToInt(res) == ToInt(l) * ToInt(r)
  {
    var res := RecMul(l, r);
    MulToInt(l, r, res);
    res
  }

  lemma MulToInt(l: BigInt, r: BigInt, res: BigInt)
    requires Value(res.body) == Value(l.body) * Value(r.body)
    requires res.sign == l.sign * r.sign
    ensures ToInt(res) == ToInt(l) * ToInt(r)
  {
    ToIntBySign(l);
    ToIntBySign(r);
    ToIntBySign(res);
    SignAlgebra(l.sign, r.sign);
    SignProduct(l.sign, r.sign);
    NegatedProducts(Value(l.body), Value(r.body));
  }

  lemma NegatedProducts(a: int, c: int)
    ensures (0 - a) * (0 - c) == a * c
    ensures (0 - a) * c == 0 - a * c && a * (0 - c) == 0 - a * c
  {
  }
}
