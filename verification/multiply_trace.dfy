/** The multiplication as written, traced on concrete operands: the product
    of 2^64 with itself (big_integer.cpp, MultiplyChunks).

    The halves of the aligned operands keep the Plus sign even when they
    are zero. In the call on the padded one [1, 0], the zero high halves
    give a Plus-signed zero z2; z1 - z0 is a Zero-signed zero, and
    subtracting the Plus zero from it negates it into a Minus-signed zero.
    Shifted, that Minus zero is an opposite-signed operand of operator+,
    which SignedSub then wraps around modulo BASE^2. */
module MultiplyTrace {
  import opened Limbs
  import opened BigInts
  import opened ShortArith
  import opened AddSub
  import opened Compare
  import opened Multiply

  lemma SplitOfOne()
    ensures SplitOperands(BigInt(Plus, [1, 0]), BigInt(Plus, [1, 0]))
      == Halves(1, BigInt(Plus, [0]), BigInt(Plus, [1]), BigInt(Plus, [0]), BigInt(Plus, [1]))
  {
    var l := BigInt(Plus, [1, 0]);
    assert [1, 0][..1] == [1];
    assert TrimZeroes(l) == BigInt(Plus, [1]);
    assert Zeros(1) == [0];
    var la := Align(BigInt(Plus, [1]), 1);
    assert la.body == [1, 0];
    assert TrimFront(la, 1) == BigInt(Plus, [0]);
    assert TrimBack(la, 1) == BigInt(Plus, [1]);
  }

  lemma ProductsOfOne()
    ensures RecMulAsWritten(BigInt(Plus, [1]), BigInt(Plus, [1])) == BigInt(Plus, [1])
    ensures RecMulAsWritten(BigInt(Plus, [0]), BigInt(Plus, [0])) == BigInt(Plus, [0])
    ensures Add(BigInt(Plus, [0]), BigInt(Plus, [1])) == BigInt(Plus, [1])
  {
    assert MulCarry([1], 1, 0) == [1];
    assert MulCarry([0], 0, 0) == [0];
    assert Pad([0], 1) == [0] && Pad([1], 1) == [1];
    assert AddLimbs([0], [1], 0) == [1];
  }

  /** The middle term z1 - z0 - z2 of 1 * 1 is a Minus-signed zero. */
  lemma MinusZeroMiddle()
    ensures Sub(Sub(BigInt(Plus, [1]), BigInt(Plus, [1])), BigInt(Plus, [0])) == BigInt(Minus, [0])
  {
  }

  lemma RecombineOfOne()
    ensures var res := Recombine(BigInt(Plus, [1]), BigInt(Plus, [1]), BigInt(Plus, [0]), 1);
      res.sign == Plus && Value(res.body) == Pow(3) - Pow(2) + 1
  {
    var one := BigInt(Plus, [1]);
    MinusZeroMiddle();
    assert Zeros(1) == [0];
    var sm := Shift(BigInt(Minus, [0]), 1);
    assert Value(sm.body) == 0 && |sm.body| == 2;
    MinusZeroWraps(sm, one);
    var low := Add(sm, one);
    var top := Shift(BigInt(Plus, [0]), 2);
    assert Value(top.body) == 0 && |top.body| == 3;
    NegativeBelowZeroWraps(low, top);
  }

  /** A Minus-signed zero of several limbs plus a shorter positive value
      goes to SignedSub with the Minus sign, which wraps around. */
  lemma MinusZeroWraps(a: BigInt, b: BigInt)
    requires a.sign == Minus && Value(a.body) == 0 && |a.body| > |b.body|
    requires b.sign == Plus && Value(b.body) > 0
    ensures var s := Add(a, b);
      s.sign == Minus && Value(s.body) == Pow(|a.body|) - Value(b.body) && |s.body| <= |a.body|
  {
    var aa := GetAbsolute(a);
    assert aa == BigInt(Plus, a.body);
    assert GetAbsolute(b) == b;
    assert Less(a, b) && Greater(aa, b) && !Equal(aa, b) && !Less(aa, b);
    assert Add(a, b) == SignedSub(a, b, Minus);
    ValueBound(b.body);
    PowMonotone(|b.body|, |a.body|);
  }

  /** A negative value plus a longer Plus-signed zero goes to SignedSub with
      the Plus sign, which wraps around. */
  lemma NegativeBelowZeroWraps(a: BigInt, b: BigInt)
    requires a.sign == Minus && Value(a.body) > 0 && |a.body| < |b.body|
    requires b.sign == Plus && Value(b.body) == 0
    ensures var s := Add(a, b);
      s.sign == Plus && Value(s.body) == Pow(|b.body|) - Value(a.body)
  {
    var aa := GetAbsolute(a);
    assert aa == BigInt(Plus, a.body);
    assert GetAbsolute(b) == b;
    assert Less(a, b) && Less(aa, b) && !Equal(aa, b);
    assert Add(a, b) == SignedSub(b, a, Plus);
    ValueBound(a.body);
    PowMonotone(|a.body|, |b.body|);
  }

  lemma PaddedOneProduct()
    ensures var m := MultiplyChunksAsWritten(BigInt(Plus, [1, 0]), BigInt(Plus, [1, 0]));
      m.sign == Plus && Value(m.body) == Pow(3) - Pow(2) + 1
  {
    SplitOfOne();
    ProductsOfOne();
    RecombineOfOne();
  }

  lemma SplitOfZeroPair()
    ensures SplitOperands(BigInt(Plus, [0, 0]), BigInt(Plus, [0, 0]))
      == Halves(1, BigInt(Plus, [0]), BigInt(Plus, [0]), BigInt(Plus, [0]), BigInt(Plus, [0]))
  {
    assert [0, 0][..1] == [0];
    assert TrimZeroes(BigInt(Plus, [0, 0])) == BigInt(Plus, [0]);
    assert Zeros(1) == [0];
    var la := Align(BigInt(Plus, [0]), 1);
    assert la.body == [0, 0];
    assert TrimFront(la, 1) == BigInt(Plus, [0]);
    assert TrimBack(la, 1) == BigInt(Plus, [0]);
  }

  lemma ProductsOfZeros()
    ensures RecMulAsWritten(BigInt(Plus, [0]), BigInt(Plus, [0])) == BigInt(Plus, [0])
    ensures Add(BigInt(Plus, [0]), BigInt(Plus, [0])) == BigInt(Zero, [0])
    ensures RecMulAsWritten(BigInt(Zero, [0]), BigInt(Zero, [0])) == BigInt(Zero, [0])
  {
    assert MulCarry([0], 0, 0) == [0];
    assert Pad([0], 1) == [0];
    assert AddLimbs([0], [0], 0) == [0];
  }

  lemma RecombineOfZeros()
    ensures var res := Recombine(BigInt(Plus, [0]), BigInt(Zero, [0]), BigInt(Plus, [0]), 1);
      Value(res.body) == 0 && res.sign == Plus
  {
    var zp := BigInt(Plus, [0]);
    var zz := BigInt(Zero, [0]);
    assert Sub(zz, zp) == BigInt(Minus, [0]);
    assert Sub(BigInt(Minus, [0]), zp) == SignedAdd(BigInt(Minus, [0]), zp, Minus);
    assert Pad([0], 1) == [0];
    assert AddLimbs([0], [0], 0) == [0];
    assert Sub(Sub(zz, zp), zp) == zz;
    assert Zeros(1) == [0];
    var sm := Shift(zz, 1);
    assert sm.sign == Zero && |sm.body| == 2 && Value(sm.body) == 0;
    AddLongZero(sm, zp);
    var low := Add(sm, zp);
    var top := Shift(zp, 2);
    assert top.sign == Plus && Value(top.body) == 0;
    AddZeroLeft(low, top);
    AddNonNegativeSign(low, top);
  }

  lemma ZeroPairProduct()
    ensures MultiplyChunksAsWritten(BigInt(Plus, [0, 0]), BigInt(Plus, [0, 0])) == BigInt(Plus, [0])
  {
    SplitOfZeroPair();
    ProductsOfZeros();
    RecombineOfZeros();
    var res := Recombine(BigInt(Plus, [0]), BigInt(Zero, [0]), BigInt(Plus, [0]), 1);
    var t := TrimZeroes(BigInt(Plus, res.body));
    TrimmedZero(t.body);
  }

  /** The canonical 2^64 = BASE^2 squared as written is
      BASE^4 * (BASE^3 - BASE^2 + 1), while the corrected operator* gives
      BASE^4. */
  lemma MulAsWrittenCounterexample()
    ensures var x := BigInt(Plus, [0, 0, 1]);
      && Canonical(x) && ToInt(x) == Pow(2)
      && Value(RecMulAsWritten(x, x).body) == Pow(4) * (Pow(3) - Pow(2) + 1)
      && Pow(4) * (Pow(3) - Pow(2) + 1) != Pow(4)
      && ToInt(Mul(x, x)) == Pow(4)
  {
    MulAsWrittenSquare();
    CorrectedSquare();
    WrongSquare();
  }

  lemma CorrectedSquare()
    ensures var x := BigInt(Plus, [0, 0, 1]);
      Canonical(x) && ToInt(x) == Pow(2) && ToInt(Mul(x, x)) == Pow(4)
  {
    TwoLimbPower();
    SquareOfPower(BigInt(Plus, [0, 0, 1]), 2);
  }

  lemma TwoLimbPower()
    ensures var x := BigInt(Plus, [0, 0, 1]);
      Canonical(x) && ToInt(x) == Pow(2)
  {
    var x := BigInt(Plus, [0, 0, 1]);
    assert Value(x.body) == Pow(2);
    TrimmedZero(x.body);
  }

  /** The corrected operator* squares BASE^k to BASE^(2k). */
  lemma SquareOfPower(x: BigInt, k: nat)
    requires Canonical(x) && ToInt(x) == Pow(k)
    ensures ToInt(Mul(x, x)) == Pow(2 * k)
  {
    PowAdd(k, k);
    assert k + k == 2 * k;
  }

  /** BASE^4 * (BASE^3 - BASE^2 + 1) is not BASE^4. */
  lemma WrongSquare()
    ensures Pow(4) * (Pow(3) - Pow(2) + 1) != Pow(4)
  {
    assert Pow(3) == BASE * Pow(2);
    NotOne(Pow(4), Pow(3) - Pow(2) + 1);
  }

  lemma NotOne(p: nat, w: nat)
    requires p >= 1 && w >= 2
    ensures p * w != p
  {
    MulMono(p, 2, p, w);
  }

  lemma MulAsWrittenSquare()
    ensures var x := BigInt(Plus, [0, 0, 1]);
      Value(RecMulAsWritten(x, x).body) == Pow(4) * (Pow(3) - Pow(2) + 1)
  {
    SplitOfSquare();
    ZeroPairProduct();
    PaddedOneProduct();
    AddZeroHalf();
    SquareSteps(BigInt(Plus, [0, 0, 1]), BigInt(Plus, [1, 0]), BigInt(Plus, [0, 0]));
  }

  lemma SplitOfSquare()
    ensures SplitOperands(BigInt(Plus, [0, 0, 1]), BigInt(Plus, [0, 0, 1]))
      == Halves(2, BigInt(Plus, [1, 0]), BigInt(Plus, [0, 0]), BigInt(Plus, [1, 0]), BigInt(Plus, [0, 0]))
  {
    var x := BigInt(Plus, [0, 0, 1]);
    assert Zeros(1) == [0];
    assert TrimZeroes(x) == x;
    var la := Align(x, 1);
    assert la.body == [0, 0, 1, 0];
    assert TrimFront(la, 2) == BigInt(Plus, [1, 0]);
    assert TrimBack(la, 2) == BigInt(Plus, [0, 0]);
  }

  /** One level of MultiplyChunks on BASE^2, given the products of its
      halves. */
  lemma SquareSteps(x: BigInt, one: BigInt, z00: BigInt)
    requires x == BigInt(Plus, [0, 0, 1]) && one == BigInt(Plus, [1, 0]) && z00 == BigInt(Plus, [0, 0])
    requires SplitOperands(x, x) == Halves(2, one, z00, one, z00)
    requires MultiplyChunksAsWritten(z00, z00) == BigInt(Plus, [0])
    requires var m := MultiplyChunksAsWritten(one, one);
      m.sign == Plus && Value(m.body) == Pow(3) - Pow(2) + 1
    requires Add(one, z00) == one
    ensures Value(RecMulAsWritten(x, x).body) == Pow(4) * (Pow(3) - Pow(2) + 1)
  {
    var m := MultiplyChunksAsWritten(one, one);
    assert RecMulAsWritten(one, one) == m;
    assert RecMulAsWritten(z00, z00) == BigInt(Plus, [0]);
    assert Pow(3) == BASE * Pow(2);
    LongValue(m.body, Pow(3) - Pow(2) + 1);
    RecombineSquare(BigInt(Plus, [0]), m, 2);
    assert RecMulAsWritten(x, x) == MultiplyChunksAsWritten(x, x);
  }

  /** A trimmed limb sequence of value at least BASE has two limbs or more. */
  lemma LongValue(s: seq<Limb>, v: nat)
    requires Trimmed(s) && Value(s) == v && v >= BASE
    ensures |s| >= 2
  {
    ValueBound(s);
    assert Pow(1) == BASE && Pow(0) == 1;
  }

  /** Recombine on z0 a Plus-signed zero and z1 = z2 = m: the middle term is
      zero and the result is m shifted by 2k limbs. */
  lemma RecombineSquare(z0: BigInt, m: BigInt, k: nat)
    requires z0 == BigInt(Plus, [0])
    requires m.sign == Plus && Trimmed(m.body) && |m.body| >= 2 && k >= 1
    ensures Value(Recombine(z0, m, m, k).body) == Pow(2 * k) * Value(m.body)
  {
    var d := Sub(m, z0);
    assert d == SignedSub(m, z0, Plus);
    TrimmedZero(m.body);
    TrimmedUnique(d.body, m.body);
    assert d == m;
    var mid := Sub(d, m);
    assert mid == SignedSub(m, m, Plus);
    var sm := Shift(mid, k);
    assert sm.sign == Zero && |sm.body| >= 2 && Value(sm.body) == 0;
    AddLongZero(sm, z0);
    var low := Add(sm, z0);
    var sh := Shift(m, 2 * k);
    AddZeroLeft(low, sh);
  }

  lemma AddZeroHalf()
    ensures Add(BigInt(Plus, [1, 0]), BigInt(Plus, [0, 0])) == BigInt(Plus, [1, 0])
  {
    assert Pad([1, 0], 2) == [1, 0] && Pad([0, 0], 2) == [0, 0];
    assert [1, 0][1..] == [0] && [0, 0][1..] == [0];
    assert AddLimbs([0], [0], 0) == [0];
    assert AddLimbs([1, 0], [0, 0], 0) == [1] + AddLimbs([0], [0], 0);
  }

  /** A Zero-signed record of several limbs added to a non-negative one
      takes the Plus sign, even when the sum is zero. */
  lemma AddLongZero(a: BigInt, b: BigInt)
    requires a.sign == Zero && b.sign == Plus && |a.body| >= 2
    ensures Add(a, b).sign == Plus
    ensures Value(Add(a, b).body) == Value(a.body) + Value(b.body)
    ensures |Add(a, b).body| >= |a.body|
  {
    assert Add(a, b) == SignedAdd(a, b, Plus);
  }

  lemma AddZeroLeft(a: BigInt, b: BigInt)
    requires a.sign >= 0 && b.sign >= 0 && Value(a.body) == 0
    ensures Value(Add(a, b).body) == Value(b.body)
  {
  }

  lemma AddNonNegativeSign(a: BigInt, b: BigInt)
    requires a.sign >= 0 && b.sign >= 0 && |a.body| >= 2
    ensures Add(a, b).sign == Plus || (a.sign == Zero && b.sign == Zero)
  {
    SignProduct(a.sign, b.sign);
    var sign: Sign := if a.sign == Zero || b.sign == Zero then a.sign + b.sign else a.sign;
    assert Add(a, b) == SignedAdd(a, b, sign);
    var n := Max(|a.body|, |b.body|);
    var sum := AddLimbs(Pad(a.body, n), Pad(b.body, n), 0);
    assert !IsZero(BigInt(sign, sum));
  }
}