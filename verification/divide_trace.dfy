/** Division and operator% as written, traced on concrete operands
    (big_integer.cpp, Division and operator%).

    When a digit's subtraction empties the window exactly, operator-= gives
    the Zero-signed zero. Shift and ShortAdd keep that sign while the next
    limb is brought down, so the next BinSearchDivision takes the window
    for zero and the digit comes out 0. */
module DivideTrace {
  import opened Limbs
  import opened BigInts
  import opened ShortArith
  import opened AddSub
  import opened Compare
  import opened Divide

  /** 3 * BASE + 5 as a record, and the divisor 3. */
  const DIVIDEND: BigInt := BigInt(Plus, [5, 3])
  const DIVISOR: BigInt := BigInt(Plus, [3])

  lemma OperandsCanonical()
    ensures Canonical(DIVIDEND) && Canonical(DIVISOR)
    ensures ToInt(DIVIDEND) == 3 * BASE + 5 && ToInt(DIVISOR) == 3
  {
    assert [5, 3][1..] == [3] && [3][1..] == [];
  }

  /** The first window is the top limb 3, with one limb to bring down. */
  lemma FirstWindowOfExample()
    ensures FirstWindow(DIVIDEND, DIVISOR) == (DIVISOR, 1)
  {
    OperandsCanonical();
    assert TrimFront(DIVIDEND, 1) == DIVISOR;
    CompareCanonicalIf(DIVISOR, DIVISOR);
  }

  /** 3 goes into the window 3 once. */
  lemma FirstDigitOfExample()
    ensures BinSearchDivision(DIVISOR, DIVISOR) == 1
  {
    OperandsCanonical();
    BinSearchQuotient(DIVISOR, DIVISOR);
  }

  /** The subtraction empties the window into the Zero-signed zero. */
  lemma ExactSubtraction()
    ensures Sub(DIVISOR, ShortMul(DIVISOR, 1)) == ZERO
  {
    OperandsCanonical();
    var p := ShortMul(DIVISOR, 1);
    assert Canonical(p);
    ZeroValue();
    CanonicalUnique(Sub(DIVISOR, p), ZERO);
  }

  /** The digit loop as written on the example: digit 1, then the
      Zero-signed window 5 gives digit 0. The records are parameters so
      that the verifier does not evaluate the calls on constants. */
  lemma LoopOfExample(l: BigInt, r: BigInt, one: BigInt)
    requires l == DIVIDEND && r == DIVISOR && one == BigInt(Plus, [1])
    ensures LoopAsWritten(l, r, r, one, 0, 1) == BigInt(Plus, [0, 1])
  {
    FirstDigitOfExample();
    ExactSubtraction();
    var d := BinSearchDivision(r, r);
    var next := ShortAdd(Shift(Sub(r, ShortMul(r, d)), 1), l.body[0]);
    // The window 5 keeps the Zero sign, so its digit is 0.
    assert next.sign == Zero && BinSearchDivision(next, r) == 0;
    var r2 := Shift(SetLow(one, d), 1);
    QuotientDigitsOfExample(one, d);
    assert LoopAsWritten(l, r, next, r2, 1, 1) == SetLow(r2, 0);
    assert LoopAsWritten(l, r, r, one, 0, 1) == LoopAsWritten(l, r, next, r2, 1, 1);
  }

  /** The digits 1, 0 as the loop places them: [0, 1] after the first
      pass, and the last digit 0 leaves them alone. */
  lemma QuotientDigitsOfExample(one: BigInt, d: Limb)
    requires one == BigInt(Plus, [1]) && d == 1
    ensures Shift(SetLow(one, d), 1) == BigInt(Plus, [0, 1])
    ensures SetLow(BigInt(Plus, [0, 1]), 0) == BigInt(Plus, [0, 1])
  {
    ShiftedDigits(one, d);
  }

  /** Division as written on the example gives the record [0, 1]. */
  lemma DivisionOfExample(l: BigInt, r: BigInt)
    requires l == DIVIDEND && r == DIVISOR
    ensures DivAsWritten(l, r) == BigInt(Plus, [0, 1])
  {
    OperandsCanonical();
    FirstWindowOfExample();
    assert GetAbsolute(r) == r;
    LoopOfExample(l, r, BigInt(Plus, [1]));
    CompareCanonicalIf(l, r);
  }

  /** Division as written on 3 * BASE + 5 and 3 gives BASE, one short of
      the quotient BASE + 1 that the corrected Div gives. */
  lemma DivAsWrittenCounterexample(l: BigInt, r: BigInt)
    requires l == DIVIDEND && r == DIVISOR
    ensures ToInt(DivAsWritten(l, r)) == BASE
    ensures ToInt(Div(l, r)) == BASE + 1
  {
    DivisionOfExample(l, r);
    DigitsOfExample(BigInt(Plus, [0, 1]));
    DivOfExample(l, r);
  }

  /** The record [0, 1] denotes BASE. */
  lemma DigitsOfExample(q: BigInt)
    requires q == BigInt(Plus, [0, 1])
    ensures ToInt(q) == BASE
  {
    assert q.body[1..] == [1] && q.body[2..] == [];
  }

  /** The corrected Div on the example gives BASE + 1. */
  lemma DivOfExample(l: BigInt, r: BigInt)
    requires l == DIVIDEND && r == DIVISOR
    ensures ToInt(Div(l, r)) == BASE + 1
  {
    OperandsCanonical();
    DivModUnique(3 * BASE + 5, 3, BASE + 1, 2);
  }

  /** operator% as written on -3 and 5 gives 3, where C++ integer division
      leaves -3 and the corrected Mod gives -3. */
  lemma ModAsWrittenCounterexample()
    ensures ToInt(ModAsWritten(BigInt(Minus, [3]), BigInt(Plus, [5]))) == 3
    ensures ToInt(Mod(BigInt(Minus, [3]), BigInt(Plus, [5]))) == -3
    ensures TruncMod(-3, 5) == -3
  {
    var l, r := BigInt(Minus, [3]), BigInt(Plus, [5]);
    assert [3][1..] == [] && [5][1..] == [];
    assert Canonical(l) && Canonical(r);
  }

  /** (BASE^2 + 1)^2 and BASE^2 + 1 as records. */
  const SQUARE: BigInt := BigInt(Plus, [1, 0, 2, 0, 1])
  const ROOT: BigInt := BigInt(Plus, [1, 0, 1])
  /** The first window of SQUARE by ROOT: its top three limbs, BASE^2 + 2. */
  const TOP: BigInt := BigInt(Plus, [2, 0, 1])

  /** What the steps of the trace use of the divisor: canonical, positive,
      BASE^2 + 1, three limbs. */
  predicate IsRoot(r: BigInt)
  {
    Canonical(r) && r.sign == Plus && Value(r.body) == BASE * BASE + 1 && |r.body| == 3
  }

  /** What the steps of the trace use of the dividend: five limbs, the two
      lowest 1 and 0. */
  predicate IsSquare(l: BigInt)
  {
    |l.body| == 5 && l.body[0] == 1 && l.body[1] == 0
  }

  /** The first window as the steps use it: canonical, positive, BASE^2 + 2. */
  predicate IsTop(w: BigInt)
  {
    Canonical(w) && w.sign == Plus && Value(w.body) == BASE * BASE + 2
  }

  /** The dividend as the steps use it: canonical, positive, (BASE^2 + 1)^2,
      with its top three limbs a window as IsTop says. */
  predicate IsSquareValue(l: BigInt)
  {
    && IsSquare(l) && Canonical(l) && l.sign == Plus
    && Value(l.body) == (BASE * BASE + 1) * (BASE * BASE + 1) && IsTop(BigInt(Plus, l.body[2..]))
  }

  lemma SquareOperands()
    ensures IsRoot(ROOT) && IsSquare(SQUARE) && IsSquareValue(SQUARE)
    ensures Canonical(SQUARE) && Canonical(ROOT) && Canonical(TOP)
    ensures Value(ROOT.body) == BASE * BASE + 1 && Value(TOP.body) == BASE * BASE + 2
    ensures Value(SQUARE.body) == (BASE * BASE + 1) * (BASE * BASE + 1)
    ensures SQUARE.body[2..] == TOP.body
  {
    assert [1, 0, 1][1..] == [0, 1] && [0, 1][1..] == [1] && [1][1..] == [];
    assert [2, 0, 1][1..] == [0, 1];
    assert [1, 0, 2, 0, 1][1..] == [0, 2, 0, 1] && [0, 2, 0, 1][1..] == [2, 0, 1];
  }

  /** The first window is the top three limbs, with two limbs to bring down. */
  lemma FirstWindowOfSquare(l: BigInt, r: BigInt)
    requires IsSquareValue(l) && IsRoot(r)
    ensures FirstWindow(l, r) == (BigInt(Plus, l.body[2..]), 2)
  {
    var top := BigInt(Plus, l.body[2..]);
    assert TrimFront(l, 2) == top;
    CompareCanonicalIf(top, r);
  }

  /** A window from r up to below 2 r gives the digit 1. */
  lemma OnlyDigit(W: nat, R: nat, d: nat)
    requires QuotientDigit(W, R, d) && R <= W < 2 * R
    ensures d == 1
  {
    if d >= 2 {
      MulMono(R, 2, R, d);
    }
  }

  /** The first digit is 1 and leaves the canonical remainder 1. */
  lemma FirstStepOfSquare(w: BigInt, r: BigInt)
    requires IsTop(w) && IsRoot(r)
    ensures BinSearchDivision(w, r) == 1
    ensures Sub(w, ShortMul(r, 1)) == BigInt(Plus, [1])
  {
    BinSearchQuotient(w, r);
    OnlyDigit(Value(w.body), Value(r.body), BinSearchDivision(w, r));
    var p := ShortMul(r, 1);
    assert Canonical(p);
    assert [1][1..] == [];
    CanonicalUnique(Sub(w, p), BigInt(Plus, [1]));
  }

  /** Bringing down the zero limb gives the window BASE, two limbs long,
      below r, so its digit is 0. */
  lemma SecondWindowOfSquare(one: BigInt, x: Limb)
    requires one == BigInt(Plus, [1]) && x == 0
    ensures var w := ShortAdd(Shift(one, 1), x);
      && Canonical(w) && w.sign == Plus && Value(w.body) == BASE && |w.body| == 2
  {
    var s := Shift(one, 1);
    assert [1][1..] == [] && s.body[1..] == [1];
    assert Pow(1) == BASE;
    var w := ShortAdd(s, x);
    assert Pow(2) == BASE * BASE;
    if |w.body| == 3 {
      TrimmedLowerBound(w.body);
    }
  }

  /** The window BASE is below r, so its digit is 0. */
  lemma SmallWindowDigit(w: BigInt, r: BigInt)
    requires IsRoot(r) && Canonical(w) && w.sign == Plus && Value(w.body) == BASE
    ensures BinSearchDivision(w, r) == 0
  {
    CompareCanonicalIf(w, r);
  }

  /** Subtracting a Plus-signed run of zero limbs longer than a positive
      window: the comparator ranks the zero run higher by its length, and
      the subtraction wraps around to BASE^|z| - w with the Minus sign. */
  lemma ZeroSubtrahendWraps(w: BigInt, z: BigInt)
    requires w.sign == Plus && Value(w.body) > 0
    requires z.sign == Plus && Value(z.body) == 0 && |z.body| > |w.body|
    ensures var s := Sub(w, z);
      s.sign == Minus && Value(s.body) == Pow(|z.body|) - Value(w.body)
  {
    assert !GreaterEq(GetAbsolute(w), GetAbsolute(z));
    assert Sub(w, z) == SignedSub(z, w, Minus);
    ValueBound(w.body);
    PowMonotone(|w.body|, |z.body|);
  }

  /** The digit 0 subtracts the three zero limbs of r * 0 from the two-limb
      window BASE, leaving the Minus-signed BASE^3 - BASE of three or more
      limbs. */
  lemma WrappedRemainder(w: BigInt, r: BigInt)
    requires IsRoot(r)
    requires Canonical(w) && w.sign == Plus && Value(w.body) == BASE && |w.body| == 2
    ensures var s := Sub(w, ShortMul(r, 0));
      s.sign == Minus && Value(s.body) == Pow(3) - BASE && |s.body| >= 3
  {
    var z := ShortMul(r, 0);
    ValueZeros(3);
    ZeroSubtrahendWraps(w, z);
    var s := Sub(w, z);
    ValueBound(s.body);
    assert Pow(2) == BASE * BASE && Pow(3) == BASE * Pow(2);
    if |s.body| <= 2 {
      PowMonotone(|s.body|, 2);
    }
  }

  /** Against a Plus-signed divisor, a Minus-signed window is below every
      probe, so the bisection only lowers its upper end and stops at 0. */
  lemma {:induction false} BisectNegative(l: BigInt, r: BigInt, down: nat, up: nat, prev: nat)
    requires l.sign == Minus && r.sign == Plus
    requires down == 0 && 1 <= up <= BASE && (prev == 0 || prev == up)
    ensures Bisect(l, r, down, up, prev) == 0
    decreases up
  {
    var mid := (up + down) / 2;
    assert Less(l, ShortMul(r, mid));
    if mid != prev && mid != 0 {
      BisectNegative(l, r, 0, mid, mid);
    }
  }

  /** The last window, Minus-signed and longer than r, gives the digit 0. */
  lemma LastDigitOfSquare(w: BigInt, r: BigInt, down: nat, up: nat, prev: nat)
    requires IsRoot(r) && w.sign == Minus && |w.body| > 3
    requires down == 0 && up == BASE && prev == 0
    ensures BinSearchDivision(w, r) == 0
  {
    assert GetAbsolute(r) == r;
    assert !Less(GetAbsolute(w), GetAbsolute(r));
    BisectNegative(w, r, down, up, prev);
  }

  /** The first pass of the digit loop as written on SQUARE and ROOT:
      digit 1, then the window BASE. */
  lemma FirstPassOfSquare(l: BigInt, r: BigInt, w: BigInt, one: BigInt)
    requires IsSquare(l) && IsRoot(r) && IsTop(w) && one == BigInt(Plus, [1])
    ensures LoopAsWritten(l, r, w, one, 0, 2)
      == LoopAsWritten(l, r, ShortAdd(Shift(one, 1), l.body[1]), BigInt(Plus, [0, 1]), 1, 2)
  {
    FirstStepOfSquare(w, r);
    var d := BinSearchDivision(w, r);
    var next := ShortAdd(Shift(Sub(w, ShortMul(r, d)), 1), l.body[1]);
    assert next == ShortAdd(Shift(one, 1), l.body[1]);
    ShiftedDigits(one, 1);
    assert Shift(SetLow(one, d), 1) == BigInt(Plus, [0, 1]);
    assert LoopAsWritten(l, r, w, one, 0, 2) == LoopAsWritten(l, r, next, Shift(SetLow(one, d), 1), 1, 2);
  }

  /** The digits after one more step: a zero limb below the new digit and
      the digits above the lowest one. */
  lemma ShiftedDigits(x: BigInt, d: Limb)
    ensures Shift(SetLow(x, d), 1) == BigInt(x.sign, [0, d] + x.body[1..])
  {
    var s := Shift(SetLow(x, d), 1);
    assert s.body == [0] + s.body[1..];
    assert s.body[1..] == [d] + x.body[1..];
  }

  /** The second pass: digit 0, then the wrapped Minus-signed window, whose
      digit is 0 as well. */
  lemma SecondPassOfSquare(l: BigInt, r: BigInt, w1: BigInt, r1: BigInt)
    requires IsSquare(l) && IsRoot(r) && r1 == BigInt(Plus, [0, 1])
    requires Canonical(w1) && w1.sign == Plus && Value(w1.body) == BASE && |w1.body| == 2
    ensures LoopAsWritten(l, r, w1, r1, 1, 2) == BigInt(Plus, [0, 0, 1])
  {
    var d := BinSearchDivision(w1, r);
    var w2 := ShortAdd(Shift(Sub(w1, ShortMul(r, d)), 1), l.body[0]);
    SecondDigitsOfSquare(l, r, w1);
    var r2 := Shift(SetLow(r1, d), 1);
    QuotientDigitsOfSquare(r1, d);
    assert LoopAsWritten(l, r, w2, r2, 2, 2) == SetLow(r2, 0);
    assert LoopAsWritten(l, r, w1, r1, 1, 2) == LoopAsWritten(l, r, w2, r2, 2, 2);
  }

  /** The digits 1, 0, 0 as the loop places them: [0, 1] after the first
      pass, [0, 0, 1] after the second, and the last 0 leaves them alone. */
  lemma QuotientDigitsOfSquare(r1: BigInt, d: Limb)
    requires r1 == BigInt(Plus, [0, 1]) && d == 0
    ensures Shift(SetLow(r1, d), 1) == BigInt(Plus, [0, 0, 1])
    ensures SetLow(BigInt(Plus, [0, 0, 1]), d) == BigInt(Plus, [0, 0, 1])
  {
    ShiftedDigits(r1, d);
    assert [0, 0] + [0, 1][1..] == [0, 0, 1];
  }

  /** Both digits of the second pass are 0: the window BASE is below r,
      and the wrapped window after it is Minus-signed. */
  lemma SecondDigitsOfSquare(l: BigInt, r: BigInt, w1: BigInt)
    requires IsSquare(l) && IsRoot(r)
    requires Canonical(w1) && w1.sign == Plus && Value(w1.body) == BASE && |w1.body| == 2
    ensures var d := BinSearchDivision(w1, r);
      && d == 0
      && BinSearchDivision(ShortAdd(Shift(Sub(w1, ShortMul(r, d)), 1), l.body[0]), r) == 0
  {
    SmallWindowDigit(w1, r);
    WrappedRemainder(w1, r);
    var w2 := ShortAdd(Shift(Sub(w1, ShortMul(r, 0)), 1), l.body[0]);
    LastDigitOfSquare(w2, r, 0, BASE, 0);
  }

  /** Division as written on SQUARE and ROOT gives the record [0, 0, 1]. */
  lemma DivisionOfSquare(l: BigInt, r: BigInt, one: BigInt)
    requires IsSquareValue(l) && IsRoot(r) && one == BigInt(Plus, [1])
    ensures DivAsWritten(l, r) == BigInt(Plus, [0, 0, 1])
  {
    DivAsWrittenDivides(l, r);
    FirstWindowOfSquare(l, r);
    assert GetAbsolute(r) == r;
    FirstPassOfSquare(l, r, BigInt(Plus, l.body[2..]), one);
    SecondWindowOfSquare(one, l.body[1]);
    SecondPassOfSquare(l, r, ShortAdd(Shift(one, 1), l.body[1]), BigInt(Plus, [0, 1]));
  }

  /** On canonical operands with the dividend larger in magnitude,
      operator/ as written goes to Division as written. */
  lemma DivAsWrittenDivides(l: BigInt, r: BigInt)
    requires Canonical(l) && Canonical(r) && Value(l.body) > Value(r.body) > 0
    ensures DivAsWritten(l, r) == DivisionAsWritten(l, r)
  {
    ToIntBySign(l);
    ToIntBySign(r);
    CompareCanonicalIf(GetAbsolute(l), GetAbsolute(r));
  }

  /** The corrected Div on the same operands gives BASE^2 + 1. */
  lemma DivOfSquare(l: BigInt, r: BigInt)
    requires IsSquareValue(l) && IsRoot(r)
    ensures ToInt(Div(l, r)) == BASE * BASE + 1
  {
    var R := BASE * BASE + 1;
    DivModUnique(R * R, R, R, 0);
  }

  /** Division as written on the same operands gives BASE^2. */
  lemma DivAsWrittenOfSquare(l: BigInt, r: BigInt)
    requires IsSquareValue(l) && IsRoot(r)
    ensures ToInt(DivAsWritten(l, r)) == BASE * BASE
  {
    DivisionOfSquare(l, r, BigInt(Plus, [1]));
    DigitsOfSquare(BigInt(Plus, [0, 0, 1]));
  }

  /** The record [0, 0, 1] denotes BASE^2. */
  lemma DigitsOfSquare(q: BigInt)
    requires q == BigInt(Plus, [0, 0, 1])
    ensures ToInt(q) == BASE * BASE
  {
    assert q.body[1..] == [0, 1] && q.body[2..] == [1] && q.body[3..] == [];
  }

  /** Division as written on (BASE^2 + 1)^2 and BASE^2 + 1 gives BASE^2,
      where the corrected Div gives BASE^2 + 1. */
  lemma SquareCounterexample(l: BigInt, r: BigInt)
    requires l == SQUARE && r == ROOT
    ensures ToInt(DivAsWritten(l, r)) == BASE * BASE
    ensures ToInt(Div(l, r)) == BASE * BASE + 1
  {
    SquareOperands();
    DivAsWrittenOfSquare(l, r);
    DivOfSquare(l, r);
  }
}
