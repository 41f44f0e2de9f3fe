/** Long division: BinSearchDivision, Division, operator/ and operator%
    (big_integer.cpp). Division is modelled twice: as written, and with the
    working window and the subtrahend kept normalised, which is the version
    the operators use. */
module Divide {
  import opened Limbs
  import opened BigInts
  import opened ShortArith
  import opened Compare
  import opened AddSub
  import opened Multiply
  import opened Construct

  /** The bisection loop of BinSearchDivision over [down, up): probe r * middle,
      move one end to middle, or close the interval on an exact hit; stop when
      the interval is empty or the middle repeats. */
  function Bisect(l: BigInt, r: BigInt, down: nat, up: nat, prev: nat): (mid: nat)
    requires down < up <= BASE
    ensures down <= mid < up
    decreases up - down, if prev == (up + down) / 2 then 0 else 1
  {
    var mid := (up + down) / 2;
    var probe := ShortMul(r, mid);
    var next := if Less(l, probe) then (down, mid) else if Greater(l, probe) then (mid, up) else (up, up);
    if mid == prev || next.0 >= next.1 then mid
    else Bisect(l, r, next.0, next.1, mid)
  }

  /** BinSearchDivision: 0 when |l| < |r|, otherwise the bisection over
      [0, kBase). */
  function BinSearchDivision(l: BigInt, r: BigInt): (d: Limb)
  {
    if Less(GetAbsolute(l), GetAbsolute(r)) then 0 else Bisect(l, r, 0, BASE, 0)
  }

  /** The bisection keeps r * down <= l < r * up, and a repeated middle only
      happens on an interval of width one, so it ends on the quotient digit. */
  lemma {:induction false} BisectBrackets(l: BigInt, r: BigInt, down: nat, up: nat, prev: nat)
    requires Canonical(l) && l.sign >= 0 && Canonical(r) && r.sign == Plus
    requires down < up <= BASE
    requires Value(r.body) <= Value(l.body)
    requires Value(r.body) * down <= Value(l.body) < Value(r.body) * up
    requires prev == (up + down) / 2 ==> up == down + 1
    ensures QuotientDigit(Value(l.body), Value(r.body), Bisect(l, r, down, up, prev))
    decreases up - down, if prev == (up + down) / 2 then 0 else 1
  {
    var R, L := Value(r.body), Value(l.body);
    var mid := (up + down) / 2;
    BracketWidth(R, L, down, up);
    var probe := ShortMul(r, mid);
    ProbeOrder(l, r, mid);
    if Less(l, probe) {
      MiddleBelow(R, L, down, mid);
      BisectBrackets(l, r, down, mid, mid);
    } else if Greater(l, probe) {
      if mid != prev && mid < up {
        BisectBrackets(l, r, mid, up, mid);
      }
    }
  }

  /** d is the quotient digit of L by R: R * d <= L < R * (d + 1). */
  predicate QuotientDigit(L: nat, R: nat, d: nat)
  {
    R * d <= L < R * (d + 1)
  }

  /** Against the probe r * mid, the relational operators compare values. */
  lemma ProbeOrder(l: BigInt, r: BigInt, mid: Limb)
    requires Canonical(l) && l.sign >= 0 && Canonical(r) && r.sign == Plus && mid >= 1
    ensures Less(l, ShortMul(r, mid)) <==> Value(l.body) < Value(r.body) * mid
    ensures Greater(l, ShortMul(r, mid)) <==> Value(l.body) > Value(r.body) * mid
  {
    var probe := ShortMul(r, mid);
    MulAtLeast(Value(r.body), mid);
    assert Canonical(probe) && ToInt(probe) == Value(r.body) * mid;
    ToIntBySign(l);
  }

  /** With r <= l the bracket is at least [?, 2), so the middle is positive. */
  lemma BracketWidth(R: nat, L: nat, down: nat, up: nat)
    requires 0 < R <= L < R * up && down < up
    ensures (up + down) / 2 >= 1
  {
    if up <= 1 {
      MulMono(R, up, R, 1);
    }
  }

  /** A probe above l lies strictly above the lower end of the bracket. */
  lemma MiddleBelow(R: nat, L: nat, down: nat, mid: nat)
    requires R * down <= L < R * mid
    ensures down < mid && (mid + down) / 2 < mid
  {
    if mid <= down {
      MulMono(R, mid, R, down);
    }
  }

  /** BinSearchDivision on a canonical non-negative window below r * kBase
      returns the quotient digit floor(l / r). */
  lemma BinSearchQuotient(l: BigInt, r: BigInt)
    requires Canonical(l) && l.sign >= 0 && Canonical(r) && r.sign == Plus
    requires Value(l.body) < Value(r.body) * BASE
    ensures QuotientDigit(Value(l.body), Value(r.body), BinSearchDivision(l, r))
  {
    CompareCanonicalIf(GetAbsolute(l), GetAbsolute(r));
    if Less(GetAbsolute(l), GetAbsolute(r)) {
      assert QuotientDigit(Value(l.body), Value(r.body), 0);
    } else {
      BisectFromStart(l, r, 0, BASE, 0);
    }
  }

  /** The bisection from its starting bracket [0, kBase). */
  lemma BisectFromStart(l: BigInt, r: BigInt, down: nat, up: nat, prev: nat)
    requires Canonical(l) && l.sign >= 0 && Canonical(r) && r.sign == Plus
    requires Value(r.body) <= Value(l.body) < Value(r.body) * BASE
    requires down == 0 && up == BASE && prev == 0
    ensures QuotientDigit(Value(l.body), Value(r.body), Bisect(l, r, down, up, prev))
  {
    assert (up + down) / 2 != prev;
    BisectBrackets(l, r, down, up, prev);
  }

  /** `result.body_[0] = digit`: the lowest limb of the quotient being built. */
  function SetLow(x: BigInt, d: Limb): (r: BigInt)
    ensures r.sign == x.sign && |r.body| == |x.body|
    ensures r.body[0] == d && r.body[1..] == x.body[1..]
    ensures Value(r.body) == d + BASE * Value(x.body[1..])
  {
    BigInt(x.sign, x.body[0 := d])
  }

  /** The opening of Division: the top |right| limbs of |left| as the first
      window, or the top |right| + 1 limbs when those are below |right|,
      paired with the number of limbs still to be brought down. The window
      is the dividend's limbs from that index up, between r and r * kBase. */
  function FirstWindow(left: BigInt, right: BigInt): (w: (BigInt, nat))
    requires Canonical(left) && Canonical(right) && Value(left.body) > Value(right.body) > 0
    ensures w.1 <= |left.body| - |right.body|
    ensures IsWindow(left, right, w.0, w.1)
  {
    var n, m := |left.body|, |right.body|;
    DividendLonger(left, right);
    var lc := BigInt(left.sign * left.sign, left.body);
    var ra := GetAbsolute(right);
    var k := n - m;
    var top := if k == 0 then lc else TrimFront(lc, k);
    WindowChoice(left, right, lc, ra, top, k);
    if Less(top, ra) && k > 0 then (TrimFront(lc, k - 1), k - 1) else (top, k)
  }

  /** The choice FirstWindow makes between the top |right| and the top
      |right| + 1 limbs gives a window. */
  lemma WindowChoice(left: BigInt, right: BigInt, lc: BigInt, ra: BigInt, top: BigInt, k: nat)
    requires Canonical(left) && Canonical(right) && Value(left.body) > Value(right.body) > 0
    requires |left.body| >= |right.body| && k == |left.body| - |right.body|
    requires lc == BigInt(left.sign * left.sign, left.body) && ra == GetAbsolute(right)
    requires top == if k == 0 then lc else TrimFront(lc, k)
    ensures Less(top, ra) && k > 0 ==> IsWindow(left, right, TrimFront(lc, k - 1), k - 1)
    ensures !(Less(top, ra) && k > 0) ==> IsWindow(left, right, top, k)
  {
    ExactWindow(left, right, top, ra);
    if Less(top, ra) {
      WiderWindow(left, right);
    }
  }

  /** A window for the digit loop of Division: the dividend's limbs from
      index k up, as a canonical Plus record, at least r and below r * kBase,
      so that its quotient by r is one nonzero limb. */
  predicate IsWindow(left: BigInt, right: BigInt, w: BigInt, k: nat)
  {
    && k < |left.body|
    && Canonical(w) && w.sign == Plus
    && Value(w.body) == Value(left.body[k..])
    && Value(right.body) <= Value(w.body) < Value(right.body) * BASE
  }

  /** On the operands of Division the dividend has at least as many limbs,
      and both signs are nonzero. */
  lemma DividendLonger(left: BigInt, right: BigInt)
    requires Canonical(left) && Canonical(right) && Value(left.body) > Value(right.body) > 0
    ensures |left.body| >= |right.body|
    ensures left.sign * left.sign == Plus && right.sign != Zero
  {
    if |left.body| < |right.body| {
      TrimmedLengthOrder(left.body, right.body);
    }
  }

  /** The top limbs of the dividend from index k, as a canonical Plus record:
      below r * kBase when they are as many as the divisor's limbs, and above
      r when they are more. */
  lemma TopWindow(left: BigInt, right: BigInt, k: nat)
    requires Canonical(left) && Canonical(right) && Value(left.body) > Value(right.body) > 0
    requires k <= |left.body| - |right.body|
    ensures var w := TrimFront(BigInt(left.sign * left.sign, left.body), k);
      && w == BigInt(Plus, left.body[k..]) && Canonical(w)
      && Value(w.body) == Value(left.body[k..])
    ensures k == |left.body| - |right.body| ==> Value(left.body[k..]) < Value(right.body) * BASE
    ensures k < |left.body| - |right.body| ==> Value(left.body[k..]) > Value(right.body)
    ensures k == 0 ==> Value(left.body[k..]) == Value(left.body)
  {
    DividendLonger(left, right);
    var top := left.body[k..];
    assert Trimmed(top) && Value(top) > 0 by {
      assert top[|top| - 1] == left.body[|left.body| - 1];
      ValueDropLow(left.body, k);
      TrimmedZero(top);
    }
    TopBounds(top, right.body);
    assert left.body[0..] == left.body;
  }

  /** A trimmed sequence of as many limbs as a trimmed nonzero t is below
      t * kBase; one with more limbs is above t. */
  lemma TopBounds(top: seq<Limb>, t: seq<Limb>)
    requires Trimmed(top) && Trimmed(t) && Value(top) > 0 && Value(t) > 0
    requires |top| >= |t|
    ensures |top| == |t| ==> Value(top) < Value(t) * BASE
    ensures |top| > |t| ==> Value(top) > Value(t)
  {
    if |top| >= 2 {
      TrimmedLowerBound(top);
    } else {
      assert top[1..] == [];
    }
    ValueBound(top);
    ValueBound(t);
    assert Pow(1) == BASE;
    if |t| >= 2 {
      TrimmedLowerBound(t);
      PowAdd(1, |t| - 1);
    } else {
      assert t[1..] == [];
    }
    if |top| == |t| {
      assert Pow(|t|) <= Value(t) * BASE;
    } else {
      PowMonotone(|t|, |top| - 1);
    }
  }

  /** The top |right| limbs of the dividend as a window: below r * kBase,
      and compared with r by Less. */
  lemma ExactWindow(left: BigInt, right: BigInt, first: BigInt, ra: BigInt)
    requires Canonical(left) && Canonical(right) && Value(left.body) > Value(right.body) > 0
    requires |left.body| >= |right.body|
    requires var k := |left.body| - |right.body|;
      first == if k == 0 then BigInt(left.sign * left.sign, left.body)
               else TrimFront(BigInt(left.sign * left.sign, left.body), k)
    requires ra == GetAbsolute(right)
    ensures var k := |left.body| - |right.body|;
      && (Less(first, ra) <==> Value(left.body[k..]) < Value(right.body))
      && (Less(first, ra) ==> k > 0)
      && (!Less(first, ra) ==> IsWindow(left, right, first, k))
  {
    var k := |left.body| - |right.body|;
    TopWindow(left, right, k);
    CompareCanonicalIf(first, ra);
  }

  /** When the top |right| limbs of the dividend are below r, one more limb
      makes a window from r up to below r * kBase. */
  lemma WiderWindow(left: BigInt, right: BigInt)
    requires Canonical(left) && Canonical(right) && Value(left.body) > Value(right.body) > 0
    requires |left.body| > |right.body|
    requires Value(left.body[|left.body| - |right.body|..]) < Value(right.body)
    ensures var k := |left.body| - |right.body| - 1;
      IsWindow(left, right, TrimFront(BigInt(left.sign * left.sign, left.body), k), k)
  {
    var k := |left.body| - |right.body|;
    TopWindow(left, right, k - 1);
    SuffixCons(left.body, k);
    BroughtDown(Value(left.body[k..]), left.body[k - 1], Value(right.body));
  }

  /** The limbs from index k - 1 up: one limb brought down below those from k. */
  lemma SuffixCons(s: seq<Limb>, k: nat)
    requires 0 < k <= |s|
    ensures Value(s[k - 1..]) == s[k - 1] + BASE * Value(s[k..])
  {
    assert s[k - 1..][1..] == s[k..];
  }

  /** Bringing down a limb after a window below r stays below r * kBase. */
  lemma BroughtDown(rem: nat, x: nat, R: nat)
    requires rem < R && x < BASE
    ensures x + BASE * rem < R * BASE
  {
    MulMono(BASE, rem, BASE, R - 1);
  }

  /** The digit loop of Division with the correction: the subtrahend
      r * digit and the window after bringing down a limb are normalised,
      the window with the Plus sign. */
  function Loop(left: BigInt, ra: BigInt, window: BigInt, result: BigInt, i: nat, ld: nat): (q: BigInt)
    requires i <= ld < |left.body|
    ensures |q.body| == |result.body| + ld - i
    ensures LoopInvariant(left, ra, window, result, i, ld) ==> IsQuotient(left, ra, q)
    decreases ld - i
  {
    var d := BinSearchDivision(window, ra);
    if i == ld then
      LastStep(left, ra, window, result, i, ld);
      SetLow(result, d)
    else
      LoopStep(left, ra, window, result, i, ld);
      Loop(left, ra, NextWindow(window, ra, d, left.body[ld - i - 1]), Shift(SetLow(result, d), 1), i + 1, ld)
  }

  /** One corrected step of the window: subtract r * digit, shift up one
      limb and bring down the next limb of the dividend, keeping the Plus
      sign. */
  function NextWindow(window: BigInt, ra: BigInt, d: Limb, x: Limb): (w: BigInt)
    ensures w.sign != Minus
    ensures Canonical(w)
    ensures WindowDigit(window, ra, d) ==>
      var W, R := Value(window.body), Value(ra.body);
      && R * d <= W
      && Value(w.body) == BASE * (W - R * d) + x
      && Value(w.body) < R * BASE
  {
    var sub := Normalize(ShortMul(ra, d));
    var rest := Sub(window, sub);
    var next := ShortAdd(Shift(rest, 1), x);
    WindowStep(window, ra, d, x, sub, rest, next);
    Normalize(BigInt(Plus, next.body))
  }

  /** d is the quotient digit of a canonical non-negative window by a
      positive canonical divisor. */
  predicate WindowDigit(window: BigInt, ra: BigInt, d: Limb)
  {
    && Canonical(ra) && ra.sign == Plus
    && Canonical(window) && window.sign >= 0
    && QuotientDigit(Value(window.body), Value(ra.body), d)
  }

  /** The digit loop of Division as written: the subtrahend r * 0 keeps its
      |r| zero limbs, and the window keeps whatever sign the subtraction
      gave it. */
  function LoopAsWritten(left: BigInt, ra: BigInt, window: BigInt, result: BigInt, i: nat, ld: nat): (q: BigInt)
    requires i <= ld < |left.body|
    ensures |q.body| == |result.body| + ld - i
    decreases ld - i
  {
    var d := BinSearchDivision(window, ra);
    if i == ld then
      SetLow(result, d)
    else
      var rest := Sub(window, ShortMul(ra, d));
      var next := ShortAdd(Shift(rest, 1), left.body[ld - i - 1]);
      LoopAsWritten(left, ra, next, Shift(SetLow(result, d), 1), i + 1, ld)
  }

  /** The invariant of the corrected digit loop at step i: the window is
      what remains of the dividend's limbs from ld - i up after subtracting
      r times the digits so far, and it stays below r * kBase; the digits
      so far have a nonzero top. */
  predicate LoopInvariant(left: BigInt, ra: BigInt, window: BigInt, result: BigInt, i: nat, ld: nat)
  {
    && i <= ld < |left.body|
    && Canonical(ra) && ra.sign == Plus
    && Canonical(window) && window.sign >= 0
    && Value(window.body) < Value(ra.body) * BASE
    && Value(window.body) + Value(ra.body) * BASE * Value(result.body[1..]) == Value(left.body[ld - i..])
    && |result.body| == i + 1
    && (i == 0 ==> Value(window.body) >= Value(ra.body))
    && (i > 0 ==> result.body[i] != 0)
  }

  /** q is the quotient of the magnitudes of left and ra, trimmed and
      nonzero. */
  predicate IsQuotient(left: BigInt, ra: BigInt, q: BigInt)
    requires Value(ra.body) > 0
  {
    Value(q.body) == Value(left.body) / Value(ra.body) && Trimmed(q.body) && Value(q.body) > 0
  }

  /** The last digit completes the quotient. */
  lemma LastStep(left: BigInt, ra: BigInt, window: BigInt, result: BigInt, i: nat, ld: nat)
    requires i == ld < |left.body|
    ensures LoopInvariant(left, ra, window, result, i, ld) ==>
      IsQuotient(left, ra, SetLow(result, BinSearchDivision(window, ra)))
  {
    if LoopInvariant(left, ra, window, result, i, ld) {
      LastStepHolds(left, ra, window, result, i, ld);
    }
  }

  lemma LastStepHolds(left: BigInt, ra: BigInt, window: BigInt, result: BigInt, i: nat, ld: nat)
    requires LoopInvariant(left, ra, window, result, i, ld) && i == ld
    ensures IsQuotient(left, ra, SetLow(result, BinSearchDivision(window, ra)))
  {
    var R, W, Q := Value(ra.body), Value(window.body), Value(result.body[1..]);
    var d := BinSearchDivision(window, ra);
    BinSearchQuotient(window, ra);
    DigitPositive(W, R, d);
    var q := SetLow(result, d);
    assert left.body[0..] == left.body;
    FinalDigit(Value(left.body), W, R, Q, d);
    DigitsTrimmed(q, i);
  }

  /** One step keeps the invariant. */
  lemma LoopStep(left: BigInt, ra: BigInt, window: BigInt, result: BigInt, i: nat, ld: nat)
    requires i < ld < |left.body|
    ensures var d := BinSearchDivision(window, ra);
      LoopInvariant(left, ra, window, result, i, ld) ==>
      LoopInvariant(left, ra, NextWindow(window, ra, d, left.body[ld - i - 1]), Shift(SetLow(result, d), 1), i + 1, ld)
  {
    if LoopInvariant(left, ra, window, result, i, ld) {
      LoopStepHolds(left, ra, window, result, i, ld);
    }
  }

  lemma LoopStepHolds(left: BigInt, ra: BigInt, window: BigInt, result: BigInt, i: nat, ld: nat)
    requires LoopInvariant(left, ra, window, result, i, ld) && i < ld
    ensures var d := BinSearchDivision(window, ra);
      LoopInvariant(left, ra, NextWindow(window, ra, d, left.body[ld - i - 1]), Shift(SetLow(result, d), 1), i + 1, ld)
  {
    var R, W, Q := Value(ra.body), Value(window.body), Value(result.body[1..]);
    var d := BinSearchDivision(window, ra);
    var x := left.body[ld - i - 1];
    var w2 := NextWindow(window, ra, d, x);
    var r2 := Shift(SetLow(result, d), 1);
    var P, W2, Q2 := Value(left.body[ld - i..]), Value(w2.body), Value(r2.body[1..]);
    assert QuotientDigit(W, R, d) by {
      BinSearchQuotient(window, ra);
    }
    assert R * d <= W && W2 == BASE * (W - R * d) + x && W2 < R * BASE by {
      assert WindowDigit(window, ra, d);
    }
    assert |r2.body| == i + 2 && r2.body[i + 1] != 0 && Q2 == d + BASE * Q by {
      DigitPositive(W, R, d);
      DigitsStep(result, d, i);
    }
    assert Value(left.body[ld - (i + 1)..]) == x + BASE * P by {
      SuffixCons(left.body, ld - i);
      assert ld - (i + 1) == ld - i - 1;
    }
    assert W2 + R * BASE * Q2 == x + BASE * P by {
      StepArith(W, R, Q, d, x, P, W2, Q2);
    }
  }

  /** The window after one digit: r * digit taken off, shifted up a limb,
      the next dividend limb brought in, and still below r * kBase. */
  lemma WindowStep(window: BigInt, ra: BigInt, d: Limb, x: Limb, sub: BigInt, rest: BigInt, next: BigInt)
    requires sub == Normalize(ShortMul(ra, d)) && rest == Sub(window, sub)
    requires next == ShortAdd(Shift(rest, 1), x)
    ensures WindowDigit(window, ra, d) ==>
      var W, R := Value(window.body), Value(ra.body);
      && R * d <= W
      && Value(next.body) == BASE * (W - R * d) + x
      && Value(next.body) < R * BASE
  {
    if WindowDigit(window, ra, d) {
      var R, W := Value(ra.body), Value(window.body);
      RestOfWindow(window, ra, d, sub, rest);
      assert Pow(1) == BASE;
      BroughtDown(W - R * d, x, R);
    }
  }

  /** The digits after one step: the new digit below the earlier ones, with
      the top digit still nonzero. */
  lemma DigitsStep(result: BigInt, d: Limb, i: nat)
    requires |result.body| == i + 1
    requires i == 0 ==> d != 0
    requires i > 0 ==> result.body[i] != 0
    ensures var r2 := Shift(SetLow(result, d), 1);
      && |r2.body| == i + 2 && r2.body[i + 1] != 0
      && Value(r2.body[1..]) == d + BASE * Value(result.body[1..])
  {
    var r2 := Shift(SetLow(result, d), 1);
    assert r2.body[1..] == SetLow(result, d).body;
  }

  /** A window at least r gives a nonzero digit. */
  lemma DigitPositive(W: nat, R: nat, d: nat)
    requires QuotientDigit(W, R, d)
    ensures W >= R ==> d >= 1
  {
  }

  /** Digits whose top one is nonzero form a trimmed, positive magnitude. */
  lemma DigitsTrimmed(q: BigInt, i: nat)
    requires |q.body| == i + 1 && q.body[i] != 0
    ensures Trimmed(q.body) && Value(q.body) > 0
  {
    TrimmedZero(q.body);
  }

  /** The subtrahend and the rest of the window after one digit. */
  lemma RestOfWindow(window: BigInt, ra: BigInt, d: Limb, sub: BigInt, rest: BigInt)
    requires Canonical(ra) && ra.sign == Plus
    requires Canonical(window) && window.sign >= 0
    requires QuotientDigit(Value(window.body), Value(ra.body), d)
    requires sub == Normalize(ShortMul(ra, d)) && rest == Sub(window, sub)
    ensures Canonical(rest) && rest.sign >= 0
    ensures Value(rest.body) == Value(window.body) - Value(ra.body) * d
    ensures Value(rest.body) < Value(ra.body)
  {
    ToIntBySign(window);
    ToIntBySign(sub);
    ToIntBySign(rest);
  }

  /** The last digit closes the division: the dividend is r times the digits
      plus a remainder below r. */
  lemma FinalDigit(L: nat, W: nat, R: nat, Q: nat, d: nat)
    requires W + R * BASE * Q == L
    requires QuotientDigit(W, R, d)
    ensures R > 0 && L / R == d + BASE * Q
  {
    assert L == R * (d + BASE * Q) + (W - R * d);
    DivModUnique(L, R, d + BASE * Q, W - R * d);
  }

  /** One step of the invariant: W' = BASE (W - R d) + x and Q' = d + BASE Q. */
  lemma StepArith(W: nat, R: nat, Q: nat, d: nat, x: nat, P: nat, W2: int, Q2: int)
    requires W + R * BASE * Q == P
    requires R * d <= W
    requires W2 == BASE * (W - R * d) + x && Q2 == d + BASE * Q
    ensures W2 + R * BASE * Q2 == x + BASE * P
  {
    assert R * BASE * (d + BASE * Q) == BASE * (R * d) + BASE * (R * BASE * Q);
  }

  /** Division with the correction: the first window, the digit loop, and
      the sign of the quotient as the product of the signs. */
  function Division(left: BigInt, right: BigInt): (q: BigInt)
    requires Canonical(left) && Canonical(right) && Value(left.body) > Value(right.body) > 0
    ensures Canonical(q) && q.sign == left.sign * right.sign
    ensures Value(q.body) == Value(left.body) / Value(right.body)
  {
    var w := FirstWindow(left, right);
    var q := Loop(left, GetAbsolute(right), w.0, BigInt(Plus, [1]), 0, w.1);
    DivisionQuotient(left, right);
    SignAlgebra(left.sign, right.sign);
    BigInt(left.sign * right.sign, q.body)
  }

  /** The digits Division computes are the quotient of the magnitudes,
      trimmed and nonzero. */
  lemma DivisionQuotient(left: BigInt, right: BigInt)
    requires Canonical(left) && Canonical(right) && Value(left.body) > Value(right.body) > 0
    ensures var w := FirstWindow(left, right);
      var q := Loop(left, GetAbsolute(right), w.0, BigInt(Plus, [1]), 0, w.1);
      Value(q.body) == Value(left.body) / Value(right.body) && Trimmed(q.body) && Value(q.body) > 0
  {
    var w := FirstWindow(left, right);
    LoopStart(left, right, w.0, w.1);
  }

  /** The state before the first digit satisfies the loop invariant. */
  lemma LoopStart(left: BigInt, right: BigInt, window: BigInt, k: nat)
    requires Canonical(right) && Value(right.body) > 0
    requires IsWindow(left, right, window, k)
    ensures LoopInvariant(left, GetAbsolute(right), window, BigInt(Plus, [1]), 0, k)
  {
    assert [1][1..] == [];
    assert k - 0 == k;
  }

  /** Division as written: the same opening, with the digit loop as written. */
  function DivisionAsWritten(left: BigInt, right: BigInt): (q: BigInt)
    requires Canonical(left) && Canonical(right) && Value(left.body) > Value(right.body) > 0
    ensures q.sign == left.sign * right.sign
    ensures |q.body| == FirstWindow(left, right).1 + 1
  {
    var w := FirstWindow(left, right);
    var ra := GetAbsolute(right);
    var q := LoopAsWritten(left, ra, w.0, BigInt(Plus, [1]), 0, w.1);
    SignAlgebra(left.sign, right.sign);
    BigInt(left.sign * right.sign, q.body)
  }

  /** The quotient of C++ integer division, truncated toward zero. */
  function TruncDiv(a: int, b: int): (q: int)
    requires b != 0
  {
    var n := (if a < 0 then -a else a) / (if b < 0 then -b else b);
    if (a < 0) == (b < 0) then n else -n
  }

  /** The remainder that goes with TruncDiv. */
  function TruncMod(a: int, b: int): (m: int)
    requires b != 0
  {
    a - b * TruncDiv(a, b)
  }

  /** Truncated division as Euclid's: a = b q + m with |m| < |b|, the
      remainder zero or of the dividend's sign, and the quotient never of
      larger magnitude than the exact ratio. */
  lemma TruncDivMod(a: int, b: int)
    requires b != 0
    ensures a == b * TruncDiv(a, b) + TruncMod(a, b)
    ensures -(Abs(b) as int) < TruncMod(a, b) < Abs(b)
    ensures TruncMod(a, b) == 0 || (TruncMod(a, b) < 0 <==> a < 0)
    ensures Abs(b) * Abs(TruncDiv(a, b)) <= Abs(a)
  {
    var n := Abs(a) / Abs(b);
    var m := Abs(a) % Abs(b);
    assert && TruncMod(a, b) == (if a < 0 then -m else m)
           && Abs(TruncDiv(a, b)) == n && Abs(a) == Abs(b) * n + m && m < Abs(b) by {
      assert Abs(a) == Abs(b) * n + m;
      SignedQuotient(a, b, n, m);
    }
  }

  function Abs(a: int): (m: nat)
    ensures m == a || m == -a
  {
    if a < 0 then -a else a
  }

  /** The four sign cases of TruncDiv, with the quotient and remainder of
      the magnitudes given. */
  lemma SignedQuotient(a: int, b: int, n: nat, m: nat)
    requires b != 0 && Abs(a) == Abs(b) * n + m && m < Abs(b)
    requires n == Abs(a) / Abs(b)
    ensures b * TruncDiv(a, b) == if a < 0 then -(Abs(b) * n) else Abs(b) * n
    ensures Abs(TruncDiv(a, b)) == n
  {
    if b < 0 {
      NegatedProductsInt(Abs(b), n);
    }
  }

  lemma NegatedProductsInt(a: int, c: int)
    ensures (0 - a) * (0 - c) == a * c
    ensures (0 - a) * c == 0 - a * c && a * (0 - c) == 0 - a * c
  {
  }

  /** On magnitudes and nonzero signs, the truncated quotient is the
      quotient of the magnitudes with the product of the signs. */
  lemma TruncDivBySigns(ls: Sign, rs: Sign, L: nat, R: nat)
    requires ls != Zero && rs != Zero && R > 0
    ensures TruncDiv(ls * L, rs * R) == ls * rs * (L / R)
  {
  }

  /** The truncated quotient of canonical operands is zero when the
      dividend is smaller in magnitude, and the product of the signs when
      the magnitudes agree. */
  lemma SmallDividend(l: BigInt, r: BigInt)
    requires Canonical(l) && Canonical(r) && ToInt(r) != 0
    ensures Magnitude(l) < Magnitude(r) ==> TruncDiv(ToInt(l), ToInt(r)) == 0
    ensures Magnitude(l) == Magnitude(r) ==> TruncDiv(ToInt(l), ToInt(r)) == l.sign * r.sign
    ensures Magnitude(l) > Magnitude(r) ==> TruncDiv(ToInt(l), ToInt(r)) == l.sign * r.sign * (Magnitude(l) / Magnitude(r))
  {
    var L, R := Magnitude(l), Magnitude(r);
    ToIntBySign(r);
    if l.sign == Zero {
      assert ToInt(l) == 0 && L == 0;
    } else {
      assert ToInt(l) == l.sign * L;
      TruncDivBySigns(l.sign, r.sign, L, R);
      if L < R {
        DivModUnique(L, R, 0, L);
      } else if L == R {
        DivModUnique(L, R, 1, 0);
      }
    }
  }

  /** operator/: zero for a zero operand or a smaller magnitude, the product
      of the signs for equal magnitudes, and Division otherwise. */
  function Div(l: BigInt, r: BigInt): (q: BigInt)
    requires PublicValue(l) && PublicValue(r)
    ensures Canonical(q)
    ensures ToInt(r) == 0 ==> q == ZERO
    ensures ToInt(r) != 0 ==> ToInt(q) == TruncDiv(ToInt(l), ToInt(r))
  {
    ZeroValue();
    PublicValueZero(l);
    PublicValueZero(r);
    if IsZero(l) || IsZero(r) then
      ZERO
    else
      var la, rb := GetAbsolute(l), GetAbsolute(r);
      DivCases(l, r);
      if Less(la, rb) then
        ZERO
      else if Equal(la, rb) then
        FromInt64(l.sign * r.sign)
      else
        var q := Division(l, r);
        ToIntBySign(q);
        q
  }

  /** The cases of operator/ on nonzero canonical operands, by the
      comparison of the magnitudes. */
  lemma DivCases(l: BigInt, r: BigInt)
    requires Canonical(l) && Canonical(r) && !IsZero(l) && !IsZero(r)
    ensures ToInt(r) != 0 && ToInt(l) != 0
    ensures Less(GetAbsolute(l), GetAbsolute(r)) <==> Magnitude(l) < Magnitude(r)
    ensures Equal(GetAbsolute(l), GetAbsolute(r)) <==> Magnitude(l) == Magnitude(r)
    ensures Less(GetAbsolute(l), GetAbsolute(r)) ==> TruncDiv(ToInt(l), ToInt(r)) == 0
    ensures Equal(GetAbsolute(l), GetAbsolute(r)) ==> TruncDiv(ToInt(l), ToInt(r)) == l.sign * r.sign
    ensures Magnitude(l) > Magnitude(r) ==> TruncDiv(ToInt(l), ToInt(r)) == l.sign * r.sign * (Magnitude(l) / Magnitude(r))
  {
    ToIntBySign(l);
    ToIntBySign(r);
    var la, rb := GetAbsolute(l), GetAbsolute(r);
    CanonicalEqualIf(la, rb);
    SmallDividend(l, r);
  }

  /** operator/ over Division as written. */
  function DivAsWritten(l: BigInt, r: BigInt): (q: BigInt)
    requires PublicValue(l) && PublicValue(r)
    ensures ToInt(r) == 0 || ToInt(l) == 0 ==> q == ZERO
    ensures Magnitude(l) < Magnitude(r) ==> q == ZERO
    ensures 0 < Magnitude(l) == Magnitude(r) ==> Canonical(q) && ToInt(q) == l.sign * r.sign
    ensures 0 < Magnitude(r) < Magnitude(l) ==> q.sign == l.sign * r.sign
  {
    PublicValueZero(l);
    PublicValueZero(r);
    ToIntBySign(l);
    ToIntBySign(r);
    if IsZero(l) || IsZero(r) then
      ZERO
    else
      var la, rb := GetAbsolute(l), GetAbsolute(r);
      DivCases(l, r);
      if Less(la, rb) then
        ZERO
      else if Equal(la, rb) then
        FromInt64(l.sign * r.sign)
      else
        DivisionAsWritten(l, r)
  }

  /** operator% with the correction: a dividend of smaller magnitude is its
      own remainder; otherwise the remainder is l - (l / r) * r. */
  function Mod(l: BigInt, r: BigInt): (m: BigInt)
    requires PublicValue(l) && PublicValue(r)
    ensures Canonical(m)
    ensures ToInt(r) == 0 ==> m == ZERO
    ensures ToInt(r) != 0 ==> ToInt(m) == TruncMod(ToInt(l), ToInt(r))
  {
    ZeroValue();
    PublicValueZero(l);
    PublicValueZero(r);
    ModCases(l, r);
    if IsZero(r) || IsZero(l) || Equal(l, r) then
      ZERO
    else if Less(GetAbsolute(l), GetAbsolute(r)) then
      l
    else
      var p := Mul(Div(l, r), r);
      var m := TrimZeroes(Negate(Sub(p, l)));
      ModRemainder(l, r, p, m);
      m
  }

  /** The short cuts of operator%: a zero divisor, a zero dividend or equal
      operands leave no remainder, and a dividend of smaller magnitude is
      the whole remainder. */
  lemma ModCases(l: BigInt, r: BigInt)
    requires PublicValue(l) && PublicValue(r)
    ensures IsZero(r) <==> ToInt(r) == 0
    ensures ToInt(r) != 0 && (IsZero(l) || Equal(l, r)) ==> TruncMod(ToInt(l), ToInt(r)) == 0
    ensures ToInt(r) != 0 && Less(GetAbsolute(l), GetAbsolute(r)) ==> TruncMod(ToInt(l), ToInt(r)) == ToInt(l)
  {
    PublicValueZero(l);
    PublicValueZero(r);
    if ToInt(r) != 0 {
      if IsZero(l) {
        ZeroDividend(ToInt(r));
      } else {
        NonzeroModCases(l, r);
      }
    }
  }

  /** Zero divided by anything nonzero leaves quotient and remainder 0. */
  lemma ZeroDividend(b: int)
    requires b != 0
    ensures TruncDiv(0, b) == 0 && TruncMod(0, b) == 0
  {
  }

  /** The short cuts of operator% on nonzero canonical operands. */
  lemma NonzeroModCases(l: BigInt, r: BigInt)
    requires Canonical(l) && Canonical(r) && ToInt(r) != 0 && !IsZero(l)
    ensures Equal(l, r) ==> TruncMod(ToInt(l), ToInt(r)) == 0
    ensures Less(GetAbsolute(l), GetAbsolute(r)) ==> TruncMod(ToInt(l), ToInt(r)) == ToInt(l)
  {
    ToIntBySign(l);
    ToIntBySign(r);
    SmallDividend(l, r);
    var la, rb := GetAbsolute(l), GetAbsolute(r);
    assert Less(la, rb) <==> Magnitude(l) < Magnitude(r);
    if Equal(l, r) {
      assert TruncDiv(ToInt(l), ToInt(r)) == 1;
    }
  }

  /** The general case of operator%: -((l / r) * r - l) is the truncated
      remainder. */
  lemma ModRemainder(l: BigInt, r: BigInt, p: BigInt, m: BigInt)
    requires Canonical(l) && Canonical(r) && ToInt(r) != 0
    requires p == Mul(Div(l, r), r) && m == TrimZeroes(Negate(Sub(p, l)))
    ensures Canonical(m) && ToInt(m) == TruncMod(ToInt(l), ToInt(r))
  {
    var q := Div(l, r);
    assert ToInt(p) == ToInt(q) * ToInt(r);
    var n := Negate(Sub(p, l));
    assert Canonical(n) && ToInt(n) == ToInt(l) - ToInt(p);
  }

  /** operator% as written: a dividend of smaller magnitude gives its
      absolute value, and the product uses RecursiveMultiplication as
      written. */
  function ModAsWritten(l: BigInt, r: BigInt): (m: BigInt)
    requires PublicValue(l) && PublicValue(r)
    ensures ToInt(r) == 0 || ToInt(l) == 0 ==> m == ZERO
    ensures ToInt(l) == ToInt(r) ==> m == ZERO
    ensures 0 < Magnitude(l) < Magnitude(r) ==> ToInt(m) == Magnitude(l)
  {
    PublicValueZero(l);
    PublicValueZero(r);
    CanonicalEqualIf(l, r);
    ToIntBySign(l);
    ToIntBySign(r);
    if IsZero(r) || IsZero(l) || Equal(l, r) then
      ZERO
    else if Less(GetAbsolute(l), GetAbsolute(r)) then
      GetAbsolute(l)
    else
      var p := RecMulAsWritten(DivAsWritten(l, r), r);
      TrimZeroes(Negate(Sub(p, l)))
  }

  /** The quotient and remainder of the operators fit together as C++
      integer division does: l = (l / r) r + l % r, with the remainder
      smaller than r in magnitude and of the dividend's sign. */
  lemma DivModIdentity(l: BigInt, r: BigInt)
    requires PublicValue(l) && PublicValue(r) && ToInt(r) != 0
    ensures ToInt(l) == ToInt(Div(l, r)) * ToInt(r) + ToInt(Mod(l, r))
    ensures Magnitude(Mod(l, r)) < Magnitude(r)
    ensures ToInt(Mod(l, r)) == 0 || (ToInt(Mod(l, r)) < 0 <==> ToInt(l) < 0)
  {
    var a, b := ToInt(l), ToInt(r);
    TruncDivMod(a, b);
    var m := Mod(l, r);
    PublicValueZero(r);
    ToIntBySign(m);
    ToIntBySign(r);
  }
}
