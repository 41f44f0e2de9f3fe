/** Addition and subtraction: the limb loops SignedAdd and SignedSub and
    the sign dispatch of operator+ and operator- (big_integer.cpp). */
module AddSub {
  import opened Limbs
  import opened BigInts
  import opened Compare

  function Max(a: nat, b: nat): nat
  {
    if a >= b then a else b
  }

  /** SignedAdd's `if (i < body_size_)` guards read a missing limb as 0:
      the operand padded with zero limbs up to n positions. */
  function Pad(s: seq<Limb>, n: nat): (p: seq<Limb>)
    requires |s| <= n
    ensures |p| == n && Value(p) == Value(s)
    ensures p[..|s|] == s && forall i :: |s| <= i < n ==> p[i] == 0
  {
    ValueAlign(s, n - |s|);
    s + Zeros(n - |s|)
  }

  /** The SignedAdd loop over the padded operands, with the final carry
      pushed as a new top limb when it is nonzero. */
  function AddLimbs(a: seq<Limb>, b: seq<Limb>, carry: nat): (r: seq<Limb>)
    requires |a| == |b| && carry <= 1
    ensures Value(r) == Value(a) + Value(b) + carry
    ensures |r| == |a| || (|r| == |a| + 1 && r[|a|] != 0)
    decreases |a|
  {
    if |a| == 0 then
      if carry > 0 then [carry] else []
    else
      var current := a[0] + b[0] + carry;
      CarrySplit(current);
      var rest := AddLimbs(a[1..], b[1..], current / BASE);
      var r := [current % BASE] + rest;
      assert r[1..] == rest;
      AddStep(current, Value(a[1..]), Value(b[1..]), Value(rest));
      r
  }

  /** The column sum of SignedAdd is below 2 * BASE, so the carry is 0 or 1. */
  lemma CarrySplit(current: nat)
    requires current < 2 * BASE
    ensures current / BASE == (if current >= BASE then 1 else 0)
    ensures current % BASE == (if current >= BASE then current - BASE else current)
  {
    if current >= BASE {
      DivModUnique(current, BASE, 1, current - BASE);
    } else {
      DivModUnique(current, BASE, 0, current);
    }
  }

  /** One SignedAdd step: the limb kept and the carry passed up account for
      the column sum. */
  lemma AddStep(current: nat, ta: nat, tb: nat, rest: nat)
    requires rest == ta + tb + current / BASE
    ensures current % BASE + BASE * rest == current + BASE * ta + BASE * tb
  {
    assert current == BASE * (current / BASE) + current % BASE;
  }

  /** A sum whose length stays at the longer operand's is trimmed when
      that operand is. */
  lemma AddLimbsTrimmed(a: seq<Limb>, b: seq<Limb>, r: seq<Limb>)
    requires Value(r) >= Value(a) && Value(r) >= Value(b)
    requires |r| == Max(|a|, |b|) || (|r| == Max(|a|, |b|) + 1 && r[|r| - 1] != 0)
    requires |r| >= 1 && Trimmed(a) && Trimmed(b)
    ensures Trimmed(r)
  {
    if |r| >= 2 && r[|r| - 1] == 0 {
      TopZeroBound(r);
      if |a| >= |b| {
        TrimmedLowerBound(a);
      } else {
        TrimmedLowerBound(b);
      }
    }
  }

  /** The SignedSub loop over equal-length operands: the difference limbs
      and the borrow left over at the top. */
  function SubLimbs(a: seq<Limb>, b: seq<Limb>, borrow: nat): (res: (seq<Limb>, nat))
    requires |a| == |b| && borrow <= 1
    ensures |res.0| == |a| && res.1 <= 1
    ensures Value(res.0) + Value(b) + borrow == Value(a) + res.1 * Pow(|a|)
    decreases |a|
  {
    if |a| == 0 then
      ([], borrow)
    else
      var next := if a[0] < b[0] + borrow then 1 else 0;
      var d: Limb := a[0] + next * BASE - borrow - b[0];
      var rest := SubLimbs(a[1..], b[1..], next);
      var r := [d] + rest.0;
      assert r[1..] == rest.0;
      SubStep(a[0], b[0], borrow, next, d, Value(a[1..]), Value(b[1..]), Value(rest.0), rest.1, Pow(|a| - 1));
      (r, rest.1)
  }

  lemma SubStep(a0: nat, b0: nat, borrow: nat, next: nat, d: nat,
                ta: nat, tb: nat, tr: nat, out: nat, p: nat)
    requires d + b0 + borrow == a0 + next * BASE
    requires tr + tb + next == ta + out * p
    ensures (d + BASE * tr) + (b0 + BASE * tb) + borrow == (a0 + BASE * ta) + out * (BASE * p)
  {
    assert BASE * (tr + tb + next) == BASE * (ta + out * p);
    assert BASE * (out * p) == out * (BASE * p);
  }

  /** The borrow out of the top is set exactly when a < b + borrow. */
  lemma SubBorrowExact(a: seq<Limb>, b: seq<Limb>, borrow: nat)
    requires |a| == |b| && borrow <= 1
    ensures SubLimbs(a, b, borrow).1 == if Value(a) < Value(b) + borrow then 1 else 0
  {
    var res := SubLimbs(a, b, borrow);
    ValueBound(res.0);
    if res.1 == 1 {
      assert Value(res.0) + Value(b) + borrow == Value(a) + Pow(|a|);
    }
  }

  /** SignedSub: left minus aligned right over |left| limbs, trimmed; the
      final borrow is dropped, so a smaller left wraps around modulo
      BASE^|left|. The sign is the given one unless the result is zero. */
  function SignedSub(l: BigInt, r: BigInt, sign: Sign): (res: BigInt)
    requires |l.body| >= |r.body|
    ensures Value(res.body) == if Value(l.body) >= Value(r.body) then Value(l.body) - Value(r.body)
                               else Value(l.body) + Pow(|l.body|) - Value(r.body)
    ensures Trimmed(res.body)
    ensures res.sign == if Value(res.body) == 0 then Zero else sign
  {
    var aligned := Align(r, |l.body| - |r.body|);
    var d := SubLimbs(l.body, aligned.body, 0);
    SubBorrowExact(l.body, aligned.body, 0);
    var t := TrimZeroes(BigInt(sign, d.0));
    BigInt(if IsZero(t) then Zero else sign, t.body)
  }

  /** SignedAdd: the limb sum with the given sign, or Zero when the sum is
      the single zero limb. */
  function SignedAdd(l: BigInt, r: BigInt, sign: Sign): (res: BigInt)
    ensures Value(res.body) == Value(l.body) + Value(r.body)
    ensures res.sign == Zero || res.sign == sign
    ensures Value(res.body) != 0 ==> res.sign == sign
    ensures Trimmed(l.body) && Trimmed(r.body) ==>
              Trimmed(res.body) && res.sign == (if Value(res.body) == 0 then Zero else sign)
  {
    var n := Max(|l.body|, |r.body|);
    var b := AddLimbs(Pad(l.body, n), Pad(r.body, n), 0);
    if Trimmed(l.body) && Trimmed(r.body) then
      AddLimbsTrimmed(l.body, r.body, b);
      var x := BigInt(sign, b);
      BigInt(if IsZero(x) then Zero else sign, b)
    else
      var x := BigInt(sign, b);
      BigInt(if IsZero(x) then Zero else sign, b)
  }

  /** operator+: opposite signs go to SignedSub, ordered by magnitude;
      otherwise SignedAdd with the sign of the nonzero operand. */
  function Add(l: BigInt, r: BigInt): (res: BigInt)
    ensures Canonical(l) && Canonical(r) ==> Canonical(res) && ToInt(res) == ToInt(l) + ToInt(r)
    ensures l.sign >= 0 && r.sign >= 0 ==>
              Value(res.body) == Value(l.body) + Value(r.body) && res.sign >= 0 &&
              (Trimmed(l.body) && Trimmed(r.body) ==> Trimmed(res.body))
  {
    SignProduct(l.sign, r.sign);
    if l.sign * r.sign == -1 then
      AddOpposite(l, r)
    else
      AddAgreeing(l, r)
  }

  /** The part of operator+ for signs that agree or include Zero: SignedAdd
      with the sign of the nonzero operand. */
  function AddAgreeing(l: BigInt, r: BigInt): (res: BigInt)
    requires l.sign * r.sign != -1
    ensures Canonical(l) && Canonical(r) ==> Canonical(res) && ToInt(res) == ToInt(l) + ToInt(r)
    ensures l.sign >= 0 && r.sign >= 0 ==>
              Value(res.body) == Value(l.body) + Value(r.body) && res.sign >= 0 &&
              (Trimmed(l.body) && Trimmed(r.body) ==> Trimmed(res.body))
  {
    var sign: Sign := if l.sign == Zero || r.sign == Zero then l.sign + r.sign else l.sign;
    AddSameSign(l, r, sign);
    SignedAdd(l, r, sign)
  }

  /** The opposite-sign part of operator+; when none of its four order
      tests holds it falls through to SignedAdd with the left sign. */
  function AddOpposite(l: BigInt, r: BigInt): (res: BigInt)
    requires l.sign * r.sign == -1
    ensures Canonical(l) && Canonical(r) ==> Canonical(res) && ToInt(res) == ToInt(l) + ToInt(r)
  {
    var la := GetAbsolute(l);
    var ra := GetAbsolute(r);
    OppositeOrder(l, r);
    if Equal(la, ra) then
      ZeroValue();
      ZERO
    else if Less(l, r) && Less(la, ra) then
      SubCanonical(r, l, Plus);
      SignedSub(r, l, Plus)
    else if Greater(l, r) && Greater(la, ra) then
      SubCanonical(l, r, Plus);
      SignedSub(l, r, Plus)
    else if Less(l, r) && Greater(la, ra) then
      SubCanonical(l, r, Minus);
      SignedSub(l, r, Minus)
    else if Greater(l, r) && Less(la, ra) then
      SubCanonical(r, l, Minus);
      SignedSub(r, l, Minus)
    else
      SignedAdd(l, r, l.sign)
  }

  /** What the order tests of operator+ mean on opposite-signed operands. */
  lemma OppositeOrder(l: BigInt, r: BigInt)
    requires l.sign * r.sign == -1
    ensures Less(GetAbsolute(l), GetAbsolute(r)) ==> |l.body| <= |r.body|
    ensures Greater(GetAbsolute(l), GetAbsolute(r)) ==> |l.body| >= |r.body|
    ensures Canonical(l) && Canonical(r) ==>
      && (Equal(GetAbsolute(l), GetAbsolute(r)) <==> Value(l.body) == Value(r.body))
      && (Less(GetAbsolute(l), GetAbsolute(r)) <==> Value(l.body) < Value(r.body))
      && (Greater(GetAbsolute(l), GetAbsolute(r)) <==> Value(l.body) > Value(r.body))
      && (Less(l, r) <==> l.sign == Minus)
      && (Greater(l, r) <==> l.sign == Plus)
  {
    var la, ra := GetAbsolute(l), GetAbsolute(r);
    if Canonical(l) && Canonical(r) {
      CanonicalEqualIf(la, ra);
      if la == ra {
        assert Value(l.body) == Value(r.body);
      }
      if Value(l.body) == Value(r.body) {
        CanonicalUnique(la, ra);
      }
    }
  }

  /** SignedSub of canonical operands, larger magnitude first, is canonical
      and is the signed difference of the magnitudes. */
  lemma SubCanonical(x: BigInt, y: BigInt, sign: Sign)
    requires |x.body| >= |y.body|
    ensures Canonical(x) && Canonical(y) && sign != Zero && Value(x.body) >= Value(y.body) ==>
      Canonical(SignedSub(x, y, sign)) &&
      ToInt(SignedSub(x, y, sign)) == (if sign == Plus then 1 else -1) * (Value(x.body) - Value(y.body))
  {
  }

  /** SignedAdd in operator+ when the signs agree or one is Zero. */
  lemma AddSameSign(l: BigInt, r: BigInt, sign: Sign)
    requires l.sign * r.sign != -1
    requires sign == if l.sign == Zero || r.sign == Zero then l.sign + r.sign else l.sign
    ensures Canonical(l) && Canonical(r) ==>
      Canonical(SignedAdd(l, r, sign)) && ToInt(SignedAdd(l, r, sign)) == ToInt(l) + ToInt(r)
  {
    if Canonical(l) && Canonical(r) {
      var res := SignedAdd(l, r, sign);
      SignedSum(l.sign, r.sign, sign, res.sign, Value(l.body), Value(r.body));
    }
  }

  /** The sign arithmetic behind AddSameSign: with agreeing signs, or one
      of them Zero on a zero magnitude, the sum takes the common sign. */
  lemma SignedSum(ls: Sign, rs: Sign, sign: Sign, s: Sign, vl: nat, vr: nat)
    requires ls * rs != -1
    requires sign == if ls == Zero || rs == Zero then ls + rs else ls
    requires (ls == Zero <==> vl == 0) && (rs == Zero <==> vr == 0)
    requires s == if vl + vr == 0 then Zero else sign
    ensures s * (vl + vr) == ls * vl + rs * vr
  {
    SignProduct(ls, rs);
  }

  /** operator-: opposite signs go to SignedAdd with the left sign; a zero
      operand short-circuits; otherwise SignedSub, larger magnitude first. */
  function Sub(l: BigInt, r: BigInt): (res: BigInt)
    ensures Canonical(l) && Canonical(r) ==> Canonical(res) && ToInt(res) == ToInt(l) - ToInt(r)
  {
    if l.sign * r.sign == -1 then
      var sign := if r.sign == Plus then Minus else Plus;
      SubOpposite(l, r, sign);
      SignedAdd(l, r, sign)
    else if r.sign == Zero then
      l
    else if l.sign == Zero then
      Negate(r)
    else
      SubSameSign(l, r)
  }

  /** The same-sign part of operator-: SignedSub with the larger magnitude
      first, the sign flipped when the right one is larger. */
  function SubSameSign(l: BigInt, r: BigInt): (res: BigInt)
    requires l.sign == r.sign != Zero
    ensures Canonical(l) && Canonical(r) ==> Canonical(res) && ToInt(res) == ToInt(l) - ToInt(r)
  {
    var la := GetAbsolute(l);
    var ra := GetAbsolute(r);
    SameSignOrder(l, r);
    SubSameSignCases(l, r);
    if GreaterEq(la, ra) then
      SignedSub(l, r, l.sign)
    else
      SignedSub(r, l, Minus * l.sign)
  }

  lemma SubSameSignCases(l: BigInt, r: BigInt)
    requires l.sign == r.sign != Zero
    ensures Canonical(l) && Canonical(r) && Value(l.body) >= Value(r.body) && |l.body| >= |r.body| ==>
      Canonical(SignedSub(l, r, l.sign)) && ToInt(SignedSub(l, r, l.sign)) == ToInt(l) - ToInt(r)
    ensures Canonical(l) && Canonical(r) && Value(l.body) < Value(r.body) && |r.body| >= |l.body| ==>
      Canonical(SignedSub(r, l, Minus * l.sign)) &&
      ToInt(SignedSub(r, l, Minus * l.sign)) == ToInt(l) - ToInt(r)
  {
    ToIntBySign(l);
    ToIntBySign(r);
    if Canonical(l) && Canonical(r) {
      if Value(l.body) >= Value(r.body) && |l.body| >= |r.body| {
        SubCanonical(l, r, l.sign);
      }
      if Value(l.body) < Value(r.body) && |r.body| >= |l.body| {
        SubCanonical(r, l, Minus * l.sign);
      }
    }
  }

  /** SignedAdd in operator- for opposite signs: the magnitudes add and the
      sign is the left one. */
  lemma SubOpposite(l: BigInt, r: BigInt, sign: Sign)
    requires l.sign * r.sign == -1
    requires sign == if r.sign == Plus then Minus else Plus
    ensures Canonical(l) && Canonical(r) ==>
      Canonical(SignedAdd(l, r, sign)) && ToInt(SignedAdd(l, r, sign)) == ToInt(l) - ToInt(r)
  {
    if Canonical(l) && Canonical(r) {
      assert sign == l.sign;
      assert ToInt(l) - ToInt(r) == l.sign * (Value(l.body) + Value(r.body));
    }
  }

  /** What the magnitude test of operator- means on same-signed operands. */
  lemma SameSignOrder(l: BigInt, r: BigInt)
    requires l.sign == r.sign != Zero
    ensures GreaterEq(GetAbsolute(l), GetAbsolute(r)) ==> |l.body| >= |r.body|
    ensures !GreaterEq(GetAbsolute(l), GetAbsolute(r)) ==> |l.body| <= |r.body|
    ensures Canonical(l) && Canonical(r) ==>
      (GreaterEq(GetAbsolute(l), GetAbsolute(r)) <==> Value(l.body) >= Value(r.body))
  {
  }

  /** The literal 1 that operator++ and operator-- add and subtract. */
  const ONE: BigInt := BigInt(Plus, [1])

  /** Prefix and postfix operator++: the stored value becomes x + 1. */
  function Inc(x: BigInt): (r: BigInt)
    ensures Canonical(x) ==> Canonical(r) && ToInt(r) == ToInt(x) + 1
  {
    OneValue();
    Add(x, ONE)
  }

  /** Prefix and postfix operator--: the stored value becomes x - 1. */
  function Dec(x: BigInt): (r: BigInt)
    ensures Canonical(x) ==> Canonical(r) && ToInt(r) == ToInt(x) - 1
  {
    OneValue();
    Sub(x, ONE)
  }

  lemma OneValue()
    ensures Canonical(ONE) && ToInt(ONE) == 1
  {
    assert ONE.body[1..] == [];
  }

  /** Adding then subtracting the same canonical value is the identity. */
  lemma AddSubInverse(x: BigInt, y: BigInt)
    requires Canonical(x) && Canonical(y)
    ensures Sub(Add(x, y), y) == x
  {
    CanonicalUnique(Sub(Add(x, y), y), x);
  }

  /** Addition of canonical values commutes. */
  lemma AddCommutes(x: BigInt, y: BigInt)
    requires Canonical(x) && Canonical(y)
    ensures Add(x, y) == Add(y, x)
  {
    CanonicalUnique(Add(x, y), Add(y, x));
  }

  /** Subtraction is addition of the negation, on canonical values. */
  lemma SubIsAddNegate(x: BigInt, y: BigInt)
    requires Canonical(x) && Canonical(y)
    ensures Sub(x, y) == Add(x, Negate(y))
  {
    CanonicalUnique(Sub(x, y), Add(x, Negate(y)));
  }

  /** Equal magnitudes with opposite signs add to the exact zero. */
  lemma OppositeAddsToZero(x: BigInt)
    requires Canonical(x)
    ensures Add(x, Negate(x)) == ZERO
  {
    ZeroValue();
    CanonicalUnique(Add(x, Negate(x)), ZERO);
  }
}
