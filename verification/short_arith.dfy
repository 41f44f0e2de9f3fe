/** Arithmetic with a single-limb scalar: ShortAdd, ShortMul and
    ShortDivisionMod (big_integer.cpp). Each limb loop is written as a
    recursion over the limb sequence; the accumulator split
    `current & (kBase - 1)`, `current >> kBaseDegree` is `% BASE`, `/ BASE`. */
module ShortArith {
  import opened Limbs
  import opened BigInts

  /** The ShortAdd loop from limb 0 upward, with the final carry pushed as
      a new top limb when it is nonzero. */
  function AddCarry(s: seq<Limb>, carry: nat): (r: seq<Limb>)
    requires carry < BASE
    ensures Value(r) == Value(s) + carry
    ensures |s| <= |r| <= |s| + 1
    ensures |r| == |s| + 1 ==> r[|s|] != 0
    decreases |s|
  {
    if |s| == 0 then
      if carry > 0 then [carry] else []
    else
      var current := s[0] + carry;
      [current % BASE] + AddCarry(s[1..], current / BASE)
  }

  /** The ShortMul loop from limb 0 upward: each step multiplies one limb and
      adds the running carry, which stays below BASE. */
  function MulCarry(s: seq<Limb>, v: Limb, carry: nat): (r: seq<Limb>)
    requires carry < BASE
    ensures Value(r) == Value(s) * v + carry
    ensures |s| <= |r| <= |s| + 1
    ensures |r| == |s| + 1 ==> r[|s|] != 0
    decreases |s|
  {
    if |s| == 0 then
      if carry > 0 then [carry] else []
    else
      var current := s[0] * v + carry;
      MulStepBound(s[0], v, carry);
      var rest := MulCarry(s[1..], v, current / BASE);
      MulColumn(s, v, carry, rest);
      [current % BASE] + rest
  }

  /** One column of the ShortMul loop: the limb kept in front of the limbs
      for the carried remainder makes up the product, with the promised
      length. */
  lemma MulColumn(s: seq<Limb>, v: Limb, carry: nat, rest: seq<Limb>)
    requires |s| > 0 && carry < BASE
    requires Value(rest) == Value(s[1..]) * v + (s[0] * v + carry) / BASE
    requires |s| - 1 <= |rest| <= |s| && (|rest| == |s| ==> rest[|s| - 1] != 0)
    ensures var r := [(s[0] * v + carry) % BASE] + rest;
      && Value(r) == Value(s) * v + carry
      && |s| <= |r| <= |s| + 1 && (|r| == |s| + 1 ==> r[|s|] != 0)
  {
    var r := [(s[0] * v + carry) % BASE] + rest;
    assert r[1..] == rest;
    MulStepValue(s[0], v, carry, Value(s[1..]), Value(rest));
  }

  /** The ShortMul accumulator `limb * value + carry` leaves a carry below BASE. */
  lemma MulStepBound(a: Limb, v: Limb, carry: nat)
    requires carry < BASE
    ensures (a * v + carry) / BASE < BASE
  {
    MulMono(0, 0, a, v);
    MulMono(a, v, BASE - 1, BASE - 1);
    var current: nat := a * v + carry;
    assert current < BASE * BASE;
    DivBelow(current, BASE, BASE);
  }

  /** One ShortMul step: the limb kept and the carry passed up account for
      the accumulator. */
  lemma MulStepValue(a: nat, v: nat, carry: nat, tail: nat, rest: nat)
    requires rest == tail * v + (a * v + carry) / BASE
    ensures (a * v + carry) % BASE + BASE * rest == (a + BASE * tail) * v + carry
  {
    var current := a * v + carry;
    assert current == BASE * (current / BASE) + current % BASE;
    assert BASE * rest == BASE * (tail * v) + BASE * (current / BASE);
    assert BASE * (tail * v) == (BASE * tail) * v;
    assert (a + BASE * tail) * v == a * v + (BASE * tail) * v;
  }

  /** The ShortDivisionMod loop from the top limb downward: the quotient
      limbs and the final remainder. */
  function DivLimbs(s: seq<Limb>, v: nat): (res: (seq<Limb>, nat))
    requires 0 < v < BASE
    ensures |res.0| == |s|
    ensures res.1 < v
    ensures Value(s) == Value(res.0) * v + res.1
    decreases |s|
  {
    if |s| == 0 then
      ([], 0)
    else
      var upper := DivLimbs(s[1..], v);
      var step := DivStep(s[0], upper.1, v);
      var q := [step.0] + upper.0;
      assert q[1..] == upper.0;
      DivCombine(step.0, step.1, s[0], upper.1, v, Value(upper.0), Value(s[1..]));
      (q, step.1)
  }

  /** One ShortDivisionMod step: `current = limb + carry * kBase` divided by
      the scalar gives a quotient limb and the next carry. */
  function DivStep(a: Limb, c: nat, v: nat): (res: (Limb, nat))
    requires 0 < v < BASE && c < v
    ensures res.1 < v
    ensures res.0 * v + res.1 == a + c * BASE
  {
    var current := a + c * BASE;
    MulMono(c, BASE, v - 1, BASE);
    assert (v - 1) * BASE == v * BASE - BASE;
    DivBelow(current, v, BASE);
    assert current == v * (current / v) + current % v;
    (current / v, current % v)
  }

  /** The quotient limb and remainder of one step extend the identity of
      the limbs above it to the whole sequence. */
  lemma DivCombine(qd: nat, rem: nat, a: nat, c: nat, v: nat, tail: nat, upper: nat)
    requires qd * v + rem == a + c * BASE
    requires upper == tail * v + c
    ensures a + BASE * upper == (qd + BASE * tail) * v + rem
  {
    assert (qd + BASE * tail) * v == qd * v + (BASE * tail) * v;
    assert (BASE * tail) * v == BASE * (tail * v);
  }

  /** ShortAdd: adds a limb to the magnitude; the sign is left alone. */
  function ShortAdd(x: BigInt, v: Limb): (r: BigInt)
    ensures r.sign == x.sign
    ensures Value(r.body) == Value(x.body) + v
    ensures |x.body| <= |r.body| <= |x.body| + 1
    ensures Trimmed(x.body) ==> Trimmed(r.body)
  {
    var b := AddCarry(x.body, v);
    GrowKeepsTrimmed(x.body, b);
    BigInt(x.sign, b)
  }

  /** ShortMul: multiplies the magnitude by a limb; the sign is left alone,
      and multiplying by zero leaves a run of zero limbs. */
  function ShortMul(x: BigInt, v: Limb): (r: BigInt)
    ensures r.sign == x.sign
    ensures Value(r.body) == Value(x.body) * v
    ensures |x.body| <= |r.body| <= |x.body| + 1
    ensures v == 0 ==> r.body == Zeros(|x.body|)
    ensures v > 0 && Trimmed(x.body) ==> Trimmed(r.body)
  {
    var b := MulCarry(x.body, v, 0);
    if v == 0 then
      MulZeroLimbs(x.body, b);
      BigInt(x.sign, b)
    else
      MulMono(Value(x.body), 1, Value(x.body), v);
      GrowKeepsTrimmed(x.body, b);
      BigInt(x.sign, b)
  }

  /** A result at least as large as a trimmed input, one limb longer only
      with a nonzero new top limb, is trimmed too. */
  lemma GrowKeepsTrimmed(s: seq<Limb>, r: seq<Limb>)
    requires |s| <= |r| <= |s| + 1
    requires |r| == |s| + 1 ==> r[|s|] != 0
    requires Value(r) >= Value(s)
    ensures Trimmed(s) ==> Trimmed(r)
  {
    if Trimmed(s) && |r| == |s| && |r| >= 2 && r[|r| - 1] == 0 {
      TrimmedLowerBound(s);
      TopZeroBound(r);
    }
  }

  lemma MulZeroLimbs(s: seq<Limb>, r: seq<Limb>)
    requires |s| <= |r| <= |s| + 1
    requires |r| == |s| + 1 ==> r[|s|] != 0
    requires Value(r) == 0
    ensures r == Zeros(|s|)
  {
    if |r| == |s| + 1 {
      ValueTop(r);
      assert Pow(|r| - 1) * r[|s|] >= 1 by {
        MulAtLeast(Pow(|r| - 1), r[|s|]);
      }
    }
    ZeroValueLimbs(r);
  }

  /** Limbs denoting zero are all zero. */
  lemma {:induction false} ZeroValueLimbs(r: seq<Limb>)
    requires Value(r) == 0
    ensures r == Zeros(|r|)
    decreases |r|
  {
    if |r| > 0 {
      ZeroValueLimbs(r[1..]);
      assert r == [r[0]] + r[1..];
    }
  }

  /** ShortDivisionMod: the quotient, trimmed and Zero-signed when it is
      zero, and the remainder it returns. */
  function ShortDivisionMod(x: BigInt, v: Limb): (res: (BigInt, nat))
    requires v > 0
    ensures Value(res.0.body) == Value(x.body) / v
    ensures res.1 == Value(x.body) % v
    ensures Trimmed(res.0.body)
    ensures res.0.sign == (if Value(x.body) / v == 0 then Zero else x.sign)
  {
    var d := DivLimbs(x.body, v);
    DivModUnique(Value(x.body), v, Value(d.0), d.1);
    var q := Normalize(BigInt(x.sign, d.0));
    (q, d.1)
  }
}
