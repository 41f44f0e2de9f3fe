/** GetDifferenceSign, the three-way comparator, and the six relational
    operators that project from it (big_integer.cpp). */
module Compare {
  import opened Limbs
  import opened BigInts

  /** The scan of GetDifferenceSign: from index j down, skip equal limbs,
      stopping at index 0 at the latest. */
  function ScanFromTop(s: seq<Limb>, t: seq<Limb>, j: nat): (k: nat)
    requires |s| == |t| && j < |s|
    ensures k <= j
    ensures forall i :: k < i <= j ==> s[i] == t[i]
    ensures k > 0 ==> s[k] != t[k]
    decreases j
  {
    if j > 0 && s[j] == t[j] then ScanFromTop(s, t, j - 1) else j
  }

  /** The limb comparison at the index where the scan stops. */
  function LimbOrder(s: seq<Limb>, t: seq<Limb>): (c: int)
    requires |s| == |t| >= 1
    ensures -1 <= c <= 1
  {
    var k := ScanFromTop(s, t, |s| - 1);
    if s[k] > t[k] then 1 else if s[k] < t[k] then -1 else 0
  }

  /** GetDifferenceSign: signs first, then limb counts, then limbs from the
      top. Zero-signed records all compare equal to each other, whatever
      their limbs. */
  function GetDifferenceSign(l: BigInt, r: BigInt): (c: int)
    ensures -1 <= c <= 1
    ensures l.sign != r.sign ==> c == Cmp(l.sign, r.sign)
    ensures l.sign == r.sign && |l.body| > |r.body| ==> c == l.sign
    ensures l.sign == r.sign && |l.body| < |r.body| ==> c == -l.sign
    ensures l.sign == r.sign && (|l.body| == |r.body| || (Trimmed(l.body) && Trimmed(r.body))) ==>
              c == l.sign * Cmp(Value(l.body), Value(r.body))
  {
    if l.sign < r.sign then Minus
    else if l.sign > r.sign then Plus
    else if |l.body| > |r.body| then
      LengthDecides(l.body, r.body);
      l.sign
    else if |l.body| < |r.body| then
      LengthDecides(r.body, l.body);
      Minus * l.sign
    else
      LimbOrderIsValueOrder(l.body, r.body);
      var o := LimbOrder(l.body, r.body);
      if o > 0 then l.sign else if o < 0 then Minus * l.sign else Zero
  }

  /** Between trimmed sequences of different lengths the longer is larger. */
  lemma LengthDecides(s: seq<Limb>, t: seq<Limb>)
    requires |s| > |t|
    ensures Trimmed(s) && Trimmed(t) ==> Value(s) > Value(t)
  {
    if Trimmed(s) && Trimmed(t) {
      TrimmedLengthOrder(t, s);
    }
  }

  /** The scan from the top compares the values of equal-length prefixes. */
  lemma {:induction false} ScanCompare(s: seq<Limb>, t: seq<Limb>, j: nat)
    requires |s| == |t| && j < |s|
    ensures var k := ScanFromTop(s, t, j);
      Cmp(s[k], t[k]) == Cmp(Value(s[..j + 1]), Value(t[..j + 1]))
    decreases j
  {
    if j > 0 && s[j] == t[j] {
      ScanCompare(s, t, j - 1);
      PrefixSameTop(s, t, j);
    } else if s[j] != t[j] {
      PrefixCompare(s, t, j);
    } else {
      assert s[..1] == [s[0]] && t[..1] == [t[0]];
      assert s[..1][1..] == [] && t[..1][1..] == [];
    }
  }

  /** On equal lengths the limb order is the value order. */
  lemma LimbOrderIsValueOrder(s: seq<Limb>, t: seq<Limb>)
    requires |s| == |t| >= 1
    ensures LimbOrder(s, t) == Cmp(Value(s), Value(t))
  {
    ScanCompare(s, t, |s| - 1);
    assert s[..|s|] == s && t[..|t|] == t;
  }

  /** On canonical operands GetDifferenceSign is the sign of l - r. */
  lemma CompareCanonical(l: BigInt, r: BigInt)
    requires Canonical(l) && Canonical(r)
    ensures GetDifferenceSign(l, r) == Cmp(ToInt(l), ToInt(r))
  {
    CanonicalToInt(l);
    CanonicalToInt(r);
    if l.sign == r.sign {
      var vl: int, vr: int := Value(l.body), Value(r.body);
      if l.sign == Minus {
        assert ToInt(l) == -vl && ToInt(r) == -vr;
      }
    }
  }

  lemma {:induction false} ScanSymmetric(s: seq<Limb>, t: seq<Limb>, j: nat)
    requires |s| == |t| && j < |s|
    ensures ScanFromTop(s, t, j) == ScanFromTop(t, s, j)
    decreases j
  {
    if j > 0 && s[j] == t[j] {
      ScanSymmetric(s, t, j - 1);
    }
  }

  /** Swapping the operands negates the comparison, on any records. */
  lemma CompareAntisymmetric(l: BigInt, r: BigInt)
    ensures GetDifferenceSign(l, r) == -GetDifferenceSign(r, l)
  {
    if l.sign == r.sign && |l.body| == |r.body| {
      ScanSymmetric(l.body, r.body, |l.body| - 1);
    }
  }

  /** Any two records with the Zero sign compare equal. */
  lemma ZeroSignedCompareEqual(l: BigInt, r: BigInt)
    requires l.sign == Zero && r.sign == Zero
    ensures GetDifferenceSign(l, r) == Zero
  {
  }

  /** operator< */
  function Less(l: BigInt, r: BigInt): (b: bool)
    ensures Canonical(l) && Canonical(r) ==> (b <==> ToInt(l) < ToInt(r))
  {
    CompareCanonicalIf(l, r);
    GetDifferenceSign(l, r) == Minus
  }

  /** operator<= */
  function LessEq(l: BigInt, r: BigInt): (b: bool)
    ensures Canonical(l) && Canonical(r) ==> (b <==> ToInt(l) <= ToInt(r))
  {
    CompareCanonicalIf(l, r);
    GetDifferenceSign(l, r) != Plus
  }

  /** operator> */
  function Greater(l: BigInt, r: BigInt): (b: bool)
    ensures Canonical(l) && Canonical(r) ==> (b <==> ToInt(l) > ToInt(r))
  {
    CompareCanonicalIf(l, r);
    GetDifferenceSign(l, r) == Plus
  }

  /** operator>= */
  function GreaterEq(l: BigInt, r: BigInt): (b: bool)
    ensures Canonical(l) && Canonical(r) ==> (b <==> ToInt(l) >= ToInt(r))
  {
    CompareCanonicalIf(l, r);
    GetDifferenceSign(l, r) != Minus
  }

  /** operator== */
  function Equal(l: BigInt, r: BigInt): (b: bool)
    ensures Canonical(l) && Canonical(r) ==> (b <==> l == r)
  {
    CompareCanonicalIf(l, r);
    CanonicalEqualIf(l, r);
    GetDifferenceSign(l, r) == Zero
  }

  /** operator!= */
  function NotEqual(l: BigInt, r: BigInt): (b: bool)
    ensures Canonical(l) && Canonical(r) ==> (b <==> l != r)
  {
    !Equal(l, r)
  }

  lemma CompareCanonicalIf(l: BigInt, r: BigInt)
    ensures Canonical(l) && Canonical(r) ==> GetDifferenceSign(l, r) == Cmp(ToInt(l), ToInt(r))
  {
    if Canonical(l) && Canonical(r) {
      CompareCanonical(l, r);
    }
  }

  lemma CanonicalEqualIf(l: BigInt, r: BigInt)
    ensures Canonical(l) && Canonical(r) ==> (ToInt(l) == ToInt(r) <==> l == r)
  {
    if Canonical(l) && Canonical(r) && ToInt(l) == ToInt(r) {
      CanonicalUnique(l, r);
    }
  }

  /** The relational operators are mutually consistent projections of the
      comparator on any records, canonical or not. */
  lemma RelationsConsistent(l: BigInt, r: BigInt)
    ensures Less(l, r) <==> Greater(r, l)
    ensures LessEq(l, r) <==> GreaterEq(r, l)
    ensures LessEq(l, r) <==> Less(l, r) || Equal(l, r)
    ensures NotEqual(l, r) <==> Less(l, r) || Greater(l, r)
    ensures Equal(l, r) <==> Equal(r, l)
  {
    CompareAntisymmetric(l, r);
  }
}
