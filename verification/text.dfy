/** Decimal text for BigInt (big_integer.cpp): the string constructor, which
    folds the digits in with ShortMul(10) and ShortAdd(digit), and the
    rendering of operator<<, which peels digits off with
    ShortDivisionMod(10). The stream plumbing around them is not modelled;
    both are pure functions between records and strings. */
module Text {
  import opened Limbs
  import opened BigInts
  import opened ShortArith

  predicate IsDigit(c: char)
  {
    '0' <= c <= '9'
  }

  predicate AllDigits(ds: string)
  {
    forall i :: 0 <= i < |ds| ==> IsDigit(ds[i])
  }

  /** `symbol - '0'`. */
  function DigitValue(c: char): (d: nat)
    requires IsDigit(c)
    ensures d < 10
  {
    (c as int) - ('0' as int)
  }

  /** std::to_string of a remainder below ten. */
  function DigitChar(d: nat): (c: char)
    requires d < 10
    ensures IsDigit(c) && DigitValue(c) == d
  {
    (('0' as int) + d) as char
  }

  /** The number a digit string spells, most significant digit first. */
  function DecValue(ds: string): nat
    requires AllDigits(ds)
  {
    if |ds| == 0 then 0 else 10 * DecValue(ds[..|ds| - 1]) + DigitValue(ds[|ds| - 1])
  }

  /** The minimal decimal digits of v, most significant first; none for 0. */
  function Decimal(v: nat): (ds: string)
    ensures AllDigits(ds)
    ensures v > 0 <==> |ds| > 0
    ensures v > 0 ==> ds[0] != '0'
  {
    if v == 0 then "" else
      var ds := Decimal(v / 10) + [DigitChar(v % 10)];
      assert v / 10 == 0 ==> v % 10 != 0;
      ds
  }

  /** A string the constructor accepts: an optional '-' and then digits. */
  predicate IsNumeral(s: string)
  {
    AllDigits(if |s| > 0 && s[0] == '-' then s[1..] else s)
  }

  /** A numeral in the form the rendering produces: "0", or an optional
      '-' and digits without a leading zero. */
  predicate IsCanonicalNumeral(s: string)
  {
    var ds := if |s| > 0 && s[0] == '-' then s[1..] else s;
    s == "0" || (AllDigits(ds) && |ds| > 0 && ds[0] != '0')
  }

  /** The digit loop of the string constructor: ShortMul(10) then
      ShortAdd(digit) for each digit from the left, starting from the
      single zero limb. The sign is set before the loop and left alone. */
  function ParseDigits(sign: Sign, ds: string): (x: BigInt)
    requires AllDigits(ds)
    ensures x.sign == sign
    ensures Value(x.body) == DecValue(ds)
    ensures Trimmed(x.body)
  {
    if |ds| == 0 then
      assert [0][1..] == [];
      BigInt(sign, [0])
    else
      var prefix := ParseDigits(sign, ds[..|ds| - 1]);
      ShortAdd(ShortMul(prefix, RADIX), DigitValue(ds[|ds| - 1]))
  }

  /** BigInt(std::string): "0" and "-0" give the zero record; otherwise a
      leading '-' selects Minus, anything else Plus, and the digits are
      folded in. The result is canonical unless the digits spell zero in
      some other way ("00", "-", the empty string), which leave a signed
      zero. */
  function FromString(s: string): (x: BigInt)
    requires IsNumeral(s)
    ensures var neg := |s| > 0 && s[0] == '-';
      var ds := if neg then s[1..] else s;
      ToInt(x) == (if neg then 0 - DecValue(ds) else DecValue(ds))
    ensures Trimmed(x.body)
    ensures Canonical(x) <==> s == "0" || s == "-0" || ToInt(x) != 0
    ensures PublicValue(x)
  {
    if s == "0" || s == "-0" then
      ZeroValue();
      ZERO
    else if |s| > 0 && s[0] == '-' then
      ParseDigits(Minus, s[1..])
    else
      ParseDigits(Plus, s)
  }

  /** The rendering loop: while the copy is not the single zero limb, take
      the remainder of ShortDivisionMod(10) as the next digit. The digits
      come out least significant first and the source reverses them at
      the end; here each digit is appended after those of the quotient. */
  function RenderDigits(x: BigInt): (ds: string)
    ensures AllDigits(ds)
    ensures DecValue(ds) == Value(x.body)
    decreases Value(x.body), |x.body|
  {
    if IsZero(x) then
      ""
    else
      var qr := ShortDivisionMod(x, RADIX);
      var v := Value(x.body);
      TenthSmaller(v);
      var d := qr.1;
      assert Value(qr.0.body) == v / 10 && d == v % 10 && d < 10;
      TrimmedZeroIfTrimmed(qr.0.body);
      TrimmedZeroIfTrimmed(x.body);
      var prefix := RenderDigits(qr.0);
      var c := DigitChar(d);
      var ds := prefix + [c];
      assert ds[..|ds| - 1] == prefix && ds[|ds| - 1] == c && DigitValue(c) == d;
      assert DecValue(ds) == 10 * DecValue(prefix) + d;
      ds
  }

  /** Dropping the last decimal digit: v = 10 (v / 10) + v % 10, and the
      quotient is smaller unless v is 0. */
  lemma TenthSmaller(v: nat)
    ensures 10 * (v / 10) + v % 10 == v
    ensures v > 0 ==> v / 10 < v
    ensures v == 0 ==> v / 10 == 0
  {
  }

  /** operator<<: "0" for the single zero limb; otherwise the digits, after
      a '-' when the sign is Minus. */
  function Render(x: BigInt): (s: string)
    ensures IsZero(x) ==> s == "0"
    ensures Trimmed(x.body) && s == "0" ==> IsZero(x)
    ensures |s| > 0 && (s[0] == '-' <==> x.sign == Minus && !IsZero(x))
    ensures var ds := if s[0] == '-' then s[1..] else s; AllDigits(ds) && DecValue(ds) == Magnitude(x)
  {
    if IsZero(x) then
      assert DecValue("0") == 0;
      "0"
    else
      var ds := RenderDigits(x);
      assert |ds| > 0 && IsDigit(ds[0]);
      var s := (if x.sign == Minus then "-" else "") + ds;
      assert (if s[0] == '-' then s[1..] else s) == ds;
      assert s == "0" ==> DecValue(ds) == 0;
      s
  }

  /** On trimmed limbs the rendering loop produces the minimal digits. */
  lemma {:induction false} RenderDigitsMinimal(x: BigInt)
    requires Trimmed(x.body)
    ensures RenderDigits(x) == Decimal(Value(x.body))
    decreases Value(x.body)
  {
    if !IsZero(x) {
      var qr := ShortDivisionMod(x, RADIX);
      RenderDigitsMinimal(qr.0);
    }
  }

  /** A canonical record renders as the canonical numeral of its integer. */
  lemma RenderCanonical(x: BigInt)
    requires Canonical(x)
    ensures Render(x) == (if ToInt(x) < 0 then "-" else "") + (if ToInt(x) == 0 then "0" else Decimal(Magnitude(x)))
    ensures IsCanonicalNumeral(Render(x))
  {
    CanonicalToInt(x);
    RenderDigitsMinimal(x);
    if !IsZero(x) {
      var s := Render(x);
      if x.sign == Minus {
        assert s[1..] == Decimal(Magnitude(x));
      }
    }
  }

  /** The digits of a number spell that number. */
  lemma {:induction false} DecimalValue(v: nat)
    ensures DecValue(Decimal(v)) == v
  {
    if v > 0 {
      DecimalValue(v / 10);
      var ds := Decimal(v);
      assert ds[..|ds| - 1] == Decimal(v / 10);
    }
  }

  /** Digits without a leading zero are the minimal digits of their value. */
  lemma {:induction false} DecimalOfValue(ds: string)
    requires AllDigits(ds) && |ds| > 0 && ds[0] != '0'
    ensures Decimal(DecValue(ds)) == ds
    decreases |ds|
  {
    var prefix := ds[..|ds| - 1];
    var d := DigitValue(ds[|ds| - 1]);
    var v := DecValue(ds);
    assert v / 10 == DecValue(prefix) && v % 10 == d;
    if |prefix| == 0 {
      assert d != 0;
    } else {
      DecimalOfValue(prefix);
      assert DigitChar(d) == ds[|ds| - 1];
    }
  }

  /** The '-' that precedes the digits of a negative value. */
  function SignPrefix(sign: Sign): string
  {
    if sign == Minus then "-" else ""
  }

  /** Nonzero digits after the sign's prefix take the digit loop with that
      sign, past the "0" / "-0" short cut. */
  lemma FromSigned(sign: Sign, ds: string)
    requires sign != Zero && AllDigits(ds) && |ds| > 0 && ds[0] != '0'
    ensures IsNumeral(SignPrefix(sign) + ds)
    ensures FromString(SignPrefix(sign) + ds) == ParseDigits(sign, ds)
  {
    var s := SignPrefix(sign) + ds;
    if sign == Minus {
      assert s[0] == '-' && s[1..] == ds;
      assert s != "-0" by {
        if |s| == 2 {
          assert s[1] == ds[0];
        }
      }
    } else {
      assert s == ds;
    }
  }

  /** Parsing a rendered canonical record gives it back. */
  lemma ParseRender(x: BigInt)
    requires Canonical(x)
    ensures IsNumeral(Render(x))
    ensures FromString(Render(x)) == x
  {
    CanonicalToInt(x);
    if x.sign == Zero {
      ZeroValue();
      assert Render(x) == "0";
    } else {
      ParseRenderDigits(x);
    }
  }

  /** The nonzero case: the rendering is the sign and the minimal digits,
      which parse back to the magnitude with that sign. */
  lemma ParseRenderDigits(x: BigInt)
    requires Canonical(x) && x.sign != Zero
    ensures IsNumeral(Render(x))
    ensures FromString(Render(x)) == x
  {
    var ds := Decimal(Magnitude(x));
    RenderDigitsMinimal(x);
    TrimmedZeroIfTrimmed(x.body);
    assert Render(x) == SignPrefix(x.sign) + ds;
    FromSigned(x.sign, ds);
    DecimalValue(Magnitude(x));
    CanonicalUnique(ParseDigits(x.sign, ds), x);
  }

  /** Rendering a parsed canonical numeral gives it back. */
  lemma RenderParse(s: string)
    requires IsCanonicalNumeral(s)
    ensures IsNumeral(s)
    ensures Canonical(FromString(s))
    ensures Render(FromString(s)) == s
  {
    if s == "0" {
      ZeroValue();
      assert Render(ZERO) == "0";
    } else {
      var sign: Sign := if s[0] == '-' then Minus else Plus;
      var ds := if s[0] == '-' then s[1..] else s;
      assert s == SignPrefix(sign) + ds;
      FromSigned(sign, ds);
      RenderParseDigits(ds, sign);
    }
  }

  /** The nonzero case: the digits parse to a canonical record of that
      sign, and render back to themselves. */
  lemma RenderParseDigits(ds: string, sign: Sign)
    requires AllDigits(ds) && |ds| > 0 && ds[0] != '0' && sign != Zero
    ensures var x := ParseDigits(sign, ds);
      Canonical(x) && Render(x) == SignPrefix(sign) + ds
  {
    DecValuePositive(ds);
    var x := ParseDigits(sign, ds);
    DecimalOfValue(ds);
    RenderDigitsMinimal(x);
    TrimmedZeroIfTrimmed(x.body);
  }

  /** A leading zero digit does not change the number spelt. */
  lemma {:induction false} LeadingZero(ds: string)
    requires AllDigits(ds)
    ensures AllDigits("0" + ds) && DecValue("0" + ds) == DecValue(ds)
    decreases |ds|
  {
    var zs := "0" + ds;
    if |ds| > 0 {
      var prefix := ds[..|ds| - 1];
      LeadingZero(prefix);
      assert zs[..|zs| - 1] == "0" + prefix;
      assert zs[|zs| - 1] == ds[|ds| - 1];
    } else {
      assert zs[..|zs| - 1] == "";
    }
  }

  /** The digits with their leading zeros removed: empty, or starting with
      a nonzero digit, and spelling the same number. */
  function StripZeros(ds: string): (t: string)
    requires AllDigits(ds)
    ensures AllDigits(t) && DecValue(t) == DecValue(ds)
    ensures |t| == 0 || t[0] != '0'
    ensures |t| <= |ds| && t == ds[|ds| - |t|..]
  {
    if |ds| > 0 && ds[0] == '0' then
      assert ds == "0" + ds[1..];
      LeadingZero(ds[1..]);
      StripZeros(ds[1..])
    else
      ds
  }

  /** The numeral written without leading zeros, with "0" for zero whether
      or not a '-' precedes it. */
  function Normalized(s: string): (n: string)
    requires IsNumeral(s)
  {
    var neg := |s| > 0 && s[0] == '-';
    var t := StripZeros(if neg then s[1..] else s);
    if |t| == 0 then "0" else (if neg then "-" else "") + t
  }

  /** Rendering any parsed numeral gives the numeral normalised: the
      constructor's signed zeros render as "0", and leading zeros drop. */
  lemma RenderParseAll(s: string)
    requires IsNumeral(s)
    ensures Render(FromString(s)) == Normalized(s)
    ensures IsCanonicalNumeral(Normalized(s))
  {
    var neg := |s| > 0 && s[0] == '-';
    var ds := if neg then s[1..] else s;
    var t := StripZeros(ds);
    var x := FromString(s);
    FromStringParts(s);
    TrimmedZeroIfTrimmed(x.body);
    if |t| == 0 {
      assert Value(x.body) == 0;
    } else {
      DecValuePositive(t);
      NonzeroRendering(x, t, neg);
    }
  }

  /** The string constructor by its two paths: the zero record for "0" and
      "-0", and otherwise the digit loop under the sign the '-' selects. */
  lemma FromStringParts(s: string)
    requires IsNumeral(s)
    ensures var neg := |s| > 0 && s[0] == '-';
      var ds := if neg then s[1..] else s;
      var x := FromString(s);
      Value(x.body) == DecValue(ds) &&
      (Value(x.body) != 0 ==> x.sign == (if neg then Minus else Plus))
  {
    ZeroValue();
  }

  /** A nonzero record renders as its sign's prefix and the minimal digits
      of its magnitude, which are the given digits. */
  lemma NonzeroRendering(x: BigInt, t: string, neg: bool)
    requires Trimmed(x.body) && x.sign == (if neg then Minus else Plus)
    requires AllDigits(t) && |t| > 0 && t[0] != '0' && Value(x.body) == DecValue(t) > 0
    ensures Render(x) == (if neg then "-" else "") + t
    ensures IsCanonicalNumeral((if neg then "-" else "") + t)
  {
    TrimmedZeroIfTrimmed(x.body);
    DecimalOfValue(t);
    RenderDigitsMinimal(x);
    var n := (if neg then "-" else "") + t;
    if neg {
      assert n[1..] == t;
    }
  }

  /** A canonical numeral is its own normal form, so RenderParse is the
      canonical case of RenderParseAll. */
  lemma NormalizedCanonical(s: string)
    requires IsCanonicalNumeral(s)
    ensures IsNumeral(s) && Normalized(s) == s
  {
    RenderParse(s);
    RenderParseAll(s);
  }

  /** Digits with a nonzero first digit spell a positive number. */
  lemma {:induction false} DecValuePositive(ds: string)
    requires AllDigits(ds) && |ds| > 0 && ds[0] != '0'
    ensures DecValue(ds) > 0
    decreases |ds|
  {
    if |ds| > 1 {
      DecValuePositive(ds[..|ds| - 1]);
    }
  }
}
