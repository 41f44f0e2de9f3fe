/** The value constructors of BigInt (big_integer.cpp): from a signed 64-bit
    integer and from decimal text. */
module Construct {
  import opened Limbs
  import opened BigInts
  import opened ShortArith

  const INT64_MIN: int := -0x8000_0000_0000_0000
  const INT64_MAX: int := 0x7FFF_FFFF_FFFF_FFFF

  /** BigInt(int64_t): the sign from the comparison with zero, and the
      magnitude in one limb, or two when it reaches kBase. The magnitude of
      INT64_MIN, which the negation cannot represent, is taken from kMaxValue. */
  function FromInt64(v: int): (x: BigInt)
    requires INT64_MIN <= v <= INT64_MAX
    ensures Canonical(x) && ToInt(x) == v
    ensures |x.body| <= 2
    ensures -(BASE as int) < v < BASE ==> |x.body| == 1
  {
    if v == 0 then
      ZERO
    else
      var sign: Sign := if v > 0 then Plus else Minus;
      var magnitude: nat := if v == INT64_MIN then MAX_VALUE else if v > 0 then v else -v;
      if magnitude < BASE then
        assert [magnitude][1..] == [];
        assert Value([magnitude]) == magnitude;
        BigInt(sign, [magnitude])
      else
        var body := [magnitude % BASE, magnitude / BASE];
        assert body[1..][1..] == [];
        assert Value(body[1..]) == magnitude / BASE;
        assert Value(body) == magnitude;
        assert magnitude / BASE != 0;
        BigInt(sign, body)
  }
}
