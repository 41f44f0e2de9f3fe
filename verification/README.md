# mipt_cpp cores in Dafny

A model of three pieces of the mipt_cpp repository, with proofs about it:

- **BigInt**: the arbitrary-precision signed integer of `big_integer.hpp` and `big_integer.cpp`.
  - A value is a sign in {-1, 0, 1} and a non-empty little-endian vector of base-2^32 limbs.
  - The model covers the constructors, the single-limb operations and the normalisation helpers.
  - It also covers the three-way comparator, `+` and `-`, Karatsuba multiplication, bisection long division with `%`, and decimal text in both directions.
  - `+`, `-`, `++`, `--`, the comparisons and the text conversions are proved against integer arithmetic on canonical operands.
  - `*`, `/` and `%` are modelled twice: as written, with counterexamples (see Findings), and corrected, with the corrected versions proved against integer arithmetic.
- **Deque**: the position arithmetic of `deque.hpp`.
  - Elements live in a table of 64-slot buckets between a front and a back position.
  - The model covers push and pop at both ends, `at`, `insert`, `erase`, and the iterator offset operators.
  - Each operation is proved against the sequence of elements the deque holds.
- **Geometry**: the exact integer predicates of `geometry.cpp`.
  - Dot and cross products, a point on a segment, and segment crossing.
  - Line coefficients, a line crossing a segment, rays, and the three circle tests.
  - Translation of each shape.

## Layout

| file | module | contents |
|---|---|---|
| limbs.dfy | `Limbs` | limb sequences, `Value`, `Pow`, `Trimmed`, positional lemmas |
| bigint.dfy | `BigInts` | the record, `ToInt`, `Canonical`, TrimZeroes/Align/Shift/TrimFront/TrimBack/GetMaxEven, unary minus, GetAbsolute |
| short_arith.dfy | `ShortArith` | ShortAdd, ShortMul, ShortDivisionMod |
| compare.dfy | `Compare` | GetDifferenceSign and the six relational operators |
| addsub.dfy | `AddSub` | SignedAdd, SignedSub, `+`, `-`, `++`, `--` |
| multiply.dfy | `Multiply` | RecursiveMultiplication and MultiplyChunks, as written and corrected |
| multiply_trace.dfy | `MultiplyTrace` | the multiplication as written, traced on 2^64 squared |
| construct.dfy | `Construct` | BigInt(int64_t) |
| divide.dfy | `Divide` | BinSearchDivision, Division, `/` and `%`, as written and corrected |
| divide_trace.dfy | `DivideTrace` | the division and `%` as written, traced on concrete operands |
| text.dfy | `Text` | BigInt(std::string) and the decimal rendering of `operator<<` |
| deque.dfy | `Deques` | positions, the bucket table, push/pop, at, insert, erase, iterators |
| geometry.dfy | `Geometry` | vectors, points, segments, lines, rays, circles |

The model uses four representation choices:

- `body_size_` is `|body|`, so it can never disagree with the vector.
- `Canonical` is a predicate, not a type invariant. It means trimmed limbs, with sign Zero exactly for zero. The engine builds Plus-signed zeros and untrimmed vectors in its internal steps, so `Canonical` is stated as the pre- and postcondition of the public operators only.
- Integers are unbounded. Where the source's machine width changes a result, the wrap-around is written out: SignedSub's dropped borrow, and the `size_t` square of a circle's radius cast to `int64_t`.
- The string constructor leaves a Plus or Minus sign on the single zero limb for numerals such as "00" and "-00"; the empty string gives Plus on the zero limb and "-" gives Minus, while "0" and "-0" give the zero record. `PublicValue` admits these signed zeros next to the canonical records, and `/` and `%` are stated on public values, since their `IsZero()` short cuts accept any sign.

Where the code and its description differ, the model follows the code. Two examples: iterator `operator<` holds on equal iterators, and `Ray::Move` moves only the origin.

## Model

| member | source | states |
|---|---|---|
| Limbs.ValueBound | big_integer.hpp:75-82 | k limbs below kBase denote less than kBase^k |
| Limbs.TrimmedUnique | big_integer.cpp:518-527 | two trimmed limb vectors of the same value are equal, so the trimmed form is unique |
| Limbs.TrimmedLengthOrder | big_integer.cpp:447-452 | of two trimmed vectors, the one with fewer limbs has the smaller value, which is what the comparator's length test relies on |
| BigInts.SignAlgebra | big_integer.hpp:73 | the product of two signs is a sign and is zero exactly when one of them is Zero; Minus < Zero < Plus |
| BigInts.SignProduct | big_integer.hpp:73 | a sign product is -1 exactly for opposite nonzero signs and 1 exactly for equal nonzero signs |
| BigInts.CanonicalUnique | big_integer.hpp:73-83 | two canonical records denoting the same integer are the same record |
| BigInts.CanonicalToInt | big_integer.hpp:73-83 | a canonical record is zero exactly when it is the zero record, negative exactly when Minus, positive exactly when Plus |
| BigInts.IsZero | big_integer.cpp:172 | true only for a zero magnitude, and on trimmed limbs exactly for a zero magnitude |
| BigInts.PublicValueZero | big_integer.cpp:9-26 | a value the public interface hands out, canonical or a signed single zero limb, denotes 0 exactly when IsZero holds, and is canonical otherwise |
| BigInts.TrimZeroes | big_integer.cpp:518-527 | keeps sign and value, leaves trimmed limbs that are a prefix of the input, and drops only zero limbs |
| BigInts.Normalize | big_integer.cpp:137-140 | TrimZeroes followed by the Zero sign for the single zero limb: the value kept, trimmed limbs, sign Zero exactly for a zero value, and a canonical record from any nonzero sign |
| BigInts.Align | big_integer.cpp:529-534 | adds k limbs on top, keeps the old limbs as a prefix and keeps the value |
| BigInts.Shift | big_integer.cpp:248-253 | adds k limbs below, keeps the old limbs as a suffix and multiplies the value by kBase^k |
| BigInts.TrimFront | big_integer.cpp:237-246 | the value divided by kBase^k: the upper limbs with the same sign, or the zero record when there are at most k limbs |
| BigInts.TrimBack | big_integer.cpp:227-235 | the lower size-k limbs with the same sign, whose value is the value mod kBase^(size-k), or the zero record when there are at most k limbs |
| BigInts.GetMaxEven | big_integer.cpp:223-225 | an even number at least both sizes and at most one above the larger |
| BigInts.Negate | big_integer.cpp:124-128 | negates the value, keeps the limbs, leaves a zero sign zero and keeps canonical records canonical |
| BigInts.GetAbsolute | big_integer.cpp:466 | the same limbs with sign Plus unless Zero, so on a canonical record the absolute value |
| ShortArith.AddCarry | big_integer.cpp:414-423 | the carry loop adds the carry to the value and grows by at most one nonzero limb |
| ShortArith.MulCarry | big_integer.cpp:427-436 | the carry loop multiplies the value by v, adds the carry and grows by at most one nonzero limb |
| ShortArith.ShortAdd | big_integer.cpp:413-424 | keeps the sign, adds v to the magnitude, grows by at most one limb and keeps trimmed limbs trimmed |
| ShortArith.ShortMul | big_integer.cpp:426-437 | keeps the sign and multiplies the magnitude by v; v = 0 leaves as many zero limbs as before; v > 0 keeps trimmed limbs trimmed |
| ShortArith.DivLimbs | big_integer.cpp:131-136 | the top-down loop leaves q with value = q * v + r and r < v |
| ShortArith.ShortDivisionMod | big_integer.cpp:130-142 | the quotient is the magnitude div v in trimmed limbs, the returned remainder is the magnitude mod v, and the sign becomes Zero exactly when the quotient is zero |
| Compare.GetDifferenceSign | big_integer.cpp:439-464 | different signs decide by sign, different lengths by sign and length, otherwise the top-down limb scan |
| Compare.LimbOrderIsValueOrder | big_integer.cpp:453-463 | on vectors of equal length the limb scan gives the order of their values |
| Compare.CompareCanonical | big_integer.cpp:439-464 | on canonical operands the comparator is the sign of l - r |
| Compare.CompareAntisymmetric | big_integer.cpp:439-464 | swapping the operands negates the comparator, on every record |
| Compare.ZeroSignedCompareEqual | big_integer.cpp:440-452 | any two Zero-signed records compare equal whatever their limbs |
| Compare.Less | big_integer.cpp:389-391 | on canonical operands, exactly l < r |
| Compare.LessEq | big_integer.cpp:393-395 | on canonical operands, exactly l <= r |
| Compare.Greater | big_integer.cpp:397-399 | on canonical operands, exactly l > r |
| Compare.GreaterEq | big_integer.cpp:401-403 | on canonical operands, exactly l >= r |
| Compare.Equal | big_integer.cpp:405-407 | on canonical operands, exactly record equality |
| Compare.NotEqual | big_integer.cpp:409-411 | on canonical operands, exactly record inequality |
| Compare.RelationsConsistent | big_integer.cpp:389-411 | the six relations are projections of one comparator: `<` mirrors `>`, `<=` is `<` or `==`, `!=` is `<` or `>`, `==` is symmetric |
| AddSub.AddLimbs | big_integer.cpp:471-484 | the carry chain gives the sum of the values plus the carry, with at most one more nonzero limb |
| AddSub.SubLimbs | big_integer.cpp:498-509 | the borrow chain gives a - b - borrow plus the final borrow times kBase^n |
| AddSub.SubBorrowExact | big_integer.cpp:498-509 | the final borrow is 1 exactly when a < b + borrow |
| AddSub.SignedAdd | big_integer.cpp:468-493 | the magnitudes add, and the given sign is replaced by Zero only for a zero sum, and exactly for a zero sum on trimmed operands |
| AddSub.SignedSub | big_integer.cpp:495-516 | the difference of the magnitudes when the left is not smaller, otherwise the wrap-around modulo kBase^size; trimmed; sign Zero exactly for zero |
| AddSub.Add | big_integer.cpp:174-199 | on canonical operands, a canonical record of l + r in every sign combination |
| AddSub.AddAgreeing | big_integer.cpp:194-198 | agreeing or zero signs: on canonical operands a canonical l + r; on non-negative operands the magnitudes add and trimmed limbs stay trimmed |
| AddSub.AddOpposite | big_integer.cpp:175-193 | opposite signs: equal magnitudes give the zero record, otherwise the larger magnitude minus the smaller, with its sign |
| AddSub.Sub | big_integer.cpp:201-221 | on canonical operands, a canonical record of l - r in every sign combination |
| AddSub.SubSameSign | big_integer.cpp:214-220 | equal nonzero signs, the larger magnitude first: on canonical operands a canonical l - r |
| AddSub.Inc | big_integer.cpp:100-110 | ++ on a canonical record gives a canonical x + 1 |
| AddSub.Dec | big_integer.cpp:112-122 | -- on a canonical record gives a canonical x - 1 |
| AddSub.AddSubInverse | big_integer.cpp:174-221 | (x + y) - y == x |
| AddSub.AddCommutes | big_integer.cpp:174-199 | x + y == y + x as records |
| AddSub.SubIsAddNegate | big_integer.cpp:201-221 | x - y == x + (-y) as records |
| AddSub.OppositeAddsToZero | big_integer.cpp:176-180 | x + (-x) is the zero record |
| Multiply.MulLimb | big_integer.cpp:287-292 | two single-limb operands give the exact product with the product of the signs, in trimmed limbs |
| Multiply.SplitOperands | big_integer.cpp:256-266 | the aligned operands split into Plus-signed halves of k limbs each with value = low + kBase^k * high |
| Multiply.HalfValues | big_integer.cpp:264-267 | TrimFront and TrimBack by half the size give the high and low halves of the value |
| Multiply.SplitMeasure | big_integer.cpp:262-273 | the sums of halves are smaller than the operands in value, so the recursion terminates |
| Multiply.RecombineValue | big_integer.cpp:274-280 | with canonical non-negative partial products, the result is z0 + (z1 - z0 - z2) kBase^k + z2 kBase^2k |
| Multiply.KaratsubaIdentity | big_integer.cpp:268-280 | the recombination of the three partial products equals the product of the operands |
| Multiply.RecMulAsWritten | big_integer.cpp:286-295 | as written: the product of the signs and trimmed limbs, exact for single-limb operands |
| Multiply.MultiplyChunksAsWritten | big_integer.cpp:255-284 | as written: the product of the signs and trimmed limbs |
| Multiply.RecMul | big_integer.cpp:286-295 | corrected: the magnitude is the product, the sign the product of the signs, canonical on canonical operands |
| Multiply.MultiplyChunks | big_integer.cpp:255-284 | corrected: with canonical halves, the magnitude is the product and the sign the product of the signs |
| Multiply.Mul | big_integer.cpp:297-299 | corrected: on canonical operands, a canonical record of l * r |
| MultiplyTrace.MulAsWrittenCounterexample | big_integer.cpp:255-295 | as written, 2^64 squared has magnitude kBase^4 (kBase^3 - kBase^2 + 1), not kBase^4, while the corrected product is kBase^4 |
| MultiplyTrace.MinusZeroWraps | big_integer.cpp:176-193 | a Minus-signed zero plus a longer-limbed positive wraps around instead of giving the positive |
| MultiplyTrace.SquareOfPower | big_integer.cpp:297-299 | the corrected product squares kBase^k to kBase^2k |
| Construct.FromInt64 | big_integer.cpp:28-54 | a canonical record of the same value in at most two limbs, one when the magnitude is below kBase, including INT64_MIN |
| Divide.Bisect | big_integer.cpp:309-324 | the bisection loop returns a value in its bracket |
| Divide.BisectBrackets | big_integer.cpp:309-324 | while r * down <= l < r * up holds, the bisection ends on the quotient digit d with r d <= l < r (d + 1) |
| Divide.ProbeOrder | big_integer.cpp:311-318 | the probes compare l with r * middle exactly |
| Divide.BinSearchQuotient | big_integer.cpp:301-326 | for a canonical non-negative l below r * kBase, BinSearchDivision is the quotient digit, 0 when l < r |
| Divide.SetLow | big_integer.cpp:346 | writing digit d into the lowest limb keeps the other limbs and gives value d + kBase times the upper limbs' value |
| Divide.FirstWindow | big_integer.cpp:329-343 | the first window is the dividend's limbs from the returned index up, canonical, at least r and below r * kBase, with at most size(l) - size(r) limbs left to bring down |
| Divide.WindowChoice | big_integer.cpp:333-343 | the top size(r) limbs are the window unless they are below r, in which case one more limb is taken |
| Divide.NextWindow | big_integer.cpp:347-351 | corrected: for the quotient digit d of the window, the next window is kBase (W - r d) + x, canonical, non-negative and below r * kBase |
| Divide.Loop | big_integer.cpp:345-354 | corrected: from a state satisfying the loop invariant, the digit loop ends with the trimmed quotient of the dividend by r |
| Divide.LoopAsWritten | big_integer.cpp:345-354 | as written: one quotient digit per remaining dividend limb |
| Divide.Division | big_integer.cpp:328-357 | corrected: canonical, the quotient of the magnitudes, with the product of the signs |
| Divide.DivisionAsWritten | big_integer.cpp:328-357 | as written: the product of the signs and one digit per remaining limb |
| Divide.TruncDivMod | big_integer.cpp:359-387 | C++ truncating division: l = r q + m, with m smaller than r in magnitude and of l's sign |
| Divide.SmallDividend | big_integer.cpp:363-371 | smaller magnitude gives quotient 0, equal magnitude gives the sign product, otherwise the signed quotient of the magnitudes |
| Divide.Div | big_integer.cpp:359-372 | corrected: on public values, signed zeros included, the zero record for a zero divisor, otherwise a canonical truncated quotient |
| Divide.DivCases | big_integer.cpp:359-372 | the short cuts of `/`: smaller magnitude gives 0, equal magnitude gives the sign product |
| Divide.DivAsWritten | big_integer.cpp:359-372 | as written, on public values: zero operands or a smaller dividend give the zero record, equal magnitudes the canonical sign product, and a larger dividend a result with the sign product |
| Divide.Mod | big_integer.cpp:374-387 | corrected: on public values, signed zeros included, the zero record for a zero divisor, otherwise a canonical truncated remainder |
| Divide.ModCases | big_integer.cpp:374-380 | the short cuts of `%` on public values: zero operands or equal operands leave no remainder, and a smaller dividend is its own remainder |
| Divide.ModRemainder | big_integer.cpp:381-386 | -((l / r) * r - l), trimmed, is the truncated remainder |
| Divide.ModAsWritten | big_integer.cpp:374-387 | as written, on public values: zero operands or equal values give the zero record, and a smaller nonzero dividend gives its absolute value |
| Divide.DivModIdentity | big_integer.cpp:359-387 | on public values with a nonzero divisor, l == (l / r) r + l % r, the remainder smaller than r in magnitude and of the dividend's sign |
| DivideTrace.DivAsWrittenCounterexample | big_integer.cpp:343-352 | as written, (3 kBase + 5) / 3 is kBase; corrected it is kBase + 1 |
| DivideTrace.ZeroSubtrahendWraps | big_integer.cpp:345-347 | a Plus zero subtrahend longer than the window makes `-=` wrap around |
| DivideTrace.SquareCounterexample | big_integer.cpp:343-352 | as written, (kBase^2 + 1)^2 / (kBase^2 + 1) is kBase^2; corrected it is kBase^2 + 1 |
| DivideTrace.ModAsWrittenCounterexample | big_integer.cpp:378-380 | as written, -3 % 5 is 3; the truncated remainder, and the corrected `%`, give -3 |
| Text.ParseDigits | big_integer.cpp:20-23 | folding the digits with ShortMul(10) and ShortAdd gives their decimal value in trimmed limbs |
| Text.FromString | big_integer.cpp:9-26 | an optional '-' and digits give the signed decimal value; the record is canonical exactly for "0", "-0" or a nonzero value |
| Text.RenderDigits | big_integer.cpp:150-154 | the digits produced by repeated ShortDivisionMod(10) spell the magnitude |
| Text.RenderDigitsMinimal | big_integer.cpp:150-154 | on trimmed limbs those digits have no leading zero |
| Text.Render | big_integer.cpp:144-161 | a leading '-' exactly for a nonzero Minus value, then digits spelling the magnitude; "0" for the single zero limb and, on trimmed limbs, only for it |
| Text.RenderCanonical | big_integer.cpp:144-161 | a canonical record renders as "0" or as '-' when negative followed by the minimal digits of its magnitude |
| Text.ParseRender | big_integer.cpp:9-26 | parsing the rendering of a canonical record gives the record back |
| Text.StripZeros | big_integer.cpp:20-23 | dropping leading '0's keeps the decimal value and leaves no leading zero |
| Text.RenderParseAll | big_integer.cpp:9-26 | for every numeral, rendering its parse gives the numeral with leading zeros dropped, "-" dropped from a zero, and "0" for no digits; that form is a canonical numeral |
| Text.RenderParse | big_integer.cpp:144-161 | rendering the parse of a canonical numeral gives the numeral back, and the parse is canonical |
| Text.NormalizedCanonical | big_integer.cpp:9-26 | a canonical numeral is its own normal form, so RenderParse is the canonical case of RenderParseAll |
| Deques.PositionOfLinear | deque.hpp:683-686 | positions with index below 64 correspond one to one with linear offsets bucket * 64 + index |
| Deques.NextPosition | deque.hpp:724-729 | the next position is one linear offset further |
| Deques.BeforePosition | deque.hpp:731-736 | the previous position is one linear offset back |
| Deques.NextBefore | deque.hpp:724-736 | get_before_position and get_next_position undo each other |
| Deques.ElementPosition | deque.hpp:738-748 | the slot formula with its carry is the position at the front's offset plus i |
| Deques.NewDeque | deque.hpp:7-15 | the new deque satisfies the invariant and holds no elements |
| Deques.PushBack | deque.hpp:161-193 | keeps the invariant, appends v to the elements, keeps front and never shrinks the table |
| Deques.PopBack | deque.hpp:264-276 | keeps the invariant, removes the last element, keeps front, and keeps back when the sole element goes |
| Deques.PushFront | deque.hpp:278-312 | keeps the invariant and prepends v; at (0, 0) the table grows by back.bucket + 1 buckets |
| Deques.ConstructFront | deque.hpp:296-311 | constructing at the slot before front puts v first without growing the table |
| Deques.MovedUp | deque.hpp:280-288 | buckets put in front with both positions moved up by as many keep every element at its logical index |
| Deques.PopFront | deque.hpp:387-399 | keeps the invariant, removes the first element, keeps back, and keeps front when the sole element goes |
| Deques.Get | deque.hpp:137-146 | operator[] reads the element with logical index i |
| Deques.Begin | deque.hpp:565-568 | begin() is a valid position at front's offset, holding the first element when the deque is not empty |
| Deques.At | deque.hpp:147-159 | out_of_range exactly when i >= size, otherwise the element with logical index i |
| Deques.End | deque.hpp:570-577 | end() is size slots after front, and front itself when empty |
| Deques.Insert | deque.hpp:624-648 | keeps the invariant, and the elements become old[..k] + [v] + old[k..] |
| Deques.ShiftUp | deque.hpp:637-646 | the copy loop moves the elements from k onwards one slot up |
| Deques.Erase | deque.hpp:652-675 | keeps the invariant, and the elements become old[..k] + old[k+1..] |
| Deques.ShiftDown | deque.hpp:657-671 | the copy loop moves the elements after k one slot down |
| Deques.Increment | deque.hpp:428-436 | operator++ moves the iterator one offset forward |
| Deques.Decrement | deque.hpp:444-452 | operator-- moves the iterator one offset back |
| Deques.Add | deque.hpp:460-473 | operator+ moves the offset by the shift, for either sign of the shift |
| Deques.Subtract | deque.hpp:487-501 | operator- moves the offset back by the shift, for either sign of the shift |
| Deques.AddSubtract | deque.hpp:460-501 | (it + s) - s == it and (it - s) + s == it |
| Deques.Less | deque.hpp:530-534 | operator< is offset order <=, true on equal iterators |
| Deques.LessEq | deque.hpp:536-538 | operator<= is offset order <= |
| Deques.Greater | deque.hpp:540-544 | operator> is offset order >=, true on equal iterators |
| Deques.Distance | deque.hpp:503-518 | iterator difference is the difference of the offsets in all four cases |
| Deques.IteratorsOfDeque | deque.hpp:565-577 | end() - begin() is the size, and begin() + i is the iterator at the element position of i |
| Geometry.Products | geometry.cpp:22-28 | the dot product is symmetric, the cross product antisymmetric, and u ^ u == 0 |
| Geometry.Diff | geometry.cpp:132-136 | p - q is the vector that translates q to p |
| Geometry.DiffTranslate | geometry.cpp:126-136 | translating both points by the same vector keeps their difference |
| Geometry.PointContains | geometry.cpp:107-109 | a point contains exactly itself |
| Geometry.OnSegment | geometry.cpp:111-122 | Point::CrossSegment holds exactly for points on the line through the ends and inside their bounding box |
| Geometry.PointOnPoint | geometry.cpp:111-122 | on a degenerate segment, only its point lies |
| Geometry.SegmentContainment | geometry.cpp:149-157 | a segment contains both ends, and moving segment and point by one vector keeps containment |
| Geometry.Sign | geometry.cpp:159-167 | GetSign is 0, 1 or -1 exactly by the sign of the value |
| Geometry.SegmentsCrossAsWritten | geometry.cpp:179-210 | as written: a point segment crosses exactly where its point lies; an end of the other segment on this one makes them cross, and for parallel proper segments nothing else does |
| Geometry.SegmentsCrossAsymmetric | geometry.cpp:179-189 | as written, two segments on one axis, one inside the other, cross one way round and not the other, though both contain a common point |
| Geometry.SegmentsCrossExample | geometry.cpp:179-189 | as written, [(0, 0), (1, 0)] does not cross [(-1, 0), (2, 0)], but the reverse does |
| Geometry.SegmentsCross | geometry.cpp:179-210 | corrected: a point segment crosses where its point lies; an end of either segment on the other makes them cross, and for parallel proper segments nothing else does |
| Geometry.TouchStraddle | geometry.cpp:190-209 | with crossing directions, an end of t on s passes the straddle test: both sign pairs differ |
| Geometry.OppositeSides | geometry.cpp:208-209 | a vector within d and collinear with it has cross products with w, from both ends of d, of different signs when w crosses d |
| Geometry.SegmentsCrossSymmetric | geometry.cpp:179-210 | the corrected test is symmetric and holds wherever the test as written does |
| Geometry.DegenerateCross | geometry.cpp:180-183 | a degenerate segment crosses exactly where its point lies, in both orders |
| Geometry.AxisSegmentsCross | geometry.cpp:179-189 | corrected: two segments on one axis cross exactly when their ranges overlap |
| Geometry.UprightCross | geometry.cpp:190-209 | a segment on the x axis and an upright one cross exactly where they meet in the plane, in either order |
| Geometry.MakeLine | geometry.cpp:221-232 | the coefficients vanish at both points, and a and b are both zero exactly when the points coincide |
| Geometry.LineContains | geometry.cpp:246-248 | on a line built from two points, the equation holds exactly for points collinear with them |
| Geometry.LineCrossesSegment | geometry.cpp:250-266 | on a line built from two points, a segment crosses it exactly when its ends are not both strictly on one side |
| Geometry.MoveLineContains | geometry.cpp:240-248 | moving the line and the point by one vector keeps containment |
| Geometry.RayContains | geometry.cpp:305-312 | on a ray built from a and b, exactly the points collinear with a and b on b's side of a |
| Geometry.RayThrough | geometry.cpp:293-312 | the ray contains p exactly when p is on the line a-b and (p - a) . (b - a) >= 0, so it contains a and b |
| Geometry.MoveRayAsWritten | geometry.cpp:303 | as written, the move equals the translation of the whole ray only for the zero vector |
| Geometry.MoveRayAsWrittenDrifts | geometry.cpp:303 | as written, the moved ray contains the moved b only when the move is parallel to the ray |
| Geometry.MoveRayAsWrittenLoses | geometry.cpp:303 | as written, a move across the ray loses the moved b, which the ray contained before |
| Geometry.MoveRayExample | geometry.cpp:303 | the ray (0, 0) to (1, 0) moved by (0, 1) is such a move |
| Geometry.MoveRayContains | geometry.cpp:303 | corrected: the moved ray is the ray between the moved points and keeps containment of moved points |
| Geometry.RadiusSquared | geometry.cpp:358-362 | the size_t square cast to int64_t lies in the int64 range and is exact below 2^63 |
| Geometry.CircleContains | geometry.cpp:358-362 | while r^2 < 2^63, contains exactly the points at squared distance at most r^2 |
| Geometry.OnCircle | geometry.cpp:364-368 | while r^2 < 2^63, exactly the points at squared distance r^2 |
| Geometry.InCircle | geometry.cpp:370-374 | while r^2 < 2^63, exactly the points at squared distance below r^2 |
| Geometry.CircleTests | geometry.cpp:356-374 | contains is in or on, the centre is contained when r^2 < 2^63, and all three tests survive moving circle and point together |

## Left out

- `BigInt(size_t body_size, uint64_t filling_value)`. It gives a Zero-signed record of body_size copies of the filling value, which can be untrimmed, Zero-signed with a nonzero magnitude, or hold a limb of kBase or more; none of the operator contracts apply to such records.
- What other code does with the results of public calls of the static `SignedAdd` and `SignedSub`. `AddSub.SignedAdd` and `AddSub.SignedSub` model those calls for any sign, and with sign Zero and a nonzero result they give a Zero-signed nonzero record; the operator contracts, stated on canonical operands, say nothing about such records. A public `SignedSub` call with a shorter left operand is not modelled either: there the `size_t` difference passed to `Align` wraps, so the right operand is cut down to the left's length.
- Text.FromString: only an optional '-' followed by decimal digits is modelled. The source accepts any string: each character goes through `ShortAdd(symbol - '0')`, whose `uint32_t` parameter wraps characters below '0' (such as '+' or a second '-') to values near 2^32, and letters to values above 9, all without an error.
- Stream plumbing. `operator<<` and `operator>>` are modelled as the pure functions `Text.Render` and `Text.FromString`.
- `IShape`, `Clone` and the virtual dispatch of the geometry classes. These are heap allocation and polymorphism.
- The floating-point geometry paths. These are `Line::FindIntersectionX`, `Ray::CrossSegment`, `Circle::CrossSegment` and `Segment::GetSign(double)`. Dafny has no faithful model of IEEE doubles here.
- The Vector operators `+=`, `-=`, `+`, `-`, `*=`, unary minus and scalar `*`. They are componentwise integer arithmetic; translation (`Translate`, `Diff`) covers their use by the shapes.
- The deque's allocator handling, element construction and destruction, exception rollback, and copy/move/swap/assignment. The model has no memory.
- The deque destructor and reverse iterators. Reverse iterators are standard wrappers.
- The count and initializer-list constructors. They first call `prepare_for_count_elements`, which, for n the number of 64-slot buckets that hold count + 1 elements (count + 1 divided by 64, rounded up), builds a table of 3n buckets with front and back at (n, 0), and then construct the elements in place; only the default constructor, `Deques.NewDeque`, is modelled.
- The lvalue and rvalue overloads of push and emplace, which differ only in how the element is constructed. `Deques.PushBack` and `Deques.PushFront` model all three of each.
- The sentinel-node linked list, `list.hpp`.
- int64 overflow in the geometry. Coordinates and products are unbounded integers, so the model agrees with the source whenever no intermediate overflows.
- The masking `& (kBase - 1)` and shift `>> kBaseDegree` in ShortAdd, ShortMul and SignedAdd. They are written as `% BASE` and `/ BASE`, which agree on the 64-bit accumulators the source forms; the bit-level identity is not proved.
- uint64 overflow of the accumulators. Limbs are bounded by their type, and the carries are proved below kBase.
- Deques.Add: INT_MIN is not a shift it accepts. Both operator+ and operator- negate a negative shift, which overflows on INT_MIN.
- Deques.Subtract: INT_MIN is excluded for the same reason as in Deques.Add.
- Deques.Insert: takes the logical index k of the insertion point instead of an iterator. The source turns the iterator into that position before doing anything else.
- Deques.Erase: takes the logical index k instead of an iterator, for the same reason.
- Divide.Div: requires public values, canonical or a signed single zero limb. Records with untrimmed limbs or a Zero sign on a nonzero magnitude are not produced by the string or int64 constructors or by the operators.
- Divide.Mod: requires public values, as Divide.Div does.
- Divide.DivAsWritten: states only the short cuts. The long path's value is wrong in general; see Findings.
- Divide.ModAsWritten: states only the short cuts, for the same reason as Divide.DivAsWritten.
- Divide.LoopAsWritten: states only the number of quotient digits, for the same reason.
- Geometry.SegmentsCross: does not state that two segments passing the straddle test share a point. That point has rational coordinates in general, and the model stays in integers.
- Multiply.MultiplyChunksAsWritten: states only the sign and trimming of the result. Its magnitude is wrong in general; see Findings.
- Multiply.RecMulAsWritten: states the exact product only for single-limb operands, for the same reason.
- Divide.DivisionAsWritten: states only the sign and the number of quotient limbs, for the same reason.

## Findings

| source | as written | input that shows it | evidently intended | confidence | as-written member | corrected member |
|---|---|---|---|---|---|---|
| big_integer.cpp:256-284 | the halves are forced to sign Plus even when zero, so z1 - z0 - z2 can be a Minus-signed zero, which `+=` then wraps around | 2^64 * 2^64 gives 2^128 (2^96 - 2^64 + 1) | 2^128 | high; not executed | MultiplyTrace.MulAsWrittenCounterexample | Multiply.Mul |
| big_integer.cpp:343-352 | when a digit empties the window exactly, the window is a Zero-signed zero; bringing down a limb keeps the sign Zero, and BinSearchDivision returns 0 for it | (3 * 2^32 + 5) / 3 gives 2^32 | 2^32 + 1 | high; not executed | DivideTrace.DivAsWrittenCounterexample | Divide.Div |
| big_integer.cpp:344-347 | a window below the divisor with fewer limbs gets digit 0, and subtracting the Plus-signed zero product, which has more limbs, wraps around | (2^64 + 1)^2 / (2^64 + 1) gives 2^64 | 2^64 + 1 | high; not executed | DivideTrace.SquareCounterexample | Divide.Div |
| big_integer.cpp:378-380 | a dividend of smaller magnitude returns its absolute value, while the general path gives a remainder with the dividend's sign | -3 % 5 gives 3 | -3, the truncated remainder with the dividend's sign | medium; not executed | DivideTrace.ModAsWrittenCounterexample | Divide.Mod |
| geometry.cpp:187-188 | parallel segments only test whether this segment contains an end of the other, so the result depends on the order | [(0, 0), (1, 0)] crosses [(-1, 0), (2, 0)] gives false, the reverse true | true both ways | high; not executed | Geometry.SegmentsCrossAsymmetric | Geometry.SegmentsCrossSymmetric |
| geometry.cpp:303 | Ray::Move moves only the origin, so the ray turns towards its old b | the ray (0, 0) to (1, 0) moved by (0, 1) no longer contains (1, 1) | the moved ray contains (1, 1) | medium; not executed | Geometry.MoveRayAsWrittenLoses | Geometry.MoveRayContains |
