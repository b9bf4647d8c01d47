# ctbignum core in Dafny

This project models the arithmetic core of ctbignum, a C++ header library for
fixed-width multi-precision integers and modular arithmetic. A `big_int<N,
uint64_t>` is an array of N 64-bit limbs, least significant first. Here it is a
`seq<Limb>`, where `Limb` is a natural number below 2^64. `Limbs.Val` reads the
sequence as the number it denotes.

The model covers the following parts of the library:

- limb slicing;
- tight length;
- comparison;
- bit shifts;
- carry-chain addition and subtraction;
- schoolbook, truncated and two-word-split multiplication;
- truncated powering;
- short division and Knuth's Algorithm D;
- division by invariant integers (Granlund–Montgomery);
- Barrett reduction;
- Montgomery reduction and multiplication;
- modular exponentiation;
- the extended Euclidean algorithm and the modular inverse built on it;
- Möller's binary modular inversion;
- compile-time decimal literals.

Every operation is stated against `Val` and ordinary integer arithmetic.
Examples are quotient and remainder, residues, gcd and Bézout coefficients.

Word arithmetic that wraps in C++ is written out explicitly in the model:

- `% 2^64` for single words;
- `% 2^(64N)` for whole numbers;
- a carry or borrow limb where the source keeps one.

Where the source is wrong for some inputs, the project keeps two definitions:

- the as-written definition, with a lemma that exhibits the failing input;
- a corrected definition, with the intended property proved, which the rest of the model uses.

Both are listed under "## Findings".

Modules follow the headers:

| module | header |
|---|---|
| `Arith` | integer lemmas |
| `Limbs` | the limb representation |
| `Utility` | utility.hpp |
| `Slicing` | slicing.hpp |
| `RelationalOps` | relational_ops.hpp |
| `BitShift` | bitshift.hpp |
| `Addition` | addition.hpp |
| `Mult` | mult.hpp |
| `Power` | pow.hpp |
| `Division` | division.hpp |
| `InvariantDiv` | invariant_div.hpp |
| `Barrett` | barrett.hpp |
| `Montgomery` | montgomery.hpp |
| `ModExp` | mod_exp.hpp |
| `Gcd` | gcd.hpp |
| `ModInverse` | mod_inv.hpp |
| `DecimalLiterals` | decimal_literals.hpp |

Compile-time packs (`std::integer_sequence<T, ...>`) are limb sequences like any other. The source's `static_assert`s and array bounds become `requires` clauses. A semantic promise that holds only for some inputs is written as a conditional `ensures`. An example is "the result is the residue when the modulus is odd and mprime is its negated inverse".

## Model

| member | source | states |
|---|---|---|
| Utility.TightLength | include/ctbignum/utility.hpp:10-19 | the tight length L is the least L such that every limb from L on is zero |
| Utility.PackTightLength | include/ctbignum/utility.hpp:22-35 | the integer_sequence overload's loop returns the same L as the array overload |
| Utility.TightLengthUnique | include/ctbignum/utility.hpp:10-19 | any L with zero limbs above and a nonzero limb L-1 is the tight length, so the loop's answer is unique |
| Utility.TightLengthValue | include/ctbignum/utility.hpp:10-19 | dropping the limbs above the tight length keeps the value; the tight length is 0 exactly for zero, and otherwise the value is at least 2^(64(L-1)) |
| Utility.TightInjective | include/ctbignum/utility.hpp:10-19 | two tight limb sequences with the same value are equal, so a tight representation is canonical |
| Utility.BitLength | include/ctbignum/invariant_div.hpp:33 | bit_length(x) is 0 exactly for x = 0, and otherwise the n with 2^(n-1) <= x < 2^n |
| Slicing.Take | include/ctbignum/slicing.hpp:10-22 | take<Begin,End,Padding> copies limbs Begin..End-1 and zero-pads; its value is floor(t / 2^(64 Begin)) mod 2^(64(End-Begin)) |
| Slicing.TakeRange | include/ctbignum/slicing.hpp:24-36 | the run-time take has ResultLength limbs holding the same window, and is zero for an empty range |
| Slicing.Skip | include/ctbignum/slicing.hpp:38-43 | skip<N> divides by 2^(64N) |
| Slicing.First | include/ctbignum/slicing.hpp:45-50 | first<N> is the value modulo 2^(64N) |
| Slicing.Pad | include/ctbignum/slicing.hpp:52-57 | pad<N> adds N zero limbs on top and keeps the value and the low limbs |
| Slicing.UnaryEncoding | include/ctbignum/slicing.hpp:59-76 | unary_encoding<K,N> is 2^(64K) in N limbs |
| Slicing.PlaceAt | include/ctbignum/slicing.hpp:78-86 | place_at<N>(value, K) is value * 2^(64K) in N limbs |
| Slicing.ToLength | include/ctbignum/mod_inv.hpp:64 | to_length<N> truncates or zero-extends to N limbs: the value modulo 2^(64N) |
| Slicing.LimbwiseShiftLeft | include/ctbignum/montgomery.hpp:43 | limbwise_shift_left<N>(t, i) is t * 2^(64i) modulo 2^(64N) |
| RelationalOps.GreaterThanSame | include/ctbignum/relational_ops.hpp:18-38 | the reversed lexicographic comparison of equal-length arrays is true exactly when Val(a) > Val(b) |
| RelationalOps.GreaterThan | include/ctbignum/relational_ops.hpp:50-56 | for different lengths both are padded to the longer one, and the result is exactly Val(a) > Val(b) |
| RelationalOps.IsEqual | include/ctbignum/relational_ops.hpp:40-48 | limbwise equality of equal-length arrays holds exactly when the values are equal |
| RelationalOps.Trichotomy | include/ctbignum/relational_ops.hpp:18-38 | greater_than is irreflexive and asymmetric, and any two arrays are ordered one way or equal |
| BitShift.ShiftRight | include/ctbignum/bitshift.hpp:10-19 | shift_right(a, k) keeps N limbs and is floor(a / 2^k), including k = 0 |
| BitShift.ShiftLeft | include/ctbignum/bitshift.hpp:21-35 | shift_left(a, k) has N+1 limbs and is exactly a * 2^k, including k = 0 |
| BitShift.ShiftRoundTrip | include/ctbignum/bitshift.hpp:10-35 | shifting left then right by the same k and keeping N limbs gives back a |
| BitShift.ShiftLeftAsWritten | include/ctbignum/bitshift.hpp:21-35 | the limb formula (a[i] << k) OR (a[i-1] >> (64-k)) with x86 count-mod-64 shifts yields N+1 limbs |
| BitShift.ShiftRightAsWritten | include/ctbignum/bitshift.hpp:10-19 | the limb formula (a[i] >> k) OR (a[i+1] << (64-k)) with count-mod-64 shifts yields N limbs |
| BitShift.ShiftLeftAsWrittenAgrees | include/ctbignum/bitshift.hpp:21-35 | for 1 <= k <= 63 the written shift_left equals the exact shift: the OR of disjoint bit ranges is their sum |
| BitShift.ShiftRightAsWrittenAgrees | include/ctbignum/bitshift.hpp:10-19 | for 1 <= k <= 63 the written shift_right equals the exact shift |
| BitShift.ZeroShiftLeftCounterexample | include/ctbignum/bitshift.hpp:30-33 | at k = 0 the written shift_left of [1, 0] is [1, 1, 0], not a * 2^0 |
| BitShift.ZeroShiftRightCounterexample | include/ctbignum/bitshift.hpp:15 | at k = 0 the written shift_right of [0, 1] is [1, 1], not a / 2^0 |
| Addition.AddStep | include/ctbignum/addition.hpp:49-53 | the two wrapped comparisons (sum < aa) OR (res < sum) give the exact carry of aa + b + carry |
| Addition.SubStep | include/ctbignum/addition.hpp:15-19 | (diff > aa) OR (res > diff) is the exact borrow of aa - b - borrow |
| Addition.MpSub | include/ctbignum/addition.hpp:9-23 | mp_sub is a - b modulo 2^(64N) |
| Addition.MpSubCarryOut | include/ctbignum/addition.hpp:25-40 | mp_sub_carry_out holds mp_sub in the low N limbs and a borrow limb that is 1 exactly when a < b |
| Addition.MpAddIgnoreLastCarry | include/ctbignum/addition.hpp:43-57 | mp_add_ignore_last_carry is a + b, or a + b - 2^(64N) when the sum overflows |
| Addition.Add | verification/add.cpp:13-28 | add returns N+1 limbs holding exactly a + b, with a top limb of 0 or 1 and the low limbs equal to the wrapped sum |
| Addition.AddWide | include/ctbignum/invariant_div.hpp:84 | add of different lengths is exact: one limb more than the longer operand |
| Addition.AddCommutes | verification/add.cpp:13-28 | add(a, b) == add(b, a) |
| Addition.Subtract | include/ctbignum/division.hpp:84-88 | subtract gives max(N1,N2)+1 limbs: a - b with top limb 0 when a >= b, and 2^(64 max) + a - b below a top limb 1 when a < b |
| Addition.SubtractIfNotBelow | include/ctbignum/montgomery.hpp:51-53 | the conditional subtraction `if (!greater_than(m, r)) r = mp_sub(r, m)` gives r - m when r >= m and r otherwise |
| Addition.ModAdd | include/ctbignum/addition.hpp:59-76 | for a + b < 2m the result is (a + b) mod m, including when the sum carries out of the top limb |
| Addition.Accumulate | include/ctbignum/addition.hpp:85-101 | accumulate adds b into the low limbs of accum, with the carry landing in limb N2 when N1 > N2, and is exact when the sum fits |
| Addition.ModAddVector | test/src/unit-tests.cpp:37-65 | mod_add of 2^127 + 2^127 modulo the two-limb prime gives the expected limbs |
| Addition.ModAddOfModulus | test/src/unit-tests.cpp:90-102 | p + 0 mod p is zero |
| Addition.SubtractionVectors | test/src/unit-tests.cpp:67-88 | 15 - 10 = 5, 10 - 15 borrows, and (10 - 15 mod 2^128) + 6 = 1 |
| Mult.MulStep | include/ctbignum/mult.hpp:40-43 | one 128-bit multiply-accumulate never overflows, and splits into a low word and a carry below 2^64 |
| Mult.ShortMul | include/ctbignum/mult.hpp:14-27 | short_mul has N+1 limbs holding exactly a * b |
| Mult.Mul | include/ctbignum/mult.hpp:29-49 | mul has M+N+padding limbs holding exactly u * v |
| Mult.MulCommutes | include/ctbignum/mult.hpp:29-49 | mul(u, v) == mul(v, u) |
| Mult.PartialMul | include/ctbignum/mult.hpp:51-73 | partial_mul<L> is u * v modulo 2^(64L) |
| Mult.PartialMulIsMul | include/ctbignum/mult.hpp:51-73 | partial_mul with L = M+N is mul |
| Mult.Mul128Correct | include/ctbignum/mult.hpp:76-99 | mul128 is the high word floor(a b / 2^64) of the 128-bit product |
| Mult.Mul2StepIsMulStep | include/ctbignum/mult.hpp:111-114 | the product split into low word and mul128, with the running high word added through accumulate, is the same step as mul's |
| Mult.Mul2 | include/ctbignum/mult.hpp:104-120 | mul2 as written is the product when no row's last high word is needed |
| Mult.Mul2Corrected | include/ctbignum/mult.hpp:104-120 | mul2 storing each row's final high word is exactly a * b |
| Mult.Mul2IsMul | include/ctbignum/mult.hpp:104-120 | corrected mul2 equals mul, and as-written mul2 equals mul when the rows fit |
| Mult.Mul2DropsHighWord | include/ctbignum/mult.hpp:107-118 | mul2([2^64-1], [2^64-1]) is 1 while the product is (2^64-1)^2 |
| Mult.MulVector | test/src/unit-tests.cpp:107-114 | the first multiplication test vector |
| Mult.Mul2Vector | test/src/unit-tests.cpp:115-125 | mul and mul2 both give the second test vector |
| Power.One | include/ctbignum/pow.hpp:35 | big_int<N>{1} has value 1 |
| Power.TruncatedPow | include/ctbignum/pow.hpp:32-52 | pow(base, exp) is base^exp modulo 2^(64N), 1 for exp = 0, after one round per bit of exp |
| Division.ShortDiv | include/ctbignum/division.hpp:16-28 | short_div returns q and a one-limb r with u = q v + r and r < v: the quotient and remainder |
| Division.ShortDivVector | test/src/unit-tests.cpp:307-325 | short_div of the test's dividend by 2893462387 returns quotient limbs [4182905975247458, 0] and remainder [936917791] |
| Division.Refine | include/ctbignum/division.hpp:76-82 | the D3 correction loop only lowers qhat |
| Division.RefineNoWrap | include/ctbignum/division.hpp:77 | the 128-bit comparisons of the correction loop do not wrap |
| Division.RefineBounds | include/ctbignum/division.hpp:73-82 | after the correction loop qhat is the true digit or one more, and fits in a limb |
| Division.EstimateBounds | include/ctbignum/division.hpp:73-82 | with a normalized divisor the two-limb estimate is at most 2^64+1, and the loop lowers it at most twice |
| Division.EstimateDigit | include/ctbignum/division.hpp:69-82 | the same bounds stated on the window of us and the normalized divisor |
| Division.SubtractWindow | include/ctbignum/division.hpp:84-99 | D4-D6: multiply-subtract with add-back gives the exact digit and the window's remainder |
| Division.DivideWindow | include/ctbignum/division.hpp:67-101 | one round of the main loop yields digit floor(w / v) and remainder w mod v for the current window |
| Division.Normalize | include/ctbignum/division.hpp:57-62 | shifting v left until its top limb has bit 63 set gives v 2^k with k <= 63 |
| Division.KnuthRounds | include/ctbignum/division.hpp:67-101 | the rounds keep us + v q equal to the shifted dividend and end with us < v |
| Division.KnuthDiv | include/ctbignum/division.hpp:33-104 | knuth_div returns floor(u / v) and u mod v for a divisor of tight length >= 2 |
| Division.DivV | include/ctbignum/division.hpp:123-134 | div_v picks short or Knuth division by the run-time tight length; the result is quotient and remainder in both cases |
| Division.Div | include/ctbignum/division.hpp:107-121 | div<L> with L = 1 is short division by v[0], otherwise Knuth division; with the true tight length, quotient and remainder |
| Division.KnuthDivVector | test/src/unit-tests.cpp:279-305 | div(u, v) on the test's literals returns a quotient whose first three limbs are 2^128 - 1 and the listed four-limb remainder |
| InvariantDiv.MagicQuotient | include/ctbignum/invariant_div.hpp:53-87 | with m = floor(p t / d) + 1 and d <= t, floor(m x / (p t)) = floor(x / d) for every x < p |
| InvariantDiv.Ell | include/ctbignum/invariant_div.hpp:33 | ell = bit_length(d - 1) is the least power of two at or above d: d <= 2^ell < 2d |
| InvariantDiv.PrecomputeMPrimeNontight | include/ctbignum/invariant_div.hpp:28-42 | m' has N limbs with 2^(64N) + m' = floor(2^(64N) 2^ell / d) + 1 |
| InvariantDiv.PrecomputeMPrime | include/ctbignum/invariant_div.hpp:44-49 | the tight m' keeps the same value and is MPrime |
| InvariantDiv.MPrime | include/ctbignum/invariant_div.hpp:44-49 | the multiplier is tight, below 2^(64N), and satisfies the Granlund–Montgomery equation |
| InvariantDiv.MultiplyShift | include/ctbignum/invariant_div.hpp:82-86 | t1 = high half of m' n; q = (t1 + (n - t1)/2) >> (ell - 1) is floor(n / d) |
| InvariantDiv.AverageWithHigh | include/ctbignum/invariant_div.hpp:82-84 | t1 = floor(m' n / 2^(64N)) <= n and the sum is floor((n + t1) / 2) |
| InvariantDiv.Quotient | include/ctbignum/invariant_div.hpp:53-88 | quotient is floor(n / d) for a tight divisor pack, and 0 when the pack is longer than n |
| InvariantDiv.Mod | include/ctbignum/invariant_div.hpp:90-98 | mod is n mod d, and n itself when the divisor pack is longer |
| InvariantDiv.QuotientRemainder | include/ctbignum/invariant_div.hpp:100-111 | div returns both floor(n / d) and n mod d |
| InvariantDiv.MultiplyShiftAsWritten | include/ctbignum/invariant_div.hpp:82-86 | the quotient formula built on the written shift_right has N limbs |
| InvariantDiv.MultiplyShiftAgrees | include/ctbignum/invariant_div.hpp:83-85 | when (ell - 1) mod 64 != 0 the written formula is floor(n / d) |
| InvariantDiv.QuotientAsWritten | include/ctbignum/invariant_div.hpp:53-88 | quotient as written is exact unless its final shift count is zero |
| InvariantDiv.QuotientShiftCounterexample | include/ctbignum/invariant_div.hpp:83-85 | n = 2^65, d = 2: quotient as written is 2^64 + 1, the true quotient 2^64 |
| InvariantDiv.LongPackCounterexample | include/ctbignum/invariant_div.hpp:70-71 | n = [7], d = [5, 0]: the long-pack branch returns 0 and 7, while 7 / 5 = 1 rem 2 |
| InvariantDiv.QuotientRemainderOfPack | include/ctbignum/invariant_div.hpp:100-111 | division by any pack of value >= 1 (trimmed to its tight length first) gives quotient and remainder |
| InvariantDiv.DivisionVectors | test/src/unit-invariantdiv.cpp:21-38 | the three invariant-division test vectors: quotients 97 and 5403231874751241207206728823349, remainder 299173053704355103264600 |
| Barrett.FullEstimate | include/ctbignum/barrett.hpp:71-72 | with the full mu, the estimate floor(floor(x / b^(k-1)) mu / b^(k+1)) is within 2 below floor(x / m) |
| Barrett.TruncatedEstimate | include/ctbignum/barrett.hpp:71-72 | with mu's low k-1 limbs dropped, the estimate stays within 2 when x (b^(k-1) + 1) <= b^(2k) |
| Barrett.RemainderEstimate | include/ctbignum/barrett.hpp:74-80 | r is x - q3 m modulo b^(k+1), with b^k added when the subtraction borrows |
| Barrett.FinalSubtractions | include/ctbignum/barrett.hpp:82-86 | two conditional subtractions of m leave r mod m when r < 3m |
| Barrett.ReduceAsWritten | include/ctbignum/barrett.hpp:71-80 | the estimate and correction as written leave a value below 3m congruent to x when x is in the truncated range |
| Barrett.Reduce | include/ctbignum/barrett.hpp:71-80 | with the full mu and no borrow branch, every x < b^(2k) gives a value below 3m congruent to x |
| Barrett.BarrettReduction | include/ctbignum/barrett.hpp:59-89 | barrett_reduction as written is x mod m for x in the truncated range |
| Barrett.BarrettReductionCorrected | include/ctbignum/barrett.hpp:59-89 | Barrett reduction with the full mu is x mod m for every x < b^(2k) |
| Barrett.SmallQuotientSuffices | include/ctbignum/barrett.hpp:59-89 | floor(x / m) < 2^63 puts x in the truncated range |
| Barrett.PrecomputeMu | include/ctbignum/barrett.hpp:16-21 | mu = floor(b^(2k) / m), with the parameters Barrett needs |
| Barrett.BarrettReductionFixed | include/ctbignum/barrett.hpp:24-57 | the modulus-as-template overload computes mu itself and is x mod m in the truncated range |
| Barrett.BarrettVector | test/src/unit-tests.cpp:390-414 | the Barrett test vector lies in the truncated range and reduces to the expected limbs |
| Barrett.TruncatedMuCounterexample | include/ctbignum/barrett.hpp:71-72 | x = (b^2 - 6)^2, m = b^2 - 5: the written reduction is b^2 - 14, while x mod m = 1 |
| Barrett.BorrowCounterexample | include/ctbignum/barrett.hpp:79-80 | x = b^3, m = b + 1: the borrow branch leads to b^2 - b - 2, while x mod m = b |
| Montgomery.MontgomeryReduction | include/ctbignum/montgomery.hpp:13-56 | for A < m R and m m' = -1 mod 2^64, the result r < m satisfies r R = A (mod m) |
| Montgomery.RedcStepHolds | include/ctbignum/montgomery.hpp:37-47 | each round clears limb i of the accumulator, keeps it below m (R + b^i) and keeps its residue |
| Montgomery.MontgomeryMul | include/ctbignum/montgomery.hpp:103-128 | as written, for y < m and m + y <= R, the result r < m satisfies r R = x y (mod m) |
| Montgomery.MontgomeryMulCorrected | include/ctbignum/montgomery.hpp:103-128 | with one more accumulator limb the same holds for every y < m |
| Montgomery.MulRoundSpec | include/ctbignum/montgomery.hpp:115-122 | one round is exactly (A + x_i y + u_i m) / 2^64, and stays below m + y |
| Montgomery.MulIsReduction | include/ctbignum/montgomery.hpp:103-128 | for x, y < m, montgomery_mul(x, y) == montgomery_reduction(mul(x, y)) |
| Montgomery.MulAsWrittenIsReduction | include/ctbignum/montgomery.hpp:103-128 | the as-written montgomery_mul agrees with montgomery_reduction(mul(x, y)) while m + y <= R |
| Montgomery.ReductionVector | test/src/unit-tests.cpp:226-236 | the REDC test vector: the modulus's mprime and the expected two limbs |
| Montgomery.MulCarryLost | include/ctbignum/montgomery.hpp:113-121 | m = 2^64 - 1, x = y = 2^64 - 2: as written 0, corrected 1 |
| ModExp.NextBit | include/ctbignum/mod_exp.hpp:70-71 | the low bit and the exponent shifted right by one are exp mod 2 and floor(exp / 2) |
| ModExp.Reduce | include/ctbignum/mod_exp.hpp:73-77 | the product reduction returns x mod m in the regime of the chosen variant |
| ModExp.InitialBase | include/ctbignum/mod_exp.hpp:62-67 | the starting base is at most m and congruent to a |
| ModExp.ModExpWith | include/ctbignum/mod_exp.hpp:47-80 | exp = 0 gives 1 before the m = 1 check gives 0; otherwise a^exp mod m after one round per exponent bit |
| ModExp.ModExpAsWritten | include/ctbignum/mod_exp.hpp:47-80 | mod_exp on the as-written Barrett reduction is a^exp mod m when m and a/m are below 2^63 |
| ModExp.ModExpCorrected | include/ctbignum/mod_exp.hpp:47-80 | on the corrected Barrett reduction mod_exp is a^exp mod m for every a and m >= 2 |
| ModExp.Constants | include/ctbignum/mod_exp.hpp:21-22 | R mod m and R^2 mod m |
| ModExp.EnterDomain | include/ctbignum/mod_exp.hpp:24-25 | the starting result is the Montgomery form of 1 and the base the Montgomery form of a |
| ModExp.DomainMul | include/ctbignum/mod_exp.hpp:37-41 | Montgomery multiplication of two Montgomery forms is the form of the product |
| ModExp.DomainRounds | include/ctbignum/mod_exp.hpp:33-42 | the square-and-multiply loop leaves the Montgomery form of a^exp, after BitLength(exp) rounds |
| ModExp.LeaveDomainMul | include/ctbignum/mod_exp.hpp:44 | multiplying by 1 leaves the Montgomery domain: the residue itself |
| ModExp.ModExpMontgomeryWith | include/ctbignum/mod_exp.hpp:13-45 | mod_exp_montgomery returns 1 for exp = 0, 0 for m = 1, and otherwise a^exp mod m |
| ModExp.ModExpMontgomeryAsWritten | include/ctbignum/mod_exp.hpp:13-45 | as written it is a^exp mod m when 2m <= R |
| ModExp.ModExpMontgomeryCorrected | include/ctbignum/mod_exp.hpp:13-45 | on the corrected Montgomery multiplication it is a^exp mod m for every odd m with its mprime |
| Gcd.EuclidBezout | include/ctbignum/gcd.hpp:43-63 | the recursion's triple (g, s, t) satisfies s a + t b = g |
| Gcd.EuclidIsGcd | include/ctbignum/gcd.hpp:43-63 | g divides a and b, and every common divisor divides g |
| Gcd.EuclidBound | include/ctbignum/gcd.hpp:58-63 | the coefficients stay within -b..b and -a..a, so the modular coefficients fit N limbs |
| Gcd.NoInverseUnlessCoprime | include/ctbignum/gcd.hpp:98-99 | when gcd(x, m) != 1 no v has x v = 1 (mod m) |
| Gcd.ExtGcdImpl | include/ctbignum/gcd.hpp:17-65 | ext_gcd_impl returns g, s mod 2^(64N), t mod 2^(64N) of the Euclid recursion |
| Gcd.UndetectedZeroPack | include/ctbignum/gcd.hpp:37-49 | a zero first pack shorter than the second fails the type test for zero, has tight length 0, and leaves the following division without a valid divisor |
| Gcd.ExtGcd | include/ctbignum/gcd.hpp:78-86 | ext_gcd pads to the longer pack; the first block is gcd(a, b), and Bézout holds modulo 2^(64N); a zero first pack must not be shorter than the second |
| Gcd.ModInv | include/ctbignum/gcd.hpp:88-106 | mod_inv fails exactly when limb 0 of g is not 1, and otherwise returns the raw coefficient modulo 2^(64N), trimmed to tight length; a zero x shorter than m is excluded, as for ext_gcd |
| Gcd.LimbCheckCounterexample | include/ctbignum/gcd.hpp:98 | x = 2^64 + 1, m = 2 (2^64 + 1): gcd 2^64 + 1 passes the limb-0 check |
| Gcd.CoefficientCounterexample | include/ctbignum/gcd.hpp:102-104 | mod_inv(3, 7) returns 2^64 - 2, and 3 (2^64 - 2) mod 7 = 0 |
| Gcd.ModInvCorrected | include/ctbignum/gcd.hpp:88-106 | fails exactly when gcd(x, m) != 1 (or m = 0), and otherwise returns the inverse below m |
| ModInverse.RoundPreserves | include/ctbignum/mod_inv.hpp:45-68 | a round keeps a = u x, b = v x (mod n), keeps the common divisors of (a, b) equal to those of (x, n), and halves a b at least |
| ModInverse.StartInvariant | include/ctbignum/mod_inv.hpp:38-41 | a = x, b = n, u = 1, v = 0 satisfy the invariant |
| ModInverse.Finish | include/ctbignum/mod_inv.hpp:43-70 | after 2 bit_length(n) rounds a = 0, b = gcd(x, n) and x v = gcd (mod n) |
| ModInverse.SubtractMod | include/ctbignum/mod_inv.hpp:56-62 | the u update is u - v modulo n, adding n first when u < v |
| ModInverse.HalveMod | include/ctbignum/mod_inv.hpp:64-68 | u / 2 modulo n: (u + n) / 2 when u is odd, and stays below n |
| ModInverse.RoundLimbs | include/ctbignum/mod_inv.hpp:47-68 | the limb-level iteration computes Round on the numbers |
| ModInverse.ModInv | include/ctbignum/mod_inv.hpp:31-71 | for odd n >= 3 and x < n, v < n and x v = gcd(x, n) (mod n), so 1 when they are coprime; 2 bit_length(n) rounds |
| DecimalLiterals.DecimalConcat | include/ctbignum/decimal_literals.hpp:37-40 | the value of s followed by t is value(s) 10^|t| + value(t) |
| DecimalLiterals.TenPowFits | include/ctbignum/decimal_literals.hpp:32 | 1 + 10 len / 192 limbs hold 10^len, so no step of the loop wraps |
| DecimalLiterals.CharsToBigInt | include/ctbignum/decimal_literals.hpp:26-42 | chars_to_big_int yields max(L, 1 + 10 len/192) limbs holding exactly the decimal value |
| DecimalLiterals.MinimalLimbs | include/ctbignum/decimal_literals.hpp:63 | the shortest limb sequence for v: one zero limb for 0, else tight |
| DecimalLiterals.ZLiteral | include/ctbignum/decimal_literals.hpp:53-65 | the _Z literal is the decimal value, cut to tight length but with one limb kept for zero |
| DecimalLiterals.InitializationVector | test/src/unit-init.cpp:11-19 | the initialization test's literal has limbs [1315566964, 326042948, 19140048] |

## Left out

- Input and output are not modelled: io.hpp, print.hpp and the string constructors in initialization.hpp are outside the arithmetic core. The field class Zq (field.hpp) is a wrapper over the modelled operations.
- The limb type is fixed to 64-bit words. The 32-bit limb instantiation of the string-initialization test (test/src/unit-tests.cpp:187-198) is not modelled.
- Compile-time evaluation is not modelled as such; a constant-evaluated call and its run-time counterpart compute the same value here. Constant-time behaviour (the ct-verif harness) is not modelled either.
- Several helpers are called by the core but defined in headers that are not part of this model: subtract, add with N+1 limbs, add_ignore_carry, subtract_ignore_carry, to_length, bit_length, join, take_first, add_same and to_big_int. Each is modelled from the way the core uses it:
  - subtract is Addition.Subtract;
  - add is Addition.Add or Addition.AddWide;
  - add_ignore_carry is Addition.MpAddIgnoreLastCarry;
  - subtract_ignore_carry is Addition.MpSub;
  - to_length is Slicing.ToLength;
  - bit_length is Utility.BitLength;
  - join is sequence concatenation.
- Gcd.ExtGcd and Gcd.ModInv: a zero first pack with fewer limbs than the second is excluded. The source's zero test compares pack types (gcd.hpp:37-39), so such a pack is not recognised as zero. The source then divides by it with tight length 0 (gcd.hpp:48-49), and constant evaluation fails (Gcd.UndetectedZeroPack). Gcd.ModInvCorrected pads both packs first and handles this case.
- Montgomery.MulRound: `skip<1, 1>(A)` (montgomery.hpp:91,121) passes two template arguments, while skip in slicing.hpp:38-43 takes one. The model reads it as skip<1> followed by pad<1>, the only reading that fits the assignment back to the (N+1)-limb accumulator.
- Division.KnuthDiv: a divisor whose top bit is already set gives k = 0. The model then uses the exact shift with k = 0. The source evaluates `x >> 64` and `x << 64` (bitshift.hpp:15,30,33), which is undefined in C++ and ill-formed in constant evaluation. BitShift.ShlMasked and BitShift.ShrMasked read it as the count-mod-64 result of x86 hardware, which is only one possible run-time behaviour.
- Division.DivV and Division.Div: they use the same k = 0 exact shift as KnuthDiv.
- Barrett.PrecomputeMu and InvariantDiv.PrecomputeMPrimeNontight: their divisions also use the exact k = 0 shift.
- InvariantDiv.Quotient, InvariantDiv.Mod and InvariantDiv.QuotientRemainder:
  - Shift: they use the exact shift. The written shift is modelled by InvariantDiv.QuotientAsWritten, which is proved exact only when (ell - 1) mod 64 != 0.
  - Divisor packs: a divisor pack of at most |n| limbs must be tight (InvariantDiv.DivisorPack, Utility.ConstantDivisor). A pack with zero top limbs and at most |n| limbs is not modelled, because the precomputation's Knuth division needs the tight length. A pack longer than n is modelled; it is the long-pack finding.
- Division.KnuthDiv: the loop counter is `int j = M` with an unsigned M = NplusM - N. This conversion is modelled as "no rounds" when the divisor's tight length is one more than the dividend's length, which gives q = 0 and rem = u.
- Division.Div: meta_div (division.hpp:209-222) sits inside a comment block, yet gcd.hpp:49 calls it. Division.Div stands in for it: a declared length of 1 means short division and anything else means Algorithm D.
- InvariantDiv.Quotient: the test `d == big_int<1,T>{1}` compares arrays of different lengths. It is read as "the value of d is 1".
- DecimalLiterals.ZLiteral: `to_big_int(num) == big_int<1,T>{}` is read in the same way, as "the value is 0".
- DecimalLiterals.CharsToBigInt: only the digits 0-9 are modelled. The literal operator receives only decimal digits from the C++ grammar. Digit separators and other bases are not modelled.
- Gcd.ExtGcd: the gcd test vector (test/src/unit-tests.cpp:328-347) is not proved, because unfolding Euclid on 100-bit literals is too costly for the solver. The same holds for the modular-inverse vector (test/src/unit-tests.cpp:376-386).
- Gcd.ModInvCorrected: for a zero modulus it reports no inverse, because there are no residues modulo 0. This is a choice of the corrected definition. The source returns a coefficient when x = 1.
- ModExp.ModExpWith, ModExp.ModExpAsWritten and ModExp.ModExpCorrected: a base with more limbs than the modulus must be greater than the modulus. Otherwise the copy loop at mod_exp.hpp:65-66 writes a.size() limbs into the modulus-sized base, which is undefined behaviour, so the model does not give that case a result.
- ModExp.ModExpAsWritten:
  - It is proved only when m < 2^63 and a / m < 2^63 (ModExp.BarrettRegime), which is weaker than the source's implied promise for every modulus. Outside that range the as-written Barrett reduction can be wrong (Barrett.TruncatedMuCounterexample).
  - The modular-exponentiation test vector (test/src/unit-tests.cpp:416-445) is not proved.
- ModExp.ModExpMontgomeryWith:
  - mprime is a parameter. The integer_sequence overload of montgomery_mul (montgomery.hpp:63-98) uses an mprime that its body never defines.
  - The base must have as many limbs as the modulus, because montgomery_mul takes equal-length arrays.
- ModExp.ModExpMontgomeryAsWritten: it is proved only when 2m <= R, the range in which the as-written Montgomery multiplication keeps its carry.
- Montgomery.MontgomeryMul: the multiplication test vector (test/src/unit-tests.cpp:240-262) is not proved separately; Montgomery.MulAsWrittenIsReduction states the property that test checks. The montgomery_reduction overload that computes mprime itself (test/src/unit-tests.cpp:265-274) is not part of this model's source files.
- ModInverse.ModInv:
  - The ensures hold only for odd n >= 3 and x < n. For n = 1 the initial u = 1 is not below n; for even n the algorithm gives no inverse and the source promises none.
  - The random-prime test (test/src/unit-modinv.cpp:37-62) is not proved; the model's ensures state that test's property for every odd n. The 256-bit vector (test/src/unit-modinv.cpp:64-74) is also not proved.
- Mult.Mul2: it is proved to equal the product only when no row needs its final high word (Mult.RowsFit). This is the mul2 finding below.
- Barrett.BarrettReduction: it is proved only in the truncated range. This follows from the two Barrett findings below.
- Barrett.BarrettReductionFixed: it is proved only in the truncated range. The template-modulus overload (barrett.hpp:24-57) repeats the truncated-mu estimate and the borrow branch, so the same two Barrett findings apply.
- Montgomery.MontgomeryMul: it is proved only for m + y <= R. This is the Montgomery finding below.

## Findings

In the table, b = 2^64 and R = 2^(64N).

| source | as written | input that shows it | evidently intended | confidence | as-written member | corrected member |
|---|---|---|---|---|---|---|
| include/ctbignum/bitshift.hpp:30-33 | shift_left by k = 0 shifts a word by 64 - k = 64 | shift_left([1, 0], 0) under the count-mod-64 reading gives [1, 1, 0] | a shift by 0 returns the number unchanged (undefined behaviour in C++ as written) | high, not executed | BitShift.ZeroShiftLeftCounterexample | BitShift.ShiftLeft |
| include/ctbignum/bitshift.hpp:15 | shift_right by k = 0 shifts the next word left by 64 - k = 64 | shift_right([0, 1], 0) under the count-mod-64 reading gives [1, 1] | a shift by 0 returns the number unchanged (undefined behaviour in C++ as written) | high, not executed | BitShift.ZeroShiftRightCounterexample | BitShift.ShiftRight |
| include/ctbignum/invariant_div.hpp:83-85 | quotient shifts by (ell - 1) % 64, which is 0 for d = 2 | n = [0, 2] (2^65), d = 2: the result is 2^64 + 1 | floor(n / d) = 2^64 | high, not executed | InvariantDiv.QuotientShiftCounterexample | InvariantDiv.Quotient |
| include/ctbignum/barrett.hpp:71-72 | the quotient estimate uses skip<N2-1>(mu), dropping mu's low limbs | x = (b^2 - 6)^2, m = b^2 - 5, mu = b^2 + 5: the result is b^2 - 14 | x mod m = 1 | high, not executed | Barrett.TruncatedMuCounterexample | Barrett.BarrettReductionCorrected |
| include/ctbignum/barrett.hpp:79-80 | when the subtraction borrows, b^N2 is added to an already wrapped r | x = b^3, m = b + 1: the result is b^2 - b - 2 | x mod m = b | high, not executed | Barrett.BorrowCounterexample | Barrett.BarrettReductionCorrected |
| include/ctbignum/montgomery.hpp:113-121 | the N+1-limb accumulator loses the top carry of A + x_i y + u_i m | m = 2^64 - 1, mprime = 1, x = y = 2^64 - 2: the result is 0 | x y R^(-1) mod m = 1 | high, not executed | Montgomery.MulCarryLost | Montgomery.MontgomeryMulCorrected |
| include/ctbignum/mult.hpp:107-118 | mul2 never stores a row's final high word | mul2([b - 1], [b - 1]) gives 1 | (b - 1)^2 | high, not executed | Mult.Mul2DropsHighWord | Mult.Mul2Corrected |
| include/ctbignum/invariant_div.hpp:70-71 | a divisor pack longer than n gives quotient 0, whatever its value | n = [7], d = [5, 0]: quotient 0, remainder 7 | quotient 1, remainder 2 | medium, not executed | InvariantDiv.LongPackCounterexample | InvariantDiv.QuotientRemainderOfPack |
| include/ctbignum/gcd.hpp:98 | mod_inv tests only limb 0 of the gcd | x = b + 1, m = 2 (b + 1): gcd = b + 1 passes the test and a coefficient is returned | no inverse | high, not executed | Gcd.LimbCheckCounterexample | Gcd.ModInvCorrected |
| include/ctbignum/gcd.hpp:102-104 | mod_inv returns the Bézout coefficient modulo 2^(64N), not modulo m | mod_inv(3, 7) gives b - 2, and 3 (b - 2) mod 7 = 0 | the inverse 5 | high, not executed | Gcd.CoefficientCounterexample | Gcd.ModInvCorrected |
