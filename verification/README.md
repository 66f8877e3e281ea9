# Table sine, cosine and exact multiply of the MultiWii math library

This project models the integer core of `PlatformIO/src/myMath.cpp`, the fast
math helpers of the flight controller's attitude code:

- `pgm_sinLUT`, the 91-entry table of 1000 * sin(d degrees) for whole degrees
  0 .. 90 (module `SinTable`);
- `sin_approx` and `cos_approx`, which take an angle in tenths of a degree
  (`int16_t`, 1800 is half a turn) and work in five steps: record the sign,
  reduce modulo 3600, fold into the first quadrant [0, 900] with a quadrant
  sign, then either return the small-angle value `angle * m * n * RADX10` below
  105 (10.5 degrees) or read the table at whole degrees `angle / 10` and return
  `table * m * n / 1000` (module `TableSine`);
- `mul`, the exact `int16_t` x `int16_t` -> `int32_t` multiply, both the
  portable `(int32_t)a*b` and the AVR `MultiS16X16to32` assembly, as the
  integer identity behind its four 8 x 8 bit partial products (module
  `Multiply`);
- the C integer conversions these rely on (`int16_t` and `int32_t` wrap-around,
  module `Fixed`).

The C functions return `float`. The model keeps the result exact and records
the branch that produced it: `Linear(k)` is k * RADX10 and `Scaled(v)` is
v / 1000. RADX10 is a constant of `myMath.h`, which is not part of this model;
`Approx.Value(radx10)` turns a result into a real number for any value of it.

The properties are stated against an independent reference definition of the
quadrant fold, `FoldsTo(a, s, f)`: modulo a full turn, angle `a` lies at
`s * f` or at `1800 - s * f` with `s = +1 or -1` and `0 <= f <= 900`, so that
sin(a) = s * sin(f). The central lemma `SinApproxCharacterized` says that
whenever `a` folds to `(s, f)` in this sense, `sin_approx(a)` is `Linear(s * f)`
when `f < 105` and `Scaled(s * table[f / 10])` otherwise. Odd symmetry,
periodicity, the half-turn symmetries and the cosine identities all follow
from it.

The C conversions are modelled as they behave where `int` is 32 bits (the
ESP32 build): intermediate results are exact and only the store into an
`int16_t` wraps. `cos_approx(angle)` passes `900 - angle` to `sin_approx` as an
`int16_t`; for angles below -31867 that value wraps around by 2^16, which is
not a whole number of turns. `CosApproxAsWritten` models the C code with the
wrap; `CosApprox` is the cosine it evidently means, which adds a turn first and
is the one the cosine properties are about. The input -32768 of `sin_approx`
is also special, and `cos_approx(-31868)` reaches it: see "## Findings".

## Model

| member | source | states |
|---|---|---|
| Fixed.Abs | PlatformIO/src/myMath.cpp:134 | the `abs` of the reduction test is a natural number equal to the value or its negation |
| Fixed.ToInt16 | PlatformIO/src/myMath.cpp:128 | conversion to `int16_t` keeps the value modulo 2^16, lands in [-32768, 32767] and leaves in-range values unchanged (used for `angle = -angle` and for the argument of `sin_approx(900 - angle)` at line 169) |
| Fixed.ToUInt16 | PlatformIO/src/myMath.cpp:183-194 | the 16-bit result r1:r0 of `muls`, stored by `movw` and added by `add`/`adc`, keeps the product modulo 2^16 in [0, 65535], unchanged when it already fits |
| Fixed.ToUInt32 | PlatformIO/src/myMath.cpp:186-194 | the four accumulator bytes `%A0`..`%D0`, whose carry out of `%D0` is dropped, keep the sum modulo 2^32 in [0, 2^32), unchanged when it already fits |
| Fixed.ToInt32 | PlatformIO/src/myMath.cpp:205-210 | reading the four result registers as `int32_t` keeps the value modulo 2^32, lands in the `int32_t` range and leaves in-range values unchanged |
| SinTable.LutShape | PlatformIO/src/myMath.cpp:113-116 | the table has 91 entries, sin 0 = 0 and sin 90 degrees = 1000, and the entry for 10 degrees, the first one the table branch can read, is 174 |
| SinTable.LutRises | PlatformIO/src/myMath.cpp:113-116 | every entry is at most 1000 and each entry exceeds its predecessor by between 0 and 18 |
| SinTable.LutMonotone | PlatformIO/src/myMath.cpp:113-116 | the table is non-decreasing: for i <= j, entry i <= entry j |
| TableSine.Approx.Value | PlatformIO/src/myMath.cpp:152-161 | the real value `angle * m * n * RADX10` or `sin_value * m * n / 1000` that the float result stands for; for a positive RADX10 it is positive exactly when `Sign()` is 1 and negative exactly when `Sign()` is -1 |
| TableSine.ReduceTurn | PlatformIO/src/myMath.cpp:133-136 | the reduced angle is less than a turn in magnitude, a whole number of turns from the input, non-negative for a non-negative input and non-positive for a negative one (C's remainder keeps the dividend's sign), and unchanged when the input is already within a turn |
| TableSine.FoldQuadrant | PlatformIO/src/myMath.cpp:138-150 | the quadrant sign is +1 exactly for angles up to 1800; for an angle in [0, 3600) the folded angle lies in [0, 900] and folds the angle in the reference sense |
| TableSine.Fold | PlatformIO/src/myMath.cpp:126-150 | after sign removal, reduction and folding: m is -1 exactly for a negative input, the folded angle lies in [0, 900], and the input folds to (m * n, folded angle) in the reference sense |
| TableSine.FoldAsWritten | PlatformIO/src/myMath.cpp:126-150 | with the 16-bit `angle = -angle` the folded angle is still at most 900, and it equals `Fold` for every input but -32768 |
| TableSine.LutIndex | PlatformIO/src/myMath.cpp:157-158 | on the table branch the index lies in [10, 90], inside the 91-entry table, and is the whole number of degrees of the folded angle |
| TableSine.Evaluate | PlatformIO/src/myMath.cpp:152-161 | the linear branch is taken exactly when the folded angle is below 105; a table result has magnitude between 174 and 1000 |
| TableSine.SinApprox | PlatformIO/src/myMath.cpp:122-162 | a small-angle result k is a fold of the input (the input is +-k or 1800 -+ k modulo a turn) with magnitude below 105; a table result has magnitude between 174 and 1000 |
| TableSine.SinApproxAsWritten | PlatformIO/src/myMath.cpp:122-162 | the C code as written agrees with `SinApprox` on every input except -32768 |
| TableSine.CosApprox | PlatformIO/src/myMath.cpp:168-170 | for angles from -31867 up, where `900 - angle` fits in 16 bits, the cosine is the sine of `900 - angle`, as `cos_approx` computes it |
| TableSine.CosApproxAsWritten | PlatformIO/src/myMath.cpp:168-170 | the C cosine, with `900 - angle` stored into an `int16_t` and passed to the as-written sine, is the intended cosine for every angle from -31867 up |
| TableSine.SinApproxCharacterized | PlatformIO/src/myMath.cpp:139-161 | whenever the input folds to (s, f) in the reference sense, the linear branch is taken exactly when f < 105 and gives s * f, otherwise the result is s times the table entry at f / 10 |
| TableSine.FoldsToUnique | PlatformIO/src/myMath.cpp:138-150 | the reference fold of an angle is unique (its sign only when the fold is not 0), so the quadrant tests at 900, 1800 and 2700 cannot fold twice or disagree |
| TableSine.SinOdd | PlatformIO/src/myMath.cpp:126-161 | odd symmetry: sin(-a) is sin(a) with the sign flipped, for every a from -32767 up |
| TableSine.SinPeriodic | PlatformIO/src/myMath.cpp:133-136 | periodicity: sin(a + 3600) == sin(a) whenever a + 3600 fits in 16 bits, negative a included |
| TableSine.SinSupplement | PlatformIO/src/myMath.cpp:139-143 | sin(1800 - a) == sin(a) whenever 1800 - a fits in 16 bits |
| TableSine.SinHalfTurn | PlatformIO/src/myMath.cpp:144-150 | sin(a + 1800) is sin(a) with the sign flipped whenever a + 1800 fits in 16 bits |
| TableSine.SinLandmarks | PlatformIO/src/myMath.cpp:139-161 | sin 0 and sin 1800 are the linear value 0, sin 900 is exactly 1 and sin 2700 exactly -1, for any RADX10 |
| TableSine.SinSign | PlatformIO/src/myMath.cpp:138-161 | the result is positive on the upper half turn (0, 1800), negative on (1800, 3600) and zero on the axis, measured modulo a turn |
| TableSine.SinTableValueBounded | PlatformIO/src/myMath.cpp:157-161 | a table result is between -1 and 1 |
| TableSine.SinAdjacent | PlatformIO/src/myMath.cpp:138-161 | no jump between neighbouring angles on the same branch, also across 900, 1800 and 2700: linear results differ by at most one step, table results by at most 18 thousandths (nothing is claimed where the branch switches between folded angles 104 and 105) |
| TableSine.CosLandmarks | PlatformIO/src/myMath.cpp:168-170 | cos 0 = 1, cos 900 = 0, cos 1800 = -1, cos 2700 = 0 |
| TableSine.CosEven | PlatformIO/src/myMath.cpp:168-170 | cos(-a) == cos(a) for every a from -32767 up |
| TableSine.CosLeadsSin | PlatformIO/src/myMath.cpp:168-170 | cos(a) == sin(a + 900) wherever a + 900 fits in 16 bits, including the angles below -31867 |
| TableSine.CosWrapBreaksPhase | PlatformIO/src/myMath.cpp:168-170 | as written, cos_approx(-32000) reads the sine at -32636 and gives -0.391 where the cosine is sin(-31100) = 0.766, and cos_approx(-31868) gives +368 * RADX10 where the cosine is 0.588 |
| TableSine.MinInputBreaksPeriod | PlatformIO/src/myMath.cpp:126-136 | as written, sin_approx(-32768) is the linear value +368 while sin_approx(-29168), a whole turn away, is the table value -588; the corrected model gives -588 for both |
| Multiply.ProductBounds | PlatformIO/src/myMath.cpp:214-217 | a 16 x 16 bit signed product lies between -32768 * 32767 and 2^30 |
| Multiply.Mul | PlatformIO/src/myMath.cpp:214-217 | the 32-bit multiply returns the exact mathematical product, which lies in [-1073709056, 1073741824] |
| Multiply.LowByte | PlatformIO/src/myMath.cpp:181-190 | the low byte `%A1` / `%A2` that `mul` and `mulsu` read as unsigned lies in [0, 255] |
| Multiply.HighByte | PlatformIO/src/myMath.cpp:178-203 | the signed high byte lies in [-128, 127] and with the unsigned low byte makes up the value: a == aH * 256 + aL |
| Multiply.CrossBounds | PlatformIO/src/myMath.cpp:185-194 | a `mulsu` cross product of a signed and an unsigned byte fits in 16 signed bits |
| Multiply.AddPartial | PlatformIO/src/myMath.cpp:185-194 | borrowing from the top byte on a negative partial product and adding its 16 bits at byte offset 1 adds 256 * p to the accumulator modulo 2^32 |
| Multiply.ByteSplitProduct | PlatformIO/src/myMath.cpp:178-203 | the partial-product identity a * b == aH * bH * 2^16 + (aH * bL + aL * bH) * 2^8 + aL * bL |
| Multiply.Registers | PlatformIO/src/myMath.cpp:178-203 | the four result registers of the assembly (low-byte product, high-byte product, two cross products added with sign extension) are congruent to the product modulo 2^32 |
| Multiply.MulAvr | PlatformIO/src/myMath.cpp:205-210 | the assembly's registers, read as `int32_t`, are the exact product, as the commented-out `(int32_t)a*b` says |
| Multiply.MulBuildsAgree | PlatformIO/src/myMath.cpp:205-217 | the AVR and the portable `mul` return the same value for every pair of inputs |

## Left out

- `_sin`, `_cos` and `_atan` (myMath.cpp lines 12-35): float polynomial and rational approximations; `_cos` relies on the float rounding of `x + 25165824.0f` and `_atan` on the float bit layout. Their contracts are float error bounds.
- `_atan2` and `_atan2_v2` (lines 39-74): the angle comes from a float rational fit truncated to `int16_t`; only the +-1800 / 900 offsets are integer. `_atan2(0, 0)` divides 0 by 0 and `_atan2_v2(y, 0)` divides by zero before its axis case.
- `isqrt`, `InvSqrt` and `InvSqrt_v2` (lines 78-109): IEEE-754 bit reinterpretation with magic constants and a float Newton step.
- Float rounding of `(float)(angle * m * n) * RADX10` and `(float)(sin_value * m * n) / 1000`: results are exact tagged integers; the value of RADX10 (from `myMath.h`, not part of this model) is a parameter.
- The accuracy of the table and of the small-angle branch against the true sine (the "precision > 0.0009" comment): the model has no real sine function to compare with.
- `pgm_read_word` and PROGMEM storage: plain indexing into an immutable sequence.
- The AVR registers and flags of `MultiS16X16to32`: only the partial products, the borrow into the top byte and the 32-bit accumulation are modelled.
- The AVR build of `sin_approx` and `cos_approx`: there `int` is 16 bits, so `angle = -angle` for -32768 (line 128), `abs(angle)` of it (line 134) and `900 - angle` below -31867 (line 169) overflow `int` and have no defined result; `SinApproxAsWritten`, `FoldAsWritten` and `CosApproxAsWritten` model the ESP32 build, where `int` is 32 bits and only the store back into `int16_t` wraps.

## Findings

| source | as written | input that shows it | evidently intended | confidence | as-written member | corrected member |
|---|---|---|---|---|---|---|
| PlatformIO/src/myMath.cpp:126-136 | with a 32-bit `int`, `angle = -angle` stores back into `int16_t`, so -32768 stays -32768; `abs(angle) >= 3600` then holds, the truncating `%` leaves -368, the quadrant test takes it as first quadrant and the linear branch returns +368 * RADX10 (about +0.64) | `sin_approx(-32768)`, also reached by `cos_approx(-31868)` | the sine of -3276.8 degrees, which is a whole turn from -2916.8 degrees: the table value -0.588 that `sin_approx(-29168)` returns | medium; not executed (holds where `int` is 32 bits, the ESP32 build, with the usual modulo conversion to `int16_t`; on the 16-bit-`int` AVR build the negation overflows and the behaviour is undefined) | TableSine.SinApproxAsWritten, TableSine.MinInputBreaksPeriod | TableSine.SinApprox |
| PlatformIO/src/myMath.cpp:168-170 | with a 32-bit `int`, `900 - angle` is stored into the `int16_t` parameter of `sin_approx`; below -31867 it wraps by 2^16, which is 18 turns plus 73.6 degrees, so the phase is off by 73.6 degrees | `cos_approx(-32000)` reads the sine at -32636 and returns -0.391; `cos_approx(-31868)` returns +368 * RADX10 | the cosine, sin(angle + 900): 0.766 at -32000 and 0.588 at -31868 | medium; not executed (holds where `int` is 32 bits, the ESP32 build; on the AVR build `900 - angle` overflows `int` and is undefined) | TableSine.CosApproxAsWritten, TableSine.CosWrapBreaksPhase | TableSine.CosApprox |
