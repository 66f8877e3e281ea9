/** The table-based sine and cosine `sin_approx` / `cos_approx` on angles in
    tenths of a degree (1800 is half a turn).

    The C functions return a float; here the result is kept exact, tagged by
    the branch that produced it: `Linear(k)` is the small-angle value
    k * RADX10 and `Scaled(v)` the table value v / 1000. RADX10 (a constant of
    the library header) is a parameter of `Approx.Value`. */
module TableSine {
  import opened Fixed
  import opened SinTable

  datatype Approx = Linear(k: int) | Scaled(v: int)
  {
    /** The same kind of value with the opposite sign. */
    function Neg(): (r: Approx)
      ensures r.Linear? == Linear?
      ensures r.Sign() == -Sign()
    {
      match this
      case Linear(k) => Linear(-k)
      case Scaled(v) => Scaled(-v)
    }

    /** The real number the float result stands for. For a positive RADX10
        its sign is `Sign()`. */
    function Value(radx10: real): (r: real)
      ensures radx10 > 0.0 ==> (r > 0.0 <==> Sign() == 1)
      ensures radx10 > 0.0 ==> (r < 0.0 <==> Sign() == -1)
    {
      match this
      case Linear(k) => k as real * radx10
      case Scaled(v) => v as real / 1000.0
    }

    /** Sign of the value: 1, 0 or -1. */
    function Sign(): (r: int)
      ensures r == 0 <==> this == Linear(0) || this == Scaled(0)
      ensures -1 <= r <= 1
    {
      var x := if Linear? then k else v;
      if x > 0 then 1 else if x < 0 then -1 else 0
    }
  }

  /** The state of `sin_approx` after its first three steps: the sign `m` of
      the input, the quadrant sign `n`, and the angle folded into the first
      quadrant. */
  datatype Folded = Folded(m: int, n: int, angle: int)

  predicate IsSign(s: int)
  {
    s == 1 || s == -1
  }

  /** Reference definition of the quadrant fold: angle `a` lies, modulo a full
      turn, at s * f or at 1800 - s * f, with f in the first quadrant. Then
      sin(a) = s * sin(f). */
  ghost predicate FoldsTo(a: int, s: int, f: int)
  {
    && IsSign(s)
    && 0 <= f <= 900
    && (if s == 1 then SameTurn(a, f) || SameTurn(a, 1800 - f)
        else SameTurn(a, -f) || SameTurn(a, 1800 + f))
  }

  /** Two angles a whole number of turns apart. */
  ghost predicate SameTurn(a: int, b: int)
  {
    (a - b) % 3600 == 0
  }

  /** Step 2, `if (abs(angle) >= 3600) angle %= 3600;`, with C's remainder,
      which keeps the sign of the dividend. */
  function ReduceTurn(a: int): (r: int)
    ensures Abs(r) < 3600
    ensures SameTurn(a, r)
    ensures a >= 0 ==> r >= 0
    ensures a < 0 ==> r <= 0
    ensures Abs(a) < 3600 ==> r == a
  {
    if Abs(a) >= 3600 then
      (if a >= 0 then a % 3600 else -((-a) % 3600))
    else
      a
  }

  /** Step 3, the quadrant test. For a reduced angle the result lies in the
      first quadrant and folds the angle in the sense of `FoldsTo`. */
  function FoldQuadrant(m: int, a: int): (q: Folded)
    ensures q.m == m && IsSign(q.n) && q.angle <= 900
    ensures q.n == 1 <==> a <= 1800
    ensures 0 <= a < 3600 ==> 0 <= q.angle && FoldsTo(a, q.n, q.angle)
  {
    if a <= 900 then
      Folded(m, 1, a)                    // first quadrant
    else if 900 < a <= 1800 then
      Folded(m, 1, 1800 - a)             // second quadrant
    else if 1800 < a <= 2700 then
      Folded(m, -1, a - 1800)            // third quadrant
    else
      Folded(m, -1, 3600 - a)            // fourth quadrant
  }

  /** Steps 1-3 of `sin_approx`: record the sign, reduce modulo a turn, fold
      into [0, 900]. The magnitude of a negative input is an unbounded integer
      here (see `FoldAsWritten` for the 16-bit one). */
  function Fold(angle: Int16): (q: Folded)
    ensures IsSign(q.m) && IsSign(q.n)
    ensures q.m == -1 <==> angle < 0
    ensures 0 <= q.angle <= 900
    ensures FoldsTo(angle, q.m * q.n, q.angle)
  {
    var m, a := if angle < 0 then -1 else 1, Abs(angle);
    var q := FoldQuadrant(m, ReduceTurn(a));
    FoldsToNeg(a, q.n, q.angle);
    q
  }

  /** Steps 1-3 as the C code performs them where `int` is 32 bits (the
      ESP32 build): `angle = -angle` computes 32768 as an `int` and stores it
      back into an `int16_t`, so -32768 stays -32768, and the truncating `%`
      then leaves a negative angle. With a 16-bit `int` (the AVR build) the
      negation of -32768 overflows `int` itself and has no defined result. */
  function FoldAsWritten(angle: Int16): (q: Folded)
    ensures IsSign(q.m) && IsSign(q.n) && q.angle <= 900
    ensures angle != -0x8000 ==> q == Fold(angle)
  {
    var m, a := if angle < 0 then -1 else 1, if angle < 0 then ToInt16(-(angle as int)) else angle;
    FoldQuadrant(m, ReduceTurn(a))
  }

  /** Table index of a folded angle on the table branch: whole degrees, truncated. */
  function LutIndex(f: int): (i: int)
    requires 105 <= f <= 900
    ensures 10 <= i <= 90
    ensures 10 * i <= f < 10 * i + 10
  {
    f / 10
  }

  /** Steps 4-5: the linear small-angle branch below 10.5 degrees, otherwise
      the table read at whole degrees; both scaled by the signs m and n. */
  function Evaluate(q: Folded): (r: Approx)
    requires IsSign(q.m) && IsSign(q.n) && q.angle <= 900
    ensures r.Linear? <==> q.angle < 105
    ensures r.Scaled? ==> 174 <= Abs(r.v) <= 1000
  {
    if q.angle < 105 then
      Linear(q.angle * q.m * q.n)
    else
      var i := LutIndex(q.angle);
      LutShape();
      LutRises();
      LutMonotone(10, i);
      Scaled(SinLut[i] * q.m * q.n)
  }

  /** `sin_approx(angle)`. A small-angle result k is a fold of the angle
      (angle is +-k or 1800 -+ k modulo a turn); a table result lies between
      sin(10 degrees) and 1 in magnitude. */
  function SinApprox(angle: Int16): (r: Approx)
    ensures r.Linear? ==> Abs(r.k) < 105 && FoldsTo(angle, if r.k < 0 then -1 else 1, Abs(r.k))
    ensures r.Scaled? ==> 174 <= Abs(r.v) <= 1000
  {
    Evaluate(Fold(angle))
  }

  /** `sin_approx` with the 16-bit negation of the C code; it agrees with
      `SinApprox` on every input except -32768. */
  function SinApproxAsWritten(angle: Int16): (r: Approx)
    ensures angle != -0x8000 ==> r == SinApprox(angle)
  {
    Evaluate(FoldAsWritten(angle))
  }

  /** The cosine as `cos_approx` means it: the sine a quarter turn back,
      sin(900 - angle). Where `900 - angle` does not fit in 16 bits (angles
      below -31867) a whole turn is added to the angle first. */
  function CosApprox(angle: Int16): (r: Approx)
    ensures -31867 <= angle ==> r == SinApprox(900 - angle)
  {
    if angle < -31867 then SinApprox(900 - (angle + 3600)) else SinApprox(900 - angle)
  }

  /** `cos_approx(angle)` as the C code computes it with a 32-bit `int`:
      `900 - angle` is stored into the `int16_t` parameter of `sin_approx`, so
      below -31867 it wraps around by 2^16, which is not a whole number of
      turns, and the input -31868 reaches the input -32768 of the as-written
      sine. Where nothing wraps it is the intended cosine. */
  function CosApproxAsWritten(angle: Int16): (r: Approx)
    ensures -31867 <= angle ==> r == CosApprox(angle)
  {
    SinApproxAsWritten(ToInt16(900 - angle))
  }

  // ---------------------------------------------------------------------
  // The reference fold

  /** A witness for `SameTurn`: the number of whole turns between the angles. */
  lemma TurnsBetween(a: int, b: int) returns (k: int)
    requires SameTurn(a, b)
    ensures a - b == 3600 * k
  {
    k := (a - b) / 3600;
  }

  lemma SameTurnBy(a: int, b: int, k: int)
    requires a - b == 3600 * k
    ensures SameTurn(a, b)
  {
  }

  /** Folding the opposite angle flips the sign. */
  lemma FoldsToNeg(a: int, s: int, f: int)
    requires FoldsTo(a, s, f)
    ensures FoldsTo(-a, -s, f)
  {
    if s == 1 {
      if SameTurn(a, f) {
        var k := TurnsBetween(a, f);
        SameTurnBy(-a, -f, -k);
      } else {
        var k := TurnsBetween(a, 1800 - f);
        SameTurnBy(-a, 1800 + f, -k - 1);
      }
    } else {
      if SameTurn(a, -f) {
        var k := TurnsBetween(a, -f);
        SameTurnBy(-a, f, -k);
      } else {
        var k := TurnsBetween(a, 1800 + f);
        SameTurnBy(-a, 1800 - f, -k - 1);
      }
    }
  }

  /** Angles a whole number of turns apart fold alike. */
  lemma FoldsToCongruent(a: int, b: int, s: int, f: int)
    requires FoldsTo(a, s, f)
    requires SameTurn(a, b)
    ensures FoldsTo(b, s, f)
  {
    var j := TurnsBetween(a, b);
    var c := if s == 1 then (if SameTurn(a, f) then f else 1800 - f)
             else (if SameTurn(a, -f) then -f else 1800 + f);
    var k := TurnsBetween(a, c);
    SameTurnBy(b, c, k - j);
  }

  /** Folding the supplement 1800 - a keeps the fold. */
  lemma FoldsToSupplement(a: int, s: int, f: int)
    requires FoldsTo(a, s, f)
    ensures FoldsTo(1800 - a, s, f)
  {
    FoldsToNeg(a, s, f);
    var c := if s == 1 then (if SameTurn(a, f) then f else 1800 - f)
             else (if SameTurn(a, -f) then -f else 1800 + f);
    var k := TurnsBetween(a, c);
    SameTurnBy(1800 - a, 1800 - c, -k);
  }

  /** Half a turn on flips the sign of the fold. */
  lemma FoldsToHalfTurn(a: int, s: int, f: int)
    requires FoldsTo(a, s, f)
    ensures FoldsTo(a + 1800, -s, f)
  {
    var c := if s == 1 then (if SameTurn(a, f) then f else 1800 - f)
             else (if SameTurn(a, -f) then -f else 1800 + f);
    var k := TurnsBetween(a, c);
    if c == 1800 - f || c == 1800 + f {
      SameTurnBy(a + 1800, c - 1800, k + 1);
    } else {
      SameTurnBy(a + 1800, c + 1800, k);
    }
  }

  /** The fold read off the position of the angle on the circle, a % 3600. */
  lemma FoldsToResidue(a: int, s: int, f: int)
    requires FoldsTo(a, s, f)
    ensures s == 1 ==> a % 3600 == f || a % 3600 == 1800 - f
    ensures s == -1 ==> a % 3600 == 1800 + f || a % 3600 == 3600 - f || (f == 0 && a % 3600 == 0)
  {
    if s == 1 && SameTurn(a, f) {
      var k := TurnsBetween(a, f);
      ResidueOf(a, f, k);
    } else if s == 1 {
      var k := TurnsBetween(a, 1800 - f);
      ResidueOf(a, 1800 - f, k);
    } else if SameTurn(a, -f) && f == 0 {
      var k := TurnsBetween(a, 0);
      ResidueOf(a, 0, k);
    } else if SameTurn(a, -f) {
      var k := TurnsBetween(a, -f);
      ResidueOf(a, 3600 - f, k - 1);
    } else {
      var k := TurnsBetween(a, 1800 + f);
      ResidueOf(a, 1800 + f, k);
    }
  }

  /** An angle k turns from a position r on the circle has residue r. */
  lemma ResidueOf(a: int, r: int, k: int)
    requires 0 <= r < 3600 && a == r + 3600 * k
    ensures a % 3600 == r
  {
  }

  /** The fold of an angle is unique, up to the sign of a zero fold. */
  lemma FoldsToUnique(a: int, s: int, f: int, s': int, f': int)
    requires FoldsTo(a, s, f) && FoldsTo(a, s', f')
    ensures f == f'
    ensures f != 0 ==> s == s'
  {
    FoldsToResidue(a, s, f);
    FoldsToResidue(a, s', f');
  }

  // ---------------------------------------------------------------------
  // Properties of sin_approx

  /** `sin_approx` against the reference fold: whenever a folds to (s, f), the
      linear branch is taken exactly when f < 105 and yields s * f, and
      otherwise the table entry at f / 10 is read and signed by s. */
  lemma SinApproxCharacterized(a: Int16, s: int, f: int)
    requires FoldsTo(a, s, f)
    ensures SinApprox(a).Linear? <==> f < 105
    ensures f < 105 ==> SinApprox(a) == Linear(s * f)
    ensures 105 <= f ==> SinApprox(a) == Scaled(s * SinLut[f / 10])
  {
    var q := Fold(a);
    FoldsToUnique(a, q.m * q.n, q.angle, s, f);
    assert q.angle == f;
    if f < 105 {
      assert SinApprox(a) == Linear(f * q.m * q.n);
      SignedTimes(q.m, q.n, f, s);
    } else {
      assert SinApprox(a) == Scaled(SinLut[f / 10] * q.m * q.n);
      SignedTimes(q.m, q.n, SinLut[f / 10], s);
    }
  }

  /** Scaling by the two sign factors m and n is scaling by their product,
      and any sign does for zero. */
  lemma SignedTimes(m: int, n: int, x: int, s: int)
    requires IsSign(m) && IsSign(n) && IsSign(s)
    requires x == 0 || s == m * n
    ensures x * m * n == s * x
  {
  }

  /** Odd symmetry: only the sign factor m changes. */
  lemma SinOdd(a: Int16)
    requires -0x7FFF <= a
    ensures SinApprox(-a) == SinApprox(a).Neg()
  {
    var q := Fold(a);
    var s, f := q.m * q.n, q.angle;
    FoldsToNeg(a, s, f);
    SinApproxCharacterized(a, s, f);
    SinApproxCharacterized(-a, -s, f);
    NegTimes(s, f);
    if 105 <= f {
      NegTimes(s, SinLut[f / 10]);
    }
  }

  /** Periodicity: one full turn later the sine repeats. */
  lemma SinPeriodic(a: Int16)
    requires a + 3600 < 0x8000
    ensures SinApprox(a + 3600) == SinApprox(a)
  {
    var q := Fold(a);
    SameTurnBy(a, a + 3600, -1);
    FoldsToCongruent(a, a + 3600, q.m * q.n, q.angle);
    SinApproxCharacterized(a, q.m * q.n, q.angle);
    SinApproxCharacterized(a + 3600, q.m * q.n, q.angle);
  }

  /** sin(1800 - a) == sin(a): the second quadrant mirrors the first. */
  lemma SinSupplement(a: Int16)
    requires 1800 - a < 0x8000
    ensures SinApprox(1800 - a) == SinApprox(a)
  {
    var q := Fold(a);
    var s, f := q.m * q.n, q.angle;
    FoldsToSupplement(a, s, f);
    SinApproxCharacterized(a, s, f);
    SinApproxCharacterized(1800 - a, s, f);
  }

  /** sin(a + 1800) == -sin(a): half a turn flips the sign. */
  lemma SinHalfTurn(a: Int16)
    requires a + 1800 < 0x8000
    ensures SinApprox(a + 1800) == SinApprox(a).Neg()
  {
    var q := Fold(a);
    var s, f := q.m * q.n, q.angle;
    FoldsToHalfTurn(a, s, f);
    SinApproxCharacterized(a, s, f);
    SinApproxCharacterized(a + 1800, -s, f);
    NegTimes(s, f);
    if 105 <= f {
      NegTimes(s, SinLut[f / 10]);
    }
  }

  lemma NegTimes(s: int, x: int)
    requires IsSign(s)
    ensures -s * x == -(s * x)
  {
  }

  /** Landmark values, exact: sin 0 = sin 180 = 0, sin 90 = 1, sin 270 = -1. */
  lemma SinLandmarks(radx10: real)
    ensures SinApprox(0) == Linear(0) && SinApprox(0).Value(radx10) == 0.0
    ensures SinApprox(900) == Scaled(1000) && SinApprox(900).Value(radx10) == 1.0
    ensures SinApprox(1800) == Linear(0) && SinApprox(1800).Value(radx10) == 0.0
    ensures SinApprox(2700) == Scaled(-1000) && SinApprox(2700).Value(radx10) == -1.0
  {
    LutShape();
  }

  /** The sign of the result follows the half turn the angle lies in. */
  lemma SinSign(a: Int16)
    ensures 0 < a % 3600 < 1800 ==> SinApprox(a).Sign() == 1
    ensures 1800 < a % 3600 ==> SinApprox(a).Sign() == -1
    ensures a % 3600 == 0 || a % 3600 == 1800 ==> SinApprox(a) == Linear(0)
  {
    var q := Fold(a);
    var s, f := q.m * q.n, q.angle;
    FoldsToResidue(a, s, f);
    SinApproxCharacterized(a, s, f);
    var x := if f < 105 then f else SinLut[f / 10];
    assert x > 0 <==> f > 0 by {
      if 105 <= f {
        LutShape();
        LutMonotone(10, f / 10);
      }
    }
    SignTimes(s, x);
  }

  /** On the table branch the value is at most 1 in magnitude, whatever RADX10 is. */
  lemma SinTableValueBounded(a: Int16, radx10: real)
    requires SinApprox(a).Scaled?
    ensures -1.0 <= SinApprox(a).Value(radx10) <= 1.0
  {
  }

  /** No jumps between neighbouring angles on the same branch, also across the
      quadrant boundaries 900, 1800 and 2700: on the linear branch neighbours
      differ by at most one step, on the table branch by at most 18
      thousandths. Nothing is said where the branch switches (folded angle
      104 to 105, e.g. angles 104/105 and 1695/1696 and their mirror images):
      there the value goes from 104 * RADX10 to the table value 0.174. */
  lemma SinAdjacent(a: Int16)
    requires a + 1 < 0x8000
    ensures SinApprox(a).Linear? && SinApprox(a + 1).Linear? ==>
      Abs(SinApprox(a + 1).k - SinApprox(a).k) <= 1
    ensures SinApprox(a).Scaled? && SinApprox(a + 1).Scaled? ==>
      Abs(SinApprox(a + 1).v - SinApprox(a).v) <= 18
  {
    var q, q' := Fold(a), Fold(a + 1);
    var s, f, s', f' := q.m * q.n, q.angle, q'.m * q'.n, q'.angle;
    FoldsToAdjacent(a, s, f, s', f');
    SinApproxCharacterized(a, s, f);
    SinApproxCharacterized(a + 1, s', f');
    if f < 105 && f' < 105 {
      SignTimes(s, f);
      SignTimes(s', f');
      assert Abs(s' * f' - s * f) <= 1;
    } else if 105 <= f && 105 <= f' {
      TableNeighbours(s, f, f');
    }
  }

  /** Table reads of folds at most one step apart differ by at most 18. */
  lemma TableNeighbours(s: int, f: int, f': int)
    requires IsSign(s) && 105 <= f <= 900 && 105 <= f' <= 900 && -1 <= f' - f <= 1
    ensures Abs(s * SinLut[f' / 10] - s * SinLut[f / 10]) <= 18
  {
    var i, i' := f / 10, f' / 10;
    LutRises();
    if i < i' {
      assert i' == i + 1;
    } else if i' < i {
      assert i == i' + 1;
    }
    SignTimes(s, SinLut[i]);
    SignTimes(s, SinLut[i']);
  }

  /** Neighbouring angles fold at most one step apart, and with the same sign
      unless one of them sits on the axis (fold 0). */
  lemma FoldsToAdjacent(a: int, s: int, f: int, s': int, f': int)
    requires FoldsTo(a, s, f) && FoldsTo(a + 1, s', f')
    ensures -1 <= f' - f <= 1
    ensures f != 0 && f' != 0 ==> s == s'
  {
    FoldsToResidue(a, s, f);
    FoldsToResidue(a + 1, s', f');
    var r, r' := a % 3600, (a + 1) % 3600;
    NextResidue(a);
    if r == 3599 {
      assert r' == 0;
    } else if r < 1800 {
      assert r' == r + 1 && r' <= 1800;
    } else {
      assert r' == r + 1 && 1800 < r';
    }
  }

  /** One tenth of a degree on, the position on the circle advances by one or wraps to 0. */
  lemma NextResidue(a: int)
    ensures (a + 1) % 3600 == if a % 3600 == 3599 then 0 else a % 3600 + 1
  {
  }

  lemma SignTimes(s: int, x: int)
    requires IsSign(s)
    ensures s == 1 ==> s * x == x
    ensures s == -1 ==> s * x == -x
  {
  }

  // ---------------------------------------------------------------------
  // Properties of cos_approx

  /** Landmark values of the cosine: cos 0 = 1, cos 90 = 0, cos 180 = -1, cos 270 = 0. */
  lemma CosLandmarks()
    ensures CosApprox(0) == Scaled(1000)
    ensures CosApprox(900) == Linear(0)
    ensures CosApprox(1800) == Scaled(-1000)
    ensures CosApprox(2700) == Linear(0)
  {
    LutShape();
  }

  /** The cosine is even: cos(-a) == cos(a) for every angle whose negation
      is an `int16_t`. */
  lemma CosEven(a: Int16)
    requires -0x7FFF <= a
    ensures CosApprox(-a) == CosApprox(a)
  {
    if -31867 <= a <= 31867 {
      SinSupplement(900 - a);
    } else if a > 31867 {
      CosBeyondWrap(a);
    } else {
      CosBeyondWrap(-a);
    }
  }

  /** Past the wrap, the cosines of a and -a meet through a supplement and a turn. */
  lemma CosBeyondWrap(a: Int16)
    requires a > 31867
    ensures CosApprox(-a) == CosApprox(a)
  {
    var c, c' := CosApprox(a), CosApprox(-a);
    assert c == SinApprox(900 - a);
    assert c' == SinApprox(a - 2700);
    SinSupplement(a - 2700);
    SinPeriodic(900 - a);
  }

  /** The cosine leads the sine by a quarter turn: cos(a) == sin(a + 900)
      wherever a + 900 is an `int16_t`. */
  lemma CosLeadsSin(a: Int16)
    requires a + 900 < 0x8000
    ensures CosApprox(a) == SinApprox(a + 900)
  {
    if -31867 <= a {
      SinSupplement(900 - a);
    } else {
      var c := CosApprox(a);
      assert c == SinApprox(-2700 - a);
      SinSupplement(a + 4500);
      SinPeriodic(a + 900);
    }
  }

  // ---------------------------------------------------------------------
  // The 16-bit negation of the input -32768

  /** For -32768 the C code, built with a 32-bit `int`, returns the linear
      value +368 * RADX10 (about +0.64), while -32768 is a whole number of turns from -29168, whose sine
      is -0.588; the unbounded magnitude gives that value. */
  lemma MinInputBreaksPeriod()
    ensures SinApproxAsWritten(-0x8000) == Linear(368)
    ensures SinApproxAsWritten(-0x8000 + 3600) == Scaled(-588)
    ensures SinApprox(-0x8000) == Scaled(-588)
    ensures SinApprox(-0x8000) == SinApprox(-0x8000 + 3600)
  {
    LutShape();
    SinPeriodic(-0x8000);
  }

  // ---------------------------------------------------------------------
  // The 16-bit argument of `cos_approx`

  /** Below -31867 the C cosine wraps `900 - angle` by 2^16 = 18 turns plus
      736 tenths of a degree: cos(-3200 degrees) = cos(320 degrees) is 0.766,
      but the C code reads the sine at -32636 and returns -0.391; at -31868 it
      reaches the as-written sine of -32768 and returns +368 * RADX10 instead
      of 0.588. */
  lemma CosWrapBreaksPhase()
    ensures CosApproxAsWritten(-32000) == Scaled(-391)
    ensures CosApprox(-32000) == Scaled(766)
    ensures CosApprox(-32000) == SinApprox(-32000 + 900)
    ensures CosApproxAsWritten(-31868) == Linear(368)
    ensures CosApprox(-31868) == Scaled(588)
  {
    CosAt32000();
    CosAt31868();
    CosLeadsSin(-32000);
  }

  /** The two cosines at -32000: the C code reads the sine at -32636. */
  lemma CosAt32000()
    ensures CosApproxAsWritten(-32000) == Scaled(-391)
    ensures CosApprox(-32000) == Scaled(766)
  {
    assert SinLut[23] == 391 && SinLut[50] == 766;
    assert ToInt16(900 + 32000) == -32636;
    assert FoldAsWritten(-32636) == Folded(-1, 1, 236);
    assert Fold(29300) == Folded(1, 1, 500);
  }

  /** The two cosines at -31868: the C code reads the sine at -32768. */
  lemma CosAt31868()
    ensures CosApproxAsWritten(-31868) == Linear(368)
    ensures CosApprox(-31868) == Scaled(588)
  {
    assert SinLut[36] == 588;
    assert ToInt16(900 + 31868) == -32768;
    MinInputBreaksPeriod();
    assert Fold(29168) == Folded(1, 1, 368);
  }
}
