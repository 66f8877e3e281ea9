/** The read-only sine table `pgm_sinLUT`: 1000 * sin(d degrees), rounded,
    for the whole degrees d = 0 .. 90. The program memory read
    `pgm_read_word` is plain indexing here. The table is written as one row
    per ten degrees so that each row can be checked on its own. */
module SinTable {
  import opened Fixed

  const Deg0s: seq<UInt16> := [0, 17, 35, 52, 70, 87, 105, 122, 139, 156]
  const Deg10s: seq<UInt16> := [174, 191, 208, 225, 242, 259, 276, 292, 309, 326]
  const Deg20s: seq<UInt16> := [342, 358, 375, 391, 407, 423, 438, 454, 469, 485]
  const Deg30s: seq<UInt16> := [500, 515, 530, 545, 559, 574, 588, 602, 616, 629]
  const Deg40s: seq<UInt16> := [643, 656, 669, 682, 695, 707, 719, 731, 743, 755]
  const Deg50s: seq<UInt16> := [766, 777, 788, 799, 809, 819, 829, 839, 848, 857]
  const Deg60s: seq<UInt16> := [866, 875, 883, 891, 899, 906, 914, 921, 927, 934]
  const Deg70s: seq<UInt16> := [940, 946, 951, 956, 961, 966, 970, 974, 978, 982]
  const Deg80To90: seq<UInt16> := [985, 988, 990, 993, 995, 996, 998, 999, 999, 1000, 1000]

  /** `pgm_sinLUT[91]`, entry d for d degrees. */
  const SinLut: seq<UInt16> :=
    Deg0s + Deg10s + Deg20s + Deg30s + Deg40s + Deg50s + Deg60s + Deg70s + Deg80To90

  /** Every entry is at most 1000 (sine one), and each entry exceeds its
      predecessor by between 0 and 18: one degree never moves 1000 * sin by
      more than 17.5, and the sine never falls on the first quadrant. */
  ghost predicate GentleRise(s: seq<int>)
  {
    && (forall i :: 0 <= i < |s| ==> s[i] <= 1000)
    && (forall i :: 0 < i < |s| ==> s[i - 1] <= s[i] <= s[i - 1] + 18)
  }

  /** Two rising rows whose seam also rises gently join into a rising row. */
  lemma GentleRiseJoin(a: seq<int>, b: seq<int>)
    requires GentleRise(a) && GentleRise(b) && |a| > 0 && |b| > 0
    requires a[|a| - 1] <= b[0] <= a[|a| - 1] + 18
    ensures GentleRise(a + b)
  {
    var c := a + b;
    forall i | 0 < i < |c|
      ensures c[i - 1] <= c[i] <= c[i - 1] + 18
    {
      if i < |a| {
        assert c[i - 1] == a[i - 1] && c[i] == a[i];
      } else if i == |a| {
        assert c[i - 1] == a[|a| - 1] && c[i] == b[0];
      } else {
        assert c[i - 1] == b[i - 1 - |a|] && c[i] == b[i - |a|];
      }
    }
    forall i | 0 <= i < |c|
      ensures c[i] <= 1000
    {
      if i >= |a| {
        assert c[i] == b[i - |a|];
      }
    }
  }

  // Each ten-degree row rises gently on its own.
  lemma Deg0sRise() ensures GentleRise(Deg0s) {}
  lemma Deg10sRise() ensures GentleRise(Deg10s) {}
  lemma Deg20sRise() ensures GentleRise(Deg20s) {}
  lemma Deg30sRise() ensures GentleRise(Deg30s) {}
  lemma Deg40sRise() ensures GentleRise(Deg40s) {}
  lemma Deg50sRise() ensures GentleRise(Deg50s) {}
  lemma Deg60sRise() ensures GentleRise(Deg60s) {}
  lemma Deg70sRise() ensures GentleRise(Deg70s) {}
  lemma Deg80To90Rise() ensures GentleRise(Deg80To90) {}

  /** Size and end points of the table: sin 0 = 0 and sin 90 degrees = 1;
      the smallest entry the table branch of the sine reads, 10 degrees, is 174. */
  lemma LutShape()
    ensures |SinLut| == 91
    ensures SinLut[0] == 0 && SinLut[90] == 1000
    ensures SinLut[10] == 174
  {
  }

  /** The whole table rises gently: every entry is at most 1000 and neighbours
      differ by between 0 and 18. */
  lemma LutRises()
    ensures GentleRise(SinLut)
  {
    Deg0sRise(); Deg10sRise(); Deg20sRise(); Deg30sRise(); Deg40sRise();
    Deg50sRise(); Deg60sRise(); Deg70sRise(); Deg80To90Rise();
    var t := Deg0s;
    GentleRiseJoin(t, Deg10s);
    t := t + Deg10s;
    GentleRiseJoin(t, Deg20s);
    t := t + Deg20s;
    GentleRiseJoin(t, Deg30s);
    t := t + Deg30s;
    GentleRiseJoin(t, Deg40s);
    t := t + Deg40s;
    GentleRiseJoin(t, Deg50s);
    t := t + Deg50s;
    GentleRiseJoin(t, Deg60s);
    t := t + Deg60s;
    GentleRiseJoin(t, Deg70s);
    t := t + Deg70s;
    GentleRiseJoin(t, Deg80To90);
    t := t + Deg80To90;
    assert t == SinLut;
  }

  /** A gently rising sequence never falls: a later entry is at least an earlier one. */
  lemma {:induction false} RisingMonotone(s: seq<int>, i: int, j: int)
    requires GentleRise(s)
    requires 0 <= i <= j < |s|
    ensures s[i] <= s[j]
    decreases j - i
  {
    if i < j {
      RisingMonotone(s, i, j - 1);
    }
  }

  /** The table is non-decreasing: a larger index never reads a smaller sine. */
  lemma LutMonotone(i: int, j: int)
    requires 0 <= i <= j < |SinLut|
    ensures SinLut[i] <= SinLut[j]
  {
    LutRises();
    RisingMonotone(SinLut, i, j);
  }
}
