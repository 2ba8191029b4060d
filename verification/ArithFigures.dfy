/** The decisions of section F.1.4 and Figure G.10 of ITU-T T.81 written out: which decision stands at
    which place, on which bin and with which value, in terms of the numbers alone. */
module ArithFigures {
  import opened Numbers
  import opened IntervalCoder
  import opened ArithModel

  // ----- Magnitudes -----

  /** A category of d doublings: d ones and a zero, on successive bins. */
  function Unary(ac: bool, tbl: tableNo, st: nat, d: nat): (ds: seq<Decision>) {
    seq(d + 1, k requires k >= 0 => Decision(if ac then AcBin(tbl, st + k) else DcBin(tbl, st + k),
                                             if k < d then 1 else 0))
  }

  /** The lower d bits of u on one bin, the highest of them first. */
  function Binary(b: Bin, u: nat, d: nat): (ds: seq<Decision>) {
    seq(d, k requires 0 <= k < d => Decision(b, u / Pow2(d - 1 - k) % 2))
  }

  lemma UnaryHead(ac: bool, tbl: tableNo, st: nat, d: nat)
    ensures d > 0 ==> Unary(ac, tbl, st, d) == [Decision(BinAt(ac, tbl, st), 1)] + Unary(ac, tbl, st + 1, d - 1)
    ensures Unary(ac, tbl, st, 0) == [Decision(BinAt(ac, tbl, st), 0)]
  {
  }

  lemma BinaryHead(b: Bin, u: nat, d: nat)
    ensures d > 0 ==> Binary(b, u, d) == [Decision(b, u / Pow2(d - 1) % 2)] + Binary(b, u, d - 1)
    ensures Binary(b, u, 0) == []
  {
    hide Pow2;
    if d > 0 {
      var more := [Decision(b, u / Pow2(d - 1) % 2)] + Binary(b, u, d - 1);
      forall k | 0 <= k < d ensures Binary(b, u, d)[k] == more[k] {
      }
      assert |Binary(b, u, d)| == |more|;
    }
  }

  lemma {:induction false} CategoryUnary(ac: bool, tbl: tableNo, st: nat, u: nat, d: nat)
    requires Pow2(d) <= u < Pow2(d + 1)
    ensures Category(ac, tbl, st, u) == Unary(ac, tbl, st, d)
    decreases d
  {
    hide Unary;
    UnaryHead(ac, tbl, st, d);
    if d > 0 {
      CategoryUnary(ac, tbl, st + 1, u / 2, d - 1);
    }
  }

  lemma {:induction false} PatternBinary(ac: bool, tbl: tableNo, st: nat, u: nat, d: nat)
    ensures Pattern(ac, tbl, st, Pow2(d), u) == Binary(BinAt(ac, tbl, st), u, d)
    decreases d
  {
    hide Binary;
    BinaryHead(BinAt(ac, tbl, st), u, d);
    if d > 0 {
      PatternBinary(ac, tbl, st, u, d - 1);
      assert Pow2(d) / 2 == Pow2(d - 1);
    }
  }

  lemma {:induction false} DoublingsAre(u: nat, d: nat)
    requires Pow2(d) <= u < Pow2(d + 1)
    ensures u >= 1 && Doublings(u) == d && TopBit(u) == Pow2(d)
    decreases d
  {
    if d > 0 {
      DoublingsAre(u / 2, d - 1);
    }
  }

  // ----- Single values -----

  /** Figures F.4 to F.7: zero, or the sign and whether the magnitude is one. */
  lemma DcDiffSmall(tbl: tableNo, context: nat, v: int)
    requires -1 <= v <= 1
    ensures var zero, one := Decision(DcBin(tbl, context), 0), Decision(DcBin(tbl, context), 1);
            var sign: bit := if v < 0 then 1 else 0;
            DcDiff(tbl, context, v)
            == if v == 0 then [zero]
               else [one, Decision(DcBin(tbl, context + 1), sign), Decision(DcBin(tbl, context + 2 + sign), 0)]
  {
  }

  /** Figures F.8 and F.9: a greater magnitude has the category of the magnitude less one, from bin 20 on, and
      then its lower bits on one bin for each category. */
  lemma DcDiffLarge(tbl: tableNo, context: nat, v: int, d: nat)
    requires Pow2(d) <= Abs(v) - 1 < Pow2(d + 1)
    ensures var u, sign: bit := Abs(v) - 1, if v < 0 then 1 else 0;
            DcDiff(tbl, context, v)
            == [Decision(DcBin(tbl, context), 1), Decision(DcBin(tbl, context + 1), sign)]
               + ([Decision(DcBin(tbl, context + 2 + sign), 1)]
                  + (Unary(false, tbl, 20, d) + Binary(DcBin(tbl, 34 + d), u, d)))
  {
    hide DcMagnitude, Unary, Binary, Pow2;
    DcMagnitudeLarge(tbl, context + 2 + SignBit(v), Abs(v) - 1, d);
  }

  lemma DcMagnitudeLarge(tbl: tableNo, st: nat, u: nat, d: nat)
    requires Pow2(d) <= u < Pow2(d + 1)
    ensures DcMagnitude(tbl, st, u)
            == [Decision(DcBin(tbl, st), 1)] + (Unary(false, tbl, 20, d) + Binary(DcBin(tbl, 34 + d), u, d))
  {
    CategoryUnary(false, tbl, 20, u, d);
    PatternBinary(false, tbl, 34 + d, u, d);
    DoublingsAre(u, d);
    DcMagnitudeIs(tbl, st, u);
    assert BinAt(false, tbl, 34 + d) == DcBin(tbl, 34 + d);
    hide *;
  }

  lemma DcMagnitudeIs(tbl: tableNo, st: nat, u: nat)
    requires u >= 1
    ensures DcMagnitude(tbl, st, u)
            == [Decision(DcBin(tbl, st), 1)]
               + (Category(false, tbl, 20, u) + Pattern(false, tbl, 34 + Doublings(u), TopBit(u), u))
  {
    hide Category, Pattern, Doublings, TopBit;
  }

  /** Magnitudes 1 and 2 of an AC coefficient at position k share the bin of the position. */
  lemma AcValueSmall(tbl: tableNo, kx: int, k: nat, v: int)
    requires k >= 1 && v != 0 && -2 <= v <= 2
    ensures var bin := AcBin(tbl, 3 * k - 1);
            AcValue(tbl, kx, k, v)
            == [Decision(FixedBin, if v < 0 then 1 else 0)]
               + if v == 1 || v == -1 then [Decision(bin, 0)] else [Decision(bin, 1), Decision(bin, 0)]
  {
  }

  /** Greater magnitudes have bins by size, of which there are two sets. */
  lemma AcValueLarge(tbl: tableNo, kx: int, k: nat, v: int, d: nat)
    requires k >= 1 && v != 0 && d >= 1 && Pow2(d) <= Abs(v) - 1 < Pow2(d + 1)
    ensures var u, bin, base := Abs(v) - 1, AcBin(tbl, 3 * k - 1), if k <= kx then 189 else 217;
            AcValue(tbl, kx, k, v)
            == [Decision(FixedBin, if v < 0 then 1 else 0)]
               + ([Decision(bin, 1), Decision(bin, 1)]
                  + (Unary(true, tbl, base, d - 1) + Binary(AcBin(tbl, base + d - 1 + 14), u, d)))
  {
    AcMagnitudeLarge(tbl, 3 * k - 1, if k <= kx then 189 else 217, Abs(v) - 1, d);
    hide AcMagnitude, Unary, Binary, Pow2;
  }

  lemma AcMagnitudeLarge(tbl: tableNo, st: nat, base: nat, u: nat, d: nat)
    requires d >= 1 && Pow2(d) <= u < Pow2(d + 1)
    ensures AcMagnitude(tbl, st, base, u)
            == [Decision(AcBin(tbl, st), 1), Decision(AcBin(tbl, st), 1)]
               + (Unary(true, tbl, base, d - 1) + Binary(AcBin(tbl, base + d - 1 + 14), u, d))
  {
    CategoryUnary(true, tbl, base, u / 2, d - 1);
    PatternBinary(true, tbl, base + d - 1 + 14, u, d);
    DoublingsAre(u, d);
    DoublingsAre(u / 2, d - 1);
    hide Category, Pattern, Doublings, TopBit, Unary, Binary;
  }

  /** Signs are coded with a fixed probability from the start of a scan to its end. */
  lemma SignsStayEven(ds: seq<Decision>)
    requires Ready(Coder(WHOLE, Areas())) && Known(Areas(), ds)
    ensures var stats := CodeAll(Coder(WHOLE, Areas()), ds).stats;
            FixedBin in stats && stats[FixedBin] == 113 && QeOf(113) == 0x5A1D
  {
    var areas := Areas();
    assert FixedBin in areas && areas[FixedBin] == 113;
    hide *;
    FixedStays(Coder(WHOLE, areas), ds, FixedBin);
  }

  // ----- Bands -----

  /** The zeros at the positions after i and before j. */
  function Zeros(tbl: tableNo, i: nat, j: nat): (ds: seq<Decision>)
    requires i < j
  {
    seq(j - i - 1, x requires x >= 0 => Decision(AcBin(tbl, 3 * (i + x) + 1), 0))
  }

  lemma ZerosHead(tbl: tableNo, i: nat, j: nat, after: seq<Decision>)
    requires i < j
    ensures Zeros(tbl, i, j) + after
            == if i + 1 < j then [Decision(AcBin(tbl, 3 * i + 1), 0)] + (Zeros(tbl, i + 1, j) + after) else after
  {
    if i + 1 < j {
      assert Zeros(tbl, i, j) == [Decision(AcBin(tbl, 3 * i + 1), 0)] + Zeros(tbl, i + 1, j);
    } else {
      assert Zeros(tbl, i, j) == [];
    }
  }

  /** Position j holds the next nonzero coefficient after position i. */
  ghost predicate NextIs(b: Block, al: nat, i: nat, j: nat) {
    i < j < 64 && PointAc(b[j], al) != 0 && forall x | i < x < j :: PointAc(b[x], al) == 0
  }

  lemma NextLater(b: Block, al: nat, i: nat, j: nat)
    requires NextIs(b, al, i, j)
    ensures i < j < 64 && PointAc(b[j], al) != 0
    ensures i + 1 < j ==> NextIs(b, al, i + 1, j) && PointAc(b[i + 1], al) == 0
  {
    hide PointAc;
  }

  /** The last nonzero coefficient is the last one that comes next. */
  lemma {:induction false} LastIs(b: Block, al: nat, se: nat, i: nat)
    requires i <= se < 64
    ensures LastNonzero(b, al, se) <= se
    ensures forall j: nat | NextIs(b, al, i, j) && j <= se :: j <= LastNonzero(b, al, se)
    ensures (forall x | i < x <= se :: PointAc(b[x], al) == 0) ==> LastNonzero(b, al, se) <= i
  {
    hide PointAc;
  }

  /** A first scan after position i with only zeros ahead: the end of the block. */
  lemma FirstEnds(tbl: tableNo, kx: int, b: Block, al: nat, se: nat, i: nat)
    requires i <= se < 64 && forall x | i < x <= se :: PointAc(b[x], al) == 0
    ensures AcFirst(tbl, kx, b, al, se, LastNonzero(b, al, se), i, false)
            == if i < se then [Decision(AcBin(tbl, 3 * i), 1)] else []
  {
    hide AcFirst, PointAc;
    var ke := LastNonzero(b, al, se);
    LastIs(b, al, se, i);
    if i < se {
      AcFirstHead(tbl, kx, b, al, se, ke, i);
    } else {
      AcFirstEnd(tbl, kx, b, al, se, ke, i);
    }
  }

  /** Otherwise it goes on to the next nonzero coefficient, with the zeros in between, and its value. */
  lemma FirstStep(tbl: tableNo, kx: int, b: Block, al: nat, se: nat, i: nat, j: nat)
    requires j <= se < 64 && NextIs(b, al, i, j)
    ensures var ke := LastNonzero(b, al, se);
            AcFirst(tbl, kx, b, al, se, ke, i, false)
            == [Decision(AcBin(tbl, 3 * i), 0)]
               + (Zeros(tbl, i, j) + ([Decision(AcBin(tbl, 3 * j - 2), 1)]
                                      + (AcValue(tbl, kx, j, PointAc(b[j], al))
                                         + AcFirst(tbl, kx, b, al, se, ke, j, false))))
  {
    hide *;
    NextLater(b, al, i, j);
    LastIs(b, al, se, i);
    AcFirstHead(tbl, kx, b, al, se, LastNonzero(b, al, se), i);
    FirstRun(tbl, kx, b, al, se, LastNonzero(b, al, se), i, j);
  }

  lemma {:induction false} FirstRun(tbl: tableNo, kx: int, b: Block, al: nat, se: nat, ke: nat, i: nat, j: nat)
    requires j <= ke <= se < 64 && NextIs(b, al, i, j)
    ensures AcFirst(tbl, kx, b, al, se, ke, i, true)
            == Zeros(tbl, i, j) + ([Decision(AcBin(tbl, 3 * j - 2), 1)]
                                   + (AcValue(tbl, kx, j, PointAc(b[j], al))
                                      + AcFirst(tbl, kx, b, al, se, ke, j, false)))
    decreases j - i
  {
    hide *;
    NextLater(b, al, i, j);
    AcFirstRun(tbl, kx, b, al, se, ke, i);
    var after := [Decision(AcBin(tbl, 3 * j - 2), 1)]
    + (AcValue(tbl, kx, j, PointAc(b[j], al)) + AcFirst(tbl, kx, b, al, se, ke, j, false));
    ZerosHead(tbl, i, j, after);
    if i + 1 < j {
      FirstRun(tbl, kx, b, al, se, ke, i + 1, j);
    }
  }

  /** A refinement scan after position i with only zeros ahead. */
  lemma RefineEnds(tbl: tableNo, b: Block, al: nat, se: nat, kex: nat, i: nat)
    requires i <= se < 64 && kex <= LastNonzero(b, al, se) && forall x | i < x <= se :: PointAc(b[x], al) == 0
    ensures AcRefine(tbl, b, al, se, LastNonzero(b, al, se), kex, i, false)
            == if i < se then [Decision(AcBin(tbl, 3 * i), 1)] else []
  {
    hide AcRefine, PointAc;
    var ke := LastNonzero(b, al, se);
    LastIs(b, al, se, i);
    if i < se {
      AcRefineHead(tbl, b, al, se, ke, kex, i);
    } else {
      AcRefineEnd(tbl, b, al, se, ke, kex, i);
    }
  }

  /** Otherwise only behind the coefficients known before is it told that the block goes on, and a
      coefficient that is known takes a correction bit instead of a sign. */
  lemma RefineStep(tbl: tableNo, b: Block, al: nat, se: nat, kex: nat, i: nat, j: nat)
    requires j <= se < 64 && kex <= LastNonzero(b, al, se) && NextIs(b, al, i, j)
    ensures var ke, v := LastNonzero(b, al, se), PointAc(b[j], al);
            AcRefine(tbl, b, al, se, ke, kex, i, false)
            == (if i >= kex then [Decision(AcBin(tbl, 3 * i), 0)] else [])
               + (Zeros(tbl, i, j)
                  + ((if -1 <= v <= 1
                      then [Decision(AcBin(tbl, 3 * j - 2), 1), Decision(FixedBin, if v < 0 then 1 else 0)]
                      else [Decision(AcBin(tbl, 3 * j - 1), (if v < 0 then -v else v) % 2)])
                     + AcRefine(tbl, b, al, se, ke, kex, j, false)))
  {
    hide *;
    NextLater(b, al, i, j);
    LastIs(b, al, se, i);
    RefinedIs(tbl, j, PointAc(b[j], al));
    AcRefineHead(tbl, b, al, se, LastNonzero(b, al, se), kex, i);
    RefineRun(tbl, b, al, se, LastNonzero(b, al, se), kex, i, j);
  }

  lemma RefinedIs(tbl: tableNo, j: nat, v: int)
    requires j >= 1
    ensures Refined(tbl, j - 1, v)
            == if -1 <= v <= 1
               then [Decision(AcBin(tbl, 3 * j - 2), 1), Decision(FixedBin, if v < 0 then 1 else 0)]
               else [Decision(AcBin(tbl, 3 * j - 1), (if v < 0 then -v else v) % 2)]
  {
  }

  lemma {:induction false} RefineRun(tbl: tableNo, b: Block, al: nat, se: nat, ke: nat, kex: nat, i: nat, j: nat)
    requires j <= ke <= se < 64 && NextIs(b, al, i, j)
    ensures AcRefine(tbl, b, al, se, ke, kex, i, true)
            == Zeros(tbl, i, j) + (Refined(tbl, j - 1, PointAc(b[j], al))
                                   + AcRefine(tbl, b, al, se, ke, kex, j, false))
    decreases j - i
  {
    hide AcRefine, PointAc, Zeros, Refined, NextIs;
    NextLater(b, al, i, j);
    AcRefineRun(tbl, b, al, se, ke, kex, i);
    ZerosHead(tbl, i, j, Refined(tbl, j - 1, PointAc(b[j], al)) + AcRefine(tbl, b, al, se, ke, kex, j, false));
    if i + 1 < j {
      RefineRun(tbl, b, al, se, ke, kex, i + 1, j);
    }
  }

  // ----- Point transforms -----

  /** What is known of a DC coefficient down to bit al: the multiple of 2^al at or below it. */
  lemma PointDcMeans(x: coef, al: nat)
    ensures TruncDc(x, al) <= x < TruncDc(x, al) + Pow2(al) && TruncDc(x, al) % Pow2(al) == 0
  {
    Multiple(x, Pow2(al));
  }

  /** What is known of another coefficient: the multiple of 2^al at it or next to it towards zero. */
  lemma PointAcMeans(x: int, al: nat)
    ensures var t := Trunc(x, al);
            && Abs(t) <= Abs(x) < Abs(t) + Pow2(al) && t % Pow2(al) == 0 && (t > 0 ==> x > 0) && (t < 0 ==> x < 0)
  {
    TruncIs(x, al);
    Multiple(Abs(x), Pow2(al));
  }

  lemma TruncIs(x: int, al: nat)
    ensures Trunc(x, al) == if x < 0 then -(Abs(x) / Pow2(al) * Pow2(al)) else Abs(x) / Pow2(al) * Pow2(al)
  {
    if x < 0 {
      NegTimes(Abs(x) / Pow2(al), Pow2(al));
    }
  }

  lemma NegTimes(a: int, b: int)
    ensures (-a) * b == -(a * b)
  {
  }

  lemma Multiple(x: int, p: nat)
    requires p >= 1
    ensures x / p * p <= x < x / p * p + p
    ensures x / p * p % p == 0 && -(x / p * p) % p == 0
    ensures x >= 0 ==> x / p * p >= 0
  {
    assert x == p * (x / p) + x % p;
    ModOfMultiple(x / p, p);
    ModOfMultiple(-(x / p), p);
    NegTimes(x / p, p);
    if x >= 0 {
      MulMono(0, x / p, p);
    }
  }
}
