/** The items of sections F.1.2 and G.1.2 of ITU-T T.81 written out: the symbol and the bits of every
    value, run and correction, in terms of the numbers alone. */
module HuffFigures {
  import opened Numbers
  import opened BitStrings
  import opened ArithModel
  import opened HuffTable
  import opened HuffItems
  import opened HuffBlocks
  import opened HuffRefine
  import opened ArithScan
  import opened HuffSequential
  import opened HuffSequentialPass

  // ----- Values -----

  lemma {:induction false} SizeOf(u: nat, n: nat)
    requires n >= 1 && Pow2(n - 1) <= u < Pow2(n)
    ensures Size(u) == n
    decreases n
  {
    if n > 1 {
      SizeOf(u / 2, n - 1);
    }
  }

  /** A value of n bits: a positive one as it is, a negative one raised by 2^n - 1, so that the first bit
      tells the sign. */
  lemma ValueMeans(v: int, n: nat)
    requires n >= 1 && Pow2(n - 1) <= Abs(v) < Pow2(n)
    ensures Size(Abs(v)) == n && ValueItems(0) == []
    ensures var bits := ValueBits(v);
            && ValueItems(v) == [Raw(bits)] && |bits| == n
            && Value(bits) == (if v > 0 then v else v + Pow2(n) - 1)
            && bits == BitsOf(Value(bits), n) && (Value(bits) >= Pow2(n - 1) <==> v > 0)
  {
    SizeOf(Abs(v), n);
    var p := Pow2(n - 1);
    assert Pow2(n) == 2 * p;
    hide Pow2, BitsOf, Value;
    var x := if v < 0 then v - 1 else v;
    LowBitsInt(x, n);
    if v < 0 {
      DivModUnique(x, 2 * p, -1, v - 1 + 2 * p);
      ValueOfBits(v - 1 + 2 * p, n);
    } else {
      DivModUnique(x, 2 * p, 0, v);
      ValueOfBits(v, n);
    }
  }

  // ----- Runs -----

  function Repeated(it: Item, n: nat): (items: seq<Item>)
  {
    seq(n, _ => it)
  }

  /** A coefficient after a run of zeros: a symbol 0xF0 for every sixteen of them, then the rest of the run
      above the size of the value, and its bits. */
  lemma {:induction false} CoefMeans(tbl: tblNo, run: nat, v: int, n: nat)
    requires 1 <= n <= 10 && Pow2(n - 1) <= Abs(v) < Pow2(n)
    ensures Size(Abs(v)) == n
    ensures CoefItems(tbl, run, v)
            == Repeated(Sym(true, tbl, 0xF0), run / 16) + [Sym(true, tbl, run % 16 * 16 + n), Raw(ValueBits(v))]
  {
    CoefIs(tbl, run, v, n);
    hide *;
    var zrl, last := Sym(true, tbl, 0xF0), [Sym(true, tbl, run % 16 * 16 + n), Raw(ValueBits(v))];
    RepeatedHead(zrl, run / 16, last);
    if run > 15 {
      CoefMeans(tbl, run - 16, v, n);
      SixteenLess(run);
    } else {
      assert run / 16 == 0 && run % 16 == run;
    }
  }

  lemma SixteenLess(run: nat)
    requires run > 15
    ensures (run - 16) / 16 == run / 16 - 1 && (run - 16) % 16 == run % 16
  {
  }

  lemma CoefIs(tbl: tblNo, run: nat, v: int, n: nat)
    requires 1 <= n <= 10 && Pow2(n - 1) <= Abs(v) < Pow2(n)
    ensures Size(Abs(v)) == n <= MAX_COEF_BITS
    ensures CoefItems(tbl, run, v)
            == if run > 15 then [Sym(true, tbl, 0xF0)] + CoefItems(tbl, run - 16, v)
               else [Sym(true, tbl, run * 16 + n), Raw(ValueBits(v))]
  {
    ValueMeans(v, n);
    CoefSteps(tbl, run, v);
    hide Pow2, ValueBits, ValueItems, Size, CoefItems, Abs;
  }

  lemma RepeatedHead(it: Item, n: nat, last: seq<Item>)
    ensures Repeated(it, n) + last == if n == 0 then last else [it] + (Repeated(it, n - 1) + last)
  {
    if n > 0 {
      assert Repeated(it, n) == [it] + Repeated(it, n - 1);
    }
  }

  /** From position k to the next nonzero coefficient, at j, which has n bits. */
  lemma BodyMeans(tbl: tblNo, b: Block, al: nat, se: nat, k: nat, j: nat, n: nat)
    requires k <= j <= se < 64 && AcInRange(b, al, k, se)
    requires PointAc(b[j], al) != 0 && forall i | k <= i < j :: PointAc(b[i], al) == 0
    requires 1 <= n <= 10 && Pow2(n - 1) <= Abs(PointAc(b[j], al)) < Pow2(n)
    ensures Body(tbl, b, al, se, k)
            == (Repeated(Sym(true, tbl, 0xF0), (j - k) / 16)
                + [Sym(true, tbl, (j - k) % 16 * 16 + n), Raw(ValueBits(PointAc(b[j], al)))])
               + Body(tbl, b, al, se, j + 1)
  {
    hide *;
    BodyStep(tbl, b, al, se, k, j);
    CoefMeans(tbl, j - k, PointAc(b[j], al), n);
  }

  /** A block: the difference of its DC coefficient, of n bits, the AC coefficients, and an end of block, the
      symbol 0, only if the last one is zero. */
  lemma BlockMeans(dcTbl: tblNo, acTbl: tblNo, b: Block, last: coef, se: nat, n: nat)
    requires se < 64 && BlockOk(b, last, se)
    requires if n == 0 then b[0] == last else n <= 11 && Pow2(n - 1) <= Abs(b[0] - last) < Pow2(n)
    ensures BlockItems(dcTbl, acTbl, b, last, se)
            == ([Sym(false, dcTbl, n)] + (if n == 0 then [] else [Raw(ValueBits(b[0] - last))]))
               + (Body(acTbl, b, 0, se, 1)
                  + if se > 0 && PointAc(b[se], 0) == 0 then [Sym(true, acTbl, 0)] else [])
  {
    DiffMeans(dcTbl, b[0] - last, n);
    BlockParts(dcTbl, acTbl, b, last, se);
    hide *;
  }

  lemma BlockParts(dcTbl: tblNo, acTbl: tblNo, b: Block, last: coef, se: nat)
    requires se < 64 && BlockOk(b, last, se)
    ensures AcInRange(b, 0, 1, se) && Size(Abs(b[0] - last)) <= MAX_COEF_BITS + 1
    ensures BlockItems(dcTbl, acTbl, b, last, se)
            == DiffItems(dcTbl, b[0] - last)
               + (Body(acTbl, b, 0, se, 1)
                  + if se > 0 && PointAc(b[se], 0) == 0 then [Sym(true, acTbl, 0)] else [])
  {
    hide Body, PointAc, DiffItems, Size;
  }

  lemma DiffMeans(tbl: tblNo, diff: int, n: nat)
    requires if n == 0 then diff == 0 else n <= 11 && Pow2(n - 1) <= Abs(diff) < Pow2(n)
    ensures Size(Abs(diff)) == n <= MAX_COEF_BITS + 1
    ensures DiffItems(tbl, diff) == [Sym(false, tbl, n)] + if n == 0 then [] else [Raw(ValueBits(diff))]
  {
    if n > 0 {
      ValueMeans(diff, n);
    }
    hide ValueBits, Pow2;
  }

  /** Each difference is to the last block of the same component, and to the prediction without one. */
  lemma {:induction false} PredictionIs(last: Predictions, mcu: Mcu, ci: compNo, j: nat)
    requires UnitsOk(mcu)
    ensures (forall i | 0 <= i < |mcu| :: mcu[i].ci != ci) ==> McuLast(last, mcu)[ci] == last[ci]
    ensures j < |mcu| && mcu[j].ci == ci && (forall i | j < i < |mcu| :: mcu[i].ci != ci) ==>
              McuLast(last, mcu)[ci] == mcu[j].b[0]
    decreases |mcu|
  {
    if mcu != [] {
      PredictionIs(last[mcu[0].ci := mcu[0].b[0]], mcu[1..], ci, if j == 0 then 0 else j - 1);
    }
  }

  /** A run of n bands, with 2^r <= n < 2^(r+1): the symbol of r, and the rest of n in r bits. */
  lemma EobRunMeans(tbl: tblNo, n: nat, r: nat)
    requires 1 <= n <= MAX_EOBRUN && Pow2(r) <= n < Pow2(r + 1)
    ensures r <= 14
    ensures |EobRun(tbl, n)| == if r == 0 then 1 else 2
    ensures EobRun(tbl, n)[0] == Sym(true, tbl, r * 16)
    ensures r > 0 ==> var it := EobRun(tbl, n)[1];
                      it.Raw? && |it.bits| == r && Value(it.bits) == n - Pow2(r)
  {
    EobRunSize(n);
    SizeOf(n, r + 1);
    if r > 0 {
      LowBitsInt(n, r);
      DivModUnique(n, Pow2(r), 1, n - Pow2(r));
      ValueOfBits(n - Pow2(r), r);
    }
  }

  // ----- Code words -----

  /** The first code is all zeros; the next one of the same length is one more, and the first one of a
      greater length is one more with zeros behind it. */
  lemma CodesAscend(bits: Bits, p: nat, l: nat, m: nat)
    requires SizeIs(bits, p, l)
    ensures p == 0 ==> CodeAt(bits, p, l) == 0
    ensures SizeIs(bits, p + 1, m) ==> l <= m && CodeAt(bits, p + 1, m) == Shl(CodeAt(bits, p, l) + 1, m - l)
  {
    if p == 0 {
      NoCodesBelow(bits, l);
    }
    if SizeIs(bits, p + 1, m) {
      if m < l {
        TotalMono(bits, m, l - 1);
        assert false;
      } else if m > l {
        TotalMono(bits, l, m - 1);
        FirstAfter(bits, l, m);
      }
    }
  }

  lemma {:induction false} NoCodesBelow(bits: Bits, l: nat)
    requires 1 <= l <= 16 && Total(bits, l - 1) == 0
    ensures First(bits, l) == 0
  {
    if l > 1 {
      NoCodesBelow(bits, l - 1);
    }
  }

  lemma {:induction false} FirstAfter(bits: Bits, l: nat, m: nat)
    requires 1 <= l < m <= 16 && Total(bits, m - 1) == Total(bits, l)
    ensures First(bits, m) == Shl(First(bits, l) + bits[l], m - l)
  {
    if l + 1 < m {
      TotalMono(bits, l, m - 2);
      FirstAfter(bits, l, m - 1);
      ShlStep(First(bits, l) + bits[l], m - 1 - l);
    } else {
      assert Pow2(1) == 2;
    }
  }

  // ----- Bands -----

  /** Band x can join a run of n bands with be correction bits that goes on at band i. */
  ghost predicate Joins(bands: seq<Band>, i: nat, n: nat, be: nat, x: nat) {
    i <= x < |bands| && bands[x].body == [] && n + (x - i) < 0x7FFF && be + Buffered(bands, i, x) <= 937
  }

  /** A run takes all it can: what follows it has symbols of its own, or the counter or the buffer of
      correction bits is full. */
  lemma {:induction false} RunIsLongest(bands: seq<Band>, i: nat, n: nat, be: nat)
    requires i <= |bands| && n <= MAX_EOBRUN
    ensures var m := Joining(bands, i, n, be);
            && (forall x | i <= x < i + m :: Joins(bands, i, n, be, x))
            && (i + m < |bands| ==> !Joins(bands, i, n, be, i + m))
    decreases |bands| - i
  {
    JoiningStep(bands, i, n, be);
    hide Joining, Joins;
    if i < |bands| && Joins(bands, i, n, be, i) {
      RunIsLongest(bands, i + 1, n + 1, be + |bands[i].corr|);
      forall x: nat | i < x ensures Joins(bands, i, n, be, x) <==> Joins(bands, i + 1, n + 1, be + |bands[i].corr|, x) {
        JoinsLater(bands, i, n, be, x);
      }
    }
  }

  lemma JoiningStep(bands: seq<Band>, i: nat, n: nat, be: nat)
    requires i <= |bands| && n <= MAX_EOBRUN
    ensures Joins(bands, i, n, be, i) ==>
              i < |bands| && n < MAX_EOBRUN
              && Joining(bands, i, n, be) == 1 + Joining(bands, i + 1, n + 1, be + |bands[i].corr|)
    ensures !Joins(bands, i, n, be, i) ==> Joining(bands, i, n, be) == 0
  {
  }

  lemma JoinsLater(bands: seq<Band>, i: nat, n: nat, be: nat, x: nat)
    requires i < x && i < |bands|
    ensures Joins(bands, i, n, be, x) <==> Joins(bands, i + 1, n + 1, be + |bands[i].corr|, x)
  {
    if x < |bands| {
      BufferedHead(bands, i, x);
    }
  }

  /** The correction bits of the bands from i to j. */
  ghost function Buffered(bands: seq<Band>, i: nat, j: nat): (n: nat)
    requires i <= j <= |bands|
  {
    if i == j then 0 else Buffered(bands, i, j - 1) + |bands[j - 1].corr|
  }

  lemma {:induction false} BufferedHead(bands: seq<Band>, i: nat, j: nat)
    requires i < j <= |bands|
    ensures Buffered(bands, i, j) == |bands[i].corr| + Buffered(bands, i + 1, j)
  {
    if i + 1 < j {
      BufferedHead(bands, i, j - 1);
    }
  }

  /** Refinement up to the next new coefficient, at j: with at most fifteen zeros before it, its symbol, its
      sign, and then the correction bits passed over; with more, sixteen zeros first, with the correction
      bits up to the last of them. */
  lemma RefineMeans(tbl: tblNo, b: Block, al: nat, kn: nat, k: nat, j: nat)
    requires k <= j <= kn < 64 && Mag(b, al, kn) == 1 && Mag(b, al, j) == 1 && NoNew(b, al, k, j)
    ensures var z := ZerosIn(b, al, k, j);
            if z <= 15 then
              RefineBody(tbl, b, al, kn, k)
              == [Sym(true, tbl, 16 * z + 1), Raw([if b[j] < 0 then 0 else 1])]
                 + (RawBits(Corrections(b, al, k, j)) + RefineBody(tbl, b, al, kn, j + 1))
            else exists p | k <= p < j && p < 64 && PointAc(b[p], al) == 0 && ZerosIn(b, al, k, p) == 15 ::
                   RefineBody(tbl, b, al, kn, k)
                   == [Sym(true, tbl, 0xF0)] + (RawBits(Corrections(b, al, k, p)) + RefineBody(tbl, b, al, kn, p + 1))
  {
    hide RefineBody, Corrections, RawBits, ZerosIn, NoNew, Stop;
    if ZerosIn(b, al, k, j) <= 15 {
      NewStep(tbl, b, al, kn, k, j);
    } else {
      ZrlStep(tbl, b, al, kn, k, j);
    }
  }

  /** What is passed over: zeros are counted, and each larger coefficient has its lowest bit sent. */
  lemma PassedOver(b: Block, al: nat, k: nat, j: nat)
    requires k <= j < 64
    ensures var u, bits := Abs(PointAc(b[j], al)), Corrections(b, al, k, j);
            && Corrections(b, al, k, j + 1) == (if u > 1 then bits + [u % 2] else bits)
            && ZerosIn(b, al, k, j + 1) == ZerosIn(b, al, k, j) + if u == 0 then 1 else 0
    ensures Corrections(b, al, k, k) == [] && ZerosIn(b, al, k, k) == 0
  {
    CorrectionsSnoc(b, al, k, j);
    hide PointAc;
  }
}
