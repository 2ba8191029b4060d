/** The statistical model of sections F.1.4 and G.1.3 of ITU-T T.81: which binary
    decisions, on which bins, stand for the coefficients of a block.  Blocks are
    sequences of 64 coefficients in zigzag order. */
module ArithModel {
  import opened Numbers
  import opened IntervalCoder

  const NUM_ARITH_TBLS := 16
  const DC_STAT_BINS := 64
  const AC_STAT_BINS := 256

  /** A coefficient as stored: 16 bits, two's complement. */
  type coef = x: int | -0x8000 <= x < 0x8000

  type tableNo = t: int | 0 <= t < 16

  predicate Allocated(b: Bin) {
    match b
    case DcBin(t, k) => t < NUM_ARITH_TBLS && k < DC_STAT_BINS
    case AcBin(t, k) => t < NUM_ARITH_TBLS && k < AC_STAT_BINS
    case FixedBin => true
  }

  ghost predicate HasAreas(s: Stats) {
    forall b: Bin :: Allocated(b) ==> b in s
  }

  /** All statistics areas, zeroed, and the fixed bin at state 113. */
  function Areas(): (s: Stats)
    ensures StatsOk(s) && HasAreas(s)
  {
    var dc := map t, k | 0 <= t < NUM_ARITH_TBLS && 0 <= k < DC_STAT_BINS :: DcBin(t, k) := 0;
    var ac := map t, k | 0 <= t < NUM_ARITH_TBLS && 0 <= k < AC_STAT_BINS :: AcBin(t, k) := 0;
    dc + ac + map[FixedBin := 113]
  }

  /** Conditioning parameters of each table. */
  datatype Conditioning = Conditioning(dcL: tableNo -> nat, dcU: tableNo -> nat, acK: tableNo -> int)

  /** A bin of the DC or AC area. */
  function BinAt(ac: bool, tbl: tableNo, k: nat): Bin {
    if ac then AcBin(tbl, k) else DcBin(tbl, k)
  }

  /** With rest still to come, the decisions made so far lead to goal. */
  ghost predicate Toward(log: seq<Decision>, rest: seq<Decision>, goal: seq<Decision>) {
    log + rest == goal
  }

  lemma Coded(log: seq<Decision>, ds: seq<Decision>, rest: seq<Decision>, goal: seq<Decision>)
    requires Toward(log, ds + rest, goal)
    ensures Toward(log + ds, rest, goal)
  {
  }

  lemma SkipNone(log: seq<Decision>, rest: seq<Decision>, goal: seq<Decision>)
    ensures Toward(log, [] + rest, goal) ==> Toward(log, rest, goal)
  {
    assert [] + rest == rest;
  }

  lemma Starting(log: seq<Decision>, ds: seq<Decision>)
    ensures Toward(log, ds, log + ds)
  {
  }

  lemma Finished(log: seq<Decision>, ds: seq<Decision>, goal: seq<Decision>)
    requires Toward(log, ds, goal)
    ensures log + ds == goal && (ds == [] ==> log == goal)
  {
  }

  /** The decisions ahead of a decoder: ds, and then rest. */
  ghost predicate Next(pending: seq<Decision>, ds: seq<Decision>, rest: seq<Decision>) {
    pending == ds + rest
  }

  lemma NextOne(pending: seq<Decision>, d: Decision, ds: seq<Decision>, rest: seq<Decision>)
    requires Next(pending, [d] + ds, rest)
    ensures pending != [] && pending[0] == d && Next(pending[1..], ds, rest)
  {
    assert pending == [d] + (ds + rest);
  }

  lemma NextSplit(pending: seq<Decision>, ds: seq<Decision>, es: seq<Decision>, rest: seq<Decision>)
    requires Next(pending, ds + es, rest)
    ensures Next(pending, ds, es + rest)
  {
    assert ds + es + rest == ds + (es + rest);
  }

  lemma NextIs(pending: seq<Decision>, ds: seq<Decision>, rest: seq<Decision>)
    requires Next(pending, [], ds + rest)
    ensures Next(pending, ds, rest)
  {
  }

  // ----- Magnitudes -----

  function TopBit(v: nat): (m: nat)
    requires v >= 1
    ensures 1 <= m <= v < 2 * m
  {
    if v < 2 then 1 else 2 * TopBit(v / 2)
  }

  function Doublings(v: nat): (n: nat)
    requires v >= 1
  {
    if v < 2 then 0 else 1 + Doublings(v / 2)
  }

  /** m doubled until v is exhausted. */
  function Grown(m: nat, v: nat): nat
    requires v >= 1
    decreases v
  {
    if v < 2 then m else Grown(2 * m, v / 2)
  }

  lemma {:induction false} GrownIs(m: nat, v: nat)
    requires v >= 1
    ensures Grown(m, v) == m * TopBit(v)
    decreases v
  {
    if v >= 2 {
      GrownIs(2 * m, v / 2);
    }
  }

  lemma {:induction false} TopBitPower(v: nat)
    requires v >= 1
    ensures TopBit(v) == Pow2(Doublings(v))
    decreases v
  {
    if v >= 2 {
      TopBitPower(v / 2);
    }
  }

  /** Figure F.8 of T.81: one decision per doubling of the category, on successive bins. */
  function Category(ac: bool, tbl: tableNo, st: nat, v: nat): (ds: seq<Decision>)
    requires v >= 1
    decreases v
  {
    if v < 2 then [Decision(BinAt(ac, tbl, st), 0)]
    else [Decision(BinAt(ac, tbl, st), 1)] + Category(ac, tbl, st + 1, v / 2)
  }

  /** Figure F.9 of T.81: the bits of v below m, highest first, on one bin. */
  function Pattern(ac: bool, tbl: tableNo, st: nat, m: nat, v: nat): (ds: seq<Decision>) {
    if m < 2 then []
    else [Decision(BinAt(ac, tbl, st), v / (m / 2) % 2)] + Pattern(ac, tbl, st, m / 2, v)
  }

  lemma {:induction false} DoublingsBound(v: nat, n: nat)
    requires 1 <= v < Pow2(n + 1)
    ensures Doublings(v) <= n
    decreases v
  {
    if v >= 2 {
      DoublingsBound(v / 2, n - 1);
    }
  }

  /** A DC difference uses bins below 20 and 20 to 49, the last of them only beyond 2^15. */
  lemma DcBins(u: nat)
    requires 1 <= u < 0x10000
    ensures 34 + Doublings(u) <= 49
    ensures u < 0x8000 ==> 34 + Doublings(u) <= 48
  {
    assert Pow2(8) == 0x100;
    Pow2Add(8, 8);
    assert Pow2(15) == 0x8000;
    DoublingsBound(u, 15);
    if u < 0x8000 {
      DoublingsBound(u, 14);
    }
  }

  /** An AC magnitude uses bins up to 188 by position and 189 to 244 by size. */
  lemma AcBins(u: nat)
    requires 2 <= u < 0x8000
    ensures 217 + Doublings(u / 2) + 14 <= 244
    ensures TopBit(u) == 2 * TopBit(u / 2)
  {
    assert Pow2(14) == 0x4000;
    DoublingsBound(u / 2, 13);
  }

  // ----- DC differences -----

  type Context = c: nat | c == 0 || c == 4 || c == 8 || c == 12 || c == 16

  /** DC predictions and contexts, one of each per component of a scan. */
  type Predictions = s: seq<coef> | |s| == 4 witness [0, 0, 0, 0]

  type Contexts = s: seq<Context> | |s| == 4 witness [0, 0, 0, 0]

  type compNo = c: int | 0 <= c < 4

  function Abs(v: int): (u: nat) {
    if v < 0 then -v else v
  }

  function SignBit(v: int): bit {
    if v < 0 then 1 else 0
  }

  function DcMagnitude(tbl: tableNo, st: nat, u: nat): seq<Decision> {
    if u == 0 then [Decision(DcBin(tbl, st), 0)]
    else [Decision(DcBin(tbl, st), 1)]
         + (Category(false, tbl, 20, u) + Pattern(false, tbl, 34 + Doublings(u), TopBit(u), u))
  }

  /** Figure F.4 of T.81: a DC difference, in the context left by the previous one. */
  function DcDiff(tbl: tableNo, context: nat, v: int): seq<Decision> {
    if v == 0 then [Decision(DcBin(tbl, context), 0)]
    else [Decision(DcBin(tbl, context), 1), Decision(DcBin(tbl, context + 1), SignBit(v))]
         + DcMagnitude(tbl, context + 2 + SignBit(v), Abs(v) - 1)
  }

  /** Section F.1.4.4.1.2 of T.81: zero, small or large difference, by its sign. */
  function NextContext(cond: Conditioning, tbl: tableNo, v: int): Context {
    if v == 0 then 0
    else
      var m := if Abs(v) == 1 then 0 else TopBit(Abs(v) - 1);
      if m < Pow2(cond.dcL(tbl)) / 2 then 0
      else if m > Pow2(cond.dcU(tbl)) / 2 then 12 + 4 * SignBit(v)
      else 4 + 4 * SignBit(v)
  }

  /** What the category says about the difference itself: zero up to half of 2^L, large beyond 2^U, and
      otherwise small, the latter two by sign. */
  lemma ContextMeans(cond: Conditioning, tbl: tableNo, v: int)
    ensures var L, U := cond.dcL(tbl), cond.dcU(tbl);
            var near := v == 0 || (L >= 1 && Abs(v) <= Pow2(L - 1));
            NextContext(cond, tbl, v)
            == if near then 0
               else (if Abs(v) > Pow2(U) then (if v > 0 then 12 else 16) else (if v > 0 then 4 else 8))
  {
    var L, U := cond.dcL(tbl), cond.dcU(tbl);
    HalfPower(L);
    HalfPower(U);
    hide Pow2, TopBit;
    if Abs(v) > 1 {
      TopBelow(Abs(v) - 1, U);
      if L >= 1 {
        TopBelow(Abs(v) - 1, L - 1);
      }
    }
  }

  lemma HalfPower(n: nat)
    ensures Pow2(n) / 2 == if n == 0 then 0 else Pow2(n - 1)
    ensures Pow2(n) >= 1
  {
  }

  /** A number is below a power of two if and only if its top bit is; and top bits are powers of two. */
  lemma TopBelow(u: nat, n: nat)
    requires u >= 1
    ensures TopBit(u) < Pow2(n) <==> u < Pow2(n)
    ensures TopBit(u) > Pow2(n) / 2 <==> u >= Pow2(n)
  {
    var d := Doublings(u);
    TopBitPower(u);
    HalfPower(n);
    assert Pow2(d + 1) == 2 * Pow2(d);
    hide Pow2, TopBit, Doublings;
    if d < n {
      Pow2Mono(d + 1, n);
      Pow2Mono(d, n - 1);
    } else {
      Pow2Mono(n, d);
    }
  }

  /** The point transform of DC coefficients: an arithmetic right shift. */
  function PointDc(x: coef, al: nat): (r: coef) {
    FloorBounds(x, Pow2(al));
    x / Pow2(al)
  }

  /** What a decoder knows of a DC coefficient after the scans down to bit al. */
  function TruncDc(x: coef, al: nat): (r: int) {
    Shl(PointDc(x, al), al)
  }

  /** The largest point transform a decoder accepts. */
  const MAX_AL := 13

  lemma TruncDcRange(x: coef, al: nat)
    requires al <= MAX_AL
    ensures -0x8000 <= TruncDc(x, al) < 0x8000
  {
    SplitPower(al);
    hide Pow2;
    FloorRange(x, Pow2(al), Pow2(15 - al));
  }

  lemma SplitPower(al: nat)
    requires al <= 15
    ensures Pow2(al) * Pow2(15 - al) == 0x8000
  {
    Pow2Add(al, 15 - al);
    assert Pow2(15) == 0x8000;
  }

  lemma FloorRange(x: coef, p: nat, r: nat)
    requires p >= 1 && p * r == 0x8000
    ensures -0x8000 <= x / p * p < 0x8000
  {
    FloorAtLeast(x, p, r);
    DivTimesLess(x, p);
  }

  lemma FloorAtLeast(x: int, p: int, r: int)
    requires p >= 1 && x >= -(p * r)
    ensures x / p * p >= -(p * r)
  {
    var q: int := x / p;
    assert x == p * q + x % p;
    if q < -r {
      MulMono(q, -r - 1, p);
    } else {
      MulMono(-r, q, p);
    }
  }

  lemma DivTimesLess(x: int, p: nat)
    requires p >= 1
    ensures x / p * p <= x
  {
    assert x == p * (x / p) + x % p;
  }

  /** x | (1 << al), on two's complement. */
  function OrBit(x: int, al: nat): int {
    if x / Pow2(al) % 2 == 0 then x + Pow2(al) else x
  }

  lemma DcBit(x: coef, al: nat)
    ensures TruncDc(x, al) == if PointDc(x, al) % 2 == 0 then TruncDc(x, al + 1) else OrBit(TruncDc(x, al + 1), al)
  {
    var q := PointDc(x, al);
    HalfDiv(x, al);
    assert PointDc(x, al + 1) == q / 2;
    ShlStep(q / 2, al);
    ShlAdd(2 * (q / 2), q % 2, al);
    ShlDiv(2 * (q / 2), al);
    assert Shl(1, al) == Pow2(al);
    assert Shl(0, al) == 0;
    hide Shl, Pow2, PointDc;
  }

  lemma ShlDiv(q: int, al: nat)
    ensures Shl(q, al) / Pow2(al) == q
  {
    DivModUnique(q * Pow2(al), Pow2(al), q, 0);
  }

  lemma HalfDiv(u: int, al: nat)
    ensures u / Pow2(al + 1) == u / Pow2(al) / 2
  {
    var p := Pow2(al);
    var q := u / p;
    MulSwap(q / 2, 2, p);
    assert u == p * q + u % p;
    assert q == 2 * (q / 2) + q % 2;
    assert p * q == 2 * p * (q / 2) + q % 2 * p by {
      MulSwap(p, 2, q / 2);
    }
    DivModUnique(u, 2 * p, q / 2, (q % 2) * p + u % p);
  }

  lemma FloorBounds(x: coef, p: nat)
    requires p >= 1
    ensures -0x8000 <= x / p < 0x8000
  {
  }

  // ----- AC coefficients -----

  type Block = b: seq<int> | |b| == 64 witness seq(64, _ => 0)

  /** The point transform of AC coefficients: division rounding towards zero. */
  function PointAc(x: int, al: nat): (r: int) {
    if x >= 0 then x / Pow2(al) else -((-x) / Pow2(al))
  }

  /** What a decoder knows of an AC coefficient after the scans down to bit al. */
  function Trunc(x: int, al: nat): (r: int) {
    Shl(PointAc(x, al), al)
  }

  /** All coefficients fit 16 bits. */
  ghost predicate InRange(b: Block) {
    forall i | 0 <= i < 64 :: -0x8000 <= b[i] < 0x8000
  }

  lemma CoefInRange(b: Block, k: nat)
    requires InRange(b) && k < 64
    ensures -0x8000 <= b[k] < 0x8000
  {
  }

  lemma DivTimes(x: nat, p: nat)
    requires p >= 1
    ensures 0 <= x / p * p <= x
  {
  }

  lemma TruncRange(b: Block, k: nat, al: nat)
    requires InRange(b) && k < 64
    ensures Trunc(b[k], al) == Shl(PointAc(b[k], al), al)
    ensures -0x8000 <= Trunc(b[k], al) < 0x8000
  {
    DivTimes(Abs(b[k]), Pow2(al));
  }

  lemma PointBounds(x: coef, al: nat)
    ensures -0x8000 <= PointAc(x, al) <= 0x8000
  {
    DivBounds(Abs(x), Pow2(al));
  }

  lemma DivBounds(x: nat, d: nat)
    requires d >= 1
    ensures 0 <= x / d <= x
  {
  }

  lemma TruncZero(x: int, al: nat)
    ensures Trunc(x, al) == 0 <==> PointAc(x, al) == 0
  {
    if Trunc(x, al) == 0 {
      assert Shl(0, al) == 0;
      ShlInjective(PointAc(x, al), 0, al);
    }
  }

  /** The magnitude at bit al is twice the one at bit al + 1, plus a bit. */
  lemma RefineBit(x: int, al: nat)
    ensures Trunc(x, al + 1) != 0 <==> Abs(PointAc(x, al)) >= 2
    ensures PointAc(x, al) == 0 ==> Trunc(x, al + 1) == 0 && Trunc(x, al) == 0
    ensures var bit := Shl(Abs(PointAc(x, al)) % 2, al);
            Trunc(x, al) == if x < 0 then Trunc(x, al + 1) - bit else Trunc(x, al + 1) + bit
    ensures Trunc(x, al + 1) < 0 ==> x < 0
    ensures Trunc(x, al + 1) > 0 ==> x >= 0
    ensures PointAc(x, al) < 0 ==> x < 0
    ensures PointAc(x, al) > 0 ==> x >= 0
    ensures Shl(0, al) == 0
  {
    hide Pow2, Shl, Trunc, PointAc, Quotient;
    QuotientHalf(x, al);
    SignedTrunc(x, al);
    SignedTrunc(x, al + 1);
    RefineQuotient(Quotient(x, al), al);
  }

  function Quotient(x: int, al: nat): int {
    Abs(x) / Pow2(al)
  }

  lemma QuotientHalf(x: int, al: nat)
    ensures 0 <= Quotient(x, al) && Quotient(x, al + 1) == Quotient(x, al) / 2
    ensures x == 0 ==> Quotient(x, al) == 0
  {
    HalfDiv(Abs(x), al);
    DivBounds(Abs(x), Pow2(al));
  }

  lemma RefineQuotient(q: nat, al: nat)
    ensures Shl(q, al) == Shl(q / 2, al + 1) + Shl(q % 2, al)
    ensures Shl(q / 2, al + 1) >= 0 && (Shl(q / 2, al + 1) == 0 <==> q < 2)
    ensures Shl(q, al) >= 0 && Shl(0, al) == 0
  {
    ShlStep(q / 2, al);
    ShlAdd(2 * (q / 2), q % 2, al);
    ShlSign(q / 2, al + 1);
    ShlSign(q, al);
    ShlSign(0, al);
    hide Pow2, Shl;
  }

  lemma SignedTrunc(x: int, al: nat)
    ensures PointAc(x, al) == if x < 0 then -Quotient(x, al) else Quotient(x, al)
    ensures Trunc(x, al) == if x < 0 then -Shl(Quotient(x, al), al) else Shl(Quotient(x, al), al)
  {
  }

  lemma ShlSign(q: nat, n: nat)
    ensures Shl(q, n) >= 0
    ensures Shl(q, n) == 0 <==> q == 0
  {
    if q > 0 {
      MulMono(1, q, Pow2(n));
    }
  }

  /** The last position up to se whose transformed coefficient is not zero, or 0. */
  function LastNonzero(b: Block, al: nat, se: nat): (k: nat)
    requires se < 64
    ensures k <= se
    ensures forall i | k < i <= se :: PointAc(b[i], al) == 0
    ensures k > 0 ==> PointAc(b[k], al) != 0
  {
    if se == 0 then 0 else if PointAc(b[se], al) != 0 then se else LastNonzero(b, al, se - 1)
  }

  function AcMagnitude(tbl: tableNo, st: nat, base: nat, u: nat): seq<Decision> {
    if u == 0 then [Decision(AcBin(tbl, st), 0)]
    else if u == 1 then [Decision(AcBin(tbl, st), 1), Decision(AcBin(tbl, st), 0)]
    else [Decision(AcBin(tbl, st), 1), Decision(AcBin(tbl, st), 1)]
         + (Category(true, tbl, base, u / 2)
            + Pattern(true, tbl, base + Doublings(u / 2) + 14, TopBit(u), u))
  }

  /** A nonzero coefficient at position k, once known to be nonzero. */
  function AcValue(tbl: tableNo, kx: int, k: nat, v: int): seq<Decision>
    requires k >= 1 && v != 0
  {
    [Decision(FixedBin, SignBit(v))]
    + AcMagnitude(tbl, 3 * (k - 1) + 2, if k <= kx then 189 else 217, Abs(v) - 1)
  }

  /** Figure F.5 of T.81, after position k: between coefficients, or inside a run that
      ends at a nonzero coefficient.  The last nonzero one is at ke. */
  function AcFirst(tbl: tableNo, kx: int, b: Block, al: nat, se: nat, ke: nat, k: nat, run: bool): seq<Decision>
    requires ke <= se < 64
    decreases 64 - k, if run then 0 else 1
  {
    if !run then
      if k < ke then [Decision(AcBin(tbl, 3 * k), 0)] + AcFirst(tbl, kx, b, al, se, ke, k, true)
      else if k < se then [Decision(AcBin(tbl, 3 * k), 1)]
      else []
    else if k >= ke then []
    else
      var v := PointAc(b[k + 1], al);
      if v == 0 then [Decision(AcBin(tbl, 3 * k + 1), 0)] + AcFirst(tbl, kx, b, al, se, ke, k + 1, true)
      else [Decision(AcBin(tbl, 3 * k + 1), 1)]
           + (AcValue(tbl, kx, k + 1, v) + AcFirst(tbl, kx, b, al, se, ke, k + 1, false))
  }

  /** A coefficient that is not zero any more: a correction bit, or its sign. */
  function Refined(tbl: tableNo, k: nat, v: int): seq<Decision> {
    if Abs(v) >= 2 then [Decision(AcBin(tbl, 3 * k + 2), Abs(v) % 2)]
    else [Decision(AcBin(tbl, 3 * k + 1), 1), Decision(FixedBin, SignBit(v))]
  }

  /** Figure G.10 of T.81: refinement by one bit; kex is the last position that the
      earlier scans sent as nonzero. */
  function AcRefine(tbl: tableNo, b: Block, al: nat, se: nat, ke: nat, kex: nat, k: nat, run: bool): seq<Decision>
    requires ke <= se < 64
    decreases 64 - k, if run then 0 else 1
  {
    if !run then
      if k < ke then
        (if k >= kex then [Decision(AcBin(tbl, 3 * k), 0)] else [])
        + AcRefine(tbl, b, al, se, ke, kex, k, true)
      else if k < se then [Decision(AcBin(tbl, 3 * k), 1)]
      else []
    else if k >= ke then []
    else
      var v := PointAc(b[k + 1], al);
      if v == 0 then [Decision(AcBin(tbl, 3 * k + 1), 0)] + AcRefine(tbl, b, al, se, ke, kex, k + 1, true)
      else Refined(tbl, k, v) + AcRefine(tbl, b, al, se, ke, kex, k + 1, false)
  }

  /** The decisions of one block in a first scan of its AC coefficients ss to se. */
  function AcFirstBlock(tbl: tableNo, kx: int, b: Block, ss: nat, se: nat, al: nat): seq<Decision>
    requires 1 <= ss <= se < 64
  {
    AcFirst(tbl, kx, b, al, se, LastNonzero(b, al, se), ss - 1, false)
  }

  /** The decisions of one block in a refinement scan from bit ah to bit al. */
  function AcRefineBlock(tbl: tableNo, b: Block, ss: nat, se: nat, ah: nat, al: nat): seq<Decision>
    requires 1 <= ss <= se < 64
  {
    var ke := LastNonzero(b, al, se);
    AcRefine(tbl, b, al, se, ke, LastNonzero(b, ah, ke), ss - 1, false)
  }

  lemma AcFirstHead(tbl: tableNo, kx: int, b: Block, al: nat, se: nat, ke: nat, k: nat)
    requires k < se < 64 && ke <= se
    ensures AcFirst(tbl, kx, b, al, se, ke, k, false)
            == [Decision(AcBin(tbl, 3 * k), if k < ke then 0 else 1)]
               + if k < ke then AcFirst(tbl, kx, b, al, se, ke, k, true) else []
  {
    hide PointAc, AcValue;
  }

  lemma AcFirstRun(tbl: tableNo, kx: int, b: Block, al: nat, se: nat, ke: nat, k: nat)
    requires k < ke <= se < 64
    ensures var x := PointAc(b[k + 1], al);
            var after := AcFirst(tbl, kx, b, al, se, ke, k + 1, x == 0);
            AcFirst(tbl, kx, b, al, se, ke, k, true)
            == if x == 0 then [Decision(AcBin(tbl, 3 * k + 1), 0)] + after
               else [Decision(AcBin(tbl, 3 * k + 1), 1)] + (AcValue(tbl, kx, k + 1, x) + after)
  {
    hide PointAc, AcValue;
  }

  lemma AcFirstEnd(tbl: tableNo, kx: int, b: Block, al: nat, se: nat, ke: nat, k: nat)
    requires k == se < 64 && ke <= se
    ensures AcFirst(tbl, kx, b, al, se, ke, k, false) == []
  {
    hide PointAc, AcValue;
  }

  lemma AcRefineHead(tbl: tableNo, b: Block, al: nat, se: nat, ke: nat, kex: nat, k: nat)
    requires k < se < 64 && kex <= ke <= se
    ensures k >= kex ==>
              AcRefine(tbl, b, al, se, ke, kex, k, false)
              == [Decision(AcBin(tbl, 3 * k), if k < ke then 0 else 1)]
                 + if k < ke then AcRefine(tbl, b, al, se, ke, kex, k, true) else []
    ensures k < kex ==>
              AcRefine(tbl, b, al, se, ke, kex, k, false) == AcRefine(tbl, b, al, se, ke, kex, k, true)
  {
    hide PointAc, Refined;
  }

  lemma AcRefineEnd(tbl: tableNo, b: Block, al: nat, se: nat, ke: nat, kex: nat, k: nat)
    requires k == se < 64 && ke <= se
    ensures AcRefine(tbl, b, al, se, ke, kex, k, false) == []
  {
    hide PointAc, Refined;
  }

  lemma AcRefineRun(tbl: tableNo, b: Block, al: nat, se: nat, ke: nat, kex: nat, k: nat)
    requires k < ke <= se < 64
    ensures var x := PointAc(b[k + 1], al);
            var after := AcRefine(tbl, b, al, se, ke, kex, k + 1, x == 0);
            AcRefine(tbl, b, al, se, ke, kex, k, true)
            == if Abs(x) >= 2 then [Decision(AcBin(tbl, 3 * k + 2), Abs(x) % 2)] + after
               else if x == 0 then [Decision(AcBin(tbl, 3 * k + 1), 0)] + after
               else [Decision(AcBin(tbl, 3 * k + 1), 1)] + ([Decision(FixedBin, SignBit(x))] + after)
    ensures PointAc(b[k + 1], al) != 0 ==>
              AcRefine(tbl, b, al, se, ke, kex, k, true)
              == Refined(tbl, k, PointAc(b[k + 1], al)) + AcRefine(tbl, b, al, se, ke, kex, k + 1, false)
  {
    hide PointAc;
  }
}
