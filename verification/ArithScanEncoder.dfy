/** The MCU routines of the arithmetic encoder. */
module ArithScanEncoder {
  import opened Numbers
  import opened IntervalCoder
  import opened ArithModel
  import opened ArithScan
  import opened RestartIntervals
  import opened ArithIntervals
  import opened Stuffing
  import E = ArithEncoder

  class ScanEncoder {
    const coder: E.ArithEncoder
    const cond: Conditioning
    var lastDc: Predictions       // last DC value of each component in the scan
    var dcContext: Contexts       // its conditioning context
    const restartInterval: nat    // MCUs between restart markers, or 0
    var restartsToGo: nat         // MCUs left in this interval
    var nextRestartNum: nat       // next restart number to write (0-7)

    ghost var log: seq<Decision>  // all decisions of this interval

    constructor (cond: Conditioning, restartInterval: nat)
      ensures Valid() && log == [] && fresh(coder)
      ensures this.cond == cond && coder.output == [] && coder.header == []
      ensures lastDc == [0, 0, 0, 0] && dcContext == [0, 0, 0, 0]
      ensures this.restartInterval == restartsToGo == restartInterval && nextRestartNum == 0
    {
      this.restartInterval, restartsToGo, nextRestartNum := restartInterval, restartInterval, 0;
      coder := new E.ArithEncoder(Areas());
      this.cond, lastDc, dcContext, log := cond, [0, 0, 0, 0], [0, 0, 0, 0], [];
    }

    ghost predicate Valid()
      reads `log, coder
    {
      && coder.Valid()
      && HasAreas(coder.stats)
      && Known(Areas(), log)
      && Ready(Coder(WHOLE, Areas()))
      && coder.State() == CodeAll(Coder(WHOLE, Areas()), log)
    }

    method Put(bin: Bin, val: bit)
      requires Valid() && Allocated(bin)
      modifies coder, `log
      ensures Valid() && log == old(log) + [Decision(bin, val)]
      ensures coder.header == old(coder.header)
    {
      hide Code, CodeAll, Areas, Allocated, Normal, StatsOk, E.ArithEncoder.Valid, E.ArithEncoder.State;
      ghost var d := Decision(bin, val);
      PutStep(log, d);
      coder.Fields();
      coder.Encode(bin, val);
      coder.Fields();
      log := log + [d];
    }

    /** The magnitude category: one decision per doubling. */
    method EncodeCategory(ac: bool, tbl: tableNo, st0: nat, v: nat) returns (m: nat, st: nat)
      requires Valid() && 1 <= v && CategoryFits(ac, st0, v)
      modifies coder, `log
      ensures Valid() && coder.header == old(coder.header)
      ensures log == old(log) + Category(ac, tbl, st0, v)
      ensures m == TopBit(v) && st == st0 + Doublings(v)
    {
      hide Valid, TopBit;
      GrownIs(1, v);
      m, st := 1, st0;
      var v2 := v;
      while v2 / 2 != 0
        invariant Valid() && coder.header == old(coder.header)
        invariant 1 <= v2 && st + Doublings(v2) == st0 + Doublings(v) && Grown(m, v2) == Grown(1, v)
        invariant log + Category(ac, tbl, st, v2) == old(log) + Category(ac, tbl, st0, v)
        decreases v2
      {
        Put(BinAt(ac, tbl, st), 1);
        v2 := v2 / 2;
        m := 2 * m;
        st := st + 1;
      }
      Put(BinAt(ac, tbl, st), 0);
    }

    /** The magnitude bits below the top one. */
    method EncodePattern(ac: bool, tbl: tableNo, st: nat, m0: nat, v: nat)
      requires Valid() && (m0 >= 2 ==> Allocated(BinAt(ac, tbl, st)))
      modifies coder, `log
      ensures Valid() && coder.header == old(coder.header)
      ensures log == old(log) + Pattern(ac, tbl, st, m0, v)
    {
      hide Valid, BinAt;
      var m: nat := m0;
      while m >= 2
        invariant Valid() && coder.header == old(coder.header)
        invariant log + Pattern(ac, tbl, st, m, v) == old(log) + Pattern(ac, tbl, st, m0, v)
        invariant m <= m0
      {
        m := m / 2;
        Put(BinAt(ac, tbl, st), v / m % 2);
      }
    }

    /** The magnitude of a nonzero DC difference, less one. */
    method EncodeDcMagnitude(ci: compNo, tbl: tableNo, st0: nat, v: nat)
      requires Valid() && st0 < 20 && v < 0x10000 && (dcContext[ci] == 4 || dcContext[ci] == 8)
      modifies coder, `log, `dcContext
      ensures Valid() && coder.header == old(coder.header)
      ensures log == old(log) + DcMagnitude(tbl, st0, v)
      ensures var m := if v == 0 then 0 else TopBit(v);
              dcContext == old(dcContext)[ci := if m < Pow2(cond.dcL(tbl)) / 2 then 0
                                                else if m > Pow2(cond.dcU(tbl)) / 2 then old(dcContext)[ci] + 8
                                                else old(dcContext)[ci]]
    {
      hide Valid, Category, Pattern, TopBit, Doublings, Pow2;
      var m, st := 0, st0;
      if v != 0 {
        DcBins(v);
        Put(DcBin(tbl, st), 1);
        m, st := EncodeCategory(false, tbl, 20, v);
      } else {
        Put(DcBin(tbl, st), 0);
        NoPattern(tbl, st + 14);
      }
      Condition(ci, tbl, m);
      EncodePattern(false, tbl, st + 14, m, v);
    }

    /** The sign of a nonzero DC difference. */
    method EncodeDcSign(ci: compNo, tbl: tableNo, st: Context, v: int) returns (st': nat, u: nat)
      requires Valid() && v != 0
      modifies coder, `log, `dcContext
      ensures Valid() && coder.header == old(coder.header)
      ensures log == old(log) + [Decision(DcBin(tbl, st), 1), Decision(DcBin(tbl, st + 1), SignBit(v))]
      ensures st' == st + 2 + SignBit(v) && u == Abs(v)
      ensures dcContext == old(dcContext)[ci := 4 + 4 * SignBit(v)]
    {
      hide Valid;
      Put(DcBin(tbl, st), 1);
      if v > 0 {
        Put(DcBin(tbl, st + 1), 0);
        u, st' := v, st + 2;
        dcContext := dcContext[ci := 4];
      } else {
        u := -v;
        Put(DcBin(tbl, st + 1), 1);
        st' := st + 3;
        dcContext := dcContext[ci := 8];
      }
    }

    /** Section F.1.4.4.1.2 of T.81: the category that conditions the next difference. */
    method Condition(ci: compNo, tbl: tableNo, m: nat)
      requires dcContext[ci] == 4 || dcContext[ci] == 8
      modifies `dcContext
      ensures dcContext == old(dcContext)[ci := if m < Pow2(cond.dcL(tbl)) / 2 then 0
                                                else if m > Pow2(cond.dcU(tbl)) / 2 then old(dcContext)[ci] + 8
                                                else old(dcContext)[ci]]
    {
      hide Pow2;
      if m < Pow2(cond.dcL(tbl)) / 2 {
        dcContext := dcContext[ci := 0];
      } else if m > Pow2(cond.dcU(tbl)) / 2 {
        dcContext := dcContext[ci := dcContext[ci] + 8];
      }
    }

    /** One DC value, as the difference from the previous one of its component. */
    method EncodeDcDiff(ci: compNo, tbl: tableNo, value: coef)
      requires Valid()
      modifies coder, `log, `lastDc, `dcContext
      ensures Valid() && coder.header == old(coder.header)
      ensures log == old(log) + DcDiff(tbl, old(dcContext)[ci], value - old(lastDc)[ci])
      ensures lastDc == old(lastDc)[ci := value]
      ensures dcContext == old(dcContext)[ci := NextContext(cond, tbl, value - old(lastDc)[ci])]
    {
      hide Valid, DcMagnitude, TopBit, Pow2;
      var st := dcContext[ci];
      var v := value - lastDc[ci];
      if v == 0 {
        Put(DcBin(tbl, st), 0);
        dcContext := dcContext[ci := 0];
      } else {
        lastDc := lastDc[ci := value];
        var st', u := EncodeDcSign(ci, tbl, st, v);
        EncodeDcMagnitude(ci, tbl, st', u - 1);
      }
    }

    /** The magnitude of a nonzero AC coefficient, less one. */
    method EncodeAcMagnitude(tbl: tableNo, st0: nat, base: nat, v: nat)
      requires Valid() && st0 < 189 && (base == 189 || base == 217) && v < 0x8000
      modifies coder, `log
      ensures Valid() && coder.header == old(coder.header)
      ensures log == old(log) + AcMagnitude(tbl, st0, base, v)
    {
      hide Valid, Category, Pattern, TopBit, Doublings;
      var st := st0;
      if v >= 2 {
        Put(AcBin(tbl, st), 1);
        Put(AcBin(tbl, st), 1);
        EncodeAcLarge(tbl, base, v);
      } else {
        if v != 0 {
          Put(AcBin(tbl, st), 1);
        }
        Put(AcBin(tbl, st), 0);
      }
    }

    method EncodeAcLarge(tbl: tableNo, base: nat, v: nat)
      requires Valid() && (base == 189 || base == 217) && 2 <= v < 0x8000
      modifies coder, `log
      ensures Valid() && coder.header == old(coder.header)
      ensures log == old(log) + (Category(true, tbl, base, v / 2)
                                 + Pattern(true, tbl, base + Doublings(v / 2) + 14, TopBit(v), v))
    {
      hide Valid, Category, Pattern, TopBit, Doublings;
      AcBins(v);
      var m, st := EncodeCategory(true, tbl, base, v / 2);
      m := 2 * m;
      EncodePattern(true, tbl, st + 14, m, v);
    }

    /** A coefficient already known to be nonzero: sign and magnitude. */
    method EncodeAcValue(tbl: tableNo, k: nat, v: int)
      requires Valid() && 1 <= k < 64 && v != 0 && -0x8000 <= v <= 0x8000
      modifies coder, `log
      ensures Valid() && coder.header == old(coder.header)
      ensures log == old(log) + AcValue(tbl, cond.acK(tbl), k, v)
    {
      hide Valid, AcMagnitude;
      if v > 0 {
        Put(FixedBin, 0);
      } else {
        Put(FixedBin, 1);
      }
      EncodeAcMagnitude(tbl, 3 * (k - 1) + 2, if k <= cond.acK(tbl) then 189 else 217, Abs(v) - 1);
    }

    /** The end-of-block index: the last nonzero transformed coefficient. */
    method FindEnd(block: array<coef>, al: nat, se: nat) returns (ke: nat)
      requires block.Length == 64 && se < 64
      ensures ke == LastNonzero(block[..], al, se)
    {
      ke := se;
      while ke > 0 && PointAc(block[ke], al) == 0
        invariant ke < 64 && LastNonzero(block[..], al, ke) == LastNonzero(block[..], al, se)
      {
        ke := ke - 1;
      }
    }

    /** AC coefficients ss to se of one block, for the first time, down to bit al. */
    method EncodeAcFirst(block: array<coef>, tbl: tableNo, ss: nat, se: nat, al: nat)
      requires Valid() && block.Length == 64 && 1 <= ss <= se < 64
      modifies coder, `log
      ensures Valid() && coder.header == old(coder.header)
      ensures log == old(log) + AcFirstBlock(tbl, cond.acK(tbl), block[..], ss, se, al)
    {
      hide Valid, AcValue, AcFirst, PointAc, LastNonzero, Toward, Allocated;
      ghost var b := block[..];
      ghost var kx := cond.acK(tbl);
      var ke := FindEnd(block, al, se);
      ghost var goal := old(log) + AcFirst(tbl, kx, b, al, se, ke, ss - 1, false);
      var k := ss - 1;
      Starting(log, AcFirst(tbl, kx, b, al, se, ke, k, false));
      while k < ke
        invariant Valid() && coder.header == old(coder.header) && ss - 1 <= k <= se && block[..] == b
        invariant k <= ke || k == ss - 1
        invariant Toward(log, AcFirst(tbl, kx, b, al, se, ke, k, false), goal)
      {
        k := EncodeAcRun(block, tbl, se, ke, al, k, goal);
      }
      Finished(log, AcFirst(tbl, kx, b, al, se, ke, k, false), goal);
      if k == se {
        AcFirstEnd(tbl, kx, b, al, se, ke, k);
      } else {
        AcFirstHead(tbl, kx, b, al, se, ke, k);
        AcCells(tbl, k);
      }
      if k < se {
        Put(AcBin(tbl, 3 * k), 1);
      }
    }

    /** One end-of-block decision, a run of zeros and the nonzero coefficient after it. */
    method EncodeAcRun(block: array<coef>, tbl: tableNo, se: nat, ke: nat, al: nat, k0: nat,
                       ghost goal: seq<Decision>)
      returns (k: nat)
      requires Valid() && block.Length == 64 && k0 < ke <= se < 64 && PointAc(block[ke], al) != 0
      requires Toward(log, AcFirst(tbl, cond.acK(tbl), block[..], al, se, ke, k0, false), goal)
      modifies coder, `log
      ensures Valid() && coder.header == old(coder.header) && k0 < k <= ke
      ensures Toward(log, AcFirst(tbl, cond.acK(tbl), block[..], al, se, ke, k, false), goal)
    {
      hide Valid, AcValue, AcFirst, PointAc, LastNonzero, Toward, Allocated, Known, Areas;
      ghost var b := block[..];
      ghost var kx := cond.acK(tbl);
      k := k0;
      AcCells(tbl, k);
      AcFirstHead(tbl, kx, b, al, se, ke, k);
      Coded(log, [Decision(AcBin(tbl, 3 * k), 0)], AcFirst(tbl, kx, b, al, se, ke, k, true), goal);
      Put(AcBin(tbl, 3 * k), 0);
      var v := PointAc(block[k + 1], al);
      while v == 0
        invariant Valid() && coder.header == old(coder.header) && block[..] == b
        invariant k0 <= k < ke && v == PointAc(b[k + 1], al)
        invariant Toward(log, AcFirst(tbl, kx, b, al, se, ke, k, true), goal)
        decreases ke - k
      {
        AcFirstRun(tbl, kx, b, al, se, ke, k);
        AcCells(tbl, k);
        Coded(log, [Decision(AcBin(tbl, 3 * k + 1), 0)], AcFirst(tbl, kx, b, al, se, ke, k + 1, true), goal);
        Put(AcBin(tbl, 3 * k + 1), 0);
        k := k + 1;
        v := PointAc(block[k + 1], al);
      }
      PointBounds(b[k + 1], al);
      AcFirstRun(tbl, kx, b, al, se, ke, k);
      AcCells(tbl, k);
      ghost var after := AcFirst(tbl, kx, b, al, se, ke, k + 1, false);
      Coded(log, [Decision(AcBin(tbl, 3 * k + 1), 1)], AcValue(tbl, kx, k + 1, v) + after, goal);
      Put(AcBin(tbl, 3 * k + 1), 1);
      k := k + 1;
      Coded(log, AcValue(tbl, kx, k, v), after, goal);
      EncodeAcValue(tbl, k, v);
    }

    /** AC coefficients ss to se of one block, refined from bit ah to bit al. */
    method EncodeAcRefine(block: array<coef>, tbl: tableNo, ss: nat, se: nat, ah: nat, al: nat)
      requires Valid() && block.Length == 64 && 1 <= ss <= se < 64
      modifies coder, `log
      ensures Valid() && coder.header == old(coder.header)
      ensures log == old(log) + AcRefineBlock(tbl, block[..], ss, se, ah, al)
    {
      hide Valid, PointAc, LastNonzero, Toward;
      ghost var b := block[..];
      var ke := FindEnd(block, al, se);
      var kex := FindEnd(block, ah, ke);
      ghost var goal := old(log) + AcRefine(tbl, b, al, se, ke, kex, ss - 1, false);
      var k := ss - 1;
      Starting(log, AcRefine(tbl, b, al, se, ke, kex, k, false));
      while k < ke
        invariant Valid() && coder.header == old(coder.header) && ss - 1 <= k <= se && block[..] == b
        invariant k <= ke || k == ss - 1
        invariant Toward(log, AcRefine(tbl, b, al, se, ke, kex, k, false), goal)
      {
        k := EncodeRefineRun(block, tbl, se, ke, kex, al, k, goal);
      }
      Finished(log, AcRefine(tbl, b, al, se, ke, kex, k, false), goal);
      if k < se {
        Put(AcBin(tbl, 3 * k), 1);
      }
    }

    /** A run of zeros and the coefficient after it: a correction bit if the earlier
        scans sent it as nonzero, else its sign. */
    method EncodeRefineRun(block: array<coef>, tbl: tableNo, se: nat, ke: nat, kex: nat, al: nat, k0: nat,
                           ghost goal: seq<Decision>)
      returns (k: nat)
      requires Valid() && block.Length == 64 && k0 < ke <= se < 64 && PointAc(block[ke], al) != 0 && kex <= ke
      requires Toward(log, AcRefine(tbl, block[..], al, se, ke, kex, k0, false), goal)
      modifies coder, `log
      ensures Valid() && coder.header == old(coder.header) && k0 < k <= ke
      ensures Toward(log, AcRefine(tbl, block[..], al, se, ke, kex, k, false), goal)
    {
      hide Valid, PointAc, LastNonzero, Toward, AcRefine;
      ghost var b := block[..];
      k := k0;
      AcRefineHead(tbl, b, al, se, ke, kex, k);
      SkipNone(log, AcRefine(tbl, b, al, se, ke, kex, k, true), goal);
      if k >= kex {
        Coded(log, [Decision(AcBin(tbl, 3 * k), 0)], AcRefine(tbl, b, al, se, ke, kex, k, true), goal);
        Put(AcBin(tbl, 3 * k), 0);
      }
      var v := PointAc(block[k + 1], al);
      while v == 0
        invariant Valid() && coder.header == old(coder.header) && block[..] == b
        invariant k0 <= k < ke && v == PointAc(b[k + 1], al)
        invariant Toward(log, AcRefine(tbl, b, al, se, ke, kex, k, true), goal)
        decreases ke - k
      {
        AcRefineRun(tbl, b, al, se, ke, kex, k);
        Coded(log, [Decision(AcBin(tbl, 3 * k + 1), 0)], AcRefine(tbl, b, al, se, ke, kex, k + 1, true), goal);
        Put(AcBin(tbl, 3 * k + 1), 0);
        k := k + 1;
        v := PointAc(block[k + 1], al);
      }
      AcRefineRun(tbl, b, al, se, ke, kex, k);
      ghost var after := AcRefine(tbl, b, al, se, ke, kex, k + 1, false);
      EncodeRefined(tbl, k, v, after, goal);
      k := k + 1;
    }

    method EncodeRefined(tbl: tableNo, k: nat, v: int, ghost after: seq<Decision>, ghost goal: seq<Decision>)
      requires Valid() && k < 63 && v != 0
      requires Toward(log, Refined(tbl, k, v) + after, goal)
      modifies coder, `log
      ensures Valid() && coder.header == old(coder.header)
      ensures Toward(log, after, goal)
    {
      hide Valid, Toward;
      Coded(log, Refined(tbl, k, v), after, goal);
      if Abs(v) / 2 != 0 {
        Put(AcBin(tbl, 3 * k + 2), Abs(v) % 2);
      } else {
        Put(AcBin(tbl, 3 * k + 1), 1);
        Put(FixedBin, SignBit(v));
      }
      assert log == old(log) + Refined(tbl, k, v);
    }

    /** A DC value in its first scan. */
    method EncodeDcFirst(block: array<coef>, ci: compNo, tbl: tableNo, al: nat)
      requires Valid() && block.Length == 64
      modifies coder, `log, `lastDc, `dcContext
      ensures Valid() && coder.header == old(coder.header)
      ensures var v := PointDc(block[0], al);
              && log == old(log) + DcDiff(tbl, old(dcContext)[ci], v - old(lastDc)[ci])
              && lastDc == old(lastDc)[ci := v]
              && dcContext == old(dcContext)[ci := NextContext(cond, tbl, v - old(lastDc)[ci])]
    {
      hide Valid, DcDiff, NextContext, PointDc;
      EncodeDcDiff(ci, tbl, PointDc(block[0], al));
    }

    /** One more bit of a DC value. */
    method EncodeDcRefine(block: array<coef>, al: nat)
      requires Valid() && block.Length == 64
      modifies coder, `log
      ensures Valid() && coder.header == old(coder.header)
      ensures log == old(log) + [Decision(FixedBin, PointDc(block[0], al) % 2)]
    {
      hide Valid, PointDc;
      Put(FixedBin, PointDc(block[0], al) % 2);
    }

    ghost function Dc(): DcState
      reads `lastDc, `dcContext
    {
      DcState(lastDc, dcContext)
    }

    /** One block of a scan. */
    method EncodeBlock(sc: Scan, ci: compNo, block: array<coef>)
      requires Valid() && ScanOk(sc) && block.Length == 64
      modifies coder, `log, `lastDc, `dcContext
      ensures Valid() && coder.header == old(coder.header)
      ensures InRange(block[..])
      ensures log == old(log) + BlockDecisions(cond, sc, old(Dc()), ci, block[..])
      ensures Dc() == Step(cond, sc, old(Dc()), ci, block[..])
    {
      hide Valid, DcDiff, NextContext, AcFirstBlock, AcRefineBlock, PointDc, Trunc;
      if CodesDc(sc) {
        EncodeDcFirst(block, ci, sc.dcTbl(ci), sc.al);
        if !sc.progressive && sc.se > 0 {
          EncodeAcFirst(block, sc.acTbl(ci), 1, sc.se, 0);
        }
      } else if sc.ss == 0 {
        EncodeDcRefine(block, sc.al);
      } else if sc.ah == 0 {
        EncodeAcFirst(block, sc.acTbl(ci), sc.ss, sc.se, sc.al);
      } else {
        EncodeAcRefine(block, sc.acTbl(ci), sc.ss, sc.se, sc.ah, sc.al);
      }
    }

    /** Ends the interval with a restart marker, and begins another one. */
    method EmitRestart(sc: Scan) returns (ghost code: seq<byte>)
      requires Valid() && nextRestartNum < 8
      modifies coder, `log, `lastDc, `dcContext
      ensures Valid() && log == [] && CarriesDecisions(old(log), code)
      ensures coder.header == old(coder.header) + Stuff(code) + RestartMarker(nextRestartNum)
      ensures Dc() == if CodesDc(sc) then START else old(Dc())
    {
      hide Areas, Stuff, Contains, Normal, StatsOk, CodeAll, Known, HasAreas, E.ArithEncoder.Valid,
           E.ArithEncoder.State;
      coder.Fields();
      code := coder.FinishPass();
      coder.EmitByte(0xFF);
      coder.EmitByte(RST0 + nextRestartNum);
      coder.StartPass(Areas());
      coder.Fields();
      log := [];
      if CodesDc(sc) {
        lastDc, dcContext := [0, 0, 0, 0], [0, 0, 0, 0];
      }
      ReadyStart();
    }

    /** Blocks s to i of a scan have been coded in this interval. */
    ghost predicate SoFar(sc: Scan, us: seq<Unit>, s: nat, i: nat)
      requires ScanOk(sc) && s <= i <= |us|
      reads `log, `lastDc, `dcContext
    {
      && UnitsOk(us[..i])
      && log == ScanDecisions(cond, sc, START, us[s..i])
      && Dc() == After(cond, sc, START, us[s..i])
    }

    /** The blocks from lo to hi, which are one MCU, after a restart marker if it is time for one. */
    method EncodeMcu(sc: Scan, ci: seq<compNo>, blocks: seq<array<coef>>, lo: nat, hi: nat,
                     ghost us: seq<Unit>, ghost s: nat)
      returns (ghost code: seq<byte>)
      requires Valid() && ScanOk(sc) && nextRestartNum < 8
      requires |ci| == |blocks| && forall i | 0 <= i < |blocks| :: blocks[i].Length == 64
      requires us == Units(ci, blocks)
      requires s <= lo <= hi <= |blocks| && SoFar(sc, us, s, lo)
      modifies coder, `log, `lastDc, `dcContext, `restartsToGo, `nextRestartNum
      ensures Valid()
      ensures var restart := restartInterval != 0 && old(restartsToGo) == 0;
              && SoFar(sc, us, if restart then lo else s, hi)
              && nextRestartNum == (if restart then (old(nextRestartNum) + 1) % 8 else old(nextRestartNum))
              && coder.header == old(coder.header)
                                 + (if restart then Stuff(code) + RestartMarker(old(nextRestartNum)) else [])
              && (restart ==> Carries(cond, sc, us[s..lo], code))
      ensures restartInterval != 0 ==>
                restartsToGo + 1 == if old(restartsToGo) == 0 then restartInterval else old(restartsToGo)
      ensures restartInterval == 0 ==> restartsToGo == old(restartsToGo)
    {
      hide *;
      ghost var from;
      code, from := BeginMcu(sc, us, lo, s);
      EncodeBlocks(sc, ci, blocks, lo, hi, us, from);
    }

    /** Another MCU of the interval, or the first one behind a restart marker. */
    method BeginMcu(sc: Scan, ghost us: seq<Unit>, ghost lo: nat, ghost s: nat)
      returns (ghost code: seq<byte>, ghost from: nat)
      requires Valid() && ScanOk(sc) && nextRestartNum < 8
      requires s <= lo <= |us| && SoFar(sc, us, s, lo)
      modifies coder, `log, `lastDc, `dcContext, `restartsToGo, `nextRestartNum
      ensures Valid() && from <= lo && SoFar(sc, us, from, lo)
      ensures var restart := restartInterval != 0 && old(restartsToGo) == 0;
              && from == (if restart then lo else s)
              && nextRestartNum == (if restart then (old(nextRestartNum) + 1) % 8 else old(nextRestartNum))
              && coder.header == old(coder.header)
                                 + (if restart then Stuff(code) + RestartMarker(old(nextRestartNum)) else [])
              && (restart ==> Carries(cond, sc, us[s..lo], code))
      ensures restartInterval != 0 ==>
                restartsToGo + 1 == if old(restartsToGo) == 0 then restartInterval else old(restartsToGo)
      ensures restartInterval == 0 ==> restartsToGo == old(restartsToGo)
    {
      hide Valid, BlockDecisions, Step, ScanOk, InRange, Stuff, CarriesDecisions;
      from, code := s, [];
      if restartInterval != 0 {
        if restartsToGo == 0 {
          if !CodesDc(sc) {
            AfterIdle(cond, sc, START, us[s..lo]);
          }
          code := EmitRestart(sc);
          from := lo;
          restartsToGo := restartInterval;
          nextRestartNum := (nextRestartNum + 1) % 8;
        }
        restartsToGo := restartsToGo - 1;
      }
    }

    /** The blocks from lo to hi, in an interval that began at block s. */
    method EncodeBlocks(sc: Scan, ci: seq<compNo>, blocks: seq<array<coef>>, lo: nat, hi: nat,
                        ghost us: seq<Unit>, ghost s: nat)
      requires Valid() && ScanOk(sc)
      requires |ci| == |blocks| && forall i | 0 <= i < |blocks| :: blocks[i].Length == 64
      requires us == Units(ci, blocks)
      requires s <= lo <= hi <= |blocks| && SoFar(sc, us, s, lo)
      modifies coder, `log, `lastDc, `dcContext
      ensures Valid() && coder.header == old(coder.header)
      ensures SoFar(sc, us, s, hi)
    {
      hide *;
      for i := lo to hi
        invariant us == Units(ci, blocks) && Valid() && coder.header == old(coder.header)
        invariant SoFar(sc, us, s, i)
      {
        EncodeUnit(sc, ci[i], blocks[i], us, s, i);
      }
    }

    /** One more block of the interval. */
    method EncodeUnit(sc: Scan, ci: compNo, block: array<coef>, ghost us: seq<Unit>, ghost s: nat, ghost i: nat)
      requires Valid() && ScanOk(sc) && block.Length == 64
      requires s <= i < |us| && us[i] == Unit(ci, block[..]) && SoFar(sc, us, s, i)
      modifies coder, `log, `lastDc, `dcContext
      ensures Valid() && coder.header == old(coder.header) && SoFar(sc, us, s, i + 1)
    {
      hide Valid, BlockDecisions, Step, ScanOk, InRange;
      assert us[s..i + 1] == us[s..i] + [us[i]];
      EncodeBlock(sc, ci, block);
      OneMore(us, i);
      DecisionsSnoc(cond, sc, START, us[s..i], us[i]);
    }

    lemma OneMore(us: seq<Unit>, i: nat)
      requires i < |us| && UnitsOk(us[..i]) && InRange(us[i].b)
      ensures UnitsOk(us[..i + 1])
    {
      hide InRange;
      assert us[..i + 1] == us[..i] + [us[i]];
    }

    lemma StartsEmpty(sc: Scan, pl: Plan, us: seq<Unit>)
      requires ScanOk(sc) && log == [] && Dc() == START
      ensures SoFar(sc, us, 0, 0) && Front([]) == [] && CarriesFirst(cond, sc, pl, us, [])
    {
      assert us[..0] == us[0..0] == [];
    }

    lemma AllCoded(sc: Scan, us: seq<Unit>, s: nat)
      requires ScanOk(sc) && s <= |us| && SoFar(sc, us, s, |us|)
      ensures UnitsOk(us) && log == ScanDecisions(cond, sc, START, us[s..])
    {
      assert us[..|us|] == us && us[s..|us|] == us[s..];
    }

    /** All blocks of a scan, in coding order, up to the end of the last interval. */
    method EncodeScan(sc: Scan, ci: seq<compNo>, blocks: seq<array<coef>>, mcu: nat)
      returns (ghost codes: seq<seq<byte>>)
      requires Valid() && ScanOk(sc) && log == [] && Dc() == START && coder.header == []
      requires mcu >= 1 && restartsToGo == restartInterval && nextRestartNum == 0
      requires |ci| == |blocks| && forall i | 0 <= i < |blocks| :: blocks[i].Length == 64
      modifies coder, `log, `lastDc, `dcContext, `restartsToGo, `nextRestartNum
      ensures Valid() && coder.header == Front(codes) && UnitsOk(Units(ci, blocks))
      ensures var pl := Plan(mcu, restartInterval);
              var us := Units(ci, blocks);
              && CarriesFirst(cond, sc, pl, us, codes) && (restartInterval == 0 ==> codes == [])
              && LastFrom(pl, |codes|, |us|)
              && log == ScanDecisions(cond, sc, START, us[BeginAt(pl, |codes|)..])
    {
      hide *;
      ghost var us := Units(ci, blocks);
      ghost var pl := Plan(mcu, restartInterval);
      ghost var s: nat := 0;
      codes := [];
      AtStart(sc, pl, us);
      var i := 0;
      while i < |blocks|
        invariant i <= |blocks| && us == Units(ci, blocks) && Valid() && AtMcu(sc, us, pl, codes, s, i)
      {
        i, codes, s := EncodeNext(sc, ci, blocks, mcu, i, us, codes, s);
      }
      AtEnd(sc, us, pl, codes, s);
    }

    /** The MCUs up to block i have been coded; the interval began at block s, and the complete intervals
        have the data codes. */
    ghost predicate AtMcu(sc: Scan, us: seq<Unit>, pl: Plan, codes: seq<seq<byte>>, s: nat, i: nat)
      reads `log, `lastDc, `dcContext, `restartsToGo, `nextRestartNum, coder`header
    {
      && ScanOk(sc) && PlanOk(pl) && s <= i <= |us| && SoFar(sc, us, s, i)
      && Counting(pl, |codes|, s, i, |us|, restartsToGo)
      && nextRestartNum == |codes| % 8 && coder.header == Front(codes)
      && CarriesFirst(cond, sc, pl, us, codes)
    }

    lemma AtStart(sc: Scan, pl: Plan, us: seq<Unit>)
      requires ScanOk(sc) && log == [] && Dc() == START && coder.header == []
      requires pl.mcu >= 1 && pl.restart == restartsToGo && nextRestartNum == 0
      ensures AtMcu(sc, us, pl, [], 0, 0)
    {
      hide Counting, ScanOk, SoFar, CarriesFirst, Front;
      CountingStarts(pl, |us|);
      StartsEmpty(sc, pl, us);
    }

    lemma AtEnd(sc: Scan, us: seq<Unit>, pl: Plan, codes: seq<seq<byte>>, s: nat)
      requires ScanOk(sc) && AtMcu(sc, us, pl, codes, s, |us|)
      ensures coder.header == Front(codes) && UnitsOk(us)
      ensures CarriesFirst(cond, sc, pl, us, codes) && (pl.restart == 0 ==> codes == [])
      ensures LastFrom(pl, |codes|, |us|) && BeginAt(pl, |codes|) <= |us|
      ensures log == ScanDecisions(cond, sc, START, us[BeginAt(pl, |codes|)..])
    {
      hide ScanOk, SoFar, CarriesFirst, Front, ScanDecisions, BeginAt;
      CountingEnds(pl, |codes|, s, |us|, restartsToGo);
      AllCoded(sc, us, s);
    }

    /** One MCU, with the account of the restart before it. */
    method EncodeNext(sc: Scan, ci: seq<compNo>, blocks: seq<array<coef>>, mcu: nat, i: nat,
                      ghost us: seq<Unit>, ghost codes: seq<seq<byte>>, ghost s: nat)
      returns (hi: nat, ghost codes': seq<seq<byte>>, ghost s': nat)
      requires |ci| == |blocks| && forall i | 0 <= i < |blocks| :: blocks[i].Length == 64
      requires us == Units(ci, blocks) && i < |blocks|
      requires Valid() && AtMcu(sc, us, Plan(mcu, restartInterval), codes, s, i)
      modifies coder, `log, `lastDc, `dcContext, `restartsToGo, `nextRestartNum
      ensures i < hi <= |blocks|
      ensures Valid() && AtMcu(sc, us, Plan(mcu, restartInterval), codes', s', hi)
    {
      hide *;
      ghost var pl := Plan(mcu, restartInterval);
      ghost var toGo, num := restartsToGo, nextRestartNum;
      Parts(sc, us, pl, codes, s, i);
      hi := if |blocks| - i < mcu then |blocks| else i + mcu;
      ghost var code := EncodeMcu(sc, ci, blocks, i, hi, us, s);
      codes', s' := codes, s;
      if restartInterval != 0 && toGo == 0 {
        codes', s' := codes + [code], i;
        RestartMade(sc, us, pl, codes, code, s, i, hi);
      } else {
        McuMade(sc, us, pl, codes, s, i, hi, toGo);
      }
    }

    lemma Parts(sc: Scan, us: seq<Unit>, pl: Plan, codes: seq<seq<byte>>, s: nat, i: nat)
      requires AtMcu(sc, us, pl, codes, s, i)
      ensures ScanOk(sc) && PlanOk(pl) && pl.mcu >= 1 && s <= i <= |us| && SoFar(sc, us, s, i)
      ensures Counting(pl, |codes|, s, i, |us|, restartsToGo) && CarriesFirst(cond, sc, pl, us, codes)
      ensures nextRestartNum == |codes| % 8 < 8 && coder.header == Front(codes)
    {
      hide ScanOk, Counting, SoFar, CarriesFirst, Front;
    }

    lemma RestartMade(sc: Scan, us: seq<Unit>, pl: Plan, codes: seq<seq<byte>>, code: seq<byte>,
                      s: nat, i: nat, hi: nat)
      requires ScanOk(sc) && PlanOk(pl) && s <= i < hi <= |us| && SoFar(sc, us, i, hi)
      requires pl.restart == restartsToGo + 1 && Counting(pl, |codes|, s, i, |us|, 0)
      requires nextRestartNum == (|codes| % 8 + 1) % 8
      requires coder.header == Front(codes) + (Stuff(code) + RestartMarker(|codes| % 8))
      requires CarriesFirst(cond, sc, pl, us, codes) && Carries(cond, sc, us[s..i], code)
      requires hi == if |us| - i < pl.mcu then |us| else i + pl.mcu
      ensures AtMcu(sc, us, pl, codes + [code], i, hi)
    {
      hide *;
      FrontSnoc(codes, code);
      MarkerStep(Front(codes), Stuff(code), RestartMarker(|codes| % 8), |codes|);
      IntervalEnds(pl, |codes|, s, i, |us|);
      CarriesSnoc(cond, sc, pl, us, codes, code);
      CountMcu(pl, |codes| + 1, i, i, hi, |us|, pl.restart);
      Whole(sc, us, pl, codes + [code], i, hi);
    }

    lemma Whole(sc: Scan, us: seq<Unit>, pl: Plan, codes: seq<seq<byte>>, s: nat, i: nat)
      requires ScanOk(sc) && PlanOk(pl) && s <= i <= |us| && SoFar(sc, us, s, i)
      requires Counting(pl, |codes|, s, i, |us|, restartsToGo) && CarriesFirst(cond, sc, pl, us, codes)
      requires nextRestartNum == |codes| % 8 && coder.header == Front(codes)
      ensures AtMcu(sc, us, pl, codes, s, i)
    {
      hide ScanOk, Counting, SoFar, CarriesFirst, Front;
    }

    lemma McuMade(sc: Scan, us: seq<Unit>, pl: Plan, codes: seq<seq<byte>>, s: nat, i: nat, hi: nat, toGo: nat)
      requires ScanOk(sc) && PlanOk(pl) && s <= i < hi <= |us| && SoFar(sc, us, s, hi)
      requires Counting(pl, |codes|, s, i, |us|, toGo)
      requires toGo == if pl.restart != 0 then restartsToGo + 1 else restartsToGo
      requires nextRestartNum == |codes| % 8 && coder.header == Front(codes) + []
      requires CarriesFirst(cond, sc, pl, us, codes)
      requires hi == if |us| - i < pl.mcu then |us| else i + pl.mcu
      ensures AtMcu(sc, us, pl, codes, s, hi)
    {
      hide ScanOk, Counting, CarriesFirst, SoFar, Front;
      CountMcu(pl, |codes|, s, i, hi, |us|, toGo);
    }
  }

  lemma MarkerStep(front: seq<byte>, data: seq<byte>, marker: seq<byte>, k: nat)
    ensures front + (data + marker) == front + data + marker && (k % 8 + 1) % 8 == (k + 1) % 8
  {
  }

  lemma AcCells(tbl: tableNo, k: nat)
    requires k < 64
    ensures Allocated(AcBin(tbl, 3 * k)) && Allocated(AcBin(tbl, 3 * k + 1))
  {
  }

  lemma PutStep(log: seq<Decision>, d: Decision)
    requires Known(Areas(), log) && Ready(Coder(WHOLE, Areas())) && Allocated(d.bin)
    ensures var start := Coder(WHOLE, Areas());
            var k := CodeAll(start, log);
            && d.bin in k.stats && Known(Areas(), log + [d]) && CodeAll(start, log + [d]) == Code(k, d)
            && HasAreas(Code(k, d).stats)
  {
    hide Code, Areas, Normal, StatsOk, Allocated;
    assert Known(Areas(), [d]);
    CodeAllAppend(Coder(WHOLE, Areas()), log, [d]);
    CodeAllOne(CodeAll(Coder(WHOLE, Areas()), log), d);
  }

  lemma ReadyStart()
    requires Ready(Coder(WHOLE, Areas()))
    ensures Known(Areas(), []) && HasAreas(Areas())
    ensures CodeAll(Coder(WHOLE, Areas()), []) == Coder(WHOLE, Areas())
  {
  }

  /** The blocks as values. */
  ghost function Units(ci: seq<compNo>, blocks: seq<array<coef>>): (us: seq<Unit>)
    requires |ci| == |blocks| && forall i | 0 <= i < |blocks| :: blocks[i].Length == 64
    reads set i | 0 <= i < |blocks| :: blocks[i]
    ensures |us| == |blocks|
    ensures forall i | 0 <= i < |us| :: us[i] == Unit(ci[i], blocks[i][..])
  {
    seq(|blocks|, i requires 0 <= i < |blocks|
                    reads set j | 0 <= j < |blocks| :: blocks[j] => Unit(ci[i], blocks[i][..]))
  }

  lemma CodeAllOne(k: Coder, d: Decision)
    requires Ready(k) && d.bin in k.stats
    ensures CodeAll(k, [d]) == Code(k, d)
  {
    assert CodeAll(Code(k, d), [d][1..]) == Code(k, d);
  }

  /** The bins a magnitude below 2^15 can reach are allocated. */
  predicate CategoryFits(ac: bool, st: nat, v: nat)
    requires v >= 1
  {
    st + Doublings(v) < if ac then AC_STAT_BINS else DC_STAT_BINS
  }

  lemma NoPattern(tbl: tableNo, st: nat)
    ensures Pattern(false, tbl, st, 0, 0) == []
  {
  }
}
