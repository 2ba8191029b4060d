/** The MCU routines of the arithmetic decoder. */
module ArithScanDecoder {
  import opened Numbers
  import opened IntervalCoder
  import opened ArithModel
  import opened ArithScan
  import opened RestartIntervals
  import opened ArithIntervals
  import opened Stuffing
  import D = ArithDecoder

  class ScanDecoder {
    const decoder: D.ArithDecoder
    const cond: Conditioning
    var lastDc: Predictions       // last DC value of each component in the scan
    var dcContext: Contexts       // its conditioning context

    const restartInterval: nat    // MCUs between restart markers, or 0
    var restartsToGo: nat         // MCUs left in this interval
    var nextRestartNum: nat       // next restart number to read (0-7)

    ghost var stop: nat           // where the marker after this interval ends

    ghost predicate Valid()
      reads decoder, `stop
    {
      decoder.Valid() && decoder.stop == stop
    }

    /** A value was refused: nothing more is decoded before the next restart. */
    ghost predicate Failed()
      reads decoder, `stop
    {
      decoder.SourceOk() && decoder.ct == -1 && decoder.stop == stop
    }

    constructor (decoder: D.ArithDecoder, cond: Conditioning, restartInterval: nat)
      ensures this.decoder == decoder && this.cond == cond
      ensures lastDc == [0, 0, 0, 0] && dcContext == [0, 0, 0, 0]
      ensures this.restartInterval == restartsToGo == restartInterval && nextRestartNum == 0
    {
      this.decoder, this.cond, lastDc, dcContext := decoder, cond, [0, 0, 0, 0], [0, 0, 0, 0];
      this.restartInterval, restartsToGo, nextRestartNum, stop := restartInterval, restartInterval, 0, 0;
    }

    /** The next decision, which the encoder made on this bin. */
    method Get(bin: Bin, ghost d: Decision, ghost ds: seq<Decision>, ghost rest: seq<Decision>) returns (val: bit)
      requires Valid() && Next(decoder.pending, [d] + ds, rest) && d.bin == bin
      modifies decoder
      ensures Valid() && Next(decoder.pending, ds, rest)
      ensures val == d.val
    {
      NextOne(decoder.pending, d, ds, rest);
      val := decoder.Decode(bin);
    }

    /** Stops decoding up to the next restart. */
    method Refuse()
      requires Valid()
      modifies decoder`ct
      ensures Failed()
    {
      decoder.ct := -1;
    }

    /** The magnitude category; too large a one is an error. */
    method DecodeCategory(ac: bool, tbl: tableNo, st0: nat, m0: nat, ghost v: nat, ghost rest: seq<Decision>)
      returns (ok: bool, m: nat, st: nat)
      requires Valid() && v >= 1 && Next(decoder.pending, Category(ac, tbl, st0, v), rest)
      requires m0 == 1 || m0 == 2
      modifies decoder
      ensures if ok then Valid() else Failed()
      ensures ok <==> Grown(m0, v) < 0x8000
      ensures ok ==> m == Grown(m0, v) && st == st0 + Doublings(v) && Next(decoder.pending, [], rest)
    {
      hide Valid, Next, Category, Pow2, Grown;
      ok, m, st := true, m0, st0;
      ghost var v2, i: nat := v, m0 - 1;
      SmallPowers();
      while true
        invariant Valid() && ok && v2 >= 1 && m == Pow2(i) && i <= 14
        invariant st + Doublings(v2) == st0 + Doublings(v) && Grown(m, v2) == Grown(m0, v)
        invariant Next(decoder.pending, Category(ac, tbl, st, v2), rest)
        decreases v2
      {
        ghost var d, ds := CategoryHead(ac, tbl, st, v2);
        GrownStep(m, v2, i);
        var more := Get(BinAt(ac, tbl, st), d, ds, rest);
        if more == 0 {
          break;
        }
        m := 2 * m;
        v2 := v2 / 2;
        i := i + 1;
        if m == 0x8000 {
          GrownAtLeast(m, v2);
          ok := false;
          Refuse();
          return;
        }
        st := st + 1;
      }
    }

    /** The bits below the top one. */
    method DecodePattern(ac: bool, tbl: tableNo, st: nat, m0: nat, ghost u: nat, ghost rest: seq<Decision>)
      returns (v: nat)
      requires Valid() && Next(decoder.pending, Pattern(ac, tbl, st, m0, u), rest)
      requires m0 == if u == 0 then 0 else TopBit(u)
      modifies decoder
      ensures Valid() && decoder.pending == rest
      ensures v == u
    {
      hide Valid, Next, Pattern, Pow2, TopBit, Doublings;
      v := m0;
      var m: nat := m0;
      ghost var i := PatternStart(m0, u);
      while m >= 2
        invariant Valid() && (m == 0 || m == Pow2(i)) && (u == 0 ==> m == 0)
        invariant v == if m == 0 then 0 else u / m * m
        invariant m == 0 ==> u == 0
        invariant Next(decoder.pending, Pattern(ac, tbl, st, m, u), rest)
        decreases m
      {
        i := PatternStep(m, u, i);
        m := m / 2;
        ghost var d := Decision(BinAt(ac, tbl, st), u / m % 2);
        PatternHead(ac, tbl, st, 2 * m, u);
        var b := Get(BinAt(ac, tbl, st), d, Pattern(ac, tbl, st, m, u), rest);
        if b != 0 {
          v := v + m;
        }
      }
      PatternEnd(ac, tbl, st, m, u);
      NextRest(decoder.pending, rest);
    }

    /** One DC difference.  Fails exactly when its magnitude is above 2^15. */
    method DecodeDcDiff(ci: compNo, tbl: tableNo, ghost value: coef, ghost rest: seq<Decision>) returns (ok: bool)
      requires Valid()
      requires Next(decoder.pending, DcDiff(tbl, dcContext[ci], value - lastDc[ci]), rest)
      modifies decoder, `lastDc, `dcContext
      ensures if ok then Valid() else Failed()
      ensures ok <==> Abs(value - old(lastDc)[ci]) <= 0x8000
      ensures ok ==>
                && decoder.pending == rest
                && lastDc == old(lastDc)[ci := value]
                && dcContext == old(dcContext)[ci := NextContext(cond, tbl, value - old(lastDc)[ci])]
    {
      hide Valid, Next, Category, Pattern, TopBit, Pow2, DcMagnitude;
      var st := dcContext[ci];
      ghost var diff := value - lastDc[ci];
      ghost var u := Abs(diff) - 1;
      ok := true;
      DcDiffHead(tbl, st, diff);
      var nonzero := Get(DcBin(tbl, st), Decision(DcBin(tbl, st), if diff == 0 then 0 else 1),
                         DcDiffTail(tbl, st, diff), rest);
      if nonzero == 0 {
        dcContext := dcContext[ci := 0];
        NextRest(decoder.pending, rest);
        assert lastDc == lastDc[ci := value];
      } else {
        var sign: int := Get(DcBin(tbl, st + 1), Decision(DcBin(tbl, st + 1), SignBit(diff)),
                        DcMagnitude(tbl, st + 2 + SignBit(diff), u), rest);
        var m, v;
        ok, m, v := DecodeDcMagnitude(tbl, st + 2 + sign, u, rest);
        if ok {
          if m < Pow2(cond.dcL(tbl)) / 2 {
            dcContext := dcContext[ci := 0];
          } else if m > Pow2(cond.dcU(tbl)) / 2 {
            dcContext := dcContext[ci := 12 + sign * 4];
          } else {
            dcContext := dcContext[ci := 4 + sign * 4];
          }
          v := v + 1;
          if sign != 0 {
            v := -v;
          }
          lastDc := lastDc[ci := lastDc[ci] + v];
        }
      }
    }

    /** The magnitude of a DC difference, less one, and its category. */
    method DecodeDcMagnitude(tbl: tableNo, st0: nat, ghost u: nat, ghost rest: seq<Decision>)
      returns (ok: bool, m: nat, v: int)
      requires Valid() && Next(decoder.pending, DcMagnitude(tbl, st0, u), rest)
      modifies decoder
      ensures if ok then Valid() else Failed()
      ensures ok <==> u < 0x8000
      ensures ok ==> decoder.pending == rest && v == u && m == if u == 0 then 0 else TopBit(u)
    {
      hide Valid, Next, Category, Pattern, Pow2;
      ok, v := true, 0;
      var st := st0;
      if u == 0 { NextOneOnly(decoder.pending, Decision(DcBin(tbl, st), 0), rest); }
      m := Get(DcBin(tbl, st), Decision(DcBin(tbl, st), if u == 0 then 0 else 1),
               if u == 0 then [] else Category(false, tbl, 20, u)
                                      + Pattern(false, tbl, 34 + Doublings(u), TopBit(u), u), rest);
      if m != 0 {
        ghost var pattern := Pattern(false, tbl, 34 + Doublings(u), TopBit(u), u);
        NextSplit(decoder.pending, Category(false, tbl, 20, u), pattern, rest);
        ok, m, st := DecodeCategory(false, tbl, 20, 1, u, pattern + rest);
        GrownIs(1, u);
        TopBitSmall(u);
        if ok {
          NextIs(decoder.pending, pattern, rest);
          v := DecodePattern(false, tbl, st + 14, m, u, rest);
        }
      } else {
        NextRest(decoder.pending, rest);
      }
    }

    /** Sign and magnitude of a coefficient known to be nonzero. */
    method DecodeAcValue(tbl: tableNo, k: nat, ghost x: int, ghost rest: seq<Decision>) returns (v: int)
      requires Valid() && 1 <= k < 64 && x != 0 && -0x8000 <= x <= 0x8000
      requires Next(decoder.pending, AcValue(tbl, cond.acK(tbl), k, x), rest)
      modifies decoder
      ensures Valid() && decoder.pending == rest && v == x
    {
      hide Valid, Next, AcMagnitude;
      var base := if k <= cond.acK(tbl) then 189 else 217;
      ghost var u := Abs(x) - 1;
      var sign := Get(FixedBin, Decision(FixedBin, SignBit(x)), AcMagnitude(tbl, 3 * (k - 1) + 2, base, u), rest);
      v := DecodeAcMagnitude(tbl, 3 * (k - 1) + 2, base, u, rest);
      v := v + 1;
      if sign != 0 {
        v := -v;
      }
    }

    /** The magnitude of an AC coefficient, less one. */
    method DecodeAcMagnitude(tbl: tableNo, st0: nat, base: nat, ghost u: nat, ghost rest: seq<Decision>)
      returns (v: int)
      requires Valid() && u < 0x8000 && Next(decoder.pending, AcMagnitude(tbl, st0, base, u), rest)
      modifies decoder
      ensures Valid() && decoder.pending == rest && v == u
    {
      hide Valid, Next, Category, Pattern, Pow2, TopBit, Doublings;
      ghost var ds := AcMagnitudeTail(tbl, st0, base, u);
      AcMagnitudeHead(tbl, st0, base, u);
      var m: nat := Get(AcBin(tbl, st0), Decision(AcBin(tbl, st0), if u == 0 then 0 else 1), ds, rest);
      if m != 0 {
        ghost var large := if u == 1 then [] else
          Category(true, tbl, base, u / 2) + Pattern(true, tbl, base + Doublings(u / 2) + 14, TopBit(u), u);
        AcMagnitudeSecond(tbl, st0, base, u);
        var more := Get(AcBin(tbl, st0), Decision(AcBin(tbl, st0), if u == 1 then 0 else 1),
                        large, rest);
        if more != 0 {
          v := DecodeAcLarge(tbl, base, u, rest);
        } else {
          v := m;
          NextRest(decoder.pending, rest);
        }
      } else {
        v := m;
        NextRest(decoder.pending, rest);
      }
    }

    /** A magnitude that needs the size bins; it is never too large. */
    method DecodeAcLarge(tbl: tableNo, base: nat, ghost u: nat, ghost rest: seq<Decision>) returns (v: int)
      requires Valid() && 2 <= u < 0x8000
      requires Next(decoder.pending, Category(true, tbl, base, u / 2)
                                     + Pattern(true, tbl, base + Doublings(u / 2) + 14, TopBit(u), u), rest)
      modifies decoder
      ensures Valid() && decoder.pending == rest && v == u
    {
      hide Valid, Next, Category, Pattern, Pow2, TopBit, Doublings;
      ghost var pattern := Pattern(true, tbl, base + Doublings(u / 2) + 14, TopBit(u), u);
      NextSplit(decoder.pending, Category(true, tbl, base, u / 2), pattern, rest);
      var ok, m, st := DecodeCategory(true, tbl, base, 2, u / 2, pattern + rest);
      GrownIs(2, u / 2);
      AcBins(u);
      TopBitSmall(u);
      if !ok {
        assert false;
      }
      NextIs(decoder.pending, pattern, rest);
      v := DecodePattern(true, tbl, st + 14, m, u, rest);
    }

    /** AC coefficients ss to se in their first scan, down to bit al. */
    method DecodeAcFirst(block: array<coef>, tbl: tableNo, ss: nat, se: nat, al: nat,
                         ghost src: Block, ghost rest: seq<Decision>)
      requires Valid() && block.Length == 64 && 1 <= ss <= se < 64 && InRange(src)
      requires Next(decoder.pending, AcFirstBlock(tbl, cond.acK(tbl), src, ss, se, al), rest)
      modifies decoder, block
      ensures Valid() && decoder.pending == rest
      ensures forall i | 0 <= i < 64 ::
                block[i] == if ss <= i <= se && PointAc(src[i], al) != 0 then Trunc(src[i], al) else old(block[i])
    {
      hide Valid, Next, PointAc, Trunc, LastNonzero, AcValue, AcFirst, InRange;
      ghost var ke := LastNonzero(src, al, se);
      ghost var kx := cond.acK(tbl);
      var k := ss - 1;
      while k < se
        invariant Valid() && ss - 1 <= k <= se && (k <= ke || k == ss - 1)
        invariant Next(decoder.pending, AcFirst(tbl, kx, src, al, se, ke, k, false), rest)
        invariant forall i | 0 <= i < 64 ::
                    block[i] == if ss <= i <= k && PointAc(src[i], al) != 0 then Trunc(src[i], al) else old(block[i])
      {
        AcFirstHead(tbl, kx, src, al, se, ke, k);
        var end := Get(AcBin(tbl, 3 * k), Decision(AcBin(tbl, 3 * k), if k < ke then 0 else 1),
                       if k < ke then AcFirst(tbl, kx, src, al, se, ke, k, true) else [], rest);
        if end != 0 {
          NextRest(decoder.pending, rest);
          return;
        }
        ghost var k0 := k;
        var v;
        k, v := DecodeAcRun(tbl, se, al, k, src, ke, rest);
        TruncRange(src, k, al);
        block[k] := Shl(v, al);
      }
      AcFirstEnd(tbl, kx, src, al, se, ke, k);
      NextRest(decoder.pending, rest);
    }

    /** Zeros up to the next nonzero coefficient, and its value. */
    method DecodeAcRun(tbl: tableNo, se: nat, al: nat, k0: nat,
                       ghost src: Block, ghost ke: nat, ghost rest: seq<Decision>)
      returns (k: nat, v: int)
      requires Valid() && InRange(src) && k0 < ke <= se < 64 && PointAc(src[ke], al) != 0
      requires Next(decoder.pending, AcFirst(tbl, cond.acK(tbl), src, al, se, ke, k0, true), rest)
      modifies decoder
      ensures Valid() && k0 < k <= ke
      ensures v == PointAc(src[k], al) && v != 0
      ensures forall i | k0 < i < k :: PointAc(src[i], al) == 0
      ensures Next(decoder.pending, AcFirst(tbl, cond.acK(tbl), src, al, se, ke, k, false), rest)
    {
      hide Valid, Next, PointAc, AcValue, AcFirst, InRange;
      ghost var kx := cond.acK(tbl);
      k := k0;
      while true
        invariant Valid() && k0 <= k < ke
        invariant Next(decoder.pending, AcFirst(tbl, kx, src, al, se, ke, k, true), rest)
        invariant forall i | k0 < i <= k :: PointAc(src[i], al) == 0
        decreases ke - k
      {
        AcFirstRun(tbl, kx, src, al, se, ke, k);
        ghost var after := AcFirst(tbl, kx, src, al, se, ke, k + 1, PointAc(src[k + 1], al) == 0);
        ghost var x := PointAc(src[k + 1], al);
        k := k + 1;
        var nonzero := Get(AcBin(tbl, 3 * (k - 1) + 1), Decision(AcBin(tbl, 3 * (k - 1) + 1), if x == 0 then 0 else 1),
                           if x == 0 then after else AcValue(tbl, kx, k, x) + after, rest);
        if nonzero != 0 {
          NextSplit(decoder.pending, AcValue(tbl, kx, k, x), after, rest);
          PointOfRange(src, k, al);
          v := DecodeAcValue(tbl, k, x, after + rest);
          NextAfter(decoder.pending, after, rest);
          return;
        }
        if k >= se {
          assert false;
        }
      }
    }

    /** The last nonzero position up to se that the earlier scans left, or 0. */
    method FindPrevious(block: array<coef>, se: nat) returns (kex: nat)
      requires block.Length == 64 && se < 64
      ensures kex <= se && (kex > 0 ==> block[kex] != 0)
      ensures forall i | kex < i <= se :: block[i] == 0
    {
      kex := se;
      while kex > 0 && block[kex] == 0
        invariant kex <= se && forall i | kex < i <= se :: block[i] == 0
      {
        kex := kex - 1;
      }
    }

    /** AC coefficients ss to se, refined from bit al + 1 to bit al in place. */
    method DecodeAcRefine(block: array<coef>, tbl: tableNo, ss: nat, se: nat, al: nat,
                          ghost src: Block, ghost rest: seq<Decision>)
      requires Valid() && block.Length == 64 && 1 <= ss <= se < 64 && InRange(src)
      requires forall i | ss <= i <= se :: block[i] == Trunc(src[i], al + 1)
      requires Next(decoder.pending, AcRefineBlock(tbl, src, ss, se, al + 1, al), rest)
      modifies decoder, block
      ensures Valid() && decoder.pending == rest
      ensures forall i | 0 <= i < 64 ::
                block[i] == if ss <= i <= se then Trunc(src[i], al) else old(block[i])
    {
      hide Valid, Next, PointAc, Trunc, LastNonzero, InRange, AcRefine;
      ghost var ke := LastNonzero(src, al, se);
      ghost var kxe := LastNonzero(src, al + 1, ke);
      var kex := FindPrevious(block, se);
      SameEnd(block[..], src, ss, se, al, ke, kxe, kex);
      var k := ss - 1;
      while k < se
        invariant Valid() && ss - 1 <= k <= se && (k <= ke || k == ss - 1)
        invariant Next(decoder.pending, AcRefine(tbl, src, al, se, ke, kxe, k, false), rest)
        invariant forall i | 0 <= i < 64 ::
                    block[i] == if ss <= i <= k then Trunc(src[i], al) else old(block[i])
      {
        var end := 0;
        AcRefineHead(tbl, src, al, se, ke, kxe, k);
        if k >= kex {
          end := Get(AcBin(tbl, 3 * k), Decision(AcBin(tbl, 3 * k), if k < ke then 0 else 1),
                     if k < ke then AcRefine(tbl, src, al, se, ke, kxe, k, true) else [], rest);
        }
        if end != 0 {
          NextRest(decoder.pending, rest);
          ZeroTail(src, ss, se, al, k);
          return;
        }
        k := DecodeRefineRun(block, tbl, ss, se, al, k, src, ke, kxe, rest);
      }
      AcRefineEnd(tbl, src, al, se, ke, kxe, k);
      NextRest(decoder.pending, rest);
    }

    /** Still-zero coefficients up to one that gets a correction bit or becomes nonzero. */
    method DecodeRefineRun(block: array<coef>, tbl: tableNo, ss: nat, se: nat, al: nat, k0: nat,
                           ghost src: Block, ghost ke: nat, ghost kxe: nat, ghost rest: seq<Decision>)
      returns (k: nat)
      requires Valid() && block.Length == 64 && InRange(src)
      requires 0 < ss <= k0 + 1 && k0 < ke <= se < 64 && PointAc(src[ke], al) != 0
      requires forall i | k0 < i <= se :: block[i] == Trunc(src[i], al + 1)
      requires Next(decoder.pending, AcRefine(tbl, src, al, se, ke, kxe, k0, true), rest)
      modifies decoder, block
      ensures Valid() && k0 < k <= ke
      ensures Next(decoder.pending, AcRefine(tbl, src, al, se, ke, kxe, k, false), rest)
      ensures forall i | 0 <= i < 64 ::
                block[i] == if k0 < i <= k then Trunc(src[i], al) else old(block[i])
    {
      hide *;
      k := k0;
      var found := false;
      ghost var block0: seq<int> := block[..];
      while !found
        invariant Valid() && k0 <= k <= ke && (found ==> k > k0) && (!found ==> k < ke)
        invariant Next(decoder.pending, AcRefine(tbl, src, al, se, ke, kxe, k, !found), rest)
        invariant forall i | 0 <= i < 64 :: block[i] == if k0 < i <= k then Trunc(src[i], al) else block0[i]
        decreases ke - k, !found
      {
        k := k + 1;
        found := RefineNext(block, tbl, k, se, al, src, ke, kxe, rest);
        if !found && k >= se {
          assert false;
        }
      }
    }

    /** The coefficient at position k; is it nonzero now? */
    method RefineNext(block: array<coef>, tbl: tableNo, k: nat, se: nat, al: nat,
                      ghost src: Block, ghost ke: nat, ghost kxe: nat, ghost rest: seq<Decision>)
      returns (found: bool)
      requires Valid() && block.Length == 64 && InRange(src) && 1 <= k <= ke <= se < 64
      requires block[k] == Trunc(src[k], al + 1)
      requires Next(decoder.pending, AcRefine(tbl, src, al, se, ke, kxe, k - 1, true), rest)
      modifies decoder, block
      ensures Valid() && (found <==> PointAc(src[k], al) != 0)
      ensures Next(decoder.pending, AcRefine(tbl, src, al, se, ke, kxe, k, !found), rest)
      ensures block[..] == old(block[..])[k := Trunc(src[k], al)]
    {
      hide *;
      ghost var x := PointAc(src[k], al);
      ghost var after := AcRefine(tbl, src, al, se, ke, kxe, k, x == 0);
      AcRefineRun(tbl, src, al, se, ke, kxe, k - 1);
      RefineBit(src[k], al);
      if block[k] != 0 {
        CorrectCoef(block, tbl, k, al, src, after, rest);
        return true;
      }
      ghost var sign := [Decision(FixedBin, SignBit(x))];
      var b := Get(AcBin(tbl, 3 * (k - 1) + 1), Decision(AcBin(tbl, 3 * (k - 1) + 1), if x == 0 then 0 else 1),
                   if x == 0 then after else sign + after, rest);
      found := b != 0;
      if found {
        NewCoef(block, k, al, src, after, rest);
      }
    }

    /** The correction bit of a coefficient that was nonzero before. */
    method CorrectCoef(block: array<coef>, tbl: tableNo, k: nat, al: nat,
                       ghost src: Block, ghost after: seq<Decision>, ghost rest: seq<Decision>)
      requires Valid() && block.Length == 64 && 1 <= k < 64 && InRange(src)
      requires block[k] == Trunc(src[k], al + 1) && block[k] != 0
      requires Next(decoder.pending,
                    [Decision(AcBin(tbl, 3 * (k - 1) + 2), Abs(PointAc(src[k], al)) % 2)] + after, rest)
      modifies decoder, block
      ensures Valid() && Next(decoder.pending, after, rest)
      ensures block[..] == old(block[..])[k := Trunc(src[k], al)]
    {
      hide Valid, Next, PointAc, Trunc, InRange, Shl;
      ghost var x := PointAc(src[k], al);
      RefineBit(src[k], al);
      TruncRange(src, k, al);
      var b := Get(AcBin(tbl, 3 * (k - 1) + 2), Decision(AcBin(tbl, 3 * (k - 1) + 2), Abs(x) % 2), after, rest);
      if b != 0 {
        if block[k] < 0 {
          block[k] := block[k] + -Shl(1, al);
        } else {
          block[k] := block[k] + Shl(1, al);
        }
      }
    }

    /** The sign of a coefficient that becomes nonzero. */
    method NewCoef(block: array<coef>, k: nat, al: nat,
                   ghost src: Block, ghost after: seq<Decision>, ghost rest: seq<Decision>)
      requires Valid() && block.Length == 64 && k < 64 && InRange(src)
      requires Trunc(src[k], al + 1) == 0 && PointAc(src[k], al) != 0
      requires Next(decoder.pending, [Decision(FixedBin, SignBit(PointAc(src[k], al)))] + after, rest)
      modifies decoder, block
      ensures Valid() && Next(decoder.pending, after, rest)
      ensures block[..] == old(block[..])[k := Trunc(src[k], al)]
    {
      hide Valid, Next, PointAc, Trunc, InRange, Shl;
      ghost var x := PointAc(src[k], al);
      RefineBit(src[k], al);
      TruncRange(src, k, al);
      var negative := Get(FixedBin, Decision(FixedBin, SignBit(x)), after, rest);
      block[k] := if negative != 0 then -Shl(1, al) else Shl(1, al);
    }

    /** A DC value in its first scan, down to bit al. */
    method DecodeDcFirst(block: array<coef>, ci: compNo, tbl: tableNo, al: nat,
                         ghost x: coef, ghost rest: seq<Decision>)
      returns (ok: bool)
      requires Valid() && block.Length == 64 && al <= MAX_AL
      requires Next(decoder.pending, DcDiff(tbl, dcContext[ci], PointDc(x, al) - lastDc[ci]), rest)
      modifies decoder, block, `lastDc, `dcContext
      ensures if ok then Valid() else Failed()
      ensures ok <==> Abs(PointDc(x, al) - old(lastDc)[ci]) <= 0x8000
      ensures ok ==>
                && decoder.pending == rest
                && lastDc == old(lastDc)[ci := PointDc(x, al)]
                && dcContext == old(dcContext)[ci := NextContext(cond, tbl, PointDc(x, al) - old(lastDc)[ci])]
                && block[..] == old(block[..])[0 := TruncDc(x, al)]
    {
      hide Valid, Next, DcDiff, PointDc, NextContext, Shl;
      ok := DecodeDcDiff(ci, tbl, PointDc(x, al), rest);
      if ok {
        TruncDcRange(x, al);
        block[0] := Shl(lastDc[ci], al);
      }
    }

    /** One more bit of a DC value. */
    method DecodeDcRefine(block: array<coef>, al: nat, ghost x: coef, ghost rest: seq<Decision>)
      requires Valid() && block.Length == 64 && al <= MAX_AL && block[0] == TruncDc(x, al + 1)
      requires Next(decoder.pending, [Decision(FixedBin, PointDc(x, al) % 2)] + [], rest)
      modifies decoder, block
      ensures Valid() && decoder.pending == rest
      ensures block[..] == old(block[..])[0 := TruncDc(x, al)]
    {
      hide Valid, Next, PointDc, TruncDc;
      var b := Get(FixedBin, Decision(FixedBin, PointDc(x, al) % 2), [], rest);
      NextRest(decoder.pending, rest);
      DcBit(x, al);
      TruncDcRange(x, al);
      if b != 0 {
        block[0] := OrBit(block[0], al);
      }
    }

    ghost function Dc(): DcState
      reads `lastDc, `dcContext
    {
      DcState(lastDc, dcContext)
    }

    /** One block of a scan, in place.  Fails exactly when its DC difference is too large. */
    method DecodeBlock(sc: Scan, ci: compNo, block: array<coef>, ghost b: Block, ghost rest: seq<Decision>)
      returns (ok: bool)
      requires Valid() && ScanOk(sc) && InRange(b) && block.Length == 64 && Prepared(sc, block[..], b)
      requires Next(decoder.pending, BlockDecisions(cond, sc, Dc(), ci, b), rest)
      modifies decoder, block, `lastDc, `dcContext
      ensures if ok then Valid() else Failed()
      ensures ok <==> (CodesDc(sc) ==> Abs(DcOf(sc, b) - old(Dc()).last[ci]) <= 0x8000)
      ensures ok ==>
                && decoder.pending == rest
                && Dc() == Step(cond, sc, old(Dc()), ci, b)
                && Received(sc, old(block[..]), block[..], b)
    {
      hide Valid, Next, DcDiff, NextContext, AcFirstBlock, AcRefineBlock, PointDc, Trunc, TruncDc, InRange, PointAc;
      ok := true;
      CoefInRange(b, 0);
      if CodesDc(sc) {
        ghost var ac := if !sc.progressive && sc.se > 0
          then AcFirstBlock(sc.acTbl(ci), cond.acK(sc.acTbl(ci)), b, 1, sc.se, 0) else [];
        ghost var dc := DcDiff(sc.dcTbl(ci), dcContext[ci], DcOf(sc, b) - lastDc[ci]);
        NextSplit(decoder.pending, dc, ac, rest);
        ok := DecodeDcFirst(block, ci, sc.dcTbl(ci), sc.al, b[0], ac + rest);
        if ok && !sc.progressive && sc.se > 0 {
          NextAfter(decoder.pending, ac, rest);
          FirstAc(b, 0);
          DecodeAcFirst(block, sc.acTbl(ci), 1, sc.se, 0, b, rest);
        }
      } else if sc.ss == 0 {
        DecodeDcRefine(block, sc.al, b[0], rest);
      } else if sc.ah == 0 {
        FirstAc(b, sc.al);
        DecodeAcFirst(block, sc.acTbl(ci), sc.ss, sc.se, sc.al, b, rest);
      } else {
        DecodeAcRefine(block, sc.acTbl(ci), sc.ss, sc.se, sc.al, b, rest);
      }
    }

    /** Block i is next in the interval from s to e; or a difference in it was refused. */
    ghost predicate Following(sc: Scan, us: seq<Unit>, s: nat, i: nat, e: nat)
      requires ScanOk(sc) && UnitsOk(us) && s <= i <= e <= |us|
      reads decoder, `stop, `lastDc, `dcContext
    {
      && (!CodesDc(sc) ==> Dc() == START)
      && if decoder.ct == -1 then Failed() && !Accepted(cond, sc, us, s, e)
         else
           && Valid()
           && decoder.pending == ScanDecisions(cond, sc, Dc(), us[i..e])
           && (Accepted(cond, sc, us, s, e) <==> DiffsOk(cond, sc, Dc(), us[i..e]))
    }

    /** The restart marker that is due, and the data of the next interval behind it. */
    ghost predicate Announced(next: nat, code: seq<byte>)
      reads `stop, `nextRestartNum
    {
      && 1 <= stop <= next <= |decoder.input|
      && decoder.input[stop - 1] == RST0 + nextRestartNum
      && D.DataAhead(decoder.input, stop, next, code, 0)
    }

    /** Takes the restart marker, wherever decoding has stopped, and begins the next interval. */
    method ProcessRestart(sc: Scan, ghost next: nat, ghost code: seq<byte>, ghost ds: seq<Decision>)
      requires Valid() || Failed()
      requires nextRestartNum < 8 && Announced(next, code) && CarriesDecisions(ds, code)
      modifies decoder, `lastDc, `dcContext, `restartsToGo, `nextRestartNum, `stop
      ensures Valid() && stop == next && decoder.pending == ds
      ensures Dc() == if CodesDc(sc) then START else old(Dc())
      ensures restartsToGo == restartInterval && nextRestartNum == (old(nextRestartNum) + 1) % 8
    {
      hide Areas, Stuff, Contains, CodeAll, Known, StatsOk, Normal, D.DataAhead, D.MarkerBefore;
      var ok := decoder.ReadRestartMarker(nextRestartNum);
      if !ok {
        assert false;
      }
      nextRestartNum := (nextRestartNum + 1) % 8;
      decoder.StartPass(Areas(), next, code, ds);
      stop := next;
      if CodesDc(sc) {
        lastDc, dcContext := [0, 0, 0, 0], [0, 0, 0, 0];
      }
      restartsToGo := restartInterval;
    }

    /** The blocks from lo to hi, in an interval from s to e. */
    method DecodeBlocks(sc: Scan, ci: seq<compNo>, blocks: seq<array<coef>>, lo: nat, hi: nat,
                        ghost us: seq<Unit>, ghost s: nat, ghost e: nat)
      requires ScanOk(sc) && UnitsOk(us) && |ci| == |blocks| == |us|
      requires s <= lo <= hi <= e <= |us| && Following(sc, us, s, lo, e) && decoder.ct != -1
      requires Buffers(ci, blocks, us)
      requires forall i | lo <= i < hi :: Prepared(sc, blocks[i][..], us[i].b)
      modifies decoder, `lastDc, `dcContext, set i | lo <= i < hi :: blocks[i]
      ensures Following(sc, us, s, hi, e)
      ensures Accepted(cond, sc, us, s, e) ==>
                forall i | lo <= i < hi :: Received(sc, old(blocks[i][..]), blocks[i][..], us[i].b)
    {
      hide Valid, Failed, Next, BlockDecisions, Step, ScanOk, InRange, ScanDecisions, DiffsOk, Prepared, Received, DcOf;
      for i := lo to hi
        invariant Following(sc, us, s, i, e) && decoder.ct != -1
        invariant forall j | lo <= j < i :: Received(sc, old(blocks[j][..]), blocks[j][..], us[j].b)
        invariant forall j | i <= j < hi :: blocks[j][..] == old(blocks[j][..])
      {
        ghost var piece := us[i..e];
        ScanHead(cond, sc, Dc(), piece, 0);
        assert piece[0..] == piece && piece[1..] == us[i + 1..e];
        assert InRange(us[i].b);
        ghost var rest := ScanDecisions(cond, sc, Step(cond, sc, Dc(), us[i].ci, us[i].b), us[i + 1..e]);
        NextAfter(decoder.pending, BlockDecisions(cond, sc, Dc(), us[i].ci, us[i].b), rest);
        StepIdle(cond, sc, Dc(), us[i].ci, us[i].b);
        var ok := DecodeBlock(sc, ci[i], blocks[i], us[i].b, rest);
        if !ok {
          FailedCt();
          return;
        }
        ValidCt();
      }
    }

    /** The blocks from lo to hi, which are one MCU; code is the data of the next interval,
        which lasts to e2, in case a restart marker is due. */
    method DecodeMcu(sc: Scan, ci: seq<compNo>, blocks: seq<array<coef>>, lo: nat, hi: nat, ghost us: seq<Unit>,
                     ghost s: nat, ghost e: nat, ghost e2: nat, ghost next: nat, ghost code: seq<byte>)
      requires ScanOk(sc) && UnitsOk(us) && |ci| == |blocks| == |us| && nextRestartNum < 8
      requires s <= lo <= e <= |us| && lo <= hi <= |us| && Following(sc, us, s, lo, e)
      requires if Due() then
                 hi <= e2 <= |us| && Announced(next, code) && Carries(cond, sc, us[lo..e2], code)
               else hi <= e
      requires Buffers(ci, blocks, us)
      requires forall i | lo <= i < hi :: Prepared(sc, blocks[i][..], us[i].b)
      modifies decoder, `lastDc, `dcContext, `restartsToGo, `nextRestartNum, `stop, set i | lo <= i < hi :: blocks[i]
      ensures var from, to := if old(Due()) then lo else s, if old(Due()) then e2 else e;
              && Following(sc, us, from, hi, to)
              && (Accepted(cond, sc, us, from, to) ==>
                    forall i | lo <= i < hi :: Received(sc, old(blocks[i][..]), blocks[i][..], us[i].b))
      ensures forall i | 0 <= i < |blocks| && (i < lo || hi <= i || (old(decoder.ct) == -1 && !old(Due()))) ::
                blocks[i][..] == old(blocks[i][..])
      ensures old(decoder.ct) == -1 && !old(Due()) ==>
                decoder.ct == -1 && decoder.pos == old(decoder.pos) && Dc() == old(Dc())
      ensures nextRestartNum == if old(Due()) then (old(nextRestartNum) + 1) % 8 else old(nextRestartNum)
      ensures stop == if old(Due()) then next else old(stop)
      ensures restartInterval != 0 ==>
                restartsToGo + 1 == if old(restartsToGo) == 0 then restartInterval else old(restartsToGo)
      ensures restartInterval == 0 ==> restartsToGo == old(restartsToGo)
    {
      hide Valid, Failed, ScanOk, InRange, ScanDecisions, DiffsOk, Prepared, Received, Announced, CarriesDecisions;
      ghost var from, to := s, e;
      if restartInterval != 0 {
        if restartsToGo == 0 {
          ProcessRestart(sc, next, code, ScanDecisions(cond, sc, START, us[lo..e2]));
          from, to := lo, e2;
          ValidCt();
        }
        restartsToGo := restartsToGo - 1;
      }
      if decoder.ct == -1 {
        return;
      }
      DecodeBlocks(sc, ci, blocks, lo, hi, us, from, to);
    }

    /** All blocks of a scan, in coding order.  A difference that is refused spoils the
        rest of its restart interval and nothing else; ok tells that none was. */
    method DecodeScan(sc: Scan, ci: seq<compNo>, blocks: seq<array<coef>>, mcu: nat,
                      ghost us: seq<Unit>, ghost codes: seq<seq<byte>>)
      returns (ok: bool)
      requires ScanOk(sc) && UnitsOk(us) && mcu >= 1 && Dc() == START
      requires restartsToGo == restartInterval && nextRestartNum == 0
      requires |ci| == |blocks| == |us| && Buffers(ci, blocks, us)
      requires forall i | 0 <= i < |blocks| :: Prepared(sc, blocks[i][..], us[i].b)
      requires CarriesAll(cond, sc, Plan(mcu, restartInterval), us, codes)
      requires decoder.pos == 0 && decoder.input == ScanBytes(codes)
      modifies decoder, `lastDc, `dcContext, `restartsToGo, `nextRestartNum, `stop
      modifies set i | 0 <= i < |blocks| :: blocks[i]
      ensures ok <==> RestorableTo(cond, sc, Plan(mcu, restartInterval), us, |us|)
      ensures forall i | 0 <= i < |blocks| && Restorable(cond, sc, Plan(mcu, restartInterval), us, i) ::
                Received(sc, old(blocks[i][..]), blocks[i][..], us[i].b)
    {
      ghost var pl := Plan(mcu, restartInterval);
      ghost var was := Contents(blocks);
      NothingDone(sc, pl, us, was);
      PlanFine(pl);
      hide *;
      ok := DecodeMcus(sc, ci, blocks, mcu, us, codes, was);
      DoneAll(sc, pl, us, was, Contents(blocks));
    }

    /** The MCUs of a scan, one by one. */
    method DecodeMcus(sc: Scan, ci: seq<compNo>, blocks: seq<array<coef>>, mcu: nat,
                      ghost us: seq<Unit>, ghost codes: seq<seq<byte>>, ghost was: seq<seq<int>>)
      returns (ok: bool)
      requires ScanOk(sc) && UnitsOk(us) && mcu >= 1 && PlanOk(Plan(mcu, restartInterval)) && Dc() == START
      requires restartsToGo == restartInterval && nextRestartNum == 0
      requires |ci| == |blocks| == |us| && Buffers(ci, blocks, us)
      requires DoneTo(sc, Plan(mcu, restartInterval), us, was, Contents(blocks), 0)
      requires CarriesAll(cond, sc, Plan(mcu, restartInterval), us, codes)
      requires decoder.pos == 0 && decoder.input == ScanBytes(codes)
      modifies decoder, `lastDc, `dcContext, `restartsToGo, `nextRestartNum, `stop
      modifies set i | 0 <= i < |blocks| :: blocks[i]
      ensures ok <==> RestorableTo(cond, sc, Plan(mcu, restartInterval), us, |us|)
      ensures DoneTo(sc, Plan(mcu, restartInterval), us, was, Contents(blocks), |us|)
    {
      hide *;
      ghost var pl := Plan(mcu, restartInterval);
      ghost var s: nat, k: nat := 0, 0;
      ghost var e := StartPass(sc, pl, us, codes);
      Entry(sc, pl, us, codes, e);
      ok := true;
      var i := 0;
      while i < |blocks|
        invariant i <= |blocks| && s <= |us| && AtMcu(sc, pl, us, codes, s, k, e, i)
        invariant ok <==> RestorableTo(cond, sc, pl, us, s) && decoder.ct != -1
        invariant DoneTo(sc, pl, us, was, Contents(blocks), i)
      {
        var hi := if |blocks| - i < mcu then |blocks| else i + mcu;
        s, k, e := DecodeNext(sc, ci, blocks, mcu, i, hi, us, codes, was, s, k, e);
        if decoder.ct == -1 {
          ok := false;
        }
        i := hi;
      }
      AllDone(sc, pl, us, codes, s, k, e);
    }

    /** The first i blocks are restored, where that can be; the others are as they were, and prepared. */
    ghost predicate DoneTo(sc: Scan, pl: Plan, us: seq<Unit>, was: seq<seq<int>>, now: seq<seq<int>>, i: nat)
      requires ScanOk(sc) && UnitsOk(us)
    {
      && |was| == |now| == |us| >= i
      && (forall j | 0 <= j < |us| ::
          if j < i then Restorable(cond, sc, pl, us, j) ==> Received(sc, was[j], now[j], us[j].b)
          else now[j] == was[j] && Prepared(sc, was[j], us[j].b))
    }

    lemma NothingDone(sc: Scan, pl: Plan, us: seq<Unit>, was: seq<seq<int>>)
      requires ScanOk(sc) && UnitsOk(us) && |was| == |us| && forall j | 0 <= j < |us| :: Prepared(sc, was[j], us[j].b)
      ensures DoneTo(sc, pl, us, was, was, 0)
    {
    }

    lemma DoneAll(sc: Scan, pl: Plan, us: seq<Unit>, was: seq<seq<int>>, now: seq<seq<int>>)
      requires ScanOk(sc) && UnitsOk(us) && DoneTo(sc, pl, us, was, now, |us|)
      ensures |was| == |now| == |us|
      ensures forall j | 0 <= j < |us| && Restorable(cond, sc, pl, us, j) :: Received(sc, was[j], now[j], us[j].b)
    {
      hide Received, Restorable;
    }

    lemma PlanFine(pl: Plan)
      requires pl.mcu >= 1
      ensures PlanOk(pl)
    {
    }

    /** An MCU more: its blocks are restored if the interval is accepted. */
    lemma DoneMore(sc: Scan, pl: Plan, us: seq<Unit>, was: seq<seq<int>>, a: seq<seq<int>>, b: seq<seq<int>>,
                   lo: nat, hi: nat, fate: bool)
      requires ScanOk(sc) && UnitsOk(us) && DoneTo(sc, pl, us, was, a, lo) && |b| == |us| && lo <= hi <= |us|
      requires forall j | 0 <= j < |us| && (j < lo || hi <= j) :: b[j] == a[j]
      requires forall j | lo <= j < hi :: Restorable(cond, sc, pl, us, j) <==> fate
      requires fate ==> forall j | lo <= j < hi :: Received(sc, a[j], b[j], us[j].b)
      ensures DoneTo(sc, pl, us, was, b, hi)
    {
      hide Received, Restorable, Prepared;
    }

    /** Block i is next, in interval k from s to e, and the counters and the input agree. */
    ghost predicate AtMcu(sc: Scan, pl: Plan, us: seq<Unit>, codes: seq<seq<byte>>, s: nat, k: nat, e: nat, i: nat)
      requires ScanOk(sc) && UnitsOk(us)
      reads decoder, `stop, `lastDc, `dcContext, `restartsToGo, `nextRestartNum
    {
      && s <= i <= e <= |us| && k < |codes| && e == EndOf(pl, s, |us|)
      && Following(sc, us, s, i, e)
      && Counting(pl, k, s, i, |us|, restartsToGo)
      && nextRestartNum == k % 8 && stop == StopOf(codes, k)
    }

    /** One MCU, and the restart before it if one is due. */
    method DecodeNext(sc: Scan, ci: seq<compNo>, blocks: seq<array<coef>>, mcu: nat, i: nat, hi: nat,
                      ghost us: seq<Unit>, ghost codes: seq<seq<byte>>, ghost was: seq<seq<int>>,
                      ghost s: nat, ghost k: nat, ghost e: nat)
      returns (ghost s': nat, ghost k': nat, ghost e': nat)
      requires ScanOk(sc) && UnitsOk(us) && PlanOk(Plan(mcu, restartInterval))
      requires |ci| == |blocks| == |us| && Buffers(ci, blocks, us)
      requires CarriesAll(cond, sc, Plan(mcu, restartInterval), us, codes) && decoder.input == ScanBytes(codes)
      requires AtMcu(sc, Plan(mcu, restartInterval), us, codes, s, k, e, i)
      requires i < |blocks| && hi == if |blocks| - i < mcu then |blocks| else i + mcu
      requires DoneTo(sc, Plan(mcu, restartInterval), us, was, Contents(blocks), i)
      modifies decoder, `lastDc, `dcContext, `restartsToGo, `nextRestartNum, `stop, set j | i <= j < hi :: blocks[j]
      ensures AtMcu(sc, Plan(mcu, restartInterval), us, codes, s', k', e', hi) && s' <= |us|
      ensures var pl := Plan(mcu, restartInterval);
              RestorableTo(cond, sc, pl, us, s') && decoder.ct != -1
              <==> RestorableTo(cond, sc, pl, us, s) && old(decoder.ct) != -1 && decoder.ct != -1
      ensures DoneTo(sc, Plan(mcu, restartInterval), us, was, Contents(blocks), hi)
    {
      hide *;
      ghost var a := Contents(blocks);
      ghost var pl := Plan(mcu, restartInterval);
      StillPrepared(sc, pl, us, was, a, i);
      ghost var next, code;
      s', k', e', next, code := Prospect(sc, pl, us, codes, s, k, e, i, hi);
      DecodeMcu(sc, ci, blocks, i, hi, us, s, e, e', next, code);
      Arrival(sc, pl, us, codes, s', k', e', hi);
      DoneMore(sc, pl, us, was, a, Contents(blocks), i, hi, Accepted(cond, sc, us, s', e'));
    }

    /** Where the decoder will be behind the next MCU. */
    lemma Prospect(sc: Scan, pl: Plan, us: seq<Unit>, codes: seq<seq<byte>>, s: nat, k: nat, e: nat, i: nat, hi: nat)
      returns (s': nat, k': nat, e': nat, next: nat, code: seq<byte>)
      requires ScanOk(sc) && UnitsOk(us) && PlanOk(pl) && pl.restart == restartInterval
      requires CarriesAll(cond, sc, pl, us, codes) && decoder.input == ScanBytes(codes)
      requires AtMcu(sc, pl, us, codes, s, k, e, i)
      requires i < |us| && hi == if |us| - i < pl.mcu then |us| else i + pl.mcu
      ensures s <= i <= e <= |us| && Following(sc, us, s, i, e) && nextRestartNum == k % 8 < 8
      ensures s' == (if Due() then i else s) && s' <= i < hi <= e' <= |us| && e' == EndOf(pl, s', |us|)
      ensures k' < |codes| && next == StopOf(codes, k') && code == codes[k'] && (!Due() ==> stop == next && e' == e)
      ensures k' % 8 == if Due() then (nextRestartNum + 1) % 8 else nextRestartNum
      ensures Due() ==> Announced(next, code) && Carries(cond, sc, us[i..e'], code)
      ensures var toGo := if restartInterval != 0 && restartsToGo == 0 then restartInterval else restartsToGo;
              && (restartInterval != 0 ==> toGo >= 1)
              && Counting(pl, k', s', hi, |us|, if restartInterval != 0 then toGo - 1 else toGo)
      ensures forall j | i <= j < hi :: Restorable(cond, sc, pl, us, j) <==> Accepted(cond, sc, us, s', e')
      ensures RestorableTo(cond, sc, pl, us, s')
              <==> RestorableTo(cond, sc, pl, us, s) && (Due() ==> decoder.ct != -1)
    {
      hide *;
      Standing(sc, pl, us, codes, s, k, e, i);
      CountsOn(k);
      var toGo := restartsToGo;
      next, code := stop, codes[k];
      s', k', e' := s, k, e;
      if Due() {
        NextInterval(sc, pl, us, codes, k, s, e, i);
        s', k', e', toGo := i, k + 1, EndOf(pl, i, |us|), restartInterval;
        next, code := StopOf(codes, k'), codes[k'];
      }
      CountMcu(pl, k', s', i, hi, |us|, toGo);
      WithinInterval(pl, k', s', hi, |us|, if restartInterval != 0 then toGo - 1 else toGo);
      CountingBegin(pl, k', s', i, |us|, toGo);
      McuFate(cond, sc, pl, us, k', s', e', i, hi);
    }

    lemma Standing(sc: Scan, pl: Plan, us: seq<Unit>, codes: seq<seq<byte>>, s: nat, k: nat, e: nat, i: nat)
      requires ScanOk(sc) && UnitsOk(us) && PlanOk(pl) && AtMcu(sc, pl, us, codes, s, k, e, i)
      ensures s <= i <= e <= |us| && k < |codes| && e == EndOf(pl, s, |us|) && Following(sc, us, s, i, e)
      ensures Counting(pl, k, s, i, |us|, restartsToGo) && nextRestartNum == k % 8 && stop == StopOf(codes, k)
      ensures pl.mcu >= 1 && (Due() <==> restartInterval != 0 && restartsToGo == 0)
    {
      hide ScanOk, UnitsOk, Following, Counting, EndOf, StopOf;
    }

    lemma Arrival(sc: Scan, pl: Plan, us: seq<Unit>, codes: seq<seq<byte>>, s: nat, k: nat, e: nat, i: nat)
      requires ScanOk(sc) && UnitsOk(us) && s <= i <= e <= |us| && k < |codes| && e == EndOf(pl, s, |us|)
      requires Following(sc, us, s, i, e) && Counting(pl, k, s, i, |us|, restartsToGo)
      requires nextRestartNum == k % 8 && stop == StopOf(codes, k)
      ensures AtMcu(sc, pl, us, codes, s, k, e, i)
    {
      hide ScanOk, UnitsOk, Following, Counting, EndOf, StopOf;
    }

    lemma StillPrepared(sc: Scan, pl: Plan, us: seq<Unit>, was: seq<seq<int>>, now: seq<seq<int>>, i: nat)
      requires ScanOk(sc) && UnitsOk(us) && DoneTo(sc, pl, us, was, now, i)
      ensures |now| == |us| && forall j | i <= j < |us| :: Prepared(sc, now[j], us[j].b)
    {
      hide Prepared, Received, Restorable;
    }

    /** An interval ends where the next one is announced. */
    lemma NextInterval(sc: Scan, pl: Plan, us: seq<Unit>, codes: seq<seq<byte>>, k: nat, s: nat, e: nat, i: nat)
      requires ScanOk(sc) && UnitsOk(us) && CarriesAll(cond, sc, pl, us, codes) && decoder.input == ScanBytes(codes)
      requires k < |codes| && nextRestartNum == k % 8 && stop == StopOf(codes, k)
      requires PlanOk(pl) && pl.restart != 0 && s <= i <= e <= |us| && e == EndOf(pl, s, |us|) && i < |us|
      requires Counting(pl, k, s, i, |us|, 0) && Following(sc, us, s, i, e)
      ensures k + 1 < |codes| && i == e && Announced(StopOf(codes, k + 1), codes[k + 1])
      ensures Carries(cond, sc, us[i..EndOf(pl, i, |us|)], codes[k + 1])
      ensures Counting(pl, k + 1, i, i, |us|, pl.restart)
      ensures RestorableTo(cond, sc, pl, us, i) <==> RestorableTo(cond, sc, pl, us, s) && decoder.ct != -1
    {
      hide ScanOk, UnitsOk, CarriesAll, ScanBytes, StopOf, EndOf, Counting, Following, Announced, Carries, RestorableTo,
           Accepted;
      AnotherInterval(cond, sc, pl, us, codes, k, s, i);
      IntervalDone(cond, sc, pl, us, k, s, e) by { CountingBegin(pl, k, s, i, |us|, 0); }
      MarkerAhead(codes, k);
      AtEnd(sc, us, s, e);
      IntervalEnds(pl, k, s, i, |us|);
    }

    lemma Entry(sc: Scan, pl: Plan, us: seq<Unit>, codes: seq<seq<byte>>, e: nat)
      requires ScanOk(sc) && UnitsOk(us) && CarriesAll(cond, sc, pl, us, codes) && restartsToGo == pl.restart
      requires e == EndOf(pl, 0, |us|) && Following(sc, us, 0, 0, e)
      requires nextRestartNum == 0 && stop == StopOf(codes, 0)
      ensures AtMcu(sc, pl, us, codes, 0, 0, e, 0) && RestorableTo(cond, sc, pl, us, 0)
    {
      CountingStarts(pl, |us|);
    }

    lemma AllDone(sc: Scan, pl: Plan, us: seq<Unit>, codes: seq<seq<byte>>, s: nat, k: nat, e: nat)
      requires ScanOk(sc) && UnitsOk(us) && PlanOk(pl) && AtMcu(sc, pl, us, codes, s, k, e, |us|) && s <= |us|
      ensures RestorableTo(cond, sc, pl, us, |us|) <==> RestorableTo(cond, sc, pl, us, s) && decoder.ct != -1
    {
      hide RestorableTo, EndOf, Following, Counting, Accepted;
      CountingBegin(pl, k, s, |us|, |us|, restartsToGo);
      WithinInterval(pl, k, s, |us|, |us|, restartsToGo);
      IntervalDone(cond, sc, pl, us, k, s, e);
      AtEnd(sc, us, s, e);
    }

    /** Registers for the first interval. */
    method StartPass(sc: Scan, ghost pl: Plan, ghost us: seq<Unit>, ghost codes: seq<seq<byte>>) returns (ghost e: nat)
      requires ScanOk(sc) && UnitsOk(us) && Dc() == START && CarriesAll(cond, sc, pl, us, codes)
      requires decoder.pos == 0 && decoder.input == ScanBytes(codes)
      modifies decoder, `stop
      ensures e == EndOf(pl, 0, |us|) && stop == StopOf(codes, 0) && decoder.ct != -1
      ensures Following(sc, us, 0, 0, e)
    {
      hide Areas, Stuff, Front, ScanBytes, Contains, CodeAll, D.DataAhead, D.MarkerBefore, ScanDecisions, DiffsOk,
           ScanOk;
      e := EndOf(pl, 0, |us|);
      stop := StopOf(codes, 0);
      FirstAhead(codes);
      ghost var ds := FirstCarries(cond, sc, pl, us, codes);
      decoder.StartPass(Areas(), stop, codes[0], ds);
      ValidCt();
    }

    lemma MarkerAhead(codes: seq<seq<byte>>, k: nat)
      requires k + 1 < |codes| && decoder.input == ScanBytes(codes)
      requires nextRestartNum == k % 8 && stop == StopOf(codes, k)
      ensures Announced(StopOf(codes, k + 1), codes[k + 1])
    {
      hide ScanBytes, StopOf, D.DataAhead;
      NextAhead(codes, k);
    }

    /** At the end of an interval it is known whether a difference was refused. */
    lemma AtEnd(sc: Scan, us: seq<Unit>, s: nat, e: nat)
      requires ScanOk(sc) && UnitsOk(us) && s <= e <= |us| && Following(sc, us, s, e, e)
      ensures decoder.ct != -1 <==> Accepted(cond, sc, us, s, e)
    {
      assert us[e..e] == [];
      NoDiffs(cond, sc, Dc(), us[e..e]);
    }

    /** A restart marker comes before the next MCU. */
    predicate Due()
      reads `restartsToGo
    {
      restartInterval != 0 && restartsToGo == 0
    }

    lemma ValidCt()
      requires Valid()
      ensures decoder.ct != -1
    {
    }

    lemma FailedCt()
      requires Failed()
      ensures decoder.ct == -1
    {
    }
  }

  /** The data of the next interval begin behind the restart marker of this one. */
  lemma NextAhead(codes: seq<seq<byte>>, k: nat)
    requires k + 1 < |codes|
    ensures 1 <= StopOf(codes, k) <= StopOf(codes, k + 1) <= |ScanBytes(codes)|
    ensures ScanBytes(codes)[StopOf(codes, k) - 1] == RST0 + k % 8
    ensures D.DataAhead(ScanBytes(codes), StopOf(codes, k), StopOf(codes, k + 1), codes[k + 1], 0)
  {
    hide Stuff, Front, ScanBytes, StopOf, D.DataAhead;
    AtInterval(codes, k);
    AtInterval(codes, k + 1);
    DataInside(ScanBytes(codes), StopOf(codes, k), StopOf(codes, k + 1), codes[k + 1]);
  }

  lemma FirstAhead(codes: seq<seq<byte>>)
    requires codes != []
    ensures 0 <= StopOf(codes, 0) <= |ScanBytes(codes)|
    ensures D.DataAhead(ScanBytes(codes), 0, StopOf(codes, 0), codes[0], 0)
  {
    hide Stuff, ScanBytes, StopOf, D.DataAhead;
    AtInterval(codes, 0);
    DataInside(ScanBytes(codes), 0, StopOf(codes, 0), codes[0]);
  }

  /** Interval k in the bytes of the scan, with its marker. */
  lemma AtInterval(codes: seq<seq<byte>>, k: nat)
    requires k < |codes|
    ensures var p, q, bytes := |Front(codes[..k])|, StopOf(codes, k), ScanBytes(codes);
            && q == p + |Stuff(codes[k])| + 2 <= |bytes|
            && bytes[p..q][..|Stuff(codes[k])|] == Stuff(codes[k])
            && bytes[q - 2] == 0xFF && bytes[q - 1] == (if k + 1 < |codes| then RST0 + k % 8 else 0xD9)
            && (k + 1 < |codes| ==> q == |Front(codes[..k + 1])|)
            && (k == 0 ==> p == 0)
  {
    hide Stuff, ScanBytes;
    IntervalAt(codes, k);
    hide Front;
    var p, q, bytes := |Front(codes[..k])|, StopOf(codes, k), ScanBytes(codes);
    assert bytes[q - 2] == bytes[p..q][q - 2 - p] && bytes[q - 1] == bytes[p..q][q - 1 - p];
  }

  lemma DataInside(bytes: seq<byte>, p: nat, stop: nat, code: seq<byte>)
    requires p <= stop <= |bytes| && stop - p == |Stuff(code)| + 2
    requires bytes[p..stop][..|Stuff(code)|] == Stuff(code)
    requires bytes[stop - 2] == 0xFF && bytes[stop - 1] != 0 && bytes[stop - 1] != 0xFF
    ensures D.DataAhead(bytes, p, stop, code, 0)
  {
    hide Stuff;
    assert code[0..] == code;
    assert bytes[p..stop] == Stuff(code) + D.MarkerBytes(0, bytes[stop - 1]);
  }

  lemma FirstCarries(cond: Conditioning, sc: Scan, pl: Plan, us: seq<Unit>, codes: seq<seq<byte>>)
    returns (ds: seq<Decision>)
    requires ScanOk(sc) && UnitsOk(us) && CarriesAll(cond, sc, pl, us, codes)
    ensures ds == ScanDecisions(cond, sc, START, us[0..EndOf(pl, 0, |us|)]) && CarriesDecisions(ds, codes[0])
  {
    hide CarriesDecisions, ScanDecisions, ScanOk;
    NextStart(pl, 0);
    ds := ScanDecisions(cond, sc, START, us[BeginAt(pl, 0)..EndOf(pl, BeginAt(pl, 0), |us|)]);
  }

  /** The blocks of a scan are separate arrays, with the components that the encoder coded. */
  ghost predicate Buffers(ci: seq<compNo>, blocks: seq<array<coef>>, us: seq<Unit>)
    requires |ci| == |blocks| == |us|
  {
    && (forall i | 0 <= i < |blocks| :: blocks[i].Length == 64 && us[i].ci == ci[i])
    && (forall i, j | 0 <= i < j < |blocks| :: blocks[i] != blocks[j])
  }

  lemma CountsOn(k: nat)
    ensures (k % 8 + 1) % 8 == (k + 1) % 8
  {
  }

  ghost function Contents(blocks: seq<array<coef>>): (values: seq<seq<int>>)
    reads blocks
    ensures |values| == |blocks| && forall i | 0 <= i < |blocks| :: values[i] == blocks[i][..]
  {
    if blocks == [] then []
    else Contents(blocks[..|blocks| - 1]) + [blocks[|blocks| - 1][..]]
  }

  lemma StepIdle(cond: Conditioning, sc: Scan, st: DcState, ci: compNo, b: Block)
    requires InRange(b)
    ensures !CodesDc(sc) ==> Step(cond, sc, st, ci, b) == st
  {
  }

  lemma FirstAc(b: Block, al: nat)
    ensures forall k | 0 <= k < 64 :: PointAc(b[k], al) == 0 ==> Trunc(b[k], al) == 0
  {
    forall k | 0 <= k < 64 ensures PointAc(b[k], al) == 0 ==> Trunc(b[k], al) == 0 {
      TruncZero(b[k], al);
    }
  }

  lemma NextOneOnly(pending: seq<Decision>, d: Decision, rest: seq<Decision>)
    requires Next(pending, [d], rest)
    ensures Next(pending, [d] + [], rest)
  {
    assert [d] + [] == [d];
  }

  lemma NextRest(pending: seq<Decision>, rest: seq<Decision>)
    requires Next(pending, [], rest)
    ensures pending == rest
  {
  }

  lemma TopBitSmall(u: nat)
    requires u >= 1
    ensures TopBit(u) < 0x8000 <==> u < 0x8000
  {
    TopBitPower(u);
    hide TopBit;
    SmallPowers();
    var n := Doublings(u);
    if n <= 14 {
      Pow2Mono(n, 14);
    } else {
      Pow2Mono(15, n);
    }
  }

  lemma DcDiffHead(tbl: tableNo, st: nat, diff: int)
    ensures DcDiff(tbl, st, diff)
            == [Decision(DcBin(tbl, st), if diff == 0 then 0 else 1)] + DcDiffTail(tbl, st, diff)
  {
  }

  function DcDiffTail(tbl: tableNo, st: nat, diff: int): seq<Decision> {
    if diff == 0 then []
    else [Decision(DcBin(tbl, st + 1), SignBit(diff))]
         + DcMagnitude(tbl, st + 2 + SignBit(diff), Abs(diff) - 1)
  }

  function AcMagnitudeTail(tbl: tableNo, st: nat, base: nat, u: nat): seq<Decision> {
    if u == 0 then []
    else if u == 1 then [Decision(AcBin(tbl, st), 0)]
    else [Decision(AcBin(tbl, st), 1)]
         + (Category(true, tbl, base, u / 2)
            + Pattern(true, tbl, base + Doublings(u / 2) + 14, TopBit(u), u))
  }

  lemma AcMagnitudeHead(tbl: tableNo, st: nat, base: nat, u: nat)
    ensures AcMagnitude(tbl, st, base, u)
            == [Decision(AcBin(tbl, st), if u == 0 then 0 else 1)] + AcMagnitudeTail(tbl, st, base, u)
  {
    hide Category, Pattern, TopBit, Doublings;
  }

  lemma AcMagnitudeSecond(tbl: tableNo, st: nat, base: nat, u: nat)
    requires u != 0
    ensures AcMagnitudeTail(tbl, st, base, u)
            == [Decision(AcBin(tbl, st), if u == 1 then 0 else 1)]
               + if u == 1 then []
                 else Category(true, tbl, base, u / 2)
                      + Pattern(true, tbl, base + Doublings(u / 2) + 14, TopBit(u), u)
  {
    hide Category, Pattern, TopBit, Doublings;
  }

  lemma NextAfter(pending: seq<Decision>, ds: seq<Decision>, rest: seq<Decision>)
    requires pending == ds + rest
    ensures Next(pending, ds, rest)
  {
  }

  lemma PointOfRange(b: Block, k: nat, al: nat)
    requires InRange(b) && k < 64
    ensures -0x8000 <= PointAc(b[k], al) <= 0x8000
  {
    PointBounds(b[k], al);
  }

  /** Both sides test the end of block at the same positions. */
  lemma SameEnd(block: seq<int>, src: Block, ss: nat, se: nat, al: nat, ke: nat, kxe: nat, kex: nat)
    requires |block| == 64 && 1 <= ss <= se < 64
    requires forall i | ss <= i <= se :: block[i] == Trunc(src[i], al + 1)
    requires ke == LastNonzero(src, al, se) && kxe == LastNonzero(src, al + 1, ke)
    requires kex <= se && (kex > 0 ==> block[kex] != 0)
    requires forall i | kex < i <= se :: block[i] == 0
    ensures kex == kxe || (kex < ss && kxe < ss)
  {
    forall i | ss <= i <= se ensures block[i] == 0 <==> PointAc(src[i], al + 1) == 0 {
      TruncZero(src[i], al + 1);
    }
    forall i | ke < i <= se ensures PointAc(src[i], al + 1) == 0 {
      RefineBit(src[i], al);
      TruncZero(src[i], al + 1);
    }
    hide Trunc, PointAc;
  }

  lemma ZeroTail(src: Block, ss: nat, se: nat, al: nat, k: nat)
    requires 1 <= ss <= se < 64 && LastNonzero(src, al, se) <= k
    ensures forall i | k < i <= se :: Trunc(src[i], al) == 0 && Trunc(src[i], al + 1) == 0
  {
    hide Trunc, PointAc;
    forall i | k < i <= se ensures Trunc(src[i], al) == 0 && Trunc(src[i], al + 1) == 0 {
      RefineBit(src[i], al);
    }
  }

  lemma PatternStart(m0: nat, u: nat) returns (i: nat)
    requires m0 == if u == 0 then 0 else TopBit(u)
    ensures m0 == 0 || m0 == Pow2(i)
    ensures u != 0 ==> u / m0 * m0 == m0 > 0
  {
    i := 0;
    if u != 0 {
      TopBitPower(u);
      i := Doublings(u);
      DivModUnique(u, m0, 1, u - m0);
    }
  }

  /** One more bit of u is known. */
  lemma PatternStep(m: nat, u: nat, i: nat) returns (j: nat)
    requires m >= 2 && m == Pow2(i)
    ensures m / 2 == Pow2(j) && m == 2 * (m / 2)
    ensures u / (m / 2) * (m / 2) == u / m * m + (u / (m / 2) % 2) * (m / 2)
  {
    j := i - 1;
    var h := Pow2(j);
    var q := u / h;
    assert u / m == q / 2 by {
      DivModUnique(u, m, q / 2, (q % 2) * h + u % h);
    }
    MulSwap(q / 2, 2, h);
    assert q * h == (2 * (q / 2) + q % 2) * h;
  }

  lemma PatternHead(ac: bool, tbl: tableNo, st: nat, m: nat, u: nat)
    requires m >= 2
    ensures Pattern(ac, tbl, st, m, u)
            == [Decision(BinAt(ac, tbl, st), u / (m / 2) % 2)] + Pattern(ac, tbl, st, m / 2, u)
  {
  }

  lemma PatternEnd(ac: bool, tbl: tableNo, st: nat, m: nat, u: nat)
    requires m < 2
    ensures Pattern(ac, tbl, st, m, u) == []
  {
  }

  lemma CategoryHead(ac: bool, tbl: tableNo, st: nat, v: nat) returns (d: Decision, ds: seq<Decision>)
    requires v >= 1
    ensures Category(ac, tbl, st, v) == [d] + ds && d.bin == BinAt(ac, tbl, st)
    ensures d.val == if v < 2 then 0 else 1
    ensures ds == if v < 2 then [] else Category(ac, tbl, st + 1, v / 2)
  {
    d := Decision(BinAt(ac, tbl, st), if v < 2 then 0 else 1);
    ds := if v < 2 then [] else Category(ac, tbl, st + 1, v / 2);
  }

  lemma GrownStep(m: nat, v: nat, i: nat)
    requires v >= 1 && m == Pow2(i) && i <= 14
    ensures Grown(m, v) == if v < 2 then m else Grown(2 * m, v / 2)
    ensures 2 * m == Pow2(i + 1) && m < 0x8000
    ensures 2 * m == 0x8000 <==> i == 14
  {
    SmallPowers();
    if i < 14 {
      Pow2Mono(i + 1, 14);
    }
  }

  lemma {:induction false} GrownAtLeast(m: nat, v: nat)
    requires v >= 1
    ensures Grown(m, v) >= m
    decreases v
  {
    if v >= 2 {
      GrownAtLeast(2 * m, v / 2);
    }
  }
}
