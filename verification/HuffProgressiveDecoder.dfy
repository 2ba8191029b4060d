/** Decoding progressive AC scans, with suspension: what a failed attempt leaves behind does
    not disturb the next one. */
module HuffProgressiveDecoder {
  import opened Numbers
  import opened BitStrings
  import opened Stuffing
  import opened RestartIntervals
  import opened HuffBitWriter
  import opened HuffDerived
  import opened HuffBitReader
  import opened ArithModel
  import opened HuffItems
  import opened HuffBlocks
  import opened HuffRefine
  import opened HuffSource
  import opened HuffSink
  import opened HuffBandIntervals
  import opened HuffProgressive

  /** In a run of n bands from i on, none has symbols of its own. */
  ghost predicate InRun(bands: seq<Band>, i: nat, n: nat) {
    i + n <= |bands| && forall j | i <= j < i + n :: bands[j].body == []
  }

  /** The run that an end-of-band symbol in band i starts. */
  ghost function RunAfter(bands: seq<Band>, i: nat): (n: nat)
    requires i < |bands|
    ensures n < MAX_EOBRUN && i + 1 + n <= |bands| && InRun(bands, i + 1, n)
  {
    Joining(bands, i + 1, 1, |bands[i].corr|)
  }

  /** The run that is left behind band i. */
  ghost function RunBehind(bands: seq<Band>, i: nat, eobrun: nat): (n: nat)
    requires i < |bands|
  {
    if eobrun > 0 then eobrun - 1 else if bands[i].tail then RunAfter(bands, i) else 0
  }

  /** What band i itself takes, when it is in a run of eobrun bands. */
  ghost function OwnItems(tbl: tblNo, bands: seq<Band>, i: nat, eobrun: nat): (items: seq<Item>)
    requires i < |bands|
  {
    if eobrun > 0 then RawBits(bands[i].corr)
    else if bands[i].tail then bands[i].body + (EobRun(tbl, 1 + RunAfter(bands, i)) + RawBits(bands[i].corr))
    else bands[i].body
  }

  lemma OwnFirst(tbl: tblNo, bands: seq<Band>, i: nat, eobrun: nat)
    requires i < |bands| && InRun(bands, i, eobrun)
    ensures i + 1 + RunBehind(bands, i, eobrun) <= |bands|
    ensures BandItems(tbl, bands, i, eobrun)
            == OwnItems(tbl, bands, i, eobrun) + BandItems(tbl, bands, i + 1, RunBehind(bands, i, eobrun))
  {
    hide RawBits, EobRun, Joining;
    if eobrun == 0 && bands[i].tail {
      var rest := BandItems(tbl, bands, i + 1, RunAfter(bands, i));
      Regroup(bands[i].body, EobRun(tbl, 1 + RunAfter(bands, i)), RawBits(bands[i].corr), rest);
    }
  }

  lemma AfterTail(tbl: tblNo, bands: seq<Band>, i: nat)
    requires i < |bands| && bands[i].tail
    ensures AfterBody(tbl, bands, i)
            == EobRun(tbl, 1 + RunAfter(bands, i))
               + (RawBits(bands[i].corr) + BandItems(tbl, bands, i + 1, RunAfter(bands, i)))
  {
  }

  lemma AfterNoTail(tbl: tblNo, bands: seq<Band>, i: nat)
    requires i < |bands| && !bands[i].tail
    ensures AfterBody(tbl, bands, i) == BandItems(tbl, bands, i + 1, 0)
  {
  }

  /** The symbol of a run of n bands, and its other bits. */
  function EobSymbol(tbl: tblNo, n: nat): (it: Item)
    requires 1 <= n <= MAX_EOBRUN
  {
    EobRunSize(n);
    Sym(true, tbl, RunSize(Size(n) - 1, 0))
  }

  function EobExtra(n: nat): (items: seq<Item>)
    requires 1 <= n <= MAX_EOBRUN
  {
    if Size(n) > 1 then [Raw(BitsOf(n, Size(n) - 1))] else []
  }

  lemma EobParts(tbl: tblNo, n: nat, rest: seq<Item>)
    requires 1 <= n <= MAX_EOBRUN
    ensures EobRun(tbl, n) + rest == [EobSymbol(tbl, n)] + (EobExtra(n) + rest)
  {
    EobRunSize(n);
    assert [EobSymbol(tbl, n)] + EobExtra(n) + rest == [EobSymbol(tbl, n)] + (EobExtra(n) + rest);
  }

  /** A number is its top bit and the bits below it. */
  lemma TopBitSum(n: nat)
    requires n > 0
    ensures Size(n) > 0 && Pow2(Size(n) - 1) + Value(BitsOf(n, Size(n) - 1)) == n
  {
    SizeBounds(n);
    var r := Size(n) - 1;
    var p := Pow2(r);
    assert Pow2(r + 1) == 2 * p;
    hide Pow2, Value, BitsOf;
    DivModUnique(n, p, 1, n - p);
    LowBitsInt(n, r);
    ValueOfBits(n - p, r);
  }

  /** The length of a run after its symbol of category r. */
  method GetEobRun(reader: BitReader, r: nat, ghost ts: Tables, ghost n: nat, ghost items: seq<Item>,
                   ghost pad: seq<bit>)
    returns (ok: bool, eobrun: nat)
    requires reader.Valid() && TablesOk(ts) && 1 <= n <= MAX_EOBRUN && r + 1 == Size(n)
    requires Expects(reader, ts, EobExtra(n) + items, pad)
    modifies reader`pos, reader`unread, reader`getBuffer, reader`bitsLeft, reader`insufficientData, reader`rest
    ensures reader.Valid() && reader.insufficientData == old(reader.insufficientData)
    ensures ok ==> eobrun == n && Expects(reader, ts, items, pad)
    ensures !ok ==> reader.available < |reader.input| && reader.unread == 0
    ensures old(reader.unread) != 0 ==> ok && reader.unread == old(reader.unread)
  {
    hide BitReader.Valid, BitReader.Ahead, Expects, BitsOf, Value;
    EobRunSize(n);
    TopBitSum(n);
    ok, eobrun := true, Pow2(r);
    if r != 0 {
      var extra;
      ok, extra := GetRaw(reader, r, ts, BitsOf(n, r), items, pad);
      eobrun := eobrun + extra;
    } else {
      assert [] + items == items;
      assert BitsOf(n, 0) == [];
      assert Value([]) == 0 by { NoValue(); }
    }
  }

  lemma NoValue()
    ensures Value([]) == 0
  {
  }

  // ----- First scans -----

  /** Within the band, earlier attempts may have output some coefficients already. */
  ghost predicate FirstAttempted(block: seq<int>, b: Block, al: nat, ss: nat, se: nat) {
    |block| == 64 && se < 64 && forall k | ss <= k <= se :: block[k] == 0 || block[k] == Trunc(b[k], al)
  }

  /** The band is output up to position n. */
  ghost predicate FirstOutput(block: seq<int>, b: Block, al: nat, ss: nat, se: nat, n: nat) {
    FirstAttempted(block, b, al, ss, se) && forall k | ss <= k <= se && k < n :: block[k] == Trunc(b[k], al)
  }

  /** Only the band changes. */
  ghost predicate Outside(block: seq<int>, block': seq<int>, ss: nat, se: nat) {
    |block| == |block'| && forall k | 0 <= k < |block| && !(ss <= k <= se) :: block'[k] == block[k]
  }

  lemma SkipZeros(block: seq<int>, b: Block, al: nat, ss: nat, se: nat, k: nat, n: nat)
    requires FirstOutput(block, b, al, ss, se, k)
    requires forall i | k <= i < n && i <= se :: PointAc(b[i], al) == 0
    ensures FirstOutput(block, b, al, ss, se, n)
  {
    hide PointAc, Trunc;
    forall i | ss <= i <= se && i < n ensures block[i] == Trunc(b[i], al) {
      if i >= k {
        TruncZero(b[i], al);
      }
    }
  }

  lemma PutCoef(block: seq<int>, b: Block, al: nat, ss: nat, se: nat, k: nat)
    requires FirstOutput(block, b, al, ss, se, k) && ss <= k <= se && InRange(b)
    ensures -0x8000 <= Trunc(b[k], al) < 0x8000
    ensures FirstOutput(block[k := Trunc(b[k], al)], b, al, ss, se, k + 1)
    ensures Outside(block, block[k := Trunc(b[k], al)], ss, se)
  {
    TruncRange(b, k, al);
    hide PointAc, Trunc, InRange;
  }

  /** What follows the body of a band: the category of its end-of-band symbol, and the rest. */
  lemma EndOfBand(tbl: tblNo, b: Block, al: nat, ss: nat, se: nat, bands: seq<Band>, i: nat)
    returns (e: nat, ended: seq<Item>)
    requires 1 <= ss <= se < 64 && AcInRange(b, al, ss, se) && i < |bands| && bands[i] == FirstBand(tbl, b, al, ss, se)
    ensures e < 15 && bands[i].tail == HasTail(b, al, se)
    ensures BandItems(tbl, bands, i, 0) == Body(tbl, b, al, se, ss) + AfterBody(tbl, bands, i)
    ensures bands[i].tail ==>
              var n := RunAfter(bands, i);
              && AfterBody(tbl, bands, i) == [Sym(true, tbl, RunSize(e, 0))] + ended && e + 1 == Size(1 + n)
              && ended == EobExtra(1 + n) + BandItems(tbl, bands, i + 1, n)
    ensures !bands[i].tail ==> AfterBody(tbl, bands, i) == BandItems(tbl, bands, i + 1, 0)
  {
    hide Body, RawBits, EobRun, EobExtra, PointAc, Joining;
    e, ended := 0, [];
    if bands[i].tail {
      var n := RunAfter(bands, i);
      EobRunSize(1 + n);
      e := Size(1 + n) - 1;
      var next := BandItems(tbl, bands, i + 1, n);
      ended := EobExtra(1 + n) + next;
      AfterTail(tbl, bands, i);
      EmptyRaw();
      assert [] + next == next;
      EobParts(tbl, 1 + n, next);
    } else {
      AfterNoTail(tbl, bands, i);
    }
  }

  lemma EmptyRaw()
    ensures RawBits([]) == []
  {
  }

  lemma StartOutput(block: seq<int>, b: Block, al: nat, ss: nat, se: nat)
    requires FirstAttempted(block, b, al, ss, se)
    ensures FirstOutput(block, b, al, ss, se, ss) && Outside(block, block, ss, se)
  {
  }

  lemma OutsideStep(s: seq<int>, t: seq<int>, u: seq<int>, ss: nat, se: nat)
    requires Outside(s, t, ss, se) && Outside(t, u, ss, se)
    ensures Outside(s, u, ss, se)
  {
  }

  lemma OutputAttempted(block: seq<int>, b: Block, al: nat, ss: nat, se: nat, n: nat)
    requires FirstOutput(block, b, al, ss, se, n)
    ensures FirstAttempted(block, b, al, ss, se) && |block| == 64
  {
  }

  /** The value of a coefficient whose size has been decoded. */
  method DecodeFirstCoef(reader: BitReader, block: array<coef>, al: nat, ss: nat, se: nat, k: nat, s: nat,
                         ghost ts: Tables, ghost b: Block, ghost items: seq<Item>, ghost pad: seq<bit>)
    returns (ok: bool)
    requires reader.Valid() && TablesOk(ts) && block.Length == 64 && ss <= k <= se < 64 && InRange(b)
    requires s == Size(Abs(PointAc(b[k], al))) <= 15 && FirstOutput(block[..], b, al, ss, se, k)
    requires Expects(reader, ts, ValueItems(PointAc(b[k], al)) + items, pad)
    modifies block, reader`pos, reader`unread, reader`getBuffer, reader`bitsLeft, reader`insufficientData, reader`rest
    ensures reader.Valid() && reader.insufficientData == old(reader.insufficientData)
    ensures ok ==> FirstOutput(block[..], b, al, ss, se, k + 1) && Expects(reader, ts, items, pad)
    ensures Outside(old(block[..]), block[..], ss, se)
    ensures !ok ==> block[..] == old(block[..])
    ensures !ok ==> reader.available < |reader.input| && reader.unread == 0
    ensures old(reader.unread) != 0 ==> ok && reader.unread == old(reader.unread)
  {
    hide BitReader.Valid, Expects, TablesOk, Size, ValueItems, InRange, PointAc, Trunc, FirstOutput;
    var x;
    ok, x := GetValue(reader, s, ts, PointAc(b[k], al), items, pad);
    if !ok {
      return;
    }
    PutCoef(block[..], b, al, ss, se, k);
    ghost var before: seq<int> := block[..];
    TruncIs(b[k], al);
    block[k] := Shl(x, al);
    assert block[..] == before[k := Trunc(b[k], al)];
  }

  /** The end of a band: the rest of it is zero, and perhaps more bands are. */
  method DecodeFirstEnd(reader: BitReader, r: nat, ghost ts: Tables, ghost tbl: tblNo,
                        ghost bands: seq<Band>, ghost i: nat, ghost pad: seq<bit>)
    returns (ok: bool, eobrun: nat)
    requires reader.Valid() && TablesOk(ts) && i < |bands| && r + 1 == Size(1 + RunAfter(bands, i))
    requires Codable(ts, EobExtra(1 + RunAfter(bands, i)) + BandItems(tbl, bands, i + 1, RunAfter(bands, i)))
    requires Expects(reader, ts, EobExtra(1 + RunAfter(bands, i)) + BandItems(tbl, bands, i + 1, RunAfter(bands, i)),
                     pad)
    modifies reader`pos, reader`unread, reader`getBuffer, reader`bitsLeft, reader`insufficientData, reader`rest
    ensures reader.Valid() && reader.insufficientData == old(reader.insufficientData)
    ensures ok ==> eobrun == RunAfter(bands, i) && Expects(reader, ts, BandItems(tbl, bands, i + 1, eobrun), pad)
                   && Codable(ts, BandItems(tbl, bands, i + 1, eobrun))
    ensures !ok ==> reader.available < |reader.input| && reader.unread == 0
    ensures old(reader.unread) != 0 ==> ok && reader.unread == old(reader.unread)
  {
    hide BitReader.Valid, Expects, TablesOk, Codable, Size, BandItems, InRun, RunAfter, EobExtra;
    ghost var n := RunAfter(bands, i);
    CodableAppend(ts, EobExtra(1 + n), BandItems(tbl, bands, i + 1, n));
    ok, eobrun := true, 0;
    if r != 0 {
      ok, eobrun := GetEobRun(reader, r, ts, 1 + n, BandItems(tbl, bands, i + 1, n), pad);
      if ok {
        eobrun := eobrun - 1;
      }
    } else {
      OnlyOne(n, BandItems(tbl, bands, i + 1, n));
    }
  }

  /** A band with symbols of its own, or the one in which a run starts. */
  method DecodeFirstBand(reader: BitReader, d: DecoderTable, block: array<coef>, al: nat, ss: nat, se: nat,
                         ghost ts: Tables, ghost tbl: tblNo, ghost b: Block, ghost bands: seq<Band>, ghost i: nat,
                         ghost pad: seq<bit>)
    returns (ok: bool, eobrun: nat)
    requires reader.Valid() && TablesOk(ts) && Matched(TableFor(ts, true, tbl), d) && block.Length == 64
    requires 1 <= ss <= se < 64 && AcInRange(b, al, ss, se) && InRange(b) && i < |bands|
             && bands[i] == FirstBand(tbl, b, al, ss, se)
    requires FirstAttempted(block[..], b, al, ss, se)
    requires Codable(ts, BandItems(tbl, bands, i, 0)) && Expects(reader, ts, BandItems(tbl, bands, i, 0), pad)
    modifies block, reader`pos, reader`unread, reader`getBuffer, reader`bitsLeft, reader`insufficientData, reader`rest
    ensures reader.Valid() && reader.insufficientData == old(reader.insufficientData)
    ensures FirstAttempted(block[..], b, al, ss, se) && Outside(old(block[..]), block[..], ss, se)
    ensures ok ==> FirstOutput(block[..], b, al, ss, se, se + 1) && InRun(bands, i + 1, eobrun)
    ensures ok ==> eobrun == if bands[i].tail then RunAfter(bands, i) else 0
    ensures ok ==> Expects(reader, ts, BandItems(tbl, bands, i + 1, eobrun), pad)
                   && Codable(ts, BandItems(tbl, bands, i + 1, eobrun))
    ensures !ok ==> reader.available < |reader.input| && reader.unread == 0
    ensures old(reader.unread) != 0 ==> ok && reader.unread == old(reader.unread)
  {
    hide BitReader.Valid, Expects, TablesOk, Matched, Codable, Size, StepAt, StepSymbol, AfterStep, ValueItems, InRange,
         Body, BandItems, PointAc, Trunc, InRun, RunAfter, EobExtra, AfterBody, FirstBand, FirstOutput, FirstAttempted,
         Outside, AcInRange, HasTail;
    ghost var after := AfterBody(tbl, bands, i);
    ghost var e, ended := EndOfBand(tbl, b, al, ss, se, bands, i);
    ok, eobrun := true, 0;
    var k := ss;
    ghost var un, block0: seq<int> := reader.unread, block[..];
    StartOutput(block[..], b, al, ss, se);
    while k <= se
      invariant ss <= k <= se + 1 && reader.Valid() && reader.insufficientData == old(reader.insufficientData)
      invariant AcInRange(b, al, k, se) && FirstOutput(block[..], b, al, ss, se, k)
                && Outside(block0, block[..], ss, se)
      invariant k == se + 1 ==> !bands[i].tail
      invariant Codable(ts, Body(tbl, b, al, se, k) + after)
                && Expects(reader, ts, Body(tbl, b, al, se, k) + after, pad)
      invariant un != 0 ==> reader.unread == un
      invariant ok && eobrun == 0
      decreases 64 - k
    {
      OutputAttempted(block[..], b, al, ss, se, k);
      ghost var st, next := TakeCodableStep(tbl, b, al, se, k, after, e, ended, ts);
      var s;
      ok, s := GetSymbol(reader, d, ts, Sym(true, tbl, StepSymbol(st, e)), next, pad);
      if !ok {
        return;
      }
      var r := s / 16;
      s := s % 16;
      if s != 0 {
        SkipZeros(block[..], b, al, ss, se, k, k + r);
        k := k + r;
        OutputAttempted(block[..], b, al, ss, se, k);
        ghost var before: seq<int> := block[..];
        ok := DecodeFirstCoef(reader, block, al, ss, se, k, s, ts, b, Body(tbl, b, al, se, k + 1) + after, pad);
        if !ok {
          return;
        }
        OutsideStep(block0, before, block[..], ss, se);
        if k == se {
          NoTailAt(b, al, se);
        }
      } else {
        if r != 15 {
          SkipZeros(block[..], b, al, ss, se, k, se + 1);
          ok, eobrun := DecodeFirstEnd(reader, r, ts, tbl, bands, i, pad);
          return;
        }
        SkipZeros(block[..], b, al, ss, se, k, k + 16);
        k := k + 15;
      }
      k := k + 1;
    }
    BodyOver(tbl, b, al, se, after);
    OutputAttempted(block[..], b, al, ss, se, se + 1);
    NoRun(bands, i + 1);
  }

  lemma TruncIs(x: int, al: nat)
    ensures Trunc(x, al) == Shl(PointAc(x, al), al)
  {
  }

  lemma NoTailAt(b: Block, al: nat, se: nat)
    requires se < 64 && PointAc(b[se], al) != 0
    ensures !HasTail(b, al, se)
  {
  }

  lemma NoRun(bands: seq<Band>, i: nat)
    requires i <= |bands|
    ensures InRun(bands, i, 0)
  {
  }

  /** A run of one band has no other bits. */
  lemma OnlyOne(n: nat, items: seq<Item>)
    requires n < MAX_EOBRUN && Size(1 + n) == 1
    ensures n == 0 && EobExtra(1 + n) + items == items
  {
    assert [] + items == items;
  }

  // ----- Refinement scans -----

  /** A band before its refinement: what was nonzero may have its correction already. */
  ghost predicate HalfRefined(block: seq<int>, b: Block, al: nat, ss: nat, se: nat) {
    Refining(block, b, al, ss, se, ss)
  }

  /** A coefficient known to be nonzero, with its correction or without. */
  ghost predicate Known(x: int, b: Block, al: nat, k: nat)
    requires k < 64
  {
    x == Trunc(b[k], al) || x == Trunc(b[k], al + 1)
  }

  /** Everything before position n is refined; new coefficients after it are still zero. */
  ghost predicate Refining(block: seq<int>, b: Block, al: nat, ss: nat, se: nat, n: nat) {
    |block| == 64 && se < 64 && forall k | ss <= k <= se ::
      if k < n then block[k] == Trunc(b[k], al)
      else if Mag(b, al, k) <= 1 then block[k] == 0
      else Known(block[k], b, al, k)
  }

  /** What tells the coefficients apart, and what a correction adds. */
  lemma CoefFacts(b: Block, al: nat, k: nat)
    requires k < 64 && InRange(b)
    ensures Mag(b, al, k) == 0 ==> Trunc(b[k], al) == 0
    ensures Mag(b, al, k) == 1 ==> Trunc(b[k], al) == (if b[k] < 0 then -Shl(1, al) else Shl(1, al))
    ensures Mag(b, al, k) > 1 ==> Trunc(b[k], al) != 0 && (Trunc(b[k], al) < 0 <==> b[k] < 0)
    ensures Mag(b, al, k) > 1 ==> Trunc(b[k], al + 1) != 0 && (Trunc(b[k], al + 1) < 0 <==> b[k] < 0)
    ensures Mag(b, al, k) % 2 == 0 ==> Trunc(b[k], al) == Trunc(b[k], al + 1)
    ensures Mag(b, al, k) % 2 == 1 ==>
              Trunc(b[k], al) == if b[k] < 0 then Trunc(b[k], al + 1) + -Shl(1, al)
                                 else Trunc(b[k], al + 1) + Shl(1, al)
    ensures -0x8000 <= Trunc(b[k], al) < 0x8000
  {
    RefineBit(b[k], al);
    TruncZero(b[k], al);
    TruncRange(b, k, al);
    hide Trunc, PointAc, Shl, InRange;
  }

  /** The bit that the decoder tests: it is set where the correction has been made. */
  function BitSet(x: int, al: nat): bool {
    x / Pow2(al) % 2 == 1
  }

  lemma TestBit(b: Block, al: nat, k: nat)
    requires k < 64
    ensures !BitSet(Trunc(b[k], al + 1), al)
    ensures Mag(b, al, k) % 2 == 1 ==> BitSet(Trunc(b[k], al), al)
  {
    hide PointAc, Shl, BitSet;
    var q, h := PointAc(b[k], al), PointAc(b[k], al + 1);
    ShlStep(h, al);
    BitOfShl(q, al);
    BitOfShl(2 * h, al);
  }

  lemma BitOfShl(q: int, al: nat)
    ensures BitSet(Shl(q, al), al) <==> q % 2 == 1
  {
    ShlDiv(q, al);
    hide Shl, Pow2;
  }

  /** A correction bit for a coefficient that is known to be nonzero. */
  method Correct(reader: BitReader, block: array<coef>, al: nat, ss: nat, se: nat, k: nat,
                 ghost ts: Tables, ghost b: Block, ghost items: seq<Item>, ghost pad: seq<bit>)
    returns (ok: bool)
    requires reader.Valid() && TablesOk(ts) && block.Length == 64 && InRange(b) && ss <= k <= se < 64
             && Mag(b, al, k) > 1
    requires Refining(block[..], b, al, ss, se, k) && Expects(reader, ts, [Raw([Mag(b, al, k) % 2])] + items, pad)
    modifies block, reader`pos, reader`unread, reader`getBuffer, reader`bitsLeft, reader`insufficientData, reader`rest
    ensures reader.Valid() && reader.insufficientData == old(reader.insufficientData)
    ensures ok ==> Refining(block[..], b, al, ss, se, k + 1) && Expects(reader, ts, items, pad)
    ensures Outside(old(block[..]), block[..], ss, se)
    ensures !ok ==> block[..] == old(block[..])
    ensures !ok ==> reader.available < |reader.input| && reader.unread == 0
    ensures old(reader.unread) != 0 ==> ok && reader.unread == old(reader.unread)
  {
    hide BitReader.Valid, Expects, TablesOk, InRange, Mag, Trunc, BitSet, Shl;
    var bit;
    ok, bit := GetRaw(reader, 1, ts, [Mag(b, al, k) % 2], items, pad);
    if !ok {
      return;
    }
    OneValue(Mag(b, al, k) % 2);
    CoefFacts(b, al, k);
    TestBit(b, al, k);
    assert Known(block[k], b, al, k);
    if bit != 0 {
      if !BitSet(block[k], al) {
        if block[k] >= 0 {
          block[k] := block[k] + Shl(1, al);
        } else {
          block[k] := block[k] + -Shl(1, al);
        }
      }
    }
    assert block[k] == Trunc(b[k], al);
  }

  lemma OneValue(b: bit)
    ensures Value([b]) == b
  {
    assert [b][..0] == [];
  }

  /** A coefficient that stays zero. */
  lemma StaysZero(block: seq<int>, b: Block, al: nat, ss: nat, se: nat, k: nat)
    requires Refining(block, b, al, ss, se, k) && ss <= k <= se && Mag(b, al, k) == 0 && InRange(b)
    ensures Refining(block, b, al, ss, se, k + 1)
  {
    hide Mag, Trunc, InRange;
    CoefFacts(b, al, k);
  }

  /** Zero or not: the decoder sees which coefficients are known. */
  lemma SeenNonzero(block: seq<int>, b: Block, al: nat, ss: nat, se: nat, k: nat)
    requires Refining(block, b, al, ss, se, k) && ss <= k <= se && InRange(b)
    ensures block[k] != 0 <==> Mag(b, al, k) > 1
  {
    hide Mag, Trunc, InRange;
    CoefFacts(b, al, k);
  }

  lemma CorrectionsCons(b: Block, al: nat, k: nat, p: nat)
    requires k < p <= 64
    ensures Mag(b, al, k) > 1 ==>
              RawBits(Corrections(b, al, k, p)) == [Raw([Mag(b, al, k) % 2])] + RawBits(Corrections(b, al, k + 1, p))
    ensures Mag(b, al, k) <= 1 ==> Corrections(b, al, k, p) == Corrections(b, al, k + 1, p)
  {
    hide Mag;
    if Mag(b, al, k) > 1 {
      var rest := Corrections(b, al, k + 1, p);
      var all := [Mag(b, al, k) % 2] + rest;
      assert all[1..] == rest && all[0] == Mag(b, al, k) % 2;
    }
  }

  lemma NoCorrections(b: Block, al: nat, k: nat, items: seq<Item>)
    requires k <= 64
    ensures RawBits(Corrections(b, al, k, k)) + items == items
  {
    assert [] + items == items;
  }

  lemma StopStep(b: Block, al: nat, k: nat, r: nat)
    requires k < 64
    ensures Mag(b, al, k) > 1 ==> Stop(b, al, k, r) == Stop(b, al, k + 1, r) > k
    ensures Mag(b, al, k) <= 1 ==> Stop(b, al, k, r) == if r == 0 then k else Stop(b, al, k + 1, r - 1)
  {
    hide Mag;
  }

  /** Passes over the coefficients that are known and r others, up to position p. */
  method AdvanceOver(reader: BitReader, block: array<coef>, al: nat, ss: nat, se: nat, k0: nat, r0: nat,
                     ghost ts: Tables, ghost b: Block, ghost p: nat, ghost items: seq<Item>, ghost pad: seq<bit>)
    returns (ok: bool, k: nat)
    requires reader.Valid() && TablesOk(ts) && block.Length == 64 && InRange(b) && ss <= k0 <= se < 64
    requires p == Stop(b, al, k0, r0) <= se && NoNew(b, al, k0, p) && Refining(block[..], b, al, ss, se, k0)
    requires Expects(reader, ts, RawBits(Corrections(b, al, k0, p)) + items, pad)
    modifies block, reader`pos, reader`unread, reader`getBuffer, reader`bitsLeft, reader`insufficientData, reader`rest
    ensures reader.Valid() && reader.insufficientData == old(reader.insufficientData)
    ensures k0 <= k <= p && Refining(block[..], b, al, ss, se, k) && Outside(old(block[..]), block[..], ss, se)
    ensures ok ==> k == p && Expects(reader, ts, items, pad)
    ensures !ok ==> reader.available < |reader.input| && reader.unread == 0
    ensures old(reader.unread) != 0 ==> ok && reader.unread == old(reader.unread)
  {
    hide BitReader.Valid, Expects, TablesOk, InRange, Mag, Trunc, Refining, Outside, Stop, Corrections, RawBits;
    k, ok := k0, true;
    var r := r0;
    ghost var un, block0: seq<int> := reader.unread, block[..];
    SameOutside(block[..], ss, se);
    while true
      invariant ok && reader.Valid() && reader.insufficientData == old(reader.insufficientData)
      invariant k0 <= k <= p && p == Stop(b, al, k, r) && Refining(block[..], b, al, ss, se, k)
                && Outside(block0, block[..], ss, se)
      invariant Expects(reader, ts, RawBits(Corrections(b, al, k, p)) + items, pad)
      invariant un != 0 ==> reader.unread == un
      decreases p - k
    {
      SeenNonzero(block[..], b, al, ss, se, k);
      StopStep(b, al, k, r);
      if k < p {
        CorrectionsCons(b, al, k, p);
      }
      if block[k] != 0 {
        ghost var before: seq<int>, rest := block[..], RawBits(Corrections(b, al, k + 1, p));
        Regroup([], [Raw([Mag(b, al, k) % 2])], rest, items);
        ok := Correct(reader, block, al, ss, se, k, ts, b, rest + items, pad);
        if !ok {
          return;
        }
        OutsideStep(block0, before, block[..], ss, se);
      } else {
        if r == 0 {
          NoCorrections(b, al, k, items);
          return;
        }
        r := r - 1;
        StaysZero(block[..], b, al, ss, se, k);
      }
      k := k + 1;
    }
  }

  lemma SameOutside(block: seq<int>, ss: nat, se: nat)
    ensures Outside(block, block, ss, se)
  {
  }

  /** The correction bits after the last new coefficient. */
  method CorrectTail(reader: BitReader, block: array<coef>, al: nat, ss: nat, se: nat, k0: nat,
                     ghost ts: Tables, ghost b: Block, ghost items: seq<Item>, ghost pad: seq<bit>)
    returns (ok: bool, k: nat)
    requires reader.Valid() && TablesOk(ts) && block.Length == 64 && InRange(b) && ss <= k0 <= se < 64
    requires NoNew(b, al, k0, se + 1) && Refining(block[..], b, al, ss, se, k0)
    requires Expects(reader, ts, RawBits(Corrections(b, al, k0, se + 1)) + items, pad)
    modifies block, reader`pos, reader`unread, reader`getBuffer, reader`bitsLeft, reader`insufficientData, reader`rest
    ensures reader.Valid() && reader.insufficientData == old(reader.insufficientData)
    ensures k0 <= k <= se + 1 && Refining(block[..], b, al, ss, se, k) && Outside(old(block[..]), block[..], ss, se)
    ensures ok ==> k == se + 1 && Expects(reader, ts, items, pad)
    ensures !ok ==> reader.available < |reader.input| && reader.unread == 0
    ensures old(reader.unread) != 0 ==> ok && reader.unread == old(reader.unread)
  {
    hide BitReader.Valid, Expects, TablesOk, InRange, Mag, Trunc, Refining, Outside, Corrections, RawBits;
    k, ok := k0, true;
    ghost var un, block0: seq<int> := reader.unread, block[..];
    SameOutside(block[..], ss, se);
    while k <= se
      invariant ok && reader.Valid() && reader.insufficientData == old(reader.insufficientData)
      invariant k0 <= k <= se + 1 && Refining(block[..], b, al, ss, se, k) && Outside(block0, block[..], ss, se)
      invariant Expects(reader, ts, RawBits(Corrections(b, al, k, se + 1)) + items, pad)
      invariant un != 0 ==> reader.unread == un
    {
      SeenNonzero(block[..], b, al, ss, se, k);
      CorrectionsCons(b, al, k, se + 1);
      if block[k] != 0 {
        ghost var before: seq<int>, rest := block[..], RawBits(Corrections(b, al, k + 1, se + 1));
        Regroup([], [Raw([Mag(b, al, k) % 2])], rest, items);
        ok := Correct(reader, block, al, ss, se, k, ts, b, rest + items, pad);
        if !ok {
          return;
        }
        OutsideStep(block0, before, block[..], ss, se);
      } else {
        StaysZero(block[..], b, al, ss, se, k);
      }
      k := k + 1;
    }
    NoCorrections(b, al, k, items);
  }

  // ----- New coefficients -----

  lemma NoNewPart(b: Block, al: nat, s: nat, p: nat, k: nat)
    requires NoNew(b, al, s, k) && p <= k
    ensures NoNew(b, al, s, p)
  {
    hide Mag;
  }

  lemma SignParts(x: int)
    ensures SignItems([]) == [] && SignItems([if x < 0 then 0 else 1]) == [SignItem(x)]
  {
  }

  lemma TwoParts(a: seq<Item>, sign: seq<Item>, raw: seq<Item>, rest: seq<Item>, after: seq<Item>)
    ensures ((a + sign) + (raw + rest)) + after == a + (sign + (raw + (rest + after)))
  {
  }

  /** The symbol that comes at position k, where the decoder stops after it, and the rest. */
  lemma NextRefine(tbl: tblNo, b: Block, al: nat, kn: nat, k: nat, after: seq<Item>)
    returns (s: byte, sign: seq<bit>, p: nat)
    requires 1 <= k <= kn < 64 && Mag(b, al, kn) == 1
    ensures k <= p <= kn && NoNew(b, al, k, p) && Stop(b, al, k, s / 16) == p
    ensures if s == ZRL then sign == [] && Mag(b, al, p) == 0 && p < kn
            else s % 16 == 1 && sign == [if b[p] < 0 then 0 else 1] && Mag(b, al, p) == 1
    ensures RefineBody(tbl, b, al, kn, k) + after
            == [Sym(true, tbl, s)]
               + (SignItems(sign) + (RawBits(Corrections(b, al, k, p)) + (RefineBody(tbl, b, al, kn, p + 1) + after)))
  {
    hide Mag, RawBits, Corrections, RefineBody, ZerosIn, Stop, NoNew, SignItem, SignItems;
    var j := NextNew(b, al, kn, k);
    if ZerosIn(b, al, k, j) > 15 {
      ZrlStep(tbl, b, al, kn, k, j);
      s, sign, p := ZRL, [], Stop(b, al, k, 15);
      NoNewPart(b, al, k, p, j);
      TwoParts([Sym(true, tbl, ZRL)], [], RawBits(Corrections(b, al, k, p)), RefineBody(tbl, b, al, kn, p + 1), after);
    } else {
      NewStep(tbl, b, al, kn, k, j);
      StopAt(b, al, k, j);
      s, sign, p := RunSize(ZerosIn(b, al, k, j), 1), [if b[j] < 0 then 0 else 1], j;
      var raw, rest := RawBits(Corrections(b, al, k, p)), RefineBody(tbl, b, al, kn, p + 1);
      TwoParts([Sym(true, tbl, s)], [SignItem(b[j])], raw, rest, after);
    }
    SignParts(b[p]);
  }

  /** The positions that became nonzero in this attempt, in order. */
  ghost predicate NewList(list: seq<nat>, b: Block, al: nat, ss: nat, k: nat) {
    && (forall x | 0 <= x < |list| :: ss + x <= list[x] < k && list[x] < 64 && Mag(b, al, list[x]) == 1)
    && (forall q | ss <= q < k && q < 64 && Mag(b, al, q) == 1 :: q in list)
  }

  lemma NewListSkip(list: seq<nat>, b: Block, al: nat, ss: nat, k: nat, p: nat)
    requires NewList(list, b, al, ss, k) && k <= p && NoNew(b, al, k, p)
    ensures NewList(list, b, al, ss, p)
  {
    hide Mag;
  }

  lemma NewListMore(list: seq<nat>, b: Block, al: nat, ss: nat, k: nat)
    requires NewList(list, b, al, ss, k) && ss <= k < 64
    ensures |list| <= k - ss
    ensures Mag(b, al, k) == 1 ==> NewList(list + [k], b, al, ss, k + 1)
    ensures Mag(b, al, k) != 1 ==> NewList(list, b, al, ss, k + 1)
  {
    hide Mag;
    assert |list| > 0 ==> ss + |list| - 1 <= list[|list| - 1];
    if Mag(b, al, k) == 1 {
      forall q | ss <= q < k + 1 && q < 64 && Mag(b, al, q) == 1 ensures q in list + [k] {
      }
    }
  }

  /** Sets the new coefficients back to zero. */
  method Undo(block: array<coef>, newnz: array<nat>, num: nat, ghost b: Block, ghost al: nat, ghost ss: nat,
              ghost se: nat, ghost k: nat)
    requires block.Length == 64 && num <= newnz.Length && block as object != newnz as object && InRange(b)
    requires Refining(block[..], b, al, ss, se, k) && NewList(newnz[..num], b, al, ss, k) && ss <= k <= se + 1
    modifies block
    ensures HalfRefined(block[..], b, al, ss, se) && Outside(old(block[..]), block[..], ss, se)
  {
    hide Mag, Trunc, InRange;
    ghost var list, block0: seq<int> := newnz[..num], block[..];
    var n := num;
    while n > 0
      invariant 0 <= n <= num && newnz[..num] == list
      invariant forall q | 0 <= q < 64 :: block[q] == if q in list[n..] then 0 else block0[q]
    {
      n := n - 1;
      assert list[n..] == [list[n]] + list[n + 1..];
      assert newnz[n] == list[n];
      block[newnz[n]] := 0;
    }
    assert list[0..] == list;
    forall q | ss <= q <= se
      ensures if Mag(b, al, q) <= 1 then block[q] == 0 else Known(block[q], b, al, q)
    {
      CoefFacts(b, al, q);
    }
  }

  /** The attempt so far: the coefficients before position k, and the list of the new ones. */
  ghost predicate Attempt(block: seq<int>, list: seq<nat>, b: Block, al: nat, ss: nat, se: nat, k: nat) {
    ss <= k <= se + 1 && Refining(block, b, al, ss, se, k) && NewList(list, b, al, ss, k)
  }

  lemma AttemptNew(block: seq<int>, list: seq<nat>, b: Block, al: nat, ss: nat, se: nat, k: nat, x: int)
    requires Attempt(block, list, b, al, ss, se, k) && k <= se && InRange(b)
    requires Mag(b, al, k) == 1 && x == if b[k] < 0 then -Shl(1, al) else Shl(1, al)
    ensures Attempt(block[k := x], list + [k], b, al, ss, se, k + 1) && |list| < 64
    ensures Outside(block, block[k := x], ss, se) && -0x8000 <= x < 0x8000
  {
    hide Mag, Trunc, InRange, NewList;
    CoefFacts(b, al, k);
    NewListMore(list, b, al, ss, k);
  }

  lemma AttemptZero(block: seq<int>, list: seq<nat>, b: Block, al: nat, ss: nat, se: nat, k: nat)
    requires Attempt(block, list, b, al, ss, se, k) && k <= se < 64 && InRange(b) && Mag(b, al, k) == 0
    ensures Attempt(block, list, b, al, ss, se, k + 1)
  {
    hide Mag, Trunc, InRange, NewList, Refining;
    StaysZero(block, b, al, ss, se, k);
    NewListMore(list, b, al, ss, k);
  }

  lemma AttemptSkip(block: seq<int>, block': seq<int>, list: seq<nat>, b: Block, al: nat, ss: nat, se: nat, k: nat,
                    p: nat)
    requires Attempt(block, list, b, al, ss, se, k) && k <= p <= se + 1 && NoNew(b, al, k, p)
    requires Refining(block', b, al, ss, se, p)
    ensures Attempt(block', list, b, al, ss, se, p)
  {
    hide Mag, NewList, Refining;
    NewListSkip(list, b, al, ss, k, p);
  }

  lemma NoNewUpTo(b: Block, al: nat, k: nat, q: nat, p: nat)
    requires q <= p && NoNew(b, al, k, p)
    ensures NoNew(b, al, k, q)
  {
    hide Mag;
  }

  /** After a symbol with run r: its sign if it is for a new coefficient, the corrections up to
      position p, and the new coefficient itself. */
  method PassOver(reader: BitReader, block: array<coef>, newnz: array<nat>, num0: nat, al: nat, ss: nat, se: nat,
                  k0: nat, r: nat, isNew: bool, ghost ts: Tables, ghost b: Block, ghost p: nat, ghost items: seq<Item>,
                  ghost pad: seq<bit>)
    returns (ok: bool, k: nat, num: nat)
    requires reader.Valid() && TablesOk(ts) && block.Length == newnz.Length == 64 && block as object != newnz as object
    requires InRange(b) && 1 <= ss <= k0 <= p <= se < 64 && p == Stop(b, al, k0, r) && NoNew(b, al, k0, p)
    requires Mag(b, al, p) == if isNew then 1 else 0
    requires num0 <= 64 && Attempt(block[..], newnz[..num0], b, al, ss, se, k0)
    requires Expects(reader, ts, SignItems(if isNew then [if b[p] < 0 then 0 else 1] else [])
                                 + (RawBits(Corrections(b, al, k0, p)) + items), pad)
    modifies block, newnz, reader`pos, reader`unread, reader`getBuffer, reader`bitsLeft, reader`insufficientData,
             reader`rest
    ensures reader.Valid() && reader.insufficientData == old(reader.insufficientData)
    ensures num <= 64 && Attempt(block[..], newnz[..num], b, al, ss, se, k)
            && Outside(old(block[..]), block[..], ss, se)
    ensures ok ==> k == p + 1 && Expects(reader, ts, items, pad)
    ensures !ok ==> reader.available < |reader.input| && reader.unread == 0
    ensures old(reader.unread) != 0 ==> ok && reader.unread == old(reader.unread)
  {
    hide BitReader.Valid, Expects, TablesOk, InRange, Mag, Trunc, Refining, NewList, Outside, Stop, Corrections,
         RawBits, NoNew;
    ok, k, num := true, k0, num0;
    var s := 0;
    ghost var raw := RawBits(Corrections(b, al, k0, p)) + items;
    ghost var list, block0: seq<int> := newnz[..num0], block[..];
    SameOutside(block0, ss, se);
    if isNew {
      var positive;
      ok, positive := GetRaw(reader, 1, ts, [if b[p] < 0 then 0 else 1], raw, pad);
      if !ok {
        return;
      }
      OneValue(if b[p] < 0 then 0 else 1);
      s := if positive != 0 then Shl(1, al) else -Shl(1, al);
    } else {
      assert [] + raw == raw;
    }
    ok, k := AdvanceOver(reader, block, al, ss, se, k0, r, ts, b, p, items, pad);
    NoNewUpTo(b, al, k0, k, p);
    ghost var block1: seq<int> := block[..];
    AttemptSkip(block0, block1, list, b, al, ss, se, k0, k);
    assert newnz[..num] == list;
    if !ok {
      return;
    }
    if isNew {
      AttemptNew(block1, list, b, al, ss, se, k, s);
      assert |list| == num;
      block[k] := s;
      newnz[num] := k;
      num := num + 1;
      assert newnz[..num] == list + [k];
      assert block[..] == block1[k := s];
      OutsideStep(block0, block1, block[..], ss, se);
    } else {
      AttemptZero(block1, list, b, al, ss, se, k);
    }
    k := k + 1;
  }

  /** Behind the last new coefficient, an end-of-band symbol is next. */
  lemma RefineEnding(tbl: tblNo, b: Block, al: nat, ss: nat, se: nat, kn: nat, k: nat, bands: seq<Band>, i: nat)
    returns (s: byte, next: seq<Item>)
    requires 1 <= ss <= k <= se < 64 && i < |bands| && bands[i] == RefineBand(tbl, b, al, ss, se)
    requires kn == LastNew(b, al, ss, se) && k > kn && k == TailStart(kn, ss)
    ensures RefineBody(tbl, b, al, kn, k) + AfterBody(tbl, bands, i) == [Sym(true, tbl, s)] + next
    ensures bands[i].tail && s % 16 == 0 && s / 16 < 15 && s / 16 + 1 == Size(1 + RunAfter(bands, i))
    ensures next == EobExtra(1 + RunAfter(bands, i))
                    + (RawBits(Corrections(b, al, k, se + 1)) + BandItems(tbl, bands, i + 1, RunAfter(bands, i)))
  {
    hide Mag, RawBits, Corrections, BandItems, Size, EobExtra, EobRun, RunAfter, RefineBody, AfterBody;
    var n := RunAfter(bands, i);
    EobRunSize(1 + n);
    s := RunSize(Size(1 + n) - 1, 0);
    AfterTail(tbl, bands, i);
    var rest := RawBits(Corrections(b, al, k, se + 1)) + BandItems(tbl, bands, i + 1, n);
    next := EobExtra(1 + n) + rest;
    EobParts(tbl, 1 + n, rest);
    RefineNothing(tbl, b, al, kn, k);
    assert [] + AfterBody(tbl, bands, i) == AfterBody(tbl, bands, i);
  }

  /** What comes at position k of band i: a symbol of the band, or the end of it. */
  lemma RefineUpcoming(tbl: tblNo, b: Block, al: nat, ss: nat, se: nat, kn: nat, k: nat, bands: seq<Band>, i: nat,
                       ts: Tables)
    returns (it: Item, next: seq<Item>, s: byte, isNew: bool, p: nat)
    requires TablesOk(ts) && 1 <= ss <= k <= se < 64 && i < |bands| && bands[i] == RefineBand(tbl, b, al, ss, se)
    requires kn == LastNew(b, al, ss, se) && (k <= kn || k == TailStart(kn, ss))
    requires Codable(ts, RefineBody(tbl, b, al, kn, k) + AfterBody(tbl, bands, i))
    ensures it == Sym(true, tbl, s) && HasCode(ts, it) && Codable(ts, next)
    ensures RefineBody(tbl, b, al, kn, k) + AfterBody(tbl, bands, i) == [it] + next
    ensures k <= kn ==>
              && k <= p <= kn && NoNew(b, al, k, p) && Stop(b, al, k, s / 16) == p
              && (isNew <==> s % 16 != 0) && (!isNew ==> s / 16 == 15) && Mag(b, al, p) == (if isNew then 1 else 0)
              && next == SignItems(if isNew then [if b[p] < 0 then 0 else 1] else [])
                         + (RawBits(Corrections(b, al, k, p))
                            + (RefineBody(tbl, b, al, kn, p + 1) + AfterBody(tbl, bands, i)))
              && Codable(ts, RefineBody(tbl, b, al, kn, p + 1) + AfterBody(tbl, bands, i))
    ensures k > kn ==>
              && bands[i].tail && s % 16 == 0 && s / 16 < 15 && s / 16 + 1 == Size(1 + RunAfter(bands, i))
              && next == EobExtra(1 + RunAfter(bands, i))
                         + (RawBits(Corrections(b, al, k, se + 1)) + BandItems(tbl, bands, i + 1, RunAfter(bands, i)))
  {
    hide Mag, RawBits, Corrections, BandItems, Codable, TablesOk, HasCode, Stop, Size, EobExtra, EobRun, RunAfter,
         RefineBody, AfterBody;
    var after := AfterBody(tbl, bands, i);
    p := k;
    if k <= kn {
      var sign;
      s, sign, p := NextRefine(tbl, b, al, kn, k, after);
      isNew := s != ZRL;
      it := Sym(true, tbl, s);
      var raw, rest := RawBits(Corrections(b, al, k, p)), RefineBody(tbl, b, al, kn, p + 1) + after;
      next := SignItems(sign) + (raw + rest);
      CodableStep(ts, it, next);
      CodableAppend(ts, SignItems(sign), raw + rest);
      CodableAppend(ts, raw, rest);
    } else {
      isNew := false;
      s, next := RefineEnding(tbl, b, al, ss, se, kn, k, bands, i);
      it := Sym(true, tbl, s);
      CodableStep(ts, it, next);
    }
  }

  /** The symbols of a band, up to the end of the band or to an end-of-band symbol. */
  method DecodeRefineCoefs(reader: BitReader, d: DecoderTable, block: array<coef>, newnz: array<nat>, al: nat, ss: nat,
                           se: nat, ghost ts: Tables, ghost tbl: tblNo, ghost b: Block, ghost bands: seq<Band>,
                           ghost i: nat, ghost pad: seq<bit>)
    returns (ok: bool, k: nat, num: nat, eobrun: nat)
    requires reader.Valid() && TablesOk(ts) && Matched(TableFor(ts, true, tbl), d)
    requires block.Length == newnz.Length == 64 && block as object != newnz as object
    requires 1 <= ss <= se < 64 && InRange(b) && i < |bands| && bands[i] == RefineBand(tbl, b, al, ss, se)
    requires HalfRefined(block[..], b, al, ss, se)
    requires Codable(ts, BandItems(tbl, bands, i, 0)) && Expects(reader, ts, BandItems(tbl, bands, i, 0), pad)
    modifies block, newnz, reader`pos, reader`unread, reader`getBuffer, reader`bitsLeft, reader`insufficientData,
             reader`rest
    ensures reader.Valid() && reader.insufficientData == old(reader.insufficientData)
    ensures num <= 64 && Attempt(block[..], newnz[..num], b, al, ss, se, k)
            && Outside(old(block[..]), block[..], ss, se)
    ensures ok ==> eobrun == if bands[i].tail then 1 + RunAfter(bands, i) else 0
    ensures ok && eobrun == 0 ==> k == se + 1 && Expects(reader, ts, BandItems(tbl, bands, i + 1, 0), pad)
                                  && Codable(ts, BandItems(tbl, bands, i + 1, 0))
    ensures ok && eobrun > 0 ==>
              && k <= se && k == TailStart(LastNew(b, al, ss, se), ss) && eobrun == 1 + RunAfter(bands, i)
              && Expects(reader, ts, RawBits(Corrections(b, al, k, se + 1)) + BandItems(tbl, bands, i + 1, eobrun - 1),
                         pad)
              && Codable(ts, RawBits(Corrections(b, al, k, se + 1)) + BandItems(tbl, bands, i + 1, eobrun - 1))
    ensures !ok ==> reader.available < |reader.input| && reader.unread == 0
    ensures old(reader.unread) != 0 ==> ok && reader.unread == old(reader.unread)
  {
    hide BitReader.Valid, Expects, TablesOk, Matched, Codable, InRange, Mag, Trunc, Attempt, Outside, Stop, Corrections,
         RawBits, NoNew, BandItems, AfterBody, RefineBody, RunAfter, EobExtra, Size, LastNew, RefineBand, HalfRefined;
    ghost var kn, after, un, block0: seq<int> :=
      LastNew(b, al, ss, se), AfterBody(tbl, bands, i), reader.unread, block[..];
    k, num, eobrun, ok := ss, 0, 0, true;
    StartRefine(tbl, b, al, ss, se, bands, i, block[..], newnz[..0]);
    while k <= se
      invariant ok && reader.Valid() && reader.insufficientData == old(reader.insufficientData) && eobrun == 0
      invariant ss <= k <= se + 1 && num <= 64 && (k <= kn || k == TailStart(kn, ss))
      invariant Attempt(block[..], newnz[..num], b, al, ss, se, k) && Outside(block0, block[..], ss, se)
      invariant Codable(ts, RefineBody(tbl, b, al, kn, k) + after)
      invariant Expects(reader, ts, RefineBody(tbl, b, al, kn, k) + after, pad)
      invariant un != 0 ==> reader.unread == un
      decreases 64 - k
    {
      ghost var it, next, sym, isNew, p := RefineUpcoming(tbl, b, al, ss, se, kn, k, bands, i, ts);
      var s;
      ok, s := GetSymbol(reader, d, ts, it, next, pad);
      if !ok {
        return;
      }
      var r := s / 16;
      s := s % 16;
      if s == 0 && r != 15 {
        ok, eobrun := DecodeRefineEnd(reader, r, ts, tbl, b, al, se, k, bands, i, pad);
        return;
      }
      LastNewBound(b, al, ss, se);
      ghost var block1: seq<int> := block[..];
      ok, k, num := PassOver(reader, block, newnz, num, al, ss, se, k, r, s != 0, ts, b, p,
                             RefineBody(tbl, b, al, kn, p + 1) + after, pad);
      OutsideStep(block0, block1, block[..], ss, se);
      if !ok {
        return;
      }
    }
    RefineOver(tbl, b, al, ss, se, kn, k, bands, i);
  }

  lemma LastNewBound(b: Block, al: nat, ss: nat, se: nat)
    requires se < 64
    ensures LastNew(b, al, ss, se) <= se
  {
  }

  lemma StartRefine(tbl: tblNo, b: Block, al: nat, ss: nat, se: nat, bands: seq<Band>, i: nat, block: seq<int>,
                    list: seq<nat>)
    requires 1 <= ss <= se < 64 && i < |bands| && bands[i] == RefineBand(tbl, b, al, ss, se)
    requires HalfRefined(block, b, al, ss, se) && list == []
    ensures var kn := LastNew(b, al, ss, se);
            && (kn == 0 || ss <= kn <= se)
            && BandItems(tbl, bands, i, 0) == RefineBody(tbl, b, al, kn, ss) + AfterBody(tbl, bands, i)
    ensures Attempt(block, list, b, al, ss, se, ss) && Outside(block, block, ss, se)
  {
    hide Mag, RefineBody, AfterBody, Refining;
  }

  /** The band ends with a coefficient that is new: nothing follows in it. */
  lemma RefineOver(tbl: tblNo, b: Block, al: nat, ss: nat, se: nat, kn: nat, k: nat, bands: seq<Band>, i: nat)
    requires 1 <= ss <= se < 64 && i < |bands| && bands[i] == RefineBand(tbl, b, al, ss, se)
    requires kn == LastNew(b, al, ss, se) && k == se + 1 && (k <= kn || k == TailStart(kn, ss))
    ensures RefineBody(tbl, b, al, kn, k) + AfterBody(tbl, bands, i) == BandItems(tbl, bands, i + 1, 0)
    ensures !bands[i].tail
  {
    hide Mag, Corrections;
    AfterNoTail(tbl, bands, i);
    assert [] + BandItems(tbl, bands, i + 1, 0) == BandItems(tbl, bands, i + 1, 0);
  }

  /** An end-of-band symbol of category r. */
  method DecodeRefineEnd(reader: BitReader, r: nat, ghost ts: Tables, ghost tbl: tblNo, ghost b: Block, ghost al: nat,
                         ghost se: nat, ghost k: nat, ghost bands: seq<Band>, ghost i: nat, ghost pad: seq<bit>)
    returns (ok: bool, eobrun: nat)
    requires reader.Valid() && TablesOk(ts) && i < |bands| && k <= se + 1 <= 64 && r + 1 == Size(1 + RunAfter(bands, i))
    requires Codable(ts, EobExtra(1 + RunAfter(bands, i))
                         + (RawBits(Corrections(b, al, k, se + 1)) + BandItems(tbl, bands, i + 1, RunAfter(bands, i))))
    requires Expects(reader, ts, EobExtra(1 + RunAfter(bands, i))
                         + (RawBits(Corrections(b, al, k, se + 1)) + BandItems(tbl, bands, i + 1, RunAfter(bands, i))),
                         pad)
    modifies reader`pos, reader`unread, reader`getBuffer, reader`bitsLeft, reader`insufficientData, reader`rest
    ensures reader.Valid() && reader.insufficientData == old(reader.insufficientData)
    ensures ok ==> eobrun == 1 + RunAfter(bands, i)
    ensures ok ==> Expects(reader, ts,
                           RawBits(Corrections(b, al, k, se + 1)) + BandItems(tbl, bands, i + 1, RunAfter(bands, i)),
                           pad)
    ensures ok ==> Codable(ts,
                           RawBits(Corrections(b, al, k, se + 1)) + BandItems(tbl, bands, i + 1, RunAfter(bands, i)))
    ensures !ok ==> reader.available < |reader.input| && reader.unread == 0
    ensures old(reader.unread) != 0 ==> ok && reader.unread == old(reader.unread)
  {
    hide BitReader.Valid, Expects, TablesOk, Codable, Size, BandItems, RunAfter, EobExtra, Corrections, RawBits;
    ghost var n := RunAfter(bands, i);
    ghost var rest := RawBits(Corrections(b, al, k, se + 1)) + BandItems(tbl, bands, i + 1, n);
    CodableAppend(ts, EobExtra(1 + n), rest);
    ok, eobrun := GetEobRun(reader, r, ts, 1 + n, rest, pad);
  }

  // ----- MCUs and scans -----

  /** A band inside a run has no nonzero coefficients that are new to the decoder. */
  lemma RunIsZero(tbl: tblNo, b: Block, al: nat, ss: nat, se: nat, bands: seq<Band>, i: nat, t: nat)
    requires 1 <= ss <= se < 64 && AcInRange(b, al, ss, se) && t > 0 && InRun(bands, i, t)
             && bands[i] == FirstBand(tbl, b, al, ss, se)
    ensures forall k | ss <= k <= se :: PointAc(b[k], al) == 0
    ensures BandItems(tbl, bands, i, t) == BandItems(tbl, bands, i + 1, t - 1) && InRun(bands, i + 1, t - 1)
  {
    hide PointAc, Body, AcInRange;
    forall k | ss <= k <= se ensures PointAc(b[k], al) == 0 {
      if PointAc(b[k], al) != 0 {
        NonemptyBody(tbl, b, al, ss, se, k);
      }
    }
    var rest := BandItems(tbl, bands, i + 1, t - 1);
    EmptyRaw();
    assert [] + rest == rest;
  }

  lemma RunHasNoNew(tbl: tblNo, b: Block, al: nat, ss: nat, se: nat, bands: seq<Band>, i: nat, t: nat)
    requires 1 <= ss <= se < 64 && t > 0 && InRun(bands, i, t) && bands[i] == RefineBand(tbl, b, al, ss, se)
    ensures LastNew(b, al, ss, se) == 0 && NoNew(b, al, ss, se + 1)
    ensures i + t <= |bands| && InRun(bands, i + 1, t - 1)
    ensures BandItems(tbl, bands, i, t) == RawBits(Corrections(b, al, ss, se + 1)) + BandItems(tbl, bands, i + 1, t - 1)
  {
    hide Mag, Corrections, RefineBody, RawBits;
    RefineBandOk(tbl, b, al, ss, se);
  }

  lemma TailHasNoNew(b: Block, al: nat, ss: nat, se: nat)
    requires 1 <= ss <= se < 64
    ensures NoNew(b, al, TailStart(LastNew(b, al, ss, se), ss), se + 1)
  {
    hide Mag;
  }

  lemma AfterRun(bands: seq<Band>, i: nat)
    requires i < |bands|
    ensures i + 1 + RunAfter(bands, i) <= |bands| && InRun(bands, i + 1, RunAfter(bands, i)) && InRun(bands, i + 1, 0)
  {
  }

  lemma StartAttempt(block: seq<int>, b: Block, al: nat, ss: nat, se: nat, list: seq<nat>)
    requires HalfRefined(block, b, al, ss, se) && list == [] && ss <= se + 1
    ensures Attempt(block, list, b, al, ss, se, ss) && Outside(block, block, ss, se)
  {
    hide Mag, Refining;
  }

  /** Where a decoder is: interval k from band s to band e, and the padding after the interval. */
  datatype Place = Place(k: nat, s: nat, e: nat, pad: seq<bit>)

  class ProgressiveDecoder {
    const reader: BitReader
    const d: DecoderTable
    /** Bands still to come that end the same way. */
    var eobrun: nat
    /** Blocks in a restart interval, or 0; how many are left in this one, and the number of the next marker. */
    const restartInterval: nat
    var restartsToGo: nat
    var nextRestartNum: nat
    ghost const ts: Tables
    ghost const tbl: tblNo

    constructor (reader: BitReader, d: DecoderTable, restartInterval: nat, ghost ts: Tables, ghost tbl: tblNo)
      requires reader.Valid() && TablesOk(ts) && Matched(TableFor(ts, true, tbl), d)
      ensures this.restartInterval == restartsToGo == restartInterval && nextRestartNum == 0
      ensures Valid() && eobrun == 0 && this.reader == reader && this.ts == ts && this.tbl == tbl && this.d == d
    {
      this.reader, this.d, eobrun := reader, d, 0;
      this.restartInterval, restartsToGo, nextRestartNum := restartInterval, restartInterval, 0;
      this.ts, this.tbl := ts, tbl;
    }

    ghost predicate Valid()
      reads reader
    {
      reader.Valid() && TablesOk(ts) && Matched(TableFor(ts, true, tbl), d)
    }

    lemma ValidTables()
      requires Valid()
      ensures TablesOk(ts)
    {
    }

    /** The decoder is before band i of these. */
    ghost predicate AtBand(bands: seq<Band>, i: nat, pad: seq<bit>)
      requires TablesOk(ts)
      reads `eobrun, reader
    {
      && InRun(bands, i, eobrun)
      && Codable(ts, BandItems(tbl, bands, i, eobrun)) && Expects(reader, ts, BandItems(tbl, bands, i, eobrun), pad)
    }

    /** One band of a first scan. */
    method DecodeAcFirst(block: array<coef>, al: nat, ss: nat, se: nat,
                         ghost b: Block, ghost bands: seq<Band>, ghost i: nat, ghost pad: seq<bit>)
      returns (ok: bool)
      requires Valid() && block.Length == 64 && 1 <= ss <= se < 64 && InRange(b) && AcInRange(b, al, ss, se)
      requires i < |bands| && bands[i] == FirstBand(tbl, b, al, ss, se) && AtBand(bands, i, pad)
      requires FirstAttempted(block[..], b, al, ss, se)
      modifies `eobrun, block, reader`pos, reader`unread, reader`getBuffer, reader`bitsLeft, reader`insufficientData,
               reader`rest
      ensures Valid() && FirstAttempted(block[..], b, al, ss, se) && Outside(old(block[..]), block[..], ss, se)
      ensures ok ==> FirstOutput(block[..], b, al, ss, se, se + 1) && AtBand(bands, i + 1, pad)
      ensures ok ==> eobrun == RunBehind(bands, i, old(eobrun))
      ensures ok ==> reader.State()
                     == AfterAll(reader.input, old(reader.State()), Takings(ts, OwnItems(tbl, bands, i, old(eobrun))))
      ensures !ok ==> eobrun == old(eobrun) && AtBand(bands, i, pad) && reader.available < |reader.input|
      ensures !ok ==> reader.State() == old(reader.State())
      ensures old(eobrun) > 0 ==>
                ok && eobrun == old(eobrun) - 1 && block[..] == old(block[..]) && reader.State() == old(reader.State())
    {
      hide BitReader.Valid, BitReader.Ahead, BitReader.Marks, BitsOf, BytesToBits, AllBits, TablesOk, Codable, Matched,
           InRange, AcInRange, BandItems, FirstBand, FirstAttempted, FirstOutput, Outside, InRun, PointAc, AfterAll,
           Takings, OnPlan, OwnItems;
      ghost var before, run0 := reader.State(), eobrun;
      OwnFirst(tbl, bands, i, run0);
      var run := eobrun;
      ok := true;
      SameOutside(block[..], ss, se);
      if run > 0 {
        RunIsZero(tbl, b, al, ss, se, bands, i, run);
        run := run - 1;
        StartOutput(block[..], b, al, ss, se);
        SkipZeros(block[..], b, al, ss, se, ss, se + 1);
      } else {
        var bitstate := reader.Save();
        ghost var rest := reader.rest;
        ok, run := DecodeFirstBand(reader, d, block, al, ss, se, ts, tbl, b, bands, i, pad);
        if !ok {
          reader.Restore(bitstate, rest);
          return;
        }
      }
      eobrun := run;
      TakenTogether(reader.input, reader.start, reader.plan, ts, OwnItems(tbl, bands, i, run0),
                    BandItems(tbl, bands, i + 1, run), before, reader.State());
    }

    /** One band of a refinement scan; a failed attempt undoes its new coefficients. */
    method DecodeAcRefine(block: array<coef>, al: nat, ss: nat, se: nat,
                          ghost b: Block, ghost bands: seq<Band>, ghost i: nat, ghost pad: seq<bit>)
      returns (ok: bool)
      requires Valid() && block.Length == 64 && 1 <= ss <= se < 64 && InRange(b)
      requires i < |bands| && bands[i] == RefineBand(tbl, b, al, ss, se) && AtBand(bands, i, pad)
      requires HalfRefined(block[..], b, al, ss, se)
      modifies `eobrun, block, reader`pos, reader`unread, reader`getBuffer, reader`bitsLeft, reader`insufficientData,
               reader`rest
      ensures Valid() && Outside(old(block[..]), block[..], ss, se)
      ensures ok ==> Refining(block[..], b, al, ss, se, se + 1) && AtBand(bands, i + 1, pad)
      ensures ok ==> eobrun == RunBehind(bands, i, old(eobrun))
      ensures ok ==> reader.State()
                     == AfterAll(reader.input, old(reader.State()), Takings(ts, OwnItems(tbl, bands, i, old(eobrun))))
      ensures !ok ==> HalfRefined(block[..], b, al, ss, se)
      ensures !ok ==> eobrun == old(eobrun) && AtBand(bands, i, pad) && reader.available < |reader.input|
      ensures !ok ==> reader.State() == old(reader.State())
    {
      hide BitReader.Valid, BitReader.Ahead, BitReader.Marks, BitsOf, BytesToBits, AllBits, TablesOk, Codable, Matched,
           InRange, BandItems, RefineBand, HalfRefined, Outside, InRun, Mag, Corrections, RawBits, RunAfter, Refining,
           NewList, NoNew, LastNew, AfterAll, Takings, OnPlan, OwnItems;
      ghost var before, run0 := reader.State(), eobrun;
      OwnFirst(tbl, bands, i, run0);
      var run := eobrun;
      var newnz := new nat[64];
      var bitstate := reader.Save();
      ghost var rest, block0: seq<int> := reader.rest, block[..];
      ok := true;
      var k, num := ss, 0;
      StartAttempt(block0, b, al, ss, se, newnz[..0]);
      if run == 0 {
        ok, k, num, run := DecodeRefineCoefs(reader, d, block, newnz, al, ss, se, ts, tbl, b, bands, i, pad);
        AfterRun(bands, i);
        TailHasNoNew(b, al, ss, se);
      } else {
        RunHasNoNew(tbl, b, al, ss, se, bands, i, run);
      }
      if ok && run > 0 {
        ghost var next, block1: seq<int> := BandItems(tbl, bands, i + 1, run - 1), block[..];
        ghost var k0 := k;
        CodableAppend(ts, RawBits(Corrections(b, al, k, se + 1)), next);
        ok, k := CorrectTail(reader, block, al, ss, se, k, ts, b, next, pad);
        NoNewUpTo(b, al, k0, k, se + 1);
        AttemptSkip(block1, block[..], newnz[..num], b, al, ss, se, k0, k);
        OutsideStep(block0, block1, block[..], ss, se);
        run := run - 1;
      }
      if !ok {
        ghost var block1: seq<int> := block[..];
        Undo(block, newnz, num, b, al, ss, se, k);
        OutsideStep(block0, block1, block[..], ss, se);
        reader.Restore(bitstate, rest);
        return;
      }
      eobrun := run;
      TakenTogether(reader.input, reader.start, reader.plan, ts, OwnItems(tbl, bands, i, run0),
                    BandItems(tbl, bands, i + 1, run), before, reader.State());
    }

    // ----- Whole scans -----

    /** The counters agree with the place. */
    ghost predicate Stands(n: nat, intervals: nat, pl: Place, i: nat)
      reads `restartsToGo, `nextRestartNum
    {
      && pl.k < intervals && pl.s <= i <= pl.e <= n && |pl.pad| <= 7
      && pl.s == StartOfInterval(restartInterval, pl.k) && pl.e == EndFrom(restartInterval, pl.s, n)
      && (restartInterval != 0 ==> restartsToGo + (i - pl.s) == restartInterval) && nextRestartNum == pl.k % 8
    }

    /** Band i is next.  The reader has the bands up to the end of the interval ahead, and behind its data
        stand the other intervals. */
    ghost predicate AtPlace(bands: seq<Band>, datas: seq<seq<byte>>, end: seq<byte>, pl: Place, i: nat)
      requires TablesOk(ts)
      reads `eobrun, `restartsToGo, `nextRestartNum, reader
    {
      && Stands(|bands|, |datas|, pl, i) && reader.tail == Onwards(datas, pl.k, end)
      && AtBand(bands[pl.s..pl.e], i - pl.s, pl.pad)
    }

    /** Every interval of the scan has its data, and the file goes on with a marker. */
    ghost predicate Delivered(bands: seq<Band>, datas: seq<seq<byte>>, end: seq<byte>)
      requires TablesOk(ts)
    {
      && datas != [] && MarkerFirst(end)
      && HoldFirst(ts, tbl, bands, restartInterval, datas) && IsLast(restartInterval, |datas| - 1, |bands|)
    }

    /** The padding is thrown away, the restart marker taken, and the next interval begins. */
    method ProcessRestart(ghost bands: seq<Band>, ghost datas: seq<seq<byte>>, ghost end: seq<byte>, ghost pl: Place,
                          ghost i: nat)
      returns (ok: bool, ghost next: Place)
      requires Valid() && i < |bands| && AtPlace(bands, datas, end, pl, i) && Delivered(bands, datas, end)
      requires restartInterval != 0 && restartsToGo == 0
      modifies reader`pos, reader`unread, reader`bitsLeft, reader`insufficientData, reader`rest, reader`tail
      modifies reader`start, reader`plan
      modifies `eobrun, `restartsToGo, `nextRestartNum
      ensures Valid() && AtPlace(bands, datas, end, next, i)
      ensures ok ==> restartsToGo == restartInterval
      ensures !ok ==> reader.available < |reader.input| && restartsToGo == 0
    {
      hide *;
      NextInterval(bands, datas, end, pl, i);
      ok := TakeMarker(datas[pl.k + 1], Onwards(datas, pl.k + 1, end));
      if !ok {
        next := pl.(pad := []);
        NothingUpcoming(bands, datas, end, next, i);
        return;
      }
      eobrun := 0;
      restartsToGo := restartInterval;
      nextRestartNum := (nextRestartNum + 1) % 8;
      next := NewInterval(bands, datas, end, pl.k + 1, i);
    }

    method TakeMarker(ghost data: seq<byte>, ghost rest: seq<byte>) returns (ok: bool)
      requires Valid() && |reader.Ahead()| <= 7 && nextRestartNum < 8
      requires reader.tail == [0xFF, RST0 + nextRestartNum] + (Stuff(data) + rest) && MarkerFirst(rest)
      modifies reader`pos, reader`unread, reader`bitsLeft, reader`insufficientData, reader`rest, reader`tail
      ensures Valid()
      ensures ok ==> reader.Ahead() == BytesToBits(data) && reader.tail == rest
      ensures !ok ==> reader.Ahead() == [] && reader.tail == old(reader.tail) && reader.available < |reader.input|
    {
      hide BitReader.Valid, BitReader.Ahead, TablesOk, Matched, Stuff, MarkerFirst;
      ok := reader.TakeRestart(nextRestartNum, data, rest);
    }

    lemma NextInterval(bands: seq<Band>, datas: seq<seq<byte>>, end: seq<byte>, pl: Place, i: nat)
      requires Valid() && i < |bands| && AtPlace(bands, datas, end, pl, i) && Delivered(bands, datas, end)
      requires restartInterval != 0 && restartsToGo == 0
      ensures TablesOk(ts) && eobrun == 0
      ensures i == pl.e && |reader.Ahead()| <= 7 && pl.k + 1 < |datas| && nextRestartNum == pl.k % 8
      ensures Stands(|bands|, |datas|, pl.(pad := []), i) && reader.tail == Onwards(datas, pl.k, end)
      ensures reader.tail == [0xFF, RST0 + nextRestartNum] + (Stuff(datas[pl.k + 1]) + Onwards(datas, pl.k + 1, end))
      ensures MarkerFirst(Onwards(datas, pl.k + 1, end))
      ensures i == StartOfInterval(restartInterval, pl.k + 1)
      ensures HoldsBands(ts, tbl, bands[i..EndFrom(restartInterval, i, |bands|)], datas[pl.k + 1])
    {
      hide BitReader.Valid, BitReader.Ahead, TablesOk, Codable, Stuff, HoldsBands, MarkerFirst, Matched, AllBits,
           BandItems;
      StartStep(restartInterval, pl.k);
      hide StartOfInterval;
      BandsOver(ts, tbl, bands[pl.s..pl.e]);
      MarkerBehind(datas, pl.k + 1, end);
      assert HoldsInterval(ts, tbl, bands, restartInterval, pl.k + 1, datas[pl.k + 1]);
    }

    /** At the end of an interval, without its padding, nothing is ahead. */
    ghost method NothingUpcoming(bands: seq<Band>, datas: seq<seq<byte>>, end: seq<byte>, pl: Place, i: nat)
      requires Valid() && Stands(|bands|, |datas|, pl, i) && i == pl.e && pl.pad == [] && eobrun == 0
      requires reader.Ahead() == [] && reader.tail == Onwards(datas, pl.k, end)
      modifies reader`start, reader`plan
      ensures Valid() && AtPlace(bands, datas, end, pl, i)
    {
      hide BitReader.Valid, BitReader.Ahead, TablesOk, Matched, AllBits, BandItems, StartOfInterval, EndFrom, Onwards,
           AfterAll;
      reader.Follow([]);
      PlanStarts(reader.input, reader.start, []);
      BandsOver(ts, tbl, bands[pl.s..pl.e]);
    }

    /** The data of interval k, which starts with band s, are ahead. */
    ghost method NewInterval(bands: seq<Band>, datas: seq<seq<byte>>, end: seq<byte>, k: nat, s: nat)
      returns (pl: Place)
      requires Valid() && s <= |bands| && k < |datas| && s == StartOfInterval(restartInterval, k) && eobrun == 0
      requires HoldsBands(ts, tbl, bands[s..EndFrom(restartInterval, s, |bands|)], datas[k])
      requires restartsToGo == restartInterval && nextRestartNum == k % 8
      requires reader.Ahead() == BytesToBits(datas[k]) && reader.tail == Onwards(datas, k, end)
      modifies reader`start, reader`plan
      ensures Valid() && AtPlace(bands, datas, end, pl, s)
    {
      hide BitReader.Valid, BitReader.Ahead, Matched, AfterAll, Takings, OnPlan, TablesOk, Codable, AllBits,
           BytesToBits, BandItems, Ones, StartOfInterval, Onwards;
      var e := EndFrom(restartInterval, s, |bands|);
      var run := bands[s..e];
      var pad: nat :| pad <= 7 && BytesToBits(datas[k]) == AllBits(ts, BandItems(tbl, run, 0, 0)) + Ones(pad);
      OnesSize(pad);
      var tks := Takings(ts, BandItems(tbl, run, 0, 0));
      reader.Follow(tks);
      PlanStarts(reader.input, reader.start, tks);
      pl := Place(k, s, e, Ones(pad));
    }

    ghost method FirstPlace(bands: seq<Band>, datas: seq<seq<byte>>, end: seq<byte>) returns (pl: Place)
      requires Valid() && Delivered(bands, datas, end)
      requires eobrun == 0 && restartsToGo == restartInterval && nextRestartNum == 0
      requires reader.Ahead() == BytesToBits(datas[0]) && reader.tail == Onwards(datas, 0, end)
      modifies reader`start, reader`plan
      ensures Valid() && AtPlace(bands, datas, end, pl, 0)
    {
      hide BitReader.Valid, BitReader.Ahead, TablesOk, Matched, HoldsBands, BytesToBits, Onwards;
      StartStep(restartInterval, 0);
      hide StartOfInterval;
      assert HoldsInterval(ts, tbl, bands, restartInterval, 0, datas[0]);
      pl := NewInterval(bands, datas, end, 0, 0);
    }

    /** A band that is not at the end of its interval. */
    lemma Inside(bands: seq<Band>, datas: seq<seq<byte>>, end: seq<byte>, pl: Place, i: nat)
      requires TablesOk(ts) && i < |bands| && AtPlace(bands, datas, end, pl, i)
               && (restartInterval != 0 ==> restartsToGo > 0)
      ensures pl.s <= i < pl.e && bands[pl.s..pl.e][i - pl.s] == bands[i]
    {
      hide AtBand, TablesOk;
    }

    /** The next piece of the input arrives; after the last one, all the rest of it. */
    method AwaitMore(pieces: seq<nat>, piece0: nat, ghost bands: seq<Band>, ghost datas: seq<seq<byte>>,
                     ghost end: seq<byte>, ghost pl: Place, ghost i: nat)
      returns (piece: nat)
      requires Valid() && AtPlace(bands, datas, end, pl, i) && piece0 <= |pieces| && reader.available < |reader.input|
      modifies reader`available
      ensures Valid() && AtPlace(bands, datas, end, pl, i) && piece0 <= piece <= |pieces|
      ensures piece == piece0 ==> reader.available == |reader.input|
    {
      hide BitReader.Valid, BitReader.Ahead, AllBits, TablesOk, Codable, Matched, BandItems, InRun, Onwards, Stands;
      var n := |reader.input|;
      piece := piece0;
      if piece < |pieces| {
        n := pieces[piece];
        piece := piece + 1;
      }
      reader.Supply(n);
    }

    /** One band of a first scan, and the restart before it if one is due. */
    method DecodeNextFirst(block: array<coef>, al: nat, ss: nat, se: nat, ghost b: Block, ghost bands: seq<Band>,
                           ghost datas: seq<seq<byte>>, ghost end: seq<byte>, ghost pl: Place, ghost i: nat)
      returns (ok: bool, ghost next: Place)
      requires Valid() && block.Length == 64 && 1 <= ss <= se < 64 && InRange(b) && AcInRange(b, al, ss, se)
      requires i < |bands| && bands[i] == FirstBand(tbl, b, al, ss, se)
      requires AtPlace(bands, datas, end, pl, i) && Delivered(bands, datas, end)
      requires FirstAttempted(block[..], b, al, ss, se)
      modifies block, reader`pos, reader`unread, reader`getBuffer, reader`bitsLeft, reader`insufficientData,
               reader`rest, reader`tail
      modifies reader`start, reader`plan
      modifies `eobrun, `restartsToGo, `nextRestartNum
      ensures Valid() && FirstAttempted(block[..], b, al, ss, se) && Outside(old(block[..]), block[..], ss, se)
      ensures AtPlace(bands, datas, end, next, if ok then i + 1 else i)
      ensures ok ==> FirstOutput(block[..], b, al, ss, se, se + 1)
      ensures !ok ==> reader.available < |reader.input|
    {
      hide BitReader.Valid, TablesOk, Matched, InRange, AcInRange, FirstBand, FirstAttempted, FirstOutput, Outside,
           AtBand, Delivered, Onwards, StartOfInterval, EndFrom,
           AfterAll, Takings, RunBehind, OwnItems;
      next := pl;
      SameOutside(block[..], ss, se);
      if restartInterval != 0 && restartsToGo == 0 {
        ok, next := ProcessRestart(bands, datas, end, pl, i);
        if !ok {
          return;
        }
      }
      Inside(bands, datas, end, next, i);
      ok := DecodeAcFirst(block, al, ss, se, b, bands[next.s..next.e], i - next.s, next.pad);
      if ok && restartInterval != 0 {
        restartsToGo := restartsToGo - 1;
      }
    }

    /** One band of a refinement scan, and the restart before it if one is due. */
    method DecodeNextRefine(block: array<coef>, al: nat, ss: nat, se: nat, ghost b: Block, ghost bands: seq<Band>,
                            ghost datas: seq<seq<byte>>, ghost end: seq<byte>, ghost pl: Place, ghost i: nat)
      returns (ok: bool, ghost next: Place)
      requires Valid() && block.Length == 64 && 1 <= ss <= se < 64 && InRange(b)
      requires i < |bands| && bands[i] == RefineBand(tbl, b, al, ss, se)
      requires AtPlace(bands, datas, end, pl, i) && Delivered(bands, datas, end)
      requires HalfRefined(block[..], b, al, ss, se)
      modifies block, reader`pos, reader`unread, reader`getBuffer, reader`bitsLeft, reader`insufficientData,
               reader`rest, reader`tail
      modifies reader`start, reader`plan
      modifies `eobrun, `restartsToGo, `nextRestartNum
      ensures Valid() && Outside(old(block[..]), block[..], ss, se)
      ensures AtPlace(bands, datas, end, next, if ok then i + 1 else i)
      ensures ok ==> Refining(block[..], b, al, ss, se, se + 1)
      ensures !ok ==> HalfRefined(block[..], b, al, ss, se) && reader.available < |reader.input|
    {
      hide BitReader.Valid, TablesOk, Matched, InRange, RefineBand, HalfRefined, Refining, Outside, AtBand, Delivered,
           Onwards, StartOfInterval, EndFrom,
           AfterAll, Takings, RunBehind, OwnItems;
      next := pl;
      SameOutside(block[..], ss, se);
      if restartInterval != 0 && restartsToGo == 0 {
        ok, next := ProcessRestart(bands, datas, end, pl, i);
        if !ok {
          return;
        }
      }
      Inside(bands, datas, end, next, i);
      ok := DecodeAcRefine(block, al, ss, se, b, bands[next.s..next.e], i - next.s, next.pad);
      if ok && restartInterval != 0 {
        restartsToGo := restartsToGo - 1;
      }
    }

    /** One block, tried again whenever more of the input has arrived. */
    method RestoreBlock(block: array<coef>, al: nat, ss: nat, se: nat, pieces: seq<nat>, piece0: nat, ghost b: Block,
                        ghost bands: seq<Band>, ghost datas: seq<seq<byte>>, ghost end: seq<byte>, ghost pl: Place,
                        ghost i: nat)
      returns (piece: nat, ghost next: Place)
      requires Valid() && block.Length == 64 && 1 <= ss <= se < 64 && InRange(b) && AcInRange(b, al, ss, se)
      requires i < |bands| && bands[i] == FirstBand(tbl, b, al, ss, se)
      requires AtPlace(bands, datas, end, pl, i) && Delivered(bands, datas, end) && piece0 <= |pieces|
      requires FirstAttempted(block[..], b, al, ss, se)
      modifies block, reader, `eobrun, `restartsToGo, `nextRestartNum
      ensures Valid() && AtPlace(bands, datas, end, next, i + 1) && piece <= |pieces|
      ensures FirstOutput(block[..], b, al, ss, se, se + 1) && Outside(old(block[..]), block[..], ss, se)
    {
      hide *;
      ValidTables();
      piece, next := piece0, pl;
      ghost var block0: seq<int> := block[..];
      SameOutside(block0, ss, se);
      var ok := false;
      while !ok
        invariant piece <= |pieces| && Valid() && TablesOk(ts)
        invariant AtPlace(bands, datas, end, next, if ok then i + 1 else i)
        invariant if ok then FirstOutput(block[..], b, al, ss, se, se + 1) else FirstAttempted(block[..], b, al, ss, se)
        invariant Outside(block0, block[..], ss, se)
        decreases !ok, |pieces| - piece, |reader.input| - reader.available
      {
        ghost var block1: seq<int> := block[..];
        ok, next := DecodeNextFirst(block, al, ss, se, b, bands, datas, end, next, i);
        OutsideStep(block0, block1, block[..], ss, se);
        if !ok {
          piece := AwaitMore(pieces, piece, bands, datas, end, next, i);
        }
      }
    }

    /** A whole first scan, whatever pieces the input arrives in. */
    method DecodeFirstScan(blocks: seq<array<coef>>, al: nat, ss: nat, se: nat, pieces: seq<nat>,
                           ghost bs: seq<Block>, ghost datas: seq<seq<byte>>, ghost end: seq<byte>)
      requires Valid() && 1 <= ss <= se < 64 && |blocks| == |bs| && AllInRange(bs, al, ss, se)
      requires eobrun == 0 && restartsToGo == restartInterval && nextRestartNum == 0
      requires forall i | 0 <= i < |bs| :: InRange(bs[i])
      requires forall i, j | 0 <= i < j < |blocks| :: blocks[i] != blocks[j]
      requires forall i | 0 <= i < |blocks| ::
               blocks[i].Length == 64 && FirstAttempted(blocks[i][..], bs[i], al, ss, se)
      requires Delivered(FirstBands(tbl, bs, al, ss, se), datas, end)
      requires reader.Ahead() == BytesToBits(datas[0]) && reader.tail == Onwards(datas, 0, end)
      modifies reader, `eobrun, `restartsToGo, `nextRestartNum, set i | 0 <= i < |blocks| :: blocks[i]
      ensures Valid()
      ensures forall i | 0 <= i < |blocks| :: FirstOutput(blocks[i][..], bs[i], al, ss, se, se + 1)
      ensures forall i | 0 <= i < |blocks| :: Outside(old(blocks[i][..]), blocks[i][..], ss, se)
    {
      hide *;
      ValidTables();
      ghost var bands := FirstBands(tbl, bs, al, ss, se);
      ghost var before: seq<seq<int>> := seq(|blocks|, i requires 0 <= i < |blocks| reads blocks => blocks[i][..]);
      forall i | 0 <= i < |blocks| ensures Outside(before[i], blocks[i][..], ss, se) {
        SameOutside(blocks[i][..], ss, se);
      }
      ghost var pl := FirstPlace(bands, datas, end);
      var i, piece: nat := 0, 0;
      while i < |blocks|
        invariant i <= |blocks| && piece <= |pieces| && Valid() && TablesOk(ts) && AtPlace(bands, datas, end, pl, i)
        invariant forall j | 0 <= j < i :: FirstOutput(blocks[j][..], bs[j], al, ss, se, se + 1)
        invariant forall j | i <= j < |blocks| :: FirstAttempted(blocks[j][..], bs[j], al, ss, se)
        invariant forall j | 0 <= j < |blocks| :: Outside(before[j], blocks[j][..], ss, se)
      {
        ghost var block0: seq<int> := blocks[i][..];
        OneInRange(bs, al, ss, se, i);
        piece, pl := RestoreBlock(blocks[i], al, ss, se, pieces, piece, bs[i], bands, datas, end, pl, i);
        OutsideStep(before[i], block0, blocks[i][..], ss, se);
        i := i + 1;
      }
    }

    /** One block, tried again whenever more of the input has arrived. */
    method RefineBlock(block: array<coef>, al: nat, ss: nat, se: nat, pieces: seq<nat>, piece0: nat, ghost b: Block,
                       ghost bands: seq<Band>, ghost datas: seq<seq<byte>>, ghost end: seq<byte>, ghost pl: Place,
                       ghost i: nat)
      returns (piece: nat, ghost next: Place)
      requires Valid() && block.Length == 64 && 1 <= ss <= se < 64 && InRange(b)
      requires i < |bands| && bands[i] == RefineBand(tbl, b, al, ss, se)
      requires AtPlace(bands, datas, end, pl, i) && Delivered(bands, datas, end) && piece0 <= |pieces|
      requires HalfRefined(block[..], b, al, ss, se)
      modifies block, reader, `eobrun, `restartsToGo, `nextRestartNum
      ensures Valid() && AtPlace(bands, datas, end, next, i + 1) && piece <= |pieces|
      ensures Refining(block[..], b, al, ss, se, se + 1) && Outside(old(block[..]), block[..], ss, se)
    {
      hide *;
      ValidTables();
      piece, next := piece0, pl;
      ghost var block0: seq<int> := block[..];
      SameOutside(block0, ss, se);
      var ok := false;
      while !ok
        invariant piece <= |pieces| && Valid() && TablesOk(ts)
        invariant AtPlace(bands, datas, end, next, if ok then i + 1 else i)
        invariant if ok then Refining(block[..], b, al, ss, se, se + 1) else HalfRefined(block[..], b, al, ss, se)
        invariant Outside(block0, block[..], ss, se)
        decreases !ok, |pieces| - piece, |reader.input| - reader.available
      {
        ghost var block1: seq<int> := block[..];
        ok, next := DecodeNextRefine(block, al, ss, se, b, bands, datas, end, next, i);
        OutsideStep(block0, block1, block[..], ss, se);
        if !ok {
          piece := AwaitMore(pieces, piece, bands, datas, end, next, i);
        }
      }
    }

    /** A whole refinement scan, whatever pieces the input arrives in. */
    method DecodeRefineScan(blocks: seq<array<coef>>, al: nat, ss: nat, se: nat, pieces: seq<nat>,
                            ghost bs: seq<Block>, ghost datas: seq<seq<byte>>, ghost end: seq<byte>)
      requires Valid() && 1 <= ss <= se < 64 && |blocks| == |bs|
      requires eobrun == 0 && restartsToGo == restartInterval && nextRestartNum == 0
      requires forall i | 0 <= i < |bs| :: InRange(bs[i])
      requires forall i, j | 0 <= i < j < |blocks| :: blocks[i] != blocks[j]
      requires forall i | 0 <= i < |blocks| :: blocks[i].Length == 64 && HalfRefined(blocks[i][..], bs[i], al, ss, se)
      requires Delivered(RefineBands(tbl, bs, al, ss, se), datas, end)
      requires reader.Ahead() == BytesToBits(datas[0]) && reader.tail == Onwards(datas, 0, end)
      modifies reader, `eobrun, `restartsToGo, `nextRestartNum, set i | 0 <= i < |blocks| :: blocks[i]
      ensures Valid()
      ensures forall i | 0 <= i < |blocks| :: Refining(blocks[i][..], bs[i], al, ss, se, se + 1)
      ensures forall i | 0 <= i < |blocks| :: Outside(old(blocks[i][..]), blocks[i][..], ss, se)
    {
      hide *;
      ValidTables();
      ghost var bands := RefineBands(tbl, bs, al, ss, se);
      ghost var before: seq<seq<int>> := seq(|blocks|, i requires 0 <= i < |blocks| reads blocks => blocks[i][..]);
      forall i | 0 <= i < |blocks| ensures Outside(before[i], blocks[i][..], ss, se) {
        SameOutside(blocks[i][..], ss, se);
      }
      ghost var pl := FirstPlace(bands, datas, end);
      var i, piece: nat := 0, 0;
      while i < |blocks|
        invariant i <= |blocks| && piece <= |pieces| && Valid() && TablesOk(ts) && AtPlace(bands, datas, end, pl, i)
        invariant forall j | 0 <= j < i :: Refining(blocks[j][..], bs[j], al, ss, se, se + 1)
        invariant forall j | i <= j < |blocks| :: HalfRefined(blocks[j][..], bs[j], al, ss, se)
        invariant forall j | 0 <= j < |blocks| :: Outside(before[j], blocks[j][..], ss, se)
      {
        ghost var block0: seq<int> := blocks[i][..];
        piece, pl := RefineBlock(blocks[i], al, ss, se, pieces, piece, bs[i], bands, datas, end, pl, i);
        OutsideStep(before[i], block0, blocks[i][..], ss, se);
        i := i + 1;
      }
    }
  }

  lemma OneInRange(bs: seq<Block>, al: nat, ss: nat, se: nat, i: nat)
    requires se < 64 && AllInRange(bs, al, ss, se) && i < |bs|
    ensures AcInRange(bs[i], al, ss, se)
  {
  }

  /** Nothing is left behind the last band. */
  lemma BandsOver(ts: Tables, tbl: tblNo, bands: seq<Band>)
    requires TablesOk(ts)
    ensures BandItems(tbl, bands, |bands|, 0) == [] && AllBits(ts, []) == [] && Codable(ts, [])
  {
    NoBits(ts);
  }
}
