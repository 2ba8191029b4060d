/** Sequential Huffman decoding, which can stop at any byte and start the MCU again later. */
module HuffSequentialDecoder {
  import opened Numbers
  import opened BitStrings
  import opened Stuffing
  import opened RestartIntervals
  import opened HuffDerived
  import opened HuffBitReader
  import opened ArithModel
  import opened ArithScan
  import opened HuffItems
  import opened HuffBlocks
  import opened HuffSink
  import opened HuffSource
  import opened HuffSequential
  import opened HuffSequentialPass
  import opened HuffBitWriter

  /** Earlier attempts may have output some coefficients already. */
  ghost predicate Attempted(block: array<coef>, b: Block)
    reads block
  {
    block.Length == 64 && forall k | 0 <= k < 64 :: block[k] == 0 || block[k] == b[k]
  }

  /** The first n coefficients are output. */
  ghost predicate Output(block: array<coef>, b: Block, n: nat)
    reads block
  {
    Attempted(block, b) && forall k | 0 <= k < 64 && k < n :: block[k] == b[k]
  }

  ghost function Tail(tbl: tblNo, b: Block): seq<Item> {
    if HasTail(b, 0, 63) then [Sym(true, tbl, EOB)] else []
  }

  /** The rest of a block from position k on, and what follows it. */
  ghost function AcRest(tbl: tblNo, b: Block, k: nat, more: seq<Item>): seq<Item>
    requires k <= 64 && AcInRange(b, 0, k, 63)
  {
    Body(tbl, b, 0, 63, k) + (Tail(tbl, b) + more)
  }

  /** The next step of a block. */
  lemma NextStep(ts: Tables, tbl: tblNo, b: Block, k: nat, more: seq<Item>) returns (st: Step, next: seq<Item>)
    requires TablesOk(ts) && 1 <= k < 64 && AcInRange(b, 0, k, 63) && Codable(ts, AcRest(tbl, b, k, more))
    ensures st.Coef? ==> st.run <= 15 && k + st.run < 64 && st.v == b[k + st.run] != 0
                         && 0 < Size(Abs(st.v)) <= MAX_COEF_BITS
    ensures forall i | k <= i < 64 && (if st.Zeros? then i < k + 16 else if st.Coef? then i < k + st.run else true) ::
            b[i] == 0
    ensures st.Coef? ==> AcInRange(b, 0, k + st.run + 1, 63) && Codable(ts, AcRest(tbl, b, k + st.run + 1, more))
    ensures st.Zeros? ==> k + 16 < 64 && AcInRange(b, 0, k + 16, 63)
    ensures var s := StepSymbol(st, 0);
            match st
            case End => s == 0
            case Zeros => s / 16 == 15 && s % 16 == 0
            case Coef(run, v) => s / 16 == run && s % 16 == Size(Abs(v)) > 0
    ensures AcRest(tbl, b, k, more) == [Sym(true, tbl, StepSymbol(st, 0))] + next
    ensures HasCode(ts, Sym(true, tbl, StepSymbol(st, 0))) && Codable(ts, next)
    ensures match st
            case End => next == more
            case Zeros => next == AcRest(tbl, b, k + 16, more)
            case Coef(run, v) => next == ValueItems(v) + AcRest(tbl, b, k + run + 1, more)
  {
    hide Size, Body, StepSymbol, HasTail, PointAc, Codable, TablesOk, HasCode, ValueItems, AcInRange;
    NoTransform(b);
    st, next := TakeCodableStep(tbl, b, 0, 63, k, Tail(tbl, b) + more, 0, more, ts);
  }

  /** The end of a block without an end-of-block code. */
  lemma NoMore(tbl: tblNo, b: Block, more: seq<Item>)
    requires b[63] != 0
    ensures AcRest(tbl, b, 64, more) == more
  {
    NoTransform(b);
    hide PointAc;
    BodyOver(tbl, b, 0, 63, Tail(tbl, b) + more);
    assert [] + more == more;
  }

  /** AC coefficients that are wanted. */
  method DecodeAc(reader: BitReader, d: DecoderTable, block: array<coef>, limit: nat,
                  ghost ts: Tables, ghost tbl: tblNo, ghost b: Block, ghost more: seq<Item>, ghost pad: seq<bit>)
    returns (ok: bool, k: nat, ended: bool)
    requires reader.Valid() && TablesOk(ts) && Matched(TableFor(ts, true, tbl), d) && AcInRange(b, 0, 1, 63)
    requires Codable(ts, AcRest(tbl, b, 1, more)) && InRange(b)
    requires 1 <= limit <= 64 && Output(block, b, 1)
    requires Expects(reader, ts, AcRest(tbl, b, 1, more), pad)
    modifies block, reader`pos, reader`unread, reader`getBuffer, reader`bitsLeft, reader`insufficientData, reader`rest
    ensures reader.Valid() && reader.insufficientData == old(reader.insufficientData)
    ensures Attempted(block, b)
    ensures ok ==> Output(block, b, limit)
    ensures ok && ended ==> Expects(reader, ts, more, pad)
    ensures ok && !ended ==> limit <= k <= 64 && Expects(reader, ts, AcRest(tbl, b, k, more), pad)
                             && Codable(ts, AcRest(tbl, b, k, more)) && (k == 64 ==> b[63] != 0)
    ensures !ok ==> reader.available < |reader.input| && reader.unread == 0
    ensures old(reader.unread) != 0 ==> ok && reader.unread == old(reader.unread)
  {
    hide BitReader.Valid, Expects, TablesOk, Matched, Codable, Size, StepSymbol, ValueItems, InRange, AcRest, AcInRange,
         HasCode;
    k, ended, ok := 1, false, true;
    ghost var un := reader.unread;
    while k < limit
      invariant 1 <= k <= 64 && reader.Valid() && reader.insufficientData == old(reader.insufficientData)
      invariant Output(block, b, k) && (k == 64 ==> b[63] != 0)
      invariant AcInRange(b, 0, k, 63) && Codable(ts, AcRest(tbl, b, k, more))
      invariant Expects(reader, ts, AcRest(tbl, b, k, more), pad)
      invariant un != 0 ==> reader.unread == un
      decreases 64 - k
    {
      ghost var st, next := NextStep(ts, tbl, b, k, more);
      var s;
      ok, s := GetSymbol(reader, d, ts, Sym(true, tbl, StepSymbol(st, 0)), next, pad);
      if !ok {
        return;
      }
      var r := s / 16;
      s := s % 16;
      if s != 0 {
        k := k + r;
        var x;
        ok, x := GetValue(reader, s, ts, b[k], AcRest(tbl, b, k + 1, more), pad);
        if !ok {
          return;
        }
        CoefInRange(b, k);
        block[k] := x;
      } else {
        if r != 15 {
          ended := true;
          return;
        }
        k := k + 15;
      }
      k := k + 1;
    }
  }

  /** AC coefficients that are not wanted. */
  method SkipAc(reader: BitReader, d: DecoderTable, k0: nat,
                ghost ts: Tables, ghost tbl: tblNo, ghost b: Block, ghost more: seq<Item>, ghost pad: seq<bit>)
    returns (ok: bool)
    requires reader.Valid() && TablesOk(ts) && Matched(TableFor(ts, true, tbl), d)
    requires 1 <= k0 <= 64 && AcInRange(b, 0, k0, 63) && (k0 == 64 ==> b[63] != 0)
    requires Codable(ts, AcRest(tbl, b, k0, more)) && Expects(reader, ts, AcRest(tbl, b, k0, more), pad)
    modifies reader`pos, reader`unread, reader`getBuffer, reader`bitsLeft, reader`insufficientData, reader`rest
    ensures reader.Valid() && reader.insufficientData == old(reader.insufficientData)
    ensures ok ==> Expects(reader, ts, more, pad)
    ensures !ok ==> reader.available < |reader.input| && reader.unread == 0
    ensures old(reader.unread) != 0 ==> ok && reader.unread == old(reader.unread)
  {
    hide BitReader.Valid, Expects, TablesOk, Matched, Codable, Size, StepSymbol, ValueItems, AcRest, AcInRange, HasCode;
    var k := k0;
    ok := true;
    ghost var un := reader.unread;
    while k < DCTSIZE2
      invariant 1 <= k <= 64 && reader.Valid() && reader.insufficientData == old(reader.insufficientData)
      invariant AcInRange(b, 0, k, 63) && Codable(ts, AcRest(tbl, b, k, more)) && (k == 64 ==> b[63] != 0)
      invariant Expects(reader, ts, AcRest(tbl, b, k, more), pad)
      invariant ok && (un != 0 ==> reader.unread == un)
      decreases 64 - k
    {
      ghost var st, next := NextStep(ts, tbl, b, k, more);
      var s;
      ok, s := GetSymbol(reader, d, ts, Sym(true, tbl, StepSymbol(st, 0)), next, pad);
      if !ok {
        return;
      }
      var r := s / 16;
      s := s % 16;
      if s != 0 {
        k := k + r;
        ok := SkipValue(reader, s, ts, b[k], AcRest(tbl, b, k + 1, more), pad);
        if !ok {
          return;
        }
      } else {
        if r != 15 {
          return;
        }
        k := k + 15;
      }
      k := k + 1;
    }
    NoMore(tbl, b, more);
  }

  /** The first item of a block: the size of its DC difference. */
  lemma TakeDiff(tbl: tblNo, acTbl: tblNo, b: Block, last: int, more: seq<Item>)
    requires BlockOk(b, last, 63)
    ensures BlockItems(tbl, acTbl, b, last, 63) + more
            == [Sym(false, tbl, Size(Abs(b[0] - last)))] + (ValueItems(b[0] - last) + AcRest(acTbl, b, 1, more))
  {
    hide Size, ValueItems, Body, AcInRange, PointAc;
    Regroup([Sym(false, tbl, Size(Abs(b[0] - last)))], ValueItems(b[0] - last), AcItems(acTbl, b, 63), more);
    Regroup([], Body(acTbl, b, 0, 63, 1), Tail(acTbl, b), more);
  }

  /** A whole block; limit is 0 if the component is not wanted at all. */
  method DecodeOneBlock(reader: BitReader, dcD: DecoderTable, acD: DecoderTable, block: array<coef>, limit: nat,
                        last: coef, ghost ts: Tables, ghost dcTbl: tblNo, ghost acTbl: tblNo, ghost b: Block,
                        ghost pred: int, ghost more: seq<Item>, ghost pad: seq<bit>)
    returns (ok: bool, newLast: coef)
    requires reader.Valid() && TablesOk(ts) && BlockOk(b, pred, 63) && InRange(b) && limit <= 64
    requires Matched(TableFor(ts, false, dcTbl), dcD) && Matched(TableFor(ts, true, acTbl), acD)
    requires Codable(ts, BlockItems(dcTbl, acTbl, b, pred, 63) + more)
    requires Expects(reader, ts, BlockItems(dcTbl, acTbl, b, pred, 63) + more, pad)
    requires Attempted(block, b) && (limit > 0 ==> last == pred)
    modifies block, reader`pos, reader`unread, reader`getBuffer, reader`bitsLeft, reader`insufficientData, reader`rest
    ensures reader.Valid() && reader.insufficientData == old(reader.insufficientData)
    ensures Attempted(block, b)
    ensures ok ==> Output(block, b, limit) && Expects(reader, ts, more, pad)
    ensures ok ==> newLast == if limit > 0 then b[0] else last
    ensures !ok ==> reader.available < |reader.input| && reader.unread == 0
    ensures old(reader.unread) != 0 ==> ok && reader.unread == old(reader.unread)
  {
    hide BitReader.Valid, Expects, TablesOk, Matched, Codable, Size, ValueItems, AcRest, BlockItems, AcInRange, InRange;
    newLast := last;
    ghost var diff := b[0] - pred;
    ghost var it := Sym(false, dcTbl, Size(Abs(diff)));
    ghost var rest := AcRest(acTbl, b, 1, more);
    TakeDiff(dcTbl, acTbl, b, pred, more);
    CodableStep(ts, it, ValueItems(diff) + rest);
    CodableValue(ts, diff, rest);
    CoefInRange(b, 0);
    var s, ended;
    ok, s := GetSymbol(reader, dcD, ts, it, ValueItems(diff) + rest, pad);
    if !ok {
      return;
    }
    var k := 1;
    if limit > 0 {
      var x;
      ok, x := GetValue(reader, s, ts, diff, rest, pad);
      if !ok {
        return;
      }
      newLast := x + last;
      block[0] := newLast;
      ok, k, ended := DecodeAc(reader, acD, block, limit, ts, acTbl, b, more, pad);
      if !ok || ended {
        return;
      }
    } else {
      ok := SkipValue(reader, s, ts, diff, rest, pad);
      if !ok {
        return;
      }
    }
    RestInRange(b, k);
    ok := SkipAc(reader, acD, k, ts, acTbl, b, more, pad);
  }

  lemma RestInRange(b: Block, k: nat)
    requires AcInRange(b, 0, 1, 63) && k >= 1
    ensures AcInRange(b, 0, k, 63)
  {
  }

  // ----- MCUs -----

  /** Both sides use the same tables, for the components of an MCU. */
  ghost predicate McuMatched(lay: Layout, ts: Tables, dc: seq<DecoderTable>, ac: seq<DecoderTable>, mcu: Mcu)
    requires TablesOk(ts) && |dc| == |ac| == NUM_HUFF_TBLS
  {
    forall i | 0 <= i < |mcu| ::
      && Matched(TableFor(ts, false, lay.dcTbl(mcu[i].ci)), dc[lay.dcTbl(mcu[i].ci)])
      && Matched(TableFor(ts, true, lay.acTbl(mcu[i].ci)), ac[lay.acTbl(mcu[i].ci)])
  }

  /** The predictions agree for the components that are wanted. */
  ghost predicate SamePredictions(limits: compNo -> nat, last: Predictions, pred: Predictions) {
    forall ci: compNo | limits(ci) > 0 :: last[ci] == pred[ci]
  }

  ghost predicate AllAttempted(blocks: seq<array<coef>>, mcu: Mcu)
    reads blocks
  {
    && |blocks| == |mcu| && (forall i | 0 <= i < |mcu| :: Attempted(blocks[i], mcu[i].b))
    && forall i, j | 0 <= i < j < |blocks| :: blocks[i] != blocks[j]
  }

  ghost predicate AllOutput(blocks: seq<array<coef>>, mcu: Mcu, limits: compNo -> nat, n: nat)
    requires |blocks| == |mcu|
    reads blocks
  {
    forall i | 0 <= i < |mcu| && i < n :: Output(blocks[i], mcu[i].b, limits(mcu[i].ci))
  }

  lemma McuHead(lay: Layout, p: Predictions, mcu: Mcu, i: nat, more: seq<Item>)
    requires LayoutOk(lay) && UnitsOk(mcu) && i < |mcu| && McuOk(lay, p, mcu[i..])
    ensures InRange(mcu[i].b) && -0x8000 <= mcu[i].b[0] < 0x8000
    ensures var x := mcu[i];
            var next := p[x.ci := x.b[0]];
            && BlockOk(x.b, p[x.ci], lay.se) && McuOk(lay, next, mcu[i + 1..])
            && McuLast(p, mcu[i..]) == McuLast(next, mcu[i + 1..])
            && McuItems(lay, p, mcu[i..]) + more
               == BlockItems(lay.dcTbl(x.ci), lay.acTbl(x.ci), x.b, p[x.ci], lay.se)
                  + (McuItems(lay, next, mcu[i + 1..]) + more)
  {
    hide BlockOk, BlockItems;
    var x := mcu[i];
    CoefInRange(x.b, 0);
    assert mcu[i..][1..] == mcu[i + 1..];
    Regroup([], BlockItems(lay.dcTbl(x.ci), lay.acTbl(x.ci), x.b, p[x.ci], lay.se),
            McuItems(lay, p[x.ci := x.b[0]], mcu[i + 1..]), more);
  }

  lemma McuEnd(lay: Layout, p: Predictions, mcu: Mcu, more: seq<Item>)
    requires LayoutOk(lay) && mcu == []
    ensures McuItems(lay, p, mcu) + more == more && McuLast(p, mcu) == p
  {
    Regroup([], more, [], []);
  }

  /** The next MCU of an interval that lasts to e. */
  lemma RunHead(lay: Layout, p: Predictions, mcus: seq<Mcu>, m: nat, e: nat)
    requires LayoutOk(lay) && McusOk(mcus) && m < e <= |mcus| && McusOk(mcus[m..e]) && RunOk(lay, p, mcus[m..e])
    ensures UnitsOk(mcus[m]) && McuOk(lay, p, mcus[m]) && McusOk(mcus[m + 1..e])
    ensures var next := McuLast(p, mcus[m]);
            && RunOk(lay, next, mcus[m + 1..e])
            && RunItems(lay, p, mcus[m..e]) == McuItems(lay, p, mcus[m]) + RunItems(lay, next, mcus[m + 1..e])
  {
    hide McuOk, McuItems, McuLast, UnitsOk;
    assert mcus[m..e][1..] == mcus[m + 1..e];
    SliceOk(mcus, m + 1, e);
  }

  /** Where a decoder is: interval k from MCU s to MCU e, the predictions, and the padding after the interval. */
  datatype Place = Place(k: nat, s: nat, e: nat, last: Predictions, pad: seq<bit>)

  class SequentialDecoder {
    const reader: BitReader
    const lay: Layout
    /** The tables of both kinds, by number. */
    const dc: seq<DecoderTable>
    const ac: seq<DecoderTable>
    /** How many coefficients of each component are wanted. */
    const limits: compNo -> nat
    var lastDc: Predictions
    /** MCUs left in this restart interval, and the number of the marker behind it. */
    var restartsToGo: nat
    var nextRestartNum: nat
    ghost const ts: Tables

    constructor (reader: BitReader, lay: Layout, dc: seq<DecoderTable>, ac: seq<DecoderTable>, limits: compNo -> nat,
                 ghost ts: Tables)
      requires reader.Valid() && lay.se == 63 && TablesOk(ts) && |dc| == |ac| == NUM_HUFF_TBLS
      requires forall ci: compNo :: limits(ci) <= 64
      ensures Valid() && lastDc == NO_DC && this.reader == reader && this.lay == lay && this.ts == ts
      ensures this.dc == dc && this.ac == ac && this.limits == limits
      ensures restartsToGo == lay.restartInterval && nextRestartNum == 0
    {
      this.reader, this.lay, this.dc, this.ac, this.limits := reader, lay, dc, ac, limits;
      this.ts, lastDc := ts, NO_DC;
      restartsToGo, nextRestartNum := lay.restartInterval, 0;
    }

    ghost predicate Valid()
      reads reader
    {
      && reader.Valid() && lay.se == 63 && TablesOk(ts) && |dc| == |ac| == NUM_HUFF_TBLS
      && forall ci: compNo :: limits(ci) <= 64
    }

    /** The blocks of an MCU, from the working state. */
    method DecodeBlocks(cis: seq<compNo>, blocks: seq<array<coef>>, ghost mcu: Mcu, ghost pred: Predictions,
                        ghost more: seq<Item>, ghost pad: seq<bit>)
      returns (ok: bool, state: Predictions)
      requires Valid() && UnitsOk(mcu) && McuOk(lay, pred, mcu) && McuMatched(lay, ts, dc, ac, mcu)
      requires |cis| == |mcu| && forall i | 0 <= i < |mcu| :: cis[i] == mcu[i].ci
      requires AllAttempted(blocks, mcu) && SamePredictions(limits, lastDc, pred)
      requires Codable(ts, McuItems(lay, pred, mcu) + more) && Expects(reader, ts, McuItems(lay, pred, mcu) + more, pad)
      modifies set i | 0 <= i < |blocks| :: blocks[i]
      modifies reader`pos, reader`unread, reader`getBuffer, reader`bitsLeft, reader`insufficientData, reader`rest
      ensures Valid() && AllAttempted(blocks, mcu) && reader.insufficientData == old(reader.insufficientData)
      ensures ok ==> AllOutput(blocks, mcu, limits, |mcu|) && Expects(reader, ts, more, pad)
      ensures ok ==> SamePredictions(limits, state, McuLast(pred, mcu))
      ensures ok ==> forall ci: compNo | limits(ci) == 0 :: state[ci] == lastDc[ci]
      ensures !ok ==> reader.available < |reader.input| && reader.unread == 0
      ensures old(reader.unread) != 0 ==> ok && reader.unread == old(reader.unread)
    {
      hide BitReader.Valid, Expects, TablesOk, Matched, Codable, BlockItems, BlockOk, InRange, Attempted, Output,
           McuOk, McuItems, McuLast;
      ok, state := true, lastDc;
      ghost var un, p := reader.unread, pred;
      var blkn := 0;
      assert mcu[0..] == mcu;
      while blkn < |blocks|
        invariant blkn <= |blocks| && Valid() && AllAttempted(blocks, mcu) && AllOutput(blocks, mcu, limits, blkn)
        invariant reader.insufficientData == old(reader.insufficientData)
        invariant McuOk(lay, p, mcu[blkn..]) && McuLast(p, mcu[blkn..]) == McuLast(pred, mcu)
        invariant SamePredictions(limits, state, p)
        invariant forall ci: compNo | limits(ci) == 0 :: state[ci] == lastDc[ci]
        invariant Codable(ts, McuItems(lay, p, mcu[blkn..]) + more)
        invariant Expects(reader, ts, McuItems(lay, p, mcu[blkn..]) + more, pad)
        invariant ok && (un != 0 ==> reader.unread == un)
      {
        McuHead(lay, p, mcu, blkn, more);
        ghost var x := mcu[blkn];
        var ci := cis[blkn];
        ghost var items := BlockItems(lay.dcTbl(ci), lay.acTbl(ci), x.b, p[ci], lay.se);
        ghost var rest := McuItems(lay, p[ci := x.b[0]], mcu[blkn + 1..]) + more;
        CodableAppend(ts, items, rest);
        var newLast;
        ok, newLast := DecodeOneBlock(reader, dc[lay.dcTbl(ci)], ac[lay.acTbl(ci)], blocks[blkn], limits(ci), state[ci],
                                      ts, lay.dcTbl(ci), lay.acTbl(ci), x.b, p[ci], rest, pad);
        if !ok {
          return;
        }
        state := state[ci := newLast];
        p := p[ci := x.b[0]];
        blkn := blkn + 1;
      }
      McuEnd(lay, p, mcu[blkn..], more);
    }

    /** One MCU; if the input runs out, everything but the coefficients output so far is as before. */
    method DecodeMcu(cis: seq<compNo>, blocks: seq<array<coef>>, ghost mcu: Mcu, ghost pred: Predictions,
                     ghost more: seq<Item>, ghost pad: seq<bit>)
      returns (ok: bool)
      requires Valid() && UnitsOk(mcu) && McuOk(lay, pred, mcu) && McuMatched(lay, ts, dc, ac, mcu)
      requires |cis| == |mcu| && forall i | 0 <= i < |mcu| :: cis[i] == mcu[i].ci
      requires AllAttempted(blocks, mcu) && SamePredictions(limits, lastDc, pred)
      requires Codable(ts, McuItems(lay, pred, mcu) + more) && Expects(reader, ts, McuItems(lay, pred, mcu) + more, pad)
      modifies set i | 0 <= i < |blocks| :: blocks[i]
      modifies reader`pos, reader`unread, reader`getBuffer, reader`bitsLeft, reader`insufficientData, reader`rest,
               `lastDc
      ensures Valid() && AllAttempted(blocks, mcu) && reader.insufficientData == old(reader.insufficientData)
      ensures ok ==> AllOutput(blocks, mcu, limits, |mcu|) && Expects(reader, ts, more, pad)
      ensures ok ==> SamePredictions(limits, lastDc, McuLast(pred, mcu))
      ensures ok ==> reader.State()
                            == AfterAll(reader.input, old(reader.State()), Takings(ts, McuItems(lay, pred, mcu)))
      ensures ok ==> forall ci: compNo | limits(ci) == 0 :: lastDc[ci] == old(lastDc)[ci]
      ensures !ok ==> reader.available < |reader.input| && lastDc == old(lastDc)
      ensures !ok ==> reader.State() == old(reader.State())
      ensures !ok ==> Expects(reader, ts, McuItems(lay, pred, mcu) + more, pad)
    {
      hide BitReader.Valid, BitReader.Ahead, BitReader.Marks, BitsOf, BytesToBits, AllBits, TablesOk, Codable,
           AllAttempted, AllOutput, McuOk, McuMatched, UnitsOk, McuItems, McuLast, SamePredictions,
           AfterAll, Takings, OnPlan;
      ghost var before := reader.State();
      var bitstate := reader.Save();
      ghost var rest := reader.rest;
      var state;
      ok, state := DecodeBlocks(cis, blocks, mcu, pred, more, pad);
      if !ok {
        reader.Restore(bitstate, rest);
        return;
      }
      TakenTogether(reader.input, reader.start, reader.plan, ts, McuItems(lay, pred, mcu), more, before,
                    reader.State());
      lastDc := state;
    }

    /** MCU m is next.  What the reader has ahead are the MCUs up to the end of the interval, and behind
        its data stand the other intervals. */
    ghost predicate AtMcu(mcus: seq<Mcu>, datas: seq<seq<byte>>, end: seq<byte>, pl: Place, m: nat)
      requires LayoutOk(lay) && McusOk(mcus) && TablesOk(ts)
      reads reader, `lastDc, `restartsToGo, `nextRestartNum
    {
      && Stands(mcus, datas, pl, m) && reader.tail == Onwards(datas, pl.k, end)
      && Upcoming(mcus[m..pl.e], pl)
    }

    /** The counters agree with the place. */
    ghost predicate Stands(mcus: seq<Mcu>, datas: seq<seq<byte>>, pl: Place, m: nat)
      reads `restartsToGo, `nextRestartNum
    {
      && pl.k < |datas| && pl.s <= m <= pl.e <= |mcus| && pl.e == EndOf(PlanOf(lay), pl.s, |mcus|)
      && Counting(PlanOf(lay), pl.k, pl.s, m, |mcus|, restartsToGo)
      && nextRestartNum == pl.k % 8 && |pl.pad| <= 7
    }

    ghost predicate Upcoming(mcus: seq<Mcu>, pl: Place)
      requires LayoutOk(lay) && TablesOk(ts)
      reads reader, `lastDc
    {
      && McusOk(mcus) && RunOk(lay, pl.last, mcus) && SamePredictions(limits, lastDc, pl.last)
      && Codable(ts, RunItems(lay, pl.last, mcus)) && Expects(reader, ts, RunItems(lay, pl.last, mcus), pl.pad)
    }

    /** Every interval of the scan has its data, and the file goes on with a marker. */
    ghost predicate Delivered(mcus: seq<Mcu>, datas: seq<seq<byte>>, end: seq<byte>)
      requires LayoutOk(lay) && TablesOk(ts)
    {
      datas != [] && HoldFirst(ts, lay, mcus, datas) && LastFrom(PlanOf(lay), |datas| - 1, |mcus|) && MarkerFirst(end)
    }

    /** Throws away the padding and takes the restart marker; if the input runs out, that can go on later. */
    method ProcessRestart(ghost mcus: seq<Mcu>, ghost datas: seq<seq<byte>>, ghost end: seq<byte>, ghost pl: Place,
                          ghost m: nat)
      returns (ok: bool, ghost next: Place)
      requires Valid() && McusOk(mcus) && m < |mcus| && AtMcu(mcus, datas, end, pl, m) && Delivered(mcus, datas, end)
      requires lay.restartInterval != 0 && restartsToGo == 0
      modifies reader`pos, reader`unread, reader`bitsLeft, reader`insufficientData, reader`rest, reader`tail
      modifies reader`start, reader`plan
      modifies `lastDc, `restartsToGo, `nextRestartNum
      ensures Valid() && AtMcu(mcus, datas, end, next, m)
      ensures ok ==> restartsToGo == lay.restartInterval
      ensures !ok ==> reader.available < |reader.input| && restartsToGo == 0
    {
      hide *;
      NextInterval(mcus, datas, end, pl, m);
      ok := TakeMarker(datas[pl.k + 1], Onwards(datas, pl.k + 1, end));
      if !ok {
        next := pl.(pad := []);
        NothingUpcoming(mcus, datas, end, next, m);
        return;
      }
      lastDc := NO_DC;
      restartsToGo := lay.restartInterval;
      nextRestartNum := (nextRestartNum + 1) % 8;
      next := NewInterval(mcus, datas, end, pl.k + 1, m);
    }

    method TakeMarker(ghost data: seq<byte>, ghost rest: seq<byte>) returns (ok: bool)
      requires Valid() && |reader.Ahead()| <= 7 && nextRestartNum < 8
      requires reader.tail == [0xFF, RST0 + nextRestartNum] + (Stuff(data) + rest) && MarkerFirst(rest)
      modifies reader`pos, reader`unread, reader`bitsLeft, reader`insufficientData, reader`rest, reader`tail
      ensures Valid()
      ensures ok ==> reader.Ahead() == BytesToBits(data) && reader.tail == rest
      ensures !ok ==> reader.Ahead() == [] && reader.tail == old(reader.tail) && reader.available < |reader.input|
    {
      ok := reader.TakeRestart(nextRestartNum, data, rest);
    }

    lemma NextInterval(mcus: seq<Mcu>, datas: seq<seq<byte>>, end: seq<byte>, pl: Place, m: nat)
      requires Valid() && McusOk(mcus) && m < |mcus| && AtMcu(mcus, datas, end, pl, m) && Delivered(mcus, datas, end)
      requires lay.restartInterval != 0 && restartsToGo == 0
      ensures TablesOk(ts) && LayoutOk(lay)
      ensures m == pl.e && |reader.Ahead()| <= 7 && pl.k + 1 < |datas| && nextRestartNum == pl.k % 8
      ensures Stands(mcus, datas, pl.(pad := []), m) && reader.tail == Onwards(datas, pl.k, end)
      ensures SamePredictions(limits, lastDc, pl.last)
      ensures reader.tail == [0xFF, RST0 + nextRestartNum] + (Stuff(datas[pl.k + 1]) + Onwards(datas, pl.k + 1, end))
      ensures MarkerFirst(Onwards(datas, pl.k + 1, end))
      ensures Counting(PlanOf(lay), pl.k + 1, m, m, |mcus|, lay.restartInterval)
      ensures Holds(ts, lay, mcus[m..EndOf(PlanOf(lay), m, |mcus|)], datas[pl.k + 1])
    {
      hide BitReader.Valid, BitReader.Ahead, TablesOk, Codable, Stuff, Holds, RunLast, MarkerFirst, SamePredictions,
           Counting, BeginAt;
      var plan := PlanOf(lay);
      IntervalEnds(plan, pl.k, pl.s, m, |mcus|);
      CountingBegin(plan, pl.k + 1, m, m, |mcus|, plan.restart);
      assert mcus[m..pl.e] == [];
      NoBits(ts);
      MarkerBehind(datas, pl.k + 1, end);
      hide EndOf;
      assert Holds(ts, lay, IntervalOf(lay, mcus, pl.k + 1), datas[pl.k + 1]);
    }

    /** At the end of an interval, without its padding, nothing is ahead. */
    ghost method NothingUpcoming(mcus: seq<Mcu>, datas: seq<seq<byte>>, end: seq<byte>, pl: Place, m: nat)
      requires Valid() && LayoutOk(lay) && McusOk(mcus) && Stands(mcus, datas, pl, m) && m == pl.e && pl.pad == []
      requires reader.Ahead() == [] && reader.tail == Onwards(datas, pl.k, end)
               && SamePredictions(limits, lastDc, pl.last)
      modifies reader`start, reader`plan
      ensures Valid() && AtMcu(mcus, datas, end, pl, m)
    {
      hide BitReader.Valid, BitReader.Ahead, TablesOk, SamePredictions, Counting, EndOf, Onwards, AfterAll;
      reader.Follow([]);
      PlanStarts(reader.input, reader.start, []);
      assert mcus[m..pl.e] == [];
      NoBits(ts);
    }

    /** The data of interval k, which starts with MCU s, are ahead. */
    ghost method NewInterval(mcus: seq<Mcu>, datas: seq<seq<byte>>, end: seq<byte>, k: nat, s: nat) returns (pl: Place)
      requires Valid() && LayoutOk(lay) && McusOk(mcus) && s <= |mcus| && k < |datas|
      requires Holds(ts, lay, mcus[s..EndOf(PlanOf(lay), s, |mcus|)], datas[k])
      requires Counting(PlanOf(lay), k, s, s, |mcus|, restartsToGo) && nextRestartNum == k % 8
      requires reader.Ahead() == BytesToBits(datas[k]) && reader.tail == Onwards(datas, k, end) && lastDc == NO_DC
      modifies reader`start, reader`plan
      ensures Valid() && AtMcu(mcus, datas, end, pl, s)
    {
      hide BitReader.Valid, BitReader.Ahead, AfterAll, Takings, OnPlan, TablesOk, Codable, AllBits, BytesToBits, Ones,
           RunOk, RunItems, SamePredictions, Counting, EndOf, Onwards;
      var e := EndOf(PlanOf(lay), s, |mcus|);
      var run := mcus[s..e];
      var pad: nat :| pad <= 7 && BytesToBits(datas[k]) == AllBits(ts, RunItems(lay, NO_DC, run)) + Ones(pad);
      var tks := Takings(ts, RunItems(lay, NO_DC, run));
      reader.Follow(tks);
      PlanStarts(reader.input, reader.start, tks);
      pl := Place(k, s, e, NO_DC, Ones(pad));
      OnesSize(pad);
      NoPredictions(limits, lastDc);
    }

    /** One MCU, and the restart before it if one is due.  Where this stops for want of input, it goes on later. */
    method DecodeNext(cis: seq<compNo>, blocks: seq<array<coef>>, ghost mcus: seq<Mcu>, ghost datas: seq<seq<byte>>,
                      ghost end: seq<byte>, ghost pl: Place, ghost m: nat)
      returns (ok: bool, ghost next: Place)
      requires Valid() && McusOk(mcus) && m < |mcus| && AtMcu(mcus, datas, end, pl, m) && Delivered(mcus, datas, end)
      requires McuMatched(lay, ts, dc, ac, mcus[m]) && AllAttempted(blocks, mcus[m])
      requires |cis| == |mcus[m]| && forall i | 0 <= i < |mcus[m]| :: cis[i] == mcus[m][i].ci
      modifies set i | 0 <= i < |blocks| :: blocks[i]
      modifies reader`pos, reader`unread, reader`getBuffer, reader`bitsLeft, reader`insufficientData, reader`rest,
               reader`tail
      modifies reader`start, reader`plan
      modifies `lastDc, `restartsToGo, `nextRestartNum
      ensures Valid() && AllAttempted(blocks, mcus[m])
      ensures AtMcu(mcus, datas, end, next, if ok then m + 1 else m)
      ensures ok ==> AllOutput(blocks, mcus[m], limits, |mcus[m]|)
      ensures !ok ==> reader.available < |reader.input|
    {
      hide BitReader.Valid, BitReader.Ahead, TablesOk, Codable, Counting, EndOf, AllBits, RunOk, RunItems, RunLast,
           Delivered, Onwards, SamePredictions, AllAttempted, AllOutput, McuMatched, McuOk, McuItems, McuLast, UnitsOk,
           Expects, AfterAll, Takings;
      next := pl;
      if lay.restartInterval != 0 && restartsToGo == 0 {
        ok, next := ProcessRestart(mcus, datas, end, pl, m);
        if !ok {
          return;
        }
      }
      ghost var p := next.last;
      Inside(mcus, datas, end, next, m);
      RunHead(lay, p, mcus, m, next.e);
      ghost var rest := RunItems(lay, McuLast(p, mcus[m]), mcus[m + 1..next.e]);
      CodableAppend(ts, McuItems(lay, p, mcus[m]), rest);
      ghost var toGo := restartsToGo;
      ok := DecodeMcu(cis, blocks, mcus[m], p, rest, next.pad);
      if ok {
        CountMcu(PlanOf(lay), next.k, next.s, m, m + 1, |mcus|, toGo);
        next := next.(last := McuLast(p, mcus[m]));
        if lay.restartInterval != 0 {
          restartsToGo := restartsToGo - 1;
        }
      }
    }

    /** An MCU that is not at the end of its interval. */
    lemma Inside(mcus: seq<Mcu>, datas: seq<seq<byte>>, end: seq<byte>, pl: Place, m: nat)
      requires LayoutOk(lay) && McusOk(mcus) && TablesOk(ts) && m < |mcus| && AtMcu(mcus, datas, end, pl, m)
      requires lay.restartInterval != 0 ==> restartsToGo > 0
      ensures m < pl.e
    {
      hide Upcoming;
      CountMcu(PlanOf(lay), pl.k, pl.s, m, m + 1, |mcus|, restartsToGo);
      WithinInterval(PlanOf(lay), pl.k, pl.s, m + 1, |mcus|,
                     if lay.restartInterval != 0 then restartsToGo - 1 else restartsToGo);
    }

    /** A whole scan with its restart intervals, whatever pieces the input arrives in. */
    method DecodeScan(cis: seq<seq<compNo>>, blocks: seq<seq<array<coef>>>, pieces: seq<nat>,
                      ghost mcus: seq<Mcu>, ghost datas: seq<seq<byte>>, ghost end: seq<byte>)
      requires Valid() && McusOk(mcus) && Delivered(mcus, datas, end)
      requires |cis| == |blocks| == |mcus| && lastDc == NO_DC && restartsToGo == lay.restartInterval
               && nextRestartNum == 0
      requires reader.Ahead() == BytesToBits(datas[0]) && reader.tail == Onwards(datas, 0, end)
      requires forall m | 0 <= m < |mcus| :: |cis[m]| == |mcus[m]|
      requires forall m | 0 <= m < |mcus| :: forall i | 0 <= i < |mcus[m]| :: cis[m][i] == mcus[m][i].ci
      requires forall m | 0 <= m < |mcus| :: McuMatched(lay, ts, dc, ac, mcus[m])
      requires forall m | 0 <= m < |mcus| :: |blocks[m]| == |mcus[m]| && AllAttempted(blocks[m], mcus[m])
      requires AllApart(blocks)
      modifies set m, i | 0 <= m < |blocks| && 0 <= i < |blocks[m]| :: blocks[m][i]
      modifies reader, `lastDc, `restartsToGo, `nextRestartNum
      ensures Valid()
      ensures forall m | 0 <= m < |mcus| :: AllOutput(blocks[m], mcus[m], limits, |mcus[m]|)
    {
      hide BitReader.Valid, BitReader.Ahead, TablesOk, AllAttempted, AllOutput, McuMatched, UnitsOk, AtMcu, Delivered,
           Onwards, BytesToBits, McusOk;
      ghost var pl := FirstPlace(mcus, datas, end);
      var m, piece := 0, 0;
      while m < |blocks|
        invariant m <= |blocks| && piece <= |pieces| && Valid() && AtMcu(mcus, datas, end, pl, m)
        invariant forall n | m <= n < |mcus| :: AllAttempted(blocks[n], mcus[n])
        invariant forall n | 0 <= n < m :: AllOutput(blocks[n], mcus[n], limits, |mcus[n]|)
        decreases |blocks| - m, |pieces| - piece, |reader.input| - reader.available
      {
        var ok;
        ok, pl := DecodeNext(cis[m], blocks[m], mcus, datas, end, pl, m);
        if ok {
          m := m + 1;
        } else {
          var n := |reader.input|;
          if piece < |pieces| {
            n := pieces[piece];
            piece := piece + 1;
          }
          MoreInput(mcus, datas, end, pl, m, n);
        }
      }
    }

    method MoreInput(ghost mcus: seq<Mcu>, ghost datas: seq<seq<byte>>, ghost end: seq<byte>, ghost pl: Place,
                     ghost m: nat, n: nat)
      requires Valid() && McusOk(mcus) && AtMcu(mcus, datas, end, pl, m)
      modifies reader`available
      ensures Valid() && AtMcu(mcus, datas, end, pl, m)
      ensures reader.available == if old(reader.available) + n < |reader.input| then old(reader.available) + n
                                  else |reader.input|
    {
      hide BitReader.Valid, BitReader.Ahead, TablesOk, Codable, Counting, EndOf, AllBits, RunOk, RunItems, Onwards,
           SamePredictions;
      reader.Supply(n);
    }

    ghost method FirstPlace(mcus: seq<Mcu>, datas: seq<seq<byte>>, end: seq<byte>) returns (pl: Place)
      requires Valid() && McusOk(mcus) && Delivered(mcus, datas, end)
      requires lastDc == NO_DC && restartsToGo == lay.restartInterval && nextRestartNum == 0
      requires reader.Ahead() == BytesToBits(datas[0]) && reader.tail == Onwards(datas, 0, end)
      modifies reader`start, reader`plan
      ensures Valid() && AtMcu(mcus, datas, end, pl, 0)
    {
      hide BitReader.Valid, BitReader.Ahead, TablesOk, Codable, Holds, AllBits, Ones, RunOk, RunItems, Onwards,
           SamePredictions, Counting;
      var plan := PlanOf(lay);
      CountingStarts(plan, |mcus|);
      NextStart(plan, 0);
      hide BeginAt;
      var e := EndOf(plan, 0, |mcus|);
      assert Holds(ts, lay, IntervalOf(lay, mcus, 0), datas[0]);
      pl := NewInterval(mcus, datas, end, 0, 0);
    }
  }

  lemma NoPredictions(limits: compNo -> nat, last: Predictions)
    ensures SamePredictions(limits, last, last)
  {
  }

  ghost predicate AllApart(blocks: seq<seq<array<coef>>>) {
    forall m, n, i, j | 0 <= m < n < |blocks| && 0 <= i < |blocks[m]| && 0 <= j < |blocks[n]| ::
      blocks[m][i] != blocks[n][j]
  }
}
