/** A sequential scan with optimised tables, through the bytes of the file, to the decoder. */
module HuffRoundTrip {
  import opened Numbers
  import opened BitStrings
  import opened Stuffing
  import opened RestartIntervals
  import opened ArithModel
  import opened ArithScan
  import opened HuffTable
  import opened HuffDerived
  import opened HuffBitWriter
  import opened HuffBitReader
  import opened HuffBuild
  import opened HuffTree
  import opened HuffItems
  import opened HuffBlocks
  import opened HuffSink
  import opened HuffSource
  import opened HuffSequentialPass
  import opened HuffOptimised
  import opened HuffSequentialDecoder

  /** The decoder's tables for the table numbers in use. */
  method DecoderTables(isDC: bool, tbls: compNo -> tblNo, comps: nat, tables: seq<Table>, ghost es: seq<EncoderTable>)
    returns (ds: seq<DecoderTable>)
    requires comps <= 4 && |tables| == |es| == NUM_HUFF_TBLS
    requires forall ci: compNo | ci < comps :: Encodes(tables[tbls(ci)], es[tbls(ci)])
    requires isDC ==> forall ci: compNo | ci < comps :: Encodable(tables[tbls(ci)], true)
    ensures |ds| == NUM_HUFF_TBLS
    ensures forall ci: compNo | ci < comps :: Matched(es[tbls(ci)], ds[tbls(ci)])
  {
    hide Encodes, Encodable, Decodes;
    ds := seq(NUM_HUFF_TBLS, _ => DecoderTable(Table(seq(17, _ => 0), []), [], [], [], []));
    var ci := 0;
    while ci < comps
      invariant ci <= comps && |ds| == NUM_HUFF_TBLS
      invariant forall c: compNo | c < ci :: Matched(es[tbls(c)], ds[tbls(c)])
    {
      var t := tables[tbls(ci)];
      EncodesOk(t, es[tbls(ci)]);
      if isDC {
        EncodableOk(t, true);
      }
      AcceptedToo(t, isDC);
      var ok, d := MakeDecoderTable(t, isDC);
      SameTable(t, d);
      ds := ds[tbls(ci) := d];
      ci := ci + 1;
    }
  }

  lemma EncodesOk(t: Table, e: EncoderTable)
    requires Encodes(t, e)
    ensures TableOk(t) && Legal(t.bits)
  {
  }

  /** The decoder accepts what the encoder accepts. */
  lemma AcceptedToo(t: Table, isDC: bool)
    requires TableOk(t) && Legal(t.bits) && (isDC ==> Encodable(t, true))
    ensures Legal(t.bits) && (isDC ==> SymbolsBelow(t, MAX_DC_SYMBOL))
  {
  }

  lemma SameTable(t: Table, d: DecoderTable)
    requires Decodes(t, d)
    ensures d.pub == t && Decodes(d.pub, d)
  {
  }

  /** Each component of the MCUs has its tables on both sides. */
  lemma AllMatched(lay: Layout, comps: nat, ts: Tables, dc: seq<DecoderTable>, ac: seq<DecoderTable>, mcu: Mcu)
    requires TablesOk(ts) && |dc| == |ac| == NUM_HUFF_TBLS && comps <= 4 && OfComps(mcu, comps)
    requires |ts.dc| == |ts.ac| == NUM_HUFF_TBLS
    requires forall ci: compNo | ci < comps :: Matched(ts.dc[lay.dcTbl(ci)], dc[lay.dcTbl(ci)])
    requires forall ci: compNo | ci < comps :: Matched(ts.ac[lay.acTbl(ci)], ac[lay.acTbl(ci)])
    ensures McuMatched(lay, ts, dc, ac, mcu)
  {
    hide Matched;
  }

  /** The last byte of a sequential pass is completed, and a marker follows: every interval of the scan is in
      the file, and the reader has the first one ahead. */
  method FinishIntervals(pass: SequentialPass, tail: seq<byte>, ghost mcus: seq<Mcu>, ghost datas: seq<seq<byte>>)
    returns (reader: BitReader, bytes: seq<byte>, ghost all: seq<seq<byte>>)
    requires pass.Valid() && !pass.sink.gather && MarkerFirst(tail) && McusOk(mcus) && TablesOk(pass.sink.tables)
    requires pass.Finished(mcus, datas)
    modifies pass.sink.writer
    ensures fresh(reader) && reader.Valid() && all != []
    ensures HoldFirst(pass.sink.tables, pass.lay, mcus, all) && LastFrom(PlanOf(pass.lay), |all| - 1, |mcus|)
    ensures reader.Ahead() == BytesToBits(all[0]) && reader.tail == Onwards(all, 0, tail)
    ensures bytes == Front(all[..|all| - 1]) + Stuff(all[|all| - 1]) && reader.input == bytes + tail
    ensures forall i | 0 <= i < |bytes| && bytes[i] == 0xFF ::
              i + 1 < |bytes| && MayFollow(bytes[i + 1], pass.lay.restartInterval != 0)
  {
    hide AllBits, BytesToBits, Ones, HeldBits, Held, Occurrences, TablesOk, Codable, MarkerFirst, Stuff, Front,
         RunItems, RunOk, RunLast, HoldFirst, Holds, LastFrom, Onwards, SoFar, Counting;
    ghost var s: nat :| SoFar(pass.sink.tables, pass.lay, mcus, datas, s, |mcus|, pass.Fields());
    ghost var wr := pass.Fields();
    pass.sink.ValidTables();
    ghost var pad := pass.sink.writer.FlushBits();
    bytes := pass.sink.writer.output;
    ghost var data := pass.sink.writer.emitted;
    all := datas + [data];
    LastHolds(pass.sink.tables, pass.lay, mcus, datas, s, wr, data, pad);
    FromFirst(datas, data, tail);
    IntervalMarkers(datas, data);
    MarkerBehind(all, 0, tail);
    reader := new BitReader(bytes + tail, all[0], Onwards(all, 0, tail));
  }

  /** The file, from its end and from its front. */
  lemma FromFirst(datas: seq<seq<byte>>, data: seq<byte>, tail: seq<byte>)
    ensures var all := datas + [data];
            && all[..|datas|] == datas
            && Stuff(all[0]) + Onwards(all, 0, tail) == Front(datas) + Stuff(data) + tail
  {
    var all := datas + [data];
    assert all[..|datas|] == datas && all[..0] == [];
    FromInterval(all, 0, tail);
    assert Front([]) == [];
    hide Front, Stuff, Onwards;
    assert [] + (Stuff(all[0]) + Onwards(all, 0, tail)) == Stuff(all[0]) + Onwards(all, 0, tail);
    assert Front(datas) + (Stuff(data) + tail) == Front(datas) + Stuff(data) + tail;
  }

  lemma LastHolds(ts: Tables, lay: Layout, mcus: seq<Mcu>, datas: seq<seq<byte>>, s: nat, wr: Written, data: seq<byte>,
                  pad: nat)
    requires LayoutOk(lay) && TablesOk(ts) && McusOk(mcus) && SoFar(ts, lay, mcus, datas, s, |mcus|, wr)
    requires Codable(ts, wr.log) && pad <= 7 && BytesToBits(data) == AllBits(ts, wr.log) + Ones(pad)
    ensures wr.header == Front(datas) && (lay.restartInterval == 0 ==> datas == [])
    ensures HoldFirst(ts, lay, mcus, datas + [data]) && LastFrom(PlanOf(lay), |datas|, |mcus|)
  {
    hide AllBits, BytesToBits, Ones, TablesOk, Codable, Front, RunItems, RunOk, RunLast, HoldFirst, BeginAt, EndOf;
    CountingEnds(PlanOf(lay), |datas|, s, |mcus|, wr.at.toGo);
    hide Counting;
    SliceOk(mcus, s, |mcus|);
    assert IntervalOf(lay, mcus, |datas|) == mcus[s..|mcus|];
    assert Holds(ts, lay, mcus[s..|mcus|], data);
    HoldSnoc(ts, lay, mcus, datas, data);
  }

  /** Restart markers stand between the intervals, and no marker anywhere else. */
  lemma IntervalMarkers(datas: seq<seq<byte>>, data: seq<byte>)
    ensures var bytes := Front(datas) + Stuff(data);
            forall i | 0 <= i < |bytes| && bytes[i] == 0xFF :: i + 1 < |bytes| && MayFollow(bytes[i + 1], datas != [])
  {
    hide Stuff, Front;
    var front, bytes := Front(datas), Front(datas) + Stuff(data);
    forall i | 0 <= i < |bytes| && bytes[i] == 0xFF ensures i + 1 < |bytes| && MayFollow(bytes[i + 1], datas != []) {
      if i < |front| {
        FrontMarkers(datas, i);
      } else {
        StuffHasNoMarker(data, i - |front|);
      }
    }
  }

  /** Every block of a scan is restored, however its bytes are delivered. */
  method TransmitSequential(lay: Layout, comps: nat, mcus: seq<Mcu>, limits: compNo -> nat, tail: seq<byte>,
                            pieces: seq<nat>, cis: seq<seq<compNo>>, blocks: seq<seq<array<coef>>>)
    returns (o: Outcome)
    requires lay.se == 63 && McusOk(mcus) && comps <= 4 && MarkerFirst(tail)
    requires HasComps(mcus, comps) && forall m | 0 <= m < |mcus| :: OfComps(mcus[m], comps)
    requires AllMcusOk(lay, Begin(lay), mcus) ==> |ScanItems(lay, Begin(lay), mcus)| < SEARCH_LIMIT
    requires forall ci: compNo :: limits(ci) <= 64
    requires |cis| == |blocks| == |mcus|
    requires forall m | 0 <= m < |mcus| :: |cis[m]| == |mcus[m]|
    requires forall m | 0 <= m < |mcus| :: forall i | 0 <= i < |mcus[m]| :: cis[m][i] == mcus[m][i].ci
    requires forall m | 0 <= m < |mcus| :: |blocks[m]| == |mcus[m]| && AllAttempted(blocks[m], mcus[m])
    requires AllApart(blocks)
    modifies set m, i | 0 <= m < |blocks| && 0 <= i < |blocks[m]| :: blocks[m][i]
    ensures o.BadCoefficient? <==> !AllMcusOk(lay, Begin(lay), mcus)
    ensures o.CodeTooLong? <==> AllMcusOk(lay, Begin(lay), mcus)
                                && SomeTooDeep(lay, comps, ScanItems(lay, Begin(lay), mcus))
    ensures AllMcusOk(lay, Begin(lay), mcus) && |ScanItems(lay, Begin(lay), mcus)| + 1 < DEEP_TOTAL ==> o.Done?
    ensures o.Done? ==> forall m | 0 <= m < |mcus| :: AllOutput(blocks[m], mcus[m], limits, |mcus[m]|)
  {
    hide AllAttempted, AllOutput, AllMcusOk, ScanItems, McusOk, HasComps, OfComps, Encodes, Encodable, Matched,
         SomeTooDeep, BitReader.Valid, BitReader.Ahead, Sink.Valid, Codable, Expects, McuMatched, MarkerFirst, TablesOk,
         SequentialPass.Finished, HoldFirst, LastFrom, Onwards, Front, Stuff, BytesToBits;
    var pass, dc, ac;
    ghost var datas, all;
    o, pass, dc, ac, datas := OptimisedScan(lay, comps, mcus);
    if !o.Done? {
      return;
    }
    ghost var ts := pass.sink.tables;
    var reader, bytes;
    reader, bytes, all := FinishIntervals(pass, tail, mcus, datas);
    SizesOf(ts);
    var dcs := DecoderTables(true, lay.dcTbl, comps, dc, ts.dc);
    var acs := DecoderTables(false, lay.acTbl, comps, ac, ts.ac);
    forall m | 0 <= m < |mcus| ensures McuMatched(lay, ts, dcs, acs, mcus[m]) {
      AllMatched(lay, comps, ts, dcs, acs, mcus[m]);
    }
    var decoder := new SequentialDecoder(reader, lay, dcs, acs, limits, ts);
    hide SequentialDecoder.Valid;
    decoder.DecodeScan(cis, blocks, pieces, mcus, all, tail);
  }
}
