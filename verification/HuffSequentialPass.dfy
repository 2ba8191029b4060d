/** A sequential scan, MCU by MCU, with restart intervals: the output pass and the statistics pass. */
module HuffSequentialPass {
  import opened Numbers
  import opened BitStrings
  import opened Stuffing
  import opened RestartIntervals
  import opened HuffBitWriter
  import opened ArithModel
  import opened ArithScan
  import opened HuffItems
  import opened HuffBlocks
  import opened HuffSink
  import opened HuffSequential

  /** The tables of each component in the scan, the last coefficient, and MCUs per restart interval (or 0). */
  datatype Layout = Layout(dcTbl: compNo -> tblNo, acTbl: compNo -> tblNo, se: nat, restartInterval: nat)

  type Mcu = seq<Unit>

  const NO_DC: Predictions := [0, 0, 0, 0]

  ghost predicate LayoutOk(lay: Layout) {
    lay.se < 64
  }

  ghost predicate McusOk(mcus: seq<Mcu>) {
    forall i | 0 <= i < |mcus| :: UnitsOk(mcus[i])
  }

  /** All blocks of an MCU can be coded. */
  ghost predicate McuOk(lay: Layout, last: Predictions, mcu: Mcu)
    requires LayoutOk(lay) && UnitsOk(mcu)
    decreases |mcu|
  {
    mcu == []
    || (&& BlockOk(mcu[0].b, last[mcu[0].ci], lay.se)
        && McuOk(lay, last[mcu[0].ci := mcu[0].b[0]], mcu[1..]))
  }

  ghost function McuItems(lay: Layout, last: Predictions, mcu: Mcu): (items: seq<Item>)
    requires LayoutOk(lay) && UnitsOk(mcu) && McuOk(lay, last, mcu)
    decreases |mcu|
  {
    if mcu == [] then []
    else
      var u := mcu[0];
      BlockItems(lay.dcTbl(u.ci), lay.acTbl(u.ci), u.b, last[u.ci], lay.se)
      + McuItems(lay, last[u.ci := u.b[0]], mcu[1..])
  }

  ghost function McuLast(last: Predictions, mcu: Mcu): (r: Predictions)
    requires UnitsOk(mcu)
    decreases |mcu|
  {
    if mcu == [] then last else McuLast(last[mcu[0].ci := mcu[0].b[0]], mcu[1..])
  }

  /** Where a pass is: the DC predictions, and MCUs left in the restart interval. */
  datatype Progress = Progress(last: Predictions, toGo: nat)

  ghost function Begin(lay: Layout): Progress {
    Progress(NO_DC, lay.restartInterval)
  }

  predicate Restarting(lay: Layout, pr: Progress) {
    lay.restartInterval != 0 && pr.toGo == 0
  }

  function LastFor(lay: Layout, pr: Progress): Predictions {
    if Restarting(lay, pr) then NO_DC else pr.last
  }

  ghost function Onward(lay: Layout, pr: Progress, mcu: Mcu): Progress
    requires UnitsOk(mcu)
  {
    Progress(McuLast(LastFor(lay, pr), mcu),
             if lay.restartInterval == 0 then pr.toGo
             else (if pr.toGo == 0 then lay.restartInterval else pr.toGo) - 1)
  }

  ghost predicate AllMcusOk(lay: Layout, pr: Progress, mcus: seq<Mcu>)
    requires LayoutOk(lay) && McusOk(mcus)
    decreases |mcus|
  {
    mcus == []
    || (McuOk(lay, LastFor(lay, pr), mcus[0]) && AllMcusOk(lay, Onward(lay, pr, mcus[0]), mcus[1..]))
  }

  /** All items of a scan, whatever the restart intervals. */
  ghost function ScanItems(lay: Layout, pr: Progress, mcus: seq<Mcu>): (items: seq<Item>)
    requires LayoutOk(lay) && McusOk(mcus) && AllMcusOk(lay, pr, mcus)
    decreases |mcus|
  {
    if mcus == [] then []
    else McuItems(lay, LastFor(lay, pr), mcus[0]) + ScanItems(lay, Onward(lay, pr, mcus[0]), mcus[1..])
  }

  lemma FirstMcu(lay: Layout, pr: Progress, mcus: seq<Mcu>, i: nat)
    requires LayoutOk(lay) && McusOk(mcus) && i < |mcus|
    ensures McusOk(mcus[i..]) && McusOk(mcus[i + 1..]) && UnitsOk(mcus[i])
    ensures AllMcusOk(lay, pr, mcus[i..])
            <==> McuOk(lay, LastFor(lay, pr), mcus[i]) && AllMcusOk(lay, Onward(lay, pr, mcus[i]), mcus[i + 1..])
    ensures AllMcusOk(lay, pr, mcus[i..]) ==>
              ScanItems(lay, pr, mcus[i..])
              == McuItems(lay, LastFor(lay, pr), mcus[i]) + ScanItems(lay, Onward(lay, pr, mcus[i]), mcus[i + 1..])
  {
    hide McuOk, McuItems, UnitsOk, LastFor, Onward;
    assert mcus[i..][1..] == mcus[i + 1..];
  }

  lemma NoMcus(lay: Layout, pr: Progress, mcus: seq<Mcu>)
    requires LayoutOk(lay) && mcus == []
    ensures AllMcusOk(lay, pr, mcus) && ScanItems(lay, pr, mcus) == []
  {
  }

  // ----- Restart intervals -----

  /** MCUs that are coded together; the predictions run on from last. */
  ghost predicate RunOk(lay: Layout, last: Predictions, mcus: seq<Mcu>)
    requires LayoutOk(lay) && McusOk(mcus)
    decreases |mcus|
  {
    mcus == [] || (McuOk(lay, last, mcus[0]) && RunOk(lay, McuLast(last, mcus[0]), mcus[1..]))
  }

  ghost function RunItems(lay: Layout, last: Predictions, mcus: seq<Mcu>): (items: seq<Item>)
    requires LayoutOk(lay) && McusOk(mcus) && RunOk(lay, last, mcus)
    decreases |mcus|
  {
    if mcus == [] then []
    else McuItems(lay, last, mcus[0]) + RunItems(lay, McuLast(last, mcus[0]), mcus[1..])
  }

  ghost function RunLast(last: Predictions, mcus: seq<Mcu>): (r: Predictions)
    requires McusOk(mcus)
    decreases |mcus|
  {
    if mcus == [] then last else RunLast(McuLast(last, mcus[0]), mcus[1..])
  }

  lemma {:induction false} RunSnoc(lay: Layout, last: Predictions, mcus: seq<Mcu>, mcu: Mcu)
    requires LayoutOk(lay) && McusOk(mcus) && RunOk(lay, last, mcus) && McusOk(mcus + [mcu])
    requires UnitsOk(mcu) && McuOk(lay, RunLast(last, mcus), mcu)
    ensures RunOk(lay, last, mcus + [mcu])
    ensures RunItems(lay, last, mcus + [mcu]) == RunItems(lay, last, mcus) + McuItems(lay, RunLast(last, mcus), mcu)
    ensures RunLast(last, mcus + [mcu]) == McuLast(RunLast(last, mcus), mcu)
    decreases |mcus|
  {
    hide McuOk, McuItems, McuLast, UnitsOk;
    var all := mcus + [mcu];
    if mcus == [] {
      assert all[1..] == [];
    } else {
      assert all[1..] == mcus[1..] + [mcu];
      RunSnoc(lay, McuLast(last, mcus[0]), mcus[1..], mcu);
    }
  }

  /** The data are the items of these MCUs, with predictions that start at zero, and padding. */
  ghost predicate Holds(ts: Tables, lay: Layout, mcus: seq<Mcu>, data: seq<byte>)
    requires LayoutOk(lay) && TablesOk(ts)
  {
    && McusOk(mcus) && RunOk(lay, NO_DC, mcus) && Codable(ts, RunItems(lay, NO_DC, mcus))
    && exists pad: nat :: pad <= 7 && BytesToBits(data) == AllBits(ts, RunItems(lay, NO_DC, mcus)) + Ones(pad)
  }

  ghost function PlanOf(lay: Layout): (pl: Plan) {
    Plan(1, lay.restartInterval)
  }

  /** MCUs of interval k of a scan. */
  ghost function IntervalOf(lay: Layout, mcus: seq<Mcu>, k: nat): (r: seq<Mcu>)
    requires BeginAt(PlanOf(lay), k) <= |mcus|
  {
    var s := BeginAt(PlanOf(lay), k);
    mcus[s..EndOf(PlanOf(lay), s, |mcus|)]
  }

  /** The data of the first intervals of a scan. */
  ghost predicate HoldFirst(ts: Tables, lay: Layout, mcus: seq<Mcu>, datas: seq<seq<byte>>)
    requires LayoutOk(lay) && TablesOk(ts)
  {
    forall k | 0 <= k < |datas| ::
      BeginAt(PlanOf(lay), k) <= |mcus| && Holds(ts, lay, IntervalOf(lay, mcus, k), datas[k])
  }

  lemma HoldSnoc(ts: Tables, lay: Layout, mcus: seq<Mcu>, datas: seq<seq<byte>>, data: seq<byte>)
    requires LayoutOk(lay) && TablesOk(ts) && HoldFirst(ts, lay, mcus, datas)
    requires BeginAt(PlanOf(lay), |datas|) <= |mcus| && Holds(ts, lay, IntervalOf(lay, mcus, |datas|), data)
    ensures HoldFirst(ts, lay, mcus, datas + [data])
  {
    hide Holds, IntervalOf, BeginAt, TablesOk;
    var all := datas + [data];
    forall k | 0 <= k < |all|
      ensures BeginAt(PlanOf(lay), k) <= |mcus| && Holds(ts, lay, IntervalOf(lay, mcus, k), all[k])
    {
      assert k < |datas| ==> all[k] == datas[k];
    }
  }

  /** Where an output pass is, in its fields and in its bytes, at MCU i of the interval that starts at s. */
  datatype Written = Written(log: seq<Item>, at: Progress, num: nat, header: seq<byte>)

  ghost predicate SoFar(ts: Tables, lay: Layout, mcus: seq<Mcu>, datas: seq<seq<byte>>, s: nat, i: nat, wr: Written)
    requires LayoutOk(lay) && TablesOk(ts) && McusOk(mcus)
  {
    && Counting(PlanOf(lay), |datas|, s, i, |mcus|, wr.at.toGo)
    && wr.num == |datas| % 8 && wr.header == Front(datas) && HoldFirst(ts, lay, mcus, datas)
    && RunOk(lay, NO_DC, mcus[s..i]) && wr.log == RunItems(lay, NO_DC, mcus[s..i])
    && wr.at.last == RunLast(NO_DC, mcus[s..i])
  }

  lemma SoFarStart(ts: Tables, lay: Layout, mcus: seq<Mcu>, wr: Written)
    requires LayoutOk(lay) && TablesOk(ts) && McusOk(mcus) && wr == Written([], Begin(lay), 0, [])
    ensures SoFar(ts, lay, mcus, [], 0, 0, wr)
  {
    CountingStarts(PlanOf(lay), |mcus|);
  }

  /** The interval is complete, and its data are written. */
  lemma SoFarRestart(ts: Tables, lay: Layout, mcus: seq<Mcu>, datas: seq<seq<byte>>, s: nat, i: nat, wr: Written,
                     data: seq<byte>, pad: nat)
    requires LayoutOk(lay) && TablesOk(ts) && McusOk(mcus) && i < |mcus|
    requires SoFar(ts, lay, mcus, datas, s, i, wr) && Restarting(lay, wr.at)
    requires Codable(ts, wr.log) && pad <= 7 && BytesToBits(data) == AllBits(ts, wr.log) + Ones(pad)
    ensures SoFar(ts, lay, mcus, datas + [data], i, i,
                  Written([], Begin(lay), (wr.num + 1) % 8, wr.header + Stuff(data) + RestartMarker(wr.num)))
  {
    hide BytesToBits, AllBits, Ones, Stuff, Codable, TablesOk, Front, HoldFirst, BeginAt, EndOf, RunItems, RunOk,
         RunLast;
    IntervalEnds(PlanOf(lay), |datas|, s, i, |mcus|);
    CountingBegin(PlanOf(lay), |datas|, s, i, |mcus|, 0);
    hide Counting;
    assert IntervalOf(lay, mcus, |datas|) == mcus[s..i];
    SliceOk(mcus, s, i);
    assert Holds(ts, lay, mcus[s..i], data);
    HoldSnoc(ts, lay, mcus, datas, data);
    FrontSnoc(datas, data);
    assert mcus[i..i] == [];
    NoRun(lay);
  }

  lemma NoRun(lay: Layout)
    requires LayoutOk(lay)
    ensures McusOk([]) && RunOk(lay, NO_DC, []) && RunItems(lay, NO_DC, []) == [] && RunLast(NO_DC, []) == NO_DC
  {
  }

  lemma SliceOk(mcus: seq<Mcu>, s: nat, i: nat)
    requires McusOk(mcus) && s <= i <= |mcus|
    ensures McusOk(mcus[s..i])
  {
  }

  /** One MCU more in the same interval. */
  lemma SoFarMore(ts: Tables, lay: Layout, mcus: seq<Mcu>, datas: seq<seq<byte>>, s: nat, i: nat, wr: Written)
    requires LayoutOk(lay) && TablesOk(ts) && McusOk(mcus) && i < |mcus|
    requires SoFar(ts, lay, mcus, datas, s, i, wr) && !Restarting(lay, wr.at) && McuOk(lay, wr.at.last, mcus[i])
    ensures SoFar(ts, lay, mcus, datas, s, i + 1,
                  Written(wr.log + McuItems(lay, wr.at.last, mcus[i]), Onward(lay, wr.at, mcus[i]), wr.num, wr.header))
  {
    hide TablesOk, Front, HoldFirst, McuOk, McuItems, McuLast, UnitsOk;
    CountMcu(PlanOf(lay), |datas|, s, i, i + 1, |mcus|, wr.at.toGo);
    hide Counting;
    assert mcus[s..i + 1] == mcus[s..i] + [mcus[i]];
    RunSnoc(lay, NO_DC, mcus[s..i], mcus[i]);
  }

  class SequentialPass {
    const sink: Sink
    const lay: Layout
    var lastDc: Predictions
    var restartsToGo: nat
    var nextRestartNum: nat

    constructor (sink: Sink, lay: Layout)
      requires sink.Valid() && LayoutOk(lay)
      ensures Valid() && Now() == Begin(lay) && this.sink == sink && this.lay == lay && nextRestartNum == 0
    {
      this.sink, this.lay, lastDc := sink, lay, NO_DC;
      restartsToGo, nextRestartNum := lay.restartInterval, 0;
    }

    ghost predicate Valid()
      reads `nextRestartNum, sink`log, sink`past, sink.writer, sink.dcCounts, sink.acCounts
    {
      LayoutOk(lay) && nextRestartNum <= 7 && sink.Valid()
    }

    function Now(): Progress
      reads `lastDc, `restartsToGo
    {
      Progress(lastDc, restartsToGo)
    }

    ghost function Total(): seq<Item>
      reads sink`past, sink`log
    {
      sink.past + sink.log
    }

    /** The blocks of an MCU, to the file. */
    method EncodeBlocks(mcu: Mcu) returns (ok: bool)
      requires Valid() && !sink.gather && UnitsOk(mcu)
      modifies `lastDc, sink`log, sink.writer, sink.dcCounts, sink.acCounts
      ensures sink.writer.header == old(sink.writer.header)
      ensures ok ==> Valid() && sink.past == old(sink.past) && McuOk(lay, old(lastDc), mcu)
                     && sink.log == old(sink.log) + McuItems(lay, old(lastDc), mcu)
                     && lastDc == McuLast(old(lastDc), mcu)
      ensures !ok && McuOk(lay, old(lastDc), mcu) ==>
                TablesOk(sink.tables) && !Codable(sink.tables, McuItems(lay, old(lastDc), mcu))
    {
      hide Sink.Valid, TablesOk, Codable, BlockItems, BlockOk, InRange, Leads;
      ghost var last0 := lastDc;
      ghost var small := McuOk(lay, lastDc, mcu);
      ghost var goal := if small then sink.log + McuItems(lay, lastDc, mcu) else [];
      sink.ValidTables();
      if small {
        CodableAppend(sink.tables, sink.log, McuItems(lay, lastDc, mcu));
        Start(sink.log, McuItems(lay, lastDc, mcu));
      }
      var blkn := 0;
      assert mcu[0..] == mcu;
      while blkn < |mcu|
        invariant blkn <= |mcu| && Valid() && sink.past == old(sink.past)
                  && sink.writer.header == old(sink.writer.header)
        invariant McuOk(lay, lastDc, mcu[blkn..]) <==> small
        invariant McuLast(lastDc, mcu[blkn..]) == McuLast(last0, mcu)
        invariant small ==> Leads(sink.log, McuItems(lay, lastDc, mcu[blkn..]), goal)
      {
        assert mcu[blkn..][1..] == mcu[blkn + 1..];
        var ci, b := mcu[blkn].ci, mcu[blkn].b;
        ghost var log, last := sink.log, lastDc;
        ok := EncodeOneBlock(sink, lay.dcTbl(ci), lay.acTbl(ci), b, lastDc[ci], lay.se);
        CoefInRange(b, 0);
        if small {
          var items := BlockItems(lay.dcTbl(ci), lay.acTbl(ci), b, last[ci], lay.se);
          var rest := McuItems(lay, last[ci := b[0]], mcu[blkn + 1..]);
          if ok {
            Advance(log, items, rest, goal);
          } else {
            Blocked(sink.tables, log, items, rest, goal);
          }
        }
        if !ok {
          return;
        }
        lastDc := lastDc[ci := b[0]];
        blkn := blkn + 1;
      }
      Arrived(sink.log, [], goal);
      ok := true;
    }

    /** One MCU of the output pass. */
    method EncodeMcu(mcu: Mcu) returns (ok: bool, ghost bytes: seq<byte>, ghost pad: nat)
      requires Valid() && !sink.gather && UnitsOk(mcu)
      modifies `lastDc, `restartsToGo, `nextRestartNum, sink`log, sink`past, sink.writer, sink.dcCounts, sink.acCounts
      ensures ok ==> Valid() && McuOk(lay, LastFor(lay, old(Now())), mcu) && Now() == Onward(lay, old(Now()), mcu)
      ensures ok ==> Total() == old(Total()) + McuItems(lay, LastFor(lay, old(Now())), mcu)
      ensures ok && !Restarting(lay, old(Now())) ==>
                && nextRestartNum == old(nextRestartNum) && sink.past == old(sink.past)
                && sink.writer.header == old(sink.writer.header)
                && sink.log == old(sink.log) + McuItems(lay, LastFor(lay, old(Now())), mcu)
      ensures ok && Restarting(lay, old(Now())) ==>
                && nextRestartNum == (old(nextRestartNum) + 1) % 8
                && pad <= 7 && TablesOk(sink.tables)
                && BytesToBits(bytes) == AllBits(sink.tables, old(sink.log)) + Ones(pad)
                && sink.writer.header == old(sink.writer.header) + Stuff(bytes) + [0xFF, RST0 + old(nextRestartNum)]
                && sink.log == McuItems(lay, LastFor(lay, old(Now())), mcu)
      ensures !ok && McuOk(lay, LastFor(lay, old(Now())), mcu) ==>
                TablesOk(sink.tables) && !Codable(sink.tables, McuItems(lay, LastFor(lay, old(Now())), mcu))
    {
      hide Sink.Valid, TablesOk, Codable, McuOk, McuItems, McuLast, AllBits, BytesToBits, Stuff, Ones;
      sink.ValidTables();
      bytes, pad := [], 0;
      if lay.restartInterval != 0 && restartsToGo == 0 {
        bytes, pad := sink.Restart(nextRestartNum);
        lastDc := NO_DC;
      }
      ghost var log, past := sink.log, sink.past;
      ok := EncodeBlocks(mcu);
      if !ok {
        return;
      }
      TotalMore(past, log, McuItems(lay, LastFor(lay, old(Now())), mcu));
      if lay.restartInterval != 0 {
        if restartsToGo == 0 {
          restartsToGo := lay.restartInterval;
          nextRestartNum := (nextRestartNum + 1) % 8;
        }
        restartsToGo := restartsToGo - 1;
      }
    }

    /** The blocks of an MCU, for the statistics. */
    method TestBlocks(mcu: Mcu) returns (ok: bool)
      requires Valid() && sink.gather && UnitsOk(mcu)
      modifies `lastDc, sink`log, sink.dcCounts, sink.acCounts
      ensures ok <==> McuOk(lay, old(lastDc), mcu)
      ensures ok ==> Valid() && sink.past == old(sink.past)
                     && sink.log == old(sink.log) + McuItems(lay, old(lastDc), mcu)
                     && lastDc == McuLast(old(lastDc), mcu)
    {
      hide Sink.Valid, BlockItems, BlockOk, InRange, Leads;
      ghost var last0 := lastDc;
      ghost var small := McuOk(lay, lastDc, mcu);
      ghost var goal := if small then sink.log + McuItems(lay, lastDc, mcu) else [];
      if small {
        Start(sink.log, McuItems(lay, lastDc, mcu));
      }
      var blkn := 0;
      assert mcu[0..] == mcu;
      while blkn < |mcu|
        invariant blkn <= |mcu| && Valid() && sink.past == old(sink.past)
        invariant McuOk(lay, lastDc, mcu[blkn..]) <==> small
        invariant McuLast(lastDc, mcu[blkn..]) == McuLast(last0, mcu)
        invariant small ==> Leads(sink.log, McuItems(lay, lastDc, mcu[blkn..]), goal)
      {
        assert mcu[blkn..][1..] == mcu[blkn + 1..];
        var ci, b := mcu[blkn].ci, mcu[blkn].b;
        ghost var log, last := sink.log, lastDc;
        ok := TestOneBlock(sink, lay.dcTbl(ci), lay.acTbl(ci), b, lastDc[ci], lay.se);
        if !ok {
          return;
        }
        CoefInRange(b, 0);
        if small {
          var items := BlockItems(lay.dcTbl(ci), lay.acTbl(ci), b, last[ci], lay.se);
          Advance(log, items, McuItems(lay, last[ci := b[0]], mcu[blkn + 1..]), goal);
        }
        lastDc := lastDc[ci := b[0]];
        blkn := blkn + 1;
      }
      Arrived(sink.log, [], goal);
      ok := true;
    }

    /** One MCU of the statistics pass. */
    method GatherMcu(mcu: Mcu) returns (ok: bool)
      requires Valid() && sink.gather && UnitsOk(mcu)
      modifies `lastDc, `restartsToGo, sink`log, sink.dcCounts, sink.acCounts
      ensures ok <==> McuOk(lay, LastFor(lay, old(Now())), mcu)
      ensures ok ==> Valid() && Now() == Onward(lay, old(Now()), mcu)
      ensures ok ==> Total() == old(Total()) + McuItems(lay, LastFor(lay, old(Now())), mcu)
    {
      hide Sink.Valid, McuOk, McuItems, McuLast;
      if lay.restartInterval != 0 {
        if restartsToGo == 0 {
          lastDc := NO_DC;
          restartsToGo := lay.restartInterval;
        }
        restartsToGo := restartsToGo - 1;
      }
      ghost var log, past := sink.log, sink.past;
      ok := TestBlocks(mcu);
      if ok {
        TotalMore(past, log, McuItems(lay, LastFor(lay, old(Now())), mcu));
      }
    }

    ghost function Fields(): (wr: Written)
      reads `lastDc, `restartsToGo, `nextRestartNum, sink`log, sink.writer`header
    {
      Written(sink.log, Now(), nextRestartNum, sink.writer.header)
    }

    /** A whole output pass up to its last MCU.  The complete restart intervals have the data datas. */
    method EncodeScan(mcus: seq<Mcu>) returns (ok: bool, ghost datas: seq<seq<byte>>)
      requires Valid() && !sink.gather && McusOk(mcus)
      requires Fields() == Written([], Begin(lay), 0, []) && sink.past == []
      modifies `lastDc, `restartsToGo, `nextRestartNum, sink`log, sink`past, sink.writer, sink.dcCounts, sink.acCounts
      ensures ok ==> Valid() && AllMcusOk(lay, Begin(lay), mcus)
      ensures ok ==> Total() == ScanItems(lay, Begin(lay), mcus)
      ensures ok ==> Finished(mcus, datas)
      ensures !ok && AllMcusOk(lay, Begin(lay), mcus) ==>
                TablesOk(sink.tables) && !Codable(sink.tables, ScanItems(lay, Begin(lay), mcus))
    {
      hide Sink.Valid, TablesOk, Codable, McuOk, McuItems, McuLast, UnitsOk, Leads, LastFor, Onward, SoFar, Restarting,
           AllMcusOk, ScanItems;
      ghost var small := AllMcusOk(lay, Now(), mcus);
      ghost var goal := if small then Total() + ScanItems(lay, Now(), mcus) else [];
      ghost var s: nat := 0;
      datas := [];
      sink.ValidTables();
      if small {
        CodableAppend(sink.tables, Total(), ScanItems(lay, Now(), mcus));
        Start(Total(), ScanItems(lay, Now(), mcus));
      }
      SoFarStart(sink.tables, lay, mcus, Fields());
      assert Total() == []
             && (small ==> goal == [] + ScanItems(lay, Begin(lay), mcus) == ScanItems(lay, Begin(lay), mcus));
      var i := 0;
      assert mcus[0..] == mcus;
      while i < |mcus|
        invariant i <= |mcus| && Valid()
        invariant AllMcusOk(lay, Now(), mcus[i..]) <==> small
        invariant small ==> Leads(Total(), ScanItems(lay, Now(), mcus[i..]), goal)
        invariant SoFar(sink.tables, lay, mcus, datas, s, i, Fields())
      {
        ghost var total, pr := Total(), Now();
        FirstMcu(lay, pr, mcus, i);
        ok, datas, s := EncodeNext(mcus, i, datas, s);
        if small {
          var items := McuItems(lay, LastFor(lay, pr), mcus[i]);
          var rest := ScanItems(lay, Onward(lay, pr, mcus[i]), mcus[i + 1..]);
          if ok {
            Advance(total, items, rest, goal);
          } else {
            Blocked(sink.tables, total, items, rest, goal);
          }
        }
        if !ok {
          return;
        }
        i := i + 1;
      }
      NoMcus(lay, Now(), mcus[i..]);
      Arrived(Total(), [], goal);
      assert SoFar(sink.tables, lay, mcus, datas, s, |mcus|, Fields());
      ok := true;
    }

    /** What stands in the output and in the log behind the last MCU. */
    ghost predicate Finished(mcus: seq<Mcu>, datas: seq<seq<byte>>)
      requires LayoutOk(lay) && TablesOk(sink.tables) && McusOk(mcus)
      reads `lastDc, `restartsToGo, `nextRestartNum, sink`log, sink.writer`header
    {
      exists s: nat :: SoFar(sink.tables, lay, mcus, datas, s, |mcus|, Fields())
    }

    /** An MCU, with the account of the restart before it. */
    method EncodeNext(mcus: seq<Mcu>, i: nat, ghost datas: seq<seq<byte>>, ghost s: nat)
      returns (ok: bool, ghost datas': seq<seq<byte>>, ghost s': nat)
      requires Valid() && !sink.gather && McusOk(mcus) && i < |mcus| && TablesOk(sink.tables)
      requires SoFar(sink.tables, lay, mcus, datas, s, i, Fields())
      modifies `lastDc, `restartsToGo, `nextRestartNum, sink`log, sink`past, sink.writer, sink.dcCounts, sink.acCounts
      ensures ok ==> Valid() && McuOk(lay, LastFor(lay, old(Now())), mcus[i])
                     && Now() == Onward(lay, old(Now()), mcus[i])
      ensures ok ==> Total() == old(Total()) + McuItems(lay, LastFor(lay, old(Now())), mcus[i])
      ensures ok ==> SoFar(sink.tables, lay, mcus, datas', s', i + 1, Fields())
      ensures !ok && McuOk(lay, LastFor(lay, old(Now())), mcus[i]) ==>
                TablesOk(sink.tables) && !Codable(sink.tables, McuItems(lay, LastFor(lay, old(Now())), mcus[i]))
    {
      hide Sink.Valid, TablesOk, Codable, McuOk, McuItems, McuLast, UnitsOk, SoFar, Stuff, BytesToBits, AllBits, Ones;
      ghost var wr := Fields();
      datas', s' := datas, s;
      sink.ValidTables();
      ghost var data, pad;
      ok, data, pad := EncodeMcu(mcus[i]);
      if ok {
        if Restarting(lay, wr.at) {
          SoFarRestart(sink.tables, lay, mcus, datas, s, i, wr, data, pad);
          datas', s' := datas + [data], i;
          wr := Written([], Begin(lay), (wr.num + 1) % 8, wr.header + Stuff(data) + RestartMarker(wr.num));
        }
        SoFarMore(sink.tables, lay, mcus, datas', s', i, wr);
        ghost var items := McuItems(lay, wr.at.last, mcus[i]);
        assert [] + items == items;
        assert Fields() == Written(wr.log + items, Onward(lay, wr.at, mcus[i]), wr.num, wr.header);
      }
    }

    /** A whole statistics pass. */
    method GatherScan(mcus: seq<Mcu>) returns (ok: bool)
      requires Valid() && sink.gather && McusOk(mcus)
      modifies `lastDc, `restartsToGo, sink`log, sink.dcCounts, sink.acCounts
      ensures ok <==> AllMcusOk(lay, old(Now()), mcus)
      ensures ok ==> Valid() && Total() == old(Total()) + ScanItems(lay, old(Now()), mcus)
    {
      hide Sink.Valid, McuOk, McuItems, McuLast, UnitsOk, Leads, Restarting, LastFor, Onward, AllMcusOk, ScanItems;
      ghost var small := AllMcusOk(lay, Now(), mcus);
      ghost var goal := if small then Total() + ScanItems(lay, Now(), mcus) else [];
      if small {
        Start(Total(), ScanItems(lay, Now(), mcus));
      }
      var i := 0;
      assert mcus[0..] == mcus;
      while i < |mcus|
        invariant i <= |mcus| && Valid()
        invariant AllMcusOk(lay, Now(), mcus[i..]) <==> small
        invariant small ==> Leads(Total(), ScanItems(lay, Now(), mcus[i..]), goal)
      {
        ghost var total, pr := Total(), Now();
        FirstMcu(lay, pr, mcus, i);
        ok := GatherMcu(mcus[i]);
        if !ok {
          return;
        }
        if small {
          Advance(total, McuItems(lay, LastFor(lay, pr), mcus[i]),
                  ScanItems(lay, Onward(lay, pr, mcus[i]), mcus[i + 1..]), goal);
        }
        i := i + 1;
      }
      NoMcus(lay, Now(), mcus[i..]);
      Arrived(Total(), [], goal);
      ok := true;
    }
  }

  lemma TotalMore(past: seq<Item>, log: seq<Item>, items: seq<Item>)
    ensures past + (log + items) == past + log + items
  {
  }
}
