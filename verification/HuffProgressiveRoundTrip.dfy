/** Progressive AC scans with optimised tables, through the bytes of the file, to the decoder. */
module HuffProgressiveRoundTrip {
  import opened Numbers
  import opened BitStrings
  import opened Stuffing
  import opened RestartIntervals
  import opened ArithModel
  import opened HuffTable
  import opened HuffDerived
  import opened HuffBitWriter
  import opened HuffBitReader
  import opened HuffBuild
  import opened HuffTree
  import opened HuffItems
  import opened HuffBlocks
  import opened HuffRefine
  import opened HuffSink
  import opened HuffSource
  import opened HuffOptimised
  import opened HuffRoundTrip
  import opened HuffBandIntervals
  import opened HuffProgressive
  import opened HuffProgressiveDecoder

  // ----- Which symbols occur -----

  lemma {:induction false} PlausibleRaw(u: Usage, bits: seq<bit>)
    ensures AllPlausible(u, RawBits(bits))
  {
    if bits != [] {
      PlausibleRaw(u, bits[1..]);
    }
  }

  lemma {:induction false} PlausibleRefine(u: Usage, tbl: tblNo, b: Block, al: nat, kn: nat, k: nat)
    requires k <= 64 && kn < 64 && tbl in u.ac && u.size >= 1
    ensures AllPlausible(u, RefineBody(tbl, b, al, kn, k))
    decreases 64 - k
  {
    hide AllPlausible, RawBits, Corrections, Mag, ZerosAhead, Stop, RefineBody;
    NonePlausible(u);
    if k > kn {
      RefineNothing(tbl, b, al, kn, k);
    } else {
      var z := ZerosAhead(b, al, k);
      var p := Stop(b, al, k, if z > 15 then 15 else z);
      RefineUnfold(tbl, b, al, kn, k, p);
      if p <= kn && (z > 15 ==> p < kn) {
        var raw := RawBits(Corrections(b, al, k, p));
        PlausibleRefine(u, tbl, b, al, kn, p + 1);
        PlausibleRaw(u, Corrections(b, al, k, p));
        PlausibleAppend(u, raw, RefineBody(tbl, b, al, kn, p + 1));
        if z > 15 {
          OnePlausible(u, Sym(true, tbl, ZRL));
          PlausibleAppend(u, [Sym(true, tbl, ZRL)], raw + RefineBody(tbl, b, al, kn, p + 1));
        } else {
          TwoPlausible(u, Sym(true, tbl, RunSize(z, 1)), SignItem(b[p]));
          PlausibleAppend(u, [Sym(true, tbl, RunSize(z, 1)), SignItem(b[p])], raw + RefineBody(tbl, b, al, kn, p + 1));
        }
      }
    }
  }

  lemma TwoPlausible(u: Usage, a: Item, b: Item)
    requires Plausible(u, a) && Plausible(u, b)
    ensures AllPlausible(u, [a, b])
  {
  }

  lemma PlausibleEob(u: Usage, tbl: tblNo, n: nat)
    requires 1 <= n <= MAX_EOBRUN && tbl in u.ac
    ensures AllPlausible(u, EobRun(tbl, n))
  {
    hide Size, BitsOf;
    EobRunSize(n);
  }

  lemma {:induction false} PlausibleBands(u: Usage, tbl: tblNo, bands: seq<Band>, i: nat, t: nat)
    requires i + t <= |bands| && tbl in u.ac && forall j | 0 <= j < |bands| :: AllPlausible(u, bands[j].body)
    ensures AllPlausible(u, BandItems(tbl, bands, i, t))
    decreases |bands| - i
  {
    hide AllPlausible, RawBits, EobRun, Joining;
    NonePlausible(u);
    if i < |bands| {
      var raw := RawBits(bands[i].corr);
      PlausibleRaw(u, bands[i].corr);
      if t > 0 {
        PlausibleBands(u, tbl, bands, i + 1, t - 1);
        PlausibleAppend(u, raw, BandItems(tbl, bands, i + 1, t - 1));
      } else {
        if bands[i].tail {
          var n := Joining(bands, i + 1, 1, |bands[i].corr|);
          PlausibleBands(u, tbl, bands, i + 1, n);
          PlausibleEob(u, tbl, 1 + n);
          PlausibleAppend(u, raw, BandItems(tbl, bands, i + 1, n));
          PlausibleAppend(u, EobRun(tbl, 1 + n), raw + BandItems(tbl, bands, i + 1, n));
        } else {
          PlausibleBands(u, tbl, bands, i + 1, 0);
        }
        PlausibleAppend(u, bands[i].body, AfterBody(tbl, bands, i));
      }
    }
  }

  /** A band begins with a symbol, of its own or of a run. */
  lemma BandsUse(tbl: tblNo, bands: seq<Band>)
    requires bands != [] && BandsOk(bands) && (bands[0].body != [] ==> IsFrom(bands[0].body[0], true, tbl))
    ensures BandItems(tbl, bands, 0, 0) != [] && IsFrom(BandItems(tbl, bands, 0, 0)[0], true, tbl)
  {
    hide RawBits, Joining, Size;
    assert BandOk(bands[0]);
    if bands[0].body == [] {
      AfterTail(tbl, bands, 0);
      var n := RunAfter(bands, 0);
      EobParts(tbl, 1 + n, RawBits(bands[0].corr) + BandItems(tbl, bands, 1, n));
    }
  }

  // ----- Both passes -----

  /** The derived table of an AC scan, from its statistics. */
  method AcTables(stats: Sink, tbl: tblNo, ghost items: seq<Item>, ghost size: nat)
    returns (ok: bool, t: Table, ts: Tables)
    requires stats.Valid() && stats.gather && items == stats.past + stats.log && |items| < SEARCH_LIMIT
    requires size <= MAX_COEF_BITS && AllPlausible(Usage({}, {tbl}, size), items) && items != []
             && IsFrom(items[0], true, tbl)
    ensures ok ==> TablesOk(ts) && Codable(ts, items) && Encodes(t, ts.ac[tbl])
    ensures ok <==> !TooDeep(items, true, tbl)
    ensures size <= 1 || |items| + 1 < DEEP_TOTAL ==> ok
  {
    hide Sink.Valid, AllPlausible, Serves, TooDeep, Encodes, Codable;
    ghost var u := Usage({}, {tbl}, size);
    ts := Tables([], []);
    ok, t := TableFromCounts(stats, true, tbl, u, items, 0);
    if !ok {
      return;
    }
    ServesEncodable(items, tbl, t);
    var accepted, e := MakeEncoderTable(t, false);
    EncodesSized(t, e);
    ts := Tables(seq(4, _ => EMPTY), seq(4, _ => EMPTY)[tbl := e]);
    OneTable(u, tbl, items, t, ts);
  }

  lemma ServesEncodable(items: seq<Item>, tbl: tblNo, t: Table)
    requires Serves(items, true, tbl, t)
    ensures TableOk(t) && Encodable(t, false)
  {
  }

  lemma OneTable(u: Usage, tbl: tblNo, items: seq<Item>, t: Table, ts: Tables)
    requires TablesOk(ts) && u == Usage({}, {tbl}, u.size) && AllPlausible(u, items)
    requires Serves(items, true, tbl, t) && Encodes(t, ts.ac[tbl])
    ensures Codable(ts, items)
  {
    hide Serves, Encodes, TablesOk;
    SizesOf(ts);
    forall i | 0 <= i < |items| && items[i].Sym? ensures HasCode(ts, items[i]) {
      assert Plausible(u, items[i]);
      ServedCode(items, i, t, ts.ac[tbl]);
    }
  }

  /** The last byte is completed, and a marker follows: every interval of the scan is in the file, and the
      reader has the first one ahead. */
  method FinishBands(enc: ProgressiveEncoder, tail: seq<byte>, ghost bands: seq<Band>, ghost datas: seq<seq<byte>>)
    returns (reader: BitReader, bytes: seq<byte>, ghost all: seq<seq<byte>>)
    requires enc.Valid() && !enc.sink.gather && MarkerFirst(tail) && TablesOk(enc.sink.tables)
             && enc.Finished(bands, datas)
    modifies enc.sink.writer
    ensures fresh(reader) && reader.Valid() && all != []
    ensures HoldFirst(enc.sink.tables, enc.tbl, bands, enc.restartInterval, all)
    ensures IsLast(enc.restartInterval, |all| - 1, |bands|)
    ensures reader.Ahead() == BytesToBits(all[0]) && reader.tail == Onwards(all, 0, tail)
    ensures bytes == Front(all[..|all| - 1]) + Stuff(all[|all| - 1]) && reader.input == bytes + tail
    ensures forall i | 0 <= i < |bytes| && bytes[i] == 0xFF ::
              i + 1 < |bytes| && MayFollow(bytes[i + 1], enc.restartInterval != 0)
  {
    hide AllBits, BytesToBits, Ones, HeldBits, Held, Occurrences, TablesOk, Codable, MarkerFirst, Stuff, Front,
         BandItems, HoldFirst, IsLast, Onwards, FileSoFar;
    ghost var s: nat :| enc.FinishedFrom(bands, datas, s);
    ghost var num, header := enc.nextRestartNum, enc.sink.writer.header;
    enc.sink.ValidTables();
    ghost var pad := enc.sink.writer.FlushBits();
    bytes := enc.sink.writer.output;
    ghost var data := enc.sink.writer.emitted;
    all := datas + [data];
    FileEnd(enc.sink.tables, enc.tbl, bands, enc.restartInterval, datas, s, num, header, data, pad);
    FromFirst(datas, data, tail);
    IntervalMarkers(datas, data);
    MarkerBehind(all, 0, tail);
    reader := new BitReader(bytes + tail, all[0], Onwards(all, 0, tail));
  }

  /** The other end: a decoder for these intervals. */
  method OpenDecoder(enc: ProgressiveEncoder, t: Table, tail: seq<byte>, ghost bands: seq<Band>,
                     ghost datas: seq<seq<byte>>)
    returns (decoder: ProgressiveDecoder, ghost all: seq<seq<byte>>)
    requires enc.Valid() && !enc.sink.gather && MarkerFirst(tail) && TablesOk(enc.sink.tables)
             && enc.Finished(bands, datas)
    requires Encodes(t, enc.sink.tables.ac[enc.tbl])
    modifies enc.sink.writer
    ensures fresh(decoder) && fresh(decoder.reader) && decoder.Valid() && decoder.eobrun == 0
    ensures decoder.ts == enc.sink.tables && decoder.tbl == enc.tbl && decoder.restartInterval == enc.restartInterval
    ensures decoder.restartsToGo == decoder.restartInterval && decoder.nextRestartNum == 0
    ensures decoder.Delivered(bands, all, tail)
    ensures decoder.reader.Ahead() == BytesToBits(all[0]) && decoder.reader.tail == Onwards(all, 0, tail)
  {
    hide Sink.Valid, BitReader.Valid, BitReader.Ahead, BytesToBits, Encodes, Decodes, Codable, MarkerFirst, HoldFirst,
         IsLast, Onwards, Stuff, Front, TablesOk, ProgressiveEncoder.Finished;
    SizesOf(enc.sink.tables);
    ghost var e := enc.sink.tables.ac[enc.tbl];
    var reader, bytes;
    reader, bytes, all := FinishBands(enc, tail, bands, datas);
    EncodesOk(t, e);
    var ok, d := MakeDecoderTable(t, false);
    SameTable(t, d);
    decoder := new ProgressiveDecoder(reader, d, enc.restartInterval, enc.sink.tables, enc.tbl);
  }

  /** Restart intervals do not change which symbols can occur. */
  lemma {:induction false} PlausibleAll(u: Usage, tbl: tblNo, bands: seq<Band>, restart: nat)
    requires tbl in u.ac && forall j | 0 <= j < |bands| :: AllPlausible(u, bands[j].body)
    ensures AllPlausible(u, AllItems(tbl, bands, restart))
    decreases |bands|
  {
    hide AllPlausible, BandItems;
    var e := EndFrom(restart, 0, |bands|);
    PlausibleBands(u, tbl, bands[..e], 0, 0);
    if e < |bands| {
      PlausibleAll(u, tbl, bands[e..], restart);
      PlausibleAppend(u, BandItems(tbl, bands[..e], 0, 0), AllItems(tbl, bands[e..], restart));
    } else {
      assert BandItems(tbl, bands[..e], 0, 0) + [] == BandItems(tbl, bands[..e], 0, 0);
    }
  }

  lemma AllUse(tbl: tblNo, bands: seq<Band>, restart: nat)
    requires bands != [] && BandsOk(bands) && (bands[0].body != [] ==> IsFrom(bands[0].body[0], true, tbl))
    ensures AllItems(tbl, bands, restart) != [] && IsFrom(AllItems(tbl, bands, restart)[0], true, tbl)
  {
    hide BandItems, BandOk;
    var e := EndFrom(restart, 0, |bands|);
    BandsUse(tbl, bands[..e]);
  }

  lemma FirstPlausible(tbl: tblNo, src: seq<Block>, al: nat, ss: nat, se: nat, restart: nat)
    requires src != [] && 1 <= ss <= se < 64 && AllInRange(src, al, ss, se)
    ensures var items := FirstItems(tbl, src, al, ss, se, restart);
            AllPlausible(Usage({}, {tbl}, MAX_COEF_BITS), items) && items != [] && IsFrom(items[0], true, tbl)
  {
    hide AcInRange, AllPlausible, AllItems, Body;
    var u, bands := Usage({}, {tbl}, MAX_COEF_BITS), FirstBands(tbl, src, al, ss, se);
    forall i | 0 <= i < |bands| ensures AllPlausible(u, bands[i].body) {
      PlausibleBody(u, tbl, src[i], al, se, ss);
    }
    PlausibleAll(u, tbl, bands, restart);
    FirstBandsOk(tbl, src, al, ss, se);
    BodyFirst(tbl, src[0], al, ss, se);
    AllUse(tbl, bands, restart);
  }

  lemma BodyFirst(tbl: tblNo, b: Block, al: nat, ss: nat, se: nat)
    requires 1 <= ss <= se < 64 && AcInRange(b, al, ss, se)
    ensures Body(tbl, b, al, se, ss) != [] ==> IsFrom(Body(tbl, b, al, se, ss)[0], true, tbl)
  {
    hide PointAc, Size;
  }

  lemma RefinePlausible(tbl: tblNo, src: seq<Block>, al: nat, ss: nat, se: nat, restart: nat)
    requires src != [] && 1 <= ss <= se < 64
    ensures var items := RefineItems(tbl, src, al, ss, se, restart);
            AllPlausible(Usage({}, {tbl}, 1), items) && items != [] && IsFrom(items[0], true, tbl)
  {
    hide AllPlausible, AllItems, RefineBody, Mag, Corrections;
    var u, bands := Usage({}, {tbl}, 1), RefineBands(tbl, src, al, ss, se);
    forall i | 0 <= i < |bands| ensures AllPlausible(u, bands[i].body) {
      PlausibleRefine(u, tbl, src[i], al, LastNew(src[i], al, ss, se), ss);
    }
    PlausibleAll(u, tbl, bands, restart);
    RefineBandsOk(tbl, src, al, ss, se);
    RefineFirst(tbl, src[0], al, LastNew(src[0], al, ss, se), ss);
    AllUse(tbl, bands, restart);
  }

  lemma RefineFirst(tbl: tblNo, b: Block, al: nat, kn: nat, k: nat)
    requires k <= 64 && kn < 64
    ensures RefineBody(tbl, b, al, kn, k) != [] ==> IsFrom(RefineBody(tbl, b, al, kn, k)[0], true, tbl)
  {
    hide Mag, Corrections, RawBits;
  }

  ghost function FirstItems(tbl: tblNo, src: seq<Block>, al: nat, ss: nat, se: nat, restart: nat): (items: seq<Item>)
    requires 1 <= ss <= se < 64 && AllInRange(src, al, ss, se)
  {
    AllItems(tbl, FirstBands(tbl, src, al, ss, se), restart)
  }

  ghost function RefineItems(tbl: tblNo, src: seq<Block>, al: nat, ss: nat, se: nat, restart: nat): (items: seq<Item>)
    requires 1 <= ss <= se < 64
  {
    AllItems(tbl, RefineBands(tbl, src, al, ss, se), restart)
  }

  /** An output pass that is complete but for its last byte. */
  ghost predicate Written(enc: ProgressiveEncoder?, tbl: tblNo, t: Table, bands: seq<Band>, datas: seq<seq<byte>>,
                          restart: nat)
    reads enc, if enc == null then {} else {enc.sink, enc.sink.writer, enc.sink.dcCounts, enc.sink.acCounts}
  {
    && enc != null && enc.Valid() && !enc.sink.gather && enc.tbl == tbl && enc.restartInterval == restart
    && TablesOk(enc.sink.tables) && Encodes(t, enc.sink.tables.ac[tbl]) && enc.Finished(bands, datas)
  }

  /** Both passes of a first scan. */
  method OptimisedFirst(tbl: tblNo, src: seq<Block>, al: nat, ss: nat, se: nat, restart: nat)
    returns (o: Outcome, enc: ProgressiveEncoder?, t: Table, ghost datas: seq<seq<byte>>)
    requires src != [] && 1 <= ss <= se < 64
    requires AllInRange(src, al, ss, se) ==> |FirstItems(tbl, src, al, ss, se, restart)| < SEARCH_LIMIT
    ensures o.BadCoefficient? <==> !AllInRange(src, al, ss, se)
    ensures o.CodeTooLong? <==> AllInRange(src, al, ss, se)
                                && TooDeep(FirstItems(tbl, src, al, ss, se, restart), true, tbl)
    ensures AllInRange(src, al, ss, se) && |FirstItems(tbl, src, al, ss, se, restart)| + 1 < DEEP_TOTAL ==> o.Done?
    ensures o.Done? ==> Written(enc, tbl, t, FirstBands(tbl, src, al, ss, se), datas, restart)
                        && fresh(enc) && fresh(enc.sink) && fresh(enc.sink.writer)
  {
    hide Sink.Valid, AllInRange, AllItems, AllPlausible, TooDeep, Encodes, Codable, TablesOk,
         ProgressiveEncoder.Finished;
    NoTables();
    enc, t, datas := null, Table(seq(17, _ => 0), []), [];
    var stats := new Sink(true, Tables(seq(4, _ => EMPTY), seq(4, _ => EMPTY)));
    var gatherer := new ProgressiveEncoder(stats, tbl, restart);
    var ok;
    ok, datas := gatherer.EncodeFirstScan(src, al, ss, se);
    if !ok {
      o := BadCoefficient;
      return;
    }
    FirstPlausible(tbl, src, al, ss, se, restart);
    var ts;
    ok, t, ts := AcTables(stats, tbl, FirstItems(tbl, src, al, ss, se, restart), MAX_COEF_BITS);
    if !ok {
      o := CodeTooLong;
      return;
    }
    var sink := new Sink(false, ts);
    enc := new ProgressiveEncoder(sink, tbl, restart);
    ok, datas := enc.EncodeFirstScan(src, al, ss, se);
    o := Done;
  }

  /** Both passes of a refinement scan. */
  method OptimisedRefinement(tbl: tblNo, src: seq<Block>, al: nat, ss: nat, se: nat, restart: nat)
    returns (enc: ProgressiveEncoder, t: Table, ghost datas: seq<seq<byte>>)
    requires src != [] && 1 <= ss <= se < 64 && |RefineItems(tbl, src, al, ss, se, restart)| < SEARCH_LIMIT
    ensures Written(enc, tbl, t, RefineBands(tbl, src, al, ss, se), datas, restart)
    ensures fresh(enc) && fresh(enc.sink) && fresh(enc.sink.writer)
  {
    hide Sink.Valid, AllItems, AllPlausible, TooDeep, Encodes, Codable, TablesOk, ProgressiveEncoder.Finished;
    NoTables();
    var stats := new Sink(true, Tables(seq(4, _ => EMPTY), seq(4, _ => EMPTY)));
    var gatherer := new ProgressiveEncoder(stats, tbl, restart);
    var ok;
    ok, datas := gatherer.EncodeRefineScan(src, al, ss, se);
    RefinePlausible(tbl, src, al, ss, se, restart);
    var ts;
    ok, t, ts := AcTables(stats, tbl, RefineItems(tbl, src, al, ss, se, restart), 1);
    if !ok {
      assert false;
    }
    var sink := new Sink(false, ts);
    enc := new ProgressiveEncoder(sink, tbl, restart);
    ok, datas := enc.EncodeRefineScan(src, al, ss, se);
  }

  /** A first scan with any restart interval: each coefficient of the band arrives down to bit al, however the
      bytes are delivered. */
  method TransmitFirst(tbl: tblNo, src: seq<Block>, dst: seq<array<coef>>, al: nat, ss: nat, se: nat, restart: nat,
                       tail: seq<byte>, pieces: seq<nat>)
    returns (o: Outcome)
    requires src != [] && 1 <= ss <= se < 64 && |src| == |dst| && MarkerFirst(tail)
    requires forall i | 0 <= i < |src| :: InRange(src[i])
    requires forall i, j | 0 <= i < j < |dst| :: dst[i] != dst[j]
    requires forall i | 0 <= i < |dst| :: dst[i].Length == 64 && FirstAttempted(dst[i][..], src[i], al, ss, se)
    requires AllInRange(src, al, ss, se) ==> |FirstItems(tbl, src, al, ss, se, restart)| < SEARCH_LIMIT
    modifies set i | 0 <= i < |dst| :: dst[i]
    ensures o.BadCoefficient? <==> !AllInRange(src, al, ss, se)
    ensures o.CodeTooLong? <==> AllInRange(src, al, ss, se)
                                && TooDeep(FirstItems(tbl, src, al, ss, se, restart), true, tbl)
    ensures AllInRange(src, al, ss, se) && |FirstItems(tbl, src, al, ss, se, restart)| + 1 < DEEP_TOTAL ==> o.Done?
    ensures o.Done? ==> forall i | 0 <= i < |dst| :: FirstOutput(dst[i][..], src[i], al, ss, se, se + 1)
    ensures o.Done? ==> forall i | 0 <= i < |dst| :: Outside(old(dst[i][..]), dst[i][..], ss, se)
  {
    hide Sink.Valid, BitReader.Valid, BitReader.Ahead, InRange, AllInRange, AllItems, TooDeep, Encodes, Codable,
         TablesOk, Onwards, FirstAttempted, FirstOutput, Outside, MarkerFirst, BytesToBits, ProgressiveDecoder.Valid,
         ProgressiveDecoder.Delivered;
    var enc, t, decoder;
    ghost var datas, all;
    o, enc, t, datas := OptimisedFirst(tbl, src, al, ss, se, restart);
    if o.Done? {
      decoder, all := OpenDecoder(enc, t, tail, FirstBands(tbl, src, al, ss, se), datas);
      decoder.DecodeFirstScan(dst, al, ss, se, pieces, src, all, tail);
    }
  }

  /** A refinement scan with any restart interval: each coefficient of the band goes exactly from bit al + 1 to
      bit al. */
  method TransmitRefinement(tbl: tblNo, src: seq<Block>, dst: seq<array<coef>>, al: nat, ss: nat, se: nat, restart: nat,
                            tail: seq<byte>, pieces: seq<nat>)
    requires src != [] && 1 <= ss <= se < 64 && |src| == |dst| && MarkerFirst(tail)
    requires forall i | 0 <= i < |src| :: InRange(src[i])
    requires forall i, j | 0 <= i < j < |dst| :: dst[i] != dst[j]
    requires forall i | 0 <= i < |dst| :: dst[i].Length == 64
    requires forall i | 0 <= i < |dst| :: forall k | ss <= k <= se :: dst[i][k] == Trunc(src[i][k], al + 1)
    requires |RefineItems(tbl, src, al, ss, se, restart)| < SEARCH_LIMIT
    modifies set i | 0 <= i < |dst| :: dst[i]
    ensures forall i, k | 0 <= i < |dst| && ss <= k <= se :: dst[i][k] == Trunc(src[i][k], al)
    ensures forall i | 0 <= i < |dst| :: Outside(old(dst[i][..]), dst[i][..], ss, se)
  {
    hide Sink.Valid, BitReader.Valid, BitReader.Ahead, InRange, AllItems, Encodes, Codable, TablesOk, Onwards,
         HalfRefined, Refining, Outside, MarkerFirst, BytesToBits, ProgressiveDecoder.Valid,
         ProgressiveDecoder.Delivered, Trunc;
    ghost var datas, all;
    var enc, t, decoder;
    enc, t, datas := OptimisedRefinement(tbl, src, al, ss, se, restart);
    decoder, all := OpenDecoder(enc, t, tail, RefineBands(tbl, src, al, ss, se), datas);
    forall i | 0 <= i < |dst| ensures HalfRefined(dst[i][..], src[i], al, ss, se) {
      BeforeRefinement(dst[i][..], src[i], al, ss, se);
    }
    decoder.DecodeRefineScan(dst, al, ss, se, pieces, src, all, tail);
    forall i, k | 0 <= i < |dst| && ss <= k <= se ensures dst[i][k] == Trunc(src[i][k], al) {
      AfterRefinement(dst[i][..], src[i], al, ss, se);
    }
  }

  lemma BeforeRefinement(block: seq<int>, b: Block, al: nat, ss: nat, se: nat)
    requires |block| == 64 && ss <= se < 64 && InRange(b) && forall k | ss <= k <= se :: block[k] == Trunc(b[k], al + 1)
    ensures HalfRefined(block, b, al, ss, se)
  {
    hide Trunc, InRange, PointAc;
    forall k | ss <= k <= se ensures if Mag(b, al, k) <= 1 then block[k] == 0 else Known(block[k], b, al, k) {
      RefineBit(b[k], al);
    }
  }

  lemma AfterRefinement(block: seq<int>, b: Block, al: nat, ss: nat, se: nat)
    requires Refining(block, b, al, ss, se, se + 1)
    ensures |block| == 64 && se < 64 && forall k | ss <= k <= se :: block[k] == Trunc(b[k], al)
  {
    hide Trunc, Mag;
  }
}
