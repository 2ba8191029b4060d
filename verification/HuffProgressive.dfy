/** Progressive AC scans: first scans and refinement scans, with runs of end-of-band and
    correction bits that wait in a buffer. */
module HuffProgressive {
  import opened Numbers
  import opened BitStrings
  import opened Stuffing
  import opened RestartIntervals
  import opened HuffBitWriter
  import opened ArithModel
  import opened HuffItems
  import opened HuffBlocks
  import opened HuffRefine
  import opened HuffSink
  import opened HuffSequential
  import opened HuffBandIntervals

  /** A block in a first scan of its coefficients ss to se. */
  ghost function FirstBand(tbl: tblNo, b: Block, al: nat, ss: nat, se: nat): (x: Band)
    requires 1 <= ss <= se < 64 && AcInRange(b, al, ss, se)
  {
    Band(Body(tbl, b, al, se, ss), HasTail(b, al, se), [])
  }

  lemma FirstBandOk(tbl: tblNo, b: Block, al: nat, ss: nat, se: nat)
    requires 1 <= ss <= se < 64 && AcInRange(b, al, ss, se)
    ensures BandOk(FirstBand(tbl, b, al, ss, se))
  {
    hide PointAc;
    if !HasTail(b, al, se) {
      var j := NextNonzero(b, al, se, ss);
      assert j <= se;
    }
  }

  /** The number of bits below the top bit. */
  method BitsBelowTop(n: nat) returns (nbits: nat)
    requires n > 0
    ensures nbits + 1 == Size(n)
  {
    var temp: nat := n / 2;
    nbits := 0;
    while temp != 0
      invariant nbits + 1 + Size(temp) == Size(n)
    {
      nbits := nbits + 1;
      temp := temp / 2;
    }
  }

  class ProgressiveEncoder {
    const sink: Sink
    const tbl: tblNo
    /** Pending bands that end the same way, and their correction bits. */
    var eobrun: nat
    var be: nat
    const bitBuffer: array<bit>
    /** Blocks in a restart interval, or 0; how many are left in this one, and the number of the next marker. */
    const restartInterval: nat
    var restartsToGo: nat
    var nextRestartNum: nat

    constructor (sink: Sink, tbl: tblNo, restartInterval: nat)
      requires sink.Valid()
      ensures Valid() && eobrun == be == 0 && this.sink == sink && this.tbl == tbl && fresh(bitBuffer)
      ensures this.restartInterval == restartsToGo == restartInterval && nextRestartNum == 0
    {
      this.restartInterval, restartsToGo, nextRestartNum := restartInterval, restartInterval, 0;
      this.sink, this.tbl := sink, tbl;
      eobrun, be := 0, 0;
      bitBuffer := new bit[MAX_CORR_BITS](_ => 0);
    }

    ghost predicate Valid()
      reads `eobrun, `be, sink`log, sink`past, sink.writer, sink.dcCounts, sink.acCounts
    {
      sink.Valid() && Buffered()
    }

    /** The run and the buffer stay within bounds; without a run nothing is buffered. */
    ghost predicate Buffered()
      reads `eobrun, `be
    {
      && bitBuffer.Length == MAX_CORR_BITS
      && eobrun <= MAX_EOBRUN && be <= MAX_CORR_BITS && (eobrun == 0 ==> be == 0)
    }

    /** Nothing is about to overflow. */
    ghost predicate Relaxed()
      reads `eobrun, `be
    {
      eobrun < MAX_EOBRUN && be <= CORR_LIMIT
    }

    /** Buffered correction bits, from position start. */
    method EmitBufferedBits(start: nat, n: nat)
      requires sink.Valid() && start + n <= bitBuffer.Length
      modifies sink`log, sink.writer
      ensures sink.Valid() && sink.past == old(sink.past) && sink.writer.header == old(sink.writer.header)
      ensures sink.log == old(sink.log) + RawBits(bitBuffer[start..start + n])
    {
      hide Sink.Valid, BitsOf;
      ghost var bits := bitBuffer[start..start + n];
      if sink.gather {
        RawBitsRaw(bits);
        sink.SkipRaw(RawBits(bits));
        return;
      }
      var i := 0;
      Start(sink.log, RawBits(bits));
      ghost var goal := sink.log + RawBits(bits);
      assert bits[0..] == bits;
      while i < n
        invariant i <= n && sink.Valid() && sink.past == old(sink.past) && sink.writer.header == old(sink.writer.header)
        invariant bitBuffer[start..start + n] == bits
        invariant Leads(sink.log, RawBits(bits[i..]), goal)
      {
        assert bits[i] == bitBuffer[start + i] && bits[i..][1..] == bits[i + 1..];
        OneBit(bits[i]);
        sink.EmitRaw(bitBuffer[start + i], 1);
        i := i + 1;
      }
    }

    /** Sends the pending run with its correction bits. */
    method EmitEobrun() returns (ok: bool)
      requires Valid()
      modifies `eobrun, `be, sink`log, sink.writer, sink.dcCounts, sink.acCounts
      ensures sink.writer.header == old(sink.writer.header)
      ensures old(eobrun) == 0 ==> ok && sink.log == old(sink.log)
      ensures ok && old(eobrun) > 0 ==>
                sink.log == old(sink.log) + EobRun(tbl, old(eobrun)) + RawBits(old(bitBuffer[..be]))
      ensures ok ==> Valid() && eobrun == be == 0 && sink.past == old(sink.past)
      ensures !ok ==> old(eobrun) > 0 && !sink.gather && TablesOk(sink.tables)
                      && !Codable(sink.tables, EobRun(tbl, old(eobrun)))
    {
      hide Sink.Valid, BitsOf, RawBits, Size, TablesOk, HasCode, Codable;
      ok := true;
      if eobrun > 0 {
        EobRunSize(eobrun);
        sink.ValidTables();
        var nbits := BitsBelowTop(eobrun);
        if nbits > 14 {
          assert false;
        }
        ghost var it := Sym(true, tbl, RunSize(nbits, 0));
        ghost var log0, n, bits := sink.log, eobrun, bitBuffer[..be];
        ok := sink.EmitSymbol(true, tbl, 16 * nbits);
        if !ok {
          NotCodable(sink.tables, it);
          CodableAppend(sink.tables, [it], EobRun(tbl, eobrun)[1..]);
          assert EobRun(tbl, eobrun) == [it] + EobRun(tbl, eobrun)[1..];
          return;
        }
        if nbits != 0 {
          sink.EmitRaw(eobrun, nbits);
        }
        assert sink.log == log0 + EobRun(tbl, n);
        eobrun := 0;
        EmitBufferedBits(0, be);
        be := 0;
      }
    }

    /** What is pending, seen from band i on, leads to the goal. */
    ghost predicate Heading(bands: seq<Band>, i: nat, goal: seq<Item>)
      requires Buffered() && i <= |bands|
      reads `eobrun, `be, bitBuffer, sink`log
    {
      Leads(sink.log, Pending(tbl, bands, i, eobrun, bitBuffer[..be]), goal)
    }

    /** Sends the pending run when nothing more can join it. */
    method Flush(ghost small: bool, ghost bands: seq<Band>, ghost i: nat, ghost goal: seq<Item>) returns (ok: bool)
      requires Valid() && i <= |bands| && (small ==> Heading(bands, i, goal))
      requires small && eobrun > 0 ==> i == |bands| || bands[i].body != [] || !Relaxed()
      modifies `eobrun, `be, sink`log, sink.writer, sink.dcCounts, sink.acCounts
      ensures sink.writer.header == old(sink.writer.header)
      ensures ok ==> Valid() && eobrun == be == 0 && sink.past == old(sink.past)
      ensures old(eobrun) == 0 ==> ok && sink.log == old(sink.log)
      ensures ok && small ==> Leads(sink.log, BandItems(tbl, bands, i, 0), goal) && Heading(bands, i, goal)
      ensures !ok && small ==> !sink.gather && TablesOk(sink.tables) && !Codable(sink.tables, goal)
    {
      hide Sink.Valid, EobRun, RawBits, BandItems, Leads, Codable, TablesOk, Joining;
      ghost var log, n, bits := sink.log, eobrun, bitBuffer[..be];
      ghost var rest := BandItems(tbl, bands, i, 0);
      if small && eobrun > 0 {
        PendingFlush(tbl, bands, i, n, bits);
      }
      ok := EmitEobrun();
      if !ok {
        if small {
          Blocked(sink.tables, log, EobRun(tbl, n), RawBits(bits) + rest, goal);
        }
        return;
      }
      if small && n > 0 {
        Advance(log, EobRun(tbl, n), RawBits(bits) + rest, goal);
        Advance(log + EobRun(tbl, n), RawBits(bits), rest, goal);
      }
    }

    // ----- First scans -----

    /** The state inside the band at position k, after r zeros. */
    ghost predicate InBand(bands: seq<Band>, i: nat, b: Block, al: nat, ss: nat, se: nat, k: nat, goal: seq<Item>)
      requires Buffered() && i < |bands| && 1 <= ss <= k <= se + 1 <= 64 && AcInRange(b, al, ss, se)
      reads `eobrun, `be, bitBuffer, sink`log
    {
      if eobrun > 0 then k == ss && Heading(bands, i, goal)
      else Leads(sink.log, Body(tbl, b, al, se, k) + AfterBody(tbl, bands, i), goal)
    }

    /** A nonzero coefficient at k after r zeros. */
    method EncodeFirstCoef(b: Block, al: nat, ss: nat, se: nat, k: nat, r: nat,
                           ghost small: bool, ghost bands: seq<Band>, ghost i: nat, ghost goal: seq<Item>)
      returns (ok: bool)
      requires Valid() && i < |bands| && 1 <= ss <= k - r <= k <= se < 64
      requires PointAc(b[k], al) != 0 && forall j | k - r <= j < k :: PointAc(b[j], al) == 0
      requires small ==> AcInRange(b, al, ss, se) && bands[i] == FirstBand(tbl, b, al, ss, se)
      requires small ==> InBand(bands, i, b, al, ss, se, k - r, goal)
      modifies `eobrun, `be, sink`log, sink.writer, sink.dcCounts, sink.acCounts
      ensures sink.writer.header == old(sink.writer.header)
      ensures ok ==> Valid() && eobrun == be == 0 && sink.past == old(sink.past)
                     && Size(Abs(PointAc(b[k], al))) <= MAX_COEF_BITS
      ensures ok && small ==> InBand(bands, i, b, al, ss, se, k + 1, goal)
      ensures !ok && small ==> !sink.gather && TablesOk(sink.tables) && !Codable(sink.tables, goal)
    {
      hide Sink.Valid, EobRun, RawBits, Leads, Codable, TablesOk, Joining, Body, AfterBody, CoefItems, PointAc, Size;
      if small {
        NonemptyBody(tbl, b, al, ss, se, k);
      }
      ok := true;
      if eobrun > 0 {
        ok := Flush(small, bands, i, goal);
        if !ok {
          return;
        }
      }
      ghost var log, v := sink.log, PointAc(b[k], al);
      ok := EmitCoefficient(sink, tbl, r, PointAc(b[k], al));
      if small {
        AcAdvance(log, tbl, b, al, se, k - r, k, goal, AfterBody(tbl, bands, i));
        if !ok {
          Blocked(sink.tables, log, CoefItems(tbl, r, v), Body(tbl, b, al, se, k + 1) + AfterBody(tbl, bands, i), goal);
        }
      }
    }

    /** The coefficients of a band. */
    method EncodeFirstCoefs(b: Block, al: nat, ss: nat, se: nat,
                            ghost small: bool, ghost bands: seq<Band>, ghost i: nat, ghost goal: seq<Item>)
      returns (ok: bool, r: nat)
      requires Valid() && be == 0 && i < |bands| && 1 <= ss <= se < 64
      requires small ==> AcInRange(b, al, ss, se) && bands[i] == FirstBand(tbl, b, al, ss, se)
      requires small ==> Heading(bands, i, goal)
      modifies `eobrun, `be, sink`log, sink.writer, sink.dcCounts, sink.acCounts
      ensures sink.writer.header == old(sink.writer.header)
      ensures ok ==> Valid() && be == 0 && (eobrun == 0 || eobrun == old(eobrun)) && sink.past == old(sink.past)
      ensures ok ==> AcInRange(b, al, ss, se) && r <= se + 1 - ss && (r > 0 <==> HasTail(b, al, se))
      ensures ok ==> forall j | se + 1 - r <= j <= se :: PointAc(b[j], al) == 0
      ensures ok && small ==> InBand(bands, i, b, al, ss, se, se + 1 - r, goal)
      ensures !ok && small ==> !sink.gather && TablesOk(sink.tables) && !Codable(sink.tables, goal)
    {
      hide Sink.Valid, EobRun, RawBits, Leads, Codable, TablesOk, Joining, Body, AfterBody, PointAc, Size, Heading;
      r, ok := 0, true;
      if small {
        EnterBand(bands, i, b, al, ss, se, goal);
      }
      var k := ss;
      while k <= se
        invariant ss <= k <= se + 1 && r <= k - ss && ok
        invariant Valid() && be == 0 && (eobrun == 0 || eobrun == old(eobrun)) && sink.past == old(sink.past)
        invariant sink.writer.header == old(sink.writer.header)
        invariant forall j | k - r <= j < k :: PointAc(b[j], al) == 0
        invariant r > 0 <==> k > ss && PointAc(b[k - 1], al) == 0
        invariant forall j | ss <= j < k :: Size(Abs(PointAc(b[j], al))) <= MAX_COEF_BITS
        invariant small ==> InBand(bands, i, b, al, ss, se, k - r, goal)
      {
        if PointAc(b[k], al) == 0 {
          SizeOfZero(0);
          r := r + 1;
        } else {
          ok := EncodeFirstCoef(b, al, ss, se, k, r, small, bands, i, goal);
          if !ok {
            return;
          }
          r := 0;
        }
        k := k + 1;
      }
    }

    lemma EnterBand(bands: seq<Band>, i: nat, b: Block, al: nat, ss: nat, se: nat, goal: seq<Item>)
      requires Buffered() && i < |bands| && 1 <= ss <= se < 64 && AcInRange(b, al, ss, se)
      requires bands[i] == FirstBand(tbl, b, al, ss, se) && Heading(bands, i, goal)
      ensures InBand(bands, i, b, al, ss, se, ss, goal)
    {
      hide Leads;
    }

    /** A band of a first scan: its symbols, and one more end-of-band if zeros are left. */
    method EncodeAcFirst(b: Block, al: nat, ss: nat, se: nat,
                         ghost small: bool, ghost bands: seq<Band>, ghost i: nat, ghost goal: seq<Item>)
      returns (ok: bool)
      requires Valid() && Relaxed() && be == 0 && i < |bands| && 1 <= ss <= se < 64
      requires small ==> AcInRange(b, al, ss, se) && BandsOk(bands) && bands[i] == FirstBand(tbl, b, al, ss, se)
      requires small ==> Heading(bands, i, goal)
      modifies `eobrun, `be, sink`log, sink.writer, sink.dcCounts, sink.acCounts
      ensures sink.writer.header == old(sink.writer.header)
      ensures ok ==> Valid() && Relaxed() && be == 0 && sink.past == old(sink.past) && AcInRange(b, al, ss, se)
      ensures ok && small ==> Heading(bands, i + 1, goal)
      ensures !ok && small ==> !sink.gather && TablesOk(sink.tables) && !Codable(sink.tables, goal)
    {
      hide Sink.Valid, EobRun, RawBits, Leads, Codable, TablesOk, Joining, Body, AfterBody, PointAc, Size, Pending,
           InBand, BandsOk;
      var r;
      ok, r := EncodeFirstCoefs(b, al, ss, se, small, bands, i, goal);
      if !ok {
        return;
      }
      if small {
        LeaveBand(bands, i, b, al, ss, se, se + 1 - r, goal);
      }
      assert bitBuffer[..be] == [];
      if r > 0 {
        eobrun := eobrun + 1;
        assert bitBuffer[..be] == [];
        if eobrun == MAX_EOBRUN {
          ok := Flush(small, bands, i + 1, goal);
        }
      }
    }

    /** The band is over, but for its end-of-band. */
    lemma LeaveBand(bands: seq<Band>, i: nat, b: Block, al: nat, ss: nat, se: nat, k: nat, goal: seq<Item>)
      requires Buffered() && be == 0 && eobrun < MAX_EOBRUN && i < |bands| && 1 <= ss <= se < 64 && ss <= k <= se + 1
      requires AcInRange(b, al, ss, se) && BandsOk(bands) && bands[i] == FirstBand(tbl, b, al, ss, se)
      requires InBand(bands, i, b, al, ss, se, k, goal) && forall j | k <= j <= se :: PointAc(b[j], al) == 0
      ensures Leads(sink.log, Pending(tbl, bands, i + 1, eobrun + if HasTail(b, al, se) then 1 else 0, []), goal)
    {
      hide Leads, PointAc, Body;
      BodyEnd(tbl, b, al, se, k);
      assert bitBuffer[..be] == [];
      assert BandOk(bands[i]);
      assert [] + AfterBody(tbl, bands, i) == AfterBody(tbl, bands, i);
      if bands[i].body == [] {
        PendingJoin(tbl, bands, i, eobrun, []);
      } else {
        PendingTail(tbl, bands, i);
      }
    }

    // ----- Refinement scans -----

    /** What is left of band i when everything before position s is sent. */
    ghost function RefineRest(bands: seq<Band>, i: nat, b: Block, al: nat, kn: nat, s: nat): seq<Item>
      requires i < |bands| && s <= 64 && kn < 64
    {
      RefineBody(tbl, b, al, kn, s) + AfterBody(tbl, bands, i)
    }

    /** These items come next, after a pending run that nothing more can join. */
    ghost predicate Upcoming(bands: seq<Band>, i: nat, items: seq<Item>, goal: seq<Item>)
      requires Buffered() && i < |bands|
      reads `eobrun, `be, bitBuffer, sink`log
    {
      if eobrun > 0 then bands[i].body != [] && items == BandItems(tbl, bands, i, 0) && Heading(bands, i, goal)
      else Leads(sink.log, items, goal)
    }

    /** Since position s: r zeros, and br correction bits after those of the pending run. */
    ghost predicate Tracking(b: Block, al: nat, kn: nat, s: nat, k: nat, r: nat, br: nat)
      requires s <= k <= 64
      reads `be, bitBuffer
    {
      && NoNew(b, al, s, k) && r == ZerosIn(b, al, s, k)
      && be + br <= bitBuffer.Length && bitBuffer[be..be + br] == Corrections(b, al, s, k)
      && (r > 15 && k <= kn ==> NoneKnown(b, al, Stop(b, al, s, 15) + 1, k))
    }

    /** A symbol, a sign if there is one, and the correction bits that belong to it. */
    method EmitCorrected(s: byte, sign: seq<bit>, br: nat,
                         ghost bands: seq<Band>, ghost i: nat, ghost rest: seq<Item>, ghost goal: seq<Item>)
      returns (ok: bool)
      requires Valid() && i < |bands| && |sign| <= 1 && be + br <= bitBuffer.Length
      requires Upcoming(bands, i, Corrected(tbl, s, sign, bitBuffer[be..be + br], rest), goal)
      modifies `eobrun, `be, sink`log, sink.writer, sink.dcCounts, sink.acCounts
      ensures sink.writer.header == old(sink.writer.header)
      ensures ok ==> Valid() && eobrun == be == 0 && sink.past == old(sink.past) && Leads(sink.log, rest, goal)
      ensures !ok ==> !sink.gather && TablesOk(sink.tables) && !Codable(sink.tables, goal)
    {
      hide Sink.Valid, RawBits, Leads, Codable, TablesOk, BandItems, Heading;
      var start := be;
      ghost var corr := bitBuffer[be..be + br];
      ok := Flush(eobrun > 0, bands, i, goal);
      if !ok {
        return;
      }
      sink.ValidTables();
      ghost var log, it, raw := sink.log, Sym(true, tbl, s), RawBits(corr) + rest;
      ok := sink.EmitSymbol(true, tbl, s);
      if !ok {
        NotCodable(sink.tables, it);
        Blocked(sink.tables, log, [it], SignItems(sign) + raw, goal);
        return;
      }
      Advance(log, [it], SignItems(sign) + raw, goal);
      Advance(log + [it], SignItems(sign), raw, goal);
      Advance(log + [it] + SignItems(sign), RawBits(corr), rest, goal);
      if |sign| > 0 {
        assert sign == [sign[0]];
        OneBit(sign[0]);
        sink.EmitRaw(sign[0], 1);
      } else {
        assert log + [it] + [] == log + [it];
      }
      assert sink.log == log + [it] + SignItems(sign);
      EmitBufferedBits(start, br);
    }

    /** Runs of sixteen zeros before position k, unless they can be left to the end of the band. */
    method EmitZrls(b: Block, al: nat, kn: nat, k: nat, r0: nat, br0: nat, ghost s0: nat,
                    ghost bands: seq<Band>, ghost i: nat, ghost goal: seq<Item>)
      returns (ok: bool, r: nat, br: nat, ghost s: nat)
      requires Valid() && i < |bands| && s0 <= k < 64 && kn < 64 && Mag(b, al, k) > 0
      requires kn > 0 ==> Mag(b, al, kn) == 1
      requires Tracking(b, al, kn, s0, k, r0, br0)
      requires k <= kn ==> Upcoming(bands, i, RefineRest(bands, i, b, al, kn, s0), goal)
      modifies `eobrun, `be, sink`log, sink.writer, sink.dcCounts, sink.acCounts
      ensures sink.writer.header == old(sink.writer.header)
      ensures ok ==> Valid() && sink.past == old(sink.past) && s0 <= s <= k && be <= old(be) && eobrun <= old(eobrun)
      ensures ok ==> Tracking(b, al, kn, s, k, r, br) && (k <= kn ==> r <= 15)
      ensures ok && k <= kn ==> Upcoming(bands, i, RefineRest(bands, i, b, al, kn, s), goal)
      ensures ok && k > kn ==> sink.log == old(sink.log)
      ensures ok && k > kn ==> s == s0 && r == r0 && br == br0 && eobrun == old(eobrun) && be == old(be)
      ensures !ok ==> !sink.gather && TablesOk(sink.tables) && !Codable(sink.tables, goal)
    {
      hide Sink.Valid, RawBits, Leads, Codable, TablesOk, BandItems, AfterBody, RefineBody, Corrections, Mag, Stop,
           ZerosIn, Heading;
      ok, r, br, s := true, r0, br0, s0;
      while r > 15 && k <= kn
        invariant ok && Valid() && sink.past == old(sink.past) && sink.writer.header == old(sink.writer.header)
        invariant s0 <= s <= k && be <= old(be) && eobrun <= old(eobrun)
        invariant Tracking(b, al, kn, s, k, r, br)
        invariant k <= kn ==> Upcoming(bands, i, RefineRest(bands, i, b, al, kn, s), goal)
        invariant k > kn ==> sink.log == old(sink.log)
        invariant k > kn ==> s == s0 && r == r0 && br == br0 && eobrun == old(eobrun) && be == old(be)
        decreases r
      {
        ghost var p := Stop(b, al, s, 15);
        ghost var corr := bitBuffer[be..be + br];
        ZrlSplit(b, al, kn, s, k, corr, bands, i);
        ghost var rest := RefineRest(bands, i, b, al, kn, p + 1);
        ok := EmitCorrected(ZRL, [], br, bands, i, rest, goal);
        if !ok {
          return;
        }
        r := r - 16;
        br := 0;
        s := p + 1;
        assert bitBuffer[be..be + br] == [];
      }
    }

    lemma ZrlSplit(b: Block, al: nat, kn: nat, s: nat, k: nat, corr: seq<bit>, bands: seq<Band>, i: nat)
      requires i < |bands| && s <= k <= kn < 64 && Mag(b, al, kn) == 1
      requires NoNew(b, al, s, k) && ZerosIn(b, al, s, k) > 15 && corr == Corrections(b, al, s, k)
      requires NoneKnown(b, al, Stop(b, al, s, 15) + 1, k)
      ensures var p := Stop(b, al, s, 15);
              && s <= p < k && ZerosIn(b, al, p + 1, k) == ZerosIn(b, al, s, k) - 16
              && Corrections(b, al, p + 1, k) == []
              && NoNew(b, al, p + 1, k) && NoneKnown(b, al, Stop(b, al, p + 1, 15) + 1, k)
              && RefineRest(bands, i, b, al, kn, s)
                 == Corrected(tbl, ZRL, [], corr, RefineRest(bands, i, b, al, kn, p + 1))
    {
      hide RawBits, AfterBody, RefineBody, Mag;
      ZrlStep(tbl, b, al, kn, s, k);
      var p := Stop(b, al, s, 15);
      ZerosSplit(b, al, s, p, k);
      ZerosSplit(b, al, p, p + 1, k);
      CorrectionsNone(b, al, s, p, k);
      CorrectionsNone(b, al, p + 1, p + 1, k);
      assert [] + (RawBits(corr) + RefineRest(bands, i, b, al, kn, p + 1))
             == RawBits(corr) + RefineRest(bands, i, b, al, kn, p + 1);
      Regroup([Sym(true, tbl, ZRL)], RawBits(corr), RefineBody(tbl, b, al, kn, p + 1), AfterBody(tbl, bands, i));
    }

    /** A coefficient that becomes nonzero, at k. */
    method EncodeNew(b: Block, al: nat, kn: nat, k: nat, r: nat, br: nat, ghost s: nat,
                     ghost bands: seq<Band>, ghost i: nat, ghost goal: seq<Item>)
      returns (ok: bool)
      requires Valid() && i < |bands| && s <= k <= kn < 64 && Mag(b, al, k) == 1
      requires Tracking(b, al, kn, s, k, r, br) && r <= 15
               && Upcoming(bands, i, RefineRest(bands, i, b, al, kn, s), goal)
      modifies `eobrun, `be, sink`log, sink.writer, sink.dcCounts, sink.acCounts
      ensures sink.writer.header == old(sink.writer.header)
      ensures ok ==> Valid() && sink.past == old(sink.past) && eobrun == be == 0
      ensures ok ==> Upcoming(bands, i, RefineRest(bands, i, b, al, kn, k + 1), goal)
      ensures !ok ==> !sink.gather && TablesOk(sink.tables) && !Codable(sink.tables, goal)
    {
      hide Sink.Valid, RawBits, Leads, Codable, TablesOk, BandItems, AfterBody, RefineBody, Corrections, Mag, Stop,
           ZerosIn, Heading;
      var temp: bit := if b[k] < 0 then 0 else 1;
      ghost var rest := RefineRest(bands, i, b, al, kn, k + 1);
      NewSplit(b, al, kn, s, k, bitBuffer[be..be + br], bands, i);
      ok := EmitCorrected(RunSize(r, 1), [temp], br, bands, i, rest, goal);
    }

    lemma NewSplit(b: Block, al: nat, kn: nat, s: nat, k: nat, corr: seq<bit>, bands: seq<Band>, i: nat)
      requires i < |bands| && s <= k <= kn < 64 && Mag(b, al, k) == 1
      requires NoNew(b, al, s, k) && ZerosIn(b, al, s, k) <= 15 && corr == Corrections(b, al, s, k)
      ensures RefineRest(bands, i, b, al, kn, s)
              == Corrected(tbl, RunSize(ZerosIn(b, al, s, k), 1), [if b[k] < 0 then 0 else 1], corr,
                           RefineRest(bands, i, b, al, kn, k + 1))
    {
      hide RawBits, AfterBody, RefineBody, Mag, RunSize;
      NewStep(tbl, b, al, kn, s, k);
      var it := Sym(true, tbl, RunSize(ZerosIn(b, al, s, k), 1));
      var sign := SignItem(b[k]);
      assert [it, sign] == [it] + [sign];
      Regroup([it, sign], RawBits(corr), RefineBody(tbl, b, al, kn, k + 1), AfterBody(tbl, bands, i));
      Regroup([], [it], [sign], RawBits(corr) + RefineRest(bands, i, b, al, kn, k + 1));
    }

    /** A correction bit goes to the buffer. */
    method BufferCorrection(b: Block, al: nat, kn: nat, k: nat, r: nat, br: nat, bit: bit, ghost s: nat)
      requires Buffered() && s <= k < 64 && Mag(b, al, k) > 1 && bit == Mag(b, al, k) % 2
      requires Tracking(b, al, kn, s, k, r, br) && be + br < MAX_CORR_BITS && (k <= kn ==> r <= 15)
      modifies bitBuffer
      ensures Tracking(b, al, kn, s, k + 1, r, br + 1) && bitBuffer[..be] == old(bitBuffer[..be])
    {
      hide Mag, Stop;
      CorrectionsSnoc(b, al, s, k);
      ghost var corr := bitBuffer[be..be + br];
      bitBuffer[be + br] := bit;
      assert bitBuffer[be..be + (br + 1)] == corr + [bit];
    }

    lemma ZeroTracked(b: Block, al: nat, kn: nat, s: nat, k: nat, r: nat, br: nat)
      requires s <= k < 64 && Mag(b, al, k) == 0 && Tracking(b, al, kn, s, k, r, br)
      ensures Tracking(b, al, kn, s, k + 1, r + 1, br)
    {
      hide Mag, Stop, Corrections;
      CorrectionsSnoc(b, al, s, k);
      if r == 15 {
        StopAt(b, al, s, k);
      }
    }

    /** Inside a band that is refined, before position k; the band came with a pending run of n0. */
    ghost predicate AtCoef(bands: seq<Band>, i: nat, b: Block, al: nat, ss: nat, kn: nat, s: nat, k: nat, r: nat,
                           br: nat, n0: nat, goal: seq<Item>)
      requires i < |bands| && kn < 64
      reads `eobrun, `be, bitBuffer, sink`log
    {
      && Buffered() && Relaxed() && 1 <= ss <= s <= k <= 64 && br <= k - s && Tracking(b, al, kn, s, k, r, br)
      && (kn == 0 ==> s == ss && eobrun == n0 && Heading(bands, i, goal))
      && (kn > 0 ==> Upcoming(bands, i, RefineRest(bands, i, b, al, kn, s), goal))
      && (kn > 0 && k > kn ==> s == kn + 1 && eobrun == 0)
    }

    /** A coefficient that is not zero. */
    method RefineCoef(b: Block, al: nat, ss: nat, kn: nat, k: nat, temp: nat, r0: nat, br0: nat, ghost s0: nat,
                      ghost n0: nat, ghost bands: seq<Band>, ghost i: nat, ghost goal: seq<Item>)
      returns (ok: bool, r: nat, br: nat, ghost s: nat)
      requires Valid() && i < |bands| && k < 64 && temp == Mag(b, al, k) > 0 && kn < 64
      requires (kn > 0 ==> Mag(b, al, kn) == 1) && (temp == 1 ==> k <= kn)
      requires AtCoef(bands, i, b, al, ss, kn, s0, k, r0, br0, n0, goal)
      modifies `eobrun, `be, bitBuffer, sink`log, sink.writer, sink.dcCounts, sink.acCounts
      ensures sink.writer.header == old(sink.writer.header)
      ensures ok ==> s <= k + 1 && Valid() && sink.past == old(sink.past)
                     && AtCoef(bands, i, b, al, ss, kn, s, k + 1, r, br, n0, goal)
      ensures !ok ==> !sink.gather && TablesOk(sink.tables) && !Codable(sink.tables, goal)
    {
      hide Sink.Valid, Leads, Codable, TablesOk, BandItems, AfterBody, RefineBody, Corrections, Mag, Stop, ZerosIn,
           Pending, NoNew, NoneKnown, RefineRest;
      ok, r, br, s := EmitZrls(b, al, kn, k, r0, br0, s0, bands, i, goal);
      if !ok {
        return;
      }
      CorrectionsBound(b, al, s, k);
      if temp > 1 {
        BufferCorrection(b, al, kn, k, r, br, temp % 2, s);
        br := br + 1;
      } else {
        ok := EncodeNew(b, al, kn, k, r, br, s, bands, i, goal);
        if !ok {
          return;
        }
        r, br, s := 0, 0, k + 1;
        NothingTracked(b, al, kn, s);
      }
    }

    /** The coefficients of a band that is refined. */
    method EncodeRefineCoefs(b: Block, al: nat, ss: nat, se: nat, absvalues: array<nat>, kn: nat,
                             ghost bands: seq<Band>, ghost i: nat, ghost goal: seq<Item>)
      returns (ok: bool, r: nat, br: nat)
      requires Valid() && Relaxed() && i < |bands| && 1 <= ss <= se < 64
      requires absvalues as object != bitBuffer && absvalues.Length == 64
               && forall k | ss <= k <= se :: absvalues[k] == Mag(b, al, k)
      requires kn == LastNew(b, al, ss, se) && bands[i] == RefineBand(tbl, b, al, ss, se) && Heading(bands, i, goal)
      modifies `eobrun, `be, bitBuffer, sink`log, sink.writer, sink.dcCounts, sink.acCounts
      ensures sink.writer.header == old(sink.writer.header)
      ensures ok ==> Valid() && Relaxed() && sink.past == old(sink.past)
      ensures ok ==> AtCoef(bands, i, b, al, ss, kn, TailStart(kn, ss), se + 1, r, br, old(eobrun), goal)
      ensures !ok ==> !sink.gather && TablesOk(sink.tables) && !Codable(sink.tables, goal)
    {
      hide Sink.Valid, Leads, Codable, TablesOk, AtCoef, Mag, LastNew, RefineBand, Pending, Heading;
      EnterRefine(b, al, ss, se, kn, bands, i, goal);
      ghost var abs: seq<nat>, n0: nat, s: nat := absvalues[..], eobrun, ss;
      ok, r, br := true, 0, 0;
      var k := ss;
      while k <= se
        invariant ss <= k <= se + 1 && ok && absvalues[..] == abs && s <= k
        invariant Valid() && sink.past == old(sink.past) && sink.writer.header == old(sink.writer.header)
        invariant AtCoef(bands, i, b, al, ss, kn, s, k, r, br, n0, goal)
      {
        var temp := absvalues[k];
        assert temp == abs[k];
        if temp == 0 {
          ZeroCoef(bands, i, b, al, ss, kn, s, k, r, br, n0, goal);
          r := r + 1;
        } else {
          if temp == 1 {
            LastNewIs(b, al, ss, se, k);
          }
          ok, r, br, s := RefineCoef(b, al, ss, kn, k, temp, r, br, s, n0, bands, i, goal);
          if !ok {
            return;
          }
        }
        k := k + 1;
      }
      RefineEnd(bands, i, b, al, ss, kn, s, k, r, br, n0, goal);
    }

    lemma ZeroCoef(bands: seq<Band>, i: nat, b: Block, al: nat, ss: nat, kn: nat, s: nat, k: nat, r: nat, br: nat,
                   n0: nat, goal: seq<Item>)
      requires i < |bands| && k < 64 && Mag(b, al, k) == 0 && kn < 64 && (kn > 0 ==> Mag(b, al, kn) == 1)
      requires AtCoef(bands, i, b, al, ss, kn, s, k, r, br, n0, goal)
      ensures AtCoef(bands, i, b, al, ss, kn, s, k + 1, r + 1, br, n0, goal)
    {
      hide Leads, Mag, RefineBody, AfterBody, BandItems, Tracking;
      ZeroTracked(b, al, kn, s, k, r, br);
    }

    lemma RefineEnd(bands: seq<Band>, i: nat, b: Block, al: nat, ss: nat, kn: nat, s: nat, k: nat, r: nat, br: nat,
                    n0: nat, goal: seq<Item>)
      requires i < |bands| && kn < k && kn < 64 && (kn == 0 || ss <= kn)
      requires AtCoef(bands, i, b, al, ss, kn, s, k, r, br, n0, goal)
      ensures s == TailStart(kn, ss) && Relaxed()
    {
    }

    lemma EnterRefine(b: Block, al: nat, ss: nat, se: nat, kn: nat, bands: seq<Band>, i: nat, goal: seq<Item>)
      requires Buffered() && i < |bands| && 1 <= ss <= se < 64
      requires kn == LastNew(b, al, ss, se) && bands[i] == RefineBand(tbl, b, al, ss, se) && Heading(bands, i, goal)
      ensures kn == 0 || (ss <= kn <= se && Mag(b, al, kn) == 1)
      requires Relaxed()
      ensures AtCoef(bands, i, b, al, ss, kn, ss, ss, 0, 0, eobrun, goal)
    {
      hide Leads, Mag, RefineBody, Corrections, AfterBody;
      RefineBandOk(tbl, b, al, ss, se);
      NothingTracked(b, al, kn, ss);
    }

    lemma NothingTracked(b: Block, al: nat, kn: nat, s: nat)
      requires Buffered() && s <= 64
      ensures Tracking(b, al, kn, s, s, 0, 0)
    {
      assert bitBuffer[be..be] == [];
    }

    lemma CorrectionsBound(b: Block, al: nat, s: nat, k: nat)
      requires s <= k <= 64
      ensures |Corrections(b, al, s, k)| <= k - s
    {
    }

    lemma RefineDone(b: Block, al: nat, kn: nat, bands: seq<Band>, i: nat)
      requires i < |bands| && kn < 64
      ensures RefineRest(bands, i, b, al, kn, kn + 1) == AfterBody(tbl, bands, i)
    {
      hide AfterBody;
      assert [] + AfterBody(tbl, bands, i) == AfterBody(tbl, bands, i);
    }

    /** The transformed magnitudes of a band, and the position of its last new coefficient. */
    method Magnitudes(b: Block, al: nat, ss: nat, se: nat) returns (absvalues: array<nat>, eob: nat)
      requires 1 <= ss <= se < 64
      ensures fresh(absvalues) && absvalues.Length == 64 && forall k | ss <= k <= se :: absvalues[k] == Mag(b, al, k)
      ensures eob == LastNew(b, al, ss, se)
    {
      absvalues := new nat[64](_ => 0);
      eob := 0;
      var k := ss;
      while k <= se
        invariant ss <= k <= se + 1 && eob == LastNew(b, al, ss, k - 1)
        invariant forall j | ss <= j < k :: absvalues[j] == Mag(b, al, j)
      {
        var temp := b[k];
        if temp < 0 {
          temp := -temp;
        }
        temp := temp / Pow2(al);
        MagOf(b, al, k);
        absvalues[k] := temp;
        if temp == 1 {
          eob := k;
        }
        k := k + 1;
      }
    }

    lemma MagOf(b: Block, al: nat, k: nat)
      requires k < 64
      ensures Mag(b, al, k) == (if b[k] < 0 then -b[k] else b[k]) / Pow2(al)
    {
      DivNonNegative(if b[k] < 0 then -b[k] else b[k], Pow2(al));
    }

    lemma DivNonNegative(x: int, d: nat)
      requires x >= 0 && d > 0
      ensures x / d >= 0
    {
    }

    /** A band of a refinement scan. */
    method EncodeAcRefine(b: Block, al: nat, ss: nat, se: nat, ghost bands: seq<Band>, ghost i: nat,
                          ghost goal: seq<Item>)
      returns (ok: bool)
      requires Valid() && Relaxed() && i < |bands| && 1 <= ss <= se < 64
      requires BandsOk(bands) && bands[i] == RefineBand(tbl, b, al, ss, se) && Heading(bands, i, goal)
      modifies `eobrun, `be, bitBuffer, sink`log, sink.writer, sink.dcCounts, sink.acCounts
      ensures sink.writer.header == old(sink.writer.header)
      ensures ok ==> Valid() && Relaxed() && sink.past == old(sink.past)
      ensures ok ==> Heading(bands, i + 1, goal)
      ensures !ok ==> !sink.gather && TablesOk(sink.tables) && !Codable(sink.tables, goal)
    {
      hide Sink.Valid, Leads, Codable, TablesOk, AtCoef, RefineBand, Pending, BandsOk, LastNew, Mag;
      var absvalues, eob := Magnitudes(b, al, ss, se);
      var r, br;
      ghost var n0 := eobrun;
      ok, r, br := EncodeRefineCoefs(b, al, ss, se, absvalues, eob, bands, i, goal);
      if !ok {
        return;
      }
      BandDone(bands, i, b, al, ss, se, eob, r, br, n0, goal);
      if r > 0 || br > 0 {
        eobrun := eobrun + 1;
        be := be + br;
        if eobrun == MAX_EOBRUN || be > CORR_LIMIT {
          ok := Flush(true, bands, i + 1, goal);
        }
      }
    }

    /** At the end of the band: whether anything is left, and what is pending then. */
    lemma BandDone(bands: seq<Band>, i: nat, b: Block, al: nat, ss: nat, se: nat, kn: nat, r: nat, br: nat, n0: nat,
                   goal: seq<Item>)
      requires i < |bands| && 1 <= ss <= se < 64 && kn == LastNew(b, al, ss, se)
      requires BandsOk(bands) && bands[i] == RefineBand(tbl, b, al, ss, se)
      requires AtCoef(bands, i, b, al, ss, kn, TailStart(kn, ss), se + 1, r, br, n0, goal)
      ensures r > 0 || br > 0 <==> bands[i].tail
      ensures be + br <= MAX_CORR_BITS && bitBuffer.Length == MAX_CORR_BITS && eobrun < MAX_EOBRUN
      ensures bands[i].tail ==> Leads(sink.log, Pending(tbl, bands, i + 1, eobrun + 1, bitBuffer[..be + br]), goal)
      ensures !bands[i].tail ==> Leads(sink.log, Pending(tbl, bands, i + 1, eobrun, bitBuffer[..be]), goal)
    {
      hide Leads, Mag, RefineBody, Corrections, Pending, NoNew, NoneKnown, Stop, AfterBody, BandItems;
      var s := TailStart(kn, ss);
      RefineBandOk(tbl, b, al, ss, se);
      AllAccounted(b, al, s, se + 1);
      var corr := bitBuffer[be..be + br];
      assert bitBuffer[..be] + corr == bitBuffer[..be + br];
      assert bands[i].corr == corr;
      if kn == 0 {
        PendingJoin(tbl, bands, i, eobrun, bitBuffer[..be]);
      } else {
        RefineDone(b, al, kn, bands, i);
        PendingTail(tbl, bands, i);
        assert bitBuffer[..be] == [] && (br == 0 ==> corr == []);
      }
    }

    // ----- Whole scans -----

    /** The end of a pass: the pending run is sent. */
    method FinishPass(ghost small: bool, ghost bands: seq<Band>, ghost goal: seq<Item>) returns (ok: bool)
      requires Valid() && (small ==> Heading(bands, |bands|, goal))
      modifies `eobrun, `be, sink`log, sink.writer, sink.dcCounts, sink.acCounts
      ensures sink.writer.header == old(sink.writer.header)
      ensures ok ==> Valid() && eobrun == be == 0 && sink.past == old(sink.past) && (small ==> sink.log == goal)
      ensures !ok && small ==> !sink.gather && TablesOk(sink.tables) && !Codable(sink.tables, goal)
    {
      hide Sink.Valid, Codable, TablesOk;
      ok := Flush(small, bands, |bands|, goal);
      if ok && small {
        Arrived(sink.log, [], goal);
        assert sink.log + [] == sink.log;
      }
    }

    /** The blocks of a restart interval of a first scan, from block lo on, and the run at its end. */
    method EncodeFirstInterval(blocks: seq<Block>, lo: nat, al: nat, ss: nat, se: nat) returns (ok: bool, i: nat)
      requires Valid() && eobrun == be == 0 && 1 <= ss <= se < 64 && lo <= |blocks| && restartsToGo == restartInterval
      modifies `eobrun, `be, `restartsToGo, sink`log, sink.writer, sink.dcCounts, sink.acCounts
      ensures sink.writer.header == old(sink.writer.header)
      ensures var e := EndFrom(restartInterval, lo, |blocks|);
              var run := blocks[lo..e];
              && (ok ==>
                    && Valid() && eobrun == be == 0 && sink.past == old(sink.past) && i == e
                    && AllInRange(run, al, ss, se)
                    && sink.log == old(sink.log) + BandItems(tbl, FirstBands(tbl, run, al, ss, se), 0, 0))
              && (!ok && AllInRange(run, al, ss, se) ==>
                    && !sink.gather && TablesOk(sink.tables)
                    && !Codable(sink.tables, BandItems(tbl, FirstBands(tbl, run, al, ss, se), 0, 0)))
    {
      hide Sink.Valid, Codable, TablesOk, Leads, BandItems, Pending, FirstBand, BandsOk, AcInRange;
      ghost var e := EndFrom(restartInterval, lo, |blocks|);
      ghost var run := blocks[lo..e];
      ghost var small := AllInRange(run, al, ss, se);
      ghost var bands: seq<Band> := if small then FirstBands(tbl, run, al, ss, se)
                                    else seq(|run|, _ => Band([], true, []));
      ghost var items := BandItems(tbl, bands, 0, 0);
      ghost var goal := sink.log + items;
      if small {
        FirstBandsOk(tbl, run, al, ss, se);
      }
      Beginning(bands, goal);
      sink.ValidTables();
      CodableAppend(sink.tables, sink.log, items);
      i := lo;
      while i < |blocks| && (restartInterval == 0 || restartsToGo != 0)
        invariant lo <= i <= e && Valid() && Relaxed() && be == 0
        invariant restartInterval != 0 ==> restartsToGo + (i - lo) == restartInterval
        invariant sink.past == old(sink.past) && sink.writer.header == old(sink.writer.header)
        invariant forall j | 0 <= j < i - lo :: AcInRange(run[j], al, ss, se)
        invariant small ==> Heading(bands, i - lo, goal)
        decreases e - i
      {
        ok := EncodeAcFirst(blocks[i], al, ss, se, small, bands, i - lo, goal);
        if !ok {
          return;
        }
        if restartInterval != 0 {
          restartsToGo := restartsToGo - 1;
        }
        i := i + 1;
      }
      ok := FinishPass(small, bands, goal);
    }

    /** Behind the end-of-band run of an interval: the last byte is completed, and a restart marker follows. */
    method EmitRestart() returns (ghost data: seq<byte>, ghost pad: nat)
      requires Valid() && eobrun == be == 0 && nextRestartNum < 8
      modifies `restartsToGo, `nextRestartNum, sink`log, sink`past, sink.writer
      ensures Valid() && sink.log == [] && sink.past == old(sink.past + sink.log)
      ensures restartsToGo == restartInterval && nextRestartNum == (old(nextRestartNum) + 1) % 8
      ensures !sink.gather ==>
                && TablesOk(sink.tables) && Codable(sink.tables, old(sink.log)) && pad <= 7
                && BytesToBits(data) == AllBits(sink.tables, old(sink.log)) + Ones(pad)
                && sink.writer.header == old(sink.writer.header) + Stuff(data) + RestartMarker(old(nextRestartNum))
    {
      hide Sink.Valid, Codable, TablesOk, AllBits, BytesToBits, Ones, Stuff;
      sink.ValidTables();
      data, pad := sink.Restart(nextRestartNum);
      restartsToGo := restartInterval;
      nextRestartNum := (nextRestartNum + 1) % 8;
    }

    /** Where an output pass is in its file, in the interval that starts at band s. */
    ghost predicate InFile(bands: seq<Band>, datas: seq<seq<byte>>, s: nat)
      requires TablesOk(sink.tables)
      reads `nextRestartNum, sink.writer
    {
      FileSoFar(sink.tables, tbl, bands, restartInterval, datas, s, nextRestartNum, sink.writer.header)
    }

    /** The end of an output pass, but for its last byte. */
    ghost predicate Finished(bands: seq<Band>, datas: seq<seq<byte>>)
      requires TablesOk(sink.tables)
      reads `nextRestartNum, sink.writer, sink`log
    {
      exists s: nat :: FinishedFrom(bands, datas, s)
    }

    ghost predicate FinishedFrom(bands: seq<Band>, datas: seq<seq<byte>>, s: nat)
      requires TablesOk(sink.tables)
      reads `nextRestartNum, sink.writer, sink`log
    {
      && s <= |bands| && EndFrom(restartInterval, s, |bands|) == |bands| && InFile(bands, datas, s)
      && sink.log == BandItems(tbl, bands[s..], 0, 0)
    }

    /** Nothing has been encoded yet. */
    ghost predicate Unused()
      reads `restartsToGo, `nextRestartNum, sink`log, sink`past, sink.writer
    {
      sink.log == sink.past == [] && sink.writer.header == [] && restartsToGo == restartInterval && nextRestartNum == 0
    }

    /** A restart behind the interval from band s to band i. */
    method NextInterval(ghost small: bool, ghost bands: seq<Band>, ghost datas: seq<seq<byte>>, ghost s: nat,
                        ghost i: nat)
      returns (ghost more: seq<seq<byte>>)
      requires Valid() && eobrun == be == 0 && nextRestartNum < 8
      requires small ==> s <= i < |bands| && i == EndFrom(restartInterval, s, |bands|)
                         && sink.log == BandItems(tbl, bands[s..i], 0, 0)
      requires small && !sink.gather ==> TablesOk(sink.tables) && InFile(bands, datas, s)
      modifies `restartsToGo, `nextRestartNum, sink`log, sink`past, sink.writer
      ensures Valid() && sink.log == [] && sink.past == old(sink.past + sink.log)
      ensures restartsToGo == restartInterval && nextRestartNum < 8
      ensures small && !sink.gather ==> TablesOk(sink.tables) && InFile(bands, more, i)
    {
      hide Sink.Valid, Codable, TablesOk, BandItems, AllBits, BytesToBits, Ones, Stuff, FileSoFar;
      ghost var num, header := nextRestartNum, sink.writer.header;
      ghost var data, pad := EmitRestart();
      more := datas + [data];
      if small && !sink.gather {
        FileRestart(sink.tables, tbl, bands, restartInterval, datas, s, num, header, data, pad);
      }
    }

    /** A first scan, for either purpose: the same items are counted and sent. */
    method EncodeFirstScan(blocks: seq<Block>, al: nat, ss: nat, se: nat)
      returns (ok: bool, ghost datas: seq<seq<byte>>)
      requires Valid() && eobrun == be == 0 && 1 <= ss <= se < 64 && Unused()
      modifies `eobrun, `be, `restartsToGo, `nextRestartNum, sink`log, sink`past, sink.writer, sink.dcCounts,
               sink.acCounts
      ensures ok ==> Valid() && eobrun == be == 0 && AllInRange(blocks, al, ss, se)
      ensures ok ==> sink.past + sink.log == AllItems(tbl, FirstBands(tbl, blocks, al, ss, se), restartInterval)
      ensures ok && !sink.gather ==> TablesOk(sink.tables) && Finished(FirstBands(tbl, blocks, al, ss, se), datas)
      ensures !ok && AllInRange(blocks, al, ss, se) ==>
                && !sink.gather && TablesOk(sink.tables)
                && !Codable(sink.tables, AllItems(tbl, FirstBands(tbl, blocks, al, ss, se), restartInterval))
    {
      hide Sink.Valid, Codable, TablesOk, BandItems, AllItems, FirstBand, AcInRange, FileSoFar;
      ghost var small := AllInRange(blocks, al, ss, se);
      ghost var bands: seq<Band> := if small then FirstBands(tbl, blocks, al, ss, se) else [];
      ghost var s: nat := 0;
      datas := [];
      sink.ValidTables();
      FileStart(sink.tables, tbl, bands, restartInterval);
      assert blocks[..0] == [] && bands[0..] == bands
             && [] + AllItems(tbl, bands, restartInterval) == AllItems(tbl, bands, restartInterval);
      var i := 0;
      ok := true;
      while true
        invariant ok && Valid() && eobrun == be == 0 && i <= |blocks| && restartsToGo == restartInterval
                  && nextRestartNum < 8
        invariant AllInRange(blocks[..i], al, ss, se) && sink.log == [] && TablesOk(sink.tables)
        invariant small ==> sink.past + AllItems(tbl, bands[i..], restartInterval)
                                      == AllItems(tbl, bands, restartInterval)
        invariant small && !sink.gather ==> InFile(bands, datas, i)
        decreases |blocks| - i
      {
        s := i;
        ghost var before := sink.past;
        ok, i := EncodeFirstInterval(blocks, i, al, ss, se);
        if small {
          FirstSlice(tbl, blocks, al, ss, se, s, EndFrom(restartInterval, s, |blocks|));
          NextItems(tbl, bands, restartInterval, s);
        }
        if !ok {
          if small {
            NotAllCodable(sink.tables, tbl, bands, restartInterval, s, before);
          }
          return;
        }
        RangeMore(blocks, al, ss, se, s, i);
        Gather(before, sink.log, if small && i < |bands| then AllItems(tbl, bands[i..], restartInterval) else []);
        assert [] + BandItems(tbl, if small then bands[s..i] else [], 0, 0)
               == BandItems(tbl, if small then bands[s..i] else [], 0, 0);
        if i == |blocks| {
          break;
        }
        datas := NextInterval(small, bands, datas, s, i);
      }
      assert blocks[..|blocks|] == blocks && bands[s..|bands|] == bands[s..];
      assert !sink.gather ==> FinishedFrom(bands, datas, s);
    }

    lemma Beginning(bands: seq<Band>, goal: seq<Item>)
      requires Buffered() && eobrun == 0 && goal == sink.log + BandItems(tbl, bands, 0, 0)
      ensures Heading(bands, 0, goal)
    {
    }

    /** The blocks of a restart interval of a refinement scan, from block lo on, and the run at its end. */
    method EncodeRefineInterval(blocks: seq<Block>, lo: nat, al: nat, ss: nat, se: nat) returns (ok: bool, i: nat)
      requires Valid() && eobrun == be == 0 && 1 <= ss <= se < 64 && lo <= |blocks| && restartsToGo == restartInterval
      modifies `eobrun, `be, `restartsToGo, bitBuffer, sink`log, sink.writer, sink.dcCounts, sink.acCounts
      ensures sink.writer.header == old(sink.writer.header)
      ensures var e := EndFrom(restartInterval, lo, |blocks|);
              var items := BandItems(tbl, RefineBands(tbl, blocks[lo..e], al, ss, se), 0, 0);
              && (ok ==>
                    && Valid() && eobrun == be == 0 && sink.past == old(sink.past) && i == e
                    && sink.log == old(sink.log) + items)
              && (!ok ==> !sink.gather && TablesOk(sink.tables) && !Codable(sink.tables, items))
    {
      hide Sink.Valid, Codable, TablesOk, Leads, BandItems, Pending, RefineBand, BandsOk;
      ghost var e := EndFrom(restartInterval, lo, |blocks|);
      ghost var run := blocks[lo..e];
      ghost var bands := RefineBands(tbl, run, al, ss, se);
      ghost var items := BandItems(tbl, bands, 0, 0);
      ghost var goal := sink.log + items;
      RefineBandsOk(tbl, run, al, ss, se);
      Beginning(bands, goal);
      sink.ValidTables();
      CodableAppend(sink.tables, sink.log, items);
      i := lo;
      while i < |blocks| && (restartInterval == 0 || restartsToGo != 0)
        invariant lo <= i <= e && Valid() && Relaxed()
        invariant restartInterval != 0 ==> restartsToGo + (i - lo) == restartInterval
        invariant sink.past == old(sink.past) && sink.writer.header == old(sink.writer.header)
        invariant Heading(bands, i - lo, goal)
        decreases e - i
      {
        ok := EncodeAcRefine(blocks[i], al, ss, se, bands, i - lo, goal);
        if !ok {
          return;
        }
        if restartInterval != 0 {
          restartsToGo := restartsToGo - 1;
        }
        i := i + 1;
      }
      ok := FinishPass(true, bands, goal);
    }

    /** A refinement scan, for either purpose. */
    method EncodeRefineScan(blocks: seq<Block>, al: nat, ss: nat, se: nat)
      returns (ok: bool, ghost datas: seq<seq<byte>>)
      requires Valid() && eobrun == be == 0 && 1 <= ss <= se < 64 && Unused()
      modifies `eobrun, `be, `restartsToGo, `nextRestartNum, bitBuffer
      modifies sink`log, sink`past, sink.writer, sink.dcCounts, sink.acCounts
      ensures ok ==> Valid() && eobrun == be == 0
      ensures ok ==> sink.past + sink.log == AllItems(tbl, RefineBands(tbl, blocks, al, ss, se), restartInterval)
      ensures ok && !sink.gather ==> TablesOk(sink.tables) && Finished(RefineBands(tbl, blocks, al, ss, se), datas)
      ensures !ok ==>
                && !sink.gather && TablesOk(sink.tables)
                && !Codable(sink.tables, AllItems(tbl, RefineBands(tbl, blocks, al, ss, se), restartInterval))
    {
      hide Sink.Valid, Codable, TablesOk, BandItems, AllItems, RefineBand, FileSoFar;
      ghost var bands := RefineBands(tbl, blocks, al, ss, se);
      ghost var s: nat := 0;
      datas := [];
      sink.ValidTables();
      FileStart(sink.tables, tbl, bands, restartInterval);
      assert bands[0..] == bands && [] + AllItems(tbl, bands, restartInterval) == AllItems(tbl, bands, restartInterval);
      var i := 0;
      ok := true;
      while true
        invariant ok && Valid() && eobrun == be == 0 && i <= |blocks| && restartsToGo == restartInterval
                  && nextRestartNum < 8
        invariant sink.log == [] && TablesOk(sink.tables)
        invariant sink.past + AllItems(tbl, bands[i..], restartInterval) == AllItems(tbl, bands, restartInterval)
        invariant !sink.gather ==> InFile(bands, datas, i)
        decreases |blocks| - i
      {
        s := i;
        ghost var before := sink.past;
        ok, i := EncodeRefineInterval(blocks, i, al, ss, se);
        RefineSlice(tbl, blocks, al, ss, se, s, EndFrom(restartInterval, s, |blocks|));
        NextItems(tbl, bands, restartInterval, s);
        if !ok {
          NotAllCodable(sink.tables, tbl, bands, restartInterval, s, before);
          return;
        }
        Gather(before, sink.log, if i < |bands| then AllItems(tbl, bands[i..], restartInterval) else []);
        assert [] + BandItems(tbl, bands[s..i], 0, 0) == BandItems(tbl, bands[s..i], 0, 0);
        if i == |blocks| {
          break;
        }
        datas := NextInterval(true, bands, datas, s, i);
      }
      assert bands[s..|bands|] == bands[s..];
      assert !sink.gather ==> FinishedFrom(bands, datas, s);
    }
  }

  lemma FirstSlice(tbl: tblNo, blocks: seq<Block>, al: nat, ss: nat, se: nat, s: nat, e: nat)
    requires 1 <= ss <= se < 64 && s <= e <= |blocks| && AllInRange(blocks, al, ss, se)
    ensures AllInRange(blocks[s..e], al, ss, se)
    ensures FirstBands(tbl, blocks[s..e], al, ss, se) == FirstBands(tbl, blocks, al, ss, se)[s..e]
  {
    hide AcInRange, FirstBand;
  }

  lemma RefineSlice(tbl: tblNo, blocks: seq<Block>, al: nat, ss: nat, se: nat, s: nat, e: nat)
    requires 1 <= ss <= se < 64 && s <= e <= |blocks|
    ensures RefineBands(tbl, blocks[s..e], al, ss, se) == RefineBands(tbl, blocks, al, ss, se)[s..e]
  {
    hide RefineBand;
  }

  lemma RangeMore(blocks: seq<Block>, al: nat, ss: nat, se: nat, s: nat, e: nat)
    requires se < 64 && s <= e <= |blocks| && AllInRange(blocks[..s], al, ss, se)
             && AllInRange(blocks[s..e], al, ss, se)
    ensures AllInRange(blocks[..e], al, ss, se)
  {
    hide AcInRange;
    forall i | 0 <= i < e ensures AcInRange(blocks[i], al, ss, se) {
      assert if i < s then blocks[..s][i] == blocks[i] else blocks[s..e][i - s] == blocks[i];
    }
  }

  lemma Gather(a: seq<Item>, b: seq<Item>, c: seq<Item>)
    ensures (a + b) + c == a + (b + c) && (c == [] ==> a + b + c == a + b)
  {
  }

  ghost predicate AllInRange(blocks: seq<Block>, al: nat, ss: nat, se: nat)
    requires se < 64
  {
    forall i | 0 <= i < |blocks| :: AcInRange(blocks[i], al, ss, se)
  }

  ghost function FirstBands(tbl: tblNo, blocks: seq<Block>, al: nat, ss: nat, se: nat): (bands: seq<Band>)
    requires 1 <= ss <= se < 64 && AllInRange(blocks, al, ss, se)
    ensures |bands| == |blocks| && forall i | 0 <= i < |bands| :: bands[i] == FirstBand(tbl, blocks[i], al, ss, se)
  {
    seq(|blocks|, i requires 0 <= i < |blocks| => FirstBand(tbl, blocks[i], al, ss, se))
  }

  lemma FirstBandsOk(tbl: tblNo, blocks: seq<Block>, al: nat, ss: nat, se: nat)
    requires 1 <= ss <= se < 64 && AllInRange(blocks, al, ss, se)
    ensures BandsOk(FirstBands(tbl, blocks, al, ss, se))
  {
    hide AcInRange, FirstBand;
    forall i | 0 <= i < |blocks| ensures BandOk(FirstBand(tbl, blocks[i], al, ss, se)) {
      FirstBandOk(tbl, blocks[i], al, ss, se);
    }
  }

  ghost function RefineBands(tbl: tblNo, blocks: seq<Block>, al: nat, ss: nat, se: nat): (bands: seq<Band>)
    requires 1 <= ss <= se < 64
    ensures |bands| == |blocks| && forall i | 0 <= i < |bands| :: bands[i] == RefineBand(tbl, blocks[i], al, ss, se)
  {
    seq(|blocks|, i requires 0 <= i < |blocks| => RefineBand(tbl, blocks[i], al, ss, se))
  }

  lemma RefineBandsOk(tbl: tblNo, blocks: seq<Block>, al: nat, ss: nat, se: nat)
    requires 1 <= ss <= se < 64
    ensures BandsOk(RefineBands(tbl, blocks, al, ss, se))
  {
    hide RefineBand;
    forall i | 0 <= i < |blocks| ensures BandOk(RefineBand(tbl, blocks[i], al, ss, se)) {
      RefineBandOk(tbl, blocks[i], al, ss, se);
    }
  }

  /** Every coefficient that is not new is a zero or gets a correction bit. */
  lemma {:induction false} AllAccounted(b: Block, al: nat, s: nat, k: nat)
    requires s <= k <= 64 && NoNew(b, al, s, k)
    ensures ZerosIn(b, al, s, k) + |Corrections(b, al, s, k)| == k - s
    decreases k - s
  {
    hide Mag;
    if s < k {
      AllAccounted(b, al, s, k - 1);
      CorrectionsSnoc(b, al, s, k - 1);
      assert Mag(b, al, k - 1) != 1;
    } else {
      assert Corrections(b, al, s, s) == [];
    }
  }

  ghost function SignItems(sign: seq<bit>): (items: seq<Item>) {
    if sign == [] then [] else [Raw(sign)]
  }

  ghost function Corrected(tbl: tblNo, s: byte, sign: seq<bit>, corr: seq<bit>, rest: seq<Item>): (items: seq<Item>) {
    [Sym(true, tbl, s)] + (SignItems(sign) + (RawBits(corr) + rest))
  }

  /** A band with a nonzero coefficient has symbols of its own. */
  lemma NonemptyBody(tbl: tblNo, b: Block, al: nat, ss: nat, se: nat, k: nat)
    requires 1 <= ss <= k <= se < 64 && AcInRange(b, al, ss, se) && PointAc(b[k], al) != 0
    ensures Body(tbl, b, al, se, ss) != []
  {
    hide PointAc;
  }

  lemma RawBitsRaw(bits: seq<bit>)
    ensures forall i | 0 <= i < |RawBits(bits)| :: RawBits(bits)[i].Raw?
  {
  }

  lemma OneBit(b: bit)
    ensures BitsOf(b, 1) == [b]
  {
  }
}
