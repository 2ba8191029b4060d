/** Sequential Huffman encoding, and its statistics pass. */
module HuffSequential {
  import opened Numbers
  import opened BitStrings
  import opened Stuffing
  import opened HuffBitWriter
  import opened HuffDerived
  import opened ArithModel
  import opened HuffItems
  import opened HuffBlocks
  import opened HuffSink

  /** How many bits a magnitude needs. */
  method CountBits(u: nat) returns (nbits: nat)
    ensures nbits == Size(u)
  {
    nbits := 0;
    var temp := u;
    while temp != 0
      invariant nbits + Size(temp) == Size(u)
    {
      nbits := nbits + 1;
      temp := temp / 2;
    }
  }

  /** Runs of sixteen zeros. */
  method EmitZeroRuns(sink: Sink, tbl: tblNo, run: nat, ghost v: int, ghost goal: seq<Item>) returns (ok: bool, r: nat)
    requires sink.Valid() && (Size(Abs(v)) <= MAX_COEF_BITS ==> Leads(sink.log, CoefItems(tbl, run, v), goal))
    modifies sink`log, sink.writer, sink.dcCounts, sink.acCounts
    ensures sink.writer.header == old(sink.writer.header)
    ensures ok ==> sink.Valid() && sink.past == old(sink.past) && r == run % 16
    ensures ok && Size(Abs(v)) <= MAX_COEF_BITS ==> Leads(sink.log, CoefItems(tbl, r, v), goal)
    ensures !ok && Size(Abs(v)) <= MAX_COEF_BITS ==> !sink.gather && TablesOk(sink.tables)
                                                     && !Codable(sink.tables, goal)
  {
    hide Sink.Valid, HasCode, RunSize, TablesOk, ValueItems, Leads, Codable, Size;
    ghost var small := Size(Abs(v)) <= MAX_COEF_BITS;
    sink.ValidTables();
    r, ok := run, true;
    while r > 15
      invariant sink.Valid() && sink.past == old(sink.past) && sink.writer.header == old(sink.writer.header)
      invariant small ==> Leads(sink.log, CoefItems(tbl, r, v), goal)
      invariant ok && r % 16 == run % 16
      decreases r
    {
      ghost var log := sink.log;
      ghost var it := Sym(true, tbl, ZRL);
      ok := sink.EmitSymbol(true, tbl, ZRL);
      if !ok {
        if small {
          NotCodable(sink.tables, it);
          Blocked(sink.tables, log, [it], CoefItems(tbl, r - 16, v), goal);
        }
        return;
      }
      if small {
        Advance(log, [it], CoefItems(tbl, r - 16, v), goal);
      }
      r := r - 16;
    }
  }

  lemma NotCodable(ts: Tables, it: Item)
    requires TablesOk(ts) && it.Sym? && !HasCode(ts, it)
    ensures !Codable(ts, [it])
  {
    assert [it][0] == it;
  }

  /** A nonzero coefficient after a run of zeros. */
  method EmitCoefficient(sink: Sink, tbl: tblNo, run: nat, v: int) returns (ok: bool)
    requires v != 0 && sink.Valid()
    modifies sink`log, sink.writer, sink.dcCounts, sink.acCounts
    ensures sink.writer.header == old(sink.writer.header)
    ensures ok ==> sink.Valid() && sink.past == old(sink.past) && Size(Abs(v)) <= MAX_COEF_BITS
                   && sink.log == old(sink.log) + CoefItems(tbl, run, v)
    ensures !ok && Size(Abs(v)) <= MAX_COEF_BITS ==>
              !sink.gather && TablesOk(sink.tables) && !Codable(sink.tables, CoefItems(tbl, run, v))
  {
    hide Sink.Valid, HasCode, RunSize, TablesOk, Leads, Codable, Size, ValueItems;
    ghost var small := Size(Abs(v)) <= MAX_COEF_BITS;
    ghost var goal := if small then sink.log + CoefItems(tbl, run, v) else [];
    sink.ValidTables();
    if small {
      CodableAppend(sink.tables, sink.log, CoefItems(tbl, run, v));
      Start(sink.log, CoefItems(tbl, run, v));
    }
    var r;
    ok, r := EmitZeroRuns(sink, tbl, run, v, goal);
    if !ok {
      return;
    }
    var temp, temp2 := v, v;
    if temp < 0 {
      temp := -temp;
      temp2 := temp2 - 1;
    }
    var nbits := CountBits(temp);
    if nbits > MAX_COEF_BITS {
      return false;
    }
    ghost var it := Sym(true, tbl, RunSize(r, nbits));
    ghost var log := sink.log;
    ok := sink.EmitSymbol(true, tbl, RunSize(r, nbits));
    if !ok {
      NotCodable(sink.tables, it);
      Blocked(sink.tables, log, [it], ValueItems(v), goal);
      return;
    }
    Advance(log, [it], ValueItems(v), goal);
    SizeBounds(temp);
    EmitValue(sink, v, temp2, nbits);
    Arrived(log + [it], ValueItems(v), goal);
  }

  /** The bits of a nonzero value after its size. */
  method EmitValue(sink: Sink, v: int, temp2: int, nbits: nat)
    requires sink.Valid() && v != 0 && 1 <= nbits == Size(Abs(v)) <= 16 && temp2 == if v < 0 then v - 1 else v
    modifies sink`log, sink.writer
    ensures sink.writer.header == old(sink.writer.header)
    ensures sink.Valid() && sink.past == old(sink.past) && sink.log == old(sink.log) + ValueItems(v)
  {
    hide Sink.Valid, BitsOf, Size;
    sink.EmitRaw(temp2, nbits);
  }

  // ----- Blocks -----

  ghost predicate BlockOk(b: Block, last: int, se: nat)
    requires se < 64
  {
    Size(Abs(b[0] - last)) <= MAX_COEF_BITS + 1 && AcInRange(b, 0, 1, se)
  }

  ghost function BlockItems(dcTbl: tblNo, acTbl: tblNo, b: Block, last: int, se: nat): (items: seq<Item>)
    requires se < 64 && BlockOk(b, last, se)
  {
    DiffItems(dcTbl, b[0] - last) + AcItems(acTbl, b, se)
  }

  lemma NoTransform(b: Block)
    ensures forall k | 0 <= k < 64 :: PointAc(b[k], 0) == b[k]
  {
    forall k | 0 <= k < 64 ensures PointAc(b[k], 0) == b[k] {
      DivByOne(b[k]);
      DivByOne(-b[k]);
    }
  }

  lemma DivByOne(x: int)
    ensures x / 1 == x
  {
  }

  /** A DC difference. */
  method EncodeDiff(sink: Sink, tbl: tblNo, diff: int) returns (ok: bool)
    requires sink.Valid()
    modifies sink`log, sink.writer, sink.dcCounts, sink.acCounts
    ensures sink.writer.header == old(sink.writer.header)
    ensures ok ==> sink.Valid() && sink.past == old(sink.past) && Size(Abs(diff)) <= MAX_COEF_BITS + 1
                   && sink.log == old(sink.log) + DiffItems(tbl, diff)
    ensures !ok && Size(Abs(diff)) <= MAX_COEF_BITS + 1 ==>
              !sink.gather && TablesOk(sink.tables) && !Codable(sink.tables, DiffItems(tbl, diff))
  {
    hide Sink.Valid, HasCode, TablesOk, Codable, Size, ValueItems;
    sink.ValidTables();
    var temp, temp2 := diff, diff;
    if temp < 0 {
      temp := -temp;
      temp2 := temp2 - 1;
    }
    var nbits := CountBits(temp);
    if nbits > MAX_COEF_BITS + 1 {
      return false;
    }
    ghost var it := Sym(false, tbl, nbits);
    ok := sink.EmitSymbol(false, tbl, nbits);
    CodableAppend(sink.tables, [it], ValueItems(diff));
    SizeOfZero(diff);
    if !ok {
      NotCodable(sink.tables, it);
      return;
    }
    if nbits != 0 {
      EmitValue(sink, diff, temp2, nbits);
    }
  }

  lemma SizeOfZero(v: int)
    ensures Size(Abs(v)) == 0 <==> v == 0
    ensures v == 0 ==> ValueItems(v) == []
  {
  }

  ghost predicate AcLeads(sink: Sink, tbl: tblNo, b: Block, al: nat, se: nat, k: nat, goal: seq<Item>, more: seq<Item>)
    requires k <= se + 1 && se < 64
    reads sink`log
  {
    AcInRange(b, al, k, se) ==> Leads(sink.log, Body(tbl, b, al, se, k) + more, goal)
  }

  /** The coefficient at k ends a run of zeros. */
  lemma AcAdvance(log: seq<Item>, tbl: tblNo, b: Block, al: nat, se: nat, k: nat, j: nat, goal: seq<Item>,
                  more: seq<Item>)
    requires k <= j <= se < 64 && PointAc(b[j], al) != 0 && forall i | k <= i < j :: PointAc(b[i], al) == 0
    requires AcInRange(b, al, k, se) && Leads(log, Body(tbl, b, al, se, k) + more, goal)
    ensures Leads(log, CoefItems(tbl, j - k, PointAc(b[j], al)) + (Body(tbl, b, al, se, j + 1) + more), goal)
    ensures Leads(log + CoefItems(tbl, j - k, PointAc(b[j], al)), Body(tbl, b, al, se, j + 1) + more, goal)
  {
    hide PointAc, CoefItems, Leads, Body;
    BodyStep(tbl, b, al, se, k, j);
    var c, rest := CoefItems(tbl, j - k, PointAc(b[j], al)), Body(tbl, b, al, se, j + 1);
    assert c + rest + more == c + (rest + more);
    Advance(log, c, rest + more, goal);
  }

  lemma OnlyTail(log: seq<Item>, tail: seq<Item>, goal: seq<Item>)
    requires Leads(log, [] + tail, goal)
    ensures log + tail == goal && (tail == [] ==> log == goal)
  {
    assert [] + tail == tail;
  }

  /** The AC coefficients of a block. */
  method EncodeAc(sink: Sink, tbl: tblNo, block: Block, se: nat) returns (ok: bool)
    requires sink.Valid() && !sink.gather && se < 64
    modifies sink`log, sink.writer, sink.dcCounts, sink.acCounts
    ensures sink.writer.header == old(sink.writer.header)
    ensures ok ==> sink.Valid() && sink.past == old(sink.past) && AcInRange(block, 0, 1, se)
                   && sink.log == old(sink.log) + AcItems(tbl, block, se)
    ensures !ok && AcInRange(block, 0, 1, se) ==> TablesOk(sink.tables)
                                                  && !Codable(sink.tables, AcItems(tbl, block, se))
  {
    hide Sink.Valid, HasCode, TablesOk, Codable, Size, ValueItems, PointAc, Leads, Body, CoefItems;
    ghost var small := AcInRange(block, 0, 1, se);
    ghost var goal := if small then sink.log + AcItems(tbl, block, se) else [];
    ghost var tail := if HasTail(block, 0, se) then [Sym(true, tbl, EOB)] else [];
    NoTransform(block);
    sink.ValidTables();
    if small {
      CodableAppend(sink.tables, sink.log, AcItems(tbl, block, se));
      Start(sink.log, AcItems(tbl, block, se));
    }
    var r, k: nat := 0, 1;
    while k <= se
      invariant sink.Valid() && sink.past == old(sink.past) && sink.writer.header == old(sink.writer.header)
      invariant 1 <= k <= se + 1 && r < k && (forall i | k - r <= i < k :: block[i] == 0)
      invariant r > 0 <==> k > 1 && block[k - 1] == 0
      invariant forall i | 1 <= i < k :: Size(Abs(block[i])) <= MAX_COEF_BITS
      invariant small ==> AcLeads(sink, tbl, block, 0, se, k - r, goal, tail)
    {
      if block[k] == 0 {
        SizeOfZero(0);
        r := r + 1;
      } else {
        ghost var log := sink.log;
        if small {
          AcAdvance(log, tbl, block, 0, se, k - r, k, goal, tail);
        }
        ok := EmitCoefficient(sink, tbl, r, block[k]);
        if !ok {
          if small {
            Blocked(sink.tables, log, CoefItems(tbl, r, block[k]), Body(tbl, block, 0, se, k + 1) + tail, goal);
          }
          return;
        }
        r := 0;
      }
      k := k + 1;
    }
    ghost var log := sink.log;
    BodyEnd(tbl, block, 0, se, k - r);
    OnlyTail(log, tail, goal);
    ok := true;
    if r > 0 {
      ok := sink.EmitSymbol(true, tbl, EOB);
      if !ok {
        NotCodable(sink.tables, tail[0]);
        CodableAppend(sink.tables, log, tail);
        return;
      }
    }
  }

  /** A whole block, to the file. */
  method EncodeOneBlock(sink: Sink, dcTbl: tblNo, acTbl: tblNo, block: Block, last: int, se: nat) returns (ok: bool)
    requires sink.Valid() && !sink.gather && se < 64
    modifies sink`log, sink.writer, sink.dcCounts, sink.acCounts
    ensures sink.writer.header == old(sink.writer.header)
    ensures ok ==> sink.Valid() && sink.past == old(sink.past) && BlockOk(block, last, se)
                   && sink.log == old(sink.log) + BlockItems(dcTbl, acTbl, block, last, se)
    ensures !ok && BlockOk(block, last, se) ==>
              TablesOk(sink.tables) && !Codable(sink.tables, BlockItems(dcTbl, acTbl, block, last, se))
  {
    hide Sink.Valid, TablesOk, Codable, DiffItems, AcItems, AcInRange, Size;
    ghost var log0 := sink.log;
    sink.ValidTables();
    if BlockOk(block, last, se) {
      CodableAppend(sink.tables, DiffItems(dcTbl, block[0] - last), AcItems(acTbl, block, se));
    }
    ok := EncodeDiff(sink, dcTbl, block[0] - last);
    if !ok {
      return;
    }
    ok := EncodeAc(sink, acTbl, block, se);
    if ok {
      assert sink.log == log0 + BlockItems(dcTbl, acTbl, block, last, se);
    }
  }

  // ----- The statistics pass -----

  /** How many bits a magnitude needs that is not zero. */
  method CountBitsNonzero(u: nat) returns (nbits: nat)
    requires u > 0
    ensures nbits == Size(u)
  {
    nbits := 1;
    var temp: nat := u / 2;
    while temp != 0
      invariant nbits + Size(temp) == Size(u)
    {
      nbits := nbits + 1;
      temp := temp / 2;
    }
  }

  method CountCoefficient(sink: Sink, tbl: tblNo, run: nat, v: int) returns (ok: bool)
    requires v != 0 && sink.Valid() && sink.gather
    modifies sink`log, sink.dcCounts, sink.acCounts
    ensures ok <==> Size(Abs(v)) <= MAX_COEF_BITS
    ensures ok ==> sink.Valid() && sink.past == old(sink.past) && sink.log == old(sink.log) + CoefItems(tbl, run, v)
  {
    hide Sink.Valid, RunSize, Leads, Size, ValueItems;
    ghost var small := Size(Abs(v)) <= MAX_COEF_BITS;
    ghost var goal := if small then sink.log + CoefItems(tbl, run, v) else [];
    if small {
      Start(sink.log, CoefItems(tbl, run, v));
    }
    var r := run;
    while r > 15
      invariant sink.Valid() && sink.past == old(sink.past)
      invariant small ==> Leads(sink.log, CoefItems(tbl, r, v), goal)
      decreases r
    {
      if small {
        Advance(sink.log, [Sym(true, tbl, ZRL)], CoefItems(tbl, r - 16, v), goal);
      }
      sink.CountSymbol(true, tbl, ZRL);
      r := r - 16;
    }
    var temp := v;
    if temp < 0 {
      temp := -temp;
    }
    var nbits := CountBitsNonzero(temp);
    if nbits > MAX_COEF_BITS {
      return false;
    }
    ghost var it := Sym(true, tbl, RunSize(r, nbits));
    Advance(sink.log, [it], ValueItems(v), goal);
    sink.CountSymbol(true, tbl, RunSize(r, nbits));
    Arrived(sink.log, ValueItems(v), goal);
    ValuesAreRaw(v);
    sink.SkipRaw(ValueItems(v));
    ok := true;
  }

  lemma ValuesAreRaw(v: int)
    ensures forall i | 0 <= i < |ValueItems(v)| :: ValueItems(v)[i].Raw?
  {
  }

  method CountAc(sink: Sink, tbl: tblNo, block: Block, se: nat) returns (ok: bool)
    requires sink.Valid() && sink.gather && se < 64
    modifies sink`log, sink.dcCounts, sink.acCounts
    ensures ok <==> AcInRange(block, 0, 1, se)
    ensures ok ==> sink.Valid() && sink.past == old(sink.past) && sink.log == old(sink.log) + AcItems(tbl, block, se)
  {
    hide Sink.Valid, Size, ValueItems, PointAc, Leads, Body, CoefItems;
    ghost var small := AcInRange(block, 0, 1, se);
    ghost var goal := if small then sink.log + AcItems(tbl, block, se) else [];
    ghost var tail := if HasTail(block, 0, se) then [Sym(true, tbl, EOB)] else [];
    NoTransform(block);
    if small {
      Start(sink.log, AcItems(tbl, block, se));
    }
    var r, k: nat := 0, 1;
    while k <= se
      invariant sink.Valid() && sink.past == old(sink.past)
      invariant 1 <= k <= se + 1 && r < k && (forall i | k - r <= i < k :: block[i] == 0)
      invariant r > 0 <==> k > 1 && block[k - 1] == 0
      invariant forall i | 1 <= i < k :: Size(Abs(block[i])) <= MAX_COEF_BITS
      invariant small ==> AcLeads(sink, tbl, block, 0, se, k - r, goal, tail)
    {
      if block[k] == 0 {
        SizeOfZero(0);
        r := r + 1;
      } else {
        if small {
          AcAdvance(sink.log, tbl, block, 0, se, k - r, k, goal, tail);
        }
        ok := CountCoefficient(sink, tbl, r, block[k]);
        if !ok {
          return;
        }
        r := 0;
      }
      k := k + 1;
    }
    BodyEnd(tbl, block, 0, se, k - r);
    OnlyTail(sink.log, tail, goal);
    if r > 0 {
      sink.CountSymbol(true, tbl, EOB);
    }
    ok := true;
  }

  /** A whole block, for the statistics. */
  method TestOneBlock(sink: Sink, dcTbl: tblNo, acTbl: tblNo, block: Block, last: int, se: nat) returns (ok: bool)
    requires sink.Valid() && sink.gather && se < 64
    modifies sink`log, sink.dcCounts, sink.acCounts
    ensures ok <==> BlockOk(block, last, se)
    ensures ok ==> sink.Valid() && sink.past == old(sink.past)
                   && sink.log == old(sink.log) + BlockItems(dcTbl, acTbl, block, last, se)
  {
    hide Sink.Valid, AcItems, AcInRange, Size, ValueItems;
    ghost var log0 := sink.log;
    var temp := block[0] - last;
    if temp < 0 {
      temp := -temp;
    }
    var nbits := CountBits(temp);
    if nbits > MAX_COEF_BITS + 1 {
      return false;
    }
    sink.CountSymbol(false, dcTbl, nbits);
    ValuesAreRaw(block[0] - last);
    sink.SkipRaw(ValueItems(block[0] - last));
    assert sink.log == log0 + DiffItems(dcTbl, block[0] - last);
    ok := CountAc(sink, acTbl, block, se);
    if ok {
      assert sink.log == log0 + BlockItems(dcTbl, acTbl, block, last, se);
    }
  }
}
