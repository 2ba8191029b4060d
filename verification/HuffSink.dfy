/** Where the symbols of a pass go: into the statistics, or into the file. */
module HuffSink {
  import opened Numbers
  import opened BitStrings
  import opened Stuffing
  import opened HuffBitWriter
  import opened HuffDerived
  import opened HuffItems

  class Sink {
    /** Is this a statistics pass? */
    const gather: bool
    const tables: Tables
    const writer: BitWriter
    const dcCounts: array2<nat>
    const acCounts: array2<nat>
    /** The items since the last restart, and those before it. */
    ghost var log: seq<Item>
    ghost var past: seq<Item>

    constructor (gather: bool, tables: Tables)
      requires TablesOk(tables)
      ensures Valid() && log == past == [] && this.gather == gather && this.tables == tables
      ensures fresh(writer) && fresh(dcCounts) && fresh(acCounts) && writer.output == writer.header == []
    {
      this.gather, this.tables := gather, tables;
      writer := new BitWriter([]);
      dcCounts := new nat[4, 257]((_, _) => 0);
      acCounts := new nat[4, 257]((_, _) => 0);
      log, past := [], [];
    }

    ghost predicate Valid()
      reads `log, `past, writer, dcCounts, acCounts
    {
      && TablesOk(tables) && writer.Valid()
      && dcCounts != acCounts
      && dcCounts.Length0 == acCounts.Length0 == 4 && dcCounts.Length1 == acCounts.Length1 == 257
      && (if gather then Counted(past + log) else Codable(tables, past + log) && writer.Sent() == AllBits(tables, log))
    }

    lemma ValidTables()
      requires Valid()
      ensures TablesOk(tables)
      ensures !gather ==> Codable(tables, past + log) && Codable(tables, log)
    {
      if !gather {
        CodableAppend(tables, past, log);
      }
    }

    /** The statistics are right. */
    ghost predicate Counted(items: seq<Item>)
      reads dcCounts, acCounts
      requires dcCounts.Length0 == acCounts.Length0 == 4 && dcCounts.Length1 == acCounts.Length1 == 257
    {
      forall t: tblNo, s: byte ::
        dcCounts[t, s] == Occurrences(items, false, t, s) && acCounts[t, s] == Occurrences(items, true, t, s)
    }

    /** Counts a symbol. */
    method CountSymbol(ac: bool, tbl: tblNo, s: byte)
      requires Valid() && gather
      modifies `log, dcCounts, acCounts
      ensures Valid() && log == old(log) + [Sym(ac, tbl, s)] && past == old(past)
    {
      if ac {
        acCounts[tbl, s] := acCounts[tbl, s] + 1;
      } else {
        dcCounts[tbl, s] := dcCounts[tbl, s] + 1;
      }
      ghost var it := Sym(ac, tbl, s);
      log := log + [it];
      CountedMore(it);
    }

    twostate lemma CountedMore(it: Item)
      requires past == old(past) && log == old(log) + [it]
      ensures past + log == old(past + log) + [it]
      ensures forall ac, t: tblNo, s: byte ::
                Occurrences(past + log, ac, t, s)
                == Occurrences(old(past + log), ac, t, s) + if it == Sym(ac, t, s) then 1 else 0
    {
      assert past + log == old(past + log) + [it];
      forall ac, t: tblNo, s: byte
        ensures Occurrences(past + log, ac, t, s)
                == Occurrences(old(past + log), ac, t, s) + if it == Sym(ac, t, s) then 1 else 0
      {
        OccurrencesSnoc(old(past + log), it, ac, t, s);
      }
    }

    /** Bits are not counted. */
    ghost method SkipRaw(items: seq<Item>)
      requires Valid() && gather && forall i | 0 <= i < |items| :: items[i].Raw?
      modifies `log
      ensures Valid() && log == old(log) + items && past == old(past)
    {
      hide Occurrences;
      log := log + items;
      assert past + log == old(past + log) + items;
      forall ac, t: tblNo, s: byte
        ensures Occurrences(past + log, ac, t, s) == Occurrences(old(past + log), ac, t, s)
      {
        OccurrencesRaw(old(past + log), items, ac, t, s);
      }
    }

    /** Writes a symbol, if it has a code. */
    method WriteSymbol(ac: bool, tbl: tblNo, s: byte) returns (ok: bool)
      requires Valid() && !gather
      modifies `log, writer
      ensures ok <==> HasCode(tables, Sym(ac, tbl, s))
      ensures ok ==> Valid() && log == old(log) + [Sym(ac, tbl, s)] && past == old(past)
      ensures writer.header == old(writer.header)
    {
      hide AllBits, Occurrences;
      var e := TableFor(tables, ac, tbl);
      ok := writer.EmitBits(e.ehufco[s], e.ehufsi[s]);
      ghost var it := Sym(ac, tbl, s);
      AllBitsSnoc(tables, log, it);
      assert past + (log + [it]) == (past + log) + [it];
      log := log + [it];
    }

    method EmitSymbol(ac: bool, tbl: tblNo, s: byte) returns (ok: bool)
      requires Valid()
      modifies `log, writer, dcCounts, acCounts
      ensures ok <==> gather || HasCode(tables, Sym(ac, tbl, s))
      ensures ok ==> Valid() && log == old(log) + [Sym(ac, tbl, s)] && past == old(past)
      ensures writer.header == old(writer.header)
    {
      if gather {
        CountSymbol(ac, tbl, s);
        ok := true;
      } else {
        ok := WriteSymbol(ac, tbl, s);
      }
    }

    /** Writes bits, unless this is a statistics pass. */
    method EmitRaw(code: int, size: nat)
      requires Valid() && 1 <= size <= 16
      modifies `log, writer
      ensures Valid() && log == old(log) + [Raw(BitsOf(code, size))] && past == old(past)
      ensures writer.header == old(writer.header)
    {
      hide AllBits;
      ghost var it := Raw(BitsOf(code, size));
      AllBitsSnoc(tables, log, it);
      if !gather {
        var ok := writer.EmitBits(code, size);
      }
      log := log + [it];
      CountedMore(it);
    }

    /** Completes the last byte and writes a restart marker; a new interval begins. */
    method Restart(num: nat) returns (ghost bytes: seq<byte>, ghost pad: nat)
      requires Valid() && num <= 7
      modifies `log, `past, writer
      ensures Valid() && log == [] && past == old(past + log)
      ensures gather ==> writer.output == old(writer.output)
      ensures !gather ==>
                && pad <= 7 && BytesToBits(bytes) == AllBits(tables, old(log)) + Ones(pad)
                && writer.output == writer.header == old(writer.header) + Stuff(bytes) + [0xFF, RST0 + num]
    {
      hide Stuff, BytesToBits, AllBits, Occurrences, Codable, Ones;
      bytes, pad := [], 0;
      if !gather {
        pad := writer.FlushBits();
        bytes := writer.emitted;
        writer.PutMarker(RST0 + num);
      }
      past := past + log;
      log := [];
      assert past + log == old(past + log);
      NoBits(tables);
    }
  }

  lemma NoBits(ts: Tables)
    requires TablesOk(ts)
    ensures AllBits(ts, []) == []
  {
  }
}
