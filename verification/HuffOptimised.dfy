/** Two passes over a sequential scan: the tables built from the statistics of the first
    have a code for every symbol of the second. */
module HuffOptimised {
  import opened Numbers
  import opened BitStrings
  import opened ArithModel
  import opened ArithScan
  import opened HuffTable
  import opened HuffDerived
  import opened HuffCost
  import opened HuffTree
  import opened HuffBuild
  import L = HuffLimit
  import opened HuffItems
  import opened HuffBlocks
  import opened HuffSink
  import opened HuffSequential
  import opened HuffSequentialPass

  // ----- Which symbols occur -----

  /** The tables that a scan uses, and the largest size of its AC coefficients. */
  datatype Usage = Usage(dc: set<tblNo>, ac: set<tblNo>, size: nat)

  ghost function UsageOf(lay: Layout, comps: nat): (u: Usage)
    requires comps <= 4
  {
    Usage(set ci: compNo | ci < comps :: lay.dcTbl(ci),
          if lay.se > 0 then set ci: compNo | ci < comps :: lay.acTbl(ci) else {}, MAX_COEF_BITS)
  }

  /** Symbols by run and size have a size within the limit; sizes of differences are at most eleven. */
  predicate Plausible(u: Usage, it: Item) {
    it.Sym? ==>
      if it.ac then it.tbl in u.ac && it.s % 16 <= u.size else it.tbl in u.dc && it.s <= MAX_COEF_BITS + 1
  }

  ghost predicate AllPlausible(u: Usage, items: seq<Item>) {
    forall i | 0 <= i < |items| :: Plausible(u, items[i])
  }

  lemma PlausibleAppend(u: Usage, a: seq<Item>, b: seq<Item>)
    requires AllPlausible(u, a) && AllPlausible(u, b)
    ensures AllPlausible(u, a + b)
  {
  }

  lemma {:induction false} PlausibleBody(u: Usage, tbl: tblNo, b: Block, al: nat, se: nat, k: nat)
    requires k <= se + 1 && se < 64 && AcInRange(b, al, k, se) && (k <= se ==> tbl in u.ac) && u.size == MAX_COEF_BITS
    ensures AllPlausible(u, Body(tbl, b, al, se, k))
    decreases 64 - k
  {
    hide Size, PointAc, AllPlausible, CoefItems, AcInRange, Body;
    var j := NextNonzero(b, al, se, k);
    StillInRange(b, al, se, k, j);
    if j > se {
      BodyEnd(tbl, b, al, se, k);
      NonePlausible(u);
    } else {
      var v := PointAc(b[j], al);
      BodyStep(tbl, b, al, se, k, j);
      PlausibleCoef(u, tbl, j - k, v);
      PlausibleBody(u, tbl, b, al, se, j + 1);
      PlausibleAppend(u, CoefItems(tbl, j - k, v), Body(tbl, b, al, se, j + 1));
    }
  }

  lemma {:induction false} PlausibleCoef(u: Usage, tbl: tblNo, run: nat, v: int)
    requires Size(Abs(v)) <= MAX_COEF_BITS == u.size && tbl in u.ac
    ensures AllPlausible(u, CoefItems(tbl, run, v))
  {
    hide Size, AllPlausible, RunSize, ValueItems;
    if run > 15 {
      PlausibleCoef(u, tbl, run - 16, v);
      OnePlausible(u, Sym(true, tbl, ZRL));
      PlausibleAppend(u, [Sym(true, tbl, ZRL)], CoefItems(tbl, run - 16, v));
    } else {
      var it := Sym(true, tbl, RunSize(run, Size(Abs(v))));
      RunSizeParts(run, Size(Abs(v)));
      OnePlausible(u, it);
      PlausibleValue(u, v);
      PlausibleAppend(u, [it], ValueItems(v));
    }
  }

  lemma StillInRange(b: Block, al: nat, se: nat, k: nat, j: nat)
    requires k <= j && se < 64 && AcInRange(b, al, k, se)
    ensures AcInRange(b, al, j + 1, se)
    ensures j <= se ==> Size(Abs(PointAc(b[j], al))) <= MAX_COEF_BITS
  {
  }

  lemma NonePlausible(u: Usage)
    ensures AllPlausible(u, [])
  {
  }

  lemma OnePlausible(u: Usage, it: Item)
    requires Plausible(u, it)
    ensures AllPlausible(u, [it])
  {
  }

  lemma PlausibleValue(u: Usage, v: int)
    ensures AllPlausible(u, ValueItems(v))
  {
  }

  lemma RunSizeParts(run: nat, size: nat)
    requires run <= 15 && size <= 15
    ensures RunSize(run, size) % 16 == size && RunSize(run, size) / 16 == run
  {
  }

  lemma PlausibleBlock(u: Usage, dcTbl: tblNo, acTbl: tblNo, b: Block, last: int, se: nat)
    requires se < 64 && BlockOk(b, last, se) && dcTbl in u.dc && (se > 0 ==> acTbl in u.ac) && u.size == MAX_COEF_BITS
    ensures AllPlausible(u, BlockItems(dcTbl, acTbl, b, last, se))
  {
    hide Size, Body, AcInRange;
    PlausibleBody(u, acTbl, b, 0, se, 1);
    ValuesAreRaw(b[0] - last);
  }

  ghost predicate OfComps(mcu: Mcu, comps: nat) {
    forall i | 0 <= i < |mcu| :: mcu[i].ci < comps
  }

  lemma {:induction false} PlausibleMcu(comps: nat, lay: Layout, last: Predictions, mcu: Mcu)
    requires LayoutOk(lay) && UnitsOk(mcu) && McuOk(lay, last, mcu) && comps <= 4 && OfComps(mcu, comps)
    ensures AllPlausible(UsageOf(lay, comps), McuItems(lay, last, mcu))
    decreases |mcu|
  {
    hide BlockOk, BlockItems, Plausible, InRange;
    if mcu != [] {
      var x := mcu[0];
      CoefInRange(x.b, 0);
      PlausibleBlock(UsageOf(lay, comps), lay.dcTbl(x.ci), lay.acTbl(x.ci), x.b, last[x.ci], lay.se);
      PlausibleMcu(comps, lay, last[x.ci := x.b[0]], mcu[1..]);
    }
  }

  lemma {:induction false} PlausibleScan(comps: nat, lay: Layout, pr: Progress, mcus: seq<Mcu>)
    requires LayoutOk(lay) && McusOk(mcus) && AllMcusOk(lay, pr, mcus) && comps <= 4
    requires forall i | 0 <= i < |mcus| :: OfComps(mcus[i], comps)
    ensures AllPlausible(UsageOf(lay, comps), ScanItems(lay, pr, mcus))
    decreases |mcus|
  {
    hide McuOk, McuItems, Plausible, UnitsOk, Onward, LastFor;
    if mcus != [] {
      PlausibleMcu(comps, lay, LastFor(lay, pr), mcus[0]);
      PlausibleScan(comps, lay, Onward(lay, pr, mcus[0]), mcus[1..]);
    }
  }

  // ----- Statistics of one table -----

  /** The counts of a table. */
  ghost function Counts(items: seq<Item>, ac: bool, tbl: tblNo): (w: Weights)
    ensures |w| == 256 && forall s | 0 <= s < 256 :: w[s] == Occurrences(items, ac, tbl, s)
  {
    seq(256, s requires 0 <= s < 256 => Occurrences(items, ac, tbl, s))
  }

  lemma {:induction false} CountsSum(items: seq<Item>, ac: bool, tbl: tblNo)
    ensures Sum(Counts(items, ac, tbl)) <= |items|
  {
    hide Sum;
    if items == [] {
      SumZero(Counts([], ac, tbl));
    } else {
      var rest, it := items[..|items| - 1], items[|items| - 1];
      CountsSum(rest, ac, tbl);
      var w := Counts(rest, ac, tbl);
      if it.Sym? && it.ac == ac && it.tbl == tbl {
        assert Counts(items, ac, tbl) == w[it.s as int := w[it.s] + 1];
        SumUpdate(w, it.s, w[it.s] + 1);
      } else {
        assert Counts(items, ac, tbl) == w;
      }
    }
  }

  lemma {:induction false} NeverOccurs(u: Usage, items: seq<Item>, ac: bool, tbl: tblNo, s: byte)
    requires AllPlausible(u, items) && !Plausible(u, Sym(ac, tbl, s))
    ensures Occurrences(items, ac, tbl, s) == 0
  {
    if items != [] {
      NeverOccurs(u, items[..|items| - 1], ac, tbl, s);
    }
  }

  /** The statistics of a table that is used meet the conditions for building it. */
  lemma CountsFit(u: Usage, items: seq<Item>, ac: bool, tbl: tblNo, i: nat)
    requires AllPlausible(u, items) && |items| < SEARCH_LIMIT && u.size <= MAX_COEF_BITS
    requires i < |items| && items[i].Sym? && items[i].ac == ac && items[i].tbl == tbl
    ensures Sum(Counts(items, ac, tbl) + [1]) <= |items| + 1 <= SEARCH_LIMIT
    ensures 1 <= Roots(Counts(items, ac, tbl)) <= (if ac then 16 * (u.size + 1) else MAX_COEF_BITS + 2) <= 254
    ensures !ac ==> forall s | 16 <= s < 256 :: Counts(items, ac, tbl)[s] == 0
  {
    hide Sum, Occurrences, Roots;
    var w := Counts(items, ac, tbl);
    CountsSum(items, ac, tbl);
    PseudoSum(w);
    OccursPositive(items, i);
    HasRoot(w, items[i].s);
    forall s: byte | !Plausible(u, Sym(ac, tbl, s)) ensures w[s] == 0 {
      NeverOccurs(u, items, ac, tbl, s);
    }
    if ac {
      RootsColumns(w, 16, u.size + 1);
    } else {
      RootsPrefix(w, MAX_COEF_BITS + 2);
    }
  }

  lemma PseudoSum(w: Weights)
    requires |w| == 256
    ensures Sum(w + [1]) == Sum(w) + 1
  {
    hide Sum;
    L.SumSnoc(w + [1], 256);
    assert (w + [1])[..256] == w && (w + [1])[..257] == w + [1];
  }

  // ----- Tables from statistics -----

  /** The table has a code for everything that was counted for it. */
  ghost predicate Serves(items: seq<Item>, ac: bool, tbl: tblNo, t: Table) {
    && Encodable(t, !ac)
    && forall s: byte | Occurrences(items, ac, tbl, s) > 0 :: Listed(t, s, Total(t.bits, 16))
  }

  /** The tree for these counts is deeper than 32, and the table is refused. */
  ghost predicate TooDeep(items: seq<Item>, ac: bool, tbl: tblNo) {
    !Shallow(Counts(items, ac, tbl) + [1])
  }

  /** Tables that are never refused: for differences, for refinement, and for small scans. */
  ghost predicate Harmless(u: Usage, items: seq<Item>, ac: bool) {
    !ac || u.size <= 1 || |items| + 1 < DEEP_TOTAL
  }

  /** Builds the table of one row of statistics. */
  method TableFromCounts(sink: Sink, ac: bool, tbl: tblNo, ghost u: Usage, ghost items: seq<Item>, ghost i: nat)
    returns (ok: bool, t: Table)
    requires sink.Valid() && sink.gather && items == sink.past + sink.log
    requires AllPlausible(u, items) && |items| < SEARCH_LIMIT && u.size <= MAX_COEF_BITS
    requires i < |items| && items[i].Sym? && items[i].ac == ac && items[i].tbl == tbl
    ensures ok ==> Serves(items, ac, tbl, t)
    ensures ok <==> !TooDeep(items, ac, tbl)
    ensures Harmless(u, items, ac) ==> ok
  {
    hide Sum, Roots, Encodable, Listed, Occurrences, AllPlausible, FullTree, Optimal, L.TableFor, Shallow, TreeDepths;
    var freq := new nat[257];
    var s: nat := 0;
    while s < 257
      invariant s <= 257 && fresh(freq)
      invariant sink.Counted(items)
      invariant forall r: nat | r < s && r < 256 :: freq[r] == Occurrences(items, ac, tbl, r)
    {
      freq[s] := if ac then sink.acCounts[tbl, s] else sink.dcCounts[tbl, s];
      s := s + 1;
    }
    assert freq[..256] == Counts(items, ac, tbl);
    CountsFit(u, items, ac, tbl, i);
    ok, t := L.GenOptimalTable(freq);
  }

  /** Some symbol of the table occurs. */
  ghost predicate Uses(items: seq<Item>, ac: bool, tbl: tblNo) {
    exists i :: 0 <= i < |items| && IsFrom(items[i], ac, tbl)
  }

  predicate IsFrom(it: Item, ac: bool, tbl: tblNo) {
    it.Sym? && it.ac == ac && it.tbl == tbl
  }

  lemma UsesAppend(a: seq<Item>, b: seq<Item>, ac: bool, tbl: tblNo)
    requires Uses(a, ac, tbl) || Uses(b, ac, tbl)
    ensures Uses(a + b, ac, tbl)
  {
    if i :| 0 <= i < |a| && IsFrom(a[i], ac, tbl) {
      assert (a + b)[i] == a[i];
    } else {
      var i :| 0 <= i < |b| && IsFrom(b[i], ac, tbl);
      assert (a + b)[|a| + i] == b[i];
    }
  }

  lemma FirstUses(it: Item, rest: seq<Item>, ac: bool, tbl: tblNo)
    requires IsFrom(it, ac, tbl)
    ensures Uses([it] + rest, ac, tbl)
  {
    assert ([it] + rest)[0] == it;
  }

  /** Every block has a symbol of its DC table, and of its AC table if there are AC coefficients. */
  lemma BlockUses(dcTbl: tblNo, acTbl: tblNo, b: Block, last: int, se: nat)
    requires se < 64 && BlockOk(b, last, se)
    ensures Uses(BlockItems(dcTbl, acTbl, b, last, se), false, dcTbl)
    ensures se > 0 ==> Uses(BlockItems(dcTbl, acTbl, b, last, se), true, acTbl)
  {
    hide Uses, Size, ValueItems, PointAc, AcInRange, Body;
    var diff := DiffItems(dcTbl, b[0] - last);
    FirstUses(Sym(false, dcTbl, Size(Abs(b[0] - last))), ValueItems(b[0] - last), false, dcTbl);
    UsesAppend(diff, AcItems(acTbl, b, se), false, dcTbl);
    if se > 0 {
      AcUses(acTbl, b, se);
      UsesAppend(diff, AcItems(acTbl, b, se), true, acTbl);
    }
  }

  lemma AcUses(acTbl: tblNo, b: Block, se: nat)
    requires 0 < se < 64 && AcInRange(b, 0, 1, se)
    ensures Uses(AcItems(acTbl, b, se), true, acTbl)
  {
    hide Uses, Size, ValueItems, PointAc, Body, CoefItems;
    var body := Body(acTbl, b, 0, se, 1);
    if HasTail(b, 0, se) {
      FirstUses(Sym(true, acTbl, EOB), [], true, acTbl);
      assert [Sym(true, acTbl, EOB)] + [] == [Sym(true, acTbl, EOB)];
      UsesAppend(body, [Sym(true, acTbl, EOB)], true, acTbl);
    } else {
      var j := NextNonzero(b, 0, se, 1);
      assert j <= se;
      var v := PointAc(b[j], 0);
      BodyStep(acTbl, b, 0, se, 1, j);
      CoefUses(acTbl, j - 1, v);
      UsesAppend(CoefItems(acTbl, j - 1, v), Body(acTbl, b, 0, se, j + 1), true, acTbl);
      assert body + [] == body;
    }
  }

  lemma CoefUses(tbl: tblNo, run: nat, v: int)
    requires Size(Abs(v)) <= MAX_COEF_BITS
    ensures Uses(CoefItems(tbl, run, v), true, tbl)
  {
    assert IsFrom(CoefItems(tbl, run, v)[0], true, tbl);
  }

  /** The scan has a block of each of its components. */
  ghost predicate HasComps(mcus: seq<Mcu>, comps: nat) {
    forall ci: compNo | ci < comps :: HasComp(mcus, ci)
  }

  ghost predicate HasComp(mcus: seq<Mcu>, ci: compNo) {
    exists m, i :: 0 <= m < |mcus| && 0 <= i < |mcus[m]| && mcus[m][i].ci == ci
  }

  lemma {:induction false} McuUses(lay: Layout, last: Predictions, mcu: Mcu, i: nat)
    requires LayoutOk(lay) && UnitsOk(mcu) && McuOk(lay, last, mcu) && i < |mcu|
    ensures Uses(McuItems(lay, last, mcu), false, lay.dcTbl(mcu[i].ci))
    ensures lay.se > 0 ==> Uses(McuItems(lay, last, mcu), true, lay.acTbl(mcu[i].ci))
    decreases |mcu|
  {
    hide Uses, BlockOk, BlockItems, InRange;
    var x := mcu[0];
    CoefInRange(x.b, 0);
    var items := BlockItems(lay.dcTbl(x.ci), lay.acTbl(x.ci), x.b, last[x.ci], lay.se);
    var rest := McuItems(lay, last[x.ci := x.b[0]], mcu[1..]);
    if i == 0 {
      BlockUses(lay.dcTbl(x.ci), lay.acTbl(x.ci), x.b, last[x.ci], lay.se);
    } else {
      McuUses(lay, last[x.ci := x.b[0]], mcu[1..], i - 1);
    }
    UsesAppend(items, rest, false, lay.dcTbl(mcu[i].ci));
    if lay.se > 0 {
      UsesAppend(items, rest, true, lay.acTbl(mcu[i].ci));
    }
  }

  lemma {:induction false} ScanUses(lay: Layout, pr: Progress, mcus: seq<Mcu>, m: nat, i: nat)
    requires LayoutOk(lay) && McusOk(mcus) && AllMcusOk(lay, pr, mcus) && m < |mcus| && i < |mcus[m]|
    ensures Uses(ScanItems(lay, pr, mcus), false, lay.dcTbl(mcus[m][i].ci))
    ensures lay.se > 0 ==> Uses(ScanItems(lay, pr, mcus), true, lay.acTbl(mcus[m][i].ci))
    decreases |mcus|
  {
    hide Uses, McuOk, McuItems, UnitsOk, Onward, LastFor;
    var ci := mcus[m][i].ci;
    if m == 0 {
      McuUses(lay, LastFor(lay, pr), mcus[0], i);
    } else {
      ScanUses(lay, Onward(lay, pr, mcus[0]), mcus[1..], m - 1, i);
    }
    var items := McuItems(lay, LastFor(lay, pr), mcus[0]);
    var rest := ScanItems(lay, Onward(lay, pr, mcus[0]), mcus[1..]);
    UsesAppend(items, rest, false, lay.dcTbl(ci));
    if lay.se > 0 {
      UsesAppend(items, rest, true, lay.acTbl(ci));
    }
  }

  // ----- From the statistics to the output pass -----

  /** The statistics pass ends: one table for each table number in use. */
  method BuildTables(sink: Sink, ac: bool, tbls: compNo -> tblNo, comps: nat, ghost u: Usage, ghost items: seq<Item>)
    returns (ok: bool, tables: seq<Table>)
    requires sink.Valid() && sink.gather && items == sink.past + sink.log && comps <= 4
    requires AllPlausible(u, items) && |items| < SEARCH_LIMIT && u.size <= MAX_COEF_BITS
    requires forall ci: compNo | ci < comps :: Uses(items, ac, tbls(ci))
    ensures |tables| == NUM_HUFF_TBLS
    ensures ok ==> forall ci: compNo | ci < comps :: Serves(items, ac, tbls(ci), tables[tbls(ci)])
    ensures ok <==> forall ci: compNo | ci < comps :: !TooDeep(items, ac, tbls(ci))
    ensures Harmless(u, items, ac) ==> ok
  {
    hide AllPlausible, Serves, Sink.Valid, TooDeep;
    var did := new bool[NUM_HUFF_TBLS](_ => false);
    tables := seq(NUM_HUFF_TBLS, _ => Table(seq(17, _ => 0), []));
    var ci := 0;
    while ci < comps
      invariant ci <= comps && |tables| == NUM_HUFF_TBLS && fresh(did)
      invariant forall c: compNo | c < ci :: did[tbls(c)]
      invariant forall t | 0 <= t < NUM_HUFF_TBLS && did[t] :: Serves(items, ac, t, tables[t]) && !TooDeep(items, ac, t)
    {
      var tbl := tbls(ci);
      if !did[tbl] {
        ghost var i :| 0 <= i < |items| && IsFrom(items[i], ac, tbl);
        var t;
        ok, t := TableFromCounts(sink, ac, tbl, u, items, i);
        if !ok {
          return;
        }
        tables := tables[tbl := t];
        did[tbl] := true;
      }
      ci := ci + 1;
    }
    ok := true;
  }

  /** The output pass starts: derived tables for the tables in use. */
  method DeriveTables(ac: bool, tbls: compNo -> tblNo, comps: nat, tables: seq<Table>) returns (es: seq<EncoderTable>)
    requires comps <= 4 && |tables| == NUM_HUFF_TBLS
    requires forall ci: compNo | ci < comps :: Encodable(tables[tbls(ci)], !ac)
    ensures |es| == NUM_HUFF_TBLS && forall t | 0 <= t < NUM_HUFF_TBLS :: TableSized(es[t])
    ensures forall ci: compNo | ci < comps :: Encodes(tables[tbls(ci)], es[tbls(ci)])
  {
    hide Encodable, Encodes;
    es := seq(NUM_HUFF_TBLS, _ => EncoderTable(seq(256, _ => 0), seq(256, _ => 0)));
    ghost var done: set<tblNo> := {};
    var ci := 0;
    while ci < comps
      invariant ci <= comps && |es| == NUM_HUFF_TBLS && forall t | 0 <= t < NUM_HUFF_TBLS :: TableSized(es[t])
      invariant forall c: compNo | c < ci :: Encodes(tables[tbls(c)], es[tbls(c)])
    {
      EncodableOk(tables[tbls(ci)], !ac);
      var ok, e := MakeEncoderTable(tables[tbls(ci)], !ac);
      EncodesSized(tables[tbls(ci)], e);
      es := es[tbls(ci) := e];
      ci := ci + 1;
    }
  }

  lemma EncodableOk(t: Table, isDC: bool)
    requires Encodable(t, isDC)
    ensures TableOk(t)
  {
  }

  lemma EncodesSized(t: Table, e: EncoderTable)
    requires Encodes(t, e)
    ensures TableSized(e)
  {
    forall s | 0 <= s < 256 ensures e.ehufsi[s] <= 16 {
      if e.ehufsi[s] > 0 {
        assert Listed(t, s, Total(t.bits, 16));
        var p :| 0 <= p < Total(t.bits, 16) && t.huffval[p] == s;
        assert CodedAs(t, p, e.ehufco[t.huffval[p]], e.ehufsi[t.huffval[p]]);
      }
    }
  }

  lemma ServedCode(items: seq<Item>, i: nat, t: Table, e: EncoderTable)
    requires i < |items| && items[i].Sym? && Serves(items, items[i].ac, items[i].tbl, t) && Encodes(t, e)
    ensures e.ehufsi[items[i].s] > 0
  {
    hide Occurrences, Encodable;
    OccursPositive(items, i);
    assert Listed(t, items[i].s, Total(t.bits, 16));
    var p :| 0 <= p < Total(t.bits, 16) && t.huffval[p] == items[i].s;
    assert CodedAs(t, p, e.ehufco[t.huffval[p]], e.ehufsi[t.huffval[p]]);
  }

  lemma ServedItems(lay: Layout, comps: nat, items: seq<Item>, dc: seq<Table>, ac: seq<Table>, ts: Tables)
    requires comps <= 4 && AllPlausible(UsageOf(lay, comps), items) && TablesOk(ts)
    requires |dc| == |ac| == NUM_HUFF_TBLS
    requires forall ci: compNo | ci < comps ::
               Serves(items, false, lay.dcTbl(ci), dc[lay.dcTbl(ci)])
               && Encodes(dc[lay.dcTbl(ci)], ts.dc[lay.dcTbl(ci)])
    requires lay.se > 0 ==> forall ci: compNo | ci < comps ::
               Serves(items, true, lay.acTbl(ci), ac[lay.acTbl(ci)]) && Encodes(ac[lay.acTbl(ci)], ts.ac[lay.acTbl(ci)])
    ensures Codable(ts, items)
  {
    hide Serves, Encodes, TablesOk;
    SizesOf(ts);
    forall i | 0 <= i < |items| && items[i].Sym? ensures HasCode(ts, items[i]) {
      var it := items[i];
      assert Plausible(UsageOf(lay, comps), it);
      if it.ac {
        var ci: compNo :| ci < comps && lay.acTbl(ci) == it.tbl;
        ServedCode(items, i, ac[it.tbl], ts.ac[it.tbl]);
      } else {
        var ci: compNo :| ci < comps && lay.dcTbl(ci) == it.tbl;
        ServedCode(items, i, dc[it.tbl], ts.dc[it.tbl]);
      }
    }
  }

  lemma SizesOf(ts: Tables)
    requires TablesOk(ts)
    ensures |ts.dc| == |ts.ac| == NUM_HUFF_TBLS
  {
  }

  /** The tree of some AC table of the scan is too deep. */
  ghost predicate SomeTooDeep(lay: Layout, comps: nat, items: seq<Item>) {
    lay.se > 0 && exists ci: compNo :: ci < comps && TooDeep(items, true, lay.acTbl(ci))
  }

  /** The derived tables for a scan, from the statistics that were gathered over it. */
  method TablesFor(sink: Sink, lay: Layout, comps: nat, ghost items: seq<Item>)
    returns (ok: bool, dc: seq<Table>, ac: seq<Table>, ts: Tables)
    requires sink.Valid() && sink.gather && items == sink.past + sink.log && comps <= 4
    requires AllPlausible(UsageOf(lay, comps), items) && |items| < SEARCH_LIMIT
    requires forall ci: compNo | ci < comps ::
               Uses(items, false, lay.dcTbl(ci)) && (lay.se > 0 ==> Uses(items, true, lay.acTbl(ci)))
    ensures ok ==> TablesOk(ts) && Codable(ts, items) && |dc| == |ac| == NUM_HUFF_TBLS
    ensures ok ==> forall ci: compNo | ci < comps ::
                     && Encodes(dc[lay.dcTbl(ci)], ts.dc[lay.dcTbl(ci)])
                     && (lay.se > 0 ==> Encodes(ac[lay.acTbl(ci)], ts.ac[lay.acTbl(ci)]))
    ensures ok ==> forall ci: compNo | ci < comps :: Encodable(dc[lay.dcTbl(ci)], true)
    ensures ok <==> !SomeTooDeep(lay, comps, items)
    ensures |items| + 1 < DEEP_TOTAL ==> ok
  {
    hide TooDeep, AllPlausible, Sink.Valid, Encodable, Encodes, Uses, Occurrences, Codable;
    ghost var u := UsageOf(lay, comps);
    ac, ts := [], Tables([], []);
    ok, dc := BuildTables(sink, false, lay.dcTbl, comps, u, items);
    if !ok {
      return;
    }
    var acComps := if lay.se > 0 then comps else 0;
    ok, ac := BuildTables(sink, true, lay.acTbl, acComps, u, items);
    if !ok {
      return;
    }
    var dcs := DeriveTables(false, lay.dcTbl, comps, dc);
    var acs := DeriveTables(true, lay.acTbl, acComps, ac);
    ts := Tables(dcs, acs);
    ServedItems(lay, comps, items, dc, ac, ts);
  }

  datatype Outcome = Done | BadCoefficient | CodeTooLong

  /** The statistics pass.  Every table of the scan gets a symbol. */
  method StatisticsPass(lay: Layout, comps: nat, mcus: seq<Mcu>) returns (ok: bool, stats: Sink)
    requires LayoutOk(lay) && McusOk(mcus) && comps <= 4
    requires HasComps(mcus, comps) && forall i | 0 <= i < |mcus| :: OfComps(mcus[i], comps)
    ensures ok <==> AllMcusOk(lay, Begin(lay), mcus)
    ensures ok ==> stats.Valid() && stats.gather && stats.past + stats.log == ScanItems(lay, Begin(lay), mcus)
    ensures ok ==> AllPlausible(UsageOf(lay, comps), ScanItems(lay, Begin(lay), mcus))
    ensures ok ==> forall ci: compNo | ci < comps ::
                     && Uses(ScanItems(lay, Begin(lay), mcus), false, lay.dcTbl(ci))
                     && (lay.se > 0 ==> Uses(ScanItems(lay, Begin(lay), mcus), true, lay.acTbl(ci)))
  {
    hide Sink.Valid, AllPlausible, Uses, AllMcusOk, ScanItems, UsageOf, TablesOk;
    NoTables();
    stats := new Sink(true, Tables(seq(4, _ => EMPTY), seq(4, _ => EMPTY)));
    var pass := new SequentialPass(stats, lay);
    ok := pass.GatherScan(mcus);
    if !ok {
      return;
    }
    ghost var items := ScanItems(lay, Begin(lay), mcus);
    assert pass.Total() == items;
    PlausibleScan(comps, lay, Begin(lay), mcus);
    forall ci: compNo | ci < comps
      ensures Uses(items, false, lay.dcTbl(ci)) && (lay.se > 0 ==> Uses(items, true, lay.acTbl(ci)))
    {
      assert HasComp(mcus, ci);
      var m, i :| 0 <= m < |mcus| && 0 <= i < |mcus[m]| && mcus[m][i].ci == ci;
      ScanUses(lay, Begin(lay), mcus, m, i);
    }
  }

  /** The output pass, with tables that have a code for everything in the scan. */
  method OutputPass(lay: Layout, mcus: seq<Mcu>, ts: Tables) returns (pass: SequentialPass, ghost datas: seq<seq<byte>>)
    requires LayoutOk(lay) && McusOk(mcus) && AllMcusOk(lay, Begin(lay), mcus)
    requires TablesOk(ts) && Codable(ts, ScanItems(lay, Begin(lay), mcus))
    ensures fresh(pass) && fresh(pass.sink) && fresh(pass.sink.writer)
    ensures pass.Valid() && pass.lay == lay && !pass.sink.gather && pass.sink.tables == ts
    ensures pass.Total() == ScanItems(lay, Begin(lay), mcus) && pass.Finished(mcus, datas)
  {
    hide Sink.Valid, AllMcusOk, ScanItems, Codable, TablesOk;
    var sink := new Sink(false, ts);
    pass := new SequentialPass(sink, lay);
    var ok;
    ok, datas := pass.EncodeScan(mcus);
    assert ok;
  }

  /** The tables that go into the file, and the derived tables that the output pass uses. */
  ghost predicate Derived(lay: Layout, comps: nat, dc: seq<Table>, ac: seq<Table>, ts: Tables)
    requires TablesOk(ts) && comps <= 4
  {
    && |dc| == |ac| == NUM_HUFF_TBLS
    && forall ci: compNo | ci < comps ::
         && Encodable(dc[lay.dcTbl(ci)], true) && Encodes(dc[lay.dcTbl(ci)], ts.dc[lay.dcTbl(ci)])
         && (lay.se > 0 ==> Encodes(ac[lay.acTbl(ci)], ts.ac[lay.acTbl(ci)]))
  }

  /** Both passes of an optimised scan.  The output pass never meets a symbol without a code. */
  method OptimisedScan(lay: Layout, comps: nat, mcus: seq<Mcu>)
    returns (o: Outcome, pass: SequentialPass?, dc: seq<Table>, ac: seq<Table>, ghost datas: seq<seq<byte>>)
    requires LayoutOk(lay) && McusOk(mcus) && comps <= 4
    requires HasComps(mcus, comps) && forall i | 0 <= i < |mcus| :: OfComps(mcus[i], comps)
    requires AllMcusOk(lay, Begin(lay), mcus) ==> |ScanItems(lay, Begin(lay), mcus)| < SEARCH_LIMIT
    ensures o.BadCoefficient? <==> !AllMcusOk(lay, Begin(lay), mcus)
    ensures o.CodeTooLong? <==> AllMcusOk(lay, Begin(lay), mcus)
                                && SomeTooDeep(lay, comps, ScanItems(lay, Begin(lay), mcus))
    ensures AllMcusOk(lay, Begin(lay), mcus) && |ScanItems(lay, Begin(lay), mcus)| + 1 < DEEP_TOTAL ==> o.Done?
    ensures o.Done? ==> pass != null && pass.Valid() && !pass.sink.gather
                        && pass.Total() == ScanItems(lay, Begin(lay), mcus)
    ensures o.Done? ==> TablesOk(pass.sink.tables) && Derived(lay, comps, dc, ac, pass.sink.tables)
    ensures o.Done? ==> fresh(pass) && fresh(pass.sink) && fresh(pass.sink.writer)
    ensures o.Done? ==> pass.lay == lay && TablesOk(pass.sink.tables) && pass.Finished(mcus, datas)
  {
    hide Sink.Valid, AllPlausible, Uses, Encodable, Encodes, AllMcusOk, ScanItems, UsageOf, Codable, TablesOk,
         SomeTooDeep, HasComps, OfComps;
    var ok, stats := StatisticsPass(lay, comps, mcus);
    pass, dc, ac, datas := null, [], [], [];
    if !ok {
      o := BadCoefficient;
      return;
    }
    var ts;
    ok, dc, ac, ts := TablesFor(stats, lay, comps, ScanItems(lay, Begin(lay), mcus));
    if !ok {
      o := CodeTooLong;
      return;
    }
    pass, datas := OutputPass(lay, mcus, ts);
    o := Done;
  }

  const EMPTY := EncoderTable(seq(256, _ => 0), seq(256, _ => 0))

  lemma NoTables()
    ensures TablesOk(Tables(seq(4, _ => EMPTY), seq(4, _ => EMPTY)))
  {
  }
}
