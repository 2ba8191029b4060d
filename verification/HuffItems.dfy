/** What a Huffman-coded scan consists of: coded symbols and raw bits (sections F.1.2
    and G.1.2 of ITU-T T.81). */
module HuffItems {
  import opened Numbers
  import opened BitStrings
  import opened HuffDerived
  import opened ArithModel

  const NUM_HUFF_TBLS := 4
  const MAX_COEF_BITS := 10

  type tblNo = t: int | 0 <= t < 4

  datatype Item = Sym(ac: bool, tbl: tblNo, s: byte) | Raw(bits: seq<bit>)

  /** The derived tables of the encoder, indexed by table number. */
  datatype Tables = Tables(dc: seq<EncoderTable>, ac: seq<EncoderTable>)

  ghost predicate TableSized(e: EncoderTable) {
    |e.ehufco| == |e.ehufsi| == 256 && forall s | 0 <= s < 256 :: e.ehufsi[s] <= 16
  }

  ghost predicate TablesOk(ts: Tables) {
    && |ts.dc| == |ts.ac| == NUM_HUFF_TBLS
    && forall t | 0 <= t < NUM_HUFF_TBLS :: TableSized(ts.dc[t]) && TableSized(ts.ac[t])
  }

  function TableFor(ts: Tables, ac: bool, tbl: tblNo): (e: EncoderTable)
    requires |ts.dc| == |ts.ac| == NUM_HUFF_TBLS
  {
    if ac then ts.ac[tbl] else ts.dc[tbl]
  }

  /** Every symbol in it has a code. */
  ghost predicate Codable(ts: Tables, items: seq<Item>)
    requires TablesOk(ts)
  {
    forall i | 0 <= i < |items| && items[i].Sym? :: HasCode(ts, items[i])
  }

  ghost predicate HasCode(ts: Tables, it: Item)
    requires TablesOk(ts) && it.Sym?
  {
    TableFor(ts, it.ac, it.tbl).ehufsi[it.s] > 0
  }

  ghost function ItemBits(ts: Tables, it: Item): (r: seq<bit>)
    requires TablesOk(ts)
  {
    match it
    case Sym(ac, tbl, s) => SymbolWord(TableFor(ts, ac, tbl), s)
    case Raw(bits) => bits
  }

  ghost function AllBits(ts: Tables, items: seq<Item>): (r: seq<bit>)
    requires TablesOk(ts)
  {
    if items == [] then [] else ItemBits(ts, items[0]) + AllBits(ts, items[1..])
  }

  lemma {:induction false} AllBitsAppend(ts: Tables, a: seq<Item>, b: seq<Item>)
    requires TablesOk(ts)
    ensures AllBits(ts, a + b) == AllBits(ts, a) + AllBits(ts, b)
  {
    hide ItemBits, TablesOk;
    if a == [] {
      assert a + b == b;
    } else {
      assert (a + b)[1..] == a[1..] + b;
      AllBitsAppend(ts, a[1..], b);
      Assoc(ItemBits(ts, a[0]), AllBits(ts, a[1..]), AllBits(ts, b));
    }
  }

  lemma AllBitsSnoc(ts: Tables, a: seq<Item>, it: Item)
    requires TablesOk(ts)
    ensures AllBits(ts, a + [it]) == AllBits(ts, a) + ItemBits(ts, it)
  {
    AllBitsAppend(ts, a, [it]);
    assert AllBits(ts, [it]) == ItemBits(ts, it) + [];
  }

  /** How often a symbol occurs. */
  function Occurrences(items: seq<Item>, ac: bool, tbl: tblNo, s: byte): (n: nat) {
    if items == [] then 0
    else Occurrences(items[..|items| - 1], ac, tbl, s) + if items[|items| - 1] == Sym(ac, tbl, s) then 1 else 0
  }

  lemma OccurrencesSnoc(items: seq<Item>, it: Item, ac: bool, tbl: tblNo, s: byte)
    ensures Occurrences(items + [it], ac, tbl, s)
            == Occurrences(items, ac, tbl, s) + if it == Sym(ac, tbl, s) then 1 else 0
  {
    assert (items + [it])[..|items|] == items;
  }

  lemma {:induction false} OccurrencesRaw(items: seq<Item>, more: seq<Item>, ac: bool, tbl: tblNo, s: byte)
    requires forall i | 0 <= i < |more| :: more[i].Raw?
    ensures Occurrences(items + more, ac, tbl, s) == Occurrences(items, ac, tbl, s)
  {
    if more == [] {
      assert items + more == items;
    } else {
      var m := more[..|more| - 1];
      assert items + more == (items + m) + [more[|more| - 1]];
      OccurrencesSnoc(items + m, more[|more| - 1], ac, tbl, s);
      OccurrencesRaw(items, m, ac, tbl, s);
    }
  }

  /** A symbol that occurs is counted. */
  lemma {:induction false} OccursPositive(items: seq<Item>, i: nat)
    requires i < |items| && items[i].Sym?
    ensures Occurrences(items, items[i].ac, items[i].tbl, items[i].s) > 0
  {
    if i < |items| - 1 {
      OccursPositive(items[..|items| - 1], i);
    }
  }

  lemma CodableAppend(ts: Tables, a: seq<Item>, b: seq<Item>)
    requires TablesOk(ts)
    ensures Codable(ts, a + b) <==> Codable(ts, a) && Codable(ts, b)
  {
    if Codable(ts, a + b) {
      forall i | 0 <= i < |a| && a[i].Sym? ensures HasCode(ts, a[i]) {
        assert (a + b)[i] == a[i];
      }
      forall i | 0 <= i < |b| && b[i].Sym? ensures HasCode(ts, b[i]) {
        assert (a + b)[|a| + i] == b[i];
      }
    }
  }

  /** With rest still to come, the items so far lead to goal. */
  ghost predicate Leads(log: seq<Item>, rest: seq<Item>, goal: seq<Item>) {
    log + rest == goal
  }

  lemma Advance(log: seq<Item>, more: seq<Item>, rest: seq<Item>, goal: seq<Item>)
    requires Leads(log, more + rest, goal)
    ensures Leads(log + more, rest, goal)
  {
  }

  lemma Arrived(log: seq<Item>, rest: seq<Item>, goal: seq<Item>)
    requires Leads(log, rest, goal)
    ensures log + rest == goal
  {
  }

  lemma Start(log: seq<Item>, rest: seq<Item>)
    ensures Leads(log, rest, log + rest)
  {
  }

  /** If what comes next has no code, then the goal has none. */
  lemma Blocked(ts: Tables, log: seq<Item>, more: seq<Item>, rest: seq<Item>, goal: seq<Item>)
    requires TablesOk(ts) && Leads(log, more + rest, goal) && !Codable(ts, more)
    ensures !Codable(ts, goal)
  {
    CodableAppend(ts, log, more + rest);
    CodableAppend(ts, more, rest);
  }

  lemma CodableStep(ts: Tables, it: Item, items: seq<Item>)
    requires TablesOk(ts) && Codable(ts, [it] + items) && it.Sym?
    ensures HasCode(ts, it) && Codable(ts, items)
  {
    CodableAppend(ts, [it], items);
    assert [it][0] == it;
  }

  // ----- Values -----

  /** The number of bits of a magnitude. */
  function Size(u: nat): (n: nat) {
    if u == 0 then 0 else 1 + Size(u / 2)
  }

  lemma {:induction false} SizeBounds(u: nat)
    requires u > 0
    ensures Size(u) > 0 && Pow2(Size(u) - 1) <= u < Pow2(Size(u))
  {
    if u > 1 {
      SizeBounds(u / 2);
    }
  }

  lemma {:induction false} SizeAtMost(u: nat, n: nat)
    ensures Size(u) <= n <==> u < Pow2(n)
    decreases u
  {
    if u > 0 && n > 0 {
      SizeAtMost(u / 2, n - 1);
    } else if u == 0 {
      assert Pow2(n) > 0;
    }
  }

  /** The bits that follow the size of a nonzero value: itself, or the complement of its magnitude. */
  function ValueBits(v: int): (s: seq<bit>)
    ensures |s| == Size(Abs(v))
  {
    BitsOf(if v < 0 then v - 1 else v, Size(Abs(v)))
  }

  function ValueItems(v: int): (r: seq<Item>) {
    if v == 0 then [] else [Raw(ValueBits(v))]
  }

  /** Figure F.12 of T.81. */
  function Extend(x: int, s: nat): (v: int)
    requires s > 0
  {
    if x <= Pow2(s - 1) - 1 then x - (Pow2(s) - 1) else x
  }

  /** The decoder's sign extension gives the value back. */
  lemma ExtendInverts(v: int)
    requires v != 0
    ensures Size(Abs(v)) > 0 && Extend(Value(ValueBits(v)), Size(Abs(v))) == v
  {
    var n := Size(Abs(v));
    SizeBounds(Abs(v));
    var p := Pow2(n - 1);
    assert Pow2(n) == 2 * p;
    hide Pow2, BitsOf, Value;
    var x := if v < 0 then v - 1 else v;
    LowBitsInt(x, n);
    if v < 0 {
      DivModUnique(x, 2 * p, -1, v - 1 + 2 * p);
      ValueOfBits(v - 1 + 2 * p, n);
    } else {
      DivModUnique(x, 2 * p, 0, v);
      ValueOfBits(v, n);
    }
  }

  lemma CodableValue(ts: Tables, v: int, items: seq<Item>)
    requires TablesOk(ts) && Codable(ts, ValueItems(v) + items)
    ensures Codable(ts, items)
  {
    CodableAppend(ts, ValueItems(v), items);
  }
}
