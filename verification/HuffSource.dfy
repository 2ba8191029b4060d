/** Where the items of a pass come from: symbols and raw bits fetched from a bit reader. */
module HuffSource {
  import opened Numbers
  import opened BitStrings
  import opened Stuffing
  import opened RestartIntervals
  import opened HuffBitWriter
  import opened HuffDerived
  import opened HuffBitReader
  import opened ArithModel
  import opened HuffItems
  import opened HuffBlocks

  /** The two sides use the same table. */
  ghost predicate Matched(e: EncoderTable, d: DecoderTable) {
    Decodes(d.pub, d) && Encodes(d.pub, e)
  }

  /** These items come next, then the padding of the last byte. */
  ghost predicate Expects(reader: BitReader, ts: Tables, items: seq<Item>, pad: seq<bit>)
    requires TablesOk(ts)
    reads reader
  {
    && reader.Ahead() == AllBits(ts, items) + pad
    && OnPlan(reader.input, reader.start, reader.plan, Takings(ts, items), reader.State())
  }

  /** How an item is taken from the reader. */
  ghost function TakingOf(ts: Tables, it: Item): (tk: Taking)
    requires TablesOk(ts)
  {
    match it
    case Sym(ac, tbl, s) => Code(TableFor(ts, ac, tbl).ehufsi[s])
    case Raw(bits) => Plain(|bits|)
  }

  ghost function Takings(ts: Tables, items: seq<Item>): (tks: seq<Taking>)
    requires TablesOk(ts)
    ensures |tks| == |items|
  {
    seq(|items|, i requires 0 <= i < |items| => TakingOf(ts, items[i]))
  }

  /** What is left of the plan is `left`, and the state is where an uninterrupted reader stands then. */
  ghost predicate OnPlan(input: seq<byte>, start: BitState, plan: seq<Taking>, left: seq<Taking>, st: BitState) {
    && |left| <= |plan| && plan[|plan| - |left|..] == left
    && st == AfterAll(input, start, plan[..|plan| - |left|])
  }

  /** All of the plan is left at its start. */
  lemma PlanStarts(input: seq<byte>, start: BitState, plan: seq<Taking>)
    ensures OnPlan(input, start, plan, plan, start)
  {
  }

  lemma TakeNext(input: seq<byte>, start: BitState, plan: seq<Taking>, ts: Tables, it: Item, items: seq<Item>,
                 st: BitState)
    requires TablesOk(ts) && OnPlan(input, start, plan, Takings(ts, [it] + items), st)
    ensures OnPlan(input, start, plan, Takings(ts, items), AfterTaking(input, st, TakingOf(ts, it)))
  {
    hide TablesOk, AfterTaking, AfterAll, TakingOf;
    var left, after := Takings(ts, [it] + items), Takings(ts, items);
    var n := |plan| - |left|;
    assert left[0] == TakingOf(ts, ([it] + items)[0]);
    assert left[1..] == after;
    assert plan[n..][0] == plan[n] && plan[n..][1..] == plan[n + 1..];
    assert plan[..n + 1] == plan[..n] + [plan[n]];
    AfterSnoc(input, start, plan[..n], plan[n]);
  }

  /** What happens to the state while some items are taken does not depend on what is taken before or after. */
  lemma TakenTogether(input: seq<byte>, start: BitState, plan: seq<Taking>, ts: Tables, a: seq<Item>, b: seq<Item>,
                      st: BitState, st': BitState)
    requires TablesOk(ts) && OnPlan(input, start, plan, Takings(ts, a + b), st)
    requires OnPlan(input, start, plan, Takings(ts, b), st')
    ensures st' == AfterAll(input, st, Takings(ts, a))
  {
    hide TablesOk, AfterTaking, AfterAll, TakingOf;
    var left, done := Takings(ts, a + b), Takings(ts, a);
    var n := |plan| - |left|;
    assert left[..|a|] == done;
    assert plan[..n + |a|] == plan[..n] + done;
    AfterAppend(input, start, plan[..n], done);
  }

  lemma FirstItem(ts: Tables, it: Item, items: seq<Item>, pad: seq<bit>)
    requires TablesOk(ts)
    ensures AllBits(ts, [it] + items) + pad == ItemBits(ts, it) + (AllBits(ts, items) + pad)
  {
    AllBitsAppend(ts, [it], items);
    AllBitsAppend(ts, [it], []);
    assert [it] + [] == [it] && ([it] + [])[1..] == [];
  }

  /** The next symbol. */
  method GetSymbol(reader: BitReader, d: DecoderTable, ghost ts: Tables, ghost it: Item,
                   ghost items: seq<Item>, ghost pad: seq<bit>) returns (ok: bool, s: byte)
    requires reader.Valid() && TablesOk(ts) && it.Sym? && HasCode(ts, it) && Matched(TableFor(ts, it.ac, it.tbl), d)
    requires Expects(reader, ts, [it] + items, pad)
    modifies reader`pos, reader`unread, reader`getBuffer, reader`bitsLeft, reader`insufficientData, reader`rest
    ensures reader.Valid() && reader.insufficientData == old(reader.insufficientData)
    ensures ok ==> s == it.s && Expects(reader, ts, items, pad)
    ensures !ok ==> reader.available < |reader.input| && reader.unread == 0
    ensures old(reader.unread) != 0 ==> ok && reader.unread == old(reader.unread)
  {
    hide AllBits, BitReader.Ahead, HuffBitReader.Taken, CodeTaken, OnPlan, Takings, BitReader.Valid, Decodes, Encodes,
         SymbolWord;
    FirstItem(ts, it, items, pad);
    TakeNext(reader.input, reader.start, reader.plan, ts, it, items, reader.State());
    ok, s := reader.HuffDecode(d, TableFor(ts, it.ac, it.tbl), it.s, AllBits(ts, items) + pad);
  }

  /** The next n raw bits, as a number. */
  method GetRaw(reader: BitReader, n: nat, ghost ts: Tables, ghost bits: seq<bit>,
                ghost items: seq<Item>, ghost pad: seq<bit>) returns (ok: bool, v: nat)
    requires reader.Valid() && TablesOk(ts) && |bits| == n <= 15
    requires Expects(reader, ts, [Raw(bits)] + items, pad)
    modifies reader`pos, reader`unread, reader`getBuffer, reader`bitsLeft, reader`insufficientData, reader`rest
    ensures reader.Valid() && reader.insufficientData == old(reader.insufficientData)
    ensures ok ==> v == Value(bits) && Expects(reader, ts, items, pad)
    ensures !ok ==> reader.available < |reader.input| && reader.unread == 0
    ensures old(reader.unread) != 0 ==> ok && reader.unread == old(reader.unread)
  {
    hide AllBits, BitReader.Ahead, HuffBitReader.Taken, CodeTaken, OnPlan, Takings, BitReader.Valid, Value;
    FirstItem(ts, Raw(bits), items, pad);
    TakeNext(reader.input, reader.start, reader.plan, ts, Raw(bits), items, reader.State());
    ghost var rest := AllBits(ts, items) + pad;
    assert (bits + rest)[..n] == bits && (bits + rest)[n..] == rest;
    ok, v := reader.GetBits(n);
  }

  /** The value whose size has just been decoded. */
  method GetValue(reader: BitReader, s: nat, ghost ts: Tables, ghost v: int,
                  ghost items: seq<Item>, ghost pad: seq<bit>) returns (ok: bool, x: int)
    requires reader.Valid() && TablesOk(ts) && s == Size(Abs(v)) <= 15
    requires Expects(reader, ts, ValueItems(v) + items, pad)
    modifies reader`pos, reader`unread, reader`getBuffer, reader`bitsLeft, reader`insufficientData, reader`rest
    ensures reader.Valid() && reader.insufficientData == old(reader.insufficientData)
    ensures ok ==> x == v && Expects(reader, ts, items, pad)
    ensures !ok ==> reader.available < |reader.input| && reader.unread == 0
    ensures old(reader.unread) != 0 ==> ok && reader.unread == old(reader.unread)
  {
    hide AllBits, BitReader.Ahead, BitReader.Valid, Value, Expects, BitsOf;
    ok, x := true, 0;
    if s != 0 {
      var r;
      ok, r := GetRaw(reader, s, ts, ValueBits(v), items, pad);
      ExtendInverts(v);
      x := if ok then Extend(r, s) else 0;
    } else {
      assert ValueItems(v) + items == items;
    }
  }

  /** Bits that are not needed. */
  method SkipValue(reader: BitReader, s: nat, ghost ts: Tables, ghost v: int,
                   ghost items: seq<Item>, ghost pad: seq<bit>) returns (ok: bool)
    requires reader.Valid() && TablesOk(ts) && s == Size(Abs(v)) <= 15
    requires Expects(reader, ts, ValueItems(v) + items, pad)
    modifies reader`pos, reader`unread, reader`getBuffer, reader`bitsLeft, reader`insufficientData, reader`rest
    ensures reader.Valid() && reader.insufficientData == old(reader.insufficientData)
    ensures ok ==> Expects(reader, ts, items, pad)
    ensures !ok ==> reader.available < |reader.input| && reader.unread == 0
    ensures old(reader.unread) != 0 ==> ok && reader.unread == old(reader.unread)
  {
    hide AllBits, BitReader.Ahead, HuffBitReader.Taken, CodeTaken, OnPlan, Takings, BitReader.Valid, BitsOf;
    ok := true;
    if s != 0 {
      FirstItem(ts, Raw(ValueBits(v)), items, pad);
      TakeNext(reader.input, reader.start, reader.plan, ts, Raw(ValueBits(v)), items, reader.State());
      ghost var bits, rest := ValueBits(v), AllBits(ts, items) + pad;
      assert (bits + rest)[s..] == rest;
      ok := reader.SkipBits(s);
    } else {
      assert ValueItems(v) + items == items;
    }
  }

  /** Behind the data of an interval stands a marker. */
  lemma MarkerBehind(datas: seq<seq<byte>>, k: nat, end: seq<byte>)
    requires k < |datas| && MarkerFirst(end)
    ensures MarkerFirst(Onwards(datas, k, end))
  {
    hide Stuff;
    if k + 1 < |datas| {
      var s := Onwards(datas, k, end);
      assert s[0] == 0xFF && s[1] == RST0 + k % 8;
      assert AfterFill(s, 1);
    }
  }

  lemma OnesSize(n: nat)
    ensures |Ones(n)| == n
  {
  }
}
