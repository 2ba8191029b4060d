/** The items of each block: sequential, first progressive scans, and refinement with
    end-of-band runs (figures F.1 to F.3 and G.3 to G.8 of ITU-T T.81). */
module HuffBlocks {
  import opened Numbers
  import opened BitStrings
  import opened ArithModel
  import opened HuffItems

  const ZRL: byte := 0xF0
  const EOB: byte := 0
  const MAX_EOBRUN := 0x7FFF
  const MAX_CORR_BITS := 1000

  /** Buffered correction bits are forced out beyond this many. */
  const CORR_LIMIT := MAX_CORR_BITS - DCTSIZE2 + 1

  // ----- Coefficients coded by run and size -----

  ghost predicate AcInRange(b: Block, al: nat, ss: nat, se: nat)
    requires se < 64
  {
    forall k | ss <= k <= se :: Size(Abs(PointAc(b[k], al))) <= MAX_COEF_BITS
  }

  function NextNonzero(b: Block, al: nat, se: nat, k: nat): (j: nat)
    requires k <= se + 1 && se < 64
    ensures k <= j <= se + 1
    ensures j <= se ==> PointAc(b[j], al) != 0
    ensures forall i | k <= i < j :: PointAc(b[i], al) == 0
    decreases 64 - k
  {
    if k > se || PointAc(b[k], al) != 0 then k else NextNonzero(b, al, se, k + 1)
  }

  lemma NextNonzeroAt(b: Block, al: nat, se: nat, k: nat, j: nat)
    requires k <= j <= se + 1 && se < 64
    requires forall i | k <= i < j :: PointAc(b[i], al) == 0
    requires j <= se ==> PointAc(b[j], al) != 0
    ensures NextNonzero(b, al, se, k) == j
  {
  }

  function RunSize(run: nat, size: nat): (s: byte)
    requires run <= 15 && size <= 15
  {
    16 * run + size
  }

  /** Everything from position k to the last nonzero coefficient. */
  ghost function Body(tbl: tblNo, b: Block, al: nat, se: nat, k: nat): (items: seq<Item>)
    requires k <= se + 1 && se < 64 && AcInRange(b, al, k, se)
    decreases 64 - k
  {
    var j := NextNonzero(b, al, se, k);
    if j > se then []
    else if j - k > 15 then [Sym(true, tbl, ZRL)] + Body(tbl, b, al, se, k + 16)
    else
      var v := PointAc(b[j], al);
      [Sym(true, tbl, RunSize(j - k, Size(Abs(v))))] + (ValueItems(v) + Body(tbl, b, al, se, j + 1))
  }

  /** A nonzero coefficient after a run of zeros: zero runs of sixteen, run and size, value. */
  function CoefItems(tbl: tblNo, run: nat, v: int): (items: seq<Item>)
    requires Size(Abs(v)) <= MAX_COEF_BITS
  {
    if run > 15 then [Sym(true, tbl, ZRL)] + CoefItems(tbl, run - 16, v)
    else [Sym(true, tbl, RunSize(run, Size(Abs(v))))] + ValueItems(v)
  }

  /** Up to and including the next nonzero coefficient, which is at j. */
  lemma {:induction false} BodyStep(tbl: tblNo, b: Block, al: nat, se: nat, k: nat, j: nat)
    requires k <= j <= se < 64 && AcInRange(b, al, k, se)
    requires PointAc(b[j], al) != 0 && forall i | k <= i < j :: PointAc(b[i], al) == 0
    ensures Body(tbl, b, al, se, k) == CoefItems(tbl, j - k, PointAc(b[j], al)) + Body(tbl, b, al, se, j + 1)
    decreases j - k
  {
    hide Body, PointAc, CoefItems, AcInRange;
    InRangeFrom(b, al, se, k, j);
    if j - k > 15 {
      InRangeFrom(b, al, se, k, k + 16);
      BodyStep(tbl, b, al, se, k + 16, j);
      BodyLongStep(tbl, b, al, se, k, j);
    } else {
      BodyShortStep(tbl, b, al, se, k, j);
    }
  }

  lemma BodyLongStep(tbl: tblNo, b: Block, al: nat, se: nat, k: nat, j: nat)
    requires k + 16 <= j <= se < 64 && AcInRange(b, al, k, se)
    requires PointAc(b[j], al) != 0 && forall i | k <= i < j :: PointAc(b[i], al) == 0
    requires Body(tbl, b, al, se, k + 16) == CoefItems(tbl, j - k - 16, PointAc(b[j], al)) + Body(tbl, b, al, se, j + 1)
    ensures Body(tbl, b, al, se, k) == CoefItems(tbl, j - k, PointAc(b[j], al)) + Body(tbl, b, al, se, j + 1)
  {
    NextNonzeroAt(b, al, se, k, j);
    BodyLong(tbl, b, al, se, k);
    hide Body, PointAc, RunSize, ValueItems, AcInRange, CoefItems, NextNonzero;
    CoefSteps(tbl, j - k, PointAc(b[j], al));
    Associate([Sym(true, tbl, ZRL)], CoefItems(tbl, j - k - 16, PointAc(b[j], al)), Body(tbl, b, al, se, j + 1));
  }

  lemma CoefFits(b: Block, al: nat, k: nat, se: nat, j: nat)
    requires k <= j <= se < 64 && AcInRange(b, al, k, se)
    ensures Size(Abs(PointAc(b[j], al))) <= MAX_COEF_BITS < 16 && AcInRange(b, al, j + 1, se)
  {
  }

  lemma BodyShortStep(tbl: tblNo, b: Block, al: nat, se: nat, k: nat, j: nat)
    requires k <= j <= se < 64 && j - k <= 15 && AcInRange(b, al, k, se)
    requires PointAc(b[j], al) != 0 && forall i | k <= i < j :: PointAc(b[i], al) == 0
    ensures Body(tbl, b, al, se, k) == CoefItems(tbl, j - k, PointAc(b[j], al)) + Body(tbl, b, al, se, j + 1)
  {
    hide *;
    NextNonzeroAt(b, al, se, k, j);
    BodyShort(tbl, b, al, se, k);
    CoefFits(b, al, k, se, j);
    var v := PointAc(b[j], al);
    CoefSteps(tbl, j - k, v);
    Associate([Sym(true, tbl, RunSize(j - k, Size(Abs(v))))], ValueItems(v), Body(tbl, b, al, se, j + 1));
  }

  lemma Associate(a: seq<Item>, b: seq<Item>, c: seq<Item>)
    ensures (a + b) + c == a + (b + c)
  {
  }

  lemma CoefSteps(tbl: tblNo, run: nat, v: int)
    requires Size(Abs(v)) <= MAX_COEF_BITS
    ensures CoefItems(tbl, run, v)
            == if run > 15 then [Sym(true, tbl, ZRL)] + CoefItems(tbl, run - 16, v)
               else [Sym(true, tbl, RunSize(run, Size(Abs(v))))] + ValueItems(v)
  {
  }

  lemma InRangeFrom(b: Block, al: nat, se: nat, k: nat, n: nat)
    requires k <= n && se < 64 && AcInRange(b, al, k, se)
    ensures AcInRange(b, al, n, se) && AcInRange(b, al, n + 1, se)
    ensures n <= se ==> Size(Abs(PointAc(b[n], al))) <= MAX_COEF_BITS
  {
  }

  lemma BodyLong(tbl: tblNo, b: Block, al: nat, se: nat, k: nat)
    requires k <= se < 64 && AcInRange(b, al, k, se)
    requires NextNonzero(b, al, se, k) <= se && NextNonzero(b, al, se, k) - k > 15
    ensures Body(tbl, b, al, se, k) == [Sym(true, tbl, ZRL)] + Body(tbl, b, al, se, k + 16)
  {
    hide PointAc, RunSize, ValueItems, Size;
  }

  lemma BodyShort(tbl: tblNo, b: Block, al: nat, se: nat, k: nat)
    requires k <= se < 64 && AcInRange(b, al, k, se)
    requires NextNonzero(b, al, se, k) <= se && NextNonzero(b, al, se, k) - k <= 15
    ensures var j := NextNonzero(b, al, se, k);
            var v := PointAc(b[j], al);
            Body(tbl, b, al, se, k)
            == [Sym(true, tbl, RunSize(j - k, Size(Abs(v))))] + (ValueItems(v) + Body(tbl, b, al, se, j + 1))
  {
    hide PointAc, RunSize, ValueItems, Size;
  }

  lemma BodyEnd(tbl: tblNo, b: Block, al: nat, se: nat, k: nat)
    requires k <= se + 1 && se < 64 && AcInRange(b, al, k, se)
    requires forall i | k <= i <= se :: PointAc(b[i], al) == 0
    ensures Body(tbl, b, al, se, k) == []
  {
    NextNonzeroAt(b, al, se, k, se + 1);
  }

  /** What a decoder meets at position k: the end, a long run of zeros, or a coefficient. */
  lemma BodySteps(tbl: tblNo, b: Block, al: nat, se: nat, k: nat, after: seq<Item>)
    requires k <= se + 1 && se < 64 && AcInRange(b, al, k, se)
    ensures var j := NextNonzero(b, al, se, k);
            if j > se then Body(tbl, b, al, se, k) + after == after
            else if j - k > 15 then
              Body(tbl, b, al, se, k) + after
              == [Sym(true, tbl, ZRL)] + (Body(tbl, b, al, se, k + 16) + after)
            else
              var v := PointAc(b[j], al);
              Body(tbl, b, al, se, k) + after
              == [Sym(true, tbl, RunSize(j - k, Size(Abs(v))))]
                 + (ValueItems(v) + (Body(tbl, b, al, se, j + 1) + after))
  {
    hide PointAc, RunSize, ValueItems, Size, Body, AcInRange;
    var j := NextNonzero(b, al, se, k);
    if j > se {
      BodyEnd(tbl, b, al, se, k);
      assert [] + after == after;
    } else if j - k <= 15 {
      InRangeFrom(b, al, se, k, j);
      BodyShort(tbl, b, al, se, k);
      var v := PointAc(b[j], al);
      var it := Sym(true, tbl, RunSize(j - k, Size(Abs(v))));
      Regroup([it], ValueItems(v), Body(tbl, b, al, se, j + 1), after);
    } else {
      InRangeFrom(b, al, se, k, k + 16);
      BodyLong(tbl, b, al, se, k);
      Regroup([], [Sym(true, tbl, ZRL)], Body(tbl, b, al, se, k + 16), after);
    }
  }

  lemma Regroup(a: seq<Item>, b: seq<Item>, c: seq<Item>, d: seq<Item>)
    ensures (a + (b + c)) + d == a + (b + (c + d))
    ensures [] + b == b && (b + c) + d == b + (c + d)
  {
  }

  /** What a decoder meets inside a band: its end, sixteen zeros, or a coefficient after a shorter run. */
  datatype Step = End | Zeros | Coef(run: nat, v: int)

  ghost function StepAt(b: Block, al: nat, se: nat, k: nat): (st: Step)
    requires k <= se < 64
    ensures st.Coef? ==> k + st.run <= se && st.run <= 15 && st.v == PointAc(b[k + st.run], al) != 0
    ensures st.Zeros? ==> k + 16 <= se
    ensures st.End? ==> HasTail(b, al, se) || se == 0
    ensures forall i | k <= i <= se && (if st.Zeros? then i < k + 16 else if st.Coef? then i < k + st.run else true) ::
              PointAc(b[i], al) == 0
  {
    var j := NextNonzero(b, al, se, k);
    if j > se then End else if j - k > 15 then Zeros else Coef(j - k, PointAc(b[j], al))
  }

  /** The symbol of a step; e is the category of the end-of-band symbol. */
  ghost function StepSymbol(st: Step, e: nat): (s: byte)
    requires st.Coef? ==> st.run <= 15 && Size(Abs(st.v)) <= 15
    requires e < 15
  {
    match st
    case End => RunSize(e, 0)
    case Zeros => ZRL
    case Coef(run, v) => RunSize(run, Size(Abs(v)))
  }

  /** What follows the symbol: ended after an end of band, and after for the band as a whole. */
  ghost function AfterStep(tbl: tblNo, b: Block, al: nat, se: nat, k: nat, after: seq<Item>,
                           ended: seq<Item>): (items: seq<Item>)
    requires k <= se < 64 && AcInRange(b, al, k, se)
  {
    match StepAt(b, al, se, k)
    case End => ended
    case Zeros => Body(tbl, b, al, se, k + 16) + after
    case Coef(run, v) => ValueItems(v) + (Body(tbl, b, al, se, k + run + 1) + after)
  }

  lemma TakeStep(tbl: tblNo, b: Block, al: nat, se: nat, k: nat, after: seq<Item>, e: nat, ended: seq<Item>)
    requires 1 <= k <= se < 64 && AcInRange(b, al, k, se) && e < 15
    requires HasTail(b, al, se) ==> after == [Sym(true, tbl, RunSize(e, 0))] + ended
    ensures StepAt(b, al, se, k).Coef? ==> 0 < Size(Abs(StepAt(b, al, se, k).v)) <= MAX_COEF_BITS
    ensures Body(tbl, b, al, se, k) + after
            == [Sym(true, tbl, StepSymbol(StepAt(b, al, se, k), e))] + AfterStep(tbl, b, al, se, k, after, ended)
  {
    hide PointAc, Size, ValueItems, RunSize, Body;
    BodySteps(tbl, b, al, se, k, after);
    if StepAt(b, al, se, k).Coef? {
      SizeBounds(Abs(StepAt(b, al, se, k).v));
    }
  }

  lemma SymbolParts(st: Step, e: nat)
    requires st.Coef? ==> st.run <= 15 && 0 < Size(Abs(st.v)) <= 15
    requires e < 15
    ensures var s := StepSymbol(st, e);
            match st
            case End => s / 16 == e && s % 16 == 0
            case Zeros => s / 16 == 15 && s % 16 == 0
            case Coef(run, v) => s / 16 == run && s % 16 == Size(Abs(v)) > 0
  {
  }

  lemma AfterStepIs(tbl: tblNo, b: Block, al: nat, se: nat, k: nat, after: seq<Item>, ended: seq<Item>)
    requires k <= se < 64 && AcInRange(b, al, k, se)
    ensures AfterStep(tbl, b, al, se, k, after, ended)
            == match StepAt(b, al, se, k)
               case End => ended
               case Zeros => Body(tbl, b, al, se, k + 16) + after
               case Coef(run, v) => ValueItems(v) + (Body(tbl, b, al, se, k + run + 1) + after)
    ensures var st := StepAt(b, al, se, k);
            && (st.Coef? ==> k + st.run <= se && st.v == PointAc(b[k + st.run], al) != 0)
            && (st.Zeros? ==> k + 16 <= se) && (st.End? ==> HasTail(b, al, se) || se == 0)
            && forall i | k <= i <= se
                          && (if st.Zeros? then i < k + 16 else if st.Coef? then i < k + st.run else true) ::
                 PointAc(b[i], al) == 0
  {
    hide PointAc, Body, ValueItems;
  }

  /** A step of a band, its symbol, and what comes after it. */
  lemma TakeCodableStep(tbl: tblNo, b: Block, al: nat, se: nat, k: nat, after: seq<Item>, e: nat, ended: seq<Item>,
                        ts: Tables)
    returns (st: Step, next: seq<Item>)
    requires TablesOk(ts) && 1 <= k <= se < 64 && AcInRange(b, al, k, se) && e < 15
    requires HasTail(b, al, se) ==> after == [Sym(true, tbl, RunSize(e, 0))] + ended
    requires Codable(ts, Body(tbl, b, al, se, k) + after)
    ensures st.Coef? ==> st.run <= 15 && k + st.run <= se && st.v == PointAc(b[k + st.run], al)
                         && 0 < Size(Abs(st.v)) <= MAX_COEF_BITS
    ensures st.Zeros? ==> k + 16 <= se
    ensures st.End? ==> HasTail(b, al, se)
    ensures forall i | k <= i <= se && (if st.Zeros? then i < k + 16 else if st.Coef? then i < k + st.run else true) ::
              PointAc(b[i], al) == 0
    ensures st.Coef? ==> PointAc(b[k + st.run], al) != 0 && AcInRange(b, al, k + st.run + 1, se)
    ensures st.Zeros? ==> AcInRange(b, al, k + 16, se)
    ensures var s := StepSymbol(st, e);
            match st
            case End => s / 16 == e && s % 16 == 0
            case Zeros => s / 16 == 15 && s % 16 == 0
            case Coef(run, v) => s / 16 == run && s % 16 == Size(Abs(v)) > 0
    ensures Body(tbl, b, al, se, k) + after == [Sym(true, tbl, StepSymbol(st, e))] + next
    ensures HasCode(ts, Sym(true, tbl, StepSymbol(st, e))) && Codable(ts, next)
    ensures match st
            case End => next == ended
            case Zeros => next == Body(tbl, b, al, se, k + 16) + after
            case Coef(run, v) =>
              && next == ValueItems(v) + (Body(tbl, b, al, se, k + run + 1) + after)
              && Codable(ts, Body(tbl, b, al, se, k + run + 1) + after)
  {
    hide Codable, Size, StepAt, StepSymbol, AfterStep, ValueItems, Body, PointAc, HasTail, TablesOk, HasCode;
    st := StepAt(b, al, se, k);
    next := AfterStep(tbl, b, al, se, k, after, ended);
    TakeStep(tbl, b, al, se, k, after, e, ended);
    AfterStepIs(tbl, b, al, se, k, after, ended);
    SymbolParts(st, e);
    CodableStep(ts, Sym(true, tbl, StepSymbol(st, e)), next);
    if st.Coef? {
      CodableValue(ts, st.v, Body(tbl, b, al, se, k + st.run + 1) + after);
    }
  }

  /** The end of a band whose last coefficient is not zero. */
  lemma BodyOver(tbl: tblNo, b: Block, al: nat, se: nat, after: seq<Item>)
    requires se < 64
    ensures Body(tbl, b, al, se, se + 1) + after == after
  {
    BodyEnd(tbl, b, al, se, se + 1);
    assert [] + after == after;
  }

  /** Are there zeros at the end? */
  predicate HasTail(b: Block, al: nat, se: nat)
    requires se < 64
  {
    se > 0 && PointAc(b[se], al) == 0
  }

  /** A DC difference: its size, and its bits. */
  function DiffItems(tbl: tblNo, diff: int): (items: seq<Item>)
    requires Size(Abs(diff)) <= MAX_COEF_BITS + 1
  {
    [Sym(false, tbl, Size(Abs(diff)))] + ValueItems(diff)
  }

  /** A block of a sequential scan after its DC difference. */
  ghost function AcItems(tbl: tblNo, b: Block, se: nat): (items: seq<Item>)
    requires se < 64 && AcInRange(b, 0, 1, se)
  {
    Body(tbl, b, 0, se, 1) + if HasTail(b, 0, se) then [Sym(true, tbl, EOB)] else []
  }

  // ----- Refinement -----

  /** The magnitude of a coefficient down to bit al. */
  function Mag(b: Block, al: nat, k: nat): (u: nat)
    requires k < 64
  {
    Abs(PointAc(b[k], al))
  }

  /** The last position up to se that becomes nonzero in this scan, or 0. */
  function LastNew(b: Block, al: nat, ss: nat, se: nat): (k: nat)
    requires se < 64
    ensures k == 0 || (ss <= k <= se && Mag(b, al, k) == 1)
    ensures forall i | k < i <= se && ss <= i :: Mag(b, al, i) != 1
  {
    if se < ss || se == 0 then 0 else if Mag(b, al, se) == 1 then se else LastNew(b, al, ss, se - 1)
  }

  /** Zeros from position k to the next coefficient that becomes nonzero. */
  function ZerosAhead(b: Block, al: nat, k: nat): (n: nat)
    requires k <= 64
    decreases 64 - k
  {
    if k == 64 || Mag(b, al, k) == 1 then 0
    else (if Mag(b, al, k) == 0 then 1 else 0) + ZerosAhead(b, al, k + 1)
  }

  /** Where a decoder that passes over coefficients known to be nonzero and over r others stops. */
  function Stop(b: Block, al: nat, k: nat, r: nat): (p: nat)
    requires k <= 64
    ensures k <= p <= 64 && (p < 64 ==> Mag(b, al, p) <= 1)
    decreases 64 - k
  {
    if k == 64 then k
    else if Mag(b, al, k) > 1 then Stop(b, al, k + 1, r)
    else if r == 0 then k
    else Stop(b, al, k + 1, r - 1)
  }

  /** Correction bits of the coefficients from k to p that are known to be nonzero. */
  function Corrections(b: Block, al: nat, k: nat, p: nat): (bits: seq<bit>)
    requires k <= p <= 64
    ensures |bits| <= p - k
    decreases p - k
  {
    if k == p then []
    else (if Mag(b, al, k) > 1 then [Mag(b, al, k) % 2] else []) + Corrections(b, al, k + 1, p)
  }

  /** Single bits. */
  function RawBits(bits: seq<bit>): (items: seq<Item>)
    ensures |items| == |bits|
  {
    if bits == [] then [] else [Raw([bits[0]])] + RawBits(bits[1..])
  }

  lemma {:induction false} RawBitsAppend(a: seq<bit>, b: seq<bit>)
    ensures RawBits(a + b) == RawBits(a) + RawBits(b)
  {
    if a == [] {
      assert a + b == b;
    } else {
      assert (a + b)[1..] == a[1..] + b;
      RawBitsAppend(a[1..], b);
    }
  }

  function SignItem(x: int): (it: Item) {
    Raw([if x < 0 then 0 else 1])
  }

  /** Everything from position k to the last coefficient that becomes nonzero, which is at kn. */
  ghost function RefineBody(tbl: tblNo, b: Block, al: nat, kn: nat, k: nat): (items: seq<Item>)
    requires k <= 64 && kn < 64
    decreases 64 - k
  {
    if k > kn then []
    else
      var z := ZerosAhead(b, al, k);
      if z > 15 then
        var p := Stop(b, al, k, 15);
        if p >= kn then []
        else [Sym(true, tbl, ZRL)] + (RawBits(Corrections(b, al, k, p)) + RefineBody(tbl, b, al, kn, p + 1))
      else
        var p := Stop(b, al, k, z);
        if p > kn then []
        else [Sym(true, tbl, RunSize(z, 1)), SignItem(b[p])]
             + (RawBits(Corrections(b, al, k, p)) + RefineBody(tbl, b, al, kn, p + 1))
  }

  // ----- End-of-band runs -----

  /** A block in a progressive AC scan: its items up to the last one with a symbol of its own, whether
      something is left after that, and correction bits for what is left. */
  datatype Band = Band(body: seq<Item>, tail: bool, corr: seq<bit>)

  ghost predicate BandsOk(bands: seq<Band>) {
    forall i | 0 <= i < |bands| :: BandOk(bands[i])
  }

  ghost predicate BandOk(x: Band) {
    (x.body == [] ==> x.tail) && (!x.tail ==> x.corr == []) && |x.corr| < DCTSIZE2
  }

  /** The symbol for n bands that end here, and the bits of n below its top bit. */
  function EobRun(tbl: tblNo, n: nat): (items: seq<Item>)
    requires 1 <= n <= MAX_EOBRUN
  {
    EobRunSize(n);
    [Sym(true, tbl, RunSize(Size(n) - 1, 0))] + if Size(n) > 1 then [Raw(BitsOf(n, Size(n) - 1))] else []
  }

  lemma EobRunSize(n: nat)
    requires 1 <= n <= MAX_EOBRUN
    ensures 1 <= Size(n) <= 15
  {
    SizeBounds(n);
    assert Pow2(15) == 0x8000;
    SizeAtMost(n, 15);
  }

  /** How many of the bands from i on join a run of n bands with be correction bits. */
  ghost function Joining(bands: seq<Band>, i: nat, n: nat, be: nat): (m: nat)
    requires i <= |bands|
    ensures i + m <= |bands| && (n <= MAX_EOBRUN ==> n + m <= MAX_EOBRUN)
    ensures forall j | i <= j < i + m :: bands[j].body == []
    decreases |bands| - i
  {
    if i == |bands| || bands[i].body != [] || n >= MAX_EOBRUN || be > CORR_LIMIT then 0
    else 1 + Joining(bands, i + 1, n + 1, be + |bands[i].corr|)
  }

  /** What is still to be sent to a decoder that knows of a run of t bands from i on. */
  ghost function BandItems(tbl: tblNo, bands: seq<Band>, i: nat, t: nat): (items: seq<Item>)
    requires i + t <= |bands|
    decreases |bands| - i
  {
    if i == |bands| then []
    else if t > 0 then RawBits(bands[i].corr) + BandItems(tbl, bands, i + 1, t - 1)
    else bands[i].body + AfterBody(tbl, bands, i)
  }

  /** The rest after the body of band i. */
  ghost function AfterBody(tbl: tblNo, bands: seq<Band>, i: nat): (items: seq<Item>)
    requires i < |bands|
    decreases |bands| - i, 0
  {
    if bands[i].tail then
      var t := Joining(bands, i + 1, 1, |bands[i].corr|);
      EobRun(tbl, 1 + t) + (RawBits(bands[i].corr) + BandItems(tbl, bands, i + 1, t))
    else BandItems(tbl, bands, i + 1, 0)
  }

  /** What an encoder has still to send when a run of n bands with correction bits is pending. */
  ghost function Pending(tbl: tblNo, bands: seq<Band>, i: nat, n: nat, corr: seq<bit>): (items: seq<Item>)
    requires i <= |bands| && n <= MAX_EOBRUN
  {
    if n == 0 then BandItems(tbl, bands, i, 0)
    else
      var t := Joining(bands, i, n, |corr|);
      EobRun(tbl, n + t) + (RawBits(corr) + BandItems(tbl, bands, i, t))
  }

  /** Sending the pending run now: nothing more can join. */
  lemma PendingFlush(tbl: tblNo, bands: seq<Band>, i: nat, n: nat, corr: seq<bit>)
    requires i <= |bands| && 1 <= n <= MAX_EOBRUN
    requires i == |bands| || bands[i].body != [] || n == MAX_EOBRUN || |corr| > CORR_LIMIT
    ensures Pending(tbl, bands, i, n, corr) == EobRun(tbl, n) + (RawBits(corr) + BandItems(tbl, bands, i, 0))
  {
    hide EobRun, RawBits, BandItems;
  }

  /** A band without symbols of its own joins the run, or starts one. */
  lemma PendingJoin(tbl: tblNo, bands: seq<Band>, i: nat, n: nat, corr: seq<bit>)
    requires BandsOk(bands) && i < |bands| && bands[i].body == [] && n < MAX_EOBRUN && |corr| <= CORR_LIMIT
    requires n == 0 ==> corr == []
    ensures Pending(tbl, bands, i, n, corr) == Pending(tbl, bands, i + 1, n + 1, corr + bands[i].corr)
  {
    hide *;
    var c := bands[i].corr;
    if n == 0 {
      assert corr + c == c;
      PendingStart(tbl, bands, i);
    } else {
      var t := Joining(bands, i + 1, n + 1, |corr + c|);
      JoinOne(tbl, bands, i, n, |corr|);
      RawBitsAppend(corr, c);
      Associate(RawBits(corr), RawBits(c), BandItems(tbl, bands, i + 1, t));
      PendingIs(tbl, bands, i, n, corr);
      PendingIs(tbl, bands, i + 1, n + 1, corr + c);
    }
  }

  lemma PendingStart(tbl: tblNo, bands: seq<Band>, i: nat)
    requires BandsOk(bands) && i < |bands| && bands[i].body == []
    ensures Pending(tbl, bands, i, 0, []) == Pending(tbl, bands, i + 1, 1, bands[i].corr)
  {
    assert BandOk(bands[i]);
    hide RawBits, EobRun, Joining;
    assert [] + AfterBody(tbl, bands, i) == AfterBody(tbl, bands, i);
  }

  lemma PendingIs(tbl: tblNo, bands: seq<Band>, i: nat, n: nat, corr: seq<bit>)
    requires i <= |bands| && 1 <= n <= MAX_EOBRUN
    ensures var t := Joining(bands, i, n, |corr|);
            && n + t <= MAX_EOBRUN && i + t <= |bands|
            && Pending(tbl, bands, i, n, corr) == EobRun(tbl, n + t) + (RawBits(corr) + BandItems(tbl, bands, i, t))
  {
    hide EobRun, RawBits, BandItems;
  }

  lemma JoinOne(tbl: tblNo, bands: seq<Band>, i: nat, n: nat, be: nat)
    requires i < |bands| && bands[i].body == [] && 0 < n < MAX_EOBRUN && be <= CORR_LIMIT
    ensures var t := Joining(bands, i + 1, n + 1, be + |bands[i].corr|);
            && Joining(bands, i, n, be) == t + 1
            && BandItems(tbl, bands, i, t + 1) == RawBits(bands[i].corr) + BandItems(tbl, bands, i + 1, t)
  {
    hide RawBits, EobRun;
  }

  /** After the body of a band, its tail starts a run. */
  lemma PendingTail(tbl: tblNo, bands: seq<Band>, i: nat)
    requires BandsOk(bands) && i < |bands| && bands[i].body != []
    ensures Pending(tbl, bands, i, 0, []) == bands[i].body + AfterBody(tbl, bands, i)
    ensures AfterBody(tbl, bands, i)
            == Pending(tbl, bands, i + 1, if bands[i].tail then 1 else 0, bands[i].corr)
  {
  }
}
