/** Restart intervals of an arithmetic-coded scan, and what becomes of a refused difference. */
module ArithIntervals {
  import opened Numbers
  import opened Stuffing
  import opened IntervalCoder
  import opened ArithModel
  import opened ArithScan
  import opened RestartIntervals

  /** The blocks that are coded together with block i. */
  ghost function Together(pl: Plan, us: seq<Unit>, i: nat): (r: seq<Unit>)
    requires i <= |us|
  {
    us[StartOf(pl, i)..EndOf(pl, StartOf(pl, i), |us|)]
  }

  // ----- What the intervals carry -----

  /** The data of a coded interval lie in the interval of the decisions of its blocks. */
  ghost predicate Carries(cond: Conditioning, sc: Scan, us: seq<Unit>, code: seq<byte>)
    requires ScanOk(sc)
  {
    && UnitsOk(us)
    && CarriesDecisions(ScanDecisions(cond, sc, START, us), code)
  }

  ghost predicate CarriesDecisions(ds: seq<Decision>, code: seq<byte>) {
    && Known(Areas(), ds) && Ready(Coder(WHOLE, Areas()))
    && Contains(CodeAll(Coder(WHOLE, Areas()), ds).iv, code)
  }

  /** The data of each of the first intervals. */
  ghost predicate CarriesFirst(cond: Conditioning, sc: Scan, pl: Plan, us: seq<Unit>, codes: seq<seq<byte>>)
    requires ScanOk(sc)
  {
    forall k | 0 <= k < |codes| ::
      BeginAt(pl, k) <= |us| && Carries(cond, sc, us[BeginAt(pl, k)..EndOf(pl, BeginAt(pl, k), |us|)], codes[k])
  }

  lemma CarriesSnoc(cond: Conditioning, sc: Scan, pl: Plan, us: seq<Unit>, codes: seq<seq<byte>>, code: seq<byte>)
    requires ScanOk(sc) && CarriesFirst(cond, sc, pl, us, codes)
    requires BeginAt(pl, |codes|) <= |us|
    requires Carries(cond, sc, us[BeginAt(pl, |codes|)..EndOf(pl, BeginAt(pl, |codes|), |us|)], code)
    ensures CarriesFirst(cond, sc, pl, us, codes + [code])
  {
    hide BeginAt, Carries, EndOf, ScanOk;
    var all := codes + [code];
    forall k | 0 <= k < |all|
      ensures BeginAt(pl, k) <= |us| && Carries(cond, sc, us[BeginAt(pl, k)..EndOf(pl, BeginAt(pl, k), |us|)], all[k])
    {
      if k < |codes| {
        assert all[k] == codes[k];
      }
    }
  }

  /** Every interval of the scan has its data, and no other data are sent. */
  ghost predicate CarriesAll(cond: Conditioning, sc: Scan, pl: Plan, us: seq<Unit>, codes: seq<seq<byte>>)
    requires ScanOk(sc)
  {
    codes != [] && CarriesFirst(cond, sc, pl, us, codes) && LastFrom(pl, |codes| - 1, |us|)
  }

  // ----- What the decoder can restore -----

  /** The decoder refuses no DC difference in an interval from s to e. */
  ghost predicate Accepted(cond: Conditioning, sc: Scan, us: seq<Unit>, s: nat, e: nat)
    requires ScanOk(sc) && UnitsOk(us) && s <= e <= |us|
  {
    DiffsOk(cond, sc, START, us[s..e])
  }

  /** The decoder refuses no DC difference in the interval of block i. */
  ghost predicate Restorable(cond: Conditioning, sc: Scan, pl: Plan, us: seq<Unit>, i: nat)
    requires ScanOk(sc) && UnitsOk(us) && i < |us|
  {
    DiffsOk(cond, sc, START, Together(pl, us, i))
  }

  ghost predicate RestorableTo(cond: Conditioning, sc: Scan, pl: Plan, us: seq<Unit>, n: nat)
    requires ScanOk(sc) && UnitsOk(us) && n <= |us|
  {
    forall i | 0 <= i < n :: Restorable(cond, sc, pl, us, i)
  }

  lemma IntervalOf(pl: Plan, us: seq<Unit>, k: nat, s: nat, e: nat, i: nat)
    requires s == BeginAt(pl, k) && s <= i < e <= |us| && e == EndOf(pl, s, |us|)
    ensures Together(pl, us, i) == us[s..e]
  {
    InInterval(pl, k, i);
    hide Span, BeginAt;
  }

  /** All blocks of an interval share one fate. */
  lemma IntervalDone(cond: Conditioning, sc: Scan, pl: Plan, us: seq<Unit>, k: nat, s: nat, e: nat)
    requires ScanOk(sc) && UnitsOk(us)
    requires s == BeginAt(pl, k) && s <= e <= |us| && e == EndOf(pl, s, |us|)
    ensures RestorableTo(cond, sc, pl, us, e)
            <==> RestorableTo(cond, sc, pl, us, s) && Accepted(cond, sc, us, s, e)
  {
    hide BeginAt, EndOf, Together, ScanOk;
    forall i | s <= i < e ensures Restorable(cond, sc, pl, us, i) <==> Accepted(cond, sc, us, s, e) {
      IntervalOf(pl, us, k, s, e, i);
    }
    hide DiffsOk, Restorable;
    if s < e {
      assert Restorable(cond, sc, pl, us, s) <==> Accepted(cond, sc, us, s, e);
    } else {
      assert us[s..e] == [];
      NoDiffs(cond, sc, START, us[s..e]);
    }
  }

  lemma NoDiffs(cond: Conditioning, sc: Scan, st: DcState, us: seq<Unit>)
    requires ScanOk(sc) && us == []
    ensures DiffsOk(cond, sc, st, us)
  {
  }

  /** A block with only a DC value. */
  function Flat(dc: coef): (b: Block) {
    seq(64, i => if i == 0 then dc else 0)
  }

  /** Two blocks that the encoder codes, and whose difference the decoder refuses. */
  lemma RefusedPair(cond: Conditioning, sc: Scan, pl: Plan, ci: compNo)
    requires ScanOk(sc) && CodesDc(sc) && sc.al == 0 && (Span(pl) == 0 || Span(pl) >= 2)
    ensures var us := [Unit(ci, Flat(-0x8000)), Unit(ci, Flat(0x7FFF))];
            UnitsOk(us) && !RestorableTo(cond, sc, pl, us, 2)
  {
    var us := [Unit(ci, Flat(-0x8000)), Unit(ci, Flat(0x7FFF))];
    InInterval(pl, 0, 0);
    assert Together(pl, us, 0) == us;
    assert Pow2(0) == 1;
    var st := Step(cond, sc, START, ci, us[0].b);
    assert st.last[ci] == -0x8000;
    assert us[1..] == [us[1]];
    assert !DiffsOk(cond, sc, st, us[1..]);
    assert !Restorable(cond, sc, pl, us, 0);
  }

  lemma McuFate(cond: Conditioning, sc: Scan, pl: Plan, us: seq<Unit>, k: nat, s: nat, e: nat, lo: nat, hi: nat)
    requires ScanOk(sc) && UnitsOk(us)
    requires s == BeginAt(pl, k) && s <= lo <= hi <= e <= |us| && e == EndOf(pl, s, |us|)
    ensures forall i | lo <= i < hi :: Restorable(cond, sc, pl, us, i) <==> Accepted(cond, sc, us, s, e)
  {
    hide BeginAt, EndOf, Together, ScanOk, DiffsOk;
    forall i | lo <= i < hi ensures Restorable(cond, sc, pl, us, i) <==> Accepted(cond, sc, us, s, e) {
      IntervalOf(pl, us, k, s, e, i);
    }
  }

  /** Where the marker behind interval k ends. */
  ghost function StopOf(codes: seq<seq<byte>>, k: nat): (p: nat)
    requires k < |codes|
  {
    |Front(codes[..k])| + |Stuff(codes[k])| + 2
  }

  /** Interval k is followed by another one that begins at block i. */
  lemma AnotherInterval(cond: Conditioning, sc: Scan, pl: Plan, us: seq<Unit>, codes: seq<seq<byte>>,
                        k: nat, s: nat, i: nat)
    requires ScanOk(sc) && CarriesAll(cond, sc, pl, us, codes) && k < |codes|
    requires PlanOk(pl) && pl.restart != 0 && Counting(pl, k, s, i, |us|, 0) && i < |us|
    ensures k + 1 < |codes| && i == EndOf(pl, s, |us|)
    ensures Carries(cond, sc, us[i..EndOf(pl, i, |us|)], codes[k + 1])
  {
    hide Carries, ScanOk, Counting, Span;
    IntervalEnds(pl, k, s, i, |us|);
    assert BeginAt(pl, k + 1) == i by { CountingBegin(pl, k + 1, i, i, |us|, pl.restart); }
    hide BeginAt, EndOf;
  }
}
