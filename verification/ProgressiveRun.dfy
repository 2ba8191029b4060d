/** A whole progressive image: every scan of an accepted script is coded to bytes,
    decoded from them, and refines the blocks at the decoder. */
module ProgressiveRun {
  import opened Numbers
  import opened ArithModel
  import opened ArithScan
  import opened RestartIntervals
  import opened ArithIntervals
  import opened Script
  import ScanOrder
  import opened ArithRoundTrip
  import SE = ArithScanEncoder

  /** What is known of coefficient k when it was last sent down to bit al, or never. */
  function Expected(b: Block, k: nat, al: int): (x: int)
    requires InRange(b) && k < 64
  {
    if al < 0 then 0 else KnownAt(b, k, al)
  }

  /** The blocks of an image, with the component of each. */
  ghost predicate ImageOk(comp: seq<nat>, src: seq<array<coef>>, dst: seq<array<coef>>)
    reads src, dst
  {
    && |comp| == |src| == |dst|
    && (forall i | 0 <= i < |src| :: src[i].Length == 64 && dst[i].Length == 64 && InRange(src[i][..]))
    && (forall i, j | 0 <= i < j < |dst| :: dst[i] != dst[j])
    && (forall i, j | 0 <= i < |src| && 0 <= j < |dst| :: src[i] != dst[j])
  }

  /** The order in which a scan visits the blocks: each block of its components once. */
  ghost predicate VisitsAll(s: ScanInfo, comp: seq<nat>, order: seq<nat>) {
    && (forall i | 0 <= i < |order| :: order[i] < |comp| && comp[order[i]] in s.comps)
    && (forall i, j | 0 <= i < j < |order| :: order[i] != order[j])
    && (forall n | 0 <= n < |comp| && comp[n] in s.comps :: n in order)
  }

  /** The decoder knows exactly what the scans so far have sent. */
  ghost predicate Synchronised(sent: seq<ScanInfo>, comp: seq<nat>, src: seq<array<coef>>, dst: seq<array<coef>>)
    requires ImageOk(comp, src, dst)
    reads src, dst
  {
    forall n, k | 0 <= n < |comp| && 0 <= k < 64 ::
      dst[n][k] == Expected(src[n][..], k, LastAl(sent, comp[n], k))
  }

  function PositionIn(comps: seq<int>, c: int): (ci: nat)
    requires c in comps
    ensures ci < |comps| && comps[ci] == c
  {
    if comps[0] == c then 0 else 1 + PositionIn(comps[1..], c)
  }

  /** The tables a component uses. */
  datatype Tables = Tables(dc: int -> tableNo, ac: int -> tableNo)

  function ScanOf(s: ScanInfo, tables: Tables): (sc: Scan)
    requires RangesOk(s)
  {
    var comp := (ci: compNo) => if ci < |s.comps| then s.comps[ci] else 0;
    Scan(true, s.ss, s.se, s.ah, s.al, (ci: compNo) => tables.dc(comp(ci)), (ci: compNo) => tables.ac(comp(ci)))
  }

  lemma ScanParameters(before: seq<ScanInfo>, s: ScanInfo, nc: nat, tables: Tables)
    requires ScanValid(before, s, nc, true)
    ensures RangesOk(s) && ScanOk(ScanOf(s, tables))
    ensures 0 < |s.comps| <= 4
  {
    assert StepOk(LastAl(before, s.comps[0], s.ss), s);
  }

  /** A block is prepared for the scan that comes next. */
  lemma PreparedNext(before: seq<ScanInfo>, s: ScanInfo, nc: nat, tables: Tables, c: int, old': seq<int>, b: Block)
    requires ScanValid(before, s, nc, true) && RangesOk(s) && c in s.comps
    requires InRange(b) && |old'| == 64
    requires forall k | 0 <= k < 64 :: old'[k] == Expected(b, k, LastAl(before, c, k))
    ensures Prepared(ScanOf(s, tables), old', b)
  {
    forall k | 0 <= k < 64 && Sends(ScanOf(s, tables), k)
      ensures old'[k] == if s.ah == 0 then 0 else KnownAt(b, k, s.ah)
    {
      assert StepOk(LastAl(before, c, k), s);
    }
  }

  lemma ReceivedNext(before: seq<ScanInfo>, s: ScanInfo, tables: Tables, c: int,
                     old': seq<int>, new': seq<int>, b: Block)
    requires RangesOk(s) && c in s.comps && InRange(b) && |old'| == 64
    requires forall k | 0 <= k < 64 :: old'[k] == Expected(b, k, LastAl(before, c, k))
    requires Received(ScanOf(s, tables), old', new', b)
    ensures |new'| == 64
    ensures forall k | 0 <= k < 64 :: new'[k] == Expected(b, k, LastAl(before + [s], c, k))
  {
    forall k | 0 <= k < 64 ensures new'[k] == Expected(b, k, LastAl(before + [s], c, k)) {
      LastAlSnoc(before, s, c, k);
    }
  }

  function Select(blocks: seq<array<coef>>, order: seq<nat>): (r: seq<array<coef>>)
    requires forall i | 0 <= i < |order| :: order[i] < |blocks|
    ensures |r| == |order| && forall i | 0 <= i < |r| :: r[i] == blocks[order[i]]
  {
    seq(|order|, i requires 0 <= i < |order| => blocks[order[i]])
  }

  function Positions(comps: seq<int>, comp: seq<nat>, order: seq<nat>): (r: seq<compNo>)
    requires |comps| <= 4 && forall i | 0 <= i < |order| :: order[i] < |comp| && comp[order[i]] in comps
    ensures |r| == |order|
  {
    seq(|order|, i requires 0 <= i < |order| => PositionIn(comps, comp[order[i]]) as compNo)
  }

  /** The blocks of a scan do not overlap. */
  lemma SelectedOk(s: ScanInfo, comp: seq<nat>, src: seq<array<coef>>, dst: seq<array<coef>>, order: seq<nat>)
    requires ImageOk(comp, src, dst) && VisitsAll(s, comp, order)
    ensures var srcs, dsts := Select(src, order), Select(dst, order);
            && (forall i | 0 <= i < |srcs| :: srcs[i].Length == 64 && dsts[i].Length == 64 && InRange(srcs[i][..]))
            && (forall i, j | 0 <= i < j < |dsts| :: dsts[i] != dsts[j])
            && (forall i, j | 0 <= i < |srcs| && 0 <= j < |dsts| :: srcs[i] != dsts[j])
            && (forall n | 0 <= n < |comp| && comp[n] !in s.comps :: dst[n] !in dsts)
  {
    hide InRange;
    forall i, j | 0 <= i < j < |order| ensures dst[order[i]] != dst[order[j]] {
      assert order[i] != order[j];
    }
    forall n | 0 <= n < |comp| && comp[n] !in s.comps ensures dst[n] !in Select(dst, order) {
      forall i | 0 <= i < |order| ensures dst[n] != dst[order[i]] {
        assert n != order[i];
      }
    }
  }

  /** The decoder refuses no DC difference of a scan. */
  ghost predicate ScanRestorable(s: ScanInfo, cond: Conditioning, tables: Tables, pl: Plan,
                                 comp: seq<nat>, src: seq<array<coef>>, order: seq<nat>)
    reads src
  {
    && RangesOk(s) && ScanOk(ScanOf(s, tables)) && |s.comps| <= 4 && |comp| == |src|
    && (forall i | 0 <= i < |order| :: order[i] < |comp| && comp[order[i]] in s.comps)
    && (forall i | 0 <= i < |src| :: src[i].Length == 64)
    && var us := SE.Units(Positions(s.comps, comp, order), Select(src, order));
       UnitsOk(us) && RestorableTo(cond, ScanOf(s, tables), pl, us, |us|)
  }

  /** One scan of the script, encoded and decoded. */
  method RunScan(ghost before: seq<ScanInfo>, s: ScanInfo, ghost nc: nat, cond: Conditioning, tables: Tables, pl: Plan,
                 comp: seq<nat>, src: seq<array<coef>>, dst: seq<array<coef>>, order: seq<nat>)
    returns (bytes: seq<int>, ok: bool)
    requires ImageOk(comp, src, dst) && ScanValid(before, s, nc, true) && VisitsAll(s, comp, order) && PlanOk(pl)
    requires Synchronised(before, comp, src, dst)
    modifies dst
    ensures ok ==> Synchronised(before + [s], comp, src, dst)
    ensures ok <==> ScanRestorable(s, cond, tables, pl, comp, src, order)
  {
    hide ScanFault, LastAl, Expected, InRange, Received, Prepared, ScanOk, Covers, Moderate, ScanOf;
    ScanParameters(before, s, nc, tables);
    forall i | 0 <= i < |order|
      ensures Prepared(ScanOf(s, tables), dst[order[i]][..], src[order[i]][..])
    {
      PreparedNext(before, s, nc, tables, comp[order[i]], dst[order[i]][..], src[order[i]][..]);
    }
    bytes, ok := RunBlocks(s, cond, tables, pl, comp, src, dst, order);
    if ok {
      forall n | 0 <= n < |comp|
        ensures forall k | 0 <= k < 64 :: dst[n][k] == Expected(src[n][..], k, LastAl(before + [s], comp[n], k))
      {
        if comp[n] in s.comps {
          ReceivedNext(before, s, tables, comp[n], old(dst[n][..]), dst[n][..], src[n][..]);
        } else {
          UntouchedNext(before, s, comp[n]);
        }
      }
    }
  }

  method RunBlocks(s: ScanInfo, cond: Conditioning, tables: Tables, pl: Plan,
                   comp: seq<nat>, src: seq<array<coef>>, dst: seq<array<coef>>, order: seq<nat>)
    returns (bytes: seq<int>, ok: bool)
    requires ImageOk(comp, src, dst) && VisitsAll(s, comp, order) && PlanOk(pl)
    requires RangesOk(s) && ScanOk(ScanOf(s, tables)) && |s.comps| <= 4
    requires forall i | 0 <= i < |order| :: Prepared(ScanOf(s, tables), dst[order[i]][..], src[order[i]][..])
    modifies dst
    ensures ok ==> forall n | 0 <= n < |comp| ::
              if comp[n] in s.comps then Received(ScanOf(s, tables), old(dst[n][..]), dst[n][..], src[n][..])
              else dst[n][..] == old(dst[n][..])
    ensures ok <==> ScanRestorable(s, cond, tables, pl, comp, src, order)
  {
    hide InRange, Received, Prepared, ScanOk, MarkersOk, Moderate, ScanOf, Restorable;
    var cis := Positions(s.comps, comp, order);
    var srcs := Select(src, order);
    var dsts := Select(dst, order);
    SelectedOk(s, comp, src, dst, order);
    bytes, ok := TransmitScan(cond, ScanOf(s, tables), pl, cis, srcs, dsts);
    forall n | 0 <= n < |comp| && comp[n] in s.comps && ok
      ensures Received(ScanOf(s, tables), old(dst[n][..]), dst[n][..], src[n][..])
    {
      var i :| 0 <= i < |order| && order[i] == n;
      assert dst[n] == dsts[i] && src[n] == srcs[i];
    }
  }

  lemma UntouchedNext(before: seq<ScanInfo>, s: ScanInfo, c: int)
    requires c !in s.comps
    ensures forall k :: LastAl(before + [s], c, k) == LastAl(before, c, k)
  {
    forall k ensures LastAl(before + [s], c, k) == LastAl(before, c, k) {
      LastAlSnoc(before, s, c, k);
    }
  }

  // ----- DC values that every scan can code -----

  predicate Moderate(x: int) {
    -0x4000 <= x <= 0x4000
  }

  /** No DC value is beyond 2^14 (data of 8 or 12 bits stay far below). */
  ghost predicate DcModerate(src: seq<array<coef>>)
    reads src
  {
    forall i | 0 <= i < |src| :: src[i].Length == 64 && Moderate(src[i][0])
  }

  lemma {:induction false} ModerateDiffs(cond: Conditioning, sc: Scan, st: DcState, us: seq<Unit>)
    requires ScanOk(sc) && UnitsOk(us)
    requires forall i | 0 <= i < |us| :: Moderate(us[i].b[0])
    requires forall c | 0 <= c < 4 :: Moderate(st.last[c])
    ensures DiffsOk(cond, sc, st, us)
    decreases |us|
  {
    if us != [] {
      hide NextContext, Moderate;
      var u := us[0];
      ModerateStep(cond, sc, st, u);
      ModerateDiffs(cond, sc, Step(cond, sc, st, u.ci, u.b), us[1..]);
    }
  }

  lemma ModerateScan(cond: Conditioning, sc: Scan, pl: Plan, us: seq<Unit>)
    requires ScanOk(sc) && UnitsOk(us)
    requires forall i | 0 <= i < |us| :: Moderate(us[i].b[0])
    ensures RestorableTo(cond, sc, pl, us, |us|)
  {
    hide Moderate, InRange, ScanOk, StartOf, EndOf;
    ModerateStart();
    forall i | 0 <= i < |us| ensures Restorable(cond, sc, pl, us, i) {
      var piece := Together(pl, us, i);
      assert UnitsOk(piece);
      ModerateDiffs(cond, sc, START, piece);
    }
  }

  lemma ModerateRestorable(before: seq<ScanInfo>, s: ScanInfo, nc: nat, cond: Conditioning, tables: Tables, pl: Plan,
                           comp: seq<nat>, src: seq<array<coef>>, order: seq<nat>)
    requires ScanValid(before, s, nc, true) && VisitsAll(s, comp, order) && DcModerate(src) && |comp| == |src|
    requires forall i | 0 <= i < |src| :: src[i].Length == 64 && InRange(src[i][..])
    ensures ScanRestorable(s, cond, tables, pl, comp, src, order)
  {
    ScanParameters(before, s, nc, tables);
    hide ScanFault, InRange, ScanOk, Moderate, ScanOf, RestorableTo, RangesOk;
    var srcs := Select(src, order);
    var us := SE.Units(Positions(s.comps, comp, order), srcs);
    forall i | 0 <= i < |us| ensures InRange(us[i].b) && Moderate(us[i].b[0]) {
      assert srcs[i] == src[order[i]];
    }
    ModerateScan(cond, ScanOf(s, tables), pl, us);
  }

  lemma ModerateStart()
    ensures forall c | 0 <= c < 4 :: Moderate(START.last[c])
  {
  }

  lemma ModerateStep(cond: Conditioning, sc: Scan, st: DcState, u: Unit)
    requires InRange(u.b) && Moderate(u.b[0])
    requires forall c | 0 <= c < 4 :: Moderate(st.last[c])
    ensures Abs(DcOf(sc, u.b) - st.last[u.ci]) <= 0x8000
    ensures forall c | 0 <= c < 4 :: Moderate(Step(cond, sc, st, u.ci, u.b).last[c])
  {
    hide NextContext;
    ModerateShift(u.b[0], sc.al);
  }

  lemma ModerateShift(x: coef, al: nat)
    requires Moderate(x)
    ensures Moderate(PointDc(x, al))
  {
    ModerateDiv(x, Pow2(al));
  }

  lemma ModerateDiv(x: int, p: nat)
    requires Moderate(x) && p >= 1
    ensures Moderate(x / p)
  {
  }

  // ----- The whole run -----

  ghost predicate AllRestorable(scans: seq<ScanInfo>, cond: Conditioning, tables: Tables, plans: seq<Plan>,
                                comp: seq<nat>, src: seq<array<coef>>, orders: seq<seq<nat>>)
    requires |orders| == |plans| == |scans|
    reads src
  {
    forall i | 0 <= i < |scans| :: ScanRestorable(scans[i], cond, tables, plans[i], comp, src, orders[i])
  }

  /** After the scans of any accepted script, or of any prefix of one, the decoder
      knows each coefficient down to the last bit position that was sent, and has zero
      for those never sent. */
  method RunScript(scans: seq<ScanInfo>, ghost nc: nat, cond: Conditioning, tables: Tables, plans: seq<Plan>,
                   comp: seq<nat>, src: seq<array<coef>>, dst: seq<array<coef>>, orders: seq<seq<nat>>)
    returns (bytes: seq<seq<int>>, ok: bool)
    requires ScansValid(scans, nc, true) && |orders| == |plans| == |scans|
    requires ImageOk(comp, src, dst)
    requires forall i | 0 <= i < |scans| :: VisitsAll(scans[i], comp, orders[i]) && PlanOk(plans[i])
    requires forall n, k | 0 <= n < |dst| && 0 <= k < 64 :: dst[n][k] == 0
    modifies dst
    ensures ok <==> AllRestorable(scans, cond, tables, plans, comp, src, orders)
    ensures ok ==> |bytes| == |scans| && Synchronised(scans, comp, src, dst)
  {
    hide ScanFault, LastAl, Expected, InRange, VisitsAll, ScanRestorable;
    bytes, ok := [], true;
    NothingSent(comp, src, dst);
    for i := 0 to |scans|
      invariant ok && |bytes| == i && ImageOk(comp, src, dst)
      invariant forall j | 0 <= j < i :: ScanRestorable(scans[j], cond, tables, plans[j], comp, src, orders[j])
      invariant Synchronised(scans[..i], comp, src, dst)
    {
      assert ScanValid(scans[..i], scans[i], nc, true);
      assert scans[..i + 1] == scans[..i] + [scans[i]];
      var segment;
      segment, ok := RunScan(scans[..i], scans[i], nc, cond, tables, plans[i], comp, src, dst, orders[i]);
      if !ok {
        return;
      }
      bytes := bytes + [segment];
    }
    assert scans[..|scans|] == scans;
  }

  lemma NothingSent(comp: seq<nat>, src: seq<array<coef>>, dst: seq<array<coef>>)
    requires ImageOk(comp, src, dst)
    requires forall n, k | 0 <= n < |dst| && 0 <= k < 64 :: dst[n][k] == 0
    ensures Synchronised([], comp, src, dst)
  {
  }

  /** A coefficient sent down to bit 0 is known exactly. */
  lemma CompleteIsExact(b: Block, k: nat)
    requires InRange(b) && k < 64
    ensures Expected(b, k, 0) == b[k]
  {
    assert Pow2(0) == 1;
  }

  /** Validates a script and runs it: one that sends everything restores the image.  It fails exactly
      if some scan codes a DC difference that is refused, which moderate DC values rule out. */
  method TransmitImage(script: seq<ScanInfo>, nc: nat, cond: Conditioning, tables: Tables, plans: seq<Plan>,
                       comp: seq<nat>, src: seq<array<coef>>, dst: seq<array<coef>>, orders: seq<seq<nat>>)
    returns (verdict: Verdict, ok: bool)
    requires ImageOk(comp, src, dst)
    requires |orders| == |plans| == |script|
    requires forall i | 0 <= i < |script| :: VisitsAll(script[i], comp, orders[i]) && PlanOk(plans[i])
    requires forall n, k | 0 <= n < |dst| && 0 <= k < 64 :: dst[n][k] == 0
    modifies dst
    ensures verdict.Accepted? <==> ValidScript(script, nc)
    ensures ok <==> verdict.Accepted? && verdict.progressive
                    && AllRestorable(script, cond, tables, plans, comp, src, orders)
    ensures verdict.Accepted? && verdict.progressive && DcModerate(src) ==> ok
    ensures ok ==> Synchronised(script, comp, src, dst)
    ensures ok && (forall n, k | 0 <= n < |comp| && 0 <= k < 64 :: LastAl(script, comp[n], k) == 0) ==>
              forall n | 0 <= n < |dst| :: dst[n][..] == src[n][..]
  {
    hide LastAl, Expected, InRange, VisitsAll, AllSent, ScanValid, ScanRestorable, Synchronised;
    verdict := ValidateScript(script, nc);
    ok := false;
    if verdict.Accepted? && verdict.progressive {
      if DcModerate(src) {
        forall i | 0 <= i < |script| ensures ScanRestorable(script[i], cond, tables, plans[i], comp, src, orders[i]) {
          ModerateRestorable(script[..i], script[i], nc, cond, tables, plans[i], comp, src, orders[i]);
        }
      }
      var bytes;
      bytes, ok := RunScript(script, nc, cond, tables, plans, comp, src, dst, orders);
      if ok && forall n, k | 0 <= n < |comp| && 0 <= k < 64 :: LastAl(script, comp[n], k) == 0 {
        AllExact(script, comp, src, dst);
      }
    }
  }

  lemma AllExact(script: seq<ScanInfo>, comp: seq<nat>, src: seq<array<coef>>, dst: seq<array<coef>>)
    requires ImageOk(comp, src, dst) && Synchronised(script, comp, src, dst)
    requires forall n, k | 0 <= n < |comp| && 0 <= k < 64 :: LastAl(script, comp[n], k) == 0
    ensures forall n | 0 <= n < |dst| :: dst[n][..] == src[n][..]
  {
    hide LastAl, Expected, InRange;
    forall n, k | 0 <= n < |dst| && 0 <= k < 64 ensures dst[n][k] == src[n][k] {
      CompleteIsExact(src[n][..], k);
    }
  }
}
