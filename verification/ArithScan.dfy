/** What one arithmetic-coded scan sends: the decisions of a sequence of blocks,
    and what the decoder knows of the blocks afterwards. */
module ArithScan {
  import opened Numbers
  import opened IntervalCoder
  import opened ArithModel

  /** Parameters of a scan, with the tables of each component in it. */
  datatype Scan = Scan(progressive: bool, ss: nat, se: nat, ah: nat, al: nat,
                       dcTbl: compNo -> tableNo, acTbl: compNo -> tableNo)

  /** Scans that the master control and the decoder let through. */
  predicate ScanOk(sc: Scan) {
    && sc.ss <= sc.se < 64 && sc.al <= MAX_AL
    && (if sc.progressive then (sc.ss == 0 ==> sc.se == 0) && (sc.ah == 0 || sc.ah == sc.al + 1)
        else sc.ss == 0 && sc.ah == 0 && sc.al == 0)
  }

  /** DC predictions and contexts, which start at zero in every scan. */
  datatype DcState = DcState(last: Predictions, context: Contexts)

  const START := DcState([0, 0, 0, 0], [0, 0, 0, 0])

  /** Does the scan code DC differences? */
  predicate CodesDc(sc: Scan) {
    sc.ss == 0 && sc.ah == 0
  }

  function DcOf(sc: Scan, b: Block): (v: coef)
    requires InRange(b)
  {
    PointDc(b[0], sc.al)
  }

  function Step(cond: Conditioning, sc: Scan, st: DcState, ci: compNo, b: Block): (r: DcState)
    requires InRange(b)
  {
    if CodesDc(sc) then
      var v := DcOf(sc, b);
      DcState(st.last[ci := v], st.context[ci := NextContext(cond, sc.dcTbl(ci), v - st.last[ci])])
    else st
  }

  /** The decisions for one block. */
  function BlockDecisions(cond: Conditioning, sc: Scan, st: DcState, ci: compNo, b: Block): (ds: seq<Decision>)
    requires ScanOk(sc) && InRange(b)
  {
    if CodesDc(sc) then
      DcDiff(sc.dcTbl(ci), st.context[ci], DcOf(sc, b) - st.last[ci])
      + (if !sc.progressive && sc.se > 0
         then AcFirstBlock(sc.acTbl(ci), cond.acK(sc.acTbl(ci)), b, 1, sc.se, 0) else [])
    else if sc.ss == 0 then [Decision(FixedBin, PointDc(b[0], sc.al) % 2)] + []
    else if sc.ah == 0 then AcFirstBlock(sc.acTbl(ci), cond.acK(sc.acTbl(ci)), b, sc.ss, sc.se, sc.al)
    else AcRefineBlock(sc.acTbl(ci), b, sc.ss, sc.se, sc.ah, sc.al)
  }

  /** A block of the scan, with the number of its component in the scan. */
  datatype Unit = Unit(ci: compNo, b: Block)

  ghost predicate UnitsOk(us: seq<Unit>) {
    forall i | 0 <= i < |us| :: InRange(us[i].b)
  }

  /** The decisions of all blocks from st on. */
  ghost function ScanDecisions(cond: Conditioning, sc: Scan, st: DcState, us: seq<Unit>): (ds: seq<Decision>)
    requires ScanOk(sc) && UnitsOk(us)
    decreases |us|
  {
    if us == [] then []
    else BlockDecisions(cond, sc, st, us[0].ci, us[0].b)
         + ScanDecisions(cond, sc, Step(cond, sc, st, us[0].ci, us[0].b), us[1..])
  }

  /** All DC differences have a magnitude that the decoder accepts. */
  ghost predicate DiffsOk(cond: Conditioning, sc: Scan, st: DcState, us: seq<Unit>)
    requires ScanOk(sc) && UnitsOk(us)
    decreases |us|
  {
    us == []
    || (&& (CodesDc(sc) ==> Abs(DcOf(sc, us[0].b) - st.last[us[0].ci]) <= 0x8000)
        && DiffsOk(cond, sc, Step(cond, sc, st, us[0].ci, us[0].b), us[1..]))
  }

  /** What is known of coefficient k of a block once bit al is sent. */
  function KnownAt(b: Block, k: nat, al: nat): (x: int)
    requires InRange(b) && k < 64
  {
    if k == 0 then TruncDc(b[0], al) else Trunc(b[k], al)
  }

  predicate Sends(sc: Scan, k: nat) {
    sc.ss <= k <= sc.se
  }

  /** The decoder's block is as the earlier scans should have left it. */
  ghost predicate Prepared(sc: Scan, old': seq<int>, b: Block)
    requires InRange(b)
  {
    |old'| == 64
    && forall k | 0 <= k < 64 && Sends(sc, k) ::
         old'[k] == if sc.ah == 0 then 0 else KnownAt(b, k, sc.ah)
  }

  ghost predicate Received(sc: Scan, old': seq<int>, new': seq<int>, b: Block)
    requires InRange(b)
  {
    |old'| == |new'| == 64
    && forall k | 0 <= k < 64 :: new'[k] == if Sends(sc, k) then KnownAt(b, k, sc.al) else old'[k]
  }

  // ----- Stepping through a scan -----

  ghost function After(cond: Conditioning, sc: Scan, st: DcState, us: seq<Unit>): (r: DcState)
    requires UnitsOk(us)
    decreases |us|
  {
    if us == [] then st else After(cond, sc, Step(cond, sc, st, us[0].ci, us[0].b), us[1..])
  }

  lemma {:induction false} DecisionsSnoc(cond: Conditioning, sc: Scan, st: DcState, us: seq<Unit>, u: Unit)
    requires ScanOk(sc) && UnitsOk(us) && InRange(u.b) && UnitsOk(us + [u])
    ensures ScanDecisions(cond, sc, st, us + [u])
            == ScanDecisions(cond, sc, st, us) + BlockDecisions(cond, sc, After(cond, sc, st, us), u.ci, u.b)
    ensures After(cond, sc, st, us + [u]) == Step(cond, sc, After(cond, sc, st, us), u.ci, u.b)
    decreases |us|
  {
    hide BlockDecisions, Step, ScanOk, InRange;
    if us == [] {
      assert (us + [u])[1..] == [];
    } else {
      assert (us + [u])[1..] == us[1..] + [u];
      assert UnitsOk(us[1..] + [u]);
      DecisionsSnoc(cond, sc, Step(cond, sc, st, us[0].ci, us[0].b), us[1..], u);
    }
  }

  /** Without DC differences nothing is predicted. */
  lemma {:induction false} AfterIdle(cond: Conditioning, sc: Scan, st: DcState, us: seq<Unit>)
    requires UnitsOk(us) && !CodesDc(sc)
    ensures After(cond, sc, st, us) == st
    decreases |us|
  {
    if us != [] {
      AfterIdle(cond, sc, st, us[1..]);
    }
  }

  lemma ScanHead(cond: Conditioning, sc: Scan, st: DcState, us: seq<Unit>, i: nat)
    requires ScanOk(sc) && UnitsOk(us) && i < |us|
    ensures ScanDecisions(cond, sc, st, us[i..])
            == BlockDecisions(cond, sc, st, us[i].ci, us[i].b)
               + ScanDecisions(cond, sc, Step(cond, sc, st, us[i].ci, us[i].b), us[i + 1..])
    ensures DiffsOk(cond, sc, st, us[i..])
            <==> (CodesDc(sc) ==> Abs(DcOf(sc, us[i].b) - st.last[us[i].ci]) <= 0x8000)
                 && DiffsOk(cond, sc, Step(cond, sc, st, us[i].ci, us[i].b), us[i + 1..])
  {
    hide BlockDecisions, Step, InRange, DcOf, CodesDc;
    assert us[i..][1..] == us[i + 1..];
  }
}
