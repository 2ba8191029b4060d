/** Bands of refinement scans: how runs of zeros are counted past coefficients that are
    known to be nonzero. */
module HuffRefine {
  import opened Numbers
  import opened BitStrings
  import opened ArithModel
  import opened HuffItems
  import opened HuffBlocks

  /** A block in a refinement scan of its coefficients ss to se. */
  ghost function RefineBand(tbl: tblNo, b: Block, al: nat, ss: nat, se: nat): (x: Band)
    requires 1 <= ss <= se < 64
  {
    var kn := LastNew(b, al, ss, se);
    Band(RefineBody(tbl, b, al, kn, ss), kn < se, Corrections(b, al, TailStart(kn, ss), se + 1))
  }

  /** Where the band goes on after its last new coefficient. */
  function TailStart(kn: nat, ss: nat): (k: nat)
  {
    if kn < ss then ss else kn + 1
  }

  /** How many coefficients from s to k are still zero. */
  function ZerosIn(b: Block, al: nat, s: nat, k: nat): (n: nat)
    requires s <= k <= 64
    ensures n <= k - s
  {
    if s == k then 0 else ZerosIn(b, al, s, k - 1) + if Mag(b, al, k - 1) == 0 then 1 else 0
  }

  ghost predicate NoNew(b: Block, al: nat, s: nat, k: nat) {
    forall j | s <= j < k && j < 64 :: Mag(b, al, j) != 1
  }

  ghost predicate NoneKnown(b: Block, al: nat, s: nat, k: nat) {
    forall j | s <= j < k && j < 64 :: Mag(b, al, j) == 0
  }

  lemma {:induction false} CorrectionsSnoc(b: Block, al: nat, s: nat, k: nat)
    requires s <= k < 64
    ensures Corrections(b, al, s, k + 1)
            == Corrections(b, al, s, k) + if Mag(b, al, k) > 1 then [Mag(b, al, k) % 2] else []
    decreases k - s
  {
    hide Mag;
    if s < k {
      CorrectionsSnoc(b, al, s + 1, k);
    } else {
      assert Corrections(b, al, k + 1, k + 1) == [];
    }
  }

  lemma {:induction false} CorrectionsNone(b: Block, al: nat, s: nat, p: nat, k: nat)
    requires s <= p <= k <= 64 && NoneKnown(b, al, p, k)
    ensures Corrections(b, al, s, k) == Corrections(b, al, s, p)
    decreases k - p
  {
    if p < k {
      CorrectionsSnoc(b, al, s, k - 1);
      CorrectionsNone(b, al, s, p, k - 1);
    }
  }

  lemma {:induction false} ZerosSplit(b: Block, al: nat, s: nat, p: nat, k: nat)
    requires s <= p <= k <= 64
    ensures ZerosIn(b, al, s, k) == ZerosIn(b, al, s, p) + ZerosIn(b, al, p, k)
    decreases k
  {
    if p < k {
      ZerosSplit(b, al, s, p, k - 1);
    }
  }

  /** Zeros up to the next new coefficient, which is not before k. */
  lemma {:induction false} ZerosAheadFrom(b: Block, al: nat, s: nat, k: nat)
    requires s <= k <= 64 && NoNew(b, al, s, k)
    ensures ZerosAhead(b, al, s) == ZerosIn(b, al, s, k) + ZerosAhead(b, al, k)
    decreases k - s
  {
    hide Mag;
    if s < k {
      ZerosAheadFrom(b, al, s, k - 1);
    }
  }

  /** A decoder passes over n zeros and stops at the next coefficient that is not known. */
  lemma {:induction false} StopAt(b: Block, al: nat, s: nat, k: nat)
    requires s <= k < 64 && NoNew(b, al, s, k) && Mag(b, al, k) <= 1
    ensures Stop(b, al, s, ZerosIn(b, al, s, k)) == k
    decreases k - s
  {
    hide Mag;
    if s < k {
      ZerosSplit(b, al, s, s + 1, k);
      assert ZerosIn(b, al, s, s + 1) == ZerosIn(b, al, s, s) + if Mag(b, al, s) == 0 then 1 else 0;
      StopAt(b, al, s + 1, k);
    }
  }

  /** Among more than n zeros, the decoder stops at one of them. */
  lemma {:induction false} StopWithin(b: Block, al: nat, s: nat, k: nat, n: nat)
    requires s <= k <= 64 && NoNew(b, al, s, k) && ZerosIn(b, al, s, k) > n
    ensures var p := Stop(b, al, s, n); p < k && Mag(b, al, p) == 0 && ZerosIn(b, al, s, p) == n
    decreases k
  {
    hide Mag;
    if Mag(b, al, k - 1) == 0 && ZerosIn(b, al, s, k - 1) == n {
      StopAt(b, al, s, k - 1);
    } else {
      StopWithin(b, al, s, k - 1, n);
    }
  }

  lemma {:induction false} LastNewIs(b: Block, al: nat, ss: nat, se: nat, k: nat)
    requires 1 <= ss <= k <= se < 64 && Mag(b, al, k) == 1
    ensures k <= LastNew(b, al, ss, se)
  {
    if k < se {
      LastNewIs(b, al, ss, se - 1, k);
    }
  }

  /** One step of the definition, which stops at p. */
  lemma RefineUnfold(tbl: tblNo, b: Block, al: nat, kn: nat, k: nat, p: nat)
    requires k <= kn < 64 && p == Stop(b, al, k, if ZerosAhead(b, al, k) > 15 then 15 else ZerosAhead(b, al, k))
    ensures var z := ZerosAhead(b, al, k);
            RefineBody(tbl, b, al, kn, k)
            == if p > kn || (z > 15 && p == kn) then []
               else (if z > 15 then [Sym(true, tbl, ZRL)] else [Sym(true, tbl, RunSize(z, 1)), SignItem(b[p])])
                    + (RawBits(Corrections(b, al, k, p)) + RefineBody(tbl, b, al, kn, p + 1))
  {
    hide RawBits, Corrections, ZerosAhead, Stop, RunSize, SignItem;
  }

  lemma RefineNothing(tbl: tblNo, b: Block, al: nat, kn: nat, k: nat)
    requires kn < k <= 64
    ensures RefineBody(tbl, b, al, kn, k) == []
  {
  }

  /** A new coefficient at k, after r zeros. */
  lemma NewStep(tbl: tblNo, b: Block, al: nat, kn: nat, s: nat, k: nat)
    requires s <= k <= kn < 64 && Mag(b, al, k) == 1 && NoNew(b, al, s, k) && ZerosIn(b, al, s, k) <= 15
    ensures RefineBody(tbl, b, al, kn, s)
            == [Sym(true, tbl, RunSize(ZerosIn(b, al, s, k), 1)), SignItem(b[k])]
               + (RawBits(Corrections(b, al, s, k)) + RefineBody(tbl, b, al, kn, k + 1))
  {
    NoZerosAhead(b, al, k);
    hide Mag, RunSize, RawBits, Corrections, ZerosAhead, ZerosIn, Stop, NoNew;
    ZerosAheadFrom(b, al, s, k);
    StopAt(b, al, s, k);
  }

  lemma NoZerosAhead(b: Block, al: nat, k: nat)
    requires k < 64 && Mag(b, al, k) == 1
    ensures ZerosAhead(b, al, k) == 0
  {
  }

  /** Sixteen zeros, with corrections on the way. */
  lemma ZrlStep(tbl: tblNo, b: Block, al: nat, kn: nat, s: nat, k: nat)
    requires s <= k <= kn < 64 && Mag(b, al, kn) == 1 && NoNew(b, al, s, k) && ZerosIn(b, al, s, k) > 15
    ensures var p := Stop(b, al, s, 15);
            && p < k && Mag(b, al, p) == 0 && ZerosIn(b, al, s, p) == 15
            && RefineBody(tbl, b, al, kn, s)
               == [Sym(true, tbl, ZRL)] + (RawBits(Corrections(b, al, s, p)) + RefineBody(tbl, b, al, kn, p + 1))
  {
    hide Mag, RunSize, RawBits, Corrections, ZerosAhead, ZerosIn, Stop, NoNew, RefineBody;
    ZerosAheadFrom(b, al, s, k);
    StopWithin(b, al, s, k, 15);
    RefineUnfold(tbl, b, al, kn, s, Stop(b, al, s, 15));
  }

  lemma RefineBandOk(tbl: tblNo, b: Block, al: nat, ss: nat, se: nat)
    requires 1 <= ss <= se < 64
    ensures BandOk(RefineBand(tbl, b, al, ss, se))
    ensures RefineBand(tbl, b, al, ss, se).body == [] <==> LastNew(b, al, ss, se) == 0
  {
    hide Mag;
    var kn := LastNew(b, al, ss, se);
    if kn > 0 {
      BodyStarts(tbl, b, al, kn, ss);
    }
  }

  /** As long as a new coefficient lies ahead, the body has symbols. */
  lemma BodyStarts(tbl: tblNo, b: Block, al: nat, kn: nat, s: nat)
    requires s <= kn < 64 && Mag(b, al, kn) == 1
    ensures RefineBody(tbl, b, al, kn, s) != []
  {
    hide RawBits, Corrections;
    var k := NextNew(b, al, kn, s);
    hide Mag;
    if ZerosIn(b, al, s, k) > 15 {
      ZrlStep(tbl, b, al, kn, s, k);
    } else {
      NewStep(tbl, b, al, kn, s, k);
    }
  }

  function NextNew(b: Block, al: nat, kn: nat, s: nat): (k: nat)
    requires s <= kn < 64 && Mag(b, al, kn) == 1
    ensures s <= k <= kn && Mag(b, al, k) == 1 && NoNew(b, al, s, k)
    decreases kn - s
  {
    if Mag(b, al, s) == 1 then s else NextNew(b, al, kn, s + 1)
  }
}
