/** The recommended progressive scripts. */
module SimpleProgression {
  import opened Numbers
  import opened Script
  import opened ScanOrder

  function Range(n: nat): (s: seq<int>)
    ensures |s| == n && forall i | 0 <= i < n :: s[i] == i
  {
    seq(n, i => i)
  }

  /** One scan for each of the first n components. */
  function CompScans(n: nat, ss: int, se: int, ah: int, al: int): (s: seq<ScanInfo>)
    ensures |s| == n
  {
    if n == 0 then [] else CompScans(n - 1, ss, se, ah, al) + [ScanInfo([n - 1], ss, se, ah, al)]
  }

  /** DC scans, interleaved if possible. */
  function DcScans(nc: nat, ah: int, al: int): (s: seq<ScanInfo>)
    ensures |s| == if nc <= MAX_COMPS_IN_SCAN then 1 else nc
  {
    if nc <= MAX_COMPS_IN_SCAN then [ScanInfo(Range(nc), 0, 0, ah, al)] else CompScans(nc, 0, 0, ah, al)
  }

  function OneScan(c: int, ss: int, se: int, ah: int, al: int): (s: seq<ScanInfo>) {
    [ScanInfo([c], ss, se, ah, al)]
  }

  function YccScript(): (s: seq<ScanInfo>) {
    DcScans(3, 0, 1)
    + OneScan(0, 1, 5, 0, 2)
    + OneScan(2, 1, 63, 0, 1)
    + OneScan(1, 1, 63, 0, 1)
    + OneScan(0, 6, 63, 0, 2)
    + OneScan(0, 1, 63, 2, 1)
    + DcScans(3, 1, 0)
    + OneScan(2, 1, 63, 1, 0)
    + OneScan(1, 1, 63, 1, 0)
    + OneScan(0, 1, 63, 1, 0)
  }

  function GeneralScript(nc: nat): (s: seq<ScanInfo>) {
    DcScans(nc, 0, 1)
    + CompScans(nc, 1, 5, 0, 2)
    + CompScans(nc, 6, 63, 0, 2)
    + CompScans(nc, 1, 63, 2, 1)
    + DcScans(nc, 1, 0)
    + CompScans(nc, 1, 63, 1, 0)
  }

  // ----- What the scripts send -----

  lemma {:induction false} CompScansAt(n: nat, ss: int, se: int, ah: int, al: int, i: nat)
    requires i < n
    ensures CompScans(n, ss, se, ah, al)[i] == ScanInfo([i], ss, se, ah, al)
  {
    if i < n - 1 {
      CompScansAt(n - 1, ss, se, ah, al, i);
    }
  }

  /** The ten scans for YCbCr: low luminance frequencies first, chrominance in one piece. */
  lemma YccScans()
    ensures YccScript()
            == [ScanInfo([0, 1, 2], 0, 0, 0, 1), ScanInfo([0], 1, 5, 0, 2), ScanInfo([2], 1, 63, 0, 1),
                ScanInfo([1], 1, 63, 0, 1), ScanInfo([0], 6, 63, 0, 2), ScanInfo([0], 1, 63, 2, 1),
                ScanInfo([0, 1, 2], 0, 0, 1, 0), ScanInfo([2], 1, 63, 1, 0), ScanInfo([1], 1, 63, 1, 0),
                ScanInfo([0], 1, 63, 1, 0)]
  {
    assert Range(3) == [0, 1, 2];
  }

  /** The DC scans of the general script, which are interleaved if possible. */
  lemma GeneralDcScans(nc: nat, c: nat)
    requires c < nc
    ensures var d, script := if nc <= 4 then 1 else nc, GeneralScript(nc);
            && |script| == 2 * d + 4 * nc
            && (nc <= 4 ==> script[0] == ScanInfo(Range(nc), 0, 0, 0, 1)
                            && script[d + 3 * nc] == ScanInfo(Range(nc), 0, 0, 1, 0))
            && (nc > 4 ==> script[c] == ScanInfo([c], 0, 0, 0, 1)
                           && script[d + 3 * nc + c] == ScanInfo([c], 0, 0, 1, 0))
  {
    CompScansAt(nc, 0, 0, 0, 1, c);
    CompScansAt(nc, 0, 0, 1, 0, c);
    hide CompScans;
  }

  /** Its AC scans, component by component. */
  lemma GeneralAcScans(nc: nat, c: nat)
    requires c < nc
    ensures var d, script := if nc <= 4 then 1 else nc, GeneralScript(nc);
            && |script| == 2 * d + 4 * nc
            && script[d + c] == ScanInfo([c], 1, 5, 0, 2)
            && script[d + nc + c] == ScanInfo([c], 6, 63, 0, 2)
            && script[d + 2 * nc + c] == ScanInfo([c], 1, 63, 2, 1)
            && script[2 * d + 3 * nc + c] == ScanInfo([c], 1, 63, 1, 0)
  {
    CompScansAt(nc, 1, 5, 0, 2, c);
    CompScansAt(nc, 6, 63, 0, 2, c);
    CompScansAt(nc, 1, 63, 2, 1, c);
    CompScansAt(nc, 1, 63, 1, 0, c);
    var first, low, high := DcScans(nc, 0, 1), CompScans(nc, 1, 5, 0, 2), CompScans(nc, 6, 63, 0, 2);
    var mid, again, last := CompScans(nc, 1, 63, 2, 1), DcScans(nc, 1, 0), CompScans(nc, 1, 63, 1, 0);
    hide CompScans, DcScans;
    MiddleParts(first, low, high, mid, again, c);
    assert GeneralScript(nc) == first + low + high + mid + again + last;
  }

  /** Where the entries of the middle parts are. */
  lemma MiddleParts(a: seq<ScanInfo>, b: seq<ScanInfo>, c: seq<ScanInfo>, d: seq<ScanInfo>, e: seq<ScanInfo>, i: nat)
    requires i < |b| == |c| == |d|
    ensures var s := a + b + c + d + e;
            && s[|a| + i] == b[i] && s[|a| + |b| + i] == c[i] && s[|a| + 2 * |b| + i] == d[i]
            && |s| == |a| + 3 * |b| + |e|
  {
  }

  lemma {:induction false} HistoryAppend(a: seq<ScanInfo>, b: seq<ScanInfo>, c: int, k: int)
    ensures History(a + b, c, k) == History(a, c, k) + History(b, c, k)
  {
    if b == [] {
      assert a + b == a;
    } else {
      var init := b[..|b| - 1];
      assert (a + b)[..|a + b| - 1] == a + init;
      HistoryAppend(a, init, c, k);
    }
  }

  lemma {:induction false} CompHistory(n: nat, ss: int, se: int, ah: int, al: int, c: int, k: int)
    ensures History(CompScans(n, ss, se, ah, al), c, k) == if 0 <= c < n && ss <= k <= se then [(ah, al)] else []
  {
    if n > 0 {
      hide History;
      CompHistory(n - 1, ss, se, ah, al, c, k);
      HistorySnoc(CompScans(n - 1, ss, se, ah, al), ScanInfo([n - 1], ss, se, ah, al), c, k);
    }
  }

  lemma DcHistory(nc: nat, ah: int, al: int, c: int, k: int)
    ensures History(DcScans(nc, ah, al), c, k) == if 0 <= c < nc && k == 0 then [(ah, al)] else []
  {
    if nc <= MAX_COMPS_IN_SCAN {
      HistorySnoc([], ScanInfo(Range(nc), 0, 0, ah, al), c, k);
      assert 0 <= c < nc ==> Range(nc)[c] == c;
      assert [] + DcScans(nc, ah, al) == DcScans(nc, ah, al);
    } else {
      CompHistory(nc, 0, 0, ah, al, c, k);
    }
  }

  /** The general script sends each DC coefficient in two steps, and each other coefficient in three. */
  lemma GeneralHistory(nc: nat, c: int, k: int)
    requires 0 <= k < 64
    ensures History(GeneralScript(nc), c, k)
            == if c < 0 || c >= nc then [] else if k == 0 then [(0, 1), (1, 0)] else [(0, 2), (2, 1), (1, 0)]
  {
    var dc, low, high := DcScans(nc, 0, 1), CompScans(nc, 1, 5, 0, 2), CompScans(nc, 6, 63, 0, 2);
    var next, dc', last := CompScans(nc, 1, 63, 2, 1), DcScans(nc, 1, 0), CompScans(nc, 1, 63, 1, 0);
    DcHistory(nc, 0, 1, c, k);
    DcHistory(nc, 1, 0, c, k);
    CompHistory(nc, 1, 5, 0, 2, c, k);
    CompHistory(nc, 6, 63, 0, 2, c, k);
    CompHistory(nc, 1, 63, 2, 1, c, k);
    CompHistory(nc, 1, 63, 1, 0, c, k);
    hide History, DcScans, CompScans;
    HistoryAppend(dc, low, c, k);
    HistoryAppend(dc + low, high, c, k);
    HistoryAppend(dc + low + high, next, c, k);
    HistoryAppend(dc + low + high + next, dc', c, k);
    HistoryAppend(dc + low + high + next + dc', last, c, k);
  }

  /** The one for YCbCr sends luminance so, and each chrominance coefficient in two steps. */
  lemma YccHistory(c: int, k: int)
    requires 0 <= k < 64
    ensures History(YccScript(), c, k)
            == if c < 0 || c > 2 then [] else if k == 0 || c > 0 then [(0, 1), (1, 0)] else [(0, 2), (2, 1), (1, 0)]
  {
    DcHistory(3, 0, 1, c, k);
    DcHistory(3, 1, 0, c, k);
    hide History, DcScans;
    var s := DcScans(3, 0, 1);
    OneMore(s, 0, 1, 5, 0, 2, c, k);
    s := s + OneScan(0, 1, 5, 0, 2);
    OneMore(s, 2, 1, 63, 0, 1, c, k);
    s := s + OneScan(2, 1, 63, 0, 1);
    OneMore(s, 1, 1, 63, 0, 1, c, k);
    s := s + OneScan(1, 1, 63, 0, 1);
    OneMore(s, 0, 6, 63, 0, 2, c, k);
    s := s + OneScan(0, 6, 63, 0, 2);
    OneMore(s, 0, 1, 63, 2, 1, c, k);
    s := s + OneScan(0, 1, 63, 2, 1);
    HistoryAppend(s, DcScans(3, 1, 0), c, k);
    s := s + DcScans(3, 1, 0);
    OneMore(s, 2, 1, 63, 1, 0, c, k);
    s := s + OneScan(2, 1, 63, 1, 0);
    OneMore(s, 1, 1, 63, 1, 0, c, k);
    s := s + OneScan(1, 1, 63, 1, 0);
    OneMore(s, 0, 1, 63, 1, 0, c, k);
  }

  lemma OneMore(scans: seq<ScanInfo>, comp: int, ss: int, se: int, ah: int, al: int, c: int, k: int)
    ensures History(scans + OneScan(comp, ss, se, ah, al), c, k)
            == History(scans, c, k) + if c == comp && ss <= k <= se then [(ah, al)] else []
  {
    HistorySnoc(scans, ScanInfo([comp], ss, se, ah, al), c, k);
  }

  // ----- Filling the script space -----

  method FillAScan(script: array<ScanInfo>, p: nat, ci: int, ss: int, se: int, ah: int, al: int) returns (q: nat)
    requires p < script.Length
    modifies script
    ensures q == p + 1 && script[..q] == old(script[..p]) + OneScan(ci, ss, se, ah, al)
  {
    script[p] := ScanInfo([ci], ss, se, ah, al);
    q := p + 1;
  }

  method FillScans(script: array<ScanInfo>, p: nat, nc: nat, ss: int, se: int, ah: int, al: int) returns (q: nat)
    requires p + nc <= script.Length
    modifies script
    ensures q == p + nc && script[..q] == old(script[..p]) + CompScans(nc, ss, se, ah, al)
  {
    q := p;
    for ci := 0 to nc
      invariant q == p + ci && script[..q] == old(script[..p]) + CompScans(ci, ss, se, ah, al)
    {
      script[q] := ScanInfo([ci], ss, se, ah, al);
      assert script[..q + 1] == script[..q] + [script[q]];
      q := q + 1;
    }
  }

  method FillDcScans(script: array<ScanInfo>, p: nat, nc: nat, ah: int, al: int) returns (q: nat)
    requires p + |DcScans(nc, ah, al)| <= script.Length
    modifies script
    ensures q == p + |DcScans(nc, ah, al)| && script[..q] == old(script[..p]) + DcScans(nc, ah, al)
  {
    if nc <= MAX_COMPS_IN_SCAN {
      var comps := [];
      for ci := 0 to nc
        invariant comps == Range(ci)
      {
        comps := comps + [ci];
      }
      script[p] := ScanInfo(comps, 0, 0, ah, al);
      q := p + 1;
    } else {
      q := FillScans(script, p, nc, 0, 0, ah, al);
    }
  }

  /** Fills exactly the entries it counted; space already allocated is used again if
      it is large enough. */
  method Fill(nc: nat, ycc: bool, space: array?<ScanInfo>) returns (script: array<ScanInfo>, numScans: nat)
    modifies if space == null then {} else {space}
    ensures numScans <= script.Length
    ensures script[..numScans] == if nc == 3 && ycc then YccScript() else GeneralScript(nc)
    ensures script == space || fresh(script)
  {
    if nc == 3 && ycc {
      numScans := 10;
    } else if nc > MAX_COMPS_IN_SCAN {
      numScans := 6 * nc;
    } else {
      numScans := 2 + 4 * nc;
    }
    if space == null || space.Length < numScans {
      script := new ScanInfo[if numScans > 10 then numScans else 10](_ => ScanInfo([], 0, 0, 0, 0));
    } else {
      script := space;
    }
    var p: nat;
    if nc == 3 && ycc {
      p := FillYcc(script);
    } else {
      p := FillGeneral(script, nc);
    }
    assert p == numScans;
  }

  lemma YccParts()
    ensures |DcScans(3, 0, 1)| == |DcScans(3, 1, 0)| == 1
    ensures YccScript()
            == [] + DcScans(3, 0, 1) + OneScan(0, 1, 5, 0, 2) + OneScan(2, 1, 63, 0, 1) + OneScan(1, 1, 63, 0, 1)
               + OneScan(0, 6, 63, 0, 2) + OneScan(0, 1, 63, 2, 1) + DcScans(3, 1, 0) + OneScan(2, 1, 63, 1, 0)
               + OneScan(1, 1, 63, 1, 0) + OneScan(0, 1, 63, 1, 0)
  {
    hide OneScan;
    assert [] + DcScans(3, 0, 1) == DcScans(3, 0, 1);
  }

  method FillYcc(script: array<ScanInfo>) returns (p: nat)
    requires script.Length >= 10
    modifies script
    ensures p == 10 && script[..p] == YccScript()
  {
    hide *;
    YccParts();
    assert script[..0] == [];
    p := FillDcScans(script, 0, 3, 0, 1);
    p := FillAScan(script, p, 0, 1, 5, 0, 2);
    p := FillAScan(script, p, 2, 1, 63, 0, 1);
    p := FillAScan(script, p, 1, 1, 63, 0, 1);
    p := FillAScan(script, p, 0, 6, 63, 0, 2);
    p := FillAScan(script, p, 0, 1, 63, 2, 1);
    p := FillDcScans(script, p, 3, 1, 0);
    p := FillAScan(script, p, 2, 1, 63, 1, 0);
    p := FillAScan(script, p, 1, 1, 63, 1, 0);
    p := FillAScan(script, p, 0, 1, 63, 1, 0);
  }

  lemma GeneralParts(nc: nat)
    ensures |DcScans(nc, 0, 1)| == |DcScans(nc, 1, 0)| == if nc > MAX_COMPS_IN_SCAN then nc else 1
    ensures GeneralScript(nc)
            == [] + DcScans(nc, 0, 1) + CompScans(nc, 1, 5, 0, 2) + CompScans(nc, 6, 63, 0, 2)
               + CompScans(nc, 1, 63, 2, 1) + DcScans(nc, 1, 0) + CompScans(nc, 1, 63, 1, 0)
  {
    hide CompScans;
    assert [] + DcScans(nc, 0, 1) == DcScans(nc, 0, 1);
  }

  method FillGeneral(script: array<ScanInfo>, nc: nat) returns (p: nat)
    requires script.Length >= if nc > MAX_COMPS_IN_SCAN then 6 * nc else 2 + 4 * nc
    modifies script
    ensures p == (if nc > MAX_COMPS_IN_SCAN then 6 * nc else 2 + 4 * nc) && script[..p] == GeneralScript(nc)
  {
    hide *;
    GeneralParts(nc);
    assert script[..0] == [];
    p := FillDcScans(script, 0, nc, 0, 1);
    p := FillScans(script, p, nc, 1, 5, 0, 2);
    p := FillScans(script, p, nc, 6, 63, 0, 2);
    p := FillScans(script, p, nc, 1, 63, 2, 1);
    p := FillDcScans(script, p, nc, 1, 0);
    p := FillScans(script, p, nc, 1, 63, 1, 0);
  }

  // ----- The scripts are valid and complete -----

  lemma AppendOne(scans: seq<ScanInfo>, nc: nat, c: int, ss: int, se: int, ah: int, al: int)
    requires ScansValid(scans, nc, true) && 0 <= c < nc && 0 <= ss <= se < 64
    requires ss == 0 ==> se == 0
    requires ss != 0 ==> LastAl(scans, c, 0) >= 0
    requires 0 <= ah <= 10 && 0 <= al <= 10
    requires forall k | ss <= k <= se :: StepOk(LastAl(scans, c, k), ScanInfo([c], ss, se, ah, al))
    ensures var all := scans + OneScan(c, ss, se, ah, al);
            && ScansValid(all, nc, true)
            && forall c', k :: LastAl(all, c', k) == if c' == c && ss <= k <= se then al else LastAl(scans, c', k)
  {
    var s := ScanInfo([c], ss, se, ah, al);
    hide ScansValid, LastAl;
    assert HistoryOk(scans, s);
    ValidSnoc(scans, s, nc, true);
    forall c', k ensures LastAl(scans + [s], c', k) == if c' == c && ss <= k <= se then al else LastAl(scans, c', k) {
      LastAlSnoc(scans, s, c', k);
    }
  }

  lemma CompScansStep(scans: seq<ScanInfo>, n: nat, ss: int, se: int, ah: int, al: int)
    ensures n == 0 ==> scans + CompScans(n, ss, se, ah, al) == scans
    ensures n > 0 ==> scans + CompScans(n, ss, se, ah, al)
                      == (scans + CompScans(n - 1, ss, se, ah, al)) + OneScan(n - 1, ss, se, ah, al)
  {
  }

  lemma {:induction false} AppendComps(scans: seq<ScanInfo>, nc: nat, n: nat, ss: int, se: int, ah: int, al: int)
    requires ScansValid(scans, nc, true) && n <= nc && 0 <= ss <= se < 64
    requires ss == 0 ==> se == 0
    requires ss != 0 ==> forall c | 0 <= c < nc :: LastAl(scans, c, 0) >= 0
    requires 0 <= ah <= 10 && 0 <= al <= 10
    requires forall c, k | 0 <= c < nc && ss <= k <= se :: StepOk(LastAl(scans, c, k), ScanInfo([c], ss, se, ah, al))
    ensures var all := scans + CompScans(n, ss, se, ah, al);
            && ScansValid(all, nc, true)
            && forall c, k :: LastAl(all, c, k) == if 0 <= c < n && ss <= k <= se then al else LastAl(scans, c, k)
  {
    hide *;
    CompScansStep(scans, n, ss, se, ah, al);
    if n > 0 {
      AppendComps(scans, nc, n - 1, ss, se, ah, al);
      var prior := scans + CompScans(n - 1, ss, se, ah, al);
      AppendOne(prior, nc, n - 1, ss, se, ah, al);
    }
  }

  lemma AppendDc(scans: seq<ScanInfo>, nc: nat, ah: int, al: int)
    requires ScansValid(scans, nc, true) && nc >= 1
    requires 0 <= ah <= 10 && 0 <= al <= 10
    requires forall c | 0 <= c < nc :: StepOk(LastAl(scans, c, 0), ScanInfo([c], 0, 0, ah, al))
    ensures var all := scans + DcScans(nc, ah, al);
            && ScansValid(all, nc, true)
            && forall c, k :: LastAl(all, c, k) == if 0 <= c < nc && k == 0 then al else LastAl(scans, c, k)
  {
    hide ScansValid, LastAl;
    if nc <= MAX_COMPS_IN_SCAN {
      var s := ScanInfo(Range(nc), 0, 0, ah, al);
      assert forall c | c in s.comps :: StepOk(LastAl(scans, c, 0), ScanInfo([c], 0, 0, ah, al));
      assert HistoryOk(scans, s);
      ValidSnoc(scans, s, nc, true);
      forall c, k ensures LastAl(scans + [s], c, k) == if 0 <= c < nc && k == 0 then al else LastAl(scans, c, k) {
        LastAlSnoc(scans, s, c, k);
        if 0 <= c < nc {
          assert s.comps[c] == c;
        }
      }
    } else {
      AppendComps(scans, nc, nc, 0, 0, ah, al);
    }
  }

  /** Every coefficient of every component ends at bit 0. */
  ghost predicate Complete(scans: seq<ScanInfo>, nc: nat) {
    forall c, k | 0 <= c < nc && 0 <= k < 64 :: LastAl(scans, c, k) == 0
  }

  lemma GeneralValid(nc: nat)
    requires nc >= 1
    ensures ValidScript(GeneralScript(nc), nc) && Complete(GeneralScript(nc), nc)
    ensures IsProgressive(GeneralScript(nc))
  {
    hide DcScans, CompScans, LastAl;
    var s0: seq<ScanInfo> := [];
    Nothing();
    assert s0 + DcScans(nc, 0, 1) == DcScans(nc, 0, 1);
    AppendDc(s0, nc, 0, 1);
    var s1 := DcScans(nc, 0, 1);
    AppendComps(s1, nc, nc, 1, 5, 0, 2);
    var s2 := s1 + CompScans(nc, 1, 5, 0, 2);
    AppendComps(s2, nc, nc, 6, 63, 0, 2);
    var s3 := s2 + CompScans(nc, 6, 63, 0, 2);
    AppendComps(s3, nc, nc, 1, 63, 2, 1);
    var s4 := s3 + CompScans(nc, 1, 63, 2, 1);
    AppendDc(s4, nc, 1, 0);
    var s5 := s4 + DcScans(nc, 1, 0);
    AppendComps(s5, nc, nc, 1, 63, 1, 0);
    FirstDc(nc);
  }

  lemma Nothing()
    ensures forall c, k :: LastAl([], c, k) == -1
    ensures forall nc :: ScansValid([], nc, true)
  {
  }

  lemma {:induction false} FirstDc(nc: nat)
    requires nc >= 1
    ensures DcScans(nc, 0, 1)[0].ss == 0 == DcScans(nc, 0, 1)[0].se
  {
    if nc > MAX_COMPS_IN_SCAN {
      FirstComp(nc);
    }
  }

  lemma {:induction false} FirstComp(n: nat)
    requires n >= 1
    ensures CompScans(n, 0, 0, 0, 1)[0].ss == 0 == CompScans(n, 0, 0, 0, 1)[0].se
  {
    if n > 1 {
      FirstComp(n - 1);
    }
  }

  /** The first six scans send all coefficients down to bit 1. */
  lemma YccFirst() returns (scans: seq<ScanInfo>)
    ensures scans == DcScans(3, 0, 1) + OneScan(0, 1, 5, 0, 2) + OneScan(2, 1, 63, 0, 1) + OneScan(1, 1, 63, 0, 1)
                     + OneScan(0, 6, 63, 0, 2) + OneScan(0, 1, 63, 2, 1)
    ensures ScansValid(scans, 3, true)
    ensures forall c, k :: LastAl(scans, c, k) == if 0 <= c < 3 && 0 <= k <= 63 then 1 else -1
  {
    hide DcScans, OneScan, ScansValid, LastAl;
    Nothing();
    assert [] + DcScans(3, 0, 1) == DcScans(3, 0, 1);
    AppendDc([], 3, 0, 1);
    scans := DcScans(3, 0, 1);
    AppendOne(scans, 3, 0, 1, 5, 0, 2);
    scans := scans + OneScan(0, 1, 5, 0, 2);
    AppendOne(scans, 3, 2, 1, 63, 0, 1);
    scans := scans + OneScan(2, 1, 63, 0, 1);
    AppendOne(scans, 3, 1, 1, 63, 0, 1);
    scans := scans + OneScan(1, 1, 63, 0, 1);
    AppendOne(scans, 3, 0, 6, 63, 0, 2);
    scans := scans + OneScan(0, 6, 63, 0, 2);
    AppendOne(scans, 3, 0, 1, 63, 2, 1);
    scans := scans + OneScan(0, 1, 63, 2, 1);
  }

  /** The other scans send bit 0. */
  lemma YccSecond(scans: seq<ScanInfo>)
    requires ScansValid(scans, 3, true)
    requires forall c, k :: LastAl(scans, c, k) == if 0 <= c < 3 && 0 <= k <= 63 then 1 else -1
    ensures var all := scans + DcScans(3, 1, 0) + OneScan(2, 1, 63, 1, 0) + OneScan(1, 1, 63, 1, 0)
                       + OneScan(0, 1, 63, 1, 0);
            ScansValid(all, 3, true) && Complete(all, 3)
  {
    hide DcScans, OneScan, ScansValid, LastAl;
    AppendDc(scans, 3, 1, 0);
    var s7 := scans + DcScans(3, 1, 0);
    AppendOne(s7, 3, 2, 1, 63, 1, 0);
    var s8 := s7 + OneScan(2, 1, 63, 1, 0);
    AppendOne(s8, 3, 1, 1, 63, 1, 0);
    var s9 := s8 + OneScan(1, 1, 63, 1, 0);
    AppendOne(s9, 3, 0, 1, 63, 1, 0);
  }

  lemma YccValid()
    ensures ValidScript(YccScript(), 3) && Complete(YccScript(), 3)
    ensures IsProgressive(YccScript())
  {
    hide DcScans, LastAl, ScansValid;
    var scans := YccFirst();
    YccSecond(scans);
    FirstDc(3);
  }
}
