/** Scripts after validation: the in-place reducer, and the decoder's own check of
    the scan order. */
module ScanOrder {
  import opened Numbers
  import opened Script

  // ----- The reducer -----

  function Clamp(s: ScanInfo, limSe: int): ScanInfo {
    if s.se > limSe then s.(se := limSe) else s
  }

  /** Scans beyond the block are dropped, the others end with the block. */
  function Reduced(scans: seq<ScanInfo>, limSe: int): (r: seq<ScanInfo>)
    ensures |r| <= |scans|
  {
    if scans == [] then []
    else
      var s := scans[|scans| - 1];
      Reduced(scans[..|scans| - 1], limSe) + if s.ss > limSe then [] else [Clamp(s, limSe)]
  }

  lemma ReducedSnoc(scans: seq<ScanInfo>, s: ScanInfo, limSe: int)
    ensures Reduced(scans + [s], limSe)
            == Reduced(scans, limSe) + if s.ss > limSe then [] else [Clamp(s, limSe)]
  {
    assert (scans + [s])[..|scans|] == scans;
  }

  lemma NothingReduced(limSe: int)
    ensures Reduced([], limSe) == []
  {
  }

  /** Compacts the script within its own memory. */
  method ReduceScript(script: array<ScanInfo>, numScans: nat, limSe: int) returns (n: nat)
    requires numScans <= script.Length
    modifies script
    ensures n <= numScans && script[..n] == Reduced(old(script[..numScans]), limSe)
  {
    hide Reduced;
    ghost var before := script[..numScans];
    var idxout := 0;
    NothingReduced(limSe);
    assert before[..0] == [];
    for idxin := 0 to numScans
      invariant idxout <= idxin
      invariant script[..idxout] == Reduced(before[..idxin], limSe)
      invariant forall j | idxin <= j < numScans :: script[j] == before[j]
    {
      assert before[..idxin + 1] == before[..idxin] + [before[idxin]];
      ReducedSnoc(before[..idxin], before[idxin], limSe);
      ghost var kept := script[..idxout];
      if idxin != idxout {
        script[idxout] := script[idxin];
      }
      if script[idxout].ss > limSe {
        continue;
      }
      if script[idxout].se > limSe {
        script[idxout] := script[idxout].(se := limSe);
      }
      assert script[..idxout + 1] == kept + [Clamp(before[idxin], limSe)];
      idxout := idxout + 1;
    }
    assert before[..numScans] == before;
    n := idxout;
  }

  /** The successive approximations of a coefficient, scan by scan. */
  function History(scans: seq<ScanInfo>, c: int, k: int): (h: seq<(int, int)>) {
    if scans == [] then []
    else
      var s := scans[|scans| - 1];
      History(scans[..|scans| - 1], c, k) + if Covers(s, c, k) then [(s.ah, s.al)] else []
  }

  lemma HistorySnoc(scans: seq<ScanInfo>, s: ScanInfo, c: int, k: int)
    ensures History(scans + [s], c, k) == History(scans, c, k) + if Covers(s, c, k) then [(s.ah, s.al)] else []
  {
    assert (scans + [s])[..|scans|] == scans;
  }

  lemma {:induction false} LastInHistory(scans: seq<ScanInfo>, c: int, k: int)
    ensures var h := History(scans, c, k); LastAl(scans, c, k) == if h == [] then -1 else h[|h| - 1].1
  {
    if scans != [] {
      LastInHistory(scans[..|scans| - 1], c, k);
    }
  }

  /** Each coefficient that survives keeps its whole history. */
  lemma {:induction false} ReducedHistory(scans: seq<ScanInfo>, limSe: int, c: int, k: int)
    requires k <= limSe
    ensures History(Reduced(scans, limSe), c, k) == History(scans, c, k)
  {
    if scans != [] {
      var init, s := scans[..|scans| - 1], scans[|scans| - 1];
      ReducedHistory(init, limSe, c, k);
      if s.ss > limSe {
        assert Reduced(scans, limSe) == Reduced(init, limSe);
      } else {
        hide Covers;
        HistorySnoc(Reduced(init, limSe), Clamp(s, limSe), c, k);
      }
    }
  }

  lemma ReducedLast(scans: seq<ScanInfo>, limSe: int, c: int, k: int)
    requires k <= limSe
    ensures LastAl(Reduced(scans, limSe), c, k) == LastAl(scans, c, k)
  {
    ReducedHistory(scans, limSe, c, k);
    LastInHistory(scans, c, k);
    LastInHistory(Reduced(scans, limSe), c, k);
  }

  // ----- The decoder -----

  /** The parameters of a progressive scan that the decoder takes for an error. */
  predicate BadProgression(s: ScanInfo, limSe: int) {
    || (s.ss == 0 && s.se != 0)
    || (s.ss != 0 && (s.se < s.ss || s.se > limSe || |s.comps| != 1))
    || (s.ah != 0 && s.ah - 1 != s.al)
    || s.al > 13
  }

  /** The order of scans that the decoder warns about. */
  ghost predicate InOrder(before: seq<ScanInfo>, s: ScanInfo) {
    && (s.ss != 0 ==> forall c | c in s.comps :: LastAl(before, c, 0) >= 0)
    && forall c, k | c in s.comps && s.ss <= k <= s.se ::
         s.ah == if LastAl(before, c, k) < 0 then 0 else LastAl(before, c, k)
  }

  /** A coefficient is out of order if its bit position is not the one that the scan goes on from; and the DC
      coefficient is if an AC scan comes before it was sent. */
  ghost predicate OutOfOrder(before: seq<ScanInfo>, s: ScanInfo, c: int, k: int) {
    || (s.ss != 0 && k == 0 && LastAl(before, c, 0) < 0)
    || (s.ss <= k <= s.se && s.ah != if LastAl(before, c, k) < 0 then 0 else LastAl(before, c, k))
  }

  /** A warning names a component and a coefficient.  There is one for each that is out of order, in order. */
  ghost predicate Warned(before: seq<ScanInfo>, s: ScanInfo, cs: seq<int>, warnings: seq<(int, int)>) {
    && (forall x | x in warnings :: x.0 in cs && OutOfOrder(before, s, x.0, x.1))
    && (forall c, k | c in cs && OutOfOrder(before, s, c, k) :: (c, k) in warnings)
    && (forall i, j | 0 <= i < j < |warnings| :: warnings[i] != warnings[j])
  }

  /** The decoder refuses by the rules of the validator, except that it lets Al go up to 13, and wants each
      refinement to be by one bit. */
  lemma RefusedScan(s: ScanInfo, limSe: int)
    requires s.ss >= 0 && s.ah >= 0 && s.al >= 0 && 0 <= limSe < DCTSIZE2
    ensures BadProgression(s, limSe)
            <==> !RangesOk(s.(ah := 0, al := 0)) || s.se > limSe || s.al > 13 || (s.ah > 0 && s.ah != s.al + 1)
  {
  }

  /** No coefficient of the scan was sent down to bit 0 before. */
  ghost predicate NoneComplete(before: seq<ScanInfo>, s: ScanInfo) {
    forall c, k | c in s.comps && s.ss <= k <= s.se :: LastAl(before, c, k) != 0
  }

  /** Of the scans that the decoder accepts, the validator takes those that raise no warning, except that the
      decoder does not mind a complete coefficient being sent again. */
  lemma SameOrder(before: seq<ScanInfo>, s: ScanInfo, limSe: int)
    requires !BadProgression(s, limSe) && s.al >= 0
    ensures HistoryOk(before, s) <==> InOrder(before, s) && NoneComplete(before, s)
  {
  }

  lemma NoWarning(before: seq<ScanInfo>, s: ScanInfo, warnings: seq<(int, int)>)
    requires Warned(before, s, s.comps, warnings)
    ensures warnings == [] <==> InOrder(before, s)
  {
    hide LastAl;
    if warnings == [] {
      forall c | c in s.comps ensures s.ss != 0 ==> LastAl(before, c, 0) >= 0 {
        assert !OutOfOrder(before, s, c, 0);
      }
      forall c, k | c in s.comps && s.ss <= k <= s.se
        ensures s.ah == if LastAl(before, c, k) < 0 then 0 else LastAl(before, c, k)
      {
        assert !OutOfOrder(before, s, c, k);
      }
    } else {
      var x := warnings[0];
      assert x in warnings && OutOfOrder(before, s, x.0, x.1);
    }
  }

  lemma WarnedMore(before: seq<ScanInfo>, s: ScanInfo, cs: seq<int>, warnings: seq<(int, int)>, c: int,
                   more: seq<(int, int)>)
    requires Warned(before, s, cs, warnings) && Warned(before, s, [c], more) && c !in cs
    ensures Warned(before, s, cs + [c], warnings + more)
  {
    hide OutOfOrder;
    var all := warnings + more;
    forall i, j | 0 <= i < j < |all| ensures all[i] != all[j] {
      if i < |warnings| <= j {
        assert all[i] in warnings && all[j] in more;
      }
    }
  }

  /** The check at the start of each progressive scan.  It issues its warnings and records the point transform
      of the scan. */
  method StartPass(ghost before: seq<ScanInfo>, s: ScanInfo, nc: nat, limSe: int, coefBits: array2<int>)
    returns (bad: bool, warnings: seq<(int, int)>)
    requires Tracks(coefBits, before, nc) && ComponentsOk(s, nc) && Distinct(s)
    requires 0 <= s.ss && limSe < DCTSIZE2
    modifies coefBits
    ensures bad <==> BadProgression(s, limSe)
    ensures !bad ==> Warned(before, s, s.comps, warnings) && (warnings == [] <==> InOrder(before, s))
    ensures !bad ==> Tracks(coefBits, before + [s], nc)
  {
    warnings := [];
    if s.ss == 0 {
      if s.se != 0 {
        return true, [];
      }
    } else {
      if s.se < s.ss || s.se > limSe {
        return true, [];
      }
      if |s.comps| != 1 {
        return true, [];
      }
    }
    if s.ah != 0 {
      if s.ah - 1 != s.al {
        return true, [];
      }
    }
    if s.al > 13 {
      return true, [];
    }
    for i := 0 to |s.comps|
      invariant Warned(before, s, s.comps[..i], warnings)
      invariant forall c, k | 0 <= c < nc && 0 <= k < DCTSIZE2 ::
                  coefBits[c, k] == if c in s.comps[..i] && s.ss <= k <= s.se then s.al else LastAl(before, c, k)
    {
      var c := s.comps[i];
      assert c !in s.comps[..i];
      var w := CheckOrder(before, s, nc, c, s.comps[..i], coefBits);
      WarnedMore(before, s, s.comps[..i], warnings, c, w);
      warnings := warnings + w;
      assert s.comps[..i + 1] == s.comps[..i] + [c];
    }
    assert s.comps[..|s.comps|] == s.comps;
    forall c, k | 0 <= c < nc && 0 <= k < DCTSIZE2 ensures coefBits[c, k] == LastAl(before + [s], c, k) {
      LastAlSnoc(before, s, c, k);
    }
    NoWarning(before, s, warnings);
    bad := false;
  }

  method CheckOrder(ghost before: seq<ScanInfo>, s: ScanInfo, nc: nat, c: int, ghost done: seq<int>, t: array2<int>)
    returns (warnings: seq<(int, int)>)
    requires t.Length0 == nc && t.Length1 == DCTSIZE2 && 0 <= c < nc && c !in done && 0 <= s.ss <= s.se < DCTSIZE2
    requires forall c, k | 0 <= c < nc && 0 <= k < DCTSIZE2 ::
               t[c, k] == if c in done && s.ss <= k <= s.se then s.al else LastAl(before, c, k)
    modifies t
    ensures Warned(before, s, [c], warnings)
    ensures forall c', k | 0 <= c' < nc && 0 <= k < DCTSIZE2 ::
              t[c', k] == if c' in done + [c] && s.ss <= k <= s.se then s.al else LastAl(before, c', k)
  {
    hide LastAl;
    warnings := [];
    if s.ss != 0 && t[c, 0] < 0 {
      warnings := warnings + [(c, 0)];
    }
    for k := s.ss to s.se + 1
      invariant forall x | x in warnings :: x.0 == c && x.1 < k && OutOfOrder(before, s, c, x.1)
      invariant forall k' | k' < k && OutOfOrder(before, s, c, k') :: (c, k') in warnings
      invariant forall i, j | 0 <= i < j < |warnings| :: warnings[i] != warnings[j]
      invariant forall c', k' | 0 <= c' < nc && 0 <= k' < DCTSIZE2 ::
                  t[c', k'] == if (c' in done && s.ss <= k' <= s.se) || (c' == c && s.ss <= k' < k) then s.al
                               else LastAl(before, c', k')
    {
      var expected := if t[c, k] < 0 then 0 else t[c, k];
      if s.ah != expected {
        warnings := warnings + [(c, k)];
      }
      t[c, k] := s.al;
    }
  }

  // ----- Accepted scripts pass the decoder's check -----

  ghost predicate Passes(before: seq<ScanInfo>, s: ScanInfo, nc: nat, limSe: int) {
    && ComponentsOk(s, nc) && Distinct(s) && 0 <= s.ss && 0 < |s.comps| <= MAX_COMPS_IN_SCAN
    && !BadProgression(s, limSe) && InOrder(before, s)
  }

  ghost predicate AllPass(scans: seq<ScanInfo>, nc: nat, limSe: int) {
    forall i | 0 <= i < |scans| :: Passes(scans[..i], scans[i], nc, limSe)
  }

  ghost predicate Within(scans: seq<ScanInfo>, limSe: int) {
    forall i | 0 <= i < |scans| :: scans[i].se <= limSe
  }

  /** Reducing an accepted progressive script keeps it acceptable. */
  lemma {:induction false} ReducedValid(scans: seq<ScanInfo>, nc: nat, limSe: int)
    requires ScansValid(scans, nc, true) && 0 <= limSe
    ensures ScansValid(Reduced(scans, limSe), nc, true) && Within(Reduced(scans, limSe), limSe)
  {
    if scans != [] {
      var n := |scans| - 1;
      var init, s := scans[..n], scans[n];
      PrefixValid(scans, n, nc, true);
      ReducedValid(init, nc, limSe);
      if s.ss <= limSe {
        assert ScanValid(init, s, nc, true);
        ClampedValid(init, s, nc, limSe);
        ValidSnoc(Reduced(init, limSe), Clamp(s, limSe), nc, true);
      } else {
        assert Reduced(scans, limSe) == Reduced(init, limSe);
      }
    }
  }

  lemma ClampedValid(before: seq<ScanInfo>, s: ScanInfo, nc: nat, limSe: int)
    requires ScanValid(before, s, nc, true) && 0 <= limSe && s.ss <= limSe
    ensures ScanValid(Reduced(before, limSe), Clamp(s, limSe), nc, true)
  {
    var r, t := Reduced(before, limSe), Clamp(s, limSe);
    forall c, k | k <= limSe ensures LastAl(r, c, k) == LastAl(before, c, k) {
      ReducedLast(before, limSe, c, k);
    }
    assert ComponentsOk(t, nc);
    assert HistoryOk(r, t);
  }

  lemma PrefixValid(scans: seq<ScanInfo>, n: nat, nc: nat, progressive: bool)
    requires ScansValid(scans, nc, progressive) && n <= |scans|
    ensures ScansValid(scans[..n], nc, progressive)
  {
    hide ScanValid;
    forall i | 0 <= i < n ensures ScanValid(scans[..n][..i], scans[..n][i], nc, progressive) {
      assert scans[..n][..i] == scans[..i];
    }
  }

  lemma ValidSnoc(scans: seq<ScanInfo>, s: ScanInfo, nc: nat, progressive: bool)
    requires ScansValid(scans, nc, progressive) && ScanValid(scans, s, nc, progressive)
    ensures ScansValid(scans + [s], nc, progressive)
  {
    hide ScanValid;
    var all := scans + [s];
    forall i | 0 <= i < |all| ensures ScanValid(all[..i], all[i], nc, progressive) {
      if i < |scans| {
        assert all[..i] == scans[..i];
      } else {
        assert all[..i] == scans;
      }
    }
  }

  /** No error and no warning for an accepted progressive script that fits the block. */
  lemma AcceptedPass(scans: seq<ScanInfo>, nc: nat, limSe: int)
    requires ScansValid(scans, nc, true) && Within(scans, limSe) && 0 <= limSe < DCTSIZE2
    ensures AllPass(scans, nc, limSe)
  {
    hide ScanFault, Passes;
    forall i | 0 <= i < |scans| ensures Passes(scans[..i], scans[i], nc, limSe) {
      assert ScanValid(scans[..i], scans[i], nc, true);
      ScanPasses(scans[..i], scans[i], nc, limSe);
    }
  }

  lemma ScanPasses(before: seq<ScanInfo>, s: ScanInfo, nc: nat, limSe: int)
    requires ScanValid(before, s, nc, true) && s.se <= limSe < DCTSIZE2
    ensures Passes(before, s, nc, limSe)
  {
    Increasing(s, nc);
    assert StepOk(LastAl(before, s.comps[0], s.ss), s);
    assert InOrder(before, s);
  }

  /** The whole script at the decoder. */
  method DecodeScript(scans: seq<ScanInfo>, nc: nat, limSe: int)
    returns (bad: bool, warnings: seq<(int, int)>, coefBits: array2<int>)
    requires AllPass(scans, nc, limSe) && 0 <= limSe < DCTSIZE2
    ensures !bad && warnings == [] && Tracks(coefBits, scans, nc)
  {
    hide Passes;
    coefBits := new int[nc, DCTSIZE2]((_, _) => -1);
    warnings := [];
    for i := 0 to |scans|
      invariant warnings == [] && Tracks(coefBits, scans[..i], nc)
    {
      assert scans[..i + 1] == scans[..i] + [scans[i]];
      PassMeans(scans[..i], scans[i], nc, limSe);
      var w;
      bad, w := StartPass(scans[..i], scans[i], nc, limSe, coefBits);
      if bad {
        assert false;
      }
      warnings := warnings + w;
    }
    assert scans[..|scans|] == scans;
    bad := false;
  }

  lemma PassMeans(before: seq<ScanInfo>, s: ScanInfo, nc: nat, limSe: int)
    requires Passes(before, s, nc, limSe)
    ensures ComponentsOk(s, nc) && Distinct(s) && 0 <= s.ss && !BadProgression(s, limSe) && InOrder(before, s)
  {
  }
}
