/** Scan scripts: the validator, the in-place reducer for smaller blocks, the
    recommended progressive scripts, and the decoder's view of the scan order. */
module Script {
  import opened Numbers

  const MAX_AH_AL := 10

  datatype ScanInfo = ScanInfo(comps: seq<int>, ss: int, se: int, ah: int, al: int)

  datatype Error =
    | BadScanScript(scanno: int)
    | ComponentCount(count: int)
    | BadProgScript(scanno: int)
    | MissingData

  datatype Verdict = Accepted(progressive: bool) | Rejected(error: Error)

  predicate Covers(s: ScanInfo, c: int, k: int) {
    c in s.comps && s.ss <= k <= s.se
  }

  /** The bit position down to which coefficient k of component c was last sent, or -1. */
  function LastAl(scans: seq<ScanInfo>, c: int, k: int): (al: int) {
    if scans == [] then -1
    else
      var s := scans[|scans| - 1];
      if Covers(s, c, k) then s.al else LastAl(scans[..|scans| - 1], c, k)
  }

  lemma LastAlSnoc(scans: seq<ScanInfo>, s: ScanInfo, c: int, k: int)
    ensures LastAl(scans + [s], c, k) == if Covers(s, c, k) then s.al else LastAl(scans, c, k)
  {
    assert (scans + [s])[..|scans|] == scans;
  }

  // ----- What a valid script is -----

  /** Components exist and appear in the order of the frame header. */
  ghost predicate ComponentsOk(s: ScanInfo, nc: nat) {
    forall i | 0 <= i < |s.comps| :: 0 <= s.comps[i] < nc && (i > 0 ==> s.comps[i - 1] < s.comps[i])
  }

  ghost predicate RangesOk(s: ScanInfo) {
    && 0 <= s.ss <= s.se < DCTSIZE2
    && 0 <= s.ah <= MAX_AH_AL && 0 <= s.al <= MAX_AH_AL
    && (s.ss == 0 ==> s.se == 0)
    && (s.ss != 0 ==> |s.comps| == 1)
  }

  /** A coefficient is sent from the top first, and then bit by bit. */
  predicate StepOk(last: int, s: ScanInfo) {
    if last < 0 then s.ah == 0 else s.ah == last && s.al == s.ah - 1
  }

  /** The scan fits what was sent before; no AC scan comes before the DC scan. */
  ghost predicate HistoryOk(before: seq<ScanInfo>, s: ScanInfo) {
    && (s.ss != 0 ==> forall c | c in s.comps :: LastAl(before, c, 0) >= 0)
    && forall c, k | c in s.comps && s.ss <= k <= s.se :: StepOk(LastAl(before, c, k), s)
  }

  predicate Sequential(s: ScanInfo) {
    s.ss == 0 && s.se == DCTSIZE2 - 1 && s.ah == 0 && s.al == 0
  }

  ghost predicate NotSentBefore(before: seq<ScanInfo>, s: ScanInfo) {
    forall c | c in s.comps :: LastAl(before, c, 0) < 0
  }

  /** What is wrong with one scan, in the order of the checks. */
  ghost function ScanFault(before: seq<ScanInfo>, s: ScanInfo, nc: nat, progressive: bool): (f: seq<Error>) {
    var scanno := |before| + 1;
    if |s.comps| == 0 || |s.comps| > MAX_COMPS_IN_SCAN then [ComponentCount(|s.comps|)]
    else if !ComponentsOk(s, nc) then [BadScanScript(scanno)]
    else if progressive then
      if RangesOk(s) && HistoryOk(before, s) then [] else [BadProgScript(scanno)]
    else if !Sequential(s) then [BadProgScript(scanno)]
    else if !NotSentBefore(before, s) then [BadScanScript(scanno)]
    else []
  }

  ghost predicate ScanValid(before: seq<ScanInfo>, s: ScanInfo, nc: nat, progressive: bool) {
    ScanFault(before, s, nc, progressive) == []
  }

  ghost predicate AllSent(scans: seq<ScanInfo>, nc: nat) {
    forall c | 0 <= c < nc :: LastAl(scans, c, 0) >= 0
  }

  ghost predicate ScansValid(scans: seq<ScanInfo>, nc: nat, progressive: bool) {
    forall i | 0 <= i < |scans| :: ScanValid(scans[..i], scans[i], nc, progressive)
  }

  /** The script is progressive if its first scan is not a full sequential one. */
  predicate IsProgressive(scans: seq<ScanInfo>)
    requires scans != []
  {
    scans[0].ss != 0 || scans[0].se != DCTSIZE2 - 1
  }

  ghost predicate ValidScript(scans: seq<ScanInfo>, nc: nat) {
    scans != [] && ScansValid(scans, nc, IsProgressive(scans)) && AllSent(scans, nc)
  }

  // ----- The validator -----

  method ValidateScript(scans: seq<ScanInfo>, nc: nat) returns (r: Verdict)
    ensures r.Accepted? <==> ValidScript(scans, nc)
    ensures r.Accepted? ==> r.progressive == IsProgressive(scans)
    ensures r.Rejected? ==>
              if scans == [] then r.error == BadScanScript(0)
              else if ScansValid(scans, nc, IsProgressive(scans)) then r.error == MissingData
              else exists i ::
                     && 0 <= i < |scans|
                     && ScansValid(scans[..i], nc, IsProgressive(scans))
                     && ScanFault(scans[..i], scans[i], nc, IsProgressive(scans)) == [r.error]
  {
    hide ScanFault;
    if |scans| == 0 {
      return Rejected(BadScanScript(0));
    }
    var progressive := scans[0].ss != 0 || scans[0].se != DCTSIZE2 - 1;
    var lastBitpos := new int[nc, DCTSIZE2]((_, _) => -1);
    var componentSent := new bool[nc](_ => false);
    for i := 0 to |scans|
      invariant ScansValid(scans[..i], nc, progressive)
      invariant progressive ==> Tracks(lastBitpos, scans[..i], nc)
      invariant !progressive ==> SentTracks(componentSent, scans[..i], nc)
    {
      ghost var before := scans[..i];
      assert scans[..i + 1] == before + [scans[i]];
      var fault := CheckScan(before, scans[i], i + 1, nc, progressive, lastBitpos, componentSent);
      ValidPrefix(scans, i, nc, progressive);
      if fault != [] {
        return Rejected(fault[0]);
      }
    }
    assert scans[..|scans|] == scans;
    for c := 0 to nc
      invariant forall c' | 0 <= c' < c :: LastAl(scans, c', 0) >= 0
    {
      if (progressive && lastBitpos[c, 0] < 0) || (!progressive && !componentSent[c]) {
        return Rejected(MissingData);
      }
    }
    r := Accepted(progressive);
  }

  lemma ValidPrefix(scans: seq<ScanInfo>, i: nat, nc: nat, progressive: bool)
    requires i < |scans| && ScansValid(scans[..i], nc, progressive)
    ensures ScansValid(scans[..i + 1], nc, progressive) <==> ScanValid(scans[..i], scans[i], nc, progressive)
    ensures !ScanValid(scans[..i], scans[i], nc, progressive) ==> !ScansValid(scans, nc, progressive)
  {
    hide ScanValid;
    var next := scans[..i + 1];
    assert forall j | 0 <= j <= i :: next[..j] == scans[..j];
    assert forall j | 0 <= j < i :: scans[..i][..j] == scans[..j];
    assert forall j | 0 <= j < i :: scans[..i][j] == scans[j];
    if ScanValid(scans[..i], scans[i], nc, progressive) {
      forall j | 0 <= j < |next| ensures ScanValid(next[..j], next[j], nc, progressive) {
        if j < i {
          assert ScanValid(scans[..i][..j], scans[..i][j], nc, progressive);
        }
      }
    }
    if ScansValid(next, nc, progressive) {
      assert ScanValid(next[..i], next[i], nc, progressive);
    }
  }

  /** The table holds, for each coefficient, what the scans so far have sent. */
  ghost predicate Tracks(t: array2<int>, scans: seq<ScanInfo>, nc: nat)
    reads t
  {
    && t.Length0 == nc && t.Length1 == DCTSIZE2
    && forall c, k | 0 <= c < nc && 0 <= k < DCTSIZE2 :: t[c, k] == LastAl(scans, c, k)
  }

  ghost predicate SentTracks(sent: array<bool>, scans: seq<ScanInfo>, nc: nat)
    reads sent
  {
    sent.Length == nc && forall c | 0 <= c < nc :: sent[c] <==> LastAl(scans, c, 0) >= 0
  }

  method CheckScan(ghost before: seq<ScanInfo>, s: ScanInfo, scanno: int, nc: nat, progressive: bool,
                   t: array2<int>, sent: array<bool>)
    returns (fault: seq<Error>)
    requires scanno == |before| + 1
    requires if progressive then Tracks(t, before, nc) else SentTracks(sent, before, nc)
    modifies t, sent
    ensures fault == ScanFault(before, s, nc, progressive) && |fault| <= 1
    ensures fault == [] ==> if progressive then Tracks(t, before + [s], nc) else SentTracks(sent, before + [s], nc)
  {
    if |s.comps| == 0 || |s.comps| > MAX_COMPS_IN_SCAN {
      return [ComponentCount(|s.comps|)];
    }
    for i := 0 to |s.comps|
      invariant forall j | 0 <= j < i :: 0 <= s.comps[j] < nc && (j > 0 ==> s.comps[j - 1] < s.comps[j])
    {
      if s.comps[i] < 0 || s.comps[i] >= nc || (i > 0 && s.comps[i] <= s.comps[i - 1]) {
        return [BadScanScript(scanno)];
      }
    }
    Increasing(s, nc);
    if progressive {
      var ok := CheckProgressive(before, s, nc, t);
      fault := if ok then [] else [BadProgScript(scanno)];
    } else if s.ss != 0 || s.se != DCTSIZE2 - 1 || s.ah != 0 || s.al != 0 {
      fault := [BadProgScript(scanno)];
    } else {
      var ok := CheckSequential(before, s, nc, sent);
      fault := if ok then [] else [BadScanScript(scanno)];
    }
  }

  ghost predicate Distinct(s: ScanInfo) {
    forall i, j | 0 <= i < j < |s.comps| :: s.comps[i] != s.comps[j]
  }

  lemma Increasing(s: ScanInfo, nc: nat)
    requires ComponentsOk(s, nc)
    ensures Distinct(s)
  {
    forall i, j | 0 <= i < j < |s.comps| ensures s.comps[i] < s.comps[j] {
      IncreasingFrom(s, nc, i, j);
    }
  }

  lemma {:induction false} IncreasingFrom(s: ScanInfo, nc: nat, i: nat, j: nat)
    requires ComponentsOk(s, nc) && i < j < |s.comps|
    ensures s.comps[i] < s.comps[j]
  {
    if i + 1 < j {
      IncreasingFrom(s, nc, i, j - 1);
    }
    assert s.comps[j - 1] < s.comps[j];
  }

  /** Makes sure that no component is sent twice. */
  method CheckSequential(ghost before: seq<ScanInfo>, s: ScanInfo, nc: nat, sent: array<bool>) returns (ok: bool)
    requires SentTracks(sent, before, nc) && ComponentsOk(s, nc) && Distinct(s) && Sequential(s)
    modifies sent
    ensures ok <==> NotSentBefore(before, s)
    ensures ok ==> SentTracks(sent, before + [s], nc)
  {
    for i := 0 to |s.comps|
      invariant forall j | 0 <= j < i :: LastAl(before, s.comps[j], 0) < 0
      invariant forall c | 0 <= c < nc :: sent[c] <==> LastAl(before, c, 0) >= 0 || c in s.comps[..i]
    {
      var c := s.comps[i];
      assert c !in s.comps[..i];
      if sent[c] {
        return false;
      }
      sent[c] := true;
    }
    forall c | 0 <= c < nc ensures sent[c] <==> LastAl(before + [s], c, 0) >= 0 {
      LastAlSnoc(before, s, c, 0);
      assert s.comps[..|s.comps|] == s.comps;
    }
    return true;
  }

  method CheckProgressive(ghost before: seq<ScanInfo>, s: ScanInfo, nc: nat, t: array2<int>) returns (ok: bool)
    requires Tracks(t, before, nc) && ComponentsOk(s, nc) && Distinct(s) && |s.comps| > 0
    modifies t
    ensures ok <==> RangesOk(s) && HistoryOk(before, s)
    ensures ok ==> Tracks(t, before + [s], nc)
  {
    if s.ss < 0 || s.ss >= DCTSIZE2 || s.se < s.ss || s.se >= DCTSIZE2
       || s.ah < 0 || s.ah > MAX_AH_AL || s.al < 0 || s.al > MAX_AH_AL {
      return false;
    }
    if s.ss == 0 {
      if s.se != 0 {
        return false;
      }
    } else {
      if |s.comps| != 1 {
        return false;
      }
    }
    for i := 0 to |s.comps|
      invariant forall c | c in s.comps[..i] :: ComponentFits(before, s, c)
      invariant forall c, k | 0 <= c < nc && 0 <= k < DCTSIZE2 ::
                  t[c, k] == if c in s.comps[..i] && s.ss <= k <= s.se then s.al else LastAl(before, c, k)
    {
      var c := s.comps[i];
      assert c !in s.comps[..i];
      ok := CheckComponent(before, s, nc, c, s.comps[..i], t);
      if !ok {
        assert c in s.comps;
        return;
      }
      assert s.comps[..i + 1] == s.comps[..i] + [c];
    }
    assert s.comps[..|s.comps|] == s.comps;
    forall c, k | 0 <= c < nc && 0 <= k < DCTSIZE2 ensures t[c, k] == LastAl(before + [s], c, k) {
      LastAlSnoc(before, s, c, k);
    }
    return true;
  }

  ghost predicate ComponentFits(before: seq<ScanInfo>, s: ScanInfo, c: int) {
    && (s.ss != 0 ==> LastAl(before, c, 0) >= 0)
    && forall k | s.ss <= k <= s.se :: StepOk(LastAl(before, c, k), s)
  }

  method CheckComponent(ghost before: seq<ScanInfo>, s: ScanInfo, nc: nat, c: int, ghost done: seq<int>, t: array2<int>)
    returns (ok: bool)
    requires t.Length0 == nc && t.Length1 == DCTSIZE2 && 0 <= c < nc && c !in done && 0 <= s.ss <= s.se < DCTSIZE2
    requires forall c, k | 0 <= c < nc && 0 <= k < DCTSIZE2 ::
               t[c, k] == if c in done && s.ss <= k <= s.se then s.al else LastAl(before, c, k)
    modifies t
    ensures ok <==> ComponentFits(before, s, c)
    ensures ok ==> forall c', k | 0 <= c' < nc && 0 <= k < DCTSIZE2 ::
               t[c', k] == if c' in done + [c] && s.ss <= k <= s.se then s.al else LastAl(before, c', k)
  {
    hide LastAl;
    if s.ss != 0 && t[c, 0] < 0 {
      return false;
    }
    for k := s.ss to s.se + 1
      invariant forall k' | s.ss <= k' < k :: StepOk(LastAl(before, c, k'), s)
      invariant forall c', k' | 0 <= c' < nc && 0 <= k' < DCTSIZE2 ::
                  t[c', k'] == if (c' in done && s.ss <= k' <= s.se) || (c' == c && s.ss <= k' < k) then s.al
                               else LastAl(before, c', k')
    {
      if t[c, k] < 0 {
        if s.ah != 0 {
          return false;
        }
      } else {
        if s.ah != t[c, k] || s.al != s.ah - 1 {
          return false;
        }
      }
      t[c, k] := s.al;
    }
    return true;
  }
}
