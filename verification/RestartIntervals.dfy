/** Restart intervals: which parts of a scan are coded together, and how the coded
    intervals are put into one byte string. */
module RestartIntervals {
  import opened Numbers
  import opened Stuffing

  /** Blocks of an MCU, and MCUs of a restart interval, which is 0 without restarts. */
  datatype Plan = Plan(mcu: nat, restart: nat)

  predicate PlanOk(pl: Plan) {
    pl.mcu >= 1
  }

  /** Blocks of a restart interval. */
  ghost function Span(pl: Plan): (n: nat) {
    pl.restart * pl.mcu
  }

  /** The first block of the interval that block i belongs to. */
  ghost function StartOf(pl: Plan, i: nat): (s: nat)
    ensures s <= i
  {
    if Span(pl) == 0 then 0 else i / Span(pl) * Span(pl)
  }

  /** The end of the interval that starts at s, in a scan of n blocks. */
  ghost function EndOf(pl: Plan, s: nat, n: nat): (e: nat)
    requires s <= n
    ensures s <= e <= n
  {
    if Span(pl) == 0 || n - s <= Span(pl) then n else s + Span(pl)
  }

  /** Where interval k starts. */
  ghost function BeginAt(pl: Plan, k: nat): (s: nat) {
    k * Span(pl)
  }

  lemma InInterval(pl: Plan, k: nat, i: nat)
    requires BeginAt(pl, k) <= i && (Span(pl) == 0 || i < BeginAt(pl, k) + Span(pl))
    ensures StartOf(pl, i) == BeginAt(pl, k)
  {
    var n := Span(pl);
    if n > 0 {
      DivModUnique(i, n, k, i - BeginAt(pl, k));
    }
  }

  lemma NextStart(pl: Plan, k: nat)
    ensures BeginAt(pl, 0) == 0 && BeginAt(pl, k + 1) == BeginAt(pl, k) + Span(pl)
  {
    hide Span;
  }

  /** The count of MCUs that are left, at block i of interval k, which starts at s. */
  ghost predicate Counting(pl: Plan, k: nat, s: nat, i: nat, n: nat, toGo: nat) {
    && s == BeginAt(pl, k) && s <= i <= n
    && (pl.restart == 0 ==> k == 0)
    && (pl.restart != 0 ==>
          && i <= s + Span(pl) && toGo <= pl.restart
          && (i < n ==> s + Span(pl) - i == toGo * pl.mcu))
    && (k > 0 ==> s < n)
  }

  lemma CountingStarts(pl: Plan, n: nat)
    ensures Counting(pl, 0, 0, 0, n, pl.restart)
  {
  }

  /** No MCU is left: the interval is complete, and block i starts the next one. */
  lemma IntervalEnds(pl: Plan, k: nat, s: nat, i: nat, n: nat)
    requires PlanOk(pl) && Counting(pl, k, s, i, n, 0) && pl.restart != 0 && i < n
    ensures s == BeginAt(pl, k) && EndOf(pl, s, n) == i
    ensures Counting(pl, k + 1, i, i, n, pl.restart)
  {
    SpanZero(pl);
    NextStart(pl, k);
    hide BeginAt;
  }

  /** An MCU more, which may be short at the end of the scan. */
  lemma CountMcu(pl: Plan, k: nat, s: nat, i: nat, hi: nat, n: nat, toGo: nat)
    requires PlanOk(pl) && Counting(pl, k, s, i, n, toGo) && i < n
    requires hi == if n - i < pl.mcu then n else i + pl.mcu
    requires pl.restart != 0 ==> toGo >= 1
    ensures Counting(pl, k, s, hi, n, if pl.restart != 0 then toGo - 1 else toGo) && s <= hi
  {
    hide BeginAt, Span;
    if pl.restart != 0 {
      CountDown(pl, toGo);
    }
  }

  /** Interval k is the last one of n blocks. */
  ghost predicate LastFrom(pl: Plan, k: nat, n: nat) {
    && BeginAt(pl, k) <= n && EndOf(pl, BeginAt(pl, k), n) == n
    && (k > 0 ==> BeginAt(pl, k) < n)
  }

  lemma CountingEnds(pl: Plan, k: nat, s: nat, n: nat, toGo: nat)
    requires PlanOk(pl) && Counting(pl, k, s, n, n, toGo)
    ensures s == BeginAt(pl, k) && LastFrom(pl, k, n) && (pl.restart == 0 ==> k == 0)
  {
    SpanZero(pl);
    hide BeginAt, Span;
  }

  /** Counting MCUs down counts blocks up. */
  lemma CountDown(pl: Plan, toGo: nat)
    requires toGo >= 1
    ensures toGo * pl.mcu == (toGo - 1) * pl.mcu + pl.mcu
  {
  }

  lemma SpanZero(pl: Plan)
    requires PlanOk(pl)
    ensures Span(pl) == 0 <==> pl.restart == 0
  {
    if pl.restart > 0 {
      MulMono(1, pl.restart, pl.mcu);
    }
  }

  /** An MCU does not reach over the end of its interval. */
  lemma WithinInterval(pl: Plan, k: nat, s: nat, i: nat, n: nat, toGo: nat)
    requires PlanOk(pl) && Counting(pl, k, s, i, n, toGo)
    ensures i <= EndOf(pl, s, n)
  {
    SpanZero(pl);
    hide Span, BeginAt;
  }

  lemma CountingBegin(pl: Plan, k: nat, s: nat, i: nat, n: nat, toGo: nat)
    requires Counting(pl, k, s, i, n, toGo)
    ensures s == BeginAt(pl, k)
  {
  }

  // ----- Bytes -----

  const EOI := [0xFF, 0xD9]

  function RestartMarker(num: nat): (s: seq<byte>)
    requires num < 8
  {
    [0xFF, RST0 + num]
  }

  /** Intervals, each with a restart marker behind it, numbered from 0 to 7 over and over. */
  function Front(codes: seq<seq<byte>>): (s: seq<byte>) {
    if codes == [] then []
    else
      var k := |codes| - 1;
      Front(codes[..k]) + Stuff(codes[k]) + RestartMarker(k % 8)
  }

  /** A whole scan: the last interval is followed by the next marker of the file. */
  function ScanBytes(codes: seq<seq<byte>>): (s: seq<byte>)
    requires codes != []
  {
    var k := |codes| - 1;
    Front(codes[..k]) + Stuff(codes[k]) + EOI
  }

  lemma FrontSnoc(codes: seq<seq<byte>>, code: seq<byte>)
    ensures Front(codes + [code]) == Front(codes) + Stuff(code) + RestartMarker(|codes| % 8)
  {
    assert (codes + [code])[..|codes|] == codes;
  }

  lemma {:induction false} FrontPrefix(codes: seq<seq<byte>>, j: nat)
    requires j <= |codes|
    ensures Front(codes[..j]) <= Front(codes)
    decreases |codes|
  {
    if j < |codes| {
      var k := |codes| - 1;
      FrontPrefix(codes[..k], j);
      assert codes[..k][..j] == codes[..j];
    } else {
      assert codes[..j] == codes;
    }
  }

  /** Where interval j is in the bytes of the scan. */
  lemma IntervalAt(codes: seq<seq<byte>>, j: nat)
    requires j < |codes|
    ensures var p, q := |Front(codes[..j])|, |Stuff(codes[j])| + 2;
            && p + q <= |ScanBytes(codes)|
            && ScanBytes(codes)[p..p + q]
               == Stuff(codes[j]) + (if j + 1 < |codes| then RestartMarker(j % 8) else EOI)
            && (j + 1 < |codes| ==> p + q == |Front(codes[..j + 1])|)
  {
    hide Stuff, Front;
    var k := |codes| - 1;
    var front, data := Front(codes[..j]), Stuff(codes[j]);
    if j < k {
      FrontSnoc(codes[..j], codes[j]);
      assert codes[..j + 1] == codes[..j] + [codes[j]];
      FrontPrefix(codes[..k], j + 1);
      assert codes[..k][..j + 1] == codes[..j + 1];
      assert Front(codes[..k]) <= ScanBytes(codes);
      Slice(ScanBytes(codes), front, data + RestartMarker(j % 8));
    } else {
      Slice(ScanBytes(codes), front, data + EOI);
    }
  }

  /** The marker behind interval j, and the one at the end. */
  lemma MarkerAt(codes: seq<seq<byte>>, j: nat)
    requires j < |codes|
    ensures var m := |Front(codes[..j])| + |Stuff(codes[j])|;
            && m + 2 <= |ScanBytes(codes)| && ScanBytes(codes)[m] == 0xFF
            && ScanBytes(codes)[m + 1] == (if j + 1 < |codes| then 0xD0 + j % 8 else 0xD9)
  {
    IntervalAt(codes, j);
    var marker := if j + 1 < |codes| then RestartMarker(j % 8) else EOI;
    assert |marker| == 2 && marker[0] == 0xFF && marker[1] == if j + 1 < |codes| then 0xD0 + j % 8 else 0xD9;
    hide *;
    LastTwo(ScanBytes(codes), |Front(codes[..j])|, Stuff(codes[j]), |Stuff(codes[j])| + 2, marker);
  }

  lemma LastTwo(s: seq<byte>, p: nat, a: seq<byte>, q: nat, b: seq<byte>)
    requires |b| == 2 && q == |a| + 2 && p + q <= |s| && s[p..p + q] == a + b
    ensures s[p + |a|] == b[0] && s[p + |a| + 1] == b[1]
  {
    var t := s[p..p + q];
    assert t[|a|] == b[0] && t[|a| + 1] == b[1];
  }

  lemma Slice(s: seq<byte>, a: seq<byte>, b: seq<byte>)
    requires a + b <= s || s == a + b
    ensures |a| + |b| <= |s| && s[|a|..|a| + |b|] == b
  {
    assert s[..|a| + |b|] == a + b;
  }

  /** Only restart markers, and these only if restarts are in use, stand before the end. */
  ghost predicate MarkersOk(bytes: seq<byte>, restarts: bool) {
    && |bytes| >= 2 && bytes[|bytes| - 2..] == EOI
    && forall i | 0 <= i < |bytes| - 2 && bytes[i] == 0xFF :: MayFollow(bytes[i + 1], restarts)
  }

  predicate MayFollow(b: byte, restarts: bool) {
    b == 0 || (restarts && RST0 <= b < RST0 + 8)
  }

  lemma {:induction false} FrontMarkers(codes: seq<seq<byte>>, i: nat)
    requires i < |Front(codes)| && Front(codes)[i] == 0xFF
    ensures i + 1 < |Front(codes)| && MayFollow(Front(codes)[i + 1], codes != [])
  {
    hide Stuff;
    var k := |codes| - 1;
    var front, data := Front(codes[..k]), Stuff(codes[k]);
    assert Front(codes) == front + data + RestartMarker(k % 8);
    if i < |front| {
      FrontMarkers(codes[..k], i);
    } else if i < |front| + |data| {
      StuffHasNoMarker(codes[k], i - |front|);
    }
  }

  lemma ScanMarkers(codes: seq<seq<byte>>)
    requires codes != []
    ensures MarkersOk(ScanBytes(codes), |codes| > 1)
  {
    hide Stuff;
    var k := |codes| - 1;
    var front, data := Front(codes[..k]), Stuff(codes[k]);
    var bytes := ScanBytes(codes);
    forall i | 0 <= i < |bytes| - 2 && bytes[i] == 0xFF ensures MayFollow(bytes[i + 1], |codes| > 1) {
      if i < |front| {
        FrontMarkers(codes[..k], i);
      } else {
        StuffHasNoMarker(codes[k], i - |front|);
      }
    }
  }

  // ----- From the front -----

  /** What stands in the file behind the data of interval k; tail follows the scan. */
  function Onwards(datas: seq<seq<byte>>, k: nat, tail: seq<byte>): (s: seq<byte>)
    requires k < |datas|
    decreases |datas| - k
  {
    if k + 1 == |datas| then tail
    else RestartMarker(k % 8) + (Stuff(datas[k + 1]) + Onwards(datas, k + 1, tail))
  }

  lemma {:induction false} FromInterval(datas: seq<seq<byte>>, k: nat, tail: seq<byte>)
    requires k < |datas|
    ensures Front(datas[..k]) + (Stuff(datas[k]) + Onwards(datas, k, tail))
            == Front(datas[..|datas| - 1]) + (Stuff(datas[|datas| - 1]) + tail)
    decreases |datas| - k
  {
    hide Stuff, Front;
    if k + 1 < |datas| {
      FromInterval(datas, k + 1, tail);
      FrontSnoc(datas[..k], datas[k]);
      assert datas[..k + 1] == datas[..k] + [datas[k]];
      Rejoin(Front(datas[..k]), Stuff(datas[k]), RestartMarker(k % 8),
             Stuff(datas[k + 1]) + Onwards(datas, k + 1, tail));
    }
  }

  lemma Rejoin(a: seq<byte>, b: seq<byte>, c: seq<byte>, d: seq<byte>)
    ensures a + (b + (c + d)) == a + b + c + d
  {
  }
}
