/** The binary arithmetic coder of section D.1 of ITU-T T.81 over unbounded
    integers: what the encoder and decoder registers stand for. */
module IntervalCoder {
  import opened Numbers
  import opened AriTable

  /** A statistics bin: an offset into the DC or AC area of a conditioning
      table, or the bin with a fixed probability of one half. */
  datatype Bin = DcBin(tbl: nat, k: nat) | AcBin(tbl: nat, k: nat) | FixedBin

  datatype Decision = Decision(bin: Bin, val: bit)

  /** One byte per bin: the more probable symbol in the top bit, the state below. */
  type Stats = map<Bin, byte>

  ghost predicate StatsOk(stats: Stats) {
    forall b <- stats :: stats[b] % 128 <= LAST_STATE
  }

  function Pack(mps: bit, state: nat): (sv: byte)
    requires state <= LAST_STATE
    ensures sv / 128 == mps && sv % 128 == state
  {
    128 * mps + state
  }

  function AfterLps(sv: byte): (r: byte)
    requires sv % 128 <= LAST_STATE
    ensures r % 128 <= LAST_STATE
  {
    var e := Aritab(sv % 128);
    Pack((sv / 128 + e.switchMps) % 2, e.nextLps)
  }

  function AfterMps(sv: byte): (r: byte)
    requires sv % 128 <= LAST_STATE
    ensures r % 128 <= LAST_STATE
  {
    Pack(sv / 128, Aritab(sv % 128).nextMps)
  }

  /** Which way the estimate of a bin moves.  After an MPS the sense stays and the estimate sinks, or the state
      stays put.  After an LPS either the estimate rises and the sense stays, or the sense is exchanged and the
      estimate does not rise.  The last state never changes. */
  lemma Estimate(sv: byte)
    requires sv % 128 <= LAST_STATE
    ensures AfterMps(sv) / 128 == sv / 128 && (AfterMps(sv) == sv || QeOf(AfterMps(sv)) < QeOf(sv))
    ensures sv % 128 < LAST_STATE ==> (AfterLps(sv) / 128 == sv / 128 <==> QeOf(AfterLps(sv)) > QeOf(sv))
    ensures sv % 128 == LAST_STATE ==> AfterLps(sv) == AfterMps(sv) == sv
  {
    hide Aritab, Pack;
    RowMoves(sv % 128);
    LastStays();
  }

  /** The numbers from low / 2^(16+s) up to, not including, (low+a) / 2^(16+s). */
  datatype Interval = Interval(low: nat, a: nat, s: nat)

  const WHOLE := Interval(0, 0x10000, 0)

  /** The byte string e, read as a binary fraction, is at least x / 2^(16+s). */
  ghost predicate Reaches(x: nat, s: nat, e: seq<byte>) {
    x * Pow2(8 * |e|) <= Num(e) * Pow2(16 + s)
  }

  /** The byte string e, read as a binary fraction, lies in the interval. */
  ghost predicate Contains(iv: Interval, e: seq<byte>) {
    Reaches(iv.low, iv.s, e) && !Reaches(iv.low + iv.a, iv.s, e)
  }

  lemma ReachesLess(x: nat, y: nat, s: nat, e: seq<byte>)
    requires x <= y && Reaches(y, s, e)
    ensures Reaches(x, s, e)
  {
    MulMono(x, y, Pow2(8 * |e|));
  }

  lemma ReachesDouble(x: nat, s: nat, e: seq<byte>)
    ensures Reaches(2 * x, s + 1, e) <==> Reaches(x, s, e)
  {
    var p, n, w := Pow2(8 * |e|), Num(e), Pow2(16 + s);
    assert Pow2(16 + (s + 1)) == 2 * w;
    MulSwap(2, x, p);
    MulSwap(n, 2, w);
  }

  ghost predicate Normal(iv: Interval) {
    0x8000 <= iv.a <= 0x10000 && iv.low + iv.a <= Pow2(16 + iv.s)
  }

  /** The less probable symbol has the upper part of width qe, unless that part is
      the larger one: then the two symbols are exchanged. */
  function Narrow(iv: Interval, qe: nat, lps: bool): (r: Interval)
    requires qe <= iv.a
  {
    var rest := iv.a - qe;
    if lps == (rest >= qe) then Interval(iv.low + rest, qe, iv.s) else Interval(iv.low, rest, iv.s)
  }

  /** The two parts adjoin and make up the interval, the upper one has width qe, and the more probable symbol
      has the larger one, or the lower one if they are equal. */
  lemma Parts(iv: Interval, qe: nat)
    requires qe <= iv.a
    ensures var mps, lps := Narrow(iv, qe, false), Narrow(iv, qe, true);
            && mps.s == lps.s == iv.s && mps.a + lps.a == iv.a && mps.a >= lps.a
            && (mps.low < lps.low || mps.a == lps.a ==>
                  mps.low == iv.low && lps.low == iv.low + mps.a && lps.a == qe)
            && (mps.low > lps.low ==> lps.low == iv.low && mps.low == iv.low + lps.a && mps.a == qe)
  {
  }

  function Renorm(iv: Interval): (r: Interval)
    requires 1 <= iv.a <= 0x10000
    ensures 0x8000 <= r.a <= 0x10000
    decreases 0x10000 - iv.a
  {
    if iv.a >= 0x8000 then iv else Renorm(Interval(2 * iv.low, 2 * iv.a, iv.s + 1))
  }

  lemma RenormStep(iv: Interval)
    requires 1 <= iv.a <= 0x10000
    ensures Renorm(iv) == if iv.a >= 0x8000 then iv else Renorm(Interval(2 * iv.low, 2 * iv.a, iv.s + 1))
  {
  }

  datatype Coder = Coder(iv: Interval, stats: Stats)

  ghost predicate Ready(k: Coder) {
    Normal(k.iv) && StatsOk(k.stats)
  }

  function QeOf(sv: byte): (qe: nat)
    requires sv % 128 <= LAST_STATE
    ensures 1 <= qe < 0x8000
  {
    Aritab(sv % 128).qe
  }

  /** The bin changes only when the interval had to be renormalised. */
  function NextStat(sv: byte, a: nat, lps: bool): (r: byte)
    requires sv % 128 <= LAST_STATE && a >= 0x8000
    ensures r % 128 <= LAST_STATE
  {
    if lps then AfterLps(sv) else if a - QeOf(sv) >= 0x8000 then sv else AfterMps(sv)
  }

  /** One adaptive binary decision. */
  function Code(k: Coder, d: Decision): (r: Coder)
    requires Ready(k) && d.bin in k.stats
    ensures Ready(r) && r.stats.Keys == k.stats.Keys
  {
    var sv := k.stats[d.bin];
    var lps := d.val != sv / 128;
    var narrow := Narrow(k.iv, QeOf(sv), lps);
    RenormNormal(narrow);
    Coder(Renorm(narrow), k.stats[d.bin := NextStat(sv, k.iv.a, lps)])
  }

  /** A decision changes its own bin only, and that only if the interval has to be renormalised: then the
      estimate moves with the symbol that was coded. */
  lemma Adapts(k: Coder, d: Decision)
    requires Ready(k) && d.bin in k.stats
    ensures var sv, r := k.stats[d.bin], Code(k, d);
            var sv2, lps := r.stats[d.bin], d.val != sv / 128;
            && r.stats == k.stats[d.bin := sv2]
            && (Narrow(k.iv, QeOf(sv), lps).a >= 0x8000 ==> !lps && sv2 == sv)
            && (Narrow(k.iv, QeOf(sv), lps).a < 0x8000 ==> sv2 == if lps then AfterLps(sv) else AfterMps(sv))
            && (sv2 / 128 != sv / 128 ==> lps && QeOf(sv2) <= QeOf(sv))
            && (QeOf(sv2) > QeOf(sv) ==> lps) && (QeOf(sv2) < QeOf(sv) && !lps ==> sv2 / 128 == sv / 128)
  {
    Estimate(k.stats[d.bin]);
    hide Aritab, AfterLps, AfterMps, QeOf, Renorm, Pow2;
  }

  ghost predicate Known(stats: Stats, ds: seq<Decision>) {
    forall i | 0 <= i < |ds| :: ds[i].bin in stats
  }

  /** All decisions of ds, in order. */
  function CodeAll(k: Coder, ds: seq<Decision>): (r: Coder)
    requires Ready(k) && Known(k.stats, ds)
    ensures Ready(r) && r.stats.Keys == k.stats.Keys
    decreases |ds|
  {
    if ds == [] then k else CodeAll(Code(k, ds[0]), ds[1..])
  }

  lemma {:induction false} CodeAllAppend(k: Coder, ds: seq<Decision>, es: seq<Decision>)
    requires Ready(k) && Known(k.stats, ds) && Known(k.stats, es)
    ensures CodeAll(k, ds + es) == CodeAll(CodeAll(k, ds), es)
    decreases |ds|
  {
    if ds == [] {
      assert ds + es == es;
    } else {
      assert (ds + es)[1..] == ds[1..] + es;
      CodeAllAppend(Code(k, ds[0]), ds[1..], es);
    }
  }

  /** A bin in state 113 stays there, whatever is coded: both symbols remain about equally probable. */
  lemma {:induction false} FixedStays(k: Coder, ds: seq<Decision>, b: Bin)
    requires Ready(k) && Known(k.stats, ds) && b in k.stats && k.stats[b] == 113
    ensures var stats := CodeAll(k, ds).stats; b in stats && stats[b] == 113 && QeOf(113) == 0x5A1D
    decreases |ds|
  {
    Half();
    if ds != [] {
      Adapts(k, ds[0]);
      Estimate(113);
      FixedStays(Code(k, ds[0]), ds[1..], b);
    }
  }

  lemma Half()
    ensures LAST_STATE == 113 && QeOf(113) == 0x5A1D
  {
  }

  lemma {:induction false} RenormNormal(iv: Interval)
    requires 1 <= iv.a <= 0x10000 && iv.low + iv.a <= Pow2(16 + iv.s)
    ensures Normal(Renorm(iv))
    decreases 0x10000 - iv.a
  {
    if iv.a < 0x8000 {
      RenormNormal(Interval(2 * iv.low, 2 * iv.a, iv.s + 1));
    }
  }

  // ----- What a code number inside the final interval determines -----

  lemma {:induction false} RenormContains(iv: Interval, e: seq<byte>)
    requires 1 <= iv.a <= 0x10000
    ensures Contains(Renorm(iv), e) <==> Contains(iv, e)
    decreases 0x10000 - iv.a
  {
    if iv.a < 0x8000 {
      hide Reaches;
      RenormContains(Interval(2 * iv.low, 2 * iv.a, iv.s + 1), e);
      ReachesDouble(iv.low, iv.s, e);
      ReachesDouble(iv.low + iv.a, iv.s, e);
    }
  }

  /** The code number lies in the upper part exactly when the upper part was chosen. */
  lemma NarrowContains(iv: Interval, qe: nat, lps: bool, e: seq<byte>)
    requires qe <= iv.a
    requires Contains(Narrow(iv, qe, lps), e)
    ensures Contains(iv, e)
    ensures Reaches(iv.low + (iv.a - qe), iv.s, e) <==> lps == (iv.a - qe >= qe)
  {
    hide Reaches;
    var mid := iv.low + (iv.a - qe);
    if Reaches(mid, iv.s, e) {
      ReachesLess(iv.low, mid, iv.s, e);
    }
    if Reaches(iv.low + iv.a, iv.s, e) {
      ReachesLess(mid, iv.low + iv.a, iv.s, e);
    }
  }

  lemma {:induction false} Nested(k: Coder, ds: seq<Decision>, e: seq<byte>)
    requires Ready(k) && Known(k.stats, ds)
    requires Contains(CodeAll(k, ds).iv, e)
    ensures Contains(k.iv, e)
    decreases |ds|
  {
    hide Aritab, AfterLps, AfterMps, Reaches;
    if ds != [] {
      Nested(Code(k, ds[0]), ds[1..], e);
      var sv := k.stats[ds[0].bin];
      var lps := ds[0].val != sv / 128;
      RenormContains(Narrow(k.iv, QeOf(sv), lps), e);
      NarrowContains(k.iv, QeOf(sv), lps, e);
    }
  }

  lemma FirstDecision(k: Coder, ds: seq<Decision>, e: seq<byte>)
    requires Ready(k) && ds != [] && Known(k.stats, ds)
    requires Contains(CodeAll(k, ds).iv, e)
    ensures Known(Code(k, ds[0]).stats, ds[1..])
    ensures Contains(Code(k, ds[0]).iv, e)
    ensures Contains(CodeAll(Code(k, ds[0]), ds[1..]).iv, e)
  {
    hide Contains, Num, Pow2, Aritab, Code;
    Nested(Code(k, ds[0]), ds[1..], e);
  }

  lemma CodeInterval(k: Coder, d: Decision)
    requires Ready(k) && d.bin in k.stats
    ensures var sv := k.stats[d.bin];
            Code(k, d).iv == Renorm(Narrow(k.iv, QeOf(sv), d.val != sv / 128))
  {
  }

  /** The data tell which part of the interval the first decision chose. */
  lemma ChosenPart(k: Coder, ds: seq<Decision>, e: seq<byte>)
    requires Ready(k) && ds != [] && Known(k.stats, ds)
    requires Contains(CodeAll(k, ds).iv, e)
    ensures var sv := k.stats[ds[0].bin];
            var rest := k.iv.a - QeOf(sv);
            Reaches(k.iv.low + rest, k.iv.s, e)
            <==> (ds[0].val != sv / 128) == (rest >= QeOf(sv))
  {
    hide Contains, Num, Pow2, QeOf, Code, CodeAll, Narrow, Renorm;
    FirstDecision(k, ds, e);
    CodeInterval(k, ds[0]);
    var sv := k.stats[ds[0].bin];
    OnePart(k.iv, QeOf(sv), ds[0].val != sv / 128, e);
  }

  lemma OnePart(iv: Interval, qe: nat, lps: bool, e: seq<byte>)
    requires 1 <= qe < 0x8000 <= iv.a <= 0x10000 && Contains(Renorm(Narrow(iv, qe, lps)), e)
    ensures Reaches(iv.low + (iv.a - qe), iv.s, e) <==> lps == (iv.a - qe >= qe)
  {
    hide Pow2, Num, Contains, Renorm;
    RenormContains(Narrow(iv, qe, lps), e);
    NarrowContains(iv, qe, lps, e);
  }

  /** The next bin depends on the decisions before it only. */
  ghost predicate SameBins(ds: seq<Decision>, es: seq<Decision>) {
    |ds| == |es| && forall i | 0 <= i < |ds| && ds[..i] == es[..i] :: ds[i].bin == es[i].bin
  }

  lemma SameFirst(ds: seq<Decision>, es: seq<Decision>)
    requires SameBins(ds, es)
    ensures |ds| == |es| && (ds != [] ==> ds[0].bin == es[0].bin)
  {
    assert ds[..0] == es[..0];
  }

  lemma SameBinsTail(ds: seq<Decision>, es: seq<Decision>)
    requires SameBins(ds, es) && ds != [] && ds[0] == es[0]
    ensures SameBins(ds[1..], es[1..])
  {
    forall i | 0 <= i < |ds| - 1 && ds[1..][..i] == es[1..][..i] ensures ds[1..][i].bin == es[1..][i].bin {
      assert ds[..i + 1] == [ds[0]] + ds[1..][..i] && es[..i + 1] == [es[0]] + es[1..][..i];
    }
  }

  /** The data determine the decisions, also where bins are chosen by earlier decisions. */
  lemma {:induction false} Determined(k: Coder, ds: seq<Decision>, es: seq<Decision>, e: seq<byte>)
    requires Ready(k) && Known(k.stats, ds) && Known(k.stats, es) && SameBins(ds, es)
    requires Contains(CodeAll(k, ds).iv, e) && Contains(CodeAll(k, es).iv, e)
    ensures ds == es
    decreases |ds|
  {
    hide Code, QeOf, Reaches, Contains, StatsOk, Normal, SameBins;
    SameFirst(ds, es);
    if ds != [] {
      FirstDecision(k, ds, e);
      FirstDecision(k, es, e);
      ChosenPart(k, ds, e);
      ChosenPart(k, es, e);
      assert ds[0] == es[0];
      SameBinsTail(ds, es);
      Determined(Code(k, ds[0]), ds[1..], es[1..], e);
      assert ds == [ds[0]] + ds[1..] && es == [es[0]] + es[1..];
    }
  }

  // ----- Termination (section D.1.8 of T.81) -----

  /** The number in the interval with the most trailing zero bits. */
  function Target(iv: Interval): (x: int) {
    var t := iv.low + iv.a - 1;
    var x := t - t % 0x10000;
    if x < iv.low then x + 0x8000 else x
  }

  lemma TargetInside(iv: Interval)
    requires Normal(iv)
    ensures iv.low <= Target(iv) < iv.low + iv.a
    ensures Target(iv) % 0x8000 == 0
  {
    TargetOf(iv.low, iv.a);
  }

  lemma TargetOf(low: int, a: int)
    requires 0x8000 <= a <= 0x10000
    ensures var t := low + a - 1;
            var x := t - t % 0x10000;
            var r := if x < low then x + 0x8000 else x;
            low <= r < low + a && r % 0x8000 == 0
  {
    var t := low + a - 1;
    var q := t / 0x10000;
    assert t - t % 0x10000 == 0x10000 * q;
    ModOfMultiple(2 * q, 0x8000);
    ModOfMultiple(2 * q + 1, 0x8000);
  }

  lemma TargetUnique(iv: Interval, y: int)
    requires Normal(iv) && iv.low <= y < iv.low + iv.a && y % 0x10000 == 0
    ensures y == Target(iv)
  {
    var t := iv.low + iv.a - 1;
    DivModUnique(t, 0x10000, y / 0x10000, t - y);
  }

  ghost predicate IsNumber(e: seq<byte>, x: int, s: nat) {
    Shl(Num(e), 16 + s) == Shl(x, 8 * |e|)
  }

  ghost predicate Trimmed(e: seq<byte>) {
    e != [] ==> e[|e| - 1] != 0
  }

  lemma TargetContained(iv: Interval, e: seq<byte>)
    requires Normal(iv) && IsNumber(e, Target(iv), iv.s)
    ensures Contains(iv, e)
  {
    TargetInside(iv);
    hide Pow2, Num, Target;
    Between(iv.low, Target(iv), iv.low + iv.a, Num(e), Pow2(8 * |e|), Pow2(16 + iv.s));
  }

  lemma Between(lo: nat, t: nat, hi: nat, n: nat, p: nat, w: nat)
    requires lo <= t < hi && n * w == t * p && p > 0
    ensures lo * p <= n * w < hi * p
  {
    MulMono(lo, t, p);
    MulMono(t + 1, hi, p);
  }

  /** No byte string that decodes to the same decisions is shorter than the target's. */
  lemma Shortest(iv: Interval, code: seq<byte>, e: seq<byte>)
    requires Normal(iv) && 8 * |code| <= 16 + iv.s
    requires IsNumber(code, Target(iv), iv.s) && Trimmed(code)
    requires Contains(iv, e)
    ensures |code| <= |e|
  {
    if |e| < |code| {
      hide Pow2, Num, Target;
      TargetInside(iv);
      var t := 16 + iv.s - 8 * |code|;
      var x := Exponent(code, Target(iv), iv.s);
      var y := ContainedNumber(iv, e);
      NumLast(code);
      assert 16 + iv.s - 8 * |e| == t + 8 * (|code| - |e|);
      if t >= 8 {
        MultipleOf(Num(e), 16 + iv.s - 8 * |e|, 16);
        TargetUnique(iv, y);
        TrailingByte(Num(code), Num(e), t, |code| - |e|);
      } else {
        DivideOut(Num(code), t, x);
      }
    }
  }

  lemma ShortestOfAll(iv: Interval, code: seq<byte>)
    requires Normal(iv) && 8 * |code| <= 16 + iv.s
    requires IsNumber(code, Target(iv), iv.s) && Trimmed(code)
    ensures Contains(iv, code)
    ensures forall e :: Contains(iv, e) ==> |code| <= |e|
  {
    hide IsNumber, Target, Contains, Trimmed;
    TargetContained(iv, code);
    forall e | Contains(iv, e) ensures |code| <= |e| {
      Shortest(iv, code, e);
    }
  }

  lemma TrailingByte(n: nat, m: nat, t: nat, gap: nat)
    requires gap >= 1 && n * Pow2(t) == m * Pow2(t + 8 * gap)
    ensures n % 256 == 0
  {
    hide Pow2;
    Pow2Add(t, 8 * gap);
    MulSwap(m, Pow2(t), Pow2(8 * gap));
    MulCancelEq(Pow2(t), n, m * Pow2(8 * gap));
    MultipleOf(m, 8 * gap, 8);
  }

  lemma Exponent(e: seq<byte>, x: int, s: nat) returns (y: int)
    requires 8 * |e| <= 16 + s && IsNumber(e, x, s)
    ensures y == x && x == Num(e) * Pow2(16 + s - 8 * |e|)
  {
    hide Pow2, Num;
    y := x;
    var t := 16 + s - 8 * |e|;
    Pow2Add(t, 8 * |e|);
    MulSwap(Num(e), Pow2(t), Pow2(8 * |e|));
    MulCancelEq(Pow2(8 * |e|), x, Num(e) * Pow2(t));
  }

  lemma ContainedNumber(iv: Interval, e: seq<byte>) returns (y: int)
    requires Contains(iv, e) && 8 * |e| <= 16 + iv.s
    ensures y == Num(e) * Pow2(16 + iv.s - 8 * |e|) && iv.low <= y < iv.low + iv.a
  {
    hide Pow2, Num;
    var t := 16 + iv.s - 8 * |e|;
    var p := Pow2(8 * |e|);
    y := Num(e) * Pow2(t);
    Pow2Add(t, 8 * |e|);
    MulSwap(Num(e), Pow2(t), p);
    MulCancel(p, iv.low, y);
    MulCancel(p, y, iv.low + iv.a);
  }

  lemma DivideOut(n: nat, t: nat, x: int)
    requires t < 8 && x == n * Pow2(t) && x % 0x8000 == 0
    ensures n % 256 == 0
  {
    hide Pow2;
    Pow2Add(t, 7 - t);
    SmallPowers();
    Quotient256(n, Pow2(t), Pow2(7 - t), x / 0x8000);
  }

  lemma Quotient256(n: nat, p: nat, q: nat, m: nat)
    requires p > 0 && p * q == 128 && n * p == 0x8000 * m
    ensures n == 256 * (m * q)
  {
    MulSwap(m, p, q);
    assert p * (256 * (m * q)) == 256 * (p * (m * q)) by { MulSwap(256, p, m * q); }
    MulCancelEq(p, n, 256 * (m * q));
  }
}
