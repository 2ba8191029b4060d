/** From code sizes to a table with codes of at most sixteen bits: the adjustment of
    section K.2 of ITU-T T.81, and the list of symbols. */
module HuffLimit {
  import opened Numbers
  import opened HuffTable
  import opened HuffDerived
  import opened HuffCost
  import opened HuffTree
  import opened HuffBuild
  import opened HuffDeepest

  /** How many codes there are of each length; entry 0 is not used. */
  type Counts = b: seq<nat> | |b| == 33 witness seq(33, _ => 0)

  /** Codes of up to l bits. */
  function Many(bits: Counts, l: nat): (n: nat)
    requires l <= 32
  {
    if l == 0 then 0 else Many(bits, l - 1) + bits[l]
  }

  /** How many patterns of l bits begin with a code, or are one. */
  function Taken(bits: Counts, l: nat): (n: nat)
    requires l <= 32
  {
    if l == 0 then 0 else 2 * Taken(bits, l - 1) + bits[l]
  }

  lemma {:induction false} ManyUpdate(bits: Counts, l: nat, x: nat, m: nat)
    requires 1 <= l <= 32 && m <= 32
    ensures Many(bits[l := x], m) == Many(bits, m) + if m >= l then x - bits[l] else 0
  {
    if m > 0 {
      ManyUpdate(bits, l, x, m - 1);
    }
  }

  lemma {:induction false} TakenUpdate(bits: Counts, l: nat, x: nat, m: nat)
    requires 1 <= l <= 32 && m <= 32
    ensures Taken(bits[l := x], m) == Taken(bits, m) + if m >= l then Shl(x - bits[l], m - l) else 0
    decreases m
  {
    if m > 0 {
      TakenUpdate(bits, l, x, m - 1);
      if m > l {
        ShlStep(x - bits[l], m - 1 - l);
      } else if m == l {
        assert Shl(x - bits[l], 0) == x - bits[l];
      }
    }
  }

  lemma {:induction false} ManyAtLeast(bits: Counts, l: nat, m: nat)
    requires 1 <= l <= m <= 32
    ensures bits[l] <= Many(bits, m)
  {
    if l < m {
      ManyAtLeast(bits, l, m - 1);
    }
  }

  /** With no codes longer than l, only the shorter ones are counted. */
  lemma {:induction false} NoneLonger(bits: Counts, l: nat, m: nat)
    requires l <= m <= 32 && forall i | l < i <= m :: bits[i] == 0
    ensures Many(bits, m) == Many(bits, l) && Taken(bits, m) == Shl(Taken(bits, l), m - l)
    decreases m - l
  {
    if l < m {
      NoneLonger(bits, l, m - 1);
      ShlStep(Taken(bits, l), m - 1 - l);
    } else {
      assert Shl(Taken(bits, l), 0) == Taken(bits, l);
    }
  }

  lemma {:induction false} NoneShorter(bits: Counts, l: nat)
    requires l <= 32 && forall i | 1 <= i <= l :: bits[i] == 0
    ensures Many(bits, l) == 0 && Taken(bits, l) == 0
  {
    if l > 0 {
      NoneShorter(bits, l - 1);
    }
  }

  // ----- Counting the sizes -----

  ghost predicate Used(w: Weights, len: Lengths) {
    |w| == |len| && forall s | 0 <= s < |w| :: w[s] > 0 <==> 1 <= len[s]
  }

  /** The first n symbols, counted by length. */
  ghost predicate CountedFirst(w: Weights, len: Lengths, bits: Counts, n: nat)
    requires Used(w, len) && n <= |w|
  {
    && bits[0] == 0
    && Many(bits, MAX_CLEN) == Sum(Indicator(w)[..n])
    && Taken(bits, MAX_CLEN) == Sum(Shares(w, len, MAX_CLEN)[..n])
  }

  lemma {:induction false} SumSnoc(s: seq<int>, n: nat)
    requires n < |s|
    ensures Sum(s[..n + 1]) == Sum(s[..n]) + s[n]
  {
    if n == 0 {
      assert s[..1][1..] == [];
    } else {
      assert s[..n + 1][1..] == s[1..][..n] && s[..n][1..] == s[1..][..n - 1];
      SumSnoc(s[1..], n - 1);
    }
  }

  lemma {:induction false} SumUpTo(s: seq<int>, n: nat)
    requires n <= |s| && forall i | 0 <= i < |s| :: s[i] >= 0
    ensures Sum(s[..n]) <= Sum(s)
    decreases |s| - n
  {
    if n < |s| {
      SumSnoc(s, n);
      SumUpTo(s, n + 1);
    } else {
      assert s[..n] == s;
    }
  }

  lemma CountOne(w: Weights, len: Lengths, bits: Counts, n: nat)
    requires Used(w, len) && n < |w| && CountedFirst(w, len, bits, n) && Sum(Indicator(w)) <= 255
    requires len[n] <= MAX_CLEN
    ensures w[n] == 0 ==> CountedFirst(w, len, bits, n + 1)
    ensures w[n] > 0 ==> bits[len[n]] < 255 && CountedFirst(w, len, bits[len[n] := bits[len[n]] + 1], n + 1)
  {
    var l := len[n];
    SumSnoc(Indicator(w), n);
    SumSnoc(Shares(w, len, MAX_CLEN), n);
    SumUpTo(Indicator(w), n + 1);
    hide Sum, Many, Taken, Pow2;
    if w[n] > 0 {
      ManyAtLeast(bits, l, MAX_CLEN);
      ManyUpdate(bits, l, bits[l] + 1, MAX_CLEN);
      TakenUpdate(bits, l, bits[l] + 1, MAX_CLEN);
      assert Shl(1, MAX_CLEN - l) == Pow2(MAX_CLEN - l);
    }
  }

  /** The first n symbols of one size. */
  ghost function OfSize(len: Lengths, l: nat, n: nat): (r: set<int>)
    requires n <= |len|
  {
    set s | 0 <= s < n && len[s] == l
  }

  /** There are as many codes of each length as there are symbols of that size. */
  ghost predicate SizesCounted(len: Lengths, bits: Counts, n: nat)
    requires n <= |len|
  {
    forall l | 1 <= l <= MAX_CLEN :: bits[l] == |OfSize(len, l, n)|
  }

  lemma SizesNone(len: Lengths, bits: Counts)
    requires forall l | 1 <= l <= MAX_CLEN :: bits[l] == 0
    ensures SizesCounted(len, bits, 0)
  {
    forall l | 1 <= l <= MAX_CLEN ensures |OfSize(len, l, 0)| == 0 {
      assert OfSize(len, l, 0) == {};
    }
  }

  lemma OneOfSize(len: Lengths, l: nat, n: nat)
    requires n < |len|
    ensures |OfSize(len, l, n + 1)| == |OfSize(len, l, n)| + if len[n] == l then 1 else 0
  {
    if len[n] == l {
      assert OfSize(len, l, n + 1) == OfSize(len, l, n) + {n};
    } else {
      assert OfSize(len, l, n + 1) == OfSize(len, l, n);
    }
  }

  lemma SizesMore(len: Lengths, bits: Counts, n: nat)
    requires n < |len| && SizesCounted(len, bits, n) && len[n] <= MAX_CLEN
    ensures len[n] == 0 ==> SizesCounted(len, bits, n + 1)
    ensures len[n] > 0 ==> SizesCounted(len, bits[len[n] := bits[len[n]] + 1], n + 1)
  {
    hide OfSize;
    forall l | 1 <= l <= MAX_CLEN ensures |OfSize(len, l, n + 1)| == bits[l] + if len[n] == l then 1 else 0 {
      OneOfSize(len, l, n);
    }
  }

  /** Counts the symbols of each code length, or refuses a code of more than 32 bits. */
  method CountSizes(codesize: array<nat>, ghost w: Weights) returns (ok: bool, bits: array<byte>)
    requires codesize.Length == 257 && Used(w, codesize[..]) && Sum(Indicator(w)) <= 255
    ensures ok <==> forall s | 0 <= s < 257 :: codesize[s] <= MAX_CLEN
    ensures fresh(bits) && bits.Length == 33
    ensures ok ==> CountedFirst(w, codesize[..], bits[..], 257)
    ensures ok ==> SizesCounted(codesize[..], bits[..], 257)
  {
    hide Sum, Shares, Indicator, Many, Taken, OfSize;
    bits := new byte[33](_ => 0);
    ghost var len := codesize[..];
    NoneShorter(bits[..], MAX_CLEN);
    assert Indicator(w)[..0] == [] && Shares(w, len, MAX_CLEN)[..0] == [];
    NoSum();
    SizesNone(len, bits[..]);
    var i := 0;
    while i <= 256
      invariant 0 <= i <= 257 && codesize[..] == len
      invariant forall s | 0 <= s < i :: codesize[s] <= MAX_CLEN
      invariant CountedFirst(w, len, bits[..], i) && SizesCounted(len, bits[..], i)
    {
      var l := codesize[i];
      assert l == len[i];
      if l != 0 {
        if l > MAX_CLEN {
          return false, bits;
        }
        CountOne(w, len, bits[..], i);
        SizesMore(len, bits[..], i);
        ghost var before := bits[..];
        bits[l] := bits[l] + 1;
        assert bits[..] == before[l := before[l] + 1];
      } else {
        CountOne(w, len, bits[..], i);
        SizesMore(len, bits[..], i);
      }
      i := i + 1;
    }
    ok := true;
  }

  lemma NoSum()
    ensures Sum([]) == 0
  {
  }

  // ----- No codes of more than sixteen bits -----

  /** All codes have up to l bits, they fill the code space, and there are total of them. */
  ghost predicate Full(bits: Counts, l: nat, total: nat) {
    && 16 <= l <= 32 && bits[0] == 0 && total <= 255
    && (forall i | l < i <= 32 :: bits[i] == 0)
    && Many(bits, l) == total && Taken(bits, l) == Pow2(l)
  }

  /** The longest codes come in pairs, and there is a shorter code two bits or more below them. */
  lemma CanShorten(bits: Counts, l: nat, total: nat)
    requires Full(bits, l, total) && l >= 17 && bits[l] > 0
    ensures bits[l] >= 2
    ensures exists j :: 1 <= j <= l - 2 && bits[j] > 0
  {
    assert Pow2(l) == 2 * Pow2(l - 1);
    ManyAtLeast(bits, l - 1, l);
    ManyAtLeast(bits, l, l);
    Pow2Mono(10, l);
    assert Pow2(5) == 32;
    Pow2Add(5, 5);
    assert Taken(bits, l) == 2 * (2 * Taken(bits, l - 2) + bits[l - 1]) + bits[l];
    if forall j | 1 <= j <= l - 2 :: bits[j] == 0 {
      NoneShorter(bits, l - 2);
    }
  }

  /** The counts after one adjustment. */
  function Moved(bits: Counts, l: nat, j: nat): (r: Counts)
    requires 3 <= l <= 32 && 1 <= j <= l - 2 && bits[l] >= 2 && bits[j] > 0
  {
    var b1 := bits[l := bits[l] - 2];
    var b2 := b1[l - 1 := b1[l - 1] + 1];
    var b3 := b2[j + 1 := b2[j + 1] + 2];
    b3[j := b3[j] - 1]
  }

  /** An adjustment keeps the number of codes and the code space. */
  lemma MoveKeeps(bits: Counts, l: nat, j: nat, total: nat)
    requires Full(bits, l, total) && l >= 17 && bits[l] >= 2 && 1 <= j <= l - 2 && bits[j] > 0
    ensures Full(Moved(bits, l, j), l, total)
  {
    hide Many, Taken, Pow2;
    var b1: Counts := bits[l := bits[l] - 2];
    var b2: Counts := b1[l - 1 := b1[l - 1] + 1];
    var b3: Counts := b2[j + 1 := b2[j + 1] + 2];
    ManyUpdate(bits, l, bits[l] - 2, l);
    ManyUpdate(b1, l - 1, b1[l - 1] + 1, l);
    ManyUpdate(b2, j + 1, b2[j + 1] + 2, l);
    ManyUpdate(b3, j, b3[j] - 1, l);
    TakenUpdate(bits, l, bits[l] - 2, l);
    TakenUpdate(b1, l - 1, b1[l - 1] + 1, l);
    TakenUpdate(b2, j + 1, b2[j + 1] + 2, l);
    TakenUpdate(b3, j, b3[j] - 1, l);
    ShiftValues(l - j);
  }

  lemma AtMostTotal(bits: Counts, l: nat, total: nat)
    requires Full(bits, l, total)
    ensures l <= 32 && forall i | 0 <= i < 33 :: bits[i] <= 255
  {
    forall i | 1 <= i <= l ensures bits[i] <= 255 {
      ManyAtLeast(bits, i, l);
    }
  }

  /** Two codes of one length take the place of one that is a bit shorter. */
  lemma ShiftValues(n: nat)
    requires n >= 2
    ensures Shl(-2, 0) == -2 && Shl(1, 1) == 2 && Shl(-1, n) + Shl(2, n - 1) == 0
  {
    assert Pow2(1) == 2;
    ShlStep(-1, n - 1);
    assert Shl(2, n - 1) == -2 * Shl(-1, n - 1);
  }

  ghost predicate Longest(b: Counts, i: nat) {
    1 <= i <= 32 && b[i] > 0 && forall k | i < k <= 32 :: b[k] == 0
  }

  /** The rule of section K.2: of two codes of the greatest length i, one takes the place of their prefix, and the other
      one goes together with the next shorter code, of length j, to length j+1.  No other length changes. */
  ghost predicate Adjustment(b: Counts, r: Counts, i: nat, j: nat) {
    && Longest(b, i) && i >= 17 && 1 <= j <= i - 2 && b[j] > 0 && (forall k | j < k <= i - 2 :: b[k] == 0)
    && forall k | 0 <= k <= 32 ::
         r[k] + (if k == i then 2 else 0) + (if k == j then 1 else 0)
         == b[k] + (if k == i - 1 then 1 else 0) + (if k == j + 1 then 2 else 0)
  }

  ghost predicate Adjusted(b: Counts, r: Counts) {
    exists i: nat, j: nat :: Adjustment(b, r, i, j)
  }

  /** From each step to the next, a pair of the longest codes is adjusted. */
  ghost predicate Adjusts(steps: seq<Counts>) {
    && steps != []
    && forall k | 0 <= k < |steps| - 1 :: Adjusted(steps[k], steps[k + 1])
  }

  lemma AdjustsMore(steps: seq<Counts>, r: Counts, i: nat, j: nat)
    requires Adjusts(steps) && Adjustment(steps[|steps| - 1], r, i, j)
    ensures Adjusts(steps + [r])
  {
    assert Adjusted(steps[|steps| - 1], r);
    hide Adjusted;
    var more := steps + [r];
    forall k | 0 <= k < |steps| ensures Adjusted(more[k], more[k + 1]) {
      if k < |steps| - 1 {
        assert more[k] == steps[k] && more[k + 1] == steps[k + 1];
      }
    }
  }

  /** Counts without codes of more than sixteen bits are not adjusted. */
  lemma NotAdjusted(steps: seq<Counts>)
    requires Adjusts(steps) && forall l | 16 < l <= 32 :: steps[0][l] == 0
    ensures |steps| == 1
  {
    NotAdjustable(steps[0], if |steps| > 1 then steps[1] else steps[0]);
  }

  lemma NotAdjustable(b: Counts, r: Counts)
    requires forall l | 16 < l <= 32 :: b[l] == 0
    ensures !Adjusted(b, r)
  {
  }

  lemma FullLongest(bits: Counts, l: nat, total: nat)
    requires Full(bits, l, total) && bits[l] > 0
    ensures Longest(bits, l)
  {
  }

  /** One pair of the longest codes is taken apart. */
  method TakeApart(bits: array<byte>, i: nat, ghost total: nat) returns (ghost k: nat)
    requires bits.Length == 33 && Full(bits[..], i, total) && 17 <= i <= 32 && bits[i] > 0
    modifies bits
    ensures Full(bits[..], i, total) && bits[i] == old(bits[i]) - 2
    ensures Adjustment(old(bits[..]), bits[..], i, k)
  {
    hide Full;
    ghost var before: Counts := bits[..];
    CanShorten(before, i, total);
    var j: nat := i - 2;
    while bits[j] == 0
      invariant 0 <= j <= i - 2 && forall k | j < k <= i - 2 :: bits[k] == 0
      invariant exists k :: 1 <= k <= j && bits[k] > 0
      decreases j
    {
      j := j - 1;
    }
    MoveKeeps(before, i, j, total);
    AtMostTotal(before, i, total);
    Rising(before, i, j, total);
    bits[i] := bits[i] - 2;
    bits[i - 1] := bits[i - 1] + 1;
    bits[j + 1] := bits[j + 1] + 2;
    bits[j] := bits[j] - 1;
    assert bits[..] == Moved(before, i, j);
    FullLongest(before, i, total);
    k := j;
  }

  /** Counts that grow on the way still fit a byte. */
  lemma Rising(bits: Counts, l: nat, j: nat, total: nat)
    requires Full(bits, l, total) && l >= 17 && bits[l] >= 2 && 1 <= j <= l - 2 && bits[j] > 0
    ensures bits[l - 1] < 255
    ensures bits[j + 1] + (if j + 1 == l - 1 then 1 else 0) + 2 <= 255
  {
    hide Many;
    var b1: Counts := bits[l := bits[l] - 2];
    ManyUpdate(bits, l, bits[l] - 2, l);
    ManyAtLeast(b1, l - 1, l);
    var b2: Counts := b1[j := b1[j] - 1];
    ManyUpdate(b1, j, b1[j] - 1, l);
    ManyAtLeast(b2, j + 1, l);
  }

  lemma NoneOfLength(bits: Counts, l: nat, total: nat)
    requires Full(bits, l, total) && l >= 17 && bits[l] == 0
    ensures Full(bits, l - 1, total)
  {
    assert Pow2(l) == 2 * Pow2(l - 1);
  }

  lemma Unadjusted(b: Counts)
    ensures Adjusts([b])
  {
  }

  method LimitLengths(bits: array<byte>, ghost total: nat) returns (ghost steps: seq<Counts>)
    requires bits.Length == 33 && Full(bits[..], MAX_CLEN, total)
    modifies bits
    ensures Full(bits[..], 16, total)
    ensures Adjusts(steps) && steps[0] == old(bits[..]) && steps[|steps| - 1] == bits[..]
    ensures (forall l | 16 < l <= 32 :: old(bits[l]) == 0) ==> bits[..] == old(bits[..])
  {
    hide Full, Adjusts, Adjustment, Adjusted;
    ghost var start: Counts := bits[..];
    steps := [start];
    Unadjusted(start);
    var i := MAX_CLEN;
    while i > 16
      invariant 16 <= i <= MAX_CLEN && Full(bits[..], i, total)
      invariant steps != [] && Adjusts(steps) && steps[0] == start && steps[|steps| - 1] == bits[..]
    {
      while bits[i] > 0
        invariant Full(bits[..], i, total)
        invariant steps != [] && Adjusts(steps) && steps[0] == start && steps[|steps| - 1] == bits[..]
        decreases bits[i]
      {
        ghost var j := TakeApart(bits, i, total);
        AdjustsMore(steps, bits[..], i, j);
        steps := steps + [bits[..]];
      }
      NoneOfLength(bits[..], i, total);
      i := i - 1;
    }
    if forall l | 16 < l <= 32 :: start[l] == 0 {
      NotAdjusted(steps);
    }
  }

  // ----- The pseudo-symbol -----

  ghost predicate Same(b: Bits, bits: Counts) {
    forall i | 0 <= i <= 16 :: b[i] == bits[i]
  }

  lemma {:induction false} SameTotals(b: Bits, bits: Counts, l: nat)
    requires Same(b, bits) && l <= 16
    ensures Total(b, l) == Many(bits, l)
    ensures l > 0 ==> First(b, l) + b[l] == Taken(bits, l)
  {
    if l > 0 {
      SameTotals(b, bits, l - 1);
    }
  }

  /** Shorter codes and their extensions never fill the space of the longest. */
  lemma {:induction false} TakenGrows(bits: Counts, l: nat, m: nat)
    requires l <= m <= 32
    ensures Taken(bits, m) >= Shl(Taken(bits, l), m - l)
    decreases m
  {
    if l < m {
      TakenGrows(bits, l, m - 1);
      ShlStep(Taken(bits, l), m - 1 - l);
    } else {
      assert Shl(Taken(bits, l), 0) == Taken(bits, l);
    }
  }

  /** Without one of the longest codes, no code is all ones. */
  lemma RoomLeft(bits: Counts, i: nat, total: nat, l: nat)
    requires Full(bits, 16, total) && 1 <= i <= 16 && bits[i] > 0 && forall k | i < k <= 16 :: bits[k] == 0
    requires 1 <= l <= 16
    ensures Taken(bits[i := bits[i] - 1], l) < Pow2(l)
  {
    hide Taken, Many, Shl, Pow2;
    var x: nat := bits[i] - 1;
    TakenUpdate(bits, i, x, i);
    TakenUpdate(bits, i, x, l);
    FilledAt(bits, i, total);
    ShlOne(0);
    if l >= i {
      NoneLonger(bits[i := x], i, l);
      PowerShift(i, l);
      ShlAdd(Pow2(i), -1, l - i);
      ShlOne(l - i);
    } else {
      TakenGrows(bits, l, i - 1);
      ShlStep(Taken(bits, l), i - 1 - l);
      PowerShift(l, i);
      ShlMono(Pow2(l), Taken(bits, l), i - l);
      TakenStep(bits, i);
    }
  }

  lemma TakenStep(bits: Counts, i: nat)
    requires 1 <= i <= 32
    ensures Taken(bits, i) == 2 * Taken(bits, i - 1) + bits[i]
  {
  }

  lemma ShlOne(n: nat)
    ensures Shl(-1, n) == 0 - Pow2(n) && Pow2(n) >= 1 && Pow2(0) == 1
  {
  }

  lemma FilledAt(bits: Counts, i: nat, total: nat)
    requires Full(bits, 16, total) && 1 <= i <= 16 && forall k | i < k <= 16 :: bits[k] == 0
    ensures Taken(bits, i) == Pow2(i)
  {
    hide Taken, Many, Shl, Pow2;
    NoneLonger(bits, i, 16);
    PowerShift(i, 16);
    ShlInjective(Taken(bits, i), Pow2(i), 16 - i);
  }

  lemma PowerShift(l: nat, m: nat)
    requires l <= m
    ensures Shl(Pow2(l), m - l) == Pow2(m)
  {
    hide Pow2, Shl;
    ShlPow(l, m - l);
  }

  lemma ShlPow(l: nat, k: nat)
    ensures Shl(Pow2(l), k) == Pow2(l + k)
  {
    Pow2Add(l, k);
    hide Pow2;
  }

  /** One code of the length i is left out. */
  ghost predicate WithoutOne(b: Counts, i: nat, final: Bits) {
    forall l | 0 <= l <= 16 :: b[l] == final[l] as int + if l == i then 1 else 0
  }

  lemma NothingAbove(bits: Counts, total: nat)
    requires Full(bits, 16, total)
    ensures forall k | 16 < k <= 32 :: bits[k] == 0
  {
  }

  /** Removes a code of the longest length, which leaves the all-ones pattern unused. */
  method RemovePseudo(bits: array<byte>, ghost total: nat) returns (final: Bits, ghost last: nat)
    requires bits.Length == 33 && Full(bits[..], 16, total) && total >= 1
    modifies bits
    ensures Legal(final) && Total(final, 16) == total - 1
    ensures Longest(old(bits[..]), last) && last <= 16 && WithoutOne(old(bits[..]), last, final)
  {
    hide Many, Taken, Total, First, Pow2;
    ghost var before: Counts := bits[..];
    SomeLength(before, total);
    var i: nat := 16;
    while bits[i] == 0
      invariant 0 <= i <= 16 && forall k | i < k <= 16 :: bits[k] == 0
      invariant exists k :: 1 <= k <= i && bits[k] > 0
      decreases i
    {
      i := i - 1;
    }
    bits[i] := bits[i] - 1;
    ghost var after: Counts := before[i := before[i] - 1];
    assert bits[..] == after;
    final := bits[..17];
    last := i;
    NothingAbove(before, total);
    ManyUpdate(before, i, before[i] - 1, 16);
    SameTotals(final, after, 16);
    forall l | 1 <= l <= 16 ensures Fits(final, l) {
      SameTotals(final, after, l);
      RoomLeft(before, i, total, l);
    }
  }

  lemma SomeLength(bits: Counts, total: nat)
    requires Full(bits, 16, total) && total >= 1
    ensures exists k :: 1 <= k <= 16 && bits[k] > 0
  {
    if forall k | 1 <= k <= 16 :: bits[k] == 0 {
      NoneShorter(bits, 16);
    }
  }

  // ----- The symbols -----

  /** Symbols in the order of their sizes, and of their numbers where the sizes are the same. */
  ghost predicate Before(len: Lengths, s: int, t: int)
    requires |len| == 257 && 0 <= s < 257 && 0 <= t < 257
  {
    len[s] < len[t] || (len[s] == len[t] && s < t)
  }

  /** The list holds exactly the symbols before symbol j of size i, in order. */
  ghost predicate ListedBefore(len: Lengths, list: seq<byte>, i: nat, j: nat)
    requires |len| == 257
  {
    && (forall p, q | 0 <= p < q < |list| :: Before(len, list[p], list[q]))
    && (forall p | 0 <= p < |list| :: 1 <= len[list[p]] && (len[list[p]] < i || (len[list[p]] == i && list[p] < j)))
    && (forall s | 0 <= s < 256 && 1 <= len[s] && (len[s] < i || (len[s] == i && s < j)) :: s in list)
  }

  lemma {:induction false} DistinctSize(list: seq<int>)
    requires forall p, q | 0 <= p < q < |list| :: list[p] != list[q]
    ensures |set x | x in list| == |list|
  {
    var whole := set x | x in list;
    if list == [] {
      assert whole == {};
    } else {
      var rest := list[..|list| - 1];
      var last := list[|list| - 1];
      DistinctSize(rest);
      assert whole == (set x | x in rest) + {last};
      assert last !in rest;
    }
  }

  lemma {:induction false} IndicatorSize(w: Weights, n: nat)
    requires n <= |w|
    ensures Sum(Indicator(w)[..n]) == |set s | 0 <= s < n && w[s] > 0|
  {
    hide Sum, Indicator;
    var whole := set s | 0 <= s < n && w[s] > 0;
    if n == 0 {
      NoSum();
      assert whole == {} && Indicator(w)[..0] == [];
    } else {
      var rest := set s | 0 <= s < n - 1 && w[s] > 0;
      IndicatorSize(w, n - 1);
      SumSnoc(Indicator(w), n - 1);
      if w[n - 1] > 0 {
        assert whole == rest + {n - 1};
      } else {
        assert whole == rest;
      }
    }
  }

  /** The complete list is as long as there are symbols in use. */
  lemma ListSize(w: Weights, len: Lengths, list: seq<byte>)
    requires |w| == 257 && Used(w, len) && ListedBefore(len, list, 33, 0)
    requires forall s | 0 <= s < 257 :: len[s] <= MAX_CLEN
    ensures |list| == Sum(Indicator(w)[..256])
  {
    hide Sum;
    var ints: seq<int> := list;
    DistinctSize(ints);
    IndicatorSize(w, 256);
    assert (set x | x in ints) == set s | 0 <= s < 256 && w[s] > 0;
  }

  lemma {:induction false} Pigeonhole(list: seq<int>, n: nat)
    requires forall p, q | 0 <= p < q < |list| :: list[p] != list[q]
    requires forall p | 0 <= p < |list| :: 0 <= list[p] < n
    ensures |list| <= n
  {
    assert list != [] ==> 0 <= list[0] < n;
    if n > 0 {
      if p :| 0 <= p < |list| && list[p] == n - 1 {
        Pigeonhole(list[..p] + list[p + 1..], n - 1);
      } else {
        Pigeonhole(list, n - 1);
      }
    }
  }

  /** While a symbol is missing, there is room for it. */
  lemma ListFits(len: Lengths, list: seq<byte>, i: nat, j: byte)
    requires |len| == 257 && ListedBefore(len, list, i, j) && j !in list
    ensures |list| < 256
  {
    Pigeonhole(list + [j], 256);
  }

  lemma NoneListed(len: Lengths)
    requires |len| == 257
    ensures ListedBefore(len, [], 1, 0)
  {
  }

  lemma ListedSame(len: Lengths, list: seq<byte>, i: nat, j: byte)
    requires |len| == 257 && ListedBefore(len, list, i, j) && len[j] != i
    ensures ListedBefore(len, list, i, j + 1)
  {
  }

  lemma NextSize(len: Lengths, list: seq<byte>, i: nat)
    requires |len| == 257 && ListedBefore(len, list, i, 256)
    ensures ListedBefore(len, list, i + 1, 0)
  {
  }

  lemma ListedMore(len: Lengths, list: seq<byte>, i: nat, j: byte)
    requires |len| == 257 && i >= 1 && ListedBefore(len, list, i, j) && len[j] == i
    ensures |list| < 256 && ListedBefore(len, list + [j], i, j + 1)
  {
    assert j !in list;
    ListFits(len, list, i, j);
    var more := list + [j];
    forall s | 0 <= s < 256 && 1 <= len[s] && (len[s] < i || (len[s] == i && s < j + 1)) ensures s in more {
      assert s == j || s in list;
    }
  }

  method ListSymbols(codesize: array<nat>, ghost w: Weights) returns (huffval: array<byte>, p: nat)
    requires codesize.Length == 257 && Used(w, codesize[..])
    requires forall s | 0 <= s < 257 :: codesize[s] <= MAX_CLEN
    ensures fresh(huffval) && huffval.Length == 256 && p <= 256
    ensures ListedBefore(codesize[..], huffval[..p], 33, 0)
    ensures p == Sum(Indicator(w)[..256])
  {
    hide Sum, ListedBefore;
    huffval := new byte[256](_ => 0);
    p := 0;
    ghost var len := codesize[..];
    var i := 1;
    NoneListed(len);
    while i <= MAX_CLEN
      invariant 1 <= i <= 33 && codesize[..] == len && p <= 256
      invariant ListedBefore(len, huffval[..p], i, 0)
    {
      var j := 0;
      while j <= 255
        invariant 0 <= j <= 256 && codesize[..] == len && p <= 256
        invariant ListedBefore(len, huffval[..p], i, j)
      {
        assert codesize[j] == len[j];
        if codesize[j] == i {
          ghost var before := huffval[..p];
          ListedMore(len, before, i, j);
          huffval[p] := j;
          p := p + 1;
          assert huffval[..p] == before + [j];
        } else {
          ListedSame(len, huffval[..p], i, j);
        }
        j := j + 1;
      }
      NextSize(len, huffval[..p], i);
      i := i + 1;
    }
    ListSize(w, len, huffval[..p]);
  }

  // ----- The tree and the table -----

  lemma TreeUses(w: Weights, len: Lengths)
    requires |w| == 257 && FullTree(w, len) && Roots(w) >= 2
    ensures Used(w, len)
  {
    hide Sum, Pow2;
    forall s | 0 <= s < 257 && w[s] > 0 ensures 1 <= len[s] {
      if len[s] == 0 {
        AnotherShare(w, len, s);
      }
    }
  }

  /** A code of no bits would leave no room for a second symbol. */
  lemma AnotherShare(w: Weights, len: Lengths, s: nat)
    requires |w| == |len| == 257 && s < 257 && w[s] > 0 && len[s] == 0 && Roots(w) >= 2
    requires forall i | 0 <= i < 257 :: len[i] < 257
    ensures Sum(Shares(w, len, 256)) > Pow2(256)
  {
    hide Pow2, Sum;
    var one := Indicator(w);
    SumUpdate(one, s, 0);
    if forall i | 0 <= i < 257 && i != s :: w[i] == 0 {
      SumZero(one[s := 0]);
    }
    var t :| 0 <= t < 257 && t != s && w[t] > 0;
    var shares := Shares(w, len, 256);
    SumUpdate(shares, s, 0);
    SumAtLeast(shares[s := 0], t);
    assert 256 - len[s] == 256;
  }

  /** The tree in units of 2^-32. */
  lemma TreeTaken(w: Weights, len: Lengths)
    requires |w| == 257 && FullTree(w, len) && forall s | 0 <= s < 257 :: len[s] <= MAX_CLEN
    ensures Sum(Shares(w, len, MAX_CLEN)) == Pow2(MAX_CLEN)
  {
    hide Sum, Pow2;
    var k := Pow2(256 - MAX_CLEN);
    forall i | 0 <= i < 257 ensures Share(w, len, 256, i) == k * Share(w, len, MAX_CLEN, i) {
      if w[i] > 0 {
        Pow2Add(256 - MAX_CLEN, MAX_CLEN - len[i]);
        assert 256 - MAX_CLEN + (MAX_CLEN - len[i]) == 256 - len[i];
      }
    }
    SumScale(Shares(w, len, MAX_CLEN), Shares(w, len, 256), k);
    Pow2Add(256 - MAX_CLEN, MAX_CLEN);
    MulCancelEq(k, Sum(Shares(w, len, MAX_CLEN)), Pow2(MAX_CLEN));
  }

  /** What the finished table holds: a code for each symbol in use, by increasing size. */
  ghost predicate TableFor(w: Weights, len: Lengths, t: Table)
    requires |w| == |len| == 257
  {
    && TableOk(t) && Legal(t.bits)
    && Total(t.bits, 16) == Sum(Indicator(w)[..256])
    && ListedBefore(len, t.huffval[..Total(t.bits, 16)], 33, 0)
    && Shortened(len, t.bits)
  }

  /** The numbers of codes come from the numbers of symbols of each size by adjustments, until no code is longer than
      sixteen bits; then one of the longest codes is left out. */
  ghost predicate Shortened(len: Lengths, bits: Bits)
    requires |len| == 257
  {
    exists steps: seq<Counts>, i: nat :: ShortenedBy(len, steps, i, bits)
  }

  ghost predicate ShortenedBy(len: Lengths, steps: seq<Counts>, i: nat, bits: Bits)
    requires |len| == 257
  {
    && Adjusts(steps) && SizesCounted(len, steps[0], 257)
    && Longest(steps[|steps| - 1], i) && i <= 16 && WithoutOne(steps[|steps| - 1], i, bits)
  }

  /** Such a table is accepted, and every symbol in use is listed exactly once. */
  lemma TableAccepted(w: Weights, len: Lengths, t: Table)
    requires |w| == 257 && Used(w, len) && TableFor(w, len, t)
    requires forall s | 0 <= s < 257 :: len[s] <= MAX_CLEN
    ensures Encodable(t, false)
    ensures (forall s | 16 <= s < 256 :: w[s] == 0) ==> Encodable(t, true)
    ensures forall s | 0 <= s < 256 :: w[s] > 0 <==> Listed(t, s, Total(t.bits, 16))
  {
    var n := Total(t.bits, 16);
    var list := t.huffval[..n];
    forall p, q | 0 <= p < q < n ensures t.huffval[p] != t.huffval[q] {
      assert list[p] == t.huffval[p] && list[q] == t.huffval[q];
      assert Before(len, list[p], list[q]);
    }
    forall p | 0 <= p < n ensures w[t.huffval[p]] > 0 {
      assert list[p] == t.huffval[p];
    }
    forall s | 0 <= s < 256 && w[s] > 0 ensures Listed(t, s, n) {
      assert s in list;
    }
  }

  // ----- Sizes and code lengths -----

  ghost function UpTo(len: Lengths, l: nat): (r: set<int>)
    requires |len| == 257
  {
    set s | 0 <= s < 256 && 1 <= len[s] <= l
  }

  lemma {:induction false} UpToTotal(len: Lengths, bits: Bits, l: nat)
    requires |len| == 257 && l <= 16 && forall k | 1 <= k <= 16 :: bits[k] == |OfSize(len, k, 256)|
    ensures |UpTo(len, l)| == Total(bits, l)
  {
    if l == 0 {
      assert UpTo(len, 0) == {};
    } else {
      UpToTotal(len, bits, l - 1);
      assert UpTo(len, l) == UpTo(len, l - 1) + OfSize(len, l, 256);
      assert UpTo(len, l - 1) !! OfSize(len, l, 256);
    }
  }

  /** The symbols of up to a certain size come first in the list. */
  lemma {:induction false} Cut(len: Lengths, list: seq<byte>, l: nat, n: nat) returns (k: nat)
    requires |len| == 257 && n <= |list| && forall p, q | 0 <= p < q < |list| :: len[list[p]] <= len[list[q]]
    ensures k <= n && (forall p | 0 <= p < k :: len[list[p]] <= l) && forall p | k <= p < n :: len[list[p]] > l
  {
    k := n;
    if n > 0 && len[list[n - 1]] > l {
      k := Cut(len, list, l, n - 1);
    }
  }

  lemma CutIs(len: Lengths, list: seq<byte>, l: nat, p: nat)
    requires |len| == 257 && ListedBefore(len, list, 33, 0) && forall s | 0 <= s < 256 :: len[s] <= MAX_CLEN
    requires p < |list|
    ensures p < |UpTo(len, l)| <==> len[list[p]] <= l
  {
    var k := Cut(len, list, l, |list|);
    var front: seq<int> := list[..k];
    DistinctSize(front);
    forall s | s in UpTo(len, l) ensures s in front {
      assert s in list;
      var q :| 0 <= q < |list| && list[q] == s;
      assert front[q] == s;
    }
    forall s | s in front ensures s in UpTo(len, l) {
      var q :| 0 <= q < k && front[q] == s;
      assert list[q] == s;
    }
    assert (set x | x in front) == UpTo(len, l);
  }

  /** If no size is above sixteen, each symbol gets a code of exactly its size: the pseudo-symbol is the one that
      is left out, because it has the greatest size. */
  lemma SizesKept(w: Weights, len: Lengths, t: Table)
    requires |w| == |len| == 257 && Used(w, len) && w[256] > 0 && TableFor(w, len, t)
    requires forall s | 0 <= s < 257 :: len[s] <= 16 && len[s] <= len[256]
    ensures forall p | 0 <= p < Total(t.bits, 16) :: SizeIs(t.bits, p, len[t.huffval[p]])
  {
    CodesOfSize(w, len, t.bits);
    var n := Total(t.bits, 16);
    var list := t.huffval[..n];
    forall p | 0 <= p < n ensures SizeIs(t.bits, p, len[t.huffval[p]]) {
      var l := len[list[p]];
      CutIs(len, list, l, p);
      CutIs(len, list, l - 1, p);
      UpToTotal(len, t.bits, l);
      UpToTotal(len, t.bits, l - 1);
    }
  }

  lemma CodesOfSize(w: Weights, len: Lengths, bits: Bits)
    requires |w| == |len| == 257 && Used(w, len) && w[256] > 0 && Shortened(len, bits)
    requires forall s | 0 <= s < 257 :: len[s] <= 16 && len[s] <= len[256]
    ensures forall l | 1 <= l <= 16 :: bits[l] == |OfSize(len, l, 256)|
  {
    var steps: seq<Counts>, i: nat :| ShortenedBy(len, steps, i, bits);
    forall l | len[256] < l <= 32 ensures steps[0][l] == 0 {
      assert OfSize(len, l, 257) == {};
    }
    assert 256 in OfSize(len, len[256], 257);
    assert steps[0][len[256]] > 0;
    NotAdjusted(steps);
    assert i == len[256];
    forall l | 1 <= l <= 16 ensures bits[l] == |OfSize(len, l, 256)| {
      OneOfSize(len, l, 256);
    }
  }

  lemma ListOrder(len: Lengths, list: seq<byte>, p: nat, q: nat)
    requires |len| == 257 && ListedBefore(len, list, 33, 0) && p < |list| && q < |list|
    requires len[list[p]] < len[list[q]]
    ensures p < q
  {
  }

  /** Even where codes had to be shortened, a symbol of smaller size has no longer code. */
  lemma OrderKept(w: Weights, len: Lengths, t: Table, p: nat, q: nat, l: nat, m: nat)
    requires |w| == |len| == 257 && TableFor(w, len, t) && p < Total(t.bits, 16) && q < Total(t.bits, 16)
    requires len[t.huffval[p]] < len[t.huffval[q]] && SizeIs(t.bits, p, l) && SizeIs(t.bits, q, m)
    ensures l <= m
  {
    var list := t.huffval[..Total(t.bits, 16)];
    assert list[p] == t.huffval[p] && list[q] == t.huffval[q];
    ListOrder(len, list, p, q);
    if m < l {
      TotalMono(t.bits, m, l - 1);
    }
  }

  // ----- The construction -----

  /** An optimal table for the counts, limited to codes of sixteen bits.  It is refused if and only if
      the tree of the counts is deeper than 32, which takes more than 32 symbols and a large total. */
  method GenOptimalTable(freq: array<nat>) returns (ok: bool, t: Table)
    requires freq.Length == 257 && Sum(freq[..256] + [1]) <= SEARCH_LIMIT
    requires 1 <= Roots(freq[..256]) <= 254
    modifies freq
    ensures var w := old(freq[..256]) + [1];
            && FullTree(w, TreeDepths(w)) && Optimal(w, TreeDepths(w))
            && (ok <==> Shallow(w))
            && (Roots(old(freq[..256])) <= MAX_CLEN || Sum(w) < DEEP_TOTAL ==> ok)
            && (ok ==> TableFor(w, TreeDepths(w), t))
    ensures var len := TreeDepths(old(freq[..256]) + [1]);
            ok && (forall s | 0 <= s < 257 :: len[s] <= 16) ==>
              forall p | 0 <= p < Total(t.bits, 16) :: SizeIs(t.bits, p, len[t.huffval[p]])
    ensures ok ==> Encodable(t, false)
    ensures ok && (forall s | 16 <= s < 256 :: old(freq[s]) == 0) ==> Encodable(t, true)
    ensures ok ==> forall s | 0 <= s < 256 :: old(freq[s]) > 0 <==> Listed(t, s, Total(t.bits, 16))
  {
    hide TreeDepths, Roots, Sum, FullTree, Optimal, TableFor, Encodable, Full, Legal, Total, Listed, Used, ListedBefore,
         Indicator;
    ghost var w: Weights := freq[..256] + [1];
    t := Table(seq(17, _ => 0), []);
    UsedPlusOne(freq[..256]);
    var codesize := CodeSizes(freq);
    ghost var len := TreeDepths(w);
    if Roots(w) <= MAX_CLEN + 1 || Sum(w) < DEEP_TOTAL {
      ShallowTree(w);
    }
    TreeUses(w, len);
    var bits;
    ok, bits := CountSizes(codesize, w);
    if !ok {
      return;
    }
    ghost var total: nat := Roots(w);
    CountedFull(w, len, bits[..], total);
    ghost var steps := LimitLengths(bits, total);
    var final;
    ghost var last;
    final, last := RemovePseudo(bits, total);
    assert ShortenedBy(len, steps, last, final);
    var huffval, p := ListSymbols(codesize, w);
    t := Table(final, huffval[..]);
    TableDone(w, len, t, p);
    TableAccepted(w, len, t);
    if forall s | 0 <= s < 257 :: len[s] <= 16 {
      PseudoDeepest(w);
      SizesKept(w, len, t);
    }
  }

  lemma UsedPlusOne(freq: Weights)
    requires |freq| == 256
    ensures Roots(freq + [1]) == Roots(freq) + 1 == Sum(Indicator(freq + [1])[..256]) + 1
    ensures Roots(freq + [1]) == Sum(Indicator(freq + [1]))
  {
    var w := freq + [1];
    SumSnoc(Indicator(w), 256);
    assert Indicator(w)[..257] == Indicator(w);
    assert Indicator(w)[..256] == Indicator(freq);
  }

  lemma CountedFull(w: Weights, len: Lengths, bits: Counts, total: nat)
    requires |w| == 257 && Used(w, len) && CountedFirst(w, len, bits, 257) && FullTree(w, len)
    requires forall s | 0 <= s < 257 :: len[s] <= MAX_CLEN
    requires total == Roots(w) <= 255
    ensures Full(bits, MAX_CLEN, total)
  {
    hide Sum, Many, Taken, Pow2;
    TreeTaken(w, len);
    assert Indicator(w)[..257] == Indicator(w);
    assert Shares(w, len, MAX_CLEN)[..257] == Shares(w, len, MAX_CLEN);
  }

  lemma TableDone(w: Weights, len: Lengths, t: Table, p: nat)
    requires |w| == |len| == 257 && |t.huffval| == 256 && Legal(t.bits) && p <= 256
    requires Total(t.bits, 16) == p == Sum(Indicator(w)[..256])
    requires ListedBefore(len, t.huffval[..p], 33, 0) && Shortened(len, t.bits)
    ensures TableFor(w, len, t)
  {
  }
}
