/** Code lengths, Kraft sums and costs: why merging the two smallest weights is optimal. */
module HuffCost {
  import opened Numbers

  // ----- Finite sums -----

  function Sum(s: seq<int>): (n: int) {
    if s == [] then 0 else s[0] + Sum(s[1..])
  }

  lemma {:induction false} SumUpdate(s: seq<int>, i: nat, v: int)
    requires i < |s|
    ensures Sum(s[i := v]) == Sum(s) - s[i] + v
  {
    if i > 0 {
      assert s[i := v][1..] == s[1..][i - 1 := v];
      SumUpdate(s[1..], i - 1, v);
    } else {
      assert s[i := v][1..] == s[1..];
    }
  }

  lemma {:induction false} SumScale(s: seq<int>, t: seq<int>, k: int)
    requires |s| == |t| && forall i | 0 <= i < |s| :: t[i] == k * s[i]
    ensures Sum(t) == k * Sum(s)
  {
    if s != [] {
      SumScale(s[1..], t[1..], k);
    }
  }

  /** All terms but one are even. */
  lemma {:induction false} SumEven(s: seq<int>)
    requires forall i | 0 <= i < |s| :: s[i] % 2 == 0
    ensures Sum(s) % 2 == 0
  {
    if s != [] {
      SumEven(s[1..]);
    }
  }

  lemma {:induction false} SumAtLeast(s: seq<int>, i: nat)
    requires i < |s| && forall j | 0 <= j < |s| :: s[j] >= 0
    ensures s[i] <= Sum(s)
  {
    if i > 0 {
      SumAtLeast(s[1..], i - 1);
    } else {
      SumNonNegative(s[1..]);
    }
  }

  lemma {:induction false} SumNonNegative(s: seq<int>)
    requires forall j | 0 <= j < |s| :: s[j] >= 0
    ensures Sum(s) >= 0
  {
    if s != [] {
      SumNonNegative(s[1..]);
    }
  }

  // ----- Weights and lengths -----

  type Weights = seq<nat>

  type Lengths = seq<nat>

  /** Symbols of weight zero take no part. */
  function Cost(w: Weights, len: Lengths): (c: int)
    requires |w| == |len|
  {
    Sum(Costs(w, len))
  }

  function Costs(w: Weights, len: Lengths): (s: seq<int>)
    requires |w| == |len|
    ensures |s| == |w| && forall i | 0 <= i < |s| :: s[i] == w[i] * len[i]
  {
    seq(|w|, i requires 0 <= i < |w| => w[i] * len[i])
  }

  ghost predicate Bounded(w: Weights, len: Lengths, n: nat) {
    |w| == |len| && forall i | 0 <= i < |w| :: w[i] > 0 ==> len[i] <= n
  }

  function Share(w: Weights, len: Lengths, n: nat, i: nat): (p: int)
    requires i < |w| == |len|
  {
    if w[i] > 0 && len[i] <= n then Pow2(n - len[i]) else 0
  }

  function Shares(w: Weights, len: Lengths, n: nat): (s: seq<int>)
    requires |w| == |len|
    ensures |s| == |w| && forall i | 0 <= i < |s| :: s[i] == Share(w, len, n, i)
  {
    seq(|w|, i requires 0 <= i < |w| => Share(w, len, n, i))
  }

  /** Kraft's inequality for the symbols in use, in units of 2^-n. */
  ghost predicate Feasible(w: Weights, len: Lengths, n: nat) {
    Bounded(w, len, n) && Sum(Shares(w, len, n)) <= Pow2(n)
  }

  /** The unit does not matter as long as it is fine enough. */
  lemma FeasibleUnit(w: Weights, len: Lengths, m: nat, n: nat)
    requires m <= n && Bounded(w, len, m)
    ensures Feasible(w, len, m) <==> Feasible(w, len, n)
  {
    var k := Pow2(n - m);
    forall i | 0 <= i < |w| ensures Share(w, len, n, i) == k * Share(w, len, m, i) {
      if w[i] > 0 {
        Pow2Add(n - m, m - len[i]);
        assert n - m + (m - len[i]) == n - len[i];
      }
    }
    SumScale(Shares(w, len, m), Shares(w, len, n), k);
    Pow2Add(n - m, m);
    MulCancel(k, Sum(Shares(w, len, m)), Pow2(m));
  }

  lemma SharesUpdate(w: Weights, len: Lengths, n: nat, i: nat, x: nat)
    requires i < |w| == |len|
    ensures Sum(Shares(w, len[i := x], n))
            == Sum(Shares(w, len, n)) - Share(w, len, n, i) + Share(w, len[i := x], n, i)
  {
    var s := Shares(w, len, n);
    assert Shares(w, len[i := x], n) == s[i := Share(w, len[i := x], n, i)];
    SumUpdate(s, i, Share(w, len[i := x], n, i));
  }

  lemma CostUpdate(w: Weights, len: Lengths, i: nat, x: nat)
    requires i < |w| == |len|
    ensures Cost(w, len[i := x]) == Cost(w, len) - w[i] * len[i] + w[i] * x
  {
    var s := Costs(w, len);
    assert Costs(w, len[i := x]) == s[i := w[i] * x];
    SumUpdate(s, i, w[i] * x);
  }

  // ----- Merging -----

  /** The two symbols with the smallest weights. */
  ghost predicate Smallest(w: Weights, a: nat, b: nat) {
    && a < |w| && b < |w| && a != b && w[a] > 0 && w[b] > 0
    && (forall i | 0 <= i < |w| && w[i] > 0 :: w[a] <= w[i])
    && (forall i | 0 <= i < |w| && w[i] > 0 && i != a :: w[b] <= w[i])
  }

  function Merged(w: Weights, a: nat, b: nat): (r: Weights)
    requires a < |w| && b < |w| && a != b
  {
    w[a := w[a] + w[b]][b := 0]
  }

  function Longest(w: Weights, len: Lengths, n: nat): (i: nat)
    requires |w| == |len| >= n >= 1
    ensures i < n
    ensures (exists j | 0 <= j < n :: w[j] > 0) ==> w[i] > 0
    ensures forall j | 0 <= j < n && w[j] > 0 :: w[i] > 0 && len[j] <= len[i]
  {
    if n == 1 then 0
    else
      var i := Longest(w, len, n - 1);
      if w[n - 1] > 0 && (w[i] == 0 || len[i] < len[n - 1]) then n - 1 else i
  }

  /** Giving the longer of two lengths to the smaller of two weights does not cost more. */
  lemma Exchange(w: Weights, len: Lengths, n: nat, a: nat, b: nat)
    requires Feasible(w, len, n) && a < |w| && b < |w|
    requires w[a] > 0 && w[b] > 0 && w[a] <= w[b] && len[a] <= len[b]
    ensures var r := len[a := len[b]][b := len[a]];
            Feasible(w, r, n) && Cost(w, r) <= Cost(w, len)
  {
    hide Pow2, Sum;
    if a != b {
      var mid := len[a := len[b]];
      SharesUpdate(w, len, n, a, len[b]);
      SharesUpdate(w, mid, n, b, len[a]);
      CostUpdate(w, len, a, len[b]);
      CostUpdate(w, mid, b, len[a]);
      ExchangeGain(w[a], w[b], len[a], len[b]);
      assert Bounded(w, mid[b := len[a]], n);
      hide Cost, Shares;
    } else {
      assert len[a := len[b]][b := len[a]] == len;
    }
  }

  lemma ExchangeGain(wa: nat, wb: nat, la: nat, lb: nat)
    requires wa <= wb && la <= lb
    ensures wa * lb + wb * la <= wa * la + wb * lb
  {
    assert (wb - wa) * (lb - la) >= 0;
  }

  /** If only one symbol has the longest length, that length can be cut. */
  lemma Shorten(w: Weights, len: Lengths, p: nat)
    requires p < |w| == |len| && w[p] > 0 && len[p] >= 1 && Feasible(w, len, len[p])
    requires forall i | 0 <= i < |w| && w[i] > 0 && i != p :: len[i] < len[p]
    ensures Feasible(w, len[p := len[p] - 1], len[p])
    ensures Cost(w, len[p := len[p] - 1]) <= Cost(w, len)
  {
    hide Pow2, Sum, Cost, Shares;
    var m := len[p];
    LoneLongest(w, len, p);
    SharesUpdate(w, len, m, p, m - 1);
    CostUpdate(w, len, p, m - 1);
    SmallPowers();
    MulMono(m - 1, m, w[p]);
  }

  /** The Kraft sum is then odd, and so below the limit. */
  lemma LoneLongest(w: Weights, len: Lengths, p: nat)
    requires p < |w| == |len| && w[p] > 0 && len[p] >= 1 && Feasible(w, len, len[p])
    requires forall i | 0 <= i < |w| && w[i] > 0 && i != p :: len[i] < len[p]
    ensures Sum(Shares(w, len, len[p])) < Pow2(len[p])
  {
    var m := len[p];
    var s := Shares(w, len, m);
    var rest := s[p := 0];
    forall i | 0 <= i < |rest| ensures rest[i] % 2 == 0 {
      if i != p && w[i] > 0 {
        assert Pow2(m - len[i]) == 2 * Pow2(m - len[i] - 1);
      }
    }
    SumEven(rest);
    SumUpdate(s, p, 0);
    assert s[p] == 1;
    assert Pow2(m) == 2 * Pow2(m - 1);
  }

  /** Two symbols of the same longest length become one symbol one bit shorter. */
  lemma Join(w: Weights, len: Lengths, n: nat, a: nat, b: nat)
    requires Feasible(w, len, n) && a < |w| && b < |w| && a != b
    requires w[a] > 0 && w[b] > 0 && len[a] == len[b] >= 1
    ensures var r := len[a := len[a] - 1];
            && Feasible(Merged(w, a, b), r, n)
            && Cost(Merged(w, a, b), r) + w[a] + w[b] == Cost(w, len)
  {
    var m := len[a];
    JoinShares(w, len, n, a, b);
    JoinCosts(w, len, a, b);
    hide Cost, Shares, Sum;
    assert Bounded(Merged(w, a, b), len[a := m - 1], n);
  }

  lemma JoinShares(w: Weights, len: Lengths, n: nat, a: nat, b: nat)
    requires Bounded(w, len, n) && a < |w| && b < |w| && a != b
    requires w[a] > 0 && w[b] > 0 && len[a] == len[b] >= 1
    ensures Sum(Shares(Merged(w, a, b), len[a := len[a] - 1], n)) == Sum(Shares(w, len, n))
  {
    var m := len[a];
    var s := Shares(w, len, n);
    var p := Pow2(n - m);
    assert Pow2(n - (m - 1)) == 2 * p;
    hide Pow2;
    assert Shares(Merged(w, a, b), len[a := m - 1], n) == s[a := 2 * p][b := 0];
    SumUpdate(s, a, 2 * p);
    SumUpdate(s[a := 2 * p], b, 0);
  }

  lemma JoinCosts(w: Weights, len: Lengths, a: nat, b: nat)
    requires a < |w| == |len| && b < |w| && a != b && len[a] == len[b] >= 1
    ensures Cost(Merged(w, a, b), len[a := len[a] - 1]) + w[a] + w[b] == Cost(w, len)
  {
    var m := len[a];
    var t := Costs(w, len);
    var x := (w[a] + w[b]) * (m - 1);
    assert Costs(Merged(w, a, b), len[a := m - 1]) == t[a := x][b := 0];
    SumUpdate(t, a, x);
    SumUpdate(t[a := x], b, 0);
    JoinGain(w[a], w[b], m);
  }

  lemma JoinGain(wa: nat, wb: nat, m: nat)
    ensures (wa + wb) * (m - 1) == wa * m + wb * m - wa - wb
  {
  }

  /** The two smallest weights can share the longest length, without costing more. */
  lemma Arrange(w: Weights, len: Lengths, n: nat, a: nat, b: nat, p: nat, q: nat) returns (r: Lengths)
    requires Feasible(w, len, n) && Smallest(w, a, b)
    requires p < |w| && q < |w| && p != q && w[p] > 0 && w[q] > 0 && len[p] == len[q]
    requires forall i | 0 <= i < |w| && w[i] > 0 :: len[i] <= len[p]
    ensures Feasible(w, r, n) && Cost(w, r) <= Cost(w, len)
    ensures r[a] == r[b] == len[p]
  {
    hide Cost, Shares, Sum;
    var m := len[p];
    r := len;
    var other := if p == a then q else p;
    if r[a] != m {
      var c := if p != b then p else q;
      other := if p != b then q else p;
      Exchange(w, r, n, a, c);
      r := r[a := r[c]][c := r[a]];
    }
    if r[b] != m {
      Exchange(w, r, n, b, other);
      r := r[b := r[other]][other := r[b]];
    }
  }

  /** Any lengths for the weights give lengths for the merged weights that cost less by
      the merged weight. */
  lemma {:induction false} MergeIsOptimal(w: Weights, len: Lengths, n: nat, a: nat, b: nat) returns (r: Lengths)
    requires Feasible(w, len, n) && Smallest(w, a, b)
    ensures Feasible(Merged(w, a, b), r, n)
    ensures Cost(Merged(w, a, b), r) + w[a] + w[b] <= Cost(w, len)
    decreases Sum(len)
  {
    hide Cost, Shares, Longest, Sum, Bounded, Smallest, Merged;
    ActiveSizes(w, len, n, a, b);
    var p := Longest(w, len, |w|);
    var m := len[p];
    LongestPositive(w, len, n, a, b);
    if q :| 0 <= q < |w| && q != p && w[q] > 0 && len[q] == m {
      var two := Arrange(w, len, n, a, b, p, q);
      ActiveSizes(w, two, n, a, b);
      Join(w, two, n, a, b);
      r := two[a := m - 1];
    } else {
      ShortenLone(w, len, n, p);
      r := MergeIsOptimal(w, len[p := m - 1], n, a, b);
    }
  }

  lemma ActiveSizes(w: Weights, len: Lengths, n: nat, a: nat, b: nat)
    requires Feasible(w, len, n) && Smallest(w, a, b)
    ensures |len| == |w| && a < |w| && b < |w| && a != b && w[a] > 0 && w[b] > 0
  {
  }

  /** One longest code alone can be made shorter. */
  lemma ShortenLone(w: Weights, len: Lengths, n: nat, p: nat)
    requires Feasible(w, len, n) && p < |w| == |len| && w[p] > 0 && len[p] >= 1
    requires forall i | 0 <= i < |w| && w[i] > 0 && i != p :: len[i] < len[p]
    ensures var r := len[p := len[p] - 1];
            Feasible(w, r, n) && Cost(w, r) <= Cost(w, len) && 0 <= Sum(r) < Sum(len)
  {
    hide Cost, Shares, Sum;
    var m := len[p];
    FeasibleUnit(w, len, m, n);
    Shorten(w, len, p);
    FeasibleUnit(w, len[p := m - 1], m, n);
    SumUpdate(len, p, m - 1);
    SumNonNegative(len[p := m - 1]);
  }

  lemma LongestPositive(w: Weights, len: Lengths, n: nat, a: nat, b: nat)
    requires Feasible(w, len, n) && a < |w| && b < |w| && a != b && w[a] > 0 && w[b] > 0
    ensures len[Longest(w, len, |w|)] >= 1
  {
    if len[a] == 0 && len[b] == 0 {
      var s := Shares(w, len, n);
      var t := s[a := 0];
      SumUpdate(s, a, 0);
      SumAtLeast(t, b);
    }
  }

  // ----- Prefix codes meet Kraft's inequality -----

  lemma {:induction false} SumAdd(s: seq<int>, t: seq<int>, u: seq<int>)
    requires |s| == |t| == |u| && forall i | 0 <= i < |s| :: u[i] == s[i] + t[i]
    ensures Sum(u) == Sum(s) + Sum(t)
  {
    if s != [] {
      SumAdd(s[1..], t[1..], u[1..]);
    }
  }

  /** No code word in use is the beginning of another one. */
  ghost predicate PrefixFree(w: Weights, codes: seq<seq<bit>>) {
    && |w| == |codes|
    && forall i, j | 0 <= i < |w| && 0 <= j < |w| && i != j && w[i] > 0 && w[j] > 0 :: !(codes[i] <= codes[j])
  }

  function Sizes(codes: seq<seq<bit>>): (len: Lengths)
    ensures |len| == |codes| && forall i | 0 <= i < |len| :: len[i] == |codes[i]|
  {
    seq(|codes|, i requires 0 <= i < |codes| => |codes[i]|)
  }

  /** The symbols whose code word starts with b. */
  function Starting(w: Weights, codes: seq<seq<bit>>, b: bit): (r: Weights)
    requires |w| == |codes|
    ensures |r| == |w|
    ensures forall i | 0 <= i < |w| :: r[i] == if codes[i] != [] && codes[i][0] == b then w[i] else 0
  {
    seq(|w|, i requires 0 <= i < |w| => if codes[i] != [] && codes[i][0] == b then w[i] else 0)
  }

  function Tails(codes: seq<seq<bit>>): (r: seq<seq<bit>>)
    ensures |r| == |codes|
    ensures forall i | 0 <= i < |r| :: r[i] == if codes[i] == [] then [] else codes[i][1..]
  {
    seq(|codes|, i requires 0 <= i < |codes| => if codes[i] == [] then [] else codes[i][1..])
  }

  lemma {:induction false} PrefixCodeIsFeasible(w: Weights, codes: seq<seq<bit>>, n: nat)
    requires PrefixFree(w, codes) && Bounded(w, Sizes(codes), n)
    ensures Feasible(w, Sizes(codes), n)
    decreases n
  {
    hide Shares, Sum, PrefixFree;
    if i :| 0 <= i < |w| && w[i] > 0 && codes[i] == [] {
      EmptyAlone(w, codes, n, i);
    } else if n == 0 {
      NoneUsed(w, codes);
    } else {
      SplitPrefixFree(w, codes, 0);
      SplitPrefixFree(w, codes, 1);
      PrefixCodeIsFeasible(Starting(w, codes, 0), Tails(codes), n - 1);
      PrefixCodeIsFeasible(Starting(w, codes, 1), Tails(codes), n - 1);
      SplitShares(w, codes, n);
    }
  }

  /** An empty code word leaves no room for another one. */
  lemma EmptyAlone(w: Weights, codes: seq<seq<bit>>, n: nat, i: nat)
    requires PrefixFree(w, codes) && i < |w| && w[i] > 0 && codes[i] == []
    ensures Sum(Shares(w, Sizes(codes), n)) == Pow2(n)
  {
    var s := Shares(w, Sizes(codes), n);
    forall j | 0 <= j < |w| && j != i ensures s[j] == 0 {
      assert codes[i] <= codes[j];
    }
    SumUpdate(s, i, 0);
    SumZero(s[i := 0]);
  }

  lemma NoneUsed(w: Weights, codes: seq<seq<bit>>)
    requires |w| == |codes| && forall i | 0 <= i < |w| :: w[i] == 0
    ensures Sum(Shares(w, Sizes(codes), 0)) == 0
  {
    SumZero(Shares(w, Sizes(codes), 0));
  }

  lemma SplitShares(w: Weights, codes: seq<seq<bit>>, n: nat)
    requires |w| == |codes| && n >= 1 && Bounded(w, Sizes(codes), n)
    requires forall i | 0 <= i < |w| && w[i] > 0 :: codes[i] != []
    ensures Sum(Shares(w, Sizes(codes), n))
            == Sum(Shares(Starting(w, codes, 0), Sizes(Tails(codes)), n - 1))
               + Sum(Shares(Starting(w, codes, 1), Sizes(Tails(codes)), n - 1))
  {
    SumAdd(Shares(Starting(w, codes, 0), Sizes(Tails(codes)), n - 1),
           Shares(Starting(w, codes, 1), Sizes(Tails(codes)), n - 1),
           Shares(w, Sizes(codes), n));
  }

  lemma SplitPrefixFree(w: Weights, codes: seq<seq<bit>>, b: bit)
    requires PrefixFree(w, codes)
    ensures PrefixFree(Starting(w, codes, b), Tails(codes))
  {
    var r, t := Starting(w, codes, b), Tails(codes);
    forall i, j | 0 <= i < |w| && 0 <= j < |w| && i != j && r[i] > 0 && r[j] > 0 ensures !(t[i] <= t[j]) {
      assert codes[i] == [b] + t[i] && codes[j] == [b] + t[j];
    }
  }

  lemma {:induction false} SumZero(s: seq<int>)
    requires forall i | 0 <= i < |s| :: s[i] == 0
    ensures Sum(s) == 0
  {
    if s != [] {
      SumZero(s[1..]);
    }
  }
}
