/** The tree of Huffman's algorithm as a function of the counts, and how deep it can be. */
module HuffTree {
  import opened Numbers
  import opened HuffCost

  // ----- Symbols with a count -----

  function Indicator(freq: Weights): (s: seq<int>)
    ensures |s| == |freq| && forall i | 0 <= i < |s| :: s[i] == if freq[i] > 0 then 1 else 0
  {
    seq(|freq|, i requires 0 <= i < |freq| => if freq[i] > 0 then 1 else 0)
  }

  /** How many symbols have a count; these are the roots of a forest. */
  function Roots(freq: Weights): (n: int) {
    Sum(Indicator(freq))
  }

  lemma RootsMerged(freq: Weights, a: nat, b: nat)
    requires a < |freq| && b < |freq| && a != b && freq[a] > 0 && freq[b] > 0
    ensures Roots(Merged(freq, a, b)) == Roots(freq) - 1
  {
    var s := Indicator(freq);
    assert Indicator(Merged(freq, a, b)) == s[b := 0];
    SumUpdate(s, b, 0);
  }

  lemma TwoRoots(freq: Weights, a: nat, b: nat)
    requires a < |freq| && b < |freq| && a != b && freq[a] > 0 && freq[b] > 0
    ensures Roots(freq) >= 2
  {
    var s := Indicator(freq);
    SumUpdate(s, a, 0);
    SumAtLeast(s[a := 0], b);
  }

  lemma {:induction false} RootsAtMost(freq: Weights)
    ensures 0 <= Roots(freq) <= |freq|
    decreases |freq|
  {
    if freq != [] {
      assert Indicator(freq)[1..] == Indicator(freq[1..]);
      RootsAtMost(freq[1..]);
    }
  }

  lemma NoRootLeft(freq: Weights, c: int)
    requires forall i | 0 <= i < |freq| && i != c :: freq[i] == 0
    ensures Roots(freq) <= 1
    ensures c == -1 ==> Roots(freq) == 0
  {
    var s := Indicator(freq);
    if 0 <= c < |freq| {
      SumUpdate(s, c, 0);
      SumZero(s[c := 0]);
    } else {
      SumZero(s);
    }
  }

  lemma HasRoot(w: Weights, i: nat)
    requires i < |w| && w[i] > 0
    ensures Roots(w) >= 1
  {
    SumAtLeast(Indicator(w), i);
  }

  lemma SumMerged(freq: Weights, a: nat, b: nat)
    requires a < |freq| && b < |freq| && a != b
    ensures Sum(Merged(freq, a, b)) == Sum(freq)
  {
    hide Sum;
    SumUpdate(freq, a, freq[a] + freq[b]);
    SumUpdate(freq[a := freq[a] + freq[b]], b, 0);
  }

  lemma {:induction false} RootsSplit(freq: Weights, n: nat)
    requires n <= |freq|
    ensures Roots(freq) == Roots(freq[..n]) + Roots(freq[n..])
    decreases n
  {
    if n == 0 {
      assert freq[n..] == freq && Indicator(freq[..n]) == [];
    } else {
      RootsSplit(freq[1..], n - 1);
      assert freq[1..][..n - 1] == freq[1..n] == freq[..n][1..] && freq[1..][n - 1..] == freq[n..];
      assert Indicator(freq)[1..] == Indicator(freq[1..]) && Indicator(freq[..n])[1..] == Indicator(freq[..n][1..]);
    }
  }

  lemma RootsPrefix(freq: Weights, n: nat)
    requires n <= |freq| && forall s | n <= s < |freq| :: freq[s] == 0
    ensures Roots(freq) <= n
  {
    RootsSplit(freq, n);
    RootsAtMost(freq[..n]);
    NoRootLeft(freq[n..], -1);
  }

  /** Only c symbols out of every sixteen have a count. */
  lemma {:induction false} RootsColumns(freq: Weights, k: nat, c: nat)
    requires |freq| == 16 * k && c <= 16 && forall s | 0 <= s < |freq| && s % 16 >= c :: freq[s] == 0
    ensures Roots(freq) <= k * c
    decreases k
  {
    hide Roots;
    if k == 0 {
      RootsAtMost(freq);
    } else {
      RootsSplit(freq, 16);
      RootsPrefix(freq[..16], c);
      RootsColumns(freq[16..], k - 1, c);
      assert k * c == (k - 1) * c + c;
    }
  }

  // ----- The algorithm as a function -----

  /** Among the first n symbols: the largest one with the smallest nonzero count, or -1. */
  function Least(freq: Weights, except: int, n: nat): (c: int)
    requires n <= |freq|
    ensures -1 <= c < n
    ensures c == -1 ==> forall i | 0 <= i < n && i != except :: freq[i] == 0
    ensures c != -1 ==> c != except && freq[c] > 0
                         && forall i | 0 <= i < n && i != except && freq[i] > 0 :: freq[c] <= freq[i]
  {
    if n == 0 then -1
    else
      var c := Least(freq, except, n - 1);
      if n - 1 != except && freq[n - 1] > 0 && (c == -1 || freq[n - 1] <= freq[c]) then n - 1 else c
  }

  lemma LeastStep(freq: Weights, except: int, n: nat)
    requires n < |freq|
    ensures var c := Least(freq, except, n);
            Least(freq, except, n + 1)
            == if freq[n] != 0 && n != except && (c == -1 || freq[n] <= freq[c]) then n else c
  {
  }

  lemma NoneYet(freq: Weights, except: int)
    ensures Least(freq, except, 0) == -1
  {
  }

  function Lowest(freq: Weights): (c: int)
    ensures -1 <= c < |freq| && (c == -1 ==> Roots(freq) == 0) && (c != -1 ==> freq[c] > 0)
  {
    var c := Least(freq, -1, |freq|);
    assert c == -1 ==> Roots(freq) == 0 by { if c == -1 { NoRootLeft(freq, -1); } }
    c
  }

  function NextLowest(freq: Weights): (c: int)
    ensures -1 <= c < |freq| && (c == -1 ==> Roots(freq) <= 1)
    ensures c != -1 ==> Lowest(freq) != -1 && Smallest(freq, Lowest(freq), c)
  {
    var c := Least(freq, Lowest(freq), |freq|);
    assert c == -1 ==> Roots(freq) <= 1 by { if c == -1 { NoRootLeft(freq, Lowest(freq)); } }
    c
  }

  /** How deep each symbol is in the tree that joins the two smallest counts again and again. */
  function TreeDepths(freq: Weights): (d: Lengths)
    ensures |d| == |freq|
    decreases Roots(freq)
  {
    if NextLowest(freq) == -1 then seq(|freq|, _ => 0)
    else
      var a, b := Lowest(freq), NextLowest(freq);
      TwoRoots(freq, a, b);
      RootsMerged(freq, a, b);
      Expanded(TreeDepths(Merged(freq, a, b)), a, b)
  }

  /** Where the symbol a of the joined tree stands for a and b. */
  function Expanded(d: Lengths, a: nat, b: nat): (r: Lengths)
    requires a < |d| && b < |d|
  {
    d[b := d[a] + 1][a := d[a] + 1]
  }

  /** One round, seen from symbol s; t stands for it afterwards. */
  lemma Round(freq: Weights, s: nat) returns (a: nat, b: nat, joined: Weights, t: nat)
    requires s < |freq| && NextLowest(freq) != -1
    ensures a == Lowest(freq) && b == NextLowest(freq) && Smallest(freq, a, b)
    ensures a < |freq| && b < |freq| && a != b && freq[a] > 0 && freq[b] > 0
    ensures joined == Merged(freq, a, b) && Roots(joined) == Roots(freq) - 1 && Roots(freq) >= 2
    ensures t == if s == b then a else s
    ensures TreeDepths(freq)[s] == TreeDepths(joined)[t] + if s == a || s == b then 1 else 0
  {
    a, b := Lowest(freq), NextLowest(freq);
    TwoRoots(freq, a, b);
    RootsMerged(freq, a, b);
    joined := Merged(freq, a, b);
    t := if s == b then a else s;
  }

  lemma UnusedDepth(freq: Weights, s: nat)
    requires s < |freq| && freq[s] == 0
    ensures TreeDepths(freq)[s] == 0
    decreases Roots(freq)
  {
    hide *;
    UnusedStep(freq, s);
    if NextLowest(freq) != -1 {
      UnusedDepth(Merged(freq, Lowest(freq), NextLowest(freq)), s);
    }
  }

  lemma UnusedStep(freq: Weights, s: nat)
    requires s < |freq| && freq[s] == 0
    ensures NextLowest(freq) == -1 ==> TreeDepths(freq)[s] == 0
    ensures NextLowest(freq) != -1 ==>
              var a, b := Lowest(freq), NextLowest(freq);
              && 0 <= a < |freq| && 0 <= b < |freq| && a != b
              && var m := Merged(freq, a, b);
              && 0 <= Roots(m) < Roots(freq) && s < |m| && m[s] == 0 && TreeDepths(freq)[s] == TreeDepths(m)[s]
  {
    if NextLowest(freq) != -1 {
      var a, b := Lowest(freq), NextLowest(freq);
      TwoRoots(freq, a, b);
      RootsMerged(freq, a, b);
      hide Roots, Least;
    }
  }

  // ----- Few symbols -----

  /** No symbol is deeper than there are others. */
  lemma {:induction false} DepthBelowRoots(freq: Weights, s: nat)
    requires s < |freq| && freq[s] > 0
    ensures TreeDepths(freq)[s] <= Roots(freq) - 1
    decreases Roots(freq)
  {
    HasRoot(freq, s);
    if NextLowest(freq) != -1 {
      var a, b := Lowest(freq), NextLowest(freq);
      TwoRoots(freq, a, b);
      RootsMerged(freq, a, b);
      hide Roots, Least;
      DepthBelowRoots(Merged(freq, a, b), if s == b then a else s);
    }
  }

  // ----- Small counts -----

  function Fib(n: nat): (f: nat)
    ensures n >= 1 ==> f >= 1
  {
    if n <= 1 then n else Fib(n - 1) + Fib(n - 2)
  }

  lemma FibStep(n: nat)
    ensures Fib(n + 2) == Fib(n + 1) + Fib(n)
  {
  }

  lemma {:induction false} FibMono(m: nat, n: nat)
    requires 1 <= m <= n
    ensures Fib(m) <= Fib(n)
    decreases n
  {
    if m < n {
      FibMono(m, n - 1);
    }
  }

  /** Subtrees of these heights have grown so far: each weighs as much as its height demands,
      and no other root weighs less than what was joined last in it. */
  ghost predicate Grown(freq: Weights, h: Lengths) {
    && |h| == |freq|
    && (forall r | 0 <= r < |freq| && freq[r] > 0 :: freq[r] >= Fib(h[r] + 2))
    && (forall r, q | 0 <= r < |freq| && 0 <= q < |freq| && r != q && freq[r] > 0 && freq[q] > 0 ::
        freq[q] >= Fib(h[r] + 1))
  }

  lemma GrownJoined(freq: Weights, h: Lengths, a: nat, b: nat) returns (h': Lengths)
    requires Grown(freq, h) && Smallest(freq, a, b)
    ensures Grown(Merged(freq, a, b), h')
    ensures h'[a] >= h[a] + 1 && h'[a] >= h[b] + 1 && forall r | 0 <= r < |h| && r != a :: h'[r] == h[r]
  {
    hide Fib, Grown, Smallest, Merged;
    SmallestRange(freq, h, a, b);
    var x := if h[a] >= h[b] then a else b;
    h' := h[a := h[x] + 1];
    var joined := Merged(freq, a, b);
    forall r | 0 <= r < |freq| && joined[r] > 0 ensures joined[r] >= Fib(h'[r] + 2) {
      JoinedHeavy(freq, h, a, b, x, r);
    }
    forall r, q | 0 <= r < |freq| && 0 <= q < |freq| && r != q && joined[r] > 0 && joined[q] > 0
      ensures joined[q] >= Fib(h'[r] + 1)
    {
      OthersHeavy(freq, h, a, b, x, r, q);
    }
    GrownIs(joined, h');
  }

  lemma SmallestRange(freq: Weights, h: Lengths, a: nat, b: nat)
    requires Grown(freq, h) && Smallest(freq, a, b)
    ensures |h| == |freq| && a < |freq| && b < |freq| && a != b && |Merged(freq, a, b)| == |freq|
  {
  }

  lemma GrownIs(freq: Weights, h: Lengths)
    requires |h| == |freq| && forall r | 0 <= r < |freq| && freq[r] > 0 :: freq[r] >= Fib(h[r] + 2)
    requires forall r, q | 0 <= r < |freq| && 0 <= q < |freq| && r != q && freq[r] > 0 && freq[q] > 0 ::
               freq[q] >= Fib(h[r] + 1)
    ensures Grown(freq, h)
  {
  }

  /** The joined root is at least as heavy as its new height asks for; the others do not change. */
  lemma JoinedHeavy(freq: Weights, h: Lengths, a: nat, b: nat, x: nat, r: nat)
    requires Grown(freq, h) && Smallest(freq, a, b) && x == (if h[a] >= h[b] then a else b) && r < |freq|
    requires Merged(freq, a, b)[r] > 0
    ensures Merged(freq, a, b)[r] >= Fib(if r == a then h[x] + 3 else h[r] + 2)
  {
    FibStep(h[x] + 1);
    hide Fib;
  }

  lemma OthersHeavy(freq: Weights, h: Lengths, a: nat, b: nat, x: nat, r: nat, q: nat)
    requires Grown(freq, h) && Smallest(freq, a, b) && (x == a || x == b) && r < |freq| && q < |freq| && r != q
    requires Merged(freq, a, b)[r] > 0 && Merged(freq, a, b)[q] > 0
    ensures Merged(freq, a, b)[q] >= Fib(if r == a then h[x] + 2 else h[r] + 1)
  {
    hide Fib;
    if r == a {
      assert freq[q] >= freq[x];
    } else {
      assert freq[q] >= Fib(h[r] + 1);
    }
  }

  /** A symbol of depth d needs a total of at least the Fibonacci number of d + 2. */
  lemma {:induction false} DepthNeedsWeight(freq: Weights, h: Lengths, s: nat)
    requires Grown(freq, h) && s < |freq| && freq[s] > 0
    ensures Sum(freq) >= Fib(h[s] + TreeDepths(freq)[s] + 2)
    decreases Roots(freq)
  {
    hide *;
    if NextLowest(freq) == -1 {
      LastRound(freq, h, s);
    } else {
      var a, b, joined, t := Round(freq, s);
      var h' := GrownJoined(freq, h, a, b);
      MergedAt(freq, a, b, t);
      SameSize(freq, h);
      SameSize(joined, h');
      DepthNeedsWeight(joined, h', t);
      SumMerged(freq, a, b);
      FibMono(h[s] + TreeDepths(freq)[s] + 2, h'[t] + TreeDepths(joined)[t] + 2);
    }
  }

  lemma LastRound(freq: Weights, h: Lengths, s: nat)
    requires Grown(freq, h) && s < |freq| && freq[s] > 0 && NextLowest(freq) == -1
    ensures |h| == |freq| && Sum(freq) >= Fib(h[s] + 2) && TreeDepths(freq)[s] == 0
  {
    hide Fib, Sum;
    SumAtLeast(freq, s);
  }

  lemma MergedAt(freq: Weights, a: nat, b: nat, t: nat)
    requires a < |freq| && b < |freq| && a != b && t < |freq|
    ensures |Merged(freq, a, b)| == |freq|
    ensures Merged(freq, a, b)[t] == if t == a then freq[a] + freq[b] else if t == b then 0 else freq[t]
  {
  }

  lemma SameSize(freq: Weights, h: Lengths)
    requires Grown(freq, h)
    ensures |h| == |freq|
  {
  }

  lemma GrownStart(freq: Weights)
    ensures Grown(freq, seq(|freq|, _ => 0))
  {
    assert Fib(1) == Fib(2) == 1;
  }

  /** The depth of the tree is bounded by its total weight. */
  lemma DepthBelowFib(freq: Weights, s: nat, n: nat)
    requires s < |freq| && Sum(freq) < Fib(n + 3)
    ensures TreeDepths(freq)[s] <= n
  {
    hide Fib, Sum, TreeDepths, Grown;
    if freq[s] == 0 {
      UnusedDepth(freq, s);
    } else {
      GrownStart(freq);
      DepthNeedsWeight(freq, seq(|freq|, _ => 0), s);
      var d := TreeDepths(freq)[s];
      if d > n {
        FibMono(n + 3, d + 2);
      }
    }
  }

  // ----- Counts that need the deepest tree -----

  /** How many bits the construction can count. */
  const MAX_CLEN := 32

  /** The smallest total weight of a tree that is deeper. */
  const DEEP_TOTAL := 9227465

  lemma DeepTotal()
    ensures Fib(MAX_CLEN + 3) == DEEP_TOTAL
  {
    assert Fib(2) == 1 && Fib(3) == 2;
    assert Fib(4) == 3 && Fib(5) == 5;
    assert Fib(6) == 8 && Fib(7) == 13;
    assert Fib(8) == 21 && Fib(9) == 34;
    assert Fib(10) == 55 && Fib(11) == 89;
    assert Fib(12) == 144 && Fib(13) == 233;
    assert Fib(14) == 377 && Fib(15) == 610;
    assert Fib(16) == 987 && Fib(17) == 1597;
    assert Fib(18) == 2584 && Fib(19) == 4181;
    assert Fib(20) == 6765 && Fib(21) == 10946;
    assert Fib(22) == 17711 && Fib(23) == 28657;
    assert Fib(24) == 46368 && Fib(25) == 75025;
    assert Fib(26) == 121393 && Fib(27) == 196418;
    assert Fib(28) == 317811 && Fib(29) == 514229;
    assert Fib(30) == 832040 && Fib(31) == 1346269;
    assert Fib(32) == 2178309 && Fib(33) == 3524578;
    assert Fib(34) == 5702887 && Fib(35) == 9227465;
  }

  /** No symbol is deeper than the construction can count. */
  ghost predicate Shallow(freq: Weights) {
    forall s | 0 <= s < |freq| :: TreeDepths(freq)[s] <= MAX_CLEN
  }

  /** Too few symbols, or too small a total, for more than 32 bits. */
  lemma ShallowTree(freq: Weights)
    requires Roots(freq) <= MAX_CLEN + 1 || Sum(freq) < DEEP_TOTAL
    ensures Shallow(freq)
  {
    hide Fib, Sum, TreeDepths, Roots;
    forall s | 0 <= s < |freq| ensures TreeDepths(freq)[s] <= MAX_CLEN {
      if Sum(freq) < DEEP_TOTAL {
        DeepTotal();
        DepthBelowFib(freq, s, MAX_CLEN);
      } else if freq[s] == 0 {
        UnusedDepth(freq, s);
      } else {
        DepthBelowRoots(freq, s);
      }
    }
  }

  /** Where the joined tree is after m rounds. */
  function Top(m: nat): (r: nat)
    requires m <= 33
  {
    if m <= 1 then 256 else 33 - m
  }

  /** Fibonacci counts for the symbols 0 to 32 and the pseudo-symbol, after m rounds. */
  function FibCounts(m: nat): (w: Weights)
    requires m <= 33
    ensures |w| == 257 && forall i | 0 <= i < 257 :: w[i] == FibCount(m, i)
  {
    seq(257, i requires 0 <= i < 257 => FibCount(m, i))
  }

  function FibCount(m: nat, i: nat): (c: nat)
    requires m <= 33
  {
    if i == Top(m) then Fib(m + 2) else if i <= 32 && 32 - i >= m then Fib(33 - i) else 0
  }

  lemma {:induction false} LeastIs(w: Weights, except: int, n: nat, c: nat)
    requires n <= |w| && c < n && c != except && w[c] > 0
    requires forall i | 0 <= i < n && i != except && w[i] > 0 :: w[c] <= w[i]
    requires forall i | c < i < n && i != except && w[i] > 0 :: w[c] < w[i]
    ensures Least(w, except, n) == c
    decreases n
  {
    if c < n - 1 {
      LeastIs(w, except, n - 1, c);
    }
  }

  /** The two symbols that are joined next. */
  function Lower(m: nat): (a: nat)
    requires m < 33
  {
    if m == 0 then 256 else 32 - m
  }

  function Upper(m: nat): (b: nat)
    requires m < 33
  {
    if m == 0 then 32 else Top(m)
  }

  lemma FibOrder(m: nat)
    requires m < 33
    ensures var w := FibCounts(m);
            && w[Lower(m)] == Fib(if m == 0 then 2 else m + 1) && w[Upper(m)] == Fib(if m == 0 then 1 else m + 2)
            && 0 < w[Lower(m)] <= w[Upper(m)] && (m > 0 ==> w[Lower(m)] < w[Upper(m)])
            && forall i | 0 <= i < 257 && i != Lower(m) && i != Upper(m) && w[i] > 0 ::
               i <= 31 - m && w[i] >= w[Upper(m)]
  {
    SmallFib();
    FibStep(m);
    hide Fib;
    var w := FibCounts(m);
    forall i | 0 <= i <= 31 - m ensures w[i] >= Fib(m + 2) {
      FibMono(m + 2, 33 - i);
    }
    assert m > 0 ==> Fib(m) >= 1;
  }

  lemma FibPick(m: nat)
    requires m < 33
    ensures Lowest(FibCounts(m)) == Lower(m) && NextLowest(FibCounts(m)) == Upper(m)
  {
    hide Fib, FibCounts, Least;
    FibOrder(m);
    LeastIs(FibCounts(m), -1, 257, Lower(m));
    LeastIs(FibCounts(m), Lower(m), 257, Upper(m));
  }

  lemma FibMerged(m: nat)
    requires m < 33
    ensures Merged(FibCounts(m), Lower(m), Upper(m)) == FibCounts(m + 1)
  {
    hide FibCount, FibCounts;
    var w, a, b := FibCounts(m), Lower(m), Upper(m);
    forall i | 0 <= i < 257 ensures Merged(w, a, b)[i] == FibCount(m + 1, i) {
      FibMergedAt(m, i);
    }
  }

  lemma FibMergedAt(m: nat, i: nat)
    requires m < 33 && i < 257
    ensures FibCount(m + 1, i)
            == if i == Lower(m) then FibCount(m, Lower(m)) + FibCount(m, Upper(m))
               else if i == Upper(m) then 0 else FibCount(m, i)
  {
    hide Fib;
    FibStep(m + 1);
    SmallFib();
  }

  lemma SmallFib()
    ensures Fib(0) == 0 && Fib(1) == 1 && Fib(2) == 1 && Fib(3) == 2
  {
  }

  lemma {:induction false} FibTree(m: nat)
    requires m <= 33
    ensures TreeDepths(FibCounts(m))[Top(m)] == 33 - m
    ensures Sum(FibCounts(m)) == Fib(35) && Roots(FibCounts(m)) == 34 - m
    decreases 33 - m
  {
    hide Fib, Sum, FibCounts, Least, Roots, Lowest, NextLowest, TreeDepths, Merged, Smallest;
    if m == 33 {
      LastFib();
    } else {
      FibPick(m);
      FibMerged(m);
      FibTree(m + 1);
      var a, b, joined, t := Round(FibCounts(m), Top(m));
      SumMerged(FibCounts(m), a, b);
    }
  }

  lemma LastFib()
    ensures Sum(FibCounts(33)) == Fib(35) && Roots(FibCounts(33)) == 1 && TreeDepths(FibCounts(33))[0] == 0
  {
    hide Fib, Sum, Roots, TreeDepths;
    OneLeft(FibCounts(33));
  }

  lemma OneLeft(w: Weights)
    requires w != [] && w[0] > 0 && forall i | 1 <= i < |w| :: w[i] == 0
    ensures Sum(w) == w[0] && Roots(w) == 1 && TreeDepths(w)[0] == 0
  {
    hide Sum, Roots, TreeDepths;
    SumUpdate(w, 0, 0);
    SumZero(w[0 := 0]);
    NoRootLeft(w, 0);
    HasRoot(w, 0);
    DepthBelowRoots(w, 0);
  }

  /** Neither bound can be raised: 33 symbols with just that total are refused. */
  lemma DeepCounts()
    ensures Sum(FibCounts(0)) == DEEP_TOTAL && Roots(FibCounts(0)) == MAX_CLEN + 2
    ensures FibCounts(0)[256] == 1 && !Shallow(FibCounts(0))
  {
    hide Fib, Sum, Roots, TreeDepths;
    FibTree(0);
    DeepTotal();
    SmallFib();
    assert TreeDepths(FibCounts(0))[256] == 33;
  }
}
