/** The pseudo-symbol, which has the smallest count and the largest number, gets one of the longest codes. */
module HuffDeepest {
  import opened Numbers
  import opened HuffCost
  import opened HuffTree

  /** The root p is taken before q: it is lighter, or as heavy and has the larger number. */
  ghost predicate Earlier(freq: Weights, p: nat, q: nat)
    requires p < |freq| && q < |freq|
  {
    freq[p] < freq[q] || (freq[p] == freq[q] && p > q)
  }

  lemma {:induction false} LeastEarlier(freq: Weights, except: int, n: nat)
    requires n <= |freq|
    ensures var c := Least(freq, except, n);
            c != -1 ==> forall i | 0 <= i < n && i != except && i != c && freq[i] > 0 :: Earlier(freq, c, i)
  {
    if n > 0 {
      LeastEarlier(freq, except, n - 1);
    }
  }

  /** Of the two roots that are joined, each is taken before all that are left. */
  lemma TakenFirst(freq: Weights, a: nat, b: nat)
    requires NextLowest(freq) != -1 && a == Lowest(freq) && b == NextLowest(freq)
    ensures a < |freq| && b < |freq| && a != b && Earlier(freq, a, b)
    ensures forall q | 0 <= q < |freq| && q != a && q != b && freq[q] > 0 :: Earlier(freq, a, q) && Earlier(freq, b, q)
  {
    LeastEarlier(freq, -1, |freq|);
    LeastEarlier(freq, Lowest(freq), |freq|);
    hide Least, Roots;
  }

  /** No other tree is higher than the one with root x, those that are as high are taken after it, and so is
      whatever two others make together. */
  ghost predicate Leading(freq: Weights, h: Lengths, x: nat) {
    && |h| == |freq| && x < |freq| && freq[x] > 0
    && (forall q | 0 <= q < |freq| && q != x && freq[q] > 0 :: h[q] <= h[x] && (h[q] == h[x] ==> Earlier(freq, x, q)))
    && (forall p, q | 0 <= p < |freq| && 0 <= q < |freq| && p != q && p != x && q != x && freq[p] > 0 && freq[q] > 0 ::
          PairLater(freq, x, p, q))
  }

  ghost predicate PairLater(freq: Weights, x: nat, p: nat, q: nat)
    requires x < |freq| && p < |freq| && q < |freq|
  {
    freq[p] + freq[q] > freq[x] || (freq[p] + freq[q] == freq[x] && p < x && q < x)
  }

  /** The heights after two trees have been joined. */
  function Higher(h: Lengths, a: nat, b: nat): (r: Lengths)
    requires a < |h| && b < |h|
  {
    h[a := 1 + if h[a] >= h[b] then h[a] else h[b]]
  }

  lemma LeadJoined(freq: Weights, h: Lengths, x: nat, a: nat, b: nat)
    requires Leading(freq, h, x) && NextLowest(freq) != -1 && a == Lowest(freq) && b == NextLowest(freq)
    requires (x == a || x == b) && a < |freq| && b < |freq| && a != b && freq[a] > 0 && freq[b] > 0
    ensures Leading(Merged(freq, a, b), Higher(h, a, b), a) && Higher(h, a, b)[a] == h[x] + 1
  {
    TakenFirst(freq, a, b);
    hide NextLowest, Lowest;
    var joined, h' := Merged(freq, a, b), Higher(h, a, b);
    forall p, q | 0 <= p < |freq| && 0 <= q < |freq| && p != q && p != a && q != a && joined[p] > 0 && joined[q] > 0
      ensures PairLater(joined, a, p, q)
    {
      assert Earlier(freq, b, p) && Earlier(freq, b, q) && Earlier(freq, a, p) && Earlier(freq, a, q);
    }
  }

  lemma LeadLeft(freq: Weights, h: Lengths, x: nat, a: nat, b: nat)
    requires Leading(freq, h, x) && NextLowest(freq) != -1 && a == Lowest(freq) && b == NextLowest(freq)
    requires x != a && x != b && a < |freq| && b < |freq| && a != b && freq[a] > 0 && freq[b] > 0
    ensures Leading(Merged(freq, a, b), Higher(h, a, b), x)
    ensures Higher(h, a, b)[x] == h[x]
  {
    TakenFirst(freq, a, b);
    hide NextLowest, Lowest;
    assert PairLater(freq, x, a, b);
    assert Earlier(freq, a, x) && Earlier(freq, b, x);
    var joined, h' := Merged(freq, a, b), Higher(h, a, b);
    forall p, q | 0 <= p < |freq| && 0 <= q < |freq| && p != q && p != x && q != x && joined[p] > 0 && joined[q] > 0
      ensures PairLater(joined, x, p, q)
    {
      assert PairLater(freq, x, p, q);
    }
  }

  /** Whatever stands in the trees so far, nothing ends up deeper than the leading one. */
  lemma {:induction false} LeadDeepest(freq: Weights, h: Lengths, x: nat, s: nat)
    requires Leading(freq, h, x) && s < |freq| && freq[s] > 0
    ensures TreeDepths(freq)[s] + h[s] <= TreeDepths(freq)[x] + h[x]
    decreases Roots(freq)
  {
    if NextLowest(freq) != -1 {
      var a, b, joined, t := Round(freq, s);
      var _, _, _, y := Round(freq, x);
      hide TreeDepths, NextLowest, Lowest, Roots;
      if x == a || x == b {
        LeadJoined(freq, h, x, a, b);
      } else {
        LeadLeft(freq, h, x, a, b);
      }
      LeadDeepest(joined, Higher(h, a, b), y, t);
    } else {
      OneRoot(freq, x, s);
    }
  }

  lemma OneRoot(freq: Weights, x: nat, s: nat)
    requires NextLowest(freq) == -1 && x < |freq| && s < |freq| && freq[x] > 0 && freq[s] > 0
    ensures x == s
  {
    if x != s {
      TwoRoots(freq, x, s);
    }
  }

  /** The last symbol, if it has the smallest count that there can be, is among the deepest. */
  lemma PseudoDeepest(w: Weights)
    requires w != [] && w[|w| - 1] == 1
    ensures forall s | 0 <= s < |w| :: TreeDepths(w)[s] <= TreeDepths(w)[|w| - 1]
  {
    var x := |w| - 1;
    var h: Lengths := seq(|w|, _ => 0);
    forall s | 0 <= s < |w| ensures TreeDepths(w)[s] <= TreeDepths(w)[x] {
      if w[s] > 0 {
        LeadDeepest(w, h, x, s);
      } else {
        UnusedDepth(w, s);
      }
    }
  }
}
