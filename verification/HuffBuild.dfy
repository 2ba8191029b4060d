/** Huffman's algorithm on arrays: the symbols of each subtree are chained, and a merge
    makes every symbol in two chains one bit longer. */
module HuffBuild {
  import opened Numbers
  import opened HuffCost
  import opened HuffTree

  const SEARCH_LIMIT := 1000000000

  // ----- Chains of symbols -----

  ghost predicate Linked(chain: seq<nat>, others: seq<int>) {
    && (forall j | 0 <= j < |chain| :: chain[j] < |others|)
    && (forall j | 0 <= j < |chain| :: others[chain[j]] == if j + 1 < |chain| then chain[j + 1] else -1)
  }

  lemma LinkAt(chain: seq<nat>, others: seq<int>, j: nat)
    requires Linked(chain, others) && j < |chain|
    ensures chain[j] < |others|
    ensures others[chain[j]] == if j + 1 < |chain| then chain[j + 1] else -1
  {
  }

  ghost predicate NoRepeats(chain: seq<nat>) {
    forall i, j | 0 <= i < j < |chain| :: chain[i] != chain[j]
  }

  ghost predicate Apart(c: seq<nat>, d: seq<nat>) {
    forall i, j | 0 <= i < |c| && 0 <= j < |d| :: c[i] != d[j]
  }

  /** The sum of the values of the symbols in a chain. */
  ghost function ChainSum(chain: seq<nat>, vals: seq<int>): (n: int)
    requires forall j | 0 <= j < |chain| :: chain[j] < |vals|
  {
    if chain == [] then 0 else vals[chain[0]] + ChainSum(chain[1..], vals)
  }

  lemma {:induction false} ChainSumAppend(c: seq<nat>, d: seq<nat>, vals: seq<int>)
    requires forall j | 0 <= j < |c| :: c[j] < |vals|
    requires forall j | 0 <= j < |d| :: d[j] < |vals|
    ensures ChainSum(c + d, vals) == ChainSum(c, vals) + ChainSum(d, vals)
  {
    if c == [] {
      assert c + d == d;
    } else {
      assert (c + d)[1..] == c[1..] + d;
      ChainSumAppend(c[1..], d, vals);
    }
  }

  lemma {:induction false} ChainSumSame(chain: seq<nat>, s: seq<int>, t: seq<int>)
    requires |s| == |t| && forall j | 0 <= j < |chain| :: chain[j] < |s| && s[chain[j]] == t[chain[j]]
    ensures ChainSum(chain, s) == ChainSum(chain, t)
  {
    if chain != [] {
      ChainSumSame(chain[1..], s, t);
    }
  }

  lemma {:induction false} ChainSumHalf(chain: seq<nat>, s: seq<int>, t: seq<int>)
    requires |s| == |t| && forall j | 0 <= j < |chain| :: chain[j] < |s| && s[chain[j]] == 2 * t[chain[j]]
    ensures ChainSum(chain, s) == 2 * ChainSum(chain, t)
  {
    if chain != [] {
      ChainSumHalf(chain[1..], s, t);
    }
  }

  /** Only the symbols of the chain change the whole sum. */
  lemma TailOutside(chain: seq<nat>, s: seq<int>, t: seq<int>)
    requires |s| == |t| && chain != [] && chain[0] < |s| && forall i | 0 <= i < |s| && i !in chain :: s[i] == t[i]
    ensures forall i | 0 <= i < |s| && i !in chain[1..] :: s[chain[0] := t[chain[0]]][i] == t[i]
  {
    forall i | 0 <= i < |s| && i !in chain[1..] && i != chain[0] ensures i !in chain {
      assert chain == [chain[0]] + chain[1..];
    }
  }

  lemma {:induction false} SumChange(chain: seq<nat>, s: seq<int>, t: seq<int>)
    requires |s| == |t| && NoRepeats(chain) && forall j | 0 <= j < |chain| :: chain[j] < |s|
    requires forall i | 0 <= i < |s| && i !in chain :: s[i] == t[i]
    ensures Sum(t) - Sum(s) == ChainSum(chain, t) - ChainSum(chain, s)
  {
    if chain == [] {
      assert s == t;
    } else {
      hide Sum;
      var c := chain[0];
      var mid := s[c := t[c]];
      SumUpdate(s, c, t[c]);
      TailOutside(chain, s, t);
      SumChange(chain[1..], mid, t);
      ChainSumSame(chain[1..], mid, s);
    }
  }

  // ----- The forest -----

  /** The chains of the roots (the symbols whose frequency is not zero). */
  ghost predicate Forest(w: Weights, freq: Weights, others: seq<int>, chains: seq<seq<nat>>) {
    && |w| == |freq| == |others| == |chains|
    && (forall r | 0 <= r < |chains| :: Linked(chains[r], others) && NoRepeats(chains[r]))
    && (forall r | 0 <= r < |chains| :: if freq[r] > 0 then chains[r] != [] && chains[r][0] == r else chains[r] == [])
    && (forall r, q | 0 <= r < q < |chains| :: Apart(chains[r], chains[q]))
    && (forall r, j | 0 <= r < |chains| && 0 <= j < |chains[r]| :: w[chains[r][j]] > 0)
  }

  /** Each root carries the weight of its chain, and each subtree is a full one. */
  ghost predicate Balanced(w: Weights, freq: Weights, len: Lengths, n: nat, chains: seq<seq<nat>>) {
    && |w| == |freq| == |len| == |chains|
    && (forall r, j | 0 <= r < |chains| && 0 <= j < |chains[r]| :: chains[r][j] < |w|)
    && (forall r | 0 <= r < |chains| && freq[r] > 0 ::
          ChainSum(chains[r], w) == freq[r] && ChainSum(chains[r], Shares(w, len, n)) == Pow2(n))
  }

  /** No lengths for the symbols beat what is built so far plus some lengths for the roots. */
  ghost predicate NotBeaten(w: Weights, freq: Weights, len: Lengths)
    requires |w| == |freq| == |len|
  {
    forall other: Lengths, n: nat | |other| == |w| && Feasible(w, other, n) :: Completes(w, freq, len, other, n)
  }

  ghost predicate Completes(w: Weights, freq: Weights, len: Lengths, other: Lengths, n: nat)
    requires |w| == |freq| == |len| == |other|
  {
    exists r: Lengths :: |r| == |w| && Feasible(freq, r, n) && Cost(freq, r) + Cost(w, len) <= Cost(w, other)
  }

  lemma NotBeatenMerged(w: Weights, freq: Weights, len: Lengths, len': Lengths, a: nat, b: nat)
    requires |w| == |freq| == |len| == |len'|
    requires NotBeaten(w, freq, len) && Smallest(freq, a, b)
    requires Cost(w, len') == Cost(w, len) + freq[a] + freq[b]
    ensures NotBeaten(w, Merged(freq, a, b), len')
  {
    hide Cost, Feasible;
    forall other: Lengths, n: nat | |other| == |w| && Feasible(w, other, n)
      ensures Completes(w, Merged(freq, a, b), len', other, n)
    {
      assert Completes(w, freq, len, other, n);
      var r: Lengths :| |r| == |w| && Feasible(freq, r, n) && Cost(freq, r) + Cost(w, len) <= Cost(w, other);
      var r' := MergeIsOptimal(freq, r, n, a, b);
      FeasibleSize(Merged(freq, a, b), r', n);
    }
  }

  lemma FeasibleSize(w: Weights, len: Lengths, n: nat)
    requires Feasible(w, len, n)
    ensures |len| == |w|
  {
  }

  // ----- The algorithm -----

  /** The largest symbol among those with the smallest nonzero frequency, or -1. */
  method FindSmallest(freq: array<nat>, except: int) returns (c: int)
    requires forall i | 0 <= i < freq.Length :: freq[i] <= SEARCH_LIMIT
    ensures -1 <= c < freq.Length
    ensures c == -1 ==> forall i | 0 <= i < freq.Length && i != except :: freq[i] == 0
    ensures c != -1 ==>
              && c != except && freq[c] > 0
              && (forall i | 0 <= i < freq.Length && i != except && freq[i] > 0 :: freq[c] <= freq[i])
              && (forall i | c < i < freq.Length && i != except && freq[i] > 0 :: freq[c] < freq[i])
    ensures c == Least(freq[..], except, freq.Length)
  {
    hide Least;
    c := -1;
    var v := SEARCH_LIMIT;
    NoneYet(freq[..], except);
    for i := 0 to freq.Length
      invariant -1 <= c < i && c == Least(freq[..], except, i)
      invariant c == -1 ==> v == SEARCH_LIMIT && forall j | 0 <= j < i && j != except :: freq[j] == 0
      invariant c != -1 ==>
                  && c != except && freq[c] > 0 && v == freq[c]
                  && (forall j | 0 <= j < i && j != except && freq[j] > 0 :: freq[c] <= freq[j])
                  && (forall j | c < j < i && j != except && freq[j] > 0 :: freq[c] < freq[j])
    {
      LeastStep(freq[..], except, i);
      if freq[i] != 0 && freq[i] <= v && i != except {
        v := freq[i];
        c := i;
      }
    }
  }

  /** Makes everything in a branch of the tree one bit longer; returns its last symbol. */
  method IncrementBranch(codesize: array<nat>, others: array<int>, c0: nat, ghost chain: seq<nat>) returns (c: nat)
    requires codesize.Length == others.Length && codesize as object != others as object
    requires chain != [] && chain[0] == c0 && Linked(chain, others[..]) && NoRepeats(chain)
    modifies codesize
    ensures c == chain[|chain| - 1]
    ensures forall s | 0 <= s < codesize.Length ::
              codesize[s] == old(codesize[s]) + if s in chain then 1 else 0
  {
    c := c0;
    ghost var j, links := 0, others[..];
    codesize[c] := codesize[c] + 1;
    while others[c] >= 0
      invariant others[..] == links && 0 <= j < |chain| && c == chain[j]
      invariant forall s | 0 <= s < codesize.Length ::
                  codesize[s] == old(codesize[s]) + if s in chain[..j + 1] then 1 else 0
      decreases |chain| - j
    {
      assert others[c] == links[c];
      LinkAt(chain, links, j);
      c := others[c];
      j := j + 1;
      assert c !in chain[..j];
      assert chain[..j + 1] == chain[..j] + [c];
      codesize[c] := codesize[c] + 1;
    }
    assert others[c] == links[c];
    LinkAt(chain, links, j);
    assert chain[..j + 1] == chain;
  }

  // ----- One merge keeps the forest -----

  function Joined(chains: seq<seq<nat>>, a: nat, b: nat): (r: seq<seq<nat>>)
    requires a < |chains| && b < |chains| && a != b
    ensures |r| == |chains|
  {
    chains[a := chains[a] + chains[b]][b := []]
  }

  lemma LinkedJoined(c: seq<nat>, d: seq<nat>, others: seq<int>, b: nat)
    requires Linked(c, others) && Linked(d, others) && NoRepeats(c) && Apart(c, d)
    requires c != [] && d != [] && d[0] == b
    ensures c[|c| - 1] < |others| && Linked(c + d, others[c[|c| - 1] := b])
  {
    LinkAt(c, others, |c| - 1);
    var last := c[|c| - 1];
    var next := others[last := b];
    forall j | 0 <= j < |c + d|
      ensures (c + d)[j] < |next|
      ensures next[(c + d)[j]] == if j + 1 < |c + d| then (c + d)[j + 1] else -1
    {
      if j < |c| - 1 {
        LinkAt(c, others, j);
        assert c[j] != c[|c| - 1];
      } else if j >= |c| {
        LinkAt(d, others, j - |c|);
        assert c[|c| - 1] != d[j - |c|];
      }
    }
  }

  lemma LinkedElsewhere(e: seq<nat>, c: seq<nat>, others: seq<int>, b: nat)
    requires Linked(e, others) && Linked(c, others) && Apart(e, c) && c != []
    ensures c[|c| - 1] < |others| && Linked(e, others[c[|c| - 1] := b])
  {
    LinkAt(c, others, |c| - 1);
    forall j | 0 <= j < |e| ensures e[j] != c[|c| - 1] {
    }
  }

  lemma ForestJoined(w: Weights, freq: Weights, others: seq<int>, chains: seq<seq<nat>>, a: nat, b: nat)
    requires Forest(w, freq, others, chains)
    requires a < |freq| && b < |freq| && a != b && freq[a] > 0 && freq[b] > 0
    ensures var last := chains[a][|chains[a]| - 1];
            last < |others| && Forest(w, Merged(freq, a, b), others[last := b], Joined(chains, a, b))
  {
    hide Linked, NoRepeats, Apart;
    var c, d := chains[a], chains[b];
    TwoChains(w, freq, others, chains, a, b);
    var next := others[c[|c| - 1] := b];
    LinkedJoined(c, d, others, b);
    NoRepeatsJoined(c, d);
    forall r | 0 <= r < |chains| && r != a && r != b ensures Linked(chains[r], next) {
      TwoChains(w, freq, others, chains, r, a);
      LinkedElsewhere(chains[r], c, others, b);
    }
    EmptyChain(next);
    ApartJoined(chains, a, b);
  }

  lemma TwoChains(w: Weights, freq: Weights, others: seq<int>, chains: seq<seq<nat>>, a: nat, b: nat)
    requires Forest(w, freq, others, chains) && a < |freq| && b < |freq| && a != b
    ensures |chains| == |others| == |freq| && Apart(chains[a], chains[b])
    ensures Linked(chains[a], others) && NoRepeats(chains[a]) && Linked(chains[b], others) && NoRepeats(chains[b])
    ensures freq[a] > 0 ==> chains[a] != [] && chains[a][0] == a && chains[a][|chains[a]| - 1] < |others|
    ensures freq[b] > 0 ==> chains[b] != [] && chains[b][0] == b
  {
    assert a < b ==> Apart(chains[a], chains[b]);
    assert b < a ==> Apart(chains[b], chains[a]);
  }

  lemma EmptyChain(others: seq<int>)
    ensures Linked([], others) && NoRepeats([])
  {
  }

  lemma NoRepeatsJoined(c: seq<nat>, d: seq<nat>)
    requires NoRepeats(c) && NoRepeats(d) && Apart(c, d)
    ensures NoRepeats(c + d)
  {
  }

  lemma ApartJoined(chains: seq<seq<nat>>, a: nat, b: nat)
    requires a < |chains| && b < |chains| && a != b
    requires forall r, q | 0 <= r < q < |chains| :: Apart(chains[r], chains[q])
    ensures var joined := Joined(chains, a, b); forall r, q | 0 <= r < q < |chains| :: Apart(joined[r], joined[q])
  {
    var joined := Joined(chains, a, b);
    forall r, q | 0 <= r < q < |chains| ensures Apart(joined[r], joined[q]) {
      forall i, j | 0 <= i < |joined[r]| && 0 <= j < |joined[q]| ensures joined[r][i] != joined[q][j] {
        var r0 := if r == a && i >= |chains[a]| then b else r;
        var q0 := if q == a && j >= |chains[a]| then b else q;
        assert r0 < q0 ==> Apart(chains[r0], chains[q0]);
        assert q0 < r0 ==> Apart(chains[q0], chains[r0]);
      }
    }
  }

  // ----- One merge keeps the accounts -----

  lemma {:induction false} ChainSumPlus(chain: seq<nat>, s: seq<int>, t: seq<int>, d: seq<int>)
    requires |s| == |t| == |d|
    requires forall j | 0 <= j < |chain| :: chain[j] < |s| && t[chain[j]] == s[chain[j]] + d[chain[j]]
    ensures ChainSum(chain, t) == ChainSum(chain, s) + ChainSum(chain, d)
  {
    if chain != [] {
      ChainSumPlus(chain[1..], s, t, d);
    }
  }

  /** Every symbol of the chain is one bit longer. */
  ghost predicate Longer(len: Lengths, len': Lengths, chain: seq<nat>) {
    |len| == |len'| && forall s | 0 <= s < |len| :: len'[s] == len[s] + if s in chain then 1 else 0
  }

  lemma TimesSuccessor(x: int, y: int)
    ensures x * (y + 1) == x * y + x
  {
  }

  lemma LongerCost(w: Weights, len: Lengths, len': Lengths, chain: seq<nat>)
    requires |w| == |len| && Longer(len, len', chain) && NoRepeats(chain)
    requires forall j | 0 <= j < |chain| :: chain[j] < |w|
    ensures Cost(w, len') == Cost(w, len) + ChainSum(chain, w)
  {
    var s, t := Costs(w, len), Costs(w, len');
    forall i | 0 <= i < |w| ensures t[i] == s[i] + (if i in chain then w[i] else 0) {
      if i in chain {
        TimesSuccessor(w[i], len[i]);
      }
    }
    SumChange(chain, s, t);
    ChainSumPlus(chain, s, t, w);
  }

  lemma LongerShares(w: Weights, len: Lengths, len': Lengths, n: nat, chain: seq<nat>)
    requires |w| == |len| && Longer(len, len', chain) && NoRepeats(chain)
    requires forall j | 0 <= j < |chain| :: chain[j] < |w| && w[chain[j]] > 0 && len[chain[j]] < n
    ensures ChainSum(chain, Shares(w, len, n)) == 2 * ChainSum(chain, Shares(w, len', n))
    ensures Sum(Shares(w, len', n)) == Sum(Shares(w, len, n)) - ChainSum(chain, Shares(w, len', n))
  {
    var s, t := Shares(w, len, n), Shares(w, len', n);
    forall j | 0 <= j < |chain| ensures s[chain[j]] == 2 * t[chain[j]] {
      var c := chain[j];
      assert c in chain;
      assert Pow2(n - len[c]) == 2 * Pow2(n - len[c] - 1);
    }
    ChainSumHalf(chain, s, t);
    SumChange(chain, s, t);
  }

  lemma SharesElsewhere(w: Weights, len: Lengths, len': Lengths, n: nat, chain: seq<nat>, e: seq<nat>)
    requires |w| == |len| && Longer(len, len', chain) && Apart(e, chain)
    requires forall j | 0 <= j < |e| :: e[j] < |w|
    ensures ChainSum(e, Shares(w, len', n)) == ChainSum(e, Shares(w, len, n))
  {
    forall j | 0 <= j < |e| ensures e[j] !in chain {
    }
    ChainSumSame(e, Shares(w, len', n), Shares(w, len, n));
  }

  lemma BalancedJoined(w: Weights, freq: Weights, others: seq<int>, chains: seq<seq<nat>>,
                       len: Lengths, len': Lengths, n: nat, a: nat, b: nat)
    requires Forest(w, freq, others, chains) && Balanced(w, freq, len, n, chains)
    requires a < |freq| && b < |freq| && a != b && freq[a] > 0 && freq[b] > 0
    requires |len'| == |len| && Longer(len, len', chains[a] + chains[b])
    requires forall i | 0 <= i < |len| :: len[i] < n
    ensures Balanced(w, Merged(freq, a, b), len', n, Joined(chains, a, b))
    ensures Cost(w, len') == Cost(w, len) + freq[a] + freq[b]
    ensures Sum(Shares(w, len', n)) == Sum(Shares(w, len, n)) - Pow2(n)
  {
    hide Sum, ChainSum, Cost, Linked, Longer, Shares, Pow2;
    var c, d := chains[a], chains[b];
    assert Apart(c, d) by {
      assert a < b ==> Apart(chains[a], chains[b]);
      assert b < a ==> Apart(chains[b], chains[a]);
    }
    var chain := c + d;
    assert NoRepeats(chain);
    ChainSumAppend(c, d, w);
    ChainSumAppend(c, d, Shares(w, len, n));
    LongerCost(w, len, len', chain);
    LongerShares(w, len, len', n, chain);
    forall r | 0 <= r < |freq| && r != a && r != b && freq[r] > 0
      ensures ChainSum(chains[r], Shares(w, len', n)) == Pow2(n)
    {
      assert Apart(chains[r], c) by {
        assert r < a ==> Apart(chains[r], chains[a]);
        assert a < r ==> Apart(chains[a], chains[r]);
      }
      assert Apart(chains[r], d) by {
        assert r < b ==> Apart(chains[r], chains[b]);
        assert b < r ==> Apart(chains[b], chains[r]);
      }
      SharesElsewhere(w, len, len', n, chain, chains[r]);
    }
  }

  // ----- The shape of the tree -----

  /** The root of the chain that each symbol is in. */
  ghost predicate Rooted(w: Weights, chains: seq<seq<nat>>, root: seq<nat>) {
    |w| == |chains| == |root| && forall s | 0 <= s < |w| && w[s] > 0 :: root[s] < |chains| && s in chains[root[s]]
  }

  /** What each symbol has in length and its root will still gain is its depth in the whole tree. */
  ghost predicate OnTheWay(w: Weights, freq: Weights, len: Lengths, root: seq<nat>) {
    && |w| == |freq| == |len| == |root|
    && forall s | 0 <= s < |w| && w[s] > 0 :: root[s] < |freq| && len[s] + TreeDepths(freq)[root[s]] == TreeDepths(w)[s]
  }

  function NewRoots(root: seq<nat>, a: nat, b: nat): (r: seq<nat>)
    ensures |r| == |root| && forall s | 0 <= s < |r| :: r[s] == if root[s] == b then a else root[s]
  {
    seq(|root|, s requires 0 <= s < |root| => if root[s] == b then a else root[s])
  }

  lemma RootedStart(w: Weights, chains: seq<seq<nat>>, len: Lengths)
    requires |w| == |chains| == |len| && forall i | 0 <= i < |w| :: len[i] == 0
    requires forall i | 0 <= i < |w| :: chains[i] == if w[i] > 0 then [i] else []
    ensures var root := seq(|w|, s => s); Rooted(w, chains, root) && OnTheWay(w, w, len, root)
  {
  }

  lemma RootedJoined(w: Weights, chains: seq<seq<nat>>, root: seq<nat>, a: nat, b: nat)
    requires Rooted(w, chains, root) && a < |chains| && b < |chains| && a != b
    ensures Rooted(w, Joined(chains, a, b), NewRoots(root, a, b))
  {
  }

  lemma JoinedSymbols(w: Weights, chains: seq<seq<nat>>, root: seq<nat>, a: nat, b: nat)
    requires forall x, y | 0 <= x < y < |chains| :: Apart(chains[x], chains[y])
    requires Rooted(w, chains, root) && a < |chains| && b < |chains| && a != b
    ensures forall s | 0 <= s < |w| && w[s] > 0 :: s in chains[a] + chains[b] <==> root[s] == a || root[s] == b
  {
    hide Apart;
    forall s | 0 <= s < |w| && w[s] > 0
      ensures s in chains[a] + chains[b] <==> root[s] == a || root[s] == b
    {
      if s in chains[a] {
        InOneChain(chains, s, root[s], a);
      } else if s in chains[b] {
        InOneChain(chains, s, root[s], b);
      }
    }
  }

  lemma InOneChain(chains: seq<seq<nat>>, s: nat, r: nat, q: nat)
    requires forall x, y | 0 <= x < y < |chains| :: Apart(chains[x], chains[y])
    requires r < |chains| && q < |chains| && s in chains[r] && s in chains[q]
    ensures r == q
  {
  }

  /** A round adds to the lengths what it takes off the depths of the roots. */
  lemma StillOnTheWay(w: Weights, freq: Weights, chains: seq<seq<nat>>, len: Lengths, len': Lengths, root: seq<nat>,
                      a: nat, b: nat)
    requires |chains| == |w| && OnTheWay(w, freq, len, root) && a == Lowest(freq) && b == NextLowest(freq) && a != b
    requires forall s | 0 <= s < |w| && w[s] > 0 :: s in chains[a] + chains[b] <==> root[s] == a || root[s] == b
    requires Longer(len, len', chains[a] + chains[b])
    ensures OnTheWay(w, Merged(freq, a, b), len', NewRoots(root, a, b))
  {
    hide Lowest, NextLowest, TreeDepths;
    forall s | 0 <= s < |w| && w[s] > 0
      ensures NewRoots(root, a, b)[s] < |w|
      ensures len'[s] + TreeDepths(Merged(freq, a, b))[NewRoots(root, a, b)[s]] == TreeDepths(w)[s]
    {
      var a', b', joined, t := Round(freq, root[s]);
    }
  }

  /** One root is left, and nothing more to gain. */
  lemma Arrived(w: Weights, freq: Weights, len: Lengths, root: seq<nat>)
    requires OnTheWay(w, freq, len, root) && NextLowest(freq) == -1
    requires FullTree(w, len)
    ensures len == TreeDepths(w)
  {
    hide Lowest, NextLowest, Sum, Shares, Pow2;
    assert TreeDepths(freq) == seq(|freq|, _ => 0);
    hide TreeDepths;
    forall s | 0 <= s < |w| ensures len[s] == TreeDepths(w)[s] {
      if w[s] == 0 {
        UnusedDepth(w, s);
      }
    }
  }

  // ----- The construction -----

  /** The Kraft sum of all symbols is the number of subtrees. */
  ghost predicate KraftMatches(w: Weights, freq: Weights, len: Lengths, n: nat)
    requires |w| == |len|
  {
    Sum(Shares(w, len, n)) == Roots(freq) * Pow2(n)
  }

  /** Everything that holds between merges. */
  ghost predicate Building(w: Weights, freq: Weights, others: seq<int>, chains: seq<seq<nat>>, len: Lengths, n: nat,
                           merges: nat) {
    && |w| == |freq| == |others| == |chains| == |len|
    && Forest(w, freq, others, chains)
    && Balanced(w, freq, len, n, chains)
    && NotBeaten(w, freq, len)
    && KraftMatches(w, freq, len, n)
    && Sum(freq) == Sum(w)
    && Roots(freq) + merges <= |w|
    && (forall s | 0 <= s < |len| :: len[s] <= merges)
    && (forall s | 0 <= s < |len| :: w[s] == 0 ==> len[s] == 0)
  }

  /** One round of the algorithm. */
  lemma BuildingMerged(w: Weights, freq: Weights, others: seq<int>, chains: seq<seq<nat>>,
                       len: Lengths, len': Lengths, n: nat, merges: nat, a: nat, b: nat)
    requires Building(w, freq, others, chains, len, n, merges) && n + 1 == |w|
    requires Smallest(freq, a, b) && |len'| == |len| && Longer(len, len', chains[a] + chains[b])
    ensures var last := chains[a][|chains[a]| - 1];
            && last < |others|
            && Building(w, Merged(freq, a, b), others[last := b], Joined(chains, a, b), len', n, merges + 1)
  {
    hide Sum, Roots, Cost, Shares, Pow2, Linked, ChainSum, NotBeaten, KraftMatches, Balanced, Forest, Merged, Joined,
         Longer;
    LastLinked(w, freq, others, chains, a);
    var last := chains[a][|chains[a]| - 1];
    TwoRoots(freq, a, b);
    RootsMerged(freq, a, b);
    MergedSize(freq, chains, a, b);
    SumMerged(freq, a, b);
    ForestJoined(w, freq, others, chains, a, b);
    BalancedJoined(w, freq, others, chains, len, len', n, a, b);
    NotBeatenMerged(w, freq, len, len', a, b);
    MatchesMerged(w, freq, len, len', n, a, b);
    UnusedStay(w, freq, others, chains, len, len', a, b);
    AtMostOneLonger(len, len', chains[a] + chains[b], merges);
    assert Forest(w, Merged(freq, a, b), others[last := b], Joined(chains, a, b));
  }

  lemma LastLinked(w: Weights, freq: Weights, others: seq<int>, chains: seq<seq<nat>>, a: nat)
    requires Forest(w, freq, others, chains) && a < |freq| && freq[a] > 0
    ensures chains[a] != [] && chains[a][|chains[a]| - 1] < |others|
  {
    LinkAt(chains[a], others, |chains[a]| - 1);
  }

  lemma MergedSize(freq: Weights, chains: seq<seq<nat>>, a: nat, b: nat)
    requires a < |freq| == |chains| && b < |freq| && a != b
    ensures |Merged(freq, a, b)| == |freq| && |Joined(chains, a, b)| == |chains|
  {
  }

  lemma AtMostOneLonger(len: Lengths, len': Lengths, chain: seq<nat>, merges: nat)
    requires Longer(len, len', chain) && forall s | 0 <= s < |len| :: len[s] <= merges
    ensures forall s | 0 <= s < |len'| :: len'[s] <= merges + 1
  {
  }

  lemma MatchesMerged(w: Weights, freq: Weights, len: Lengths, len': Lengths, n: nat, a: nat, b: nat)
    requires |w| == |len| == |len'| == |freq| && KraftMatches(w, freq, len, n)
    requires a < |freq| && b < |freq| && a != b && freq[a] > 0 && freq[b] > 0
    requires Sum(Shares(w, len', n)) == Sum(Shares(w, len, n)) - Pow2(n)
    ensures KraftMatches(w, Merged(freq, a, b), len', n)
  {
    RootsMerged(freq, a, b);
    hide Sum, Roots, Shares, Pow2, Merged;
    Distribute(Roots(freq), Pow2(n));
  }

  lemma UnusedStay(w: Weights, freq: Weights, others: seq<int>, chains: seq<seq<nat>>,
                   len: Lengths, len': Lengths, a: nat, b: nat)
    requires Forest(w, freq, others, chains) && a < |chains| && b < |chains| && |len| == |w|
    requires Longer(len, len', chains[a] + chains[b])
    ensures forall s | 0 <= s < |len| && w[s] == 0 :: len'[s] == len[s]
  {
    forall s | 0 <= s < |len| && w[s] == 0 ensures len'[s] == len[s] {
      assert s !in chains[a] && s !in chains[b];
    }
  }

  lemma Distribute(x: int, p: int)
    ensures (x - 1) * p == x * p - p
  {
  }

  /** At the start every symbol is a subtree of its own. */
  ghost predicate Separate(w: Weights, others: seq<int>, chains: seq<seq<nat>>, len: Lengths) {
    && |w| == |others| == |chains| == |len|
    && (forall i | 0 <= i < |w| :: others[i] == -1 && len[i] == 0)
    && (forall i | 0 <= i < |w| :: chains[i] == if w[i] > 0 then [i] else [])
  }

  lemma BuildingStart(w: Weights, others: seq<int>, chains: seq<seq<nat>>, len: Lengths, n: nat)
    requires Separate(w, others, chains, len) && |w| == n + 1
    ensures Building(w, w, others, chains, len, n, 0)
  {
    hide Cost, Sum, Shares, Pow2, ChainSum, Forest, Balanced, KraftMatches, NotBeaten, Roots;
    RootsAtMost(w);
    ForestStart(w, others, chains, len);
    BalancedStart(w, others, chains, len, n);
    MatchesStart(w, others, chains, len, n);
    NotBeatenStart(w, others, chains, len);
  }

  lemma ForestStart(w: Weights, others: seq<int>, chains: seq<seq<nat>>, len: Lengths)
    requires Separate(w, others, chains, len)
    ensures Forest(w, w, others, chains)
  {
  }

  lemma BalancedStart(w: Weights, others: seq<int>, chains: seq<seq<nat>>, len: Lengths, n: nat)
    requires Separate(w, others, chains, len)
    ensures Balanced(w, w, len, n, chains)
  {
    forall r | 0 <= r < |w| && w[r] > 0
      ensures ChainSum(chains[r], w) == w[r] && ChainSum(chains[r], Shares(w, len, n)) == Pow2(n)
    {
      assert chains[r][1..] == [];
    }
  }

  lemma MatchesStart(w: Weights, others: seq<int>, chains: seq<seq<nat>>, len: Lengths, n: nat)
    requires Separate(w, others, chains, len)
    ensures KraftMatches(w, w, len, n)
  {
    hide Pow2, Sum;
    forall i | 0 <= i < |w| ensures Shares(w, len, n)[i] == Pow2(n) * Indicator(w)[i] {
    }
    SumScale(Indicator(w), Shares(w, len, n), Pow2(n));
  }

  lemma NotBeatenStart(w: Weights, others: seq<int>, chains: seq<seq<nat>>, len: Lengths)
    requires Separate(w, others, chains, len)
    ensures NotBeaten(w, w, len)
  {
    SumZero(Costs(w, len));
    hide Sum, Feasible;
    forall other: Lengths, k: nat | |other| == |w| && Feasible(w, other, k)
      ensures Completes(w, w, len, other, k)
    {
    }
  }

  /** No lengths that meet Kraft's inequality, and so no prefix code, cost less. */
  ghost predicate Optimal(w: Weights, len: Lengths)
    requires |w| == |len|
  {
    forall other: Lengths, n: nat | |other| == |w| && Feasible(w, other, n) :: Cost(w, len) <= Cost(w, other)
  }

  /** The lengths of a full binary tree whose leaves are the symbols in use. */
  ghost predicate FullTree(w: Weights, len: Lengths) {
    && |w| == |len|
    && (forall s | 0 <= s < |w| :: len[s] < |w|)
    && (forall s | 0 <= s < |w| :: w[s] == 0 ==> len[s] == 0)
    && (|w| >= 1 ==> Sum(Shares(w, len, |w| - 1)) == Pow2(|w| - 1))
  }

  lemma BuildingDone(w: Weights, freq: Weights, others: seq<int>, chains: seq<seq<nat>>, len: Lengths, n: nat,
                     merges: nat)
    requires Building(w, freq, others, chains, len, n, merges) && |w| == n + 1
    requires Roots(freq) == 1
    ensures FullTree(w, len) && Optimal(w, len)
  {
    hide Sum, Shares, Forest, Balanced, Pow2;
    forall other: Lengths, k: nat | |other| == |w| && Feasible(w, other, k)
      ensures Cost(w, len) <= Cost(w, other)
    {
      assert Completes(w, freq, len, other, k);
      var r: Lengths :| |r| == |w| && Feasible(freq, r, k) && Cost(freq, r) + Cost(w, len) <= Cost(w, other);
      CostNonNegative(freq, r);
    }
  }

  lemma CostNonNegative(w: Weights, len: Lengths)
    requires |w| == |len|
    ensures Cost(w, len) >= 0
  {
    forall i | 0 <= i < |w| ensures w[i] * len[i] >= 0 {
    }
    SumNonNegative(Costs(w, len));
  }

  lemma EachBelowSum(freq: Weights, total: int)
    requires Sum(freq) <= total
    ensures forall i | 0 <= i < |freq| :: freq[i] <= total
  {
    forall i | 0 <= i < |freq| ensures freq[i] <= total {
      SumAtLeast(freq, i);
    }
  }

  /** Optimal code sizes for the counted symbols and the pseudo-symbol 256, which is
      given a count of one.  The counts are used up. */
  method CodeSizes(freq: array<nat>) returns (codesize: array<nat>)
    requires freq.Length == 257 && Sum(freq[..256] + [1]) <= SEARCH_LIMIT
    modifies freq
    ensures fresh(codesize) && codesize.Length == 257
    ensures FullTree(old(freq[..256]) + [1], codesize[..])
    ensures Optimal(old(freq[..256]) + [1], codesize[..])
    ensures codesize[..] == TreeDepths(old(freq[..256]) + [1])
  {
    hide Sum, Underway, Roots, FullTree, Optimal, Linked, Least, TreeDepths, Joined, NewRoots;
    codesize := new nat[257](_ => 0);
    var others := new int[257](_ => -1);
    freq[256] := 1;
    ghost var w: Weights := freq[..];
    assert w == old(freq[..256]) + [1];
    ghost var chains: seq<seq<nat>> := seq(257, i requires 0 <= i < 257 => if w[i] > 0 then [i] else []);
    ghost var merges := 0;
    ghost var root: seq<nat> := seq(257, s => s);
    UnderwayStart(w, others[..], chains, codesize[..]);
    HasRoot(w, 256);
    while true
      invariant freq.Length == codesize.Length == others.Length == 257 && |chains| == 257 && fresh(others)
                && fresh(codesize)
      invariant codesize as object != freq && others as object != codesize as object
                && others as object != freq as object
      invariant Underway(w, freq[..], others[..], chains, root, codesize[..], merges)
      invariant Roots(freq[..]) >= 1
      decreases Roots(freq[..])
    {
      SumKept(w, freq[..], others[..], chains, root, codesize[..], merges);
      EachBelowSum(freq[..], SEARCH_LIMIT);
      var c1 := FindSmallest(freq, -1);
      if c1 < 0 {
        NoRootLeft(freq[..], -1);
        assert false;
      }
      var c2 := FindSmallest(freq, c1);
      if c2 < 0 {
        NoRootLeft(freq[..], c1);
        UnderwayDone(w, freq[..], others[..], chains, root, codesize[..], merges);
        break;
      }
      RootsMerged(freq[..], c1, c2);
      TwoRoots(freq[..], c1, c2);
      MergeBranches(w, freq, others, codesize, c1, c2, chains, root, merges);
      root := NewRoots(root, c1, c2);
      chains := Joined(chains, c1, c2);
      merges := merges + 1;
    }
  }

  /** The state between rounds, with what it says about the tree that comes out. */
  ghost predicate Underway(w: Weights, freq: Weights, others: seq<int>, chains: seq<seq<nat>>, root: seq<nat>,
                           len: Lengths, merges: nat) {
    && |w| == 257 && Building(w, freq, others, chains, len, 256, merges)
    && Rooted(w, chains, root) && OnTheWay(w, freq, len, root)
  }

  lemma UnderwayStart(w: Weights, others: seq<int>, chains: seq<seq<nat>>, len: Lengths)
    requires Separate(w, others, chains, len) && |w| == 257
    ensures Underway(w, w, others, chains, seq(257, s => s), len, 0)
  {
    RootedStart(w, chains, len);
    hide Rooted, OnTheWay, Building;
    BuildingStart(w, others, chains, len, 256);
  }

  lemma UnderwayDone(w: Weights, freq: Weights, others: seq<int>, chains: seq<seq<nat>>, root: seq<nat>, len: Lengths,
                     merges: nat)
    requires Underway(w, freq, others, chains, root, len, merges) && Roots(freq) == 1 && NextLowest(freq) == -1
    ensures FullTree(w, len) && Optimal(w, len) && len == TreeDepths(w)
  {
    hide Rooted, OnTheWay, Building, FullTree, Optimal, Lowest, NextLowest, TreeDepths, Roots;
    BuildingDone(w, freq, others, chains, len, 256, merges);
    Arrived(w, freq, len, root);
  }

  lemma UnderwayMerged(w: Weights, freq: Weights, others: seq<int>, chains: seq<seq<nat>>, root: seq<nat>,
                       len: Lengths, len': Lengths, a: nat, b: nat, merges: nat)
    requires Underway(w, freq, others, chains, root, len, merges)
    requires Smallest(freq, a, b) && a == Lowest(freq) && b == NextLowest(freq) && |len'| == |len|
    requires Longer(len, len', chains[a] + chains[b])
    ensures var last := chains[a][|chains[a]| - 1];
            && last < |others|
            && Underway(w, Merged(freq, a, b), others[last := b], Joined(chains, a, b), NewRoots(root, a, b), len',
                        merges + 1)
  {
    BuildingMerged(w, freq, others, chains, len, len', 256, merges, a, b);
    ForestApart(w, freq, others, chains);
    hide Building, Forest, Rooted, OnTheWay, Lowest, NextLowest, Longer, TreeDepths, Joined, Merged, Apart, Linked;
    RootedJoined(w, chains, root, a, b);
    JoinedSymbols(w, chains, root, a, b);
    StillOnTheWay(w, freq, chains, len, len', root, a, b);
  }

  lemma ForestApart(w: Weights, freq: Weights, others: seq<int>, chains: seq<seq<nat>>)
    requires Forest(w, freq, others, chains)
    ensures |w| == |freq| == |chains|
    ensures forall x, y | 0 <= x < y < |chains| :: Apart(chains[x], chains[y])
  {
  }

  lemma SumKept(w: Weights, freq: Weights, others: seq<int>, chains: seq<seq<nat>>, root: seq<nat>, len: Lengths,
                merges: nat)
    requires Underway(w, freq, others, chains, root, len, merges)
    ensures Sum(freq) == Sum(w)
  {
  }

  /** Merges the subtrees of c1 and c2. */
  method MergeBranches(ghost w: Weights, freq: array<nat>, others: array<int>, codesize: array<nat>, c1: nat, c2: nat,
                       ghost chains: seq<seq<nat>>, ghost root: seq<nat>, ghost merges: nat)
    requires freq.Length == others.Length == codesize.Length == |w| == |chains| >= 1
    requires codesize as object != freq && others as object != codesize as object && others as object != freq as object
    requires Smallest(freq[..], c1, c2) && c1 == Lowest(freq[..]) && c2 == NextLowest(freq[..])
    requires Underway(w, freq[..], others[..], chains, root, codesize[..], merges)
    modifies freq, others, codesize
    ensures freq[..] == Merged(old(freq[..]), c1, c2)
    ensures Underway(w, freq[..], others[..], Joined(chains, c1, c2), NewRoots(root, c1, c2), codesize[..], merges + 1)
  {
    hide Sum, Underway, Roots, Lowest, NextLowest;
    ghost var f0, o0, l0 := freq[..], others[..], codesize[..];
    ghost var c, d := chains[c1], chains[c2];
    Branches(w, f0, o0, chains, root, l0, merges, c1, c2);
    LinkedElsewhere(d, c, o0, c2);
    freq[c1] := freq[c1] + freq[c2];
    freq[c2] := 0;
    var last := IncrementBranch(codesize, others, c1, c);
    others[last] := c2;
    last := IncrementBranch(codesize, others, c2, d);
    assert Longer(l0, codesize[..], c + d);
    UnderwayMerged(w, f0, o0, chains, root, l0, codesize[..], c1, c2, merges);
  }

  lemma Branches(w: Weights, freq: Weights, others: seq<int>, chains: seq<seq<nat>>, root: seq<nat>, len: Lengths,
                 merges: nat, a: nat, b: nat)
    requires Underway(w, freq, others, chains, root, len, merges) && Smallest(freq, a, b)
    ensures |chains| == |freq|
    ensures chains[a] != [] && chains[a][0] == a && Linked(chains[a], others) && NoRepeats(chains[a])
    ensures chains[b] != [] && chains[b][0] == b && Linked(chains[b], others) && NoRepeats(chains[b])
    ensures Apart(chains[b], chains[a])
  {
    assert a < b ==> Apart(chains[a], chains[b]);
    assert b < a ==> Apart(chains[b], chains[a]);
  }

  /** Optimal lengths are at least as good as those of any prefix code. */
  lemma NoPrefixCodeIsCheaper(w: Weights, len: Lengths, codes: seq<seq<bit>>, n: nat)
    requires |w| == |len| && Optimal(w, len)
    requires PrefixFree(w, codes) && Bounded(w, Sizes(codes), n)
    ensures Cost(w, len) <= Cost(w, Sizes(codes))
  {
    hide Cost, Feasible;
    PrefixCodeIsFeasible(w, codes, n);
  }
}
