/** Canonical Huffman codes (annex C and section F.2.2 of ITU-T T.81): the encoder's
    table, the decoder's bit-serial tables and its lookahead table. */
module HuffTable {
  import opened Numbers
  import opened BitStrings

  /** Number of codes of each length 1 to 16; entry 0 is not used. */
  type Bits = b: seq<byte> | |b| == 17 witness seq(17, _ => 0)

  type length = l: int | 1 <= l <= 16 witness 1

  /** Number of codes of length at most l. */
  function Total(bits: Bits, l: nat): (n: nat)
    requires l <= 16
  {
    if l == 0 then 0 else Total(bits, l - 1) + bits[l]
  }

  /** The smallest code of length l, if there is one. */
  function First(bits: Bits, l: nat): (c: nat)
    requires l <= 17
  {
    if l <= 1 then 0 else 2 * (First(bits, l - 1) + bits[l - 1])
  }

  /** The codes of length l fit, and the all-ones pattern is left over. */
  ghost predicate Fits(bits: Bits, l: nat) {
    1 <= l <= 16 ==> First(bits, l) + bits[l] < Pow2(l)
  }

  ghost predicate Legal(bits: Bits) {
    Total(bits, 16) <= 256 && forall l | 1 <= l <= 16 :: Fits(bits, l)
  }

  lemma {:induction false} TotalMono(bits: Bits, l: nat, m: nat)
    requires l <= m <= 16
    ensures Total(bits, l) <= Total(bits, m)
  {
    if l < m {
      TotalMono(bits, l, m - 1);
    }
  }

  /** The length of the code with index p. */
  ghost predicate SizeIs(bits: Bits, p: nat, l: nat) {
    1 <= l <= 16 && Total(bits, l - 1) <= p < Total(bits, l)
  }

  lemma SizeUnique(bits: Bits, p: nat, l: nat, m: nat)
    requires SizeIs(bits, p, l) && SizeIs(bits, p, m)
    ensures l == m
  {
    if l < m {
      TotalMono(bits, l, m - 1);
    } else if m < l {
      TotalMono(bits, m, l - 1);
    }
  }

  /** The code of index p, when its length is l. */
  function CodeAt(bits: Bits, p: nat, l: nat): (c: int)
    requires 1 <= l <= 16
  {
    First(bits, l) + (p - Total(bits, l - 1))
  }

  lemma CodeFits(bits: Bits, p: nat, l: nat)
    requires Legal(bits) && SizeIs(bits, p, l)
    ensures First(bits, l) <= CodeAt(bits, p, l) < First(bits, l) + bits[l]
    ensures 0 <= CodeAt(bits, p, l) < Pow2(l) - 1
  {
    assert Fits(bits, l);
  }

  /** The codes of length l and their extensions all come before the codes of length m. */
  lemma {:induction false} FirstBeyond(bits: Bits, l: nat, m: nat)
    requires 1 <= l < m <= 16
    ensures First(bits, m) >= Shl(First(bits, l) + bits[l], m - l)
  {
    if l + 1 < m {
      FirstBeyond(bits, l, m - 1);
      ShlStep(First(bits, l) + bits[l], m - 1 - l);
    } else {
      assert Pow2(1) == 2;
    }
  }

  // ----- Codes as bit strings -----

  /** The code word of index p. */
  function Word(bits: Bits, p: nat, l: nat): (s: seq<bit>)
    requires 1 <= l <= 16
  {
    BitsOf(CodeAt(bits, p, l), l)
  }

  /** The first l bits of a longer code are a number beyond all codes of length l. */
  lemma LongerIsBeyond(bits: Bits, q: nat, l: nat, m: nat)
    requires Legal(bits) && SizeIs(bits, q, m) && 1 <= l < m
    ensures CodeAt(bits, q, m) / Pow2(m - l) >= First(bits, l) + bits[l]
    ensures Value(Word(bits, q, m)[..l]) == CodeAt(bits, q, m) / Pow2(m - l)
  {
    hide First, Total, BitsOf, Value, Legal, Pow2, CodeAt;
    var c, k := CodeAt(bits, q, m), Pow2(m - l);
    var x := First(bits, l) + bits[l];
    CodeFits(bits, q, m);
    FirstBeyond(bits, l, m);
    Pow2Add(l, m - l);
    BitsOfPrefix(c, m, l);
    DivAtLeast(c, k, x);
    DivBelow(c, k, Pow2(l));
    ValueOfBits(c / k, l);
  }

  lemma DivAtLeast(c: nat, k: nat, x: nat)
    requires k >= 1 && c >= x * k
    ensures c / k >= x
  {
    assert c == k * (c / k) + c % k;
    if c / k < x {
      MulMono(c / k + 1, x, k);
    }
  }

  lemma DivBelow(c: nat, k: nat, x: nat)
    requires k >= 1 && c < x * k
    ensures 0 <= c / k < x
  {
    assert c == k * (c / k) + c % k;
    if c / k >= x {
      MulMono(x, c / k, k);
    }
  }

  lemma PrefixTake(a: seq<bit>, b: seq<bit>)
    requires a <= b
    ensures |a| <= |b| && b[..|a|] == a
  {
  }

  /** No code word is the beginning of another one. */
  lemma WordsPrefixFree(bits: Bits, p: nat, l: nat, q: nat, m: nat)
    requires Legal(bits) && SizeIs(bits, p, l) && SizeIs(bits, q, m) && p != q
    ensures !(Word(bits, p, l) <= Word(bits, q, m))
  {
    CodeFits(bits, p, l);
    CodeFits(bits, q, m);
    ValueOfBits(CodeAt(bits, p, l), l);
    hide First, Total, BitsOf, Value, CodeAt, Legal, SizeIs, Pow2;
    if Word(bits, p, l) <= Word(bits, q, m) {
      PrefixTake(Word(bits, p, l), Word(bits, q, m));
      if l < m {
        LongerIsBeyond(bits, q, l, m);
      } else {
        assert Word(bits, q, m)[..l] == Word(bits, q, m);
        ValueOfBits(CodeAt(bits, q, m), m);
        SizeOrder(bits, p, l, q, m);
      }
    }
  }

  lemma SizeOrder(bits: Bits, p: nat, l: nat, q: nat, m: nat)
    requires SizeIs(bits, p, l) && SizeIs(bits, q, m) && p != q
    ensures l == m ==> CodeAt(bits, p, l) != CodeAt(bits, q, m)
  {
  }

  /** No code word is all ones. */
  lemma WordNotAllOnes(bits: Bits, p: nat, l: nat)
    requires Legal(bits) && SizeIs(bits, p, l)
    ensures exists i :: 0 <= i < l && Word(bits, p, l)[i] == 0
  {
    CodeFits(bits, p, l);
    if forall i | 0 <= i < l :: Word(bits, p, l)[i] == 1 {
      OnesValue(Word(bits, p, l));
      ValueOfBits(CodeAt(bits, p, l), l);
    }
  }
}
