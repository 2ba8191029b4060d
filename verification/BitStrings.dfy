/** Bit strings, highest bit first, and the numbers they denote. */
module BitStrings {
  import opened Numbers

  /** The n lowest bits of c, the highest one first. */
  function BitsOf(c: int, n: nat): (s: seq<bit>)
    ensures |s| == n
    decreases n
  {
    if n == 0 then [] else BitsOf(c / 2, n - 1) + [c % 2]
  }

  /** The number a bit string denotes. */
  function Value(s: seq<bit>): (v: nat) {
    if s == [] then 0 else 2 * Value(s[..|s| - 1]) + s[|s| - 1]
  }

  lemma {:induction false} ValueOfBits(c: nat, n: nat)
    requires c < Pow2(n)
    ensures Value(BitsOf(c, n)) == c
  {
    if n > 0 {
      var s := BitsOf(c / 2, n - 1);
      ValueOfBits(c / 2, n - 1);
      assert (s + [c % 2])[..n - 1] == s;
    }
  }

  lemma {:induction false} BitsOfValue(s: seq<bit>)
    ensures Value(s) < Pow2(|s|) && BitsOf(Value(s), |s|) == s
  {
    if s != [] {
      BitsOfValue(s[..|s| - 1]);
    }
  }

  /** The first bits of a code are its quotient. */
  lemma {:induction false} BitsOfPrefix(c: int, n: nat, m: nat)
    requires m <= n
    ensures BitsOf(c, n)[..m] == BitsOf(c / Pow2(n - m), m)
    decreases n
  {
    if m == n {
      assert BitsOf(c, n)[..n] == BitsOf(c, n);
      assert c / 1 == c;
    } else {
      BitsOfPrefix(c / 2, n - 1, m);
      assert BitsOf(c, n)[..m] == BitsOf(c / 2, n - 1)[..m];
      DivTwice(c, Pow2(n - 1 - m));
    }
  }

  lemma DivTwice(c: int, p: nat)
    requires p >= 1
    ensures c / 2 / p == c / (2 * p)
  {
    var q := c / 2 / p;
    assert c == 2 * (c / 2) + c % 2;
    assert c / 2 == p * q + c / 2 % p;
    assert 2 * (p * q) == 2 * p * q;
    DivModUnique(c, 2 * p, q, 2 * (c / 2 % p) + c % 2);
  }

  /** The leading bits are the quotient. */
  lemma {:induction false} PrefixValue(s: seq<bit>, n: nat)
    requires n <= |s|
    ensures Value(s[..n]) == Value(s) / Pow2(|s| - n)
    decreases |s|
  {
    if n == |s| {
      assert s[..n] == s;
      assert Value(s) / 1 == Value(s);
    } else {
      var s' := s[..|s| - 1];
      PrefixValue(s', n);
      assert s'[..n] == s[..n];
      DivTwice(Value(s), Pow2(|s'| - n));
    }
  }

  lemma {:induction false} OnesValue(s: seq<bit>)
    requires forall i | 0 <= i < |s| :: s[i] == 1
    ensures Value(s) == Pow2(|s|) - 1
  {
    if s != [] {
      OnesValue(s[..|s| - 1]);
    }
  }

  /** Two fields side by side. */
  lemma {:induction false} BitsOfJoin(x: nat, n: nat, y: nat, k: nat)
    requires y < Pow2(k)
    ensures BitsOf(x * Pow2(k) + y, n + k) == BitsOf(x, n) + BitsOf(y, k)
  {
    if k > 0 {
      var z := x * Pow2(k - 1);
      assert x * Pow2(k) == 2 * z by { MulSwap(x, 2, Pow2(k - 1)); }
      assert (x * Pow2(k) + y) / 2 == z + y / 2;
      assert (x * Pow2(k) + y) % 2 == y % 2;
      BitsOfJoin(x, n, y / 2, k - 1);
    }
  }

  /** The low bits do not depend on what is above them. */
  lemma BitsOfLow(x: nat, n: nat, k: nat)
    ensures BitsOf(x, n + k) == BitsOf(x / Pow2(k), n) + BitsOf(x, k)
    ensures BitsOf(x, k) == BitsOf(x % Pow2(k), k)
  {
    hide BitsOf, Pow2;
    var q, r := x / Pow2(k), x % Pow2(k);
    DivMod(x, Pow2(k));
    BitsOfJoin(q, n, r, k);
    BitsOfJoin(q, 0, r, k);
    assert BitsOf(q, 0) == [];
    assert 0 + k == k;
  }

  lemma DivMod(x: nat, d: nat)
    requires d > 0
    ensures x == (x / d) * d + x % d && 0 <= x % d < d && x / d >= 0
  {
  }

  lemma {:induction false} LowBitsInt(code: int, size: nat)
    ensures BitsOf(code % Pow2(size), size) == BitsOf(code, size)
    decreases size
  {
    if size > 0 {
      var p := Pow2(size - 1);
      HalfMod(code, p);
      LowBitsInt(code / 2, size - 1);
    }
  }

  lemma HalfMod(x: int, p: nat)
    requires p >= 1
    ensures x % (2 * p) / 2 == x / 2 % p && x % (2 * p) % 2 == x % 2
  {
    var q, r := x / (2 * p), x % (2 * p);
    assert x == 2 * (p * q) + r;
    DivModUnique(x / 2, p, q, r / 2);
  }

  /** A field of n bits above the k lowest ones. */
  function Field(x: nat, n: nat, k: nat): (v: int) {
    x / Pow2(k) % Pow2(n)
  }

  lemma BitField(x: nat, n: nat, k: nat)
    ensures Field(x, n, k) == Value(BitsOf(x, n + k)[..n])
    ensures BitsOf(x, n + k)[n..] == BitsOf(x, k)
  {
    hide BitsOf, Pow2, Value;
    DivMod(x, Pow2(k));
    BitsOfLow(x, n, k);
    var q := x / Pow2(k);
    DivMod(q, Pow2(n));
    BitsOfLow(q, 0, n);
    ValueOfBits(q % Pow2(n), n);
  }

  lemma BitsOfZero(n: nat)
    ensures BitsOf(0, n) == seq(n, _ => 0)
  {
    ZeroBits(n);
  }

  lemma {:induction false} ZeroBits(n: nat)
    ensures forall i | 0 <= i < n :: BitsOf(0, n)[i] == 0
  {
    if n > 0 {
      ZeroBits(n - 1);
    }
  }

  // ----- Bitwise or -----

  function Or(x: nat, y: nat): (r: nat) {
    if x == 0 && y == 0 then 0 else 2 * Or(x / 2, y / 2) + if x % 2 == 1 || y % 2 == 1 then 1 else 0
  }

  /** Merging fields that do not overlap. */
  lemma {:induction false} OrDisjoint(x: nat, y: nat, k: nat)
    requires y < Pow2(k)
    ensures Or(x * Pow2(k), y) == x * Pow2(k) + y
  {
    if k == 0 {
      assert y == 0;
      OrNothing(x);
    } else {
      var z := x * Pow2(k - 1);
      assert x * Pow2(k) == 2 * z by { MulSwap(x, 2, Pow2(k - 1)); }
      OrDisjoint(x, y / 2, k - 1);
    }
  }

  lemma OrNothing(x: nat)
    ensures Or(x, 0) == x
  {
    if x > 0 {
      OrNothing(x / 2);
    }
  }

  // ----- Bytes -----

  function BytesToBits(s: seq<byte>): (r: seq<bit>)
    ensures |r| == 8 * |s|
  {
    if s == [] then [] else BytesToBits(s[..|s| - 1]) + BitsOf(s[|s| - 1], 8)
  }

  lemma BytesToBitsSnoc(s: seq<byte>, b: byte)
    ensures BytesToBits(s + [b]) == BytesToBits(s) + BitsOf(b, 8)
  {
    assert (s + [b])[..|s|] == s;
  }

  lemma Assoc(a: seq<bit>, b: seq<bit>, c: seq<bit>)
    ensures (a + b) + c == a + (b + c)
  {
  }

  lemma {:induction false} BytesToBitsCons(b: byte, s: seq<byte>)
    ensures BytesToBits([b] + s) == BitsOf(b, 8) + BytesToBits(s)
  {
    hide BitsOf;
    if s == [] {
      assert [b] + s == [] + [b];
      BytesToBitsSnoc([], b);
    } else {
      var s', c := s[..|s| - 1], s[|s| - 1];
      assert [b] + s == ([b] + s') + [c];
      BytesToBitsSnoc([b] + s', c);
      BytesToBitsCons(b, s');
      Assoc(BitsOf(b, 8), BytesToBits(s'), BitsOf(c, 8));
    }
  }

  // ----- A 32-bit register -----

  const BIT_BUF_SIZE := 32

  /** A left shift of the register; what is shifted out at the top is lost. */
  function ShiftLeft32(x: nat, k: nat): (r: nat) {
    x * Pow2(k) % Pow2(BIT_BUF_SIZE)
  }

  lemma ShiftedLeft(x: nat, k: nat)
    requires k <= BIT_BUF_SIZE
    ensures ShiftLeft32(x, k) == x % Pow2(BIT_BUF_SIZE - k) * Pow2(k)
  {
    hide Pow2;
    var m, p := Pow2(BIT_BUF_SIZE - k), Pow2(k);
    Pow2Add(BIT_BUF_SIZE - k, k);
    DivMod(x, m);
    ShiftParts(x, m, p, x / m, x % m);
  }

  lemma ShiftParts(x: nat, m: nat, p: nat, q: nat, r: nat)
    requires m > 0 && p > 0 && x == q * m + r && r < m
    ensures m * p > 0 && x * p % (m * p) == r * p
  {
    assert x * p == q * (m * p) + r * p;
    MulMono(r + 1, m, p);
    assert r * p + p <= m * p;
    DivModUnique(x * p, m * p, q, r * p);
  }

  lemma LowBits(g: nat, b: nat, m: nat)
    requires b <= m
    ensures BitsOf(g % Pow2(m), b) == BitsOf(g, b)
  {
    hide Pow2, BitsOf;
    DivMod(g, Pow2(m));
    var z := g % Pow2(m);
    BitField(g, m - b, b);
    BitField(z, m - b, b);
    BitsOfLow(g, 0, m);
  }

  /** New bits enter at the bottom, and the pending ones move up. */
  lemma ShiftIn(g: nat, b: nat, k: nat, y: nat)
    requires b + k <= BIT_BUF_SIZE && y < Pow2(k)
    ensures 0 <= ShiftLeft32(g, k) + y < Pow2(BIT_BUF_SIZE)
    ensures Or(ShiftLeft32(g, k), y) == ShiftLeft32(g, k) + y
    ensures BitsOf(ShiftLeft32(g, k) + y, b + k) == BitsOf(g, b) + BitsOf(y, k)
  {
    hide Pow2, BitsOf, ShiftLeft32, Or;
    var m := BIT_BUF_SIZE - k;
    ShiftedLeft(g, k);
    DivMod(g, Pow2(m));
    var z := g % Pow2(m);
    OrDisjoint(z, y, k);
    LowBits(g, b, m);
    BitsOfJoin(z, b, y, k);
    Pow2Add(m, k);
    TopField(z, Pow2(m), Pow2(k), y);
  }

  lemma TopField(z: nat, m: nat, p: nat, y: nat)
    requires z < m && y < p
    ensures z * p + y < m * p
  {
    MulMono(z + 1, m, p);
  }
}
