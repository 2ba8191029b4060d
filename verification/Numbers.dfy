/** Sizes, bytes, powers of two and big-endian numbers, shared by the entropy coders. */
module Numbers {
  /** Coefficients of a block. */
  const DCTSIZE2 := 64

  const MAX_COMPS_IN_SCAN := 4

  type byte = b: int | 0 <= b < 256

  type bit = b: int | 0 <= b < 2

  function Pow2(n: nat): (p: nat)
    ensures p >= 1
  {
    if n == 0 then 1 else 2 * Pow2(n - 1)
  }

  lemma {:induction false} Pow2Add(m: nat, n: nat)
    ensures Pow2(m + n) == Pow2(m) * Pow2(n)
  {
    if n == 0 {
    } else {
      Pow2Add(m, n - 1);
      assert Pow2(m + n) == 2 * Pow2(m + n - 1);
      MulSwap(2, Pow2(m), Pow2(n - 1));
    }
  }

  /** A left shift. */
  function Shl(x: int, n: nat): (r: int) {
    x * Pow2(n)
  }

  lemma ShlAdd(x: int, y: int, n: nat)
    ensures Shl(x + y, n) == Shl(x, n) + Shl(y, n)
  {
  }

  lemma ShlTwice(x: int, m: nat, n: nat)
    ensures Shl(Shl(x, m), n) == Shl(x, m + n)
  {
    Pow2Add(m, n);
    MulSwap(x, Pow2(m), Pow2(n));
  }

  lemma ShlMono(x: int, y: int, n: nat)
    ensures x <= y <==> Shl(x, n) <= Shl(y, n)
  {
    MulCancel(Pow2(n), x, y);
  }

  lemma ShlSwap(x: int, m: nat, n: nat)
    ensures Shl(Shl(x, m), n) == Shl(Shl(x, n), m)
  {
    ShlTwice(x, m, n);
    ShlTwice(x, n, m);
  }

  lemma ShlInjective(x: int, y: int, n: nat)
    requires Shl(x, n) == Shl(y, n)
    ensures x == y
  {
    ShlMono(x, y, n);
    ShlMono(y, x, n);
  }

  lemma ShlStep(x: int, n: nat)
    ensures Shl(2 * x, n) == Shl(x, n + 1) == 2 * Shl(x, n)
  {
    MulSwap(x, 2, Pow2(n));
  }

  lemma SmallPowers()
    ensures Pow2(0) == 1 && Pow2(1) == 2 && Pow2(7) == 128 && Pow2(15) == 0x8000
  {
    assert Pow2(3) == 8;
    assert Pow2(7) == 128;
    assert Pow2(11) == 0x800;
  }

  lemma {:induction false} Pow2Mono(m: nat, n: nat)
    requires m <= n
    ensures Pow2(m) <= Pow2(n)
  {
    if m < n {
      Pow2Mono(m, n - 1);
    }
  }

  lemma MulSwap(a: int, b: int, c: int)
    ensures a * (b * c) == b * (a * c)
    ensures a * (b * c) == (a * b) * c
  {
  }

  lemma MulMono(x: int, y: int, k: int)
    requires x <= y && k >= 0
    ensures x * k <= y * k
  {
  }

  /** Multiplying both sides of a comparison by a positive number keeps it. */
  lemma MulCancel(k: int, x: int, y: int)
    requires k > 0
    ensures k * x <= k * y <==> x <= y
    ensures k * x < k * y <==> x < y
  {
    if x <= y {
      assert k * (y - x) >= 0;
    }
    if x < y {
      assert k * (y - x) > 0;
    }
    if x > y {
      assert k * (x - y) > 0;
    }
  }

  lemma MulCancelEq(k: int, x: int, y: int)
    requires k > 0 && k * x == k * y
    ensures x == y
  {
    MulCancel(k, x, y);
  }

  lemma MultipleOf(n: int, k: nat, j: nat)
    requires j <= k && (j == 8 || j == 16)
    ensures n * Pow2(k) % (if j == 8 then 0x100 else 0x10000) == 0
  {
    Pow2Add(k - j, j);
    assert Pow2(4) == 16;
    Pow2Add(4, 4);
    Pow2Add(8, 8);
    MulSwap(n, Pow2(k - j), Pow2(j));
    ModOfMultiple(n * Pow2(k - j), Pow2(j));
  }

  lemma ModOfMultiple(n: int, d: int)
    requires d > 0
    ensures n * d % d == 0
  {
    assert n * d == d * n + 0;
    DivModUnique(n * d, d, n, 0);
  }

  lemma UniqueQuotient(d: int, q: int, r: int, q': int, r': int)
    requires 0 <= r < d && 0 <= r' < d && d * q + r == d * q' + r'
    ensures q == q' && r == r'
  {
    if q < q' {
      MulMono(q + 1, q', d);
    } else if q' < q {
      MulMono(q' + 1, q, d);
    }
  }

  lemma DivModUnique(x: int, d: int, q: int, r: int)
    requires 0 <= r < d && x == d * q + r
    ensures x / d == q && x % d == r
  {
    UniqueQuotient(d, q, r, x / d, x % d);
  }

  lemma Pow2Byte()
    ensures Pow2(8) == 256
  {
    Pow2Add(4, 4);
    assert Pow2(2) == 4;
    Pow2Add(2, 2);
  }

  /** The big-endian number a byte sequence denotes. */
  function Num(s: seq<byte>): (n: nat)
  {
    if s == [] then 0 else 256 * Num(s[..|s| - 1]) + s[|s| - 1]
  }

  lemma NumSnoc(s: seq<byte>, b: byte)
    ensures Num(s + [b]) == 256 * Num(s) + b
  {
    assert (s + [b])[..|s|] == s;
  }

  lemma NumLast(s: seq<byte>)
    requires s != []
    ensures Num(s) % 256 == s[|s| - 1]
  {
  }

  lemma {:induction false} NumAppend(s: seq<byte>, t: seq<byte>)
    ensures Num(s + t) == Pow2(8 * |t|) * Num(s) + Num(t)
  {
    if t == [] {
      assert s + t == s;
    } else {
      var t', b := t[..|t| - 1], t[|t| - 1];
      assert s + t == (s + t') + [b];
      NumSnoc(s + t', b);
      NumAppend(s, t');
      Pow2Step8(|t'|);
      MulSwap(256, Pow2(8 * |t'|), Num(s));
    }
  }

  lemma Pow2Step8(n: nat)
    ensures Pow2(8 * (n + 1)) == 256 * Pow2(8 * n)
  {
    Pow2Add(8 * n, 8);
    assert Pow2(8) == 256 by {
      assert Pow2(4) == 16;
    }
  }

  lemma {:induction false} NumBound(s: seq<byte>)
    ensures Num(s) < Pow2(8 * |s|)
  {
    if s != [] {
      NumBound(s[..|s| - 1]);
      Pow2Step8(|s| - 1);
    }
  }

  function Repeat(b: byte, n: nat): (s: seq<byte>)
    ensures |s| == n
  {
    if n == 0 then [] else Repeat(b, n - 1) + [b]
  }

  lemma RepeatNone(x: seq<byte>, b: byte)
    ensures x + Repeat(b, 0) == x
  {
  }

  lemma {:induction false} RepeatShift(x: seq<byte>, b: byte, n: nat)
    ensures x + Repeat(b, n + 1) == (x + [b]) + Repeat(b, n)
  {
    if n > 0 {
      RepeatShift(x, b, n - 1);
      assert x + Repeat(b, n + 1) == (x + Repeat(b, n)) + [b];
    }
  }

  lemma {:induction false} NumZeros(s: seq<byte>, n: nat)
    ensures Num(s + Repeat(0, n)) == Shl(Num(s), 8 * n)
  {
    if n == 0 {
      assert s + Repeat(0, 0) == s;
    } else {
      hide Shl, Pow2, Num;
      assert s + Repeat(0, n) == (s + Repeat(0, n - 1)) + [0];
      NumSnoc(s + Repeat(0, n - 1), 0);
      NumZeros(s, n - 1);
      ShlTwice(Num(s), 8 * (n - 1), 8);
      ShlByte8(Shl(Num(s), 8 * (n - 1)));
    }
  }

  lemma ShlByte8(x: int)
    ensures Shl(x, 8) == 256 * x
  {
    Pow2Step8(0);
  }
}
