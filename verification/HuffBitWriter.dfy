/** Writing bits: at most seven bits wait in the put buffer, and every 0xFF byte is stuffed. */
module HuffBitWriter {
  import opened Numbers
  import opened BitStrings
  import opened Stuffing

  /** The put buffer is used in its lowest 24 bits, left-justified. */
  const PUT_SIZE := 24

  class BitWriter {
    var putBuffer: nat
    var putBits: nat
    var output: seq<byte>
    /** What was written before the current data. */
    ghost var header: seq<byte>
    /** The complete data bytes so far, not stuffed. */
    ghost var emitted: seq<byte>

    ghost predicate Valid()
      reads this
    {
      && putBits <= 7 && Held(putBuffer, putBits)
      && output == header + Stuff(emitted)
    }

    /** All bits since the start, including those that wait. */
    ghost function Sent(): seq<bit>
      reads this
      requires putBits <= PUT_SIZE
    {
      BytesToBits(emitted) + HeldBits(putBuffer, putBits)
    }

    constructor (bytes: seq<byte>)
      ensures Valid() && Sent() == [] && output == header == bytes && emitted == []
    {
      putBuffer, putBits, output := 0, 0, bytes;
      header, emitted := bytes, [];
      new;
      hide Stuff, BitsOf, BytesToBits, HeldBits, Pow2;
      EmptyHeld();
      assert HeldBits(0, 0) == [];
    }

    method EmitByte(c: byte)
      requires output == header + Stuff(emitted)
      modifies this`output, this`emitted
      ensures output == header + Stuff(emitted)
      ensures emitted == old(emitted) + [c]
    {
      StuffOutput(header, emitted, c);
      output := output + [c];
      if c == 0xFF {
        output := output + [0];
      }
      emitted := emitted + [c];
    }

    /** Appends the low size bits of code; a size of zero is a symbol without a code. */
    method EmitBits(code: int, size: nat) returns (ok: bool)
      requires Valid() && size <= 16
      modifies `putBuffer, `putBits, `output, `emitted
      ensures ok <==> size != 0
      ensures header == old(header)
      ensures Valid() && Sent() == old(Sent()) + BitsOf(code, size)
    {
      hide Stuff, BitsOf, BytesToBits, Or, Pow2, Held, HeldBits, Shl, Field;
      ok := size != 0;
      if !ok {
        assert BitsOf(code, size) == [];
        return;
      }
      var buf: nat := code % Pow2(size);
      var n: nat := putBits + size;
      Merged(putBuffer, putBits, code, size);
      buf := Or(putBuffer, Shl(buf, PUT_SIZE - n));
      ghost var sent := Sent() + BitsOf(code, size);
      Assoc(BytesToBits(emitted), HeldBits(putBuffer, putBits), BitsOf(code, size));
      while n >= 8
        invariant n <= 23 && Held(buf, n)
        invariant output == header + Stuff(emitted)
        invariant BytesToBits(emitted) + HeldBits(buf, n) == sent
      {
        var c := Field(buf, 8, 16);
        Taken(buf, n);
        ghost var before := emitted;
        EmitByte(c);
        BytesToBitsSnoc(before, c);
        Assoc(BytesToBits(before), BitsOf(c, 8), HeldBits(ShiftLeft32(buf, 8), n - 8));
        buf := ShiftLeft32(buf, 8);
        n := n - 8;
      }
      putBuffer, putBits := buf, n;
    }

    /** Completes the last byte with ones. */
    method FlushBits() returns (ghost pad: nat)
      requires Valid()
      modifies `putBuffer, `putBits, `output, `emitted
      ensures Valid() && putBits == 0 && pad <= 7
      ensures Sent() == BytesToBits(emitted) == old(Sent()) + Ones(pad)
    {
      hide Stuff, BytesToBits, HeldBits, Pow2, Or, BitsOf;
      var ok := EmitBits(0x7F, 7);
      SevenOnes();
      pad := 7 - putBits;
      TakeOff(BytesToBits(emitted), HeldBits(putBuffer, putBits), old(Sent()), Ones(7));
      OnesPrefix(pad, 7);
      putBuffer, putBits := 0, 0;
      EmptyHeld();
      assert HeldBits(0, 0) == [];
    }

    /** A marker between two pieces of data. */
    method PutMarker(m: byte)
      requires Valid() && putBits == 0
      modifies `output, `header, `emitted
      ensures Valid() && Sent() == []
      ensures output == header == old(header) + Stuff(old(emitted)) + [0xFF, m]
    {
      hide Stuff, BytesToBits;
      output := output + [0xFF];
      output := output + [m];
      assert old(header) + Stuff(old(emitted)) + [0xFF, m] == output;
      header, emitted := output, [];
      EmptyHeld();
    }
  }

  function Ones(n: nat): (s: seq<bit>)
    ensures |s| == n
  {
    seq(n, _ => 1)
  }

  lemma OnesPrefix(m: nat, n: nat)
    requires m <= n
    ensures Ones(n)[..m] == Ones(m)
  {
  }

  lemma SevenOnes()
    ensures BitsOf(0x7F, 7) == Ones(7)
  {
    assert BitsOf(7, 3) == [1, 1, 1];
    assert BitsOf(0x7F, 7) == BitsOf(7, 3) + [1, 1, 1, 1];
  }

  lemma TakeOff(a: seq<bit>, b: seq<bit>, c: seq<bit>, d: seq<bit>)
    requires a + b == c + d && |b| <= |d|
    ensures a == c + d[..|d| - |b|]
  {
    assert a == (a + b)[..|a|] == (c + d)[..|a|];
  }

  // ----- The put buffer -----

  /** Below the waiting bits there are only zeros. */
  ghost predicate Held(buf: nat, n: nat) {
    n <= PUT_SIZE && buf < Pow2(BIT_BUF_SIZE) && buf % Pow2(PUT_SIZE - n) == 0
  }

  ghost function HeldBits(buf: nat, n: nat): (s: seq<bit>)
    requires n <= PUT_SIZE
    ensures |s| == n
  {
    BitsOf(buf / Pow2(PUT_SIZE - n), n)
  }

  lemma EmptyHeld()
    ensures Held(0, 0)
    ensures BytesToBits([]) == [] && Stuff([]) == []
  {
  }

  /** The field that waits, as a number. */
  lemma HeldField(buf: nat, n: nat) returns (h: nat)
    requires Held(buf, n)
    ensures buf == Shl(h, PUT_SIZE - n) < Pow2(BIT_BUF_SIZE) && HeldBits(buf, n) == BitsOf(h, n)
  {
    hide Pow2, BitsOf;
    h := buf / Pow2(PUT_SIZE - n);
    DivMod(buf, Pow2(PUT_SIZE - n));
  }

  lemma FieldHeld(h: nat, n: nat, buf: nat)
    requires n <= PUT_SIZE && buf == Shl(h, PUT_SIZE - n) && buf < Pow2(BIT_BUF_SIZE)
    ensures Held(buf, n) && HeldBits(buf, n) == BitsOf(h, n)
  {
    hide Pow2, BitsOf;
    var k := Pow2(PUT_SIZE - n);
    DivModUnique(buf, k, h, 0);
  }

  /** The place of new bits below the waiting ones. */
  function Aligned(code: int, size: nat, n: nat): (x: int)
    requires n + size <= PUT_SIZE
  {
    Shl(code % Pow2(size), PUT_SIZE - (n + size))
  }

  lemma Merged(buf: nat, n: nat, code: int, size: nat)
    requires Held(buf, n) && n + size <= PUT_SIZE
    ensures Aligned(code, size, n) >= 0
    ensures Held(Or(buf, Aligned(code, size, n)), n + size)
    ensures HeldBits(Or(buf, Aligned(code, size, n)), n + size) == HeldBits(buf, n) + BitsOf(code, size)
  {
    hide Pow2, BitsOf, Or, HeldBits, Held, Shl;
    var j := PUT_SIZE - (n + size);
    var y: nat := code % Pow2(size);
    var h := HeldField(buf, n);
    var x := Shl(y, j);
    Beside(h, y, size, j);
    BelowTop(h, PUT_SIZE - n, x);
    JoinShl(h, n, y, size);
    FieldHeld(Shl(h, size) + y, n + size, buf + x);
    LowBitsInt(code, size);
  }

  lemma JoinShl(x: nat, n: nat, y: nat, k: nat)
    requires y < Pow2(k)
    ensures Shl(x, k) >= 0 && BitsOf(Shl(x, k) + y, n + k) == BitsOf(x, n) + BitsOf(y, k)
  {
    BitsOfJoin(x, n, y, k);
  }

  lemma Beside(h: nat, y: nat, size: nat, j: nat)
    requires y < Pow2(size)
    ensures 0 <= Shl(y, j) < Pow2(size + j)
    ensures Shl(Shl(h, size) + y, j) == Shl(h, size + j) + Shl(y, j)
  {
    hide Pow2;
    Pow2Add(size, j);
    MulMono(y + 1, Pow2(size), Pow2(j));
    ShlAdd(Shl(h, size), y, j);
    ShlTwice(h, size, j);
  }

  /** Filling in the zeros at the bottom does not overflow the register. */
  lemma BelowTop(h: nat, k: nat, x: nat)
    requires k <= BIT_BUF_SIZE && Shl(h, k) < Pow2(BIT_BUF_SIZE) && x < Pow2(k)
    ensures 0 <= Shl(h, k) && Or(Shl(h, k), x) == Shl(h, k) + x < Pow2(BIT_BUF_SIZE)
  {
    hide Pow2, Or;
    OrDisjoint(h, x, k);
    Pow2Add(BIT_BUF_SIZE - k, k);
    MulCancel(Pow2(k), h, Pow2(BIT_BUF_SIZE - k));
    TopField(h, Pow2(BIT_BUF_SIZE - k), Pow2(k), x);
  }

  /** The highest byte of the 24 bits is the next one; a shift by eight drops it. */
  lemma Taken(buf: nat, n: nat)
    requires 8 <= n && Held(buf, n)
    ensures 0 <= Field(buf, 8, 16) < 256
    ensures Held(ShiftLeft32(buf, 8), n - 8)
    ensures HeldBits(buf, n) == BitsOf(Field(buf, 8, 16), 8) + HeldBits(ShiftLeft32(buf, 8), n - 8)
  {
    HeldSize(buf, n);
    hide Pow2, BitsOf, HeldBits, ShiftLeft32, Value, Held, Shl, Field;
    var h := HeldField(buf, n);
    TakenByte(buf, h, n);
    TakenRest(buf, h, n);
    BitField(h, 8, n - 8);
    assert BitsOf(h, n) == BitsOf(h, n)[..8] + BitsOf(h, n)[8..];
  }

  lemma HeldSize(buf: nat, n: nat)
    requires Held(buf, n)
    ensures n <= PUT_SIZE
  {
  }

  lemma TakenByte(buf: nat, h: nat, n: nat)
    requires 8 <= n <= PUT_SIZE && buf == Shl(h, PUT_SIZE - n)
    ensures 0 <= Field(buf, 8, 16) < 256 && BitsOf(Field(buf, 8, 16), 8) == BitsOf(h, n)[..8]
  {
    Pow2Byte();
    hide Pow2, BitsOf, Value, Shl, Field;
    BitField(buf, 8, 16);
    JoinShl(h, n, 0, PUT_SIZE - n);
    FirstOf(BitsOf(h, n), BitsOf(0, PUT_SIZE - n), 8);
    BitsOfValue(BitsOf(h, n)[..8]);
  }

  lemma FirstOf(a: seq<bit>, b: seq<bit>, n: nat)
    requires n <= |a|
    ensures (a + b)[..n] == a[..n]
  {
  }

  lemma TakenRest(buf: nat, h: nat, n: nat)
    requires 8 <= n <= PUT_SIZE && buf == Shl(h, PUT_SIZE - n)
    ensures Held(ShiftLeft32(buf, 8), n - 8)
    ensures HeldBits(ShiftLeft32(buf, 8), n - 8) == BitsOf(h, n - 8)
  {
    hide Pow2, BitsOf, HeldBits, ShiftLeft32, Held, Shl;
    ShiftIn(buf, 0, 8, 0);
    var h' := h % Pow2(n);
    DivMod(h, Pow2(n));
    TakenShift(buf, h, n);
    LowBits(h, n - 8, n);
    FieldHeld(h', n - 8, ShiftLeft32(buf, 8));
  }

  lemma TakenShift(buf: nat, h: nat, n: nat)
    requires 8 <= n <= PUT_SIZE && buf == Shl(h, PUT_SIZE - n)
    ensures ShiftLeft32(buf, 8) == Shl(h % Pow2(n), PUT_SIZE - (n - 8))
  {
    hide Pow2, ShiftLeft32;
    var k := PUT_SIZE - n;
    ShiftedLeft(buf, 8);
    DivMod(h, Pow2(n));
    Pow2Add(n, k);
    ShiftParts(h, Pow2(n), Pow2(k), h / Pow2(n), h % Pow2(n));
    ShlTwice(h % Pow2(n), k, 8);
  }
}
