/** The register machine of the arithmetic encoder: the interval base is kept in
    a 28-bit register, and the bytes that a later carry could still change are
    held back in counters. */
module ArithEncoder {
  import opened Numbers
  import opened Stuffing
  import opened AriTable
  import opened IntervalCoder

  /** Logical data bytes as the registers hold them: written, pending zeros, the
      last byte that can take a carry, and stacked 0xFF bytes above it. */
  function Held(emitted: seq<byte>, zc: nat, buffer: int, sc: nat): (s: seq<byte>)
    requires -1 <= buffer <= 254
  {
    emitted + Repeat(0, zc) + (if buffer >= 0 then [buffer] else []) + Repeat(0xFF, sc)
  }

  /** A carry ripples through the stacked 0xFF bytes into the buffered byte. */
  lemma {:induction false} Carry(x: seq<byte>, b: byte, sc: nat)
    requires b < 0xFF
    ensures Num(x + [b + 1] + Repeat(0, sc)) == Num(x + [b] + Repeat(0xFF, sc)) + 1
  {
    if sc == 0 {
      assert x + [b + 1] + Repeat(0, 0) == x + [b + 1];
      assert x + [b] + Repeat(0xFF, 0) == x + [b];
      NumSnoc(x, b + 1);
      NumSnoc(x, b);
    } else {
      Carry(x, b, sc - 1);
      var lo, hi := x + [b + 1] + Repeat(0, sc - 1), x + [b] + Repeat(0xFF, sc - 1);
      assert x + [b + 1] + Repeat(0, sc) == lo + [0];
      assert x + [b] + Repeat(0xFF, sc) == hi + [0xFF];
      NumSnoc(lo, 0);
      NumSnoc(hi, 0xFF);
    }
  }

  lemma {:induction false} AllOnes(sc: nat)
    ensures Num(Repeat(0xFF, sc)) == Pow2(8 * sc) - 1
  {
    if sc > 0 {
      AllOnes(sc - 1);
      NumSnoc(Repeat(0xFF, sc - 1), 0xFF);
      Pow2Step8(sc - 1);
    }
  }

  /** The interval stays below one, so a carry always finds a byte to go into. */
  lemma CarryHasPlace(emitted: seq<byte>, zc: nat, buffer: int, sc: nat, c: nat)
    requires -1 <= buffer <= 254 && (buffer == -1 ==> emitted == [] && zc == 0)
    requires Num(Held(emitted, zc, buffer, sc)) * 0x8000000 + c
             < Pow2(8 * |Held(emitted, zc, buffer, sc)|) * 0x8000000
    ensures c >= 0x8000000 ==> buffer >= 0
  {
    if buffer == -1 {
      assert Held(emitted, zc, buffer, sc) == Repeat(0xFF, sc);
      AllOnes(sc);
    }
  }

  lemma SettleBuffer(e0: seq<byte>, z0: nat, buffer: int, sc: nat, e: seq<byte>, z: nat)
    requires -1 <= buffer <= 254
    requires if buffer == 0 then e == e0 && z == z0 + 1
             else if buffer > 0 then e == e0 + Repeat(0, z0) + [buffer] && z == 0
             else e == e0 && z == z0
    ensures e + Repeat(0, z) + Repeat(0xFF, sc) == Held(e0, z0, buffer, sc)
    ensures sc == 0 ==> e + Repeat(0, z) == Held(e0, z0, buffer, sc)
  {
    assert e + Repeat(0, z) == e0 + Repeat(0, z0) + (if buffer >= 0 then [buffer] else []);
  }

  /** A new byte over settled data. */
  lemma AfterSettle(e: seq<byte>, z: nat, h: seq<byte>, nb: byte)
    requires nb < 0xFF && e + Repeat(0, z) == h
    ensures Held(e, z, nb, 0) == h + [nb]
    ensures Num(Held(e, z, nb, 0)) == 256 * Num(h) + nb
  {
    assert Held(e, z, nb, 0) == h + [nb];
    NumSnoc(h, nb);
  }

  lemma AfterStack(e: seq<byte>, z: nat, b: int, sc: nat)
    requires -1 <= b <= 254
    ensures Held(e, z, b, sc + 1) == Held(e, z, b, sc) + [0xFF]
    ensures Num(Held(e, z, b, sc + 1)) == 256 * Num(Held(e, z, b, sc)) + 0xFF
  {
    var h := Held(e, z, b, sc);
    assert Held(e, z, b, sc + 1) == h + [0xFF];
    NumSnoc(h, 0xFF);
  }

  lemma AfterOverflow(e: seq<byte>, z: nat, b: int, sc: nat)
    requires 0 <= b <= 254
    ensures |e + Repeat(0, z) + [b + 1] + Repeat(0, sc)| == |Held(e, z, b, sc)|
    ensures Num(e + Repeat(0, z) + [b + 1] + Repeat(0, sc)) == Num(Held(e, z, b, sc)) + 1
  {
    Carry(e + Repeat(0, z), b, sc);
  }

  // ----- The register at the end -----

  /** What is above the bytes that are still to come: a carry. */
  function Above(c: nat): (n: nat) {
    c / 0x8000000
  }

  /** The last two bytes that the register can give. */
  function LastTwo(c: nat): (s: seq<byte>) {
    [c / 0x80000 % 0x100, c / 0x800 % 0x100]
  }

  /** There is nothing below them. */
  predicate Rounded(c: nat) {
    c % 0x800 == 0
  }

  /** The register with the data is below one. */
  ghost predicate FitsAbove(data: seq<byte>, c: nat) {
    Num(data) * 0x8000000 + c < Pow2(8 * |data|) * 0x8000000 && c < 0x9000000
  }

  class ArithEncoder {
    var c: nat        // base of the coding interval
    var a: nat        // normalised size of the coding interval
    var sc: nat       // stacked 0xFF bytes, which might overflow
    var zc: nat       // pending 0x00 bytes, which might be discarded at the end
    var ct: int       // shifts until the next byte is ready
    var buffer: int   // most recent byte that is not 0xFF, or -1
    var stats: Stats
    var output: seq<byte>

    ghost var header: seq<byte>     // output before this coded segment
    ghost var emitted: seq<byte>    // data bytes of this segment, unstuffed
    ghost var iv: Interval          // the exact interval

    constructor (areas: Stats)
      requires StatsOk(areas)
      ensures Valid() && State() == Coder(WHOLE, areas)
      ensures output == [] && header == []
    {
      c, a, sc, zc, ct, buffer := 0, 0x10000, 0, 0, 11, -1;
      stats, output, header, emitted, iv := areas, [], [], [], WHOLE;
      new;
      hide Held, Shl, Num, Pow2, Stuff, Repeat;
      StartRegisters([]);
    }

    ghost predicate OutputOk()
      reads this
    {
      && -1 <= buffer <= 254
      && (buffer == -1 ==> emitted == [] && zc == 0)
      && output == header + Stuff(emitted)
      && Trimmed(emitted)
    }

    ghost function Data(): (s: seq<byte>)
      requires -1 <= buffer <= 254
      reads this
    {
      Held(emitted, zc, buffer, sc)
    }

    /** The registers denote the exact interval. */
    ghost predicate Denotes()
      reads this
    {
      && OutputOk()
      && 0 <= ct <= 11
      && 1 <= a <= 0x10000
      && iv.a == a
      && iv.s + ct == 8 * |Data()| + 11
      && iv.low == Shl(Num(Data()), 27 - ct) + c
      && iv.low + a <= Pow2(16 + iv.s)
      && Shl(c + a, ct) <= 0x9000000
    }

    ghost predicate Valid()
      reads this
    {
      Denotes() && a >= 0x8000 && ct >= 1 && StatsOk(stats)
    }

    ghost function State(): (k: Coder)
      requires Valid()
      reads this
      ensures Ready(k)
    {
      Coder(iv, stats)
    }

    lemma Fields()
      requires Valid()
      ensures State() == Coder(iv, stats)
    {
    }

    method EmitByte(val: byte)
      modifies `output
      ensures output == old(output) + [val]
    {
      output := output + [val];
    }

    method EmitZeros()
      requires output == header + Stuff(emitted)
      modifies `output, `zc, `emitted
      ensures output == header + Stuff(emitted) && zc == 0
      ensures emitted == old(emitted) + Repeat(0, old(zc))
    {
      hide Repeat, Stuff;
      RepeatNone(emitted, 0);
      while zc > 0
        invariant output == header + Stuff(emitted)
        invariant emitted + Repeat(0, zc) == old(emitted) + Repeat(0, old(zc))
      {
        StuffOutput(header, emitted, 0);
        RepeatShift(emitted, 0, zc - 1);
        EmitByte(0);
        emitted := emitted + [0];
        zc := zc - 1;
      }
      RepeatNone(emitted, 0);
    }

    method EmitStacked()
      requires output == header + Stuff(emitted)
      modifies `output, `sc, `emitted
      ensures output == header + Stuff(emitted) && sc == 0
      ensures emitted == old(emitted) + Repeat(0xFF, old(sc))
      ensures old(sc) > 0 ==> emitted != [] && emitted[|emitted| - 1] == 0xFF
    {
      hide Repeat, Stuff;
      while sc > 0
        invariant output == header + Stuff(emitted)
        invariant emitted + Repeat(0xFF, sc) == old(emitted) + Repeat(0xFF, old(sc))
        invariant sc == old(sc) || (emitted != [] && emitted[|emitted| - 1] == 0xFF)
      {
        StuffOutput(header, emitted, 0xFF);
        RepeatShift(emitted, 0xFF, sc - 1);
        EmitByte(0xFF);
        EmitByte(0);
        emitted := emitted + [0xFF];
        sc := sc - 1;
      }
      RepeatNone(emitted, 0xFF);
    }

    /** Writes the buffered byte plus one; stacked 0xFF bytes become pending zeros. */
    method Overflow()
      requires OutputOk()
      modifies `output, `zc, `sc, `emitted
      ensures output == header + Stuff(emitted) && sc == 0
      ensures Trimmed(emitted)
      ensures buffer >= 0 ==> zc == old(sc) && emitted == old(emitted) + Repeat(0, old(zc)) + [buffer + 1]
    {
      hide Repeat, Stuff, Num, Pow2;
      if buffer >= 0 {
        EmitZeros();
        StuffOutput(header, emitted, buffer + 1);
        EmitByte(buffer + 1);
        if buffer + 1 == 0xFF {
          EmitByte(0);
        }
        emitted := emitted + [buffer + 1];
      }
      zc := zc + sc;
      sc := 0;
    }

    /** Writes the buffered byte and the stacked 0xFF bytes; a zero is only counted. */
    method Settle()
      requires OutputOk()
      modifies `output, `zc, `sc, `emitted
      ensures output == header + Stuff(emitted) && sc == 0
      ensures emitted + Repeat(0, zc) == old(Data())
      ensures Trimmed(emitted) && (buffer == -1 && old(sc) == 0 ==> emitted == [] && zc == 0)
    {
      hide Stuff, Num, Pow2;
      ghost var e0, z0 := emitted, zc;
      if buffer == 0 {
        zc := zc + 1;
      } else if buffer >= 0 {
        EmitZeros();
        StuffOutput(header, emitted, buffer);
        EmitByte(buffer);
        emitted := emitted + [buffer];
      }
      SettleBuffer(e0, z0, buffer, old(sc), emitted, zc);
      if sc > 0 {
        EmitZeros();
        EmitStacked();
        assert emitted + Repeat(0, 0) == emitted;
      }
    }

    /** Takes over the next byte; a value above 0xFF carries into the held data. */
    method PushByte(temp: nat)
      requires OutputOk() && temp < 0x1FF && (temp > 0xFF ==> buffer >= 0)
      modifies `sc, `zc, `buffer, `output, `emitted
      ensures OutputOk()
      ensures |Data()| == |old(Data())| + 1
      ensures Num(Data()) == 256 * Num(old(Data())) + temp
      ensures temp != 0xFF ==> buffer == temp % 0x100
    {
      hide Repeat, Stuff, Num, Held, Pow2;
      ghost var h := Data();
      if temp > 0xFF {
        AfterOverflow(emitted, zc, buffer, sc);
        Overflow();
        buffer := temp % 0x100;
        AfterSettle(emitted, zc, emitted + Repeat(0, zc), buffer);
      } else if temp == 0xFF {
        AfterStack(emitted, zc, buffer, sc);
        sc := sc + 1;
      } else {
        Settle();
        buffer := temp % 0x100;
        AfterSettle(emitted, zc, h, buffer);
      }
    }

    /** The next byte leaves the register.  A carry finds a byte below 0xFF to go
        into, and leaves a new byte that is below 32. */
    method ByteOut()
      requires Denotes() && ct == 0
      modifies `c, `sc, `zc, `ct, `buffer, `output, `emitted
      ensures Denotes() && ct == 8
      ensures old(c) >= 0x8000000 ==> 0 <= old(buffer) < 0xFF && buffer < 32
    {
      hide Repeat, Stuff, Num, Held, Shl, Pow2;
      ghost var n := Num(Data());
      NoCarryPastOne(iv, a, Data(), c);
      CarryHasPlace(emitted, zc, buffer, sc, c);
      var temp := c / 0x80000;
      PushByte(temp);
      c := c % 0x80000;
      ct := ct + 8;
      ShiftedOut(iv.low, n, temp, c, a);
    }

    /** One renormalisation step. */
    method Shift()
      requires Denotes() && 1 <= ct && a <= 0x8000
      modifies `c, `a, `sc, `zc, `ct, `buffer, `output, `emitted, `iv
      ensures Denotes() && 1 <= ct
      ensures iv == Interval(2 * old(iv.low), 2 * old(iv.a), old(iv.s) + 1)
    {
      hide Repeat, Stuff, Num, Held, Shl;
      Doubled(Num(Data()), ct, c, a);
      a := 2 * a;
      c := 2 * c;
      iv := Interval(2 * iv.low, 2 * iv.a, iv.s + 1);
      ct := ct - 1;
      if ct == 0 {
        ByteOut();
      }
    }

    /** Codes one decision and adapts its bin. */
    method Encode(bin: Bin, val: bit)
      requires Valid() && bin in stats
      modifies `c, `a, `sc, `zc, `ct, `buffer, `output, `emitted, `iv, `stats
      ensures Valid() && State() == Code(old(State()), Decision(bin, val))
    {
      hide Repeat, Stuff, Num, Held, Shl, Pow2, Aritab, AfterLps, AfterMps;
      var sv := stats[bin];
      var qe := QeOf(sv);
      ghost var lps := val != sv / 128;
      ghost var narrow := Narrow(iv, qe, lps);
      a := a - qe;
      if val != sv / 128 {
        if a >= qe {
          c := c + a;
          a := qe;
        }
        stats := stats[bin := AfterLps(sv)];
      } else {
        if a >= 0x8000 {
          NarrowDenotes(ct, old(c), old(a), c, a);
          iv := narrow;
          assert stats == stats[bin := sv];
          return;
        }
        if a < qe {
          c := c + a;
          a := qe;
        }
        stats := stats[bin := AfterMps(sv)];
      }
      NarrowDenotes(ct, old(c), old(a), c, a);
      iv := narrow;
      Renormalise();
    }

    /** Registers at the start of a coded segment. */
    method StartPass(areas: Stats)
      requires StatsOk(areas)
      modifies this
      ensures Valid() && State() == Coder(WHOLE, areas)
      ensures output == old(output) && header == output
    {
      hide Held, Shl, Num, Pow2, Stuff, Aritab, Repeat;
      c, a, sc, zc, ct, buffer := 0, 0x10000, 0, 0, 11, -1;
      stats := areas;
      header, emitted, iv := output, [], WHOLE;
      StartRegisters(header);
    }

    /** Moves the base to the number in the interval with the most trailing zeros. */
    method PickTarget() returns (ghost x: nat)
      requires Valid()
      modifies `c
      ensures c == Shl(x, ct) && Rounded(c)
      ensures Target(iv) == Shl(Num(Data()), 27 - ct) + x
      ensures FitsAbove(Data(), c)
      ensures OutputOk() && 1 <= ct <= 11 && iv.s + ct == 8 * |Data()| + 11 && Normal(iv)
    {
      hide Repeat, Stuff, Num, Held, Pow2, Shl, Target, Rounded, FitsAbove;
      ghost var base := c;
      var temp := (a - 1 + c) - (a - 1 + c) % 0x10000;
      if temp < c {
        c := temp + 0x8000;
      } else {
        c := temp;
      }
      x := c;
      Chosen(iv, Data(), ct, base, a, x);
      c := Shl(c, ct);
    }

    /** Terminates the segment.  The bytes written denote a number in the interval, end
        in no zero byte, and no byte string for a number in the interval is shorter. */
    method FinishPass() returns (ghost code: seq<byte>)
      requires Valid()
      modifies `c, `sc, `zc, `output, `emitted
      ensures output == header + Stuff(code)
      ensures Contains(iv, code) && Trimmed(code)
      ensures forall e :: Contains(iv, e) ==> |code| <= |e|
    {
      hide Repeat, Stuff, Num, Held, Shl, Pow2, Target, Contains, IsNumber, Valid, Denotes, Data, Normal,
           Rounded, FitsAbove, Above, LastTwo;
      ghost var x := PickTarget();
      ghost var h := Data();
      FlushHeld();
      ghost var settled := emitted + Repeat(0, zc);
      ghost var k;
      code, k := EmitLast();
      FinalData(iv, Num(h), settled, c, code, ct, x, k);
    }

    /** Writes what was held back, after one last carry if there is one. */
    method FlushHeld()
      requires OutputOk()
      requires FitsAbove(Data(), c)
      modifies `sc, `zc, `output, `emitted
      ensures output == header + Stuff(emitted) && Trimmed(emitted)
      ensures |emitted + Repeat(0, zc)| == |old(Data())|
      ensures Num(emitted + Repeat(0, zc)) == Num(old(Data())) + Above(c)
    {
      hide Repeat, Stuff, Num, Held, Pow2;
      CarryHasPlace(emitted, zc, buffer, sc, c);
      if c >= 0x8000000 {
        AfterOverflow(emitted, zc, buffer, sc);
        Overflow();
      } else {
        Settle();
      }
    }

    /** Writes the last two bytes of the register, unless they are zeros at the end. */
    method EmitLast() returns (ghost code: seq<byte>, ghost k: nat)
      requires output == header + Stuff(emitted) && Trimmed(emitted) && Rounded(c)
      modifies `zc, `output, `emitted
      ensures output == header + Stuff(code) && Trimmed(code)
      ensures old(emitted + Repeat(0, zc)) + LastTwo(c) == code + Repeat(0, k)
    {
      hide Repeat, Stuff, Num, Pow2;
      var b1, b2 := c / 0x80000 % 0x100, c / 0x800 % 0x100;
      RegisterBytes(c);
      if c % 0x8000000 / 0x800 != 0 {
        EmitZeros();
        EmitFinal(b1);
        if b2 != 0 {
          EmitFinal(b2);
        }
      }
      code := emitted;
      k := FinalBytes(old(emitted), old(zc), b1, b2, code);
    }

    method EmitFinal(b: byte)
      requires output == header + Stuff(emitted)
      modifies `output, `emitted
      ensures output == header + Stuff(emitted) && emitted == old(emitted) + [b]
    {
      hide Stuff;
      StuffOutput(header, emitted, b);
      EmitByte(b);
      if b == 0xFF {
        EmitByte(0);
      }
      emitted := emitted + [b];
    }

    method Renormalise()
      requires Denotes() && a < 0x8000 && ct >= 1
      modifies `c, `a, `sc, `zc, `ct, `buffer, `output, `emitted, `iv
      ensures Denotes() && ct >= 1 && iv == Renorm(old(iv))
    {
      hide Denotes, Renorm;
      ghost var iv0 := iv;
      Width();
      RenormStep(iv);
      Shift();
      Width();
      while a < 0x8000
        invariant Denotes() && ct >= 1 && iv.a == a && 1 <= a <= 0x10000
        invariant Renorm(iv) == Renorm(iv0)
      {
        RenormStep(iv);
        Shift();
        Width();
      }
      RenormStep(iv);
    }

    lemma Width()
      requires Denotes()
      ensures iv.a == a && 1 <= a <= 0x10000
    {
    }
  }

  lemma Doubled(n: nat, ct: nat, c: nat, a: nat)
    requires 1 <= ct <= 11
    ensures 2 * (Shl(n, 27 - ct) + c) == Shl(n, 27 - (ct - 1)) + 2 * c
    ensures Shl(2 * c + 2 * a, ct - 1) == Shl(c + a, ct)
  {
    ShlStep(n, 27 - ct);
    ShlStep(c + a, ct - 1);
    assert 2 * c + 2 * a == 2 * (c + a);
  }

  lemma NarrowDenotes(ct: nat, c: nat, a: nat, c': nat, a': nat)
    requires c' + a' <= c + a
    ensures Shl(c' + a', ct) <= Shl(c + a, ct)
  {
    ShlMono(c' + a', c + a, ct);
  }

  lemma StartRegisters(header: seq<byte>)
    ensures Held([], 0, -1, 0) == [] && header + Stuff([]) == header
    ensures Pow2(16) == 0x10000 && Shl(Num([]), 16) == 0 && Shl(0x10000, 11) == 0x8000000
  {
    StartValues();
  }

  lemma StartValues()
    ensures Held([], 0, -1, 0) == []
    ensures Pow2(16) == 0x10000 && Pow2(11) == 0x800
  {
    assert Pow2(4) == 16;
    Pow2Add(4, 4);
    Pow2Add(8, 8);
    Pow2Add(8, 3);
  }

  /** The register set to the terminating value, and moved to its place. */
  lemma Chosen(iv: Interval, h: seq<byte>, ct: nat, c: nat, a: nat, x: nat)
    requires 1 <= ct <= 11 && 0x8000 <= a <= 0x10000 && iv.a == a && iv.s + ct == 8 * |h| + 11
    requires iv.low == Shl(Num(h), 27 - ct) + c && iv.low + a <= Pow2(16 + iv.s) && Shl(c + a, ct) <= 0x9000000
    requires var t := (a - 1 + c) - (a - 1 + c) % 0x10000; x == if t < c then t + 0x8000 else t
    ensures Target(iv) == Shl(Num(h), 27 - ct) + x && Shl(x, ct) >= 0
    ensures Rounded(Shl(x, ct)) && FitsAbove(h, Shl(x, ct))
  {
    hide Pow2, Num, Target, Shl, Rounded;
    TargetRegister(Num(h), ct, c, a, x, iv);
    FinalRange(iv, h, x, ct, c, a);
    RoundedShl(x, ct);
  }

  lemma RoundedShl(x: nat, ct: nat)
    requires x % 0x8000 == 0
    ensures Shl(x, ct) >= 0 && Rounded(Shl(x, ct))
  {
    hide Pow2;
    var m, p := x / 0x8000, Pow2(ct);
    MulSwap(m, 0x8000, p);
    assert x == m * 0x8000 && x * p == 0x800 * (16 * (m * p));
    ModOfMultiple(16 * (m * p), 0x800);
  }

  lemma MultipleOfWord(n: nat, k: nat)
    requires k >= 16
    ensures Shl(n, k) % 0x10000 == 0
  {
    hide Pow2;
    MultipleOf(n, k, 16);
  }

  lemma SameRest(m: int, t: int)
    requires m % 0x10000 == 0
    ensures (m + t) % 0x10000 == t % 0x10000
  {
  }

  lemma RoundedBase(c: nat, a: nat, c': int)
    requires 0x8000 <= a <= 0x10000
    requires var t := (a - 1 + c) - (a - 1 + c) % 0x10000; c' == if t < c then t + 0x8000 else t
    ensures c <= c' < c + a && c' % 0x8000 == 0
  {
    var q := (a - 1 + c) / 0x10000;
    var m := if 0x10000 * q < c then 2 * q + 1 else 2 * q;
    assert c' == m * 0x8000;
    ModOfMultiple(m, 0x8000);
  }

  lemma TargetRegister(n: nat, ct: nat, c: nat, a: nat, c': nat, iv: Interval)
    requires 1 <= ct <= 11 && 0x8000 <= a <= 0x10000
    requires iv.low == Shl(n, 27 - ct) + c && iv.a == a
    requires var t := (a - 1 + c) - (a - 1 + c) % 0x10000; c' == if t < c then t + 0x8000 else t
    ensures Target(iv) == Shl(n, 27 - ct) + c'
    ensures c <= c' < c + a && c' % 0x8000 == 0
  {
    hide Pow2, Shl;
    MultipleOfWord(n, 27 - ct);
    SameRest(Shl(n, 27 - ct), a - 1 + c);
    RoundedBase(c, a, c');
  }

  lemma FinalRange(iv: Interval, h: seq<byte>, c': nat, ct: nat, c: nat, a: nat)
    requires 1 <= ct <= 11 && iv.s + ct == 8 * |h| + 11 && c <= c' < c + a
    requires iv.low == Shl(Num(h), 27 - ct) + c && iv.low + a <= Pow2(16 + iv.s)
    requires Shl(c + a, ct) <= 0x9000000
    ensures Num(h) * 0x8000000 + Shl(c', ct) < Pow2(8 * |h|) * 0x8000000
    ensures Shl(c', ct) < 0x9000000
  {
    hide *;
    ShlByte(Num(h));
    ShlByte(Pow2(8 * |h|));
    PowerShl(8 * |h|, 27);
    PowerShl(16 + iv.s, ct);
    assert 16 + iv.s + ct == 8 * |h| + 27;
    ShlMono(c + a, c', ct);
    ShlTwice(Num(h), 27 - ct, ct);
    ShlAdd(Shl(Num(h), 27 - ct), c', ct);
    ShlMono(Pow2(16 + iv.s), Shl(Num(h), 27 - ct) + c', ct);
  }

  lemma ShlByte(x: int)
    ensures Shl(x, 27) == x * 0x8000000
    ensures Shl(x, 11) == x * 0x800
  {
    Pow2Values();
    StartValues();
  }

  lemma PowerShl(m: nat, n: nat)
    ensures Shl(Pow2(m), n) == Pow2(m + n)
  {
    Pow2Add(m, n);
  }

  /** The written data and the two last bytes differ only in zeros at the end. */
  lemma FinalBytes(e: seq<byte>, z: nat, b1: byte, b2: byte, code: seq<byte>) returns (k: nat)
    requires if b1 == 0 && b2 == 0 then code == e
             else code == e + Repeat(0, z) + (if b2 == 0 then [b1] else [b1, b2])
    ensures e + Repeat(0, z) + [b1, b2] == code + Repeat(0, k)
  {
    var full := e + Repeat(0, z) + [b1, b2];
    if b1 == 0 && b2 == 0 {
      k := z + 2;
      assert full == e + ((Repeat(0, z) + [0]) + [0]);
    } else if b2 == 0 {
      k := 1;
      assert Repeat(0, 1) == [0];
    } else {
      k := 0;
      RepeatNone(code, 0);
    }
  }

  lemma RegisterBytes(c: nat)
    ensures c / 0x800 == 0x10000 * (c / 0x8000000) + 0x100 * (c / 0x80000 % 0x100) + c / 0x800 % 0x100
    ensures c % 0x8000000 / 0x800 == 0x100 * (c / 0x80000 % 0x100) + c / 0x800 % 0x100
  {
    var d := c / 0x800;
    var d1 := d / 0x100;
    assert c / 0x80000 == d1;
    assert c / 0x8000000 == d1 / 0x100;
    assert c % 0x8000000 / 0x800 == d - 0x10000 * (d1 / 0x100);
  }

  lemma LastBytes(n: nat, settled: seq<byte>, c: nat)
    requires c % 0x800 == 0 && Num(settled) == n + c / 0x8000000
    ensures Num(settled + [c / 0x80000 % 0x100, c / 0x800 % 0x100]) * 0x800 == n * 0x8000000 + c
  {
    hide Num;
    var b1, b2 := c / 0x80000 % 0x100, c / 0x800 % 0x100;
    NumSnoc(settled, b1);
    NumSnoc(settled + [b1], b2);
    assert settled + [b1] + [b2] == settled + [b1, b2];
    RegisterBytes(c);
  }

  /** The two bytes that are left complete a number that is as short as any in the interval. */
  lemma FinalData(iv: Interval, n: nat, settled: seq<byte>, c: nat, code: seq<byte>, ct: nat, x: nat, k: nat)
    requires Normal(iv) && 1 <= ct <= 11 && iv.s + ct == 8 * |settled| + 11 && Trimmed(code)
    requires Target(iv) == Shl(n, 27 - ct) + x && c == Shl(x, ct) && Rounded(c)
    requires Num(settled) == n + Above(c) && settled + LastTwo(c) == code + Repeat(0, k)
    ensures Contains(iv, code) && forall e :: Contains(iv, e) ==> |code| <= |e|
  {
    hide Repeat, Num, Shl, Target, Contains, IsNumber, Normal;
    LastBytes(n, settled, c);
    FinalNumber(iv, n, settled, c, code, ct, x, k);
    ShortestOfAll(iv, code);
  }

  lemma NumberIs(e: seq<byte>, x: int, s: nat)
    ensures IsNumber(e, x, s) <==> Shl(Num(e), 16 + s) == Shl(x, 8 * |e|)
  {
    hide Num, Shl;
  }

  lemma FinalNumber(iv: Interval, n: nat, settled: seq<byte>, c: nat, code: seq<byte>, ct: nat, x: nat, k: nat)
    requires 1 <= ct <= 11 && iv.s + ct == 8 * |settled| + 11
    requires Target(iv) == Shl(n, 27 - ct) + x && c == Shl(x, ct)
    requires |code + Repeat(0, k)| == |settled| + 2
    requires Num(code + Repeat(0, k)) * 0x800 == n * 0x8000000 + c
    ensures IsNumber(code, Target(iv), iv.s) && 8 * |code| <= 16 + iv.s
  {
    hide *;
    var t := code + Repeat(0, k);
    assert |t| == |settled| + 2;
    var r := 8 * |settled| + 16 - ct;
    ShlByte(Num(t));
    ShlByte(n);
    ShlAdd(Shl(n, 27 - ct), x, ct);
    ShlTwice(n, 27 - ct, ct);
    assert Shl(Target(iv), ct) == Shl(Num(t), 11);
    ShlTwice(Num(t), 11, r);
    ShlTwice(Target(iv), ct, r);
    assert 11 + r == 16 + iv.s && ct + r == 8 * |t|;
    NumberIs(t, Target(iv), iv.s);
    DropZeros(code, k, Target(iv), iv.s);
  }

  lemma DropZeros(code: seq<byte>, k: nat, x: int, s: nat)
    requires IsNumber(code + Repeat(0, k), x, s)
    ensures IsNumber(code, x, s)
  {
    hide Num, Shl, Repeat;
    NumZeros(code, k);
    ShlSwap(Num(code), 8 * k, 16 + s);
    ShlTwice(x, 8 * |code|, 8 * k);
    assert 8 * |code + Repeat(0, k)| == 8 * |code| + 8 * k;
    ShlInjective(Shl(Num(code), 16 + s), Shl(x, 8 * |code|), 8 * k);
  }

  lemma NoCarryPastOne(iv: Interval, a: nat, h: seq<byte>, c: nat)
    requires a >= 1 && iv.s == 8 * |h| + 11
    requires iv.low == Shl(Num(h), 27) + c && iv.low + a <= Pow2(16 + iv.s)
    ensures Num(h) * 0x8000000 + c < Pow2(8 * |h|) * 0x8000000
    ensures Shl(Num(h), 27) == Num(h) * 0x8000000 && Shl(c + a, 0) == c + a
  {
    Pow2Add(8 * |h|, 27);
    assert Pow2(27) == 0x8000000 by { Pow2Values(); }
  }

  lemma Pow2Values()
    ensures Pow2(0) == 1 && Pow2(8) == 0x100 && Pow2(19) == 0x80000 && Pow2(27) == 0x8000000
  {
    assert Pow2(4) == 16;
    Pow2Add(4, 4);
    Pow2Add(8, 8);
    Pow2Add(16, 3);
    Pow2Add(19, 8);
  }

  lemma ShiftedOut(low: nat, n: nat, temp: nat, c: nat, a: nat)
    requires low == n * 0x8000000 + (temp * 0x80000 + c) && c < 0x80000 && a <= 0x10000
    ensures low == Shl(256 * n + temp, 19) + c
    ensures Shl(c + a, 8) <= 0x9000000
  {
    Pow2Values();
  }
}
