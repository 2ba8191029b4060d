/** The register machine of the arithmetic decoder.  It follows an encoder: its
    ghost state is the coder state the encoder had at the same decision. */
module ArithDecoder {
  import opened Numbers
  import opened Stuffing
  import opened AriTable
  import opened IntervalCoder

  /** Data after the end of the segment read as zeros. */
  function ByteAt(e: seq<byte>, i: nat): (b: byte) {
    if i < |e| then e[i] else 0
  }

  /** The first m bytes of the zero-extended data, as a number. */
  function Window(e: seq<byte>, m: nat): (n: nat) {
    if m <= |e| then Num(e[..m]) else 256 * Window(e, m - 1)
  }

  lemma WindowStart(e: seq<byte>)
    ensures Window(e, 0) == 0
  {
  }

  lemma WindowStep(e: seq<byte>, m: nat)
    ensures Window(e, m + 1) == 256 * Window(e, m) + ByteAt(e, m)
  {
    if m < |e| {
      assert e[..m + 1] == e[..m] + [e[m]];
      NumSnoc(e[..m], e[m]);
    }
  }

  lemma {:induction false} WindowBeyond(e: seq<byte>, k: nat)
    ensures Window(e, |e| + k) == Num(e) * Pow2(8 * k)
  {
    if k == 0 {
      assert e[..|e|] == e;
    } else {
      WindowBeyond(e, k - 1);
      Pow2Step8(k - 1);
      MulSwap(256, Num(e), Pow2(8 * (k - 1)));
    }
  }

  /** The bytes read so far decide every comparison at their own precision. */
  lemma WindowCompare(e: seq<byte>, m: nat, s: nat, ct: nat, x: nat)
    requires 8 * m == 16 + s + ct
    ensures Shl(x, ct) <= Window(e, m) <==> Reaches(x, s, e)
  {
    hide Pow2, Num, Window;
    var q, w := Pow2(ct), Pow2(16 + s);
    Pow2Add(16 + s, ct);
    if m >= |e| {
      var k := Pow2(8 * (m - |e|));
      WindowBeyond(e, m - |e|);
      Pow2Add(8 * |e|, 8 * (m - |e|));
      assert w * q == Pow2(8 * |e|) * k;
      CompareScaled(x, q, Num(e), k, w, Pow2(8 * |e|));
    } else {
      var k := Pow2(8 * (|e| - m));
      var r := WindowInside(e, m);
      Pow2Add(8 * m, 8 * (|e| - m));
      assert Pow2(8 * |e|) == w * q * k;
      CompareFloor(x, q, Window(e, m), k, r, w);
    }
  }

  lemma WindowInside(e: seq<byte>, m: nat) returns (r: nat)
    requires m <= |e|
    ensures r < Pow2(8 * (|e| - m)) && Num(e) == Pow2(8 * (|e| - m)) * Window(e, m) + r
  {
    r := Num(e[m..]);
    assert e == e[..m] + e[m..];
    NumAppend(e[..m], e[m..]);
    NumBound(e[m..]);
  }

  lemma CompareScaled(x: nat, q: nat, n: nat, k: nat, w: nat, p: nat)
    requires w > 0 && k > 0 && w * q == p * k
    ensures x * q <= n * k <==> x * p <= n * w
  {
    MulCancel(w, x * q, n * k);
    MulCancel(k, x * p, n * w);
    assert w * (x * q) == k * (x * p) by {
      MulSwap(x, w, q);
      MulSwap(x, p, k);
    }
    assert w * (n * k) == k * (n * w);
  }

  lemma CompareFloor(x: nat, q: nat, v: nat, k: nat, r: nat, w: nat)
    requires w > 0 && r < k
    ensures x * q <= v <==> x * (w * q * k) <= (k * v + r) * w
  {
    MulSwap(x, w * q, k);
    MulSwap(x, w, q);
    MulSwap(w, x * q, k);
    FloorScaled(x * q, v, k, r, w);
  }

  lemma FloorScaled(z: nat, v: nat, k: nat, r: nat, w: nat)
    requires w > 0 && r < k
    ensures z <= v <==> w * (z * k) <= (k * v + r) * w
  {
    MulCancel(w, z * k, k * v + r);
    if z <= v {
      MulMono(z, v, k);
    } else {
      MulMono(v + 1, z, k);
    }
  }

  /** Up to stop: the rest of the data, stuffed, and then a marker, with any fill bytes. */
  ghost predicate DataAhead(input: seq<byte>, pos: nat, stop: nat, code: seq<byte>, taken: nat)
    requires pos <= stop <= |input| && taken <= |code|
  {
    && MarkerBefore(input, stop)
    && Ends(input[pos..stop], code[taken..], input[stop - 1])
  }

  ghost predicate Ends(bytes: seq<byte>, data: seq<byte>, marker: byte) {
    exists fill: nat :: bytes == Stuff(data) + MarkerBytes(fill, marker)
  }

  ghost predicate MarkerBefore(input: seq<byte>, stop: nat)
    requires stop <= |input|
  {
    stop >= 1 && input[stop - 1] != 0 && input[stop - 1] != 0xFF
  }

  function MarkerBytes(fill: nat, marker: byte): (s: seq<byte>)
    ensures |s| == fill + 2
    ensures s[fill + 1] == marker && forall i | 0 <= i <= fill :: s[i] == 0xFF
  {
    seq(fill + 1, _ => 0xFF) + [marker]
  }

  class ArithDecoder {
    var c: nat        // base of the coding interval and input bit buffer
    var a: nat        // normalised size of the coding interval
    var ct: int       // bits left in the bit buffer part of c; -16 at the start
    var stats: Stats
    const input: seq<byte>
    var pos: nat      // next byte of input
    var unread: int   // marker found in the data, or 0

    ghost var code: seq<byte>           // data of the segment, unstuffed
    ghost var stop: nat                 // where the marker after the segment ends
    ghost var taken: nat                // data bytes read, zeros after the end included
    ghost var raw: Interval             // interval before renormalisation
    ghost var coder: Coder              // the encoder's state before the next decision
    ghost var pending: seq<Decision>    // decisions the encoder made from here on

    ghost predicate SourceOk()
      reads `pos, `unread, `stop, `code, `taken
    {
      && pos <= stop <= |input| && MarkerBefore(input, stop)
      && if unread == 0 then
           taken <= |code| && DataAhead(input, pos, stop, code, taken)
         else taken > |code| && pos == stop && unread == input[stop - 1]
    }

    ghost predicate Running()
      reads `c, `a, `ct, `raw, `code, `taken
    {
      && 0 <= ct <= 7
      && 1 <= a <= 0x10000 && raw.a == a
      && 8 * taken == 16 + raw.s + ct
      && c + Shl(raw.low, ct) == Window(code, taken)
    }

    ghost predicate Starting()
      reads `c, `a, `ct, `raw, `code, `taken
    {
      && a == 0 && raw == WHOLE
      && ((ct == -16 && taken == 0 && c == 0) || (ct == -8 && taken == 1 && c == Window(code, 1)))
    }

    ghost predicate Following()
      reads `coder, `pending, `stats, `code
    {
      && Ready(coder) && Known(coder.stats, pending)
      && stats == coder.stats
      && Contains(CodeAll(coder, pending).iv, code)
    }

    ghost predicate Valid()
      reads this
    {
      && SourceOk()
      && Following()
      && (Starting() || Running())
      && Renorm(raw) == coder.iv
    }

    constructor (input: seq<byte>)
      ensures this.input == input && pos == 0
    {
      this.input, pos, unread := input, 0, 0;
      c, a, ct, stats := 0, 0, -16, map[];
      code, stop, taken, raw, coder, pending := [], 0, 0, WHOLE, Coder(WHOLE, map[]), [];
    }

    /** Registers at the start of a coded segment; two bytes will be read first. */
    method StartPass(areas: Stats, ghost stop: nat, ghost e: seq<byte>, ghost ds: seq<Decision>)
      requires pos <= stop <= |input| && DataAhead(input, pos, stop, e, 0)
      requires StatsOk(areas) && Known(areas, ds) && Ready(Coder(WHOLE, areas))
      requires Contains(CodeAll(Coder(WHOLE, areas), ds).iv, e)
      modifies `c, `a, `ct, `stats, `unread, `code, `stop, `taken, `raw, `coder, `pending
      ensures Valid()
      ensures coder == Coder(WHOLE, areas) && pending == ds && this.stop == stop && code == e
    {
      hide DataAhead, MarkerBefore, Contains, Stuff, Num, Pow2, Window, Shl, CodeAll, Aritab;
      HasMarker(input, pos, stop, e);
      c, a, ct := 0, 0, -16;
      stats, unread := areas, 0;
      this.stop := stop;
      code, taken, raw, coder, pending := e, 0, WHOLE, Coder(WHOLE, areas), ds;
    }

    method GetByte() returns (data: byte)
      requires pos < |input|
      modifies `pos
      ensures pos == old(pos) + 1 && data == input[old(pos)]
    {
      data := input[pos];
      pos := pos + 1;
    }

    /** The next data byte: stuffing removed, zero from the marker on. */
    method FetchByte() returns (data: byte)
      requires SourceOk()
      modifies `pos, `unread, `taken
      ensures SourceOk()
      ensures data == ByteAt(code, old(taken)) && taken == old(taken) + 1
    {
      hide DataAhead;
      if unread != 0 {
        data := 0;
      } else {
        ghost var n := Ahead(input, pos, stop, code, taken);
        data := GetByte();
        if data == 0xFF {
          data := GetByte();
          while data == 0xFF
            modifies `pos
            invariant old(pos) + 2 <= pos <= old(pos) + n && data == input[pos - 1]
            decreases n + old(pos) - pos
          {
            data := GetByte();
          }
          if data == 0 {
            data := 0xFF;
          } else {
            unread := data;
            data := 0;
          }
        }
      }
      taken := taken + 1;
    }

    /** Skips what is left of the data up to the next marker, with its stuffed and fill bytes. */
    method NextMarker()
      requires SourceOk() && unread == 0
      modifies `pos, `unread
      ensures pos == stop && unread == input[stop - 1]
    {
      hide DataAhead;
      ghost var t: nat := taken;
      var data: byte := 0;
      while data == 0
        modifies `pos
        invariant pos <= stop <= |input|
        invariant data == 0 ==> t <= |code| && DataAhead(input, pos, stop, code, t)
        invariant data != 0 ==> pos == stop && data == input[stop - 1]
        decreases stop - pos, data == 0
      {
        ghost var n := Ahead(input, pos, stop, code, t);
        data := GetByte();
        while data != 0xFF
          modifies `pos
          invariant pos <= stop && t <= |code| && old(pos) < pos && data == input[pos - 1]
          invariant DataAhead(input, pos - 1, stop, code, t)
          decreases stop - pos
        {
          n := Ahead(input, pos - 1, stop, code, t);
          t := t + 1;
          n := Ahead(input, pos, stop, code, t);
          data := GetByte();
        }
        ghost var p := pos - 1;
        n := Ahead(input, p, stop, code, t);
        data := GetByte();
        while data == 0xFF
          modifies `pos
          invariant p + 2 <= pos <= p + n && data == input[pos - 1]
          decreases stop - pos
        {
          data := GetByte();
        }
        if t < |code| {
          t := t + 1;
        }
      }
      unread := data;
    }

    /** Goes to the marker after the segment, wherever decoding has stopped; takes it if
        it is the restart marker with the given number. */
    method ReadRestartMarker(num: nat) returns (ok: bool)
      requires SourceOk()
      modifies `pos, `unread
      ensures pos == stop && (ok <==> input[stop - 1] == RST0 + num)
      ensures ok ==> unread == 0
    {
      if unread == 0 {
        NextMarker();
      }
      ok := unread == RST0 + num;
      if ok {
        unread := 0;
      }
    }

    /** Decodes the decision the encoder made on this bin. */
    method Decode(bin: Bin) returns (val: bit)
      requires Valid() && pending != [] && pending[0].bin == bin
      modifies `c, `a, `ct, `stats, `pos, `unread, `taken, `raw, `coder, `pending
      ensures Valid()
      ensures val == old(pending)[0].val && pending == old(pending)[1..]
      ensures coder == Code(old(coder), old(pending)[0])
    {
      hide SourceOk, Running, Starting, Shl, Aritab, AfterLps, AfterMps, NextStat, QeOf, Renorm, Narrow, Contains, Code,
           CodeAll;
      Refill();
      ghost var d := pending[0];
      Coming(bin);
      val := Select(bin, d.val != stats[bin] / 128);
      coder := Code(coder, d);
      pending := pending[1..];
    }

    /** What the encoder did next, and how the registers show it. */
    lemma Coming(bin: Bin)
      requires Following() && Running() && raw == coder.iv && pending != [] && pending[0].bin == bin
      ensures bin in stats && stats[bin] % 128 <= LAST_STATE
      ensures var qe := QeOf(stats[bin]);
              var lps := pending[0].val != stats[bin] / 128;
              var next := Code(coder, pending[0]);
              && (c >= Shl(a - qe, ct) <==> lps == (a - qe >= qe))
              && qe <= raw.a && 1 <= Narrow(raw, qe, lps).a <= 0x10000
              && next.iv == Renorm(Narrow(raw, qe, lps))
              && next.stats == stats[bin := NextStat(stats[bin], a, lps)]
              && Ready(next) && Known(next.stats, pending[1..]) && Contains(CodeAll(next, pending[1..]).iv, code)
    {
      hide DataAhead, Shl, Aritab, AfterLps, AfterMps, QeOf, Renorm, Window, Contains, CodeAll;
      Position(coder, pending, code, taken, ct, c);
      FirstDecision(coder, pending, code);
      CodeInterval(coder, pending[0]);
    }


    /** Picks the part of the interval that holds the data, and adapts the bin. */
    method Select(bin: Bin, ghost lps: bool) returns (val: bit)
      requires Running() && a >= 0x8000 && bin in stats && stats[bin] % 128 <= LAST_STATE
      requires c >= Shl(a - QeOf(stats[bin]), ct)
               <==> lps == (a - QeOf(stats[bin]) >= QeOf(stats[bin]))
      modifies `c, `a, `stats, `raw
      ensures Running()
      ensures raw == Narrow(old(raw), QeOf(old(stats)[bin]), lps)
      ensures stats == old(stats)[bin := NextStat(old(stats)[bin], old(a), lps)]
      ensures val == if lps then 1 - old(stats)[bin] / 128 else old(stats)[bin] / 128
    {
      hide Shl, Aritab, AfterLps, AfterMps, QeOf, Window;
      var sv := stats[bin];
      var qe := QeOf(sv);
      ShlAdd(raw.low, a - qe, ct);
      var temp := a - qe;
      a := temp;
      if c >= Shl(temp, ct) {
        c := c - Shl(temp, ct);
        if a < qe {
          a := qe;
          stats := stats[bin := AfterMps(sv)];
          val := sv / 128;
        } else {
          a := qe;
          stats := stats[bin := AfterLps(sv)];
          val := 1 - sv / 128;
        }
      } else if a < 0x8000 {
        if a < qe {
          stats := stats[bin := AfterLps(sv)];
          val := 1 - sv / 128;
        } else {
          stats := stats[bin := AfterMps(sv)];
          val := sv / 128;
        }
      } else {
        assert stats == stats[bin := sv];
        val := sv / 128;
      }
      raw := Narrow(raw, qe, lps);
    }

    /** Renormalisation and data input, done before a decision. */
    method Refill()
      requires SourceOk() && (Starting() || Running())
      modifies `c, `a, `ct, `pos, `unread, `taken, `raw
      ensures SourceOk() && Running() && a >= 0x8000
      ensures raw == Renorm(old(raw))
    {
      hide Num, Stuff, Pow2, Shl, Window, SourceOk, Renorm;
      ghost var raw0 := raw;
      assert Window(code, 0) == 0 by { WindowStart(code); }
      while a < 0x8000
        invariant SourceOk() && (Starting() || Running())
        invariant Renorm(raw) == Renorm(raw0)
        decreases if a == 0 then 0x20000 - ct else 0x10000 - a
      {
        WindowStep(code, taken);
        RefillStep(raw.low, if ct < 0 then 0 else ct);
        RenormStep(raw);
        ct := ct - 1;
        if ct < 0 {
          var data := FetchByte();
          c := 256 * c + data;
          ct := ct + 8;
          if ct < 0 {
            ct := ct + 1;
            if ct == 0 {
              a := 0x8000;
            }
          }
        }
        if raw.a == a {
          raw := Interval(2 * raw.low, 2 * raw.a, raw.s + 1);
        }
        a := 2 * a;
      }
      RenormStep(raw);
    }
  }

  /** Comparing the registers tells which part of the interval the encoder chose. */
  lemma Position(k: Coder, ds: seq<Decision>, e: seq<byte>, m: nat, ct: nat, c: nat)
    requires Ready(k) && ds != [] && Known(k.stats, ds)
    requires Contains(CodeAll(k, ds).iv, e)
    requires 8 * m == 16 + k.iv.s + ct && c + Shl(k.iv.low, ct) == Window(e, m)
    ensures var sv := k.stats[ds[0].bin];
            var rest := k.iv.a - QeOf(sv);
            c >= Shl(rest, ct) <==> (ds[0].val != sv / 128) == (rest >= QeOf(sv))
  {
    hide *;
    FirstKnown(k, ds);
    var rest := k.iv.a - QeOf(k.stats[ds[0].bin]);
    ChosenPart(k, ds, e);
    Compared(e, m, k.iv.s, ct, k.iv.low, rest, c);
  }

  lemma FirstKnown(k: Coder, ds: seq<Decision>)
    requires Ready(k) && ds != [] && Known(k.stats, ds)
    ensures ds[0].bin in k.stats && k.stats[ds[0].bin] % 128 <= LAST_STATE
    ensures 1 <= QeOf(k.stats[ds[0].bin]) < k.iv.a
  {
  }

  lemma Compared(e: seq<byte>, m: nat, s: nat, ct: nat, low: nat, rest: nat, c: nat)
    requires 8 * m == 16 + s + ct && c + Shl(low, ct) == Window(e, m)
    ensures c >= Shl(rest, ct) <==> Reaches(low + rest, s, e)
  {
    hide *;
    WindowCompare(e, m, s, ct, low + rest);
    ShlAdd(low, rest, ct);
  }

  lemma RefillStep(low: nat, ct: nat)
    ensures ct >= 1 ==> Shl(2 * low, ct - 1) == Shl(low, ct)
    ensures Shl(2 * low, 7) == 256 * Shl(low, 0)
    ensures Shl(0, ct) == 0
  {
    if ct >= 1 {
      ShlStep(low, ct - 1);
    }
    assert Pow2(7) == 128;
  }

  lemma HasMarker(input: seq<byte>, pos: nat, stop: nat, code: seq<byte>)
    requires pos <= stop <= |input| && DataAhead(input, pos, stop, code, 0)
    ensures MarkerBefore(input, stop)
  {
  }

  /** What the next bytes of the input are. */
  lemma Ahead(input: seq<byte>, pos: nat, stop: nat, code: seq<byte>, taken: nat) returns (n: nat)
    requires pos <= stop <= |input| && taken <= |code| && DataAhead(input, pos, stop, code, taken)
    ensures 1 <= n && pos + n <= stop && MarkerBefore(input, stop)
    ensures taken < |code| ==> DataAhead(input, pos + n, stop, code, taken + 1)
    ensures taken < |code| && code[taken] != 0xFF ==> n == 1 && input[pos] == code[taken]
    ensures taken < |code| && code[taken] == 0xFF ==> n == 2 && input[pos] == 0xFF && input[pos + 1] == 0
    ensures taken == |code| ==>
              && n >= 2 && pos + n == stop
              && forall i | pos <= i < stop - 1 :: input[i] == 0xFF
  {
    var fill: nat :| input[pos..stop] == Stuff(code[taken..]) + MarkerBytes(fill, input[stop - 1]);
    hide Stuff, MarkerBytes, DataAhead, StuffByte;
    if taken < |code| {
      n := |StuffByte(code[taken])|;
      AheadData(input, pos, stop, code, taken, fill);
      OneByte(code[taken]);
    } else {
      n := fill + 2;
      AheadMarker(input, pos, stop, code[taken..], fill);
    }
  }

  lemma OneByte(b: byte)
    ensures StuffByte(b) == if b == 0xFF then [0xFF, 0] else [b]
  {
  }

  lemma AheadMarker(input: seq<byte>, pos: nat, stop: nat, code: seq<byte>, fill: nat)
    requires pos <= stop <= |input| && code == [] && MarkerBefore(input, stop)
    requires input[pos..stop] == Stuff(code) + MarkerBytes(fill, input[stop - 1])
    ensures pos + (fill + 2) == stop && forall i | pos <= i < stop - 1 :: input[i] == 0xFF
  {
    var m := MarkerBytes(fill, input[stop - 1]);
    assert Stuff(code) == [];
    hide Stuff;
    assert input[pos..stop] == m;
    forall i | pos <= i < stop - 1 ensures input[i] == 0xFF {
      assert input[i] == input[pos..stop][i - pos];
    }
  }

  lemma AheadData(input: seq<byte>, pos: nat, stop: nat, code: seq<byte>, taken: nat, fill: nat)
    requires pos <= stop <= |input| && taken < |code| && MarkerBefore(input, stop)
    requires input[pos..stop] == Stuff(code[taken..]) + MarkerBytes(fill, input[stop - 1])
    ensures var head := StuffByte(code[taken]);
            && pos + |head| <= stop
            && (forall i | pos <= i < pos + |head| :: input[i] == head[i - pos])
            && DataAhead(input, pos + |head|, stop, code, taken + 1)
  {
    StuffHead(code[taken..]);
    hide Stuff, StuffByte, MarkerBytes;
    assert code[taken..][1..] == code[taken + 1..];
    var head := StuffByte(code[taken]);
    var tail := Stuff(code[taken + 1..]) + MarkerBytes(fill, input[stop - 1]);
    assert input[pos..stop] == head + tail;
    Split(input, pos, stop, head, tail);
  }

  lemma Split(input: seq<byte>, pos: nat, stop: nat, head: seq<byte>, tail: seq<byte>)
    requires pos <= stop <= |input| && input[pos..stop] == head + tail
    ensures pos + |head| <= stop && input[pos + |head|..stop] == tail
    ensures forall i | pos <= i < pos + |head| :: input[i] == head[i - pos]
  {
    assert input[pos + |head|..stop] == input[pos..stop][|head|..];
    forall i | pos <= i < pos + |head| ensures input[i] == head[i - pos] {
      assert input[i] == input[pos..stop][i - pos];
    }
  }
}
