/** Byte stuffing in entropy-coded segments: every 0xFF data byte is followed by
    0x00, so that no data looks like a marker. */
module Stuffing {
  import opened Numbers

  /** The first of the eight restart markers. */
  const RST0: byte := 0xD0

  function StuffByte(b: byte): (s: seq<byte>) {
    if b == 0xFF then [0xFF, 0] else [b]
  }

  function Stuff(e: seq<byte>): (s: seq<byte>) {
    if e == [] then [] else Stuff(e[..|e| - 1]) + StuffByte(e[|e| - 1])
  }

  lemma StuffSnoc(e: seq<byte>, b: byte)
    ensures Stuff(e + [b]) == Stuff(e) + StuffByte(b)
  {
    assert (e + [b])[..|e|] == e;
  }

  /** What writing one data byte, stuffed, does to the output. */
  lemma StuffOutput(header: seq<byte>, e: seq<byte>, b: byte)
    ensures header + Stuff(e) + StuffByte(b) == header + Stuff(e + [b])
  {
    StuffSnoc(e, b);
  }

  lemma {:induction false} StuffAppend(e: seq<byte>, f: seq<byte>)
    ensures Stuff(e + f) == Stuff(e) + Stuff(f)
  {
    hide StuffByte;
    if f == [] {
      assert e + f == e;
    } else {
      var f', b := f[..|f| - 1], f[|f| - 1];
      assert e + f == (e + f') + [b];
      StuffSnoc(e + f', b);
      StuffAppend(e, f');
    }
  }

  /** Stuffing from the other end. */
  lemma StuffHead(e: seq<byte>)
    ensures e != [] ==> Stuff(e) == StuffByte(e[0]) + Stuff(e[1..])
    ensures e == [] ==> Stuff(e) == []
  {
    if e != [] {
      assert e == [e[0]] + e[1..];
      StuffAppend([e[0]], e[1..]);
      assert Stuff([e[0]]) == StuffByte(e[0]);
    }
  }

  /** No marker: in stuffed data every 0xFF is followed by 0x00. */
  lemma {:induction false} StuffHasNoMarker(e: seq<byte>, i: nat)
    requires i < |Stuff(e)| && Stuff(e)[i] == 0xFF
    ensures i + 1 < |Stuff(e)| && Stuff(e)[i + 1] == 0
  {
    if i < |Stuff(e[..|e| - 1])| {
      StuffHasNoMarker(e[..|e| - 1], i);
    }
  }

  /** What a reader makes of it that drops a zero behind each 0xFF. */
  function Unstuffed(s: seq<byte>): (e: seq<byte>) {
    if s == [] then []
    else if s[0] == 0xFF && |s| > 1 && s[1] == 0 then [s[0]] + Unstuffed(s[2..])
    else [s[0]] + Unstuffed(s[1..])
  }

  lemma {:induction false} UnstuffedIs(e: seq<byte>)
    ensures Unstuffed(Stuff(e)) == e
  {
    StuffHead(e);
    hide Stuff;
    if e != [] {
      UnstuffedIs(e[1..]);
      var rest := Stuff(e[1..]);
      if e[0] == 0xFF {
        assert ([0xFF, 0] + rest)[2..] == rest;
      } else {
        assert ([e[0]] + rest)[1..] == rest;
      }
    }
  }
}
