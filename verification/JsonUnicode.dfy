/** What the \u escapes of a JSON literal stand for: UTF-16 (section 7 of RFC 8259) turned into
    UTF-8 (section 3 of RFC 3629). */
module JsonUnicode {
  import opened Numbers
  import opened JsonString
  import opened JsonText

  // ----- UTF-8 -----

  /** The value of the continuation bytes s behind a lead that gives v: six bits each. */
  function Continued(v: nat, s: seq<byte>): (r: Option<nat>)
    decreases |s|
  {
    if s == [] then Some(v)
    else if 0x80 <= s[0] <= 0xBF then Continued(64 * v + (s[0] - 0x80), s[1..])
    else None
  }

  /** The code point of one UTF-8 sequence in its shortest form. */
  function DecodeUtf8(s: seq<byte>): (cp: Option<nat>) {
    if s == [] then None
    else
      var b, rest := s[0], s[1..];
      if b < 0x80 then (if rest == [] then Some(b) else None)
      else if 0xC0 <= b < 0xE0 && |rest| == 1 then AtLeast(Continued(b - 0xC0, rest), 0x80)
      else if 0xE0 <= b < 0xF0 && |rest| == 2 then AtLeast(Continued(b - 0xE0, rest), 0x800)
      else if 0xF0 <= b < 0xF8 && |rest| == 3 then AtLeast(Continued(b - 0xF0, rest), 0x10000)
      else None
  }

  function AtLeast(v: Option<nat>, min: nat): (r: Option<nat>) {
    if v.Some? && v.value >= min then v else None
  }

  /** Encoding gives what the decoder takes back. */
  lemma Utf8Inverts(cp: nat)
    requires cp <= 0x10FFFF
    ensures DecodeUtf8(Utf8(cp)) == Some(cp)
  {
    var s := Utf8(cp);
    Base64(cp);
    if |s| == 2 {
      OneMore(cp / 64, s[1..]);
      assert s[1..][1..] == [];
    } else if |s| == 3 {
      TwoMore(cp / 4096, s[1..]);
    } else if |s| == 4 {
      ThreeMore(cp / 262144, s[1..]);
    }
  }

  lemma OneMore(v: nat, s: seq<byte>)
    requires |s| == 1 && 0x80 <= s[0] <= 0xBF
    ensures Continued(v, s) == Some(64 * v + (s[0] - 0x80))
  {
    assert s[1..] == [];
  }

  lemma TwoMore(v: nat, s: seq<byte>)
    requires |s| == 2 && 0x80 <= s[0] <= 0xBF && 0x80 <= s[1] <= 0xBF
    ensures Continued(v, s) == Some(64 * (64 * v + (s[0] - 0x80)) + (s[1] - 0x80))
  {
    OneMore(64 * v + (s[0] - 0x80), s[1..]);
  }

  lemma ThreeMore(v: nat, s: seq<byte>)
    requires |s| == 3 && 0x80 <= s[0] <= 0xBF && 0x80 <= s[1] <= 0xBF && 0x80 <= s[2] <= 0xBF
    ensures Continued(v, s) == Some(64 * (64 * (64 * v + (s[0] - 0x80)) + (s[1] - 0x80)) + (s[2] - 0x80))
  {
    TwoMore(64 * v + (s[0] - 0x80), s[1..]);
  }

  lemma Base64(x: nat)
    ensures x == 64 * (x / 64) + x % 64
    ensures x / 64 == 64 * (x / 4096) + x / 64 % 64
    ensures x / 4096 == 64 * (x / 262144) + x / 4096 % 64
  {
  }

  // ----- UTF-16 -----

  predicate Surrogate(cp: nat) {
    0xD800 <= cp <= 0xDFFF
  }

  /** At i there is \u with four digits, of either case, that stand for h. */
  predicate Spells(c: seq<byte>, i: nat, h: nat) {
    && i + 6 <= |c| && h < 0x10000 && c[i] == BACKSLASH && c[i + 1] == LETTER_U
    && HexDigit(c[i + 2]) == Some(h / 0x1000) && HexDigit(c[i + 3]) == Some(h / 0x100 % 0x10)
    && HexDigit(c[i + 4]) == Some(h / 0x10 % 0x10) && HexDigit(c[i + 5]) == Some(h % 0x10)
  }

  /** At i a code point is spelt, by itself or, above 16 bits, as a high and a low surrogate. */
  predicate SpellsCodePoint(c: seq<byte>, i: nat, cp: nat) {
    && cp <= 0x10FFFF && !Surrogate(cp)
    && if cp < 0x10000 then Spells(c, i, cp)
       else Spells(c, i, 0xD800 + (cp - 0x10000) / 0x400) && Spells(c, i + 6, 0xDC00 + (cp - 0x10000) % 0x400)
  }

  function SpelledSize(cp: nat): (n: nat) {
    if cp < 0x10000 then 6 else 12
  }

  lemma SpelledValue(c: seq<byte>, i: nat, h: nat)
    requires Spells(c, i, h)
    ensures Hex4(c, i + 2) == h
  {
    hide HexDigit;
    Base16(h);
  }

  lemma Base16(h: nat)
    ensures ((h / 0x1000 * 16 + h / 0x100 % 0x10) * 16 + h / 0x10 % 0x10) * 16 + h % 0x10 == h
  {
    assert h == 0x10 * (h / 0x10) + h % 0x10;
    assert h / 0x10 == 0x10 * (h / 0x100) + h / 0x10 % 0x10;
    assert h / 0x100 == 0x10 * (h / 0x1000) + h / 0x100 % 0x10;
  }

  lemma HexSpells(c: seq<byte>, i: nat)
    requires i + 6 <= |c| && c[i] == BACKSLASH && c[i + 1] == LETTER_U && FourHex(c, i + 2)
    ensures Spells(c, i, Hex4(c, i + 2))
  {
    var a, b, d, e := HexDigit(c[i + 2]).value, HexDigit(c[i + 3]).value, HexDigit(c[i + 4]).value,
      HexDigit(c[i + 5]).value;
    Digits(a, b, d, e);
  }

  lemma Digits(a: nat, b: nat, d: nat, e: nat)
    requires a < 16 && b < 16 && d < 16 && e < 16
    ensures var h := ((a * 16 + b) * 16 + d) * 16 + e;
            h < 0x10000 && h / 0x1000 == a && h / 0x100 % 0x10 == b && h / 0x10 % 0x10 == d && h % 0x10 == e
  {
    var h := ((a * 16 + b) * 16 + d) * 16 + e;
    assert h / 0x10 == (a * 16 + b) * 16 + d && h / 0x100 == a * 16 + b;
  }

  /** A code point that is spelt is what the parser takes, in UTF-8. */
  lemma SpelledElement(c: seq<byte>, i: nat, end: nat, cp: nat)
    requires SpellsCodePoint(c, i, cp) && i + SpelledSize(cp) <= end < |c|
    ensures Element(c, i, end) == Some((Utf8(cp), SpelledSize(cp)))
    ensures DecodeUtf8(Utf8(cp)) == Some(cp)
  {
    hide Hex4, Utf8, DecodeUtf8;
    Utf8Inverts(cp);
    if cp < 0x10000 {
      SpelledValue(c, i, cp);
    } else {
      Halves(cp - 0x10000);
      SpelledValue(c, i, 0xD800 + (cp - 0x10000) / 0x400);
      SpelledValue(c, i + 6, 0xDC00 + (cp - 0x10000) % 0x400);
    }
  }

  lemma Halves(x: nat)
    requires x < 0x100000
    ensures var high, low := 0xD800 + x / 0x400, 0xDC00 + x % 0x400;
            high <= 0xDBFF && low <= 0xDFFF && high % 0x400 * 0x400 + low % 0x400 == x
  {
  }

  lemma Joined(high: nat, low: nat)
    requires 0xD800 <= high <= 0xDBFF && 0xDC00 <= low <= 0xDFFF
    ensures var x := high % 0x400 * 0x400 + low % 0x400;
            x < 0x100000 && 0xD800 + x / 0x400 == high && 0xDC00 + x % 0x400 == low
  {
  }

  /** And a \u escape with four digits is accepted only where a code point is spelt. */
  lemma AcceptedSpelling(c: seq<byte>, i: nat, end: nat) returns (cp: nat)
    requires i < end < |c| && c[i] == BACKSLASH && c[i + 1] == LETTER_U && Element(c, i, end).Some?
    requires FourHex(c, i + 2)
    ensures SpellsCodePoint(c, i, cp) && Element(c, i, end) == Some((Utf8(cp), SpelledSize(cp)))
  {
    hide Utf8, Hex4, Spells, HexDigit, FourHex;
    HexSpells(c, i);
    cp := Hex4(c, i + 2);
    if 0xD800 <= cp <= 0xDBFF {
      var second := Hex4(c, i + 8);
      HexSpells(c, i + 6);
      Joined(cp, second);
      cp := 0x10000 + (cp % 0x400 * 0x400 + second % 0x400);
    }
  }

  /** The digits, in either case, and nothing else. */
  lemma HexDigits(b: byte)
    ensures HexDigit(b).Some? <==> '0' as int <= b <= '9' as int || 'A' as int <= b <= 'F' as int
                                   || 'a' as int <= b <= 'f' as int
    ensures 'A' as int <= b <= 'F' as int ==> HexDigit(b) == HexDigit(b + ('a' as int - 'A' as int))
    ensures 'a' as int <= b <= 'f' as int ==> HexDigit(b) == Some(10 + (b - 'a' as int))
  {
  }

  /** The control characters that have a letter of their own. */
  lemma Letters(c: seq<byte>, i: nat, end: nat)
    requires i < end < |c| && c[i] == '\\' as int
    ensures c[i + 1] == 'n' as int ==> Element(c, i, end) == Some((['\n' as int], 2))
    ensures c[i + 1] == 'r' as int ==> Element(c, i, end) == Some((['\r' as int], 2))
    ensures c[i + 1] == 't' as int ==> Element(c, i, end) == Some((['\t' as int], 2))
    ensures c[i + 1] == 'b' as int ==> Element(c, i, end) == Some((['\U{0008}' as int], 2))
    ensures c[i + 1] == 'f' as int ==> Element(c, i, end) == Some((['\U{000C}' as int], 2))
  {
  }
}
