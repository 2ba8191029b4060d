/** JSON strings (section 7 of RFC 8259): escaping, and a parser whose output buffer is
    sized by a first pass over the literal. */
module JsonString {
  import opened Numbers

  datatype Option<T> = None | Some(value: T)

  const QUOTE: byte := 34
  const SLASH: byte := 47
  const BACKSLASH: byte := 92
  const LETTER_B: byte := 98
  const LETTER_F: byte := 102
  const LETTER_N: byte := 110
  const LETTER_R: byte := 114
  const LETTER_T: byte := 116
  const LETTER_U: byte := 117

  // ----- Hexadecimal and UTF-16 literals -----

  function HexDigit(b: byte): (d: Option<nat>)
    ensures d.Some? ==> d.value < 16 && b != BACKSLASH
  {
    if 48 <= b <= 57 then Some(b - 48)
    else if 65 <= b <= 70 then Some(10 + (b - 65))
    else if 97 <= b <= 102 then Some(10 + (b - 97))
    else None
  }

  function HexChar(d: nat): (b: byte)
    requires d < 16
    ensures HexDigit(b) == Some(d) && b > 31
  {
    if d < 10 then 48 + d else 97 + (d - 10)
  }

  /** Four hexadecimal digits, or 0 if one of them is not. */
  function Hex4(c: seq<byte>, i: nat): (h: nat)
    requires i + 4 <= |c|
    ensures h < 0x10000
    ensures h > 0 ==> forall k | i <= k < i + 4 :: HexDigit(c[k]).Some?
  {
    var a, b, d, e := HexDigit(c[i]), HexDigit(c[i + 1]), HexDigit(c[i + 2]), HexDigit(c[i + 3]);
    if a.Some? && b.Some? && d.Some? && e.Some? then
      ((a.value * 16 + b.value) * 16 + d.value) * 16 + e.value
    else 0
  }

  function Utf8(cp: nat): (s: seq<byte>)
    requires cp <= 0x10FFFF
    ensures 1 <= |s| <= 4
    ensures |s| == if cp < 0x80 then 1 else if cp < 0x800 then 2 else if cp < 0x10000 then 3 else 4
  {
    if cp < 0x80 then [cp]
    else if cp < 0x800 then [0xC0 + cp / 64, 0x80 + cp % 64]
    else if cp < 0x10000 then [0xE0 + cp / 4096, 0x80 + cp / 64 % 64, 0x80 + cp % 64]
    else [0xF0 + cp / 262144, 0x80 + cp / 4096 % 64, 0x80 + cp / 64 % 64, 0x80 + cp % 64]
  }

  /** The bytes of a \u literal at i and its length, which is 12 for a surrogate pair. */
  function Utf16(c: seq<byte>, i: nat, end: nat): (r: Option<(seq<byte>, nat)>)
    requires i < end <= |c|
    ensures r.Some? ==> (r.value.1 == 6 || r.value.1 == 12) && i + r.value.1 <= end && 1 <= |r.value.0|
  {
    if end - i < 6 then None
    else
      var first := Hex4(c, i + 2);
      if 0xDC00 <= first <= 0xDFFF then None
      else if 0xD800 <= first <= 0xDBFF then
        if end - (i + 6) < 6 || c[i + 6] != BACKSLASH || c[i + 7] != LETTER_U then None
        else
          var second := Hex4(c, i + 8);
          if second < 0xDC00 || second > 0xDFFF then None
          else Some((Utf8(0x10000 + (first % 0x400 * 0x400 + second % 0x400)), 12))
      else Some((Utf8(first), 6))
  }

  // ----- What a literal means -----

  /** One element of a literal: its bytes, and how much of the literal it takes. */
  function Element(c: seq<byte>, i: nat, end: nat): (r: Option<(seq<byte>, nat)>)
    requires i < end < |c|
    ensures r.Some? ==> r.value.1 >= 1 && (r.value.1 > 2 ==> i + r.value.1 <= end)
  {
    if c[i] != BACKSLASH then Some(([c[i]], 1))
    else if c[i + 1] == LETTER_B then Some(([8], 2))
    else if c[i + 1] == LETTER_F then Some(([12], 2))
    else if c[i + 1] == LETTER_N then Some(([10], 2))
    else if c[i + 1] == LETTER_R then Some(([13], 2))
    else if c[i + 1] == LETTER_T then Some(([9], 2))
    else if c[i + 1] == QUOTE || c[i + 1] == BACKSLASH || c[i + 1] == SLASH then Some(([c[i + 1]], 2))
    else if c[i + 1] == LETTER_U then Utf16(c, i, end)
    else None
  }

  /** The bytes of the literal from i to the quote at end. */
  function Unescape(c: seq<byte>, i: nat, end: nat): (s: Option<seq<byte>>)
    requires end < |c|
    decreases if i < end then end - i else 0
  {
    if i >= end then Some([])
    else
      match Element(c, i, end)
      case None => None
      case Some((bytes, n)) =>
        match Unescape(c, i + n, end)
        case None => None
        case Some(rest) => Some(bytes + rest)
  }

  /** The closing quote of a literal whose contents begin at i. */
  function ClosingQuote(c: seq<byte>, i: nat): (end: Option<nat>)
    ensures end.Some? ==> i <= end.value < |c| && c[end.value] == QUOTE
    decreases if i < |c| then |c| - i else 0
  {
    if i >= |c| then None
    else if c[i] == QUOTE then Some(i)
    else if c[i] == BACKSLASH then (if i + 1 >= |c| then None else ClosingQuote(c, i + 2))
    else ClosingQuote(c, i + 1)
  }

  // ----- The size of the output -----

  /** Does the first pass, which started at start, look at position i? */
  predicate Visits(c: seq<byte>, start: nat, i: nat)
    requires start <= i <= |c|
    decreases i
  {
    i == start
    || (i > start && Visits(c, start, i - 1) && c[i - 1] != BACKSLASH)
    || (i > start + 1 && Visits(c, start, i - 2) && c[i - 2] == BACKSLASH)
  }

  /** Does an escape start at position i, for the first pass? */
  predicate Marked(c: seq<byte>, start: nat, i: nat)
    requires start <= i < |c|
  {
    Visits(c, start, i) && c[i] == BACKSLASH
  }

  /** How many escapes the first pass has met before i. */
  function Skipped(c: seq<byte>, start: nat, i: nat): (n: nat)
    requires start <= i <= |c|
    ensures n <= i - start
    decreases i
  {
    if i == start then 0 else Skipped(c, start, i - 1) + if Marked(c, start, i - 1) then 1 else 0
  }

  lemma {:induction false} NoNeighbours(c: seq<byte>, start: nat, i: nat)
    requires start <= i && i + 1 < |c| && Marked(c, start, i)
    ensures !Visits(c, start, i + 1)
    decreases i
  {
    if i > start && Marked(c, start, i - 1) {
      NoNeighbours(c, start, i - 1);
    }
  }

  lemma {:induction false} SkippedBetween(c: seq<byte>, start: nat, i: nat, j: nat)
    requires start <= i <= j <= |c|
    ensures Skipped(c, start, i) <= Skipped(c, start, j) <= Skipped(c, start, i) + (j - i)
    ensures (forall k | i <= k < j :: c[k] != BACKSLASH) ==> Skipped(c, start, j) == Skipped(c, start, i)
    decreases j
  {
    hide Visits;
    if i < j {
      SkippedBetween(c, start, i, j - 1);
    }
  }

  /** No element has more bytes than its length without the escapes that the first pass met in it. */
  lemma ElementFits(c: seq<byte>, start: nat, i: nat, end: nat)
    requires start <= i < end < |c| && Visits(c, start, end) && Element(c, i, end).Some?
    ensures var (bytes, n) := Element(c, i, end).value;
            var next := if i + n < end then i + n else end;
            |bytes| + Skipped(c, start, next) - Skipped(c, start, i) <= next - i
  {
    hide Visits, Utf16;
    var (bytes, n) := Element(c, i, end).value;
    SkippedBetween(c, start, i, i + 1);
    if n == 2 {
      if i + 1 == end {
        if Marked(c, start, i) {
          NoNeighbours(c, start, i);
        }
      } else {
        SkippedBetween(c, start, i + 1, i + 2);
        if Marked(c, start, i) {
          NoNeighbours(c, start, i);
        }
      }
    } else if n > 2 {
      LiteralFits(c, start, i, end);
    }
  }

  lemma LiteralFits(c: seq<byte>, start: nat, i: nat, end: nat)
    requires start <= i < end < |c| && i + 1 < end && c[i + 1] == LETTER_U && Utf16(c, i, end).Some?
    ensures var (bytes, n) := Utf16(c, i, end).value;
            |bytes| + Skipped(c, start, i + n) - Skipped(c, start, i) <= n
  {
    hide Visits, Marked, Utf8, Hex4;
    SkippedBetween(c, start, i, i + 1);
    SkippedBetween(c, start, i + 1, i + 2);
    SkippedBetween(c, start, i + 2, i + 6);
    var first := Hex4(c, i + 2);
    if 0xD800 <= first <= 0xDBFF {
      SkippedBetween(c, start, i + 6, i + 7);
      SkippedBetween(c, start, i + 7, i + 8);
      SkippedBetween(c, start, i + 8, i + 12);
    }
  }

  /** Whatever the literal is, its bytes fit the length without the escapes. */
  lemma {:induction false} UnescapeFits(c: seq<byte>, start: nat, i: nat, end: nat)
    requires start <= i && start <= end < |c| && Visits(c, start, end) && Unescape(c, i, end).Some?
    ensures i <= end ==> |Unescape(c, i, end).value| + Skipped(c, start, end) - Skipped(c, start, i) <= end - i
    decreases if i < end then end - i else 0
  {
    hide Visits, Element, Skipped;
    if i < end {
      var (bytes, n) := Element(c, i, end).value;
      ElementFits(c, start, i, end);
      if i + n < end {
        UnescapeFits(c, start, i + n, end);
      }
    }
  }

  // ----- Parsing -----

  /** The place of the closing quote, and the number of escapes before it. */
  method FindEnd(c: seq<byte>, start: nat) returns (ok: bool, end: nat, skipped: nat)
    requires start <= |c|
    ensures ok <==> ClosingQuote(c, start).Some?
    ensures ok ==> end == ClosingQuote(c, start).value && skipped == Skipped(c, start, end) && Visits(c, start, end)
  {
    end, skipped := start, 0;
    while end < |c| && c[end] != QUOTE
      invariant start <= end && (end <= |c| ==> Visits(c, start, end) && skipped == Skipped(c, start, end))
      invariant ClosingQuote(c, end) == ClosingQuote(c, start)
      decreases |c| - end
    {
      if c[end] == BACKSLASH {
        if end + 1 >= |c| {
          return false, end, skipped;
        }
        NoNeighbours(c, start, end);
        skipped := skipped + 1;
        end := end + 1;
      }
      end := end + 1;
    }
    ok := end < |c|;
  }

  /** Writes bytes at a place of the output. */
  method PutBytes(output: array<byte>, at: nat, bytes: seq<byte>)
    requires at + |bytes| <= output.Length
    modifies output
    ensures output[..at] == old(output[..at]) && output[at..at + |bytes|] == bytes
    ensures output[..at + |bytes|] == old(output[..at]) + bytes
  {
    var k := 0;
    while k < |bytes|
      invariant k <= |bytes| && output[..at] == old(output[..at]) && output[at..at + k] == bytes[..k]
    {
      output[at + k] := bytes[k];
      assert output[at..at + (k + 1)] == output[at..at + k] + [bytes[k]];
      k := k + 1;
    }
    assert bytes[..|bytes|] == bytes;
    assert output[..at + |bytes|] == output[..at] + output[at..at + |bytes|];
  }

  /** One element more of the literal. */
  lemma UnescapeStep(c: seq<byte>, i: nat, end: nat)
    requires i < end < |c|
    ensures Element(c, i, end).None? ==> Unescape(c, i, end).None?
    ensures Element(c, i, end).Some? ==>
              var (bytes, n) := Element(c, i, end).value;
              && (Unescape(c, i, end).Some? <==> Unescape(c, i + n, end).Some?)
              && (Unescape(c, i, end).Some? ==> Unescape(c, i, end).value == bytes + Unescape(c, i + n, end).value)
  {
    hide Element;
  }

  function Min(i: nat, end: nat): (m: nat) {
    if i < end then i else end
  }

  /** The second pass, which writes the bytes of the literal. */
  method Decode(c: seq<byte>, start: nat, end: nat, output: array<byte>) returns (ok: bool, at: nat)
    requires start <= end < |c| && Visits(c, start, end)
    requires output.Length >= end - start - Skipped(c, start, end) + 1
    modifies output
    ensures ok <==> Unescape(c, start, end).Some?
    ensures ok ==> at < output.Length && output[..at] == Unescape(c, start, end).value
  {
    hide Visits, Element, Skipped, Unescape;
    var i := start;
    at, ok := 0, true;
    ghost var whole := Unescape(c, start, end);
    SkippedBetween(c, start, start, start);
    while i < end
      invariant start <= i && ok
                && at + Skipped(c, start, Min(i, end)) <= Min(i, end) - start + Skipped(c, start, start)
      invariant at < output.Length
      invariant whole.Some? <==> Unescape(c, i, end).Some?
      invariant whole.Some? ==> whole.value == output[..at] + Unescape(c, i, end).value
      decreases if i < end then end - i else 0
    {
      UnescapeStep(c, i, end);
      var e := Element(c, i, end);
      if e.None? {
        return false, at;
      }
      var (bytes, n) := e.value;
      ElementFits(c, start, i, end);
      SkippedBetween(c, start, Min(i + n, end), end);
      SkippedStart(c, start);
      ghost var done := output[..at];
      PutBytes(output, at, bytes);
      assert output[..at + |bytes|] == output[..at] + output[at..at + |bytes|];
      ghost var rest := Unescape(c, i + n, end);
      assert rest.Some? ==> done + (bytes + rest.value) == (done + bytes) + rest.value;
      at := at + |bytes|;
      i := i + n;
    }
    UnescapeEnd(c, i, end);
    assert output[..at] + [] == output[..at];
  }

  lemma SkippedStart(c: seq<byte>, start: nat)
    requires start <= |c|
    ensures Skipped(c, start, start) == 0
  {
  }

  lemma UnescapeEnd(c: seq<byte>, i: nat, end: nat)
    requires end < |c| && end <= i
    ensures Unescape(c, i, end) == Some([])
  {
  }

  /** A string literal at the offset.  The buffer of the first pass's size is never overrun. */
  method ParseString(c: seq<byte>, offset: nat) returns (ok: bool, s: seq<byte>, next: nat)
    requires offset < |c|
    ensures ok <==> c[offset] == QUOTE && ClosingQuote(c, offset + 1).Some?
                    && Unescape(c, offset + 1, ClosingQuote(c, offset + 1).value).Some?
    ensures ok ==> s == Unescape(c, offset + 1, ClosingQuote(c, offset + 1).value).value
    ensures ok ==> next == ClosingQuote(c, offset + 1).value + 1 <= |c|
  {
    hide Unescape, Visits, Skipped;
    s, next := [], offset;
    if c[offset] != QUOTE {
      return false, s, next;
    }
    var end, skipped;
    ok, end, skipped := FindEnd(c, offset + 1);
    if !ok {
      return;
    }
    SkippedBetween(c, offset + 1, offset + 1, end);
    SkippedStart(c, offset + 1);
    var output := new byte[end - offset - skipped + 1];
    var at;
    ok, at := Decode(c, offset + 1, end, output);
    if ok {
      output[at] := 0;
      s := output[..at];
      next := end + 1;
    }
  }
}
