/** The text of a JSON tree, compact or formatted. */
module JsonText {
  import opened Numbers
  import opened JsonString

  /** The text t stands at position i. */
  ghost predicate At(c: seq<byte>, i: nat, t: seq<byte>) {
    i + |t| <= |c| && c[i..i + |t|] == t
  }

  lemma AtSplit(c: seq<byte>, i: nat, a: seq<byte>, b: seq<byte>)
    requires At(c, i, a + b)
    ensures At(c, i, a) && At(c, i + |a|, b)
  {
    assert c[i..i + |a|] == c[i..i + |a + b|][..|a|] == a;
    assert c[i + |a|..i + |a| + |b|] == c[i..i + |a + b|][|a|..] == b;
  }

  lemma AtIndex(c: seq<byte>, i: nat, t: seq<byte>, k: nat)
    requires At(c, i, t) && k < |t|
    ensures c[i + k] == t[k]
  {
    assert c[i..i + |t|][k] == t[k];
  }

  // ----- Strings -----

  function EscapeByte(b: byte): (t: seq<byte>)
    ensures |t| == 1 || |t| == 2 || |t| == 6
  {
    if b == QUOTE || b == BACKSLASH then [BACKSLASH, b]
    else if b == 8 then [BACKSLASH, LETTER_B]
    else if b == 12 then [BACKSLASH, LETTER_F]
    else if b == 10 then [BACKSLASH, LETTER_N]
    else if b == 13 then [BACKSLASH, LETTER_R]
    else if b == 9 then [BACKSLASH, LETTER_T]
    else if b < 32 then [BACKSLASH, LETTER_U, 48, 48, HexChar(b / 16), HexChar(b % 16)]
    else [b]
  }

  function Escape(s: seq<byte>): (t: seq<byte>) {
    if s == [] then [] else EscapeByte(s[0]) + Escape(s[1..])
  }

  function Literal(s: seq<byte>): (t: seq<byte>) {
    [QUOTE] + Escape(s) + [QUOTE]
  }

  /** The parser takes an escaped byte back. */
  lemma ElementInverts(c: seq<byte>, i: nat, end: nat, b: byte)
    requires At(c, i, EscapeByte(b)) && i + |EscapeByte(b)| <= end < |c|
    ensures Element(c, i, end) == Some(([b], |EscapeByte(b)|))
  {
    var t := EscapeByte(b);
    AtIndex(c, i, t, 0);
    if |t| >= 2 {
      AtIndex(c, i, t, 1);
    }
    if |t| == 6 {
      AtIndex(c, i, t, 2);
      AtIndex(c, i, t, 3);
      AtIndex(c, i, t, 4);
      AtIndex(c, i, t, 5);
      assert Hex4(c, i + 2) == b;
      assert Utf16(c, i, end) == Some(([b], 6));
    }
  }

  /** The first pass goes over an escaped byte without stopping. */
  lemma ScanByte(c: seq<byte>, i: nat, b: byte)
    requires At(c, i, EscapeByte(b)) && i + |EscapeByte(b)| < |c|
    ensures ClosingQuote(c, i) == ClosingQuote(c, i + |EscapeByte(b)|)
  {
    var t := EscapeByte(b);
    AtIndex(c, i, t, 0);
    if |t| == 6 {
      AtIndex(c, i, t, 2);
      AtIndex(c, i, t, 3);
      AtIndex(c, i, t, 4);
      AtIndex(c, i, t, 5);
      assert ClosingQuote(c, i) == ClosingQuote(c, i + 2) == ClosingQuote(c, i + 3);
      assert ClosingQuote(c, i + 3) == ClosingQuote(c, i + 4) == ClosingQuote(c, i + 5) == ClosingQuote(c, i + 6);
    }
  }

  /** A printed literal is parsed back, for every string of bytes. */
  lemma {:induction false} StringRoundTrip(c: seq<byte>, i: nat, s: seq<byte>)
    requires At(c, i, Escape(s) + [QUOTE])
    ensures ClosingQuote(c, i) == Some(i + |Escape(s)|)
    ensures Unescape(c, i, i + |Escape(s)|) == Some(s)
    decreases |s|
  {
    hide At, EscapeByte, Element, Unescape, ClosingQuote;
    var end := i + |Escape(s)|;
    LastIs(c, i, Escape(s), QUOTE);
    if s == [] {
      UnescapeEnd(c, i, end);
    } else {
      var t, rest := EscapeByte(s[0]), Escape(s[1..]);
      assert Escape(s) + [QUOTE] == t + (rest + [QUOTE]);
      assert s == [s[0]] + s[1..];
      AtSplit(c, i, t, rest + [QUOTE]);
      ElementInverts(c, i, end, s[0]);
      ScanByte(c, i, s[0]);
      StringRoundTrip(c, i + |t|, s[1..]);
      UnescapeStep(c, i, end);
    }
  }

  lemma LastIs(c: seq<byte>, i: nat, t: seq<byte>, b: byte)
    requires At(c, i, t + [b])
    ensures i + |t| < |c| && c[i + |t|] == b && (b == QUOTE ==> ClosingQuote(c, i + |t|) == Some(i + |t|))
  {
    AtIndex(c, i, t + [b], |t|);
  }

  predicate FourHex(c: seq<byte>, i: nat)
    requires i + 4 <= |c|
  {
    forall k | i <= k < i + 4 :: HexDigit(c[k]).Some?
  }

  /** The n bytes at i are \u escapes in the grammar of section 7 of RFC 8259. */
  predicate Escapes(c: seq<byte>, i: nat, n: nat)
    requires i + n <= |c|
    decreases n
  {
    n == 0
    || (n >= 6 && c[i] == BACKSLASH && c[i + 1] == LETTER_U && FourHex(c, i + 2) && Escapes(c, i + 6, n - 6))
  }

  /** A \u element that is accepted follows the grammar if and only if its first four
      characters are hexadecimal digits; if they are not, it stands for a NUL byte. */
  lemma AcceptedEscape(c: seq<byte>, i: nat, end: nat)
    requires i < end < |c| && c[i] == BACKSLASH && c[i + 1] == LETTER_U && Element(c, i, end).Some?
    ensures Escapes(c, i, Element(c, i, end).value.1) <==> FourHex(c, i + 2)
    ensures !FourHex(c, i + 2) ==> Element(c, i, end) == Some(([0], 6))
  {
    var n := Element(c, i, end).value.1;
    hide Utf8;
    if FourHex(c, i + 2) {
      assert Escapes(c, i, n) <==> Escapes(c, i + 6, n - 6);
      if n == 12 {
        assert Hex4(c, i + 8) > 0;
        assert Escapes(c, i + 12, 0);
      }
    } else {
      assert Hex4(c, i + 2) == 0;
      assert Utf8(0) == [0] by { ZeroIsNul(); }
    }
  }

  lemma ZeroIsNul()
    ensures Utf8(0) == [0]
  {
  }

  /** A hexadecimal digit that is none is taken for zero: this literal is accepted and gives a NUL byte. */
  lemma BadHexAccepted()
    ensures var c := [QUOTE, BACKSLASH, LETTER_U, 122, 122, 122, 122, QUOTE];
            ClosingQuote(c, 1) == Some(7) && Unescape(c, 1, 7) == Some([0])
  {
    var c := [QUOTE, BACKSLASH, LETTER_U, 122, 122, 122, 122, QUOTE];
    assert ClosingQuote(c, 7) == Some(7);
    assert ClosingQuote(c, 5) == ClosingQuote(c, 6) == ClosingQuote(c, 7);
    assert ClosingQuote(c, 1) == ClosingQuote(c, 3) == ClosingQuote(c, 4) == ClosingQuote(c, 5);
    assert Hex4(c, 3) == 0;
    assert Element(c, 1, 7) == Some(([0], 6));
    UnescapeStep(c, 1, 7);
    UnescapeEnd(c, 7, 7);
    assert [0] + [] == [0];
  }

  /** Here the second pass takes the closing quote into an escape: the first one reads two backslashes
      as an escape, the second one takes the first of them for a digit. */
  lemma OutOfStep()
    ensures var c := [QUOTE, BACKSLASH, LETTER_U, 49, 50, 51, BACKSLASH, BACKSLASH, QUOTE];
            ClosingQuote(c, 1) == Some(8) && Unescape(c, 1, 8) == Some([0, QUOTE])
  {
    var c := [QUOTE, BACKSLASH, LETTER_U, 49, 50, 51, BACKSLASH, BACKSLASH, QUOTE];
    assert ClosingQuote(c, 8) == Some(8) && ClosingQuote(c, 6) == ClosingQuote(c, 8);
    assert ClosingQuote(c, 3) == ClosingQuote(c, 4) == ClosingQuote(c, 5) == ClosingQuote(c, 6);
    assert Hex4(c, 3) == 0;
    assert Element(c, 1, 8) == Some(([0], 6)) && Element(c, 7, 8) == Some(([QUOTE], 2));
    UnescapeStep(c, 1, 8);
    UnescapeStep(c, 7, 8);
    UnescapeEnd(c, 9, 8);
    assert [QUOTE] + [] == [QUOTE] && [0] + [QUOTE] == [0, QUOTE];
  }

  /** With hexadecimal digits the second pass stays in step: an element ends where the first pass
      comes by, and not behind the closing quote. */
  lemma InStep(c: seq<byte>, start: nat, i: nat, end: nat)
    requires start <= i < end < |c| && Visits(c, start, i) && ClosingQuote(c, i) == Some(end)
    requires Element(c, i, end).Some?
    requires c[i] == BACKSLASH && c[i + 1] == LETTER_U ==> FourHex(c, i + 2)
    ensures var n := Element(c, i, end).value.1;
            i + n <= end && Visits(c, start, i + n) && ClosingQuote(c, i + n) == Some(end)
  {
    hide Utf8;
    if c[i] == BACKSLASH && c[i + 1] == LETTER_U {
      HexInStep(c, start, i, end);
      if Element(c, i, end).value.1 == 12 {
        assert Hex4(c, i + 8) > 0;
        HexInStep(c, start, i + 6, end);
      }
    }
  }

  /** An escape with four digits, for the first pass. */
  lemma HexInStep(c: seq<byte>, start: nat, i: nat, end: nat)
    requires start <= i && i + 6 <= end < |c| && Visits(c, start, i) && ClosingQuote(c, i) == Some(end)
    requires c[i] == BACKSLASH && FourHex(c, i + 2)
    ensures Visits(c, start, i + 6) && ClosingQuote(c, i + 6) == Some(end)
  {
    assert Visits(c, start, i + 2) && ClosingQuote(c, i + 2) == Some(end);
    DigitInStep(c, start, i + 2, end);
    DigitInStep(c, start, i + 3, end);
    DigitInStep(c, start, i + 4, end);
    DigitInStep(c, start, i + 5, end);
  }

  lemma DigitInStep(c: seq<byte>, start: nat, i: nat, end: nat)
    requires start <= i < end < |c| && Visits(c, start, i) && ClosingQuote(c, i) == Some(end) && HexDigit(c[i]).Some?
    ensures Visits(c, start, i + 1) && ClosingQuote(c, i + 1) == Some(end)
  {
  }

  // ----- Trees -----

  datatype Item =
    | Null | False | True
    | Number(token: seq<byte>)
    | Str(s: seq<byte>)
    | Array(items: seq<Item>)
    | Object(members: seq<Member>)

  datatype Member = Member(name: seq<byte>, value: Item)

  const COMMA: byte := 44
  const COLON: byte := 58
  const OPEN_BRACKET: byte := 91
  const CLOSE_BRACKET: byte := 93
  const OPEN_BRACE: byte := 123
  const CLOSE_BRACE: byte := 125
  const SPACE: byte := 32
  const TAB: byte := 9
  const NEWLINE: byte := 10
  const MAX_NUMBER := 63
  const NESTING_LIMIT := 1000

  const NULL_TEXT: seq<byte> := [110, 117, 108, 108]
  const FALSE_TEXT: seq<byte> := [102, 97, 108, 115, 101]
  const TRUE_TEXT: seq<byte> := [116, 114, 117, 101]

  predicate Digit(b: byte) {
    48 <= b <= 57
  }

  /** Characters that the parser collects for a number: digits, signs, exponents and the point. */
  predicate NumberChar(b: byte) {
    Digit(b) || b == 43 || b == 45 || b == 101 || b == 69 || b == 46
  }

  ghost predicate TokenOk(t: seq<byte>) {
    1 <= |t| <= MAX_NUMBER && (t[0] == 45 || Digit(t[0])) && forall i | 0 <= i < |t| :: NumberChar(t[i])
  }

  ghost predicate NulFree(s: seq<byte>) {
    forall i | 0 <= i < |s| :: s[i] != 0
  }

  /** Trees whose strings are C strings and whose numbers are number tokens. */
  ghost predicate ItemOk(it: Item) {
    match it
    case Number(t) => TokenOk(t)
    case Str(s) => NulFree(s)
    case Array(items) => forall i | 0 <= i < |items| :: ItemOk(items[i])
    case Object(members) => forall i | 0 <= i < |members| :: NulFree(members[i].name) && ItemOk(members[i].value)
    case _ => true
  }

  /** How deep arrays and objects are nested. */
  ghost predicate DepthAtMost(it: Item, n: nat) {
    match it
    case Array(items) => n > 0 && forall i | 0 <= i < |items| :: DepthAtMost(items[i], n - 1)
    case Object(members) => n > 0 && forall i | 0 <= i < |members| :: DepthAtMost(members[i].value, n - 1)
    case _ => true
  }

  function Tabs(n: nat): (t: seq<byte>)
    ensures |t| == n && forall i | 0 <= i < n :: t[i] == TAB
  {
    seq(n, _ => TAB)
  }

  /** The text of an item inside depth arrays and objects. */
  function Text(it: Item, format: bool, depth: nat): (t: seq<byte>)
    decreases it, 1, 0
  {
    match it
    case Null => NULL_TEXT
    case False => FALSE_TEXT
    case True => TRUE_TEXT
    case Number(t) => t
    case Str(s) => Literal(s)
    case Array(items) => [OPEN_BRACKET] + Elements(it, items, format, depth + 1)
    case Object(members) =>
      [OPEN_BRACE] + ((if format then [NEWLINE] else []) + Members(it, members, format, depth + 1))
  }

  /** The rest of an array, with its closing bracket. */
  function Elements(it: Item, items: seq<Item>, format: bool, depth: nat): (t: seq<byte>)
    requires forall i | 0 <= i < |items| :: items[i] < it
    decreases it, 0, |items|
  {
    if items == [] then [CLOSE_BRACKET]
    else
      Text(items[0], format, depth)
      + (ElementGap(|items| > 1, format) + Elements(it, items[1..], format, depth))
  }

  function ElementGap(more: bool, format: bool): (t: seq<byte>) {
    if !more then [] else if format then [COMMA, SPACE] else [COMMA]
  }

  /** The rest of an object, with its closing brace. */
  function Members(it: Item, members: seq<Member>, format: bool, depth: nat): (t: seq<byte>)
    requires depth > 0 && forall i | 0 <= i < |members| :: members[i].value < it
    decreases it, 0, |members|
  {
    if members == [] then (if format then Tabs(depth - 1) else []) + [CLOSE_BRACE]
    else
      (if format then Tabs(depth) else [])
      + (Literal(members[0].name)
         + (NameGap(format)
            + (Text(members[0].value, format, depth)
               + (MemberGap(|members| > 1, format) + Members(it, members[1..], format, depth)))))
  }

  function NameGap(format: bool): (t: seq<byte>) {
    if format then [COLON, TAB] else [COLON]
  }

  function MemberGap(more: bool, format: bool): (t: seq<byte>) {
    (if more then [COMMA] else []) + (if format then [NEWLINE] else [])
  }

  lemma ElementsHead(it: Item, items: seq<Item>, format: bool, depth: nat)
    requires items != [] && forall k | 0 <= k < |items| :: items[k] < it
    ensures Elements(it, items, format, depth)
            == Text(items[0], format, depth)
               + (ElementGap(|items| > 1, format) + Elements(it, items[1..], format, depth))
  {
  }

  lemma ElementsEnd(it: Item, items: seq<Item>, format: bool, depth: nat)
    requires items == []
    ensures Elements(it, items, format, depth) == [CLOSE_BRACKET]
  {
  }

  lemma MembersHead(it: Item, members: seq<Member>, format: bool, depth: nat)
    requires members != [] && depth > 0 && forall k | 0 <= k < |members| :: members[k].value < it
    ensures Members(it, members, format, depth)
            == (if format then Tabs(depth) else [])
               + (Literal(members[0].name)
                  + (NameGap(format)
                     + (Text(members[0].value, format, depth)
                        + (MemberGap(|members| > 1, format) + Members(it, members[1..], format, depth)))))
  {
  }

  lemma MembersEnd(it: Item, members: seq<Member>, format: bool, depth: nat)
    requires members == [] && depth > 0
    ensures Members(it, members, format, depth) == (if format then Tabs(depth - 1) else []) + [CLOSE_BRACE]
  {
  }
}
