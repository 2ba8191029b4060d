/** How printed JSON looks: formatted text is the compact text with line breaks, indentation and blanks put
    in by a single pass over its characters, and no string is escaped more than it needs to be. */
module JsonLayout {
  import opened Numbers
  import opened JsonString
  import opened JsonText

  // ----- Characters -----

  /** The numbers used for characters. */
  lemma Characters()
    ensures Spells(NULL_TEXT, "null") && Spells(FALSE_TEXT, "false") && Spells(TRUE_TEXT, "true")
    ensures Spells([OPEN_BRACE, CLOSE_BRACE, OPEN_BRACKET, CLOSE_BRACKET, COLON, COMMA, QUOTE, BACKSLASH, SLASH],
                   "{}[]:,\"\\/")
    ensures Spells([LETTER_B, LETTER_F, LETTER_N, LETTER_R, LETTER_T, LETTER_U, SPACE, TAB, NEWLINE], "bfnrtu \t\n")
  {
  }

  predicate Spells(t: seq<byte>, s: string) {
    |t| == |s| && forall i | 0 <= i < |t| :: t[i] == s[i] as int
  }

  // ----- Escapes -----

  /** A byte is escaped only if it is a control character, a quote or a backslash, and then no escape that
      the parser knows for it is shorter. */
  lemma ShortestEscape(b: byte, c: seq<byte>, i: nat, end: nat)
    requires i < end < |c|
    ensures if b < 32 || b == 34 || b == 92 then EscapeByte(b)[0] == 92 else EscapeByte(b) == [b]
    ensures var e := Element(c, i, end);
            c[i] == 92 && e.Some? && e.value.0 == [b] ==> |EscapeByte(b)| <= e.value.1
  {
    hide Hex4;
  }

  /** The digits of a printed escape are two zeros and two lower-case ones. */
  lemma ControlEscape(b: byte)
    requires |EscapeByte(b)| == 6
    ensures b < 32
    ensures var t := EscapeByte(b);
            && t[..4] == [92, 117, 48, 48] && (t[4] == 48 || t[4] == 49) && (Digit(t[5]) || 97 <= t[5] <= 102)
            && Hex4(t, 2) == b
  {
  }

  // ----- Layout -----

  /** A new line, indented by as many tabs as there are open brackets and braces. */
  function LineBreak(depth: nat): (t: seq<byte>) {
    [10] + Tabs(depth)
  }

  /** Formats compact text in one pass.  The stack tells for each open bracket whether it is a brace, and
      inside whether a string is being copied. */
  function Pretty(t: seq<byte>, stack: seq<bool>, inside: bool): (r: seq<byte>)
    decreases |t|
  {
    if t == [] then []
    else if inside then
      if t[0] == BACKSLASH && |t| > 1 then t[..2] + Pretty(t[2..], stack, true)
      else [t[0]] + Pretty(t[1..], stack, t[0] != QUOTE)
    else if t[0] == QUOTE then [t[0]] + Pretty(t[1..], stack, true)
    else if t[0] == OPEN_BRACE then
      (if |t| > 1 && t[1] == CLOSE_BRACE then [t[0]] else [t[0]] + LineBreak(|stack| + 1))
      + Pretty(t[1..], stack + [true], false)
    else if t[0] == OPEN_BRACKET then [t[0]] + Pretty(t[1..], stack + [false], false)
    else if stack == [] then [t[0]] + Pretty(t[1..], stack, false)
    else
      var outer := stack[..|stack| - 1];
      if t[0] == CLOSE_BRACE then LineBreak(|outer|) + ([t[0]] + Pretty(t[1..], outer, false))
      else if t[0] == CLOSE_BRACKET then [t[0]] + Pretty(t[1..], outer, false)
      else if t[0] == COMMA then
        (if stack[|outer|] then [t[0]] + LineBreak(|stack|) else [t[0], SPACE]) + Pretty(t[1..], stack, false)
      else if t[0] == COLON then [t[0], TAB] + Pretty(t[1..], stack, false)
      else [t[0]] + Pretty(t[1..], stack, false)
  }

  predicate Plain(b: byte) {
    && b != QUOTE && b != OPEN_BRACE && b != CLOSE_BRACE && b != OPEN_BRACKET && b != CLOSE_BRACKET
    && b != COMMA && b != COLON
  }

  lemma {:induction false} PlainPretty(t: seq<byte>, rest: seq<byte>, stack: seq<bool>)
    requires forall i | 0 <= i < |t| :: Plain(t[i])
    ensures Pretty(t + rest, stack, false) == t + Pretty(rest, stack, false)
  {
    if t == [] {
      assert t + rest == rest;
    } else {
      assert (t + rest)[1..] == t[1..] + rest;
      PlainPretty(t[1..], rest, stack);
    }
  }

  /** Characters of a string other than quotes and backslashes. */
  lemma {:induction false} InsidePretty(t: seq<byte>, rest: seq<byte>, stack: seq<bool>)
    requires forall i | 0 <= i < |t| :: t[i] != QUOTE && t[i] != BACKSLASH
    ensures Pretty(t + rest, stack, true) == t + Pretty(rest, stack, true)
  {
    if t == [] {
      assert t + rest == rest;
    } else {
      assert (t + rest)[1..] == t[1..] + rest;
      InsidePretty(t[1..], rest, stack);
    }
  }

  lemma BytePretty(b: byte, rest: seq<byte>, stack: seq<bool>)
    ensures Pretty(EscapeByte(b) + rest, stack, true) == EscapeByte(b) + Pretty(rest, stack, true)
  {
    var t := EscapeByte(b);
    if |t| == 1 {
      InsidePretty(t, rest, stack);
    } else {
      assert (t + rest)[..2] == t[..2] && (t + rest)[2..] == t[2..] + rest;
      InsidePretty(t[2..], rest, stack);
    }
  }

  lemma {:induction false} EscapePretty(s: seq<byte>, rest: seq<byte>, stack: seq<bool>)
    ensures Pretty(Escape(s) + ([QUOTE] + rest), stack, true) == Escape(s) + ([QUOTE] + Pretty(rest, stack, false))
  {
    hide EscapeByte;
    if s == [] {
      ClosePretty(rest, stack);
      assert [] + ([QUOTE] + rest) == [QUOTE] + rest;
    } else {
      EscapePretty(s[1..], rest, stack);
      BytePretty(s[0], Escape(s[1..]) + ([QUOTE] + rest), stack);
      assert Escape(s) == EscapeByte(s[0]) + Escape(s[1..]);
      hide *;
      Push(EscapeByte(s[0]), Escape(s[1..]), [QUOTE] + rest);
      Push(EscapeByte(s[0]), Escape(s[1..]), [QUOTE] + Pretty(rest, stack, false));
    }
  }

  lemma ClosePretty(rest: seq<byte>, stack: seq<bool>)
    ensures Pretty([QUOTE] + rest, stack, true) == [QUOTE] + Pretty(rest, stack, false)
  {
    assert ([QUOTE] + rest)[1..] == rest;
  }

  lemma LiteralPretty(s: seq<byte>, rest: seq<byte>, stack: seq<bool>)
    ensures Pretty(Literal(s) + rest, stack, false) == Literal(s) + Pretty(rest, stack, false)
  {
    EscapePretty(s, rest, stack);
    QuotePretty(Escape(s) + ([QUOTE] + rest), stack);
    hide Escape, Pretty;
    LiteralThen(s, rest);
    LiteralThen(s, Pretty(rest, stack, false));
  }

  lemma QuotePretty(rest: seq<byte>, stack: seq<bool>)
    ensures Pretty([QUOTE] + rest, stack, false) == [QUOTE] + Pretty(rest, stack, true)
  {
    assert ([QUOTE] + rest)[1..] == rest;
  }

  lemma LiteralThen(s: seq<byte>, rest: seq<byte>)
    ensures Literal(s) + rest == [QUOTE] + (Escape(s) + ([QUOTE] + rest))
  {
    hide Escape;
  }

  lemma {:induction false} TextPretty(it: Item, rest: seq<byte>, stack: seq<bool>)
    requires ItemOk(it)
    ensures Pretty(Text(it, false, |stack|) + rest, stack, false)
            == Text(it, true, |stack|) + Pretty(rest, stack, false)
    decreases it, 1, 0
  {
    match it
    case Null => PlainPretty(NULL_TEXT, rest, stack);
    case False => PlainPretty(FALSE_TEXT, rest, stack);
    case True => PlainPretty(TRUE_TEXT, rest, stack);
    case Number(t) => PlainPretty(t, rest, stack);
    case Str(s) => LiteralPretty(s, rest, stack);
    case Array(items) => ArrayPretty(it, items, rest, stack);
    case Object(members) => ObjectPretty(it, members, rest, stack);
  }

  /** The formatted text of a tree is its compact text after that pass. */
  lemma Formatted(it: Item)
    requires ItemOk(it)
    ensures Text(it, true, 0) == Pretty(Text(it, false, 0), [], false)
  {
    TextPretty(it, [], []);
    hide Text;
    assert Text(it, false, 0) + [] == Text(it, false, 0);
  }

  lemma {:induction false} ArrayPretty(it: Item, items: seq<Item>, rest: seq<byte>, stack: seq<bool>)
    requires it == Array(items) && ItemOk(it)
    ensures Pretty(Text(it, false, |stack|) + rest, stack, false)
            == Text(it, true, |stack|) + Pretty(rest, stack, false)
    decreases it, 0, |items| + 1
  {
    hide Pretty, Text, Elements;
    var inner := stack + [false];
    assert inner[..|stack|] == stack;
    ElementsPretty(it, items, rest, inner);
    hide *;
    ArrayOpens(it, items, rest, false, |stack|);
    ArrayOpens(it, items, Pretty(rest, stack, false), true, |stack|);
    OpenBracketPretty(Elements(it, items, false, |inner|) + rest, stack);
  }

  lemma ArrayOpens(it: Item, items: seq<Item>, rest: seq<byte>, format: bool, depth: nat)
    requires it == Array(items)
    ensures Text(it, format, depth) + rest == [OPEN_BRACKET] + (Elements(it, items, format, depth + 1) + rest)
  {
    hide Elements;
  }

  lemma OpenBracketPretty(rest: seq<byte>, stack: seq<bool>)
    ensures Pretty([OPEN_BRACKET] + rest, stack, false) == [OPEN_BRACKET] + Pretty(rest, stack + [false], false)
  {
    assert ([OPEN_BRACKET] + rest)[1..] == rest;
  }

  lemma {:induction false} ElementsPretty(it: Item, items: seq<Item>, rest: seq<byte>, stack: seq<bool>)
    requires forall i | 0 <= i < |items| :: items[i] < it && ItemOk(items[i])
    requires stack != [] && !stack[|stack| - 1]
    ensures Pretty(Elements(it, items, false, |stack|) + rest, stack, false)
            == Elements(it, items, true, |stack|) + Pretty(rest, stack[..|stack| - 1], false)
    decreases it, 0, |items|
  {
    hide *;
    var after := Pretty(rest, stack[..|stack| - 1], false);
    if items == [] {
      ElementsEnd(it, items, false, |stack|);
      ElementsEnd(it, items, true, |stack|);
      CloseBracketPretty(rest, stack);
    } else {
      var more, tail := |items| > 1, Elements(it, items[1..], false, |stack|);
      ElementsHead(it, items, false, |stack|);
      ElementsHead(it, items, true, |stack|);
      TextPretty(items[0], ElementGap(more, false) + (tail + rest), stack);
      ElementGapPretty(more, tail + rest, stack);
      ElementsPretty(it, items[1..], rest, stack);
      Regroup(Text(items[0], false, |stack|), ElementGap(more, false), tail, rest);
      Regroup(Text(items[0], true, |stack|), ElementGap(more, true), Elements(it, items[1..], true, |stack|), after);
    }
  }

  lemma ElementGapPretty(more: bool, rest: seq<byte>, stack: seq<bool>)
    requires stack != [] && !stack[|stack| - 1]
    ensures Pretty(ElementGap(more, false) + rest, stack, false)
            == ElementGap(more, true) + Pretty(rest, stack, false)
  {
    if more {
      CommaPretty(rest, stack);
    } else {
      assert [] + rest == rest;
    }
  }

  lemma Regroup(a: seq<byte>, b: seq<byte>, c: seq<byte>, d: seq<byte>)
    ensures (a + (b + c)) + d == a + (b + (c + d))
  {
  }

  lemma CloseBracketPretty(rest: seq<byte>, stack: seq<bool>)
    requires stack != []
    ensures Pretty([CLOSE_BRACKET] + rest, stack, false)
            == [CLOSE_BRACKET] + Pretty(rest, stack[..|stack| - 1], false)
  {
    assert ([CLOSE_BRACKET] + rest)[1..] == rest;
  }

  lemma CloseBracePretty(rest: seq<byte>, stack: seq<bool>)
    requires stack != []
    ensures Pretty([CLOSE_BRACE] + rest, stack, false)
            == LineBreak(|stack| - 1) + ([CLOSE_BRACE] + Pretty(rest, stack[..|stack| - 1], false))
  {
    assert ([CLOSE_BRACE] + rest)[1..] == rest;
  }

  lemma CommaPretty(rest: seq<byte>, stack: seq<bool>)
    requires stack != []
    ensures Pretty([COMMA] + rest, stack, false)
            == (if stack[|stack| - 1] then [COMMA] + LineBreak(|stack|) else [COMMA, SPACE])
               + Pretty(rest, stack, false)
  {
    assert ([COMMA] + rest)[1..] == rest;
  }

  lemma ColonPretty(rest: seq<byte>, stack: seq<bool>)
    requires stack != []
    ensures Pretty([COLON] + rest, stack, false) == [COLON, TAB] + Pretty(rest, stack, false)
  {
    assert ([COLON] + rest)[1..] == rest;
  }

  lemma OpenBracePretty(rest: seq<byte>, stack: seq<bool>)
    requires rest != []
    ensures Pretty([OPEN_BRACE] + rest, stack, false)
            == (if rest[0] == CLOSE_BRACE then [OPEN_BRACE] else [OPEN_BRACE] + LineBreak(|stack| + 1))
               + Pretty(rest, stack + [true], false)
  {
    assert ([OPEN_BRACE] + rest)[1..] == rest;
  }

  lemma {:induction false} ObjectPretty(it: Item, members: seq<Member>, rest: seq<byte>, stack: seq<bool>)
    requires it == Object(members) && ItemOk(it)
    ensures Pretty(Text(it, false, |stack|) + rest, stack, false)
            == Text(it, true, |stack|) + Pretty(rest, stack, false)
    decreases it, 0, |members| + 1
  {
    var inner := stack + [true];
    assert inner[..|stack|] == stack;
    var body, body' := Members(it, members, false, |inner|), Members(it, members, true, |inner|);
    ObjectOpens(it, members, rest, Pretty(rest, stack, false), |stack|);
    if members == [] {
      MembersEnd(it, members, false, |inner|);
      MembersEnd(it, members, true, |inner|);
      hide *;
      OpenBracePretty(body + rest, stack);
      CloseBracePretty(rest, inner);
      BraceOnly(|stack|, Pretty(rest, stack, false));
    } else {
      MembersStart(it, members, |inner|);
      MembersPretty(it, members, rest, inner);
      hide *;
      OpenBracePretty(body + rest, stack);
      Indented(|inner|, Pretty(body + rest, inner, false));
    }
  }

  lemma ObjectOpens(it: Item, members: seq<Member>, rest: seq<byte>, after: seq<byte>, depth: nat)
    requires it == Object(members)
    ensures Text(it, false, depth) + rest == [OPEN_BRACE] + (Members(it, members, false, depth + 1) + rest)
    ensures Text(it, true, depth) + after
            == [OPEN_BRACE] + ([NEWLINE] + (Members(it, members, true, depth + 1) + after))
  {
    hide Members;
  }

  lemma BraceOnly(depth: nat, after: seq<byte>)
    ensures [OPEN_BRACE] + (LineBreak(depth) + ([CLOSE_BRACE] + after))
            == [OPEN_BRACE] + ([NEWLINE] + ((Tabs(depth) + [CLOSE_BRACE]) + after))
  {
    hide *;
    BreakBrace(depth, after);
  }

  lemma Indented(depth: nat, t: seq<byte>)
    ensures ([OPEN_BRACE] + LineBreak(depth)) + t == [OPEN_BRACE] + ([NEWLINE] + (Tabs(depth) + t))
  {
    hide Tabs;
  }

  lemma MembersStart(it: Item, members: seq<Member>, depth: nat)
    requires members != [] && depth > 0 && forall i | 0 <= i < |members| :: members[i].value < it
    ensures var t := Members(it, members, false, depth); t != [] && t[0] == QUOTE != CLOSE_BRACE
  {
    hide Text;
    assert Literal(members[0].name)[0] == QUOTE;
    hide Literal;
  }

  /** The members of an object, from the name of the first one on. */
  lemma {:induction false} MembersPretty(it: Item, members: seq<Member>, rest: seq<byte>, stack: seq<bool>)
    requires forall i | 0 <= i < |members| :: members[i].value < it && ItemOk(members[i].value)
    requires members != [] && stack != [] && stack[|stack| - 1]
    ensures Tabs(|stack|) + Pretty(Members(it, members, false, |stack|) + rest, stack, false)
            == Members(it, members, true, |stack|) + Pretty(rest, stack[..|stack| - 1], false)
    decreases it, 0, |members|
  {
    hide *;
    var m, more, outer := members[0], |members| > 1, Pretty(rest, stack[..|stack| - 1], false);
    var tail, tail' := Members(it, members[1..], false, |stack|), Members(it, members[1..], true, |stack|);
    var after := MemberGap(more, false) + (tail + rest);
    var value, value' := Text(m.value, false, |stack|), Text(m.value, true, |stack|);
    MemberText(it, members, rest, outer, |stack|);
    LiteralPretty(m.name, [COLON] + (value + after), stack);
    ColonPretty(value + after, stack);
    TextPretty(m.value, after, stack);
    if more {
      MembersPretty(it, members[1..], rest, stack);
      NextMember(tail + rest, stack);
    } else {
      LastMember(it, members[1..], rest, stack);
    }
  }

  lemma MemberText(it: Item, members: seq<Member>, rest: seq<byte>, outer: seq<byte>, depth: nat)
    requires members != [] && depth > 0 && forall i | 0 <= i < |members| :: members[i].value < it
    ensures var m, more := members[0], |members| > 1;
            && Members(it, members, false, depth) + rest
               == Literal(m.name)
                  + ([COLON] + (Text(m.value, false, depth)
                                + (MemberGap(more, false) + (Members(it, members[1..], false, depth) + rest))))
            && Members(it, members, true, depth) + outer
               == Tabs(depth)
                  + (Literal(m.name)
                     + ([COLON, TAB]
                        + (Text(m.value, true, depth)
                           + (MemberGap(more, true) + (Members(it, members[1..], true, depth) + outer)))))
  {
    var m, more := members[0], |members| > 1;
    MembersHead(it, members, false, depth);
    MembersHead(it, members, true, depth);
    assert NameGap(false) == [COLON] && NameGap(true) == [COLON, TAB];
    hide *;
    SixParts([], Literal(m.name), [COLON], Text(m.value, false, depth), MemberGap(more, false),
             Members(it, members[1..], false, depth), rest);
    SixParts(Tabs(depth), Literal(m.name), [COLON, TAB], Text(m.value, true, depth), MemberGap(more, true),
             Members(it, members[1..], true, depth), outer);
  }

  lemma SixParts(a: seq<byte>, b: seq<byte>, c: seq<byte>, d: seq<byte>, e: seq<byte>, f: seq<byte>, rest: seq<byte>)
    ensures (a + (b + (c + (d + (e + f))))) + rest == a + (b + (c + (d + (e + (f + rest)))))
    ensures [] + b == b && (b + (c + (d + (e + f)))) + rest == b + (c + (d + (e + (f + rest))))
  {
    Push(a, b + (c + (d + (e + f))), rest);
    Push(b, c + (d + (e + f)), rest);
    Push(c, d + (e + f), rest);
    Push(d, e + f, rest);
    Push(e, f, rest);
  }

  lemma Push(a: seq<byte>, b: seq<byte>, c: seq<byte>)
    ensures (a + b) + c == a + (b + c)
  {
  }

  lemma NextMember(rest: seq<byte>, stack: seq<bool>)
    requires stack != [] && stack[|stack| - 1]
    ensures Pretty(MemberGap(true, false) + rest, stack, false)
            == MemberGap(true, true) + (Tabs(|stack|) + Pretty(rest, stack, false))
  {
    MemberGaps(true);
    hide *;
    CommaPretty(rest, stack);
    IndentedAfter(COMMA, |stack|, Pretty(rest, stack, false));
  }

  lemma MemberGaps(more: bool)
    ensures MemberGap(more, false) == if more then [COMMA] else []
    ensures MemberGap(more, true) == if more then [COMMA, NEWLINE] else [NEWLINE]
  {
  }

  lemma IndentedAfter(b: byte, depth: nat, t: seq<byte>)
    ensures ([b] + LineBreak(depth)) + t == [b, NEWLINE] + (Tabs(depth) + t)
  {
    hide Tabs;
    assert [b] + LineBreak(depth) == [b, NEWLINE] + Tabs(depth);
    Push([b, NEWLINE], Tabs(depth), t);
  }

  lemma LastMember(it: Item, members: seq<Member>, rest: seq<byte>, stack: seq<bool>)
    requires stack != [] && members == []
    ensures Pretty(MemberGap(false, false) + (Members(it, members, false, |stack|) + rest), stack, false)
            == MemberGap(false, true)
               + (Members(it, members, true, |stack|) + Pretty(rest, stack[..|stack| - 1], false))
  {
    MemberGaps(false);
    MembersEnd(it, members, false, |stack|);
    MembersEnd(it, members, true, |stack|);
    hide *;
    CloseBracePretty(rest, stack);
    assert [] + ([] + [CLOSE_BRACE] + rest) == [CLOSE_BRACE] + rest;
    BreakBrace(|stack| - 1, Pretty(rest, stack[..|stack| - 1], false));
  }

  lemma BreakBrace(depth: nat, after: seq<byte>)
    ensures LineBreak(depth) + ([CLOSE_BRACE] + after) == [NEWLINE] + ((Tabs(depth) + [CLOSE_BRACE]) + after)
  {
    hide Tabs;
    Push([NEWLINE], Tabs(depth), [CLOSE_BRACE] + after);
    Push(Tabs(depth), [CLOSE_BRACE], after);
  }
}
