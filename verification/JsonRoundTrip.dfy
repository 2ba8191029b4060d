/** Every printed tree is in the grammar of the parser, so that it comes back from its text. */
module JsonRoundTrip {
  import opened Numbers
  import opened JsonString
  import opened JsonText
  import opened JsonGrammar
  import opened JsonNumbers
  import opened JsonPrinter
  import opened JsonParser

  /** All numbers of the item are taken whole by the C library. */
  ghost predicate NumbersRead(strtod: seq<byte> -> nat, it: Item) {
    match it
    case Number(t) => strtod(t) == |t|
    case Array(items) => forall i | 0 <= i < |items| :: NumbersRead(strtod, items[i])
    case Object(members) => forall i | 0 <= i < |members| :: NumbersRead(strtod, members[i].value)
    case _ => true
  }

  /** A tree that can be printed and read. */
  ghost predicate Printable(strtod: seq<byte> -> nat, it: Item) {
    ItemOk(it) && NumbersRead(strtod, it)
  }

  lemma TokenReads(c: seq<byte>, strtod: seq<byte> -> nat, i: nat, t: seq<byte>)
    requires TokenOk(t) && strtod(t) == |t| && At(c, i, t) && i + |t| < |c| && !NumberChar(c[i + |t|])
    ensures ReadsNumber(c, strtod, i, t, i + |t|)
  {
    forall k | i <= k < i + |t| ensures NumberChar(c[k]) {
      AtIndex(c, i, t, k - i);
    }
    RunCollects(c, i, |t|, MAX_NUMBER);
    AtIndex(c, i, t, 0);
  }

  lemma LiteralReads(c: seq<byte>, i: nat, s: seq<byte>)
    requires At(c, i, Literal(s))
    ensures ReadsString(c, i, s, i + |Literal(s)|)
  {
    hide ClosingQuote, Unescape, Escape;
    AtIndex(c, i, Literal(s), 0);
    assert Literal(s) == [QUOTE] + (Escape(s) + [QUOTE]);
    AtSplit(c, i, [QUOTE], Escape(s) + [QUOTE]);
    StringRoundTrip(c, i + 1, s);
  }

  lemma BlankThenElements(c: seq<byte>, strtod: seq<byte> -> nat, i: nat, p: nat, it: Item, items: seq<Item>, j: nat)
    requires forall k | 0 <= k < |items| :: items[k] < it
    requires Blank(c, i, p) && ReadsElements(c, strtod, p, it, items, j)
    ensures ReadsElements(c, strtod, i, it, items, j)
  {
    hide Reads;
    var r: nat :| ReadsPadded(c, strtod, p, items[0], r) && r < |c|
                  && if |items| == 1 then c[r] == CLOSE_BRACKET && j == r + 1
                     else c[r] == COMMA && ReadsElements(c, strtod, r + 1, it, items[1..], j);
    var u: nat, q: nat :| Blank(c, p, u) && Reads(c, strtod, u, items[0], q) && Blank(c, q, r);
    Pad(c, strtod, i, u, items[0], q, r);
  }

  lemma BlankThenMembers(c: seq<byte>, strtod: seq<byte> -> nat, i: nat, p: nat, it: Item, members: seq<Member>, j: nat)
    requires forall k | 0 <= k < |members| :: members[k].value < it
    requires Blank(c, i, p) && ReadsMembers(c, strtod, p, it, members, j)
    ensures ReadsMembers(c, strtod, i, it, members, j)
  {
    hide ReadsPadded, ReadsString;
    var r: nat :| ReadsMember(c, strtod, p, members[0], r) && r < |c|
                  && if |members| == 1 then c[r] == CLOSE_BRACE && j == r + 1
                     else c[r] == COMMA && ReadsMembers(c, strtod, r + 1, it, members[1..], j);
    var m := members[0];
    var n: nat :| ReadsName(c, p, m.name, n) && n < |c| && c[n] == COLON && ReadsPadded(c, strtod, n + 1, m.value, r);
    var u: nat, q: nat :| Blank(c, p, u) && ReadsString(c, u, m.name, q) && Blank(c, q, n);
    assert ReadsName(c, i, m.name, n);
  }

  /** The text of an item, behind which no number goes on, stands for the item. */
  lemma {:induction false} PrintedReads(c: seq<byte>, strtod: seq<byte> -> nat, i: nat, it: Item, format: bool,
                                        depth: nat)
    requires Printable(strtod, it) && At(c, i, Text(it, format, depth))
    requires var q := i + |Text(it, format, depth)|; q < |c| && !NumberChar(c[q])
    ensures Reads(c, strtod, i, it, i + |Text(it, format, depth)|)
    decreases it, 2, 0
  {
    hide At, Elements, Members, ReadsElements, ReadsMembers, ReadsNumber, ReadsString, Literal;
    match it {
      case Number(t) => TokenReads(c, strtod, i, t);
      case Str(s) => LiteralReads(c, i, s);
      case Array(items) => PrintedArray(c, strtod, i, it, items, format, depth);
      case Object(members) => PrintedObject(c, strtod, i, it, members, format, depth);
      case _ =>
    }
  }

  lemma PrintedPadded(c: seq<byte>, strtod: seq<byte> -> nat, i: nat, it: Item, format: bool, depth: nat)
    requires Printable(strtod, it) && At(c, i, Text(it, format, depth))
    requires var q := i + |Text(it, format, depth)|; q < |c| && !NumberChar(c[q])
    ensures ReadsPadded(c, strtod, i, it, i + |Text(it, format, depth)|)
    decreases it, 3, 0
  {
    hide Printable, At, Text, Reads;
    var q := i + |Text(it, format, depth)|;
    PrintedReads(c, strtod, i, it, format, depth);
    Pad(c, strtod, i, i, it, q, q);
  }

  lemma {:induction false} PrintedArray(c: seq<byte>, strtod: seq<byte> -> nat, i: nat, it: Item, items: seq<Item>,
                                        format: bool, depth: nat)
    requires it == Array(items) && Printable(strtod, it) && At(c, i, Text(it, format, depth))
    ensures Reads(c, strtod, i, it, i + |Text(it, format, depth)|)
    decreases it, 1, |items| + 1
  {
    var rest := Elements(it, items, format, depth + 1);
    hide At, Elements, ReadsElements;
    AtSplit(c, i, [OPEN_BRACKET], rest);
    AtIndex(c, i, [OPEN_BRACKET], 0);
    if items == [] {
      ElementsEnd(it, items, format, depth + 1);
      AtIndex(c, i + 1, [CLOSE_BRACKET], 0);
    } else {
      PrintedElements(c, strtod, i + 1, it, items, format, depth + 1);
    }
  }

  lemma CommaBlank(c: seq<byte>, q: nat, format: bool)
    requires At(c, q, ElementGap(true, format))
    ensures q < |c| && c[q] == COMMA && !NumberChar(c[q]) && Blank(c, q, q)
    ensures Blank(c, q + 1, q + |ElementGap(true, format)|) && |ElementGap(true, format)| >= 1
  {
    var gap := ElementGap(true, format);
    AtIndex(c, q, gap, 0);
    if format {
      AtIndex(c, q, gap, 1);
    }
  }

  lemma BracketStands(c: seq<byte>, q: nat, it: Item, items: seq<Item>, format: bool, depth: nat)
    requires items == [] && At(c, q + |ElementGap(false, format)|, Elements(it, items, format, depth))
    ensures |ElementGap(false, format)| == 0 && |Elements(it, items, format, depth)| == 1
    ensures q < |c| && c[q] == CLOSE_BRACKET && !NumberChar(c[q]) && Blank(c, q, q)
  {
    AtIndex(c, q, [CLOSE_BRACKET], 0);
  }

  lemma ElementsMore(c: seq<byte>, strtod: seq<byte> -> nat, i: nat, it: Item, items: seq<Item>, r: nat, j: nat)
    requires |items| > 1 && forall k | 0 <= k < |items| :: items[k] < it
    requires ReadsPadded(c, strtod, i, items[0], r) && r < |c| && c[r] == COMMA
    requires ReadsElements(c, strtod, r + 1, it, items[1..], j)
    ensures ReadsElements(c, strtod, i, it, items, j)
  {
    hide ReadsPadded;
  }

  lemma ElementsLast(c: seq<byte>, strtod: seq<byte> -> nat, i: nat, it: Item, items: seq<Item>, r: nat)
    requires |items| == 1 && forall k | 0 <= k < |items| :: items[k] < it
    requires ReadsPadded(c, strtod, i, items[0], r) && r < |c| && c[r] == CLOSE_BRACKET
    ensures ReadsElements(c, strtod, i, it, items, r + 1)
  {
    hide ReadsPadded;
  }

  lemma {:induction false} PrintedElements(c: seq<byte>, strtod: seq<byte> -> nat, i: nat, it: Item, items: seq<Item>,
                                           format: bool, depth: nat)
    requires items != [] && forall k | 0 <= k < |items| :: items[k] < it && Printable(strtod, items[k])
    requires At(c, i, Elements(it, items, format, depth))
    ensures ReadsElements(c, strtod, i, it, items, i + |Elements(it, items, format, depth)|)
    decreases it, 1, |items|
  {
    hide *;
    var text, more := Text(items[0], format, depth), |items| > 1;
    var gap, rest := ElementGap(more, format), Elements(it, items[1..], format, depth);
    var q := i + |text|;
    ElementsHead(it, items, format, depth);
    ThreeStand(c, i, text, gap, rest);
    if more {
      CommaBlank(c, q, format);
      PrintedPadded(c, strtod, i, items[0], format, depth);
      PrintedElements(c, strtod, q + |gap|, it, items[1..], format, depth);
      BlankThenElements(c, strtod, q + 1, q + |gap|, it, items[1..], q + |gap| + |rest|);
      ElementsMore(c, strtod, i, it, items, q, q + |gap| + |rest|);
    } else {
      BracketStands(c, q, it, items[1..], format, depth);
      PrintedPadded(c, strtod, i, items[0], format, depth);
      ElementsLast(c, strtod, i, it, items, q);
    }
  }

  lemma {:induction false} PrintedObject(c: seq<byte>, strtod: seq<byte> -> nat, i: nat, it: Item,
                                         members: seq<Member>, format: bool, depth: nat)
    requires it == Object(members) && Printable(strtod, it) && At(c, i, Text(it, format, depth))
    ensures Reads(c, strtod, i, it, i + |Text(it, format, depth)|)
    decreases it, 1, |members| + 1
  {
    hide *;
    var line: seq<byte> := if format then [NEWLINE] else [];
    var rest := Members(it, members, format, depth + 1);
    ObjectHead(c, i, it, members, format, depth);
    var p := i + 1 + |line|;
    if members == [] {
      ObjectCloses(c, i + 1, p, it, format, depth + 1);
      ObjectEmpty(c, strtod, i, it, p + |rest|);
    } else {
      MembersPrintable(strtod, it, members);
      PrintedMembers(c, strtod, p, it, members, format, depth + 1);
      BlankThenMembers(c, strtod, i + 1, p, it, members, p + |rest|);
      ObjectRead(c, strtod, i, it, members, p + |rest|);
    }
  }

  lemma ObjectHead(c: seq<byte>, i: nat, it: Item, members: seq<Member>, format: bool, depth: nat)
    requires it == Object(members) && At(c, i, Text(it, format, depth))
    ensures var line: seq<byte> := if format then [NEWLINE] else [];
            var p := i + 1 + |line|;
            && i < |c| && c[i] == OPEN_BRACE && Blank(c, i + 1, p) && At(c, p, Members(it, members, format, depth + 1))
            && i + |Text(it, format, depth)| == p + |Members(it, members, format, depth + 1)|
  {
    var line: seq<byte> := if format then [NEWLINE] else [];
    var rest := Members(it, members, format, depth + 1);
    hide At, Members;
    AtSplit(c, i, [OPEN_BRACE], line + rest);
    AtIndex(c, i, [OPEN_BRACE], 0);
    AtEnd(c, i, [OPEN_BRACE]);
    AtSplit(c, i + 1, line, rest);
    AtEnd(c, i + 1, line);
    BlankAt(c, i + 1, line);
  }

  lemma ObjectEmpty(c: seq<byte>, strtod: seq<byte> -> nat, i: nat, it: Item, j: nat)
    requires it == Object([]) && i < |c| && c[i] == OPEN_BRACE && Closes(c, i + 1, CLOSE_BRACE, j)
    ensures Reads(c, strtod, i, it, j)
  {
  }

  lemma ObjectRead(c: seq<byte>, strtod: seq<byte> -> nat, i: nat, it: Item, members: seq<Member>, j: nat)
    requires it == Object(members) && members != [] && i < |c| && c[i] == OPEN_BRACE
    requires ReadsMembers(c, strtod, i + 1, it, members, j)
    ensures Reads(c, strtod, i, it, j)
  {
    hide ReadsMembers;
  }

  lemma MembersPrintable(strtod: seq<byte> -> nat, it: Item, members: seq<Member>)
    requires it == Object(members) && Printable(strtod, it)
    ensures forall k | 0 <= k < |members| ::
              members[k].value < it && NulFree(members[k].name) && Printable(strtod, members[k].value)
  {
    hide NulFree;
  }

  /** A text of blanks. */
  lemma BlankAt(c: seq<byte>, i: nat, t: seq<byte>)
    requires At(c, i, t) && forall k | 0 <= k < |t| :: t[k] <= 32
    ensures Blank(c, i, i + |t|)
  {
    forall k | i <= k < i + |t| ensures c[k] <= 32 {
      AtIndex(c, i, t, k - i);
    }
  }

  /** The end of an object, with blanks before it. */
  lemma ObjectCloses(c: seq<byte>, i: nat, p: nat, it: Item, format: bool, depth: nat)
    requires Blank(c, i, p) && depth > 0 && At(c, p, Members(it, [], format, depth))
    ensures Closes(c, i, CLOSE_BRACE, p + |Members(it, [], format, depth)|)
  {
    var indent := if format then Tabs(depth - 1) else [];
    hide At;
    AtSplit(c, p, indent, [CLOSE_BRACE]);
    BlankAt(c, p, indent);
    AtIndex(c, p + |indent|, [CLOSE_BRACE], 0);
    AtEnd(c, p + |indent|, [CLOSE_BRACE]);
  }

  lemma AtEnd(c: seq<byte>, i: nat, t: seq<byte>)
    requires At(c, i, t)
    ensures i + |t| <= |c|
  {
  }

  /** A name with its indentation, its colon and its value, and blanks up to r. */
  lemma {:induction false} PrintedMember(c: seq<byte>, strtod: seq<byte> -> nat, i: nat, m: Member, format: bool,
                                         depth: nat, rest: seq<byte>, r: nat)
    requires NulFree(m.name) && Printable(strtod, m.value)
    requires At(c, i, (if format then Tabs(depth) else [])
                      + (Literal(m.name) + (NameGap(format) + (Text(m.value, format, depth) + rest))))
    requires var e := i + |if format then Tabs(depth) else []| + |Literal(m.name)| + |NameGap(format)|
                        + |Text(m.value, format, depth)|;
             e < |c| && !NumberChar(c[e]) && Blank(c, e, r)
    ensures ReadsMember(c, strtod, i, m, r)
    decreases m.value, 3, 0
  {
    hide *;
    var indent: seq<byte> := if format then Tabs(depth) else [];
    var gap, text := NameGap(format), Text(m.value, format, depth);
    var p := i + |indent|;
    var n := p + |Literal(m.name)|;
    FourStand(c, i, indent, Literal(m.name), gap, text, rest);
    IndentBlank(c, i, format, depth);
    LiteralReads(c, p, m.name);
    NameRead(c, i, p, m.name, n);
    ColonBlank(c, n, format);
    PrintedReads(c, strtod, n + |gap|, m.value, format, depth);
    Pad(c, strtod, n + 1, n + |gap|, m.value, n + |gap| + |text|, r);
    MemberParts(c, strtod, i, m, n, r);
  }

  lemma ThreeStand(c: seq<byte>, i: nat, a: seq<byte>, b: seq<byte>, rest: seq<byte>)
    requires At(c, i, a + (b + rest))
    ensures At(c, i, a) && At(c, i + |a|, b) && At(c, i + |a| + |b|, rest)
  {
    hide At;
    AtSplit(c, i, a, b + rest);
    AtSplit(c, i + |a|, b, rest);
  }

  lemma FourStand(c: seq<byte>, i: nat, a: seq<byte>, b: seq<byte>, d: seq<byte>, e: seq<byte>, rest: seq<byte>)
    requires At(c, i, a + (b + (d + (e + rest))))
    ensures At(c, i, a) && At(c, i + |a|, b) && At(c, i + |a| + |b|, d) && At(c, i + |a| + |b| + |d|, e)
  {
    hide At;
    AtSplit(c, i, a, b + (d + (e + rest)));
    AtSplit(c, i + |a|, b, d + (e + rest));
    AtSplit(c, i + |a| + |b|, d, e + rest);
    AtSplit(c, i + |a| + |b| + |d|, e, rest);
  }

  lemma IndentBlank(c: seq<byte>, i: nat, format: bool, depth: nat)
    requires At(c, i, if format then Tabs(depth) else [])
    ensures Blank(c, i, i + |if format then Tabs(depth) else []|)
  {
    hide At;
    AtEnd(c, i, if format then Tabs(depth) else []);
    BlankAt(c, i, if format then Tabs(depth) else []);
  }

  lemma ColonBlank(c: seq<byte>, n: nat, format: bool)
    requires At(c, n, NameGap(format))
    ensures n < |c| && c[n] == COLON && Blank(c, n + 1, n + |NameGap(format)|) && |NameGap(format)| >= 1
  {
    AtIndex(c, n, NameGap(format), 0);
    if format {
      AtIndex(c, n, NameGap(format), 1);
    }
  }

  lemma MemberParts(c: seq<byte>, strtod: seq<byte> -> nat, i: nat, m: Member, n: nat, r: nat)
    requires ReadsName(c, i, m.name, n) && n < |c| && c[n] == COLON && ReadsPadded(c, strtod, n + 1, m.value, r)
    ensures ReadsMember(c, strtod, i, m, r)
  {
    hide ReadsName, ReadsPadded;
  }

  lemma NameRead(c: seq<byte>, i: nat, p: nat, s: seq<byte>, n: nat)
    requires Blank(c, i, p) && ReadsString(c, p, s, n) && n <= |c|
    ensures ReadsName(c, i, s, n)
  {
    assert Blank(c, n, n);
  }

  /** The comma of a member, and the line break after it. */
  lemma GapBlank(c: seq<byte>, e: nat, more: bool, format: bool)
    requires At(c, e, MemberGap(more, format))
    ensures var gap := MemberGap(more, format);
            if more then
              && e < |c| && c[e] == COMMA && !NumberChar(c[e])
              && Blank(c, e, e) && Blank(c, e + 1, e + |gap|) && |gap| >= 1
            else Blank(c, e, e + |gap|)
  {
    var gap := MemberGap(more, format);
    forall k | e <= k < e + |gap| ensures c[k] == gap[k - e] {
      AtIndex(c, e, gap, k - e);
    }
  }

  lemma CloseParts(c: seq<byte>, i: nat, b: byte, j: nat)
    requires Closes(c, i, b, j)
    ensures j > 0 && Blank(c, i, j - 1) && j <= |c| && c[j - 1] == b
  {
  }

  lemma MembersMore(c: seq<byte>, strtod: seq<byte> -> nat, i: nat, it: Item, members: seq<Member>, r: nat, j: nat)
    requires |members| > 1 && forall k | 0 <= k < |members| :: members[k].value < it
    requires ReadsMember(c, strtod, i, members[0], r) && r < |c| && c[r] == COMMA
    requires ReadsMembers(c, strtod, r + 1, it, members[1..], j)
    ensures ReadsMembers(c, strtod, i, it, members, j)
  {
    hide ReadsMember;
  }

  lemma MembersLast(c: seq<byte>, strtod: seq<byte> -> nat, i: nat, it: Item, members: seq<Member>, r: nat)
    requires |members| == 1 && forall k | 0 <= k < |members| :: members[k].value < it
    requires ReadsMember(c, strtod, i, members[0], r) && r < |c| && c[r] == CLOSE_BRACE
    ensures ReadsMembers(c, strtod, i, it, members, r + 1)
  {
    hide ReadsMember;
  }

  lemma {:induction false} PrintedMembers(c: seq<byte>, strtod: seq<byte> -> nat, i: nat, it: Item,
                                          members: seq<Member>, format: bool, depth: nat)
    requires members != [] && depth > 0
    requires forall k | 0 <= k < |members| ::
               members[k].value < it && NulFree(members[k].name) && Printable(strtod, members[k].value)
    requires At(c, i, Members(it, members, format, depth))
    ensures ReadsMembers(c, strtod, i, it, members, i + |Members(it, members, format, depth)|)
    decreases it, 1, |members|
  {
    hide *;
    var m, more := members[0], |members| > 1;
    var indent: seq<byte> := if format then Tabs(depth) else [];
    var gap, rest := MemberGap(more, format), Members(it, members[1..], format, depth);
    var e := i + |indent| + |Literal(m.name)| + |NameGap(format)| + |Text(m.value, format, depth)|;
    MembersHead(it, members, format, depth);
    GapStands(c, i, indent, m, format, depth, gap, rest);
    var q := e + |gap|;
    GapBlank(c, e, more, format);
    if more {
      PrintedMember(c, strtod, i, m, format, depth, gap + rest, e);
      PrintedMembers(c, strtod, q, it, members[1..], format, depth);
      BlankThenMembers(c, strtod, e + 1, q, it, members[1..], q + |rest|);
      MembersMore(c, strtod, i, it, members, e, q + |rest|);
    } else {
      assert members[1..] == [];
      ObjectCloses(c, e, q, it, format, depth);
      EndVisible(c, e, gap, it, format, depth);
      CloseParts(c, e, CLOSE_BRACE, q + |rest|);
      PrintedMember(c, strtod, i, m, format, depth, gap + rest, q + |rest| - 1);
      MembersLast(c, strtod, i, it, members, q + |rest| - 1);
    }
  }

  /** What follows a value stands behind it. */
  lemma GapStands(c: seq<byte>, i: nat, indent: seq<byte>, m: Member, format: bool, depth: nat, gap: seq<byte>,
                  rest: seq<byte>)
    requires At(c, i, indent + (Literal(m.name) + (NameGap(format) + (Text(m.value, format, depth) + (gap + rest)))))
    ensures var e := i + |indent| + |Literal(m.name)| + |NameGap(format)| + |Text(m.value, format, depth)|;
            At(c, e, gap) && At(c, e + |gap|, rest)
  {
    hide At, Text, Literal, NameGap;
    var name, colon, text := Literal(m.name), NameGap(format), Text(m.value, format, depth);
    AtSplit(c, i, indent, name + (colon + (text + (gap + rest))));
    AtSplit(c, i + |indent|, name, colon + (text + (gap + rest)));
    AtSplit(c, i + |indent| + |name|, colon, text + (gap + rest));
    AtSplit(c, i + |indent| + |name| + |colon|, text, gap + rest);
    AtSplit(c, i + |indent| + |name| + |colon| + |text|, gap, rest);
  }

  /** Behind the last value there is a line break or a brace. */
  lemma EndVisible(c: seq<byte>, e: nat, gap: seq<byte>, it: Item, format: bool, depth: nat)
    requires depth > 0 && gap == MemberGap(false, format) && At(c, e, gap)
    requires At(c, e + |gap|, Members(it, [], format, depth))
    ensures e < |c| && !NumberChar(c[e])
  {
    if format {
      AtIndex(c, e, gap, 0);
    } else {
      AtIndex(c, e, Members(it, [], format, depth), 0);
    }
  }

  /** A printed tree, with its NUL, is accepted as that tree and no other. */
  lemma PrintedAccepted(c: seq<byte>, strtod: seq<byte> -> nat, it: Item, format: bool, requireEnd: bool)
    requires Printable(strtod, it) && c == Text(it, format, 0) + [0]
    ensures Ended(c) && Accepts(c, strtod, requireEnd, it)
    ensures forall other: Item :: Accepts(c, strtod, requireEnd, other) ==> other == it
  {
    var t := Text(it, format, 0);
    hide Text, Printable, Reads;
    assert c[0..|t|] == t && c[|t|] == 0;
    PrintedReads(c, strtod, 0, it, format, 0);
    FirstTells(c, strtod, 0, it, |t|);
    assert AfterMark(c) == 0 by { assert c[..1] == [c[0]]; }
    forall other: Item | Accepts(c, strtod, requireEnd, other) ensures other == it {
      var p: nat, j: nat :| Blank(c, AfterMark(c), p) && Reads(c, strtod, p, other, j);
      Unambiguous(c, strtod, 0, it, |t|, other, j);
    }
  }

  /** A tree comes back from its text, formatted or not, whatever buffer it was printed into, if and only
      if it is not too deep for the parser; the printer has no such limit. */
  method RoundTrip(it: Item, format: bool, prebuffer: nat, reallocate: bool, strtod: seq<byte> -> nat)
    returns (printed: bool, parsed: bool, r: Item)
    requires ItemOk(it) && NumbersRead(strtod, it) && prebuffer <= INT_MAX
    ensures printed <==> |Text(it, format, 0)| + 2 <= INT_MAX
    ensures parsed <==> printed && DepthAtMost(it, NESTING_LIMIT)
    ensures parsed ==> r == it
  {
    hide Text, ItemOk, DepthAtMost, NumbersRead, Accepts;
    var text;
    parsed, r := false, Null;
    printed, text := Print(it, prebuffer, format, reallocate);
    if printed {
      PrintedAccepted(text + [0], strtod, it, format, true);
      parsed, r := Parse(text + [0], strtod, true);
    }
  }
}
