/** The recursive-descent JSON parser: it accepts exactly the texts of the grammar that are not nested too deep. */
module JsonParser {
  import opened Numbers
  import opened JsonString
  import opened JsonText
  import opened JsonGrammar

  class ParseBuffer {
    const content: seq<byte>
    /** How many characters the number conversion of the C library takes. */
    const strtod: seq<byte> -> nat
    var offset: nat
    var depth: nat

    constructor (content: seq<byte>, strtod: seq<byte> -> nat)
      requires Ended(content)
      ensures Valid() && offset == depth == 0 && this.content == content && this.strtod == strtod
    {
      this.content, this.strtod, offset, depth := content, strtod, 0, 0;
    }

    ghost predicate Valid()
      reads `offset
    {
      Ended(content) && offset <= |content|
    }

    /** How many arrays and objects may still be opened at this depth. */
    ghost function Left(deep: nat): (n: nat) {
      if deep < NESTING_LIMIT then NESTING_LIMIT - deep else 0
    }

    /** What has been found at place i, at this depth: an item that ends at the offset, or nothing. */
    ghost predicate Found(ok: bool, r: Item, i: nat, deep: nat)
      requires Ended(content)
      reads `offset
    {
      ReadValue(content, strtod, i, Left(deep)) == if ok then Some((r, offset)) else None
    }

    method SkipWhitespace()
      requires Valid()
      modifies `offset
      ensures Valid() && offset == Skip(content, old(offset))
    {
      while offset < |content| && content[offset] <= 32
        invariant offset <= |content| && Skip(content, offset) == Skip(content, old(offset))
      {
        offset := offset + 1;
      }
      if offset == |content| {
        offset := offset - 1;
      }
    }

    /** Does the text t come next? */
    method Looking(t: seq<byte>) returns (yes: bool)
      requires Valid()
      ensures yes <==> At(content, offset, t)
    {
      yes := offset + |t| <= |content| && content[offset..offset + |t|] == t;
    }

    /** How many number characters come next. */
    method CountRun() returns (i: nat)
      requires Valid() && offset < |content|
      ensures i == RunLength(content, offset, MAX_NUMBER) && offset + i < |content|
    {
      hide RunLength, NumberChar;
      RunEnds(content, offset, MAX_NUMBER);
      i := 0;
      while i < MAX_NUMBER && offset + i < |content| && NumberChar(content[offset + i])
        invariant i <= MAX_NUMBER && offset + i < |content|
        invariant i + RunLength(content, offset + i, MAX_NUMBER - i) == RunLength(content, offset, MAX_NUMBER)
      {
        RunStep(content, offset + i, MAX_NUMBER - i);
        i := i + 1;
      }
      RunStep(content, offset + i, MAX_NUMBER - i);
    }

    method ParseNumber() returns (ok: bool, r: Item)
      requires Valid() && offset < |content|
      modifies `offset
      ensures Valid() && ReadNumber(content, strtod, old(offset)) == if ok then Some((r, offset)) else None
    {
      hide RunLength;
      var i := CountRun();
      var taken := strtod(content[offset..offset + i]);
      if taken == 0 || taken > i {
        return false, Null;
      }
      r := Number(content[offset..offset + taken]);
      offset := offset + taken;
      ok := true;
    }

    method ParseText() returns (ok: bool, s: seq<byte>)
      requires Valid() && offset < |content|
      modifies `offset
      ensures Valid() && ReadString(content, old(offset)) == if ok then Some((s, offset)) else None
    {
      hide ClosingQuote, Unescape;
      var next;
      ok, s, next := ParseString(content, offset);
      if ok {
        offset := next;
      }
    }

    // ----- Values -----

    /** An item at the offset.  It is accepted if and only if it follows the grammar and is not too deep. */
    method ParseValue() returns (ok: bool, r: Item)
      requires Valid()
      modifies `offset, `depth
      ensures Valid() && Found(ok, r, old(offset), old(depth)) && (ok ==> depth == old(depth))
      ensures ok <==> exists it: Item, j: nat ::
                        Reads(content, strtod, old(offset), it, j) && DepthAtMost(it, Left(old(depth)))
      ensures ok ==> Reads(content, strtod, old(offset), r, offset) && DepthAtMost(r, Left(old(depth)))
      decreases |content| - offset, 2
    {
      hide Reads, DepthAtMost, ReadValue;
      ReaderIs(content, strtod, offset, Left(depth));
      ok, r := ParseAny();
    }

    method ParseAny() returns (ok: bool, r: Item)
      requires Valid()
      modifies `offset, `depth
      ensures Valid() && Found(ok, r, old(offset), old(depth)) && (ok ==> depth == old(depth))
      decreases |content| - offset, 1
    {
      hide At, ReadString, ReadNumber, ReadArray, ReadObject;
      var yes := Looking(NULL_TEXT);
      if yes {
        WordIs(offset, NULL_TEXT);
        offset := offset + 4;
        return true, Null;
      }
      yes := Looking(FALSE_TEXT);
      if yes {
        WordIs(offset, FALSE_TEXT);
        offset := offset + 5;
        return true, False;
      }
      yes := Looking(TRUE_TEXT);
      if yes {
        WordIs(offset, TRUE_TEXT);
        offset := offset + 4;
        return true, True;
      }
      r := Null;
      if offset < |content| && content[offset] == QUOTE {
        var s;
        ok, s := ParseText();
        r := Str(s);
      } else if offset < |content| && (content[offset] == 45 || Digit(content[offset])) {
        ok, r := ParseNumber();
      } else if offset < |content| && content[offset] == OPEN_BRACKET {
        ok, r := ParseArray();
      } else if offset < |content| && content[offset] == OPEN_BRACE {
        ok, r := ParseObject();
      } else {
        ok := false;
      }
    }

    lemma WordIs(i: nat, t: seq<byte>)
      requires Ended(content) && At(content, i, t) && t != [] && t[|t| - 1] != 0
      ensures i + |t| < |content|
    {
      WordEnds(content, i, t);
    }

    // ----- Arrays -----

    method ParseArray() returns (ok: bool, r: Item)
      requires Valid() && offset < |content|
      modifies `offset, `depth
      ensures Valid() && (ok ==> depth == old(depth) && content[old(offset)] == OPEN_BRACKET)
      ensures content[old(offset)] == OPEN_BRACKET ==>
                ReadArray(content, strtod, old(offset), Left(old(depth))) == if ok then Some((r, offset)) else None
      decreases |content| - offset, 0
    {
      hide Skip, ReadElements;
      ok, r := false, Null;
      if depth >= NESTING_LIMIT {
        return;
      }
      depth := depth + 1;
      if content[offset] != OPEN_BRACKET {
        return;
      }
      offset := offset + 1;
      SkipWhitespace();
      var items: seq<Item> := [];
      if content[offset] != CLOSE_BRACKET {
        ElementsSkip(content, strtod, old(offset) + 1, Left(depth));
        offset := offset - 1;
        ok, items := ParseElements();
        if !ok {
          return;
        }
        if offset >= |content| || content[offset] != CLOSE_BRACKET {
          return false, Null;
        }
      }
      depth := depth - 1;
      r := Array(items);
      offset := offset + 1;
      ok := true;
    }

    /** The elements, separated by commas; the offset is before the first one, and then at what follows the last. */
    method ParseElements() returns (ok: bool, items: seq<Item>)
      requires Valid() && offset + 1 < |content|
      modifies `offset, `depth
      ensures Valid() && (ok ==> old(offset) + 1 < offset < |content| && depth == old(depth))
      ensures ReadElements(content, strtod, old(offset) + 1, Left(old(depth)))
              == if ok && content[offset] == CLOSE_BRACKET then Some((items, offset + 1)) else None
      decreases |content| - offset - 1, 3
    {
      hide Skip, ReadValue, Reads, Left, Ended;
      items, ok := [], true;
      ghost var start, left := offset + 1, Left(depth);
      ghost var whole := ReadElements(content, strtod, start, left);
      Behind(items, whole);
      var more := true;
      while more
        invariant Valid() && ok && depth == old(depth) && start <= offset + 1
        invariant if more then offset + 1 < |content| else start < offset < |content|
        invariant more ==> whole == Prefixed(items, ReadElements(content, strtod, offset + 1, left))
        invariant !more ==> whole == if content[offset] == CLOSE_BRACKET then Some((items, offset + 1)) else None
        decreases more, |content| - offset
      {
        ghost var i := offset + 1;
        offset := offset + 1;
        SkipWhitespace();
        var r;
        ok, r := ParseValue();
        if !ok {
          return;
        }
        ghost var q := offset;
        SkipWhitespace();
        ElementRead(content, strtod, i, left, items, r, q);
        items := items + [r];
        more := offset < |content| && content[offset] == COMMA;
      }
    }

    // ----- Objects -----

    method ParseObject() returns (ok: bool, r: Item)
      requires Valid() && offset < |content|
      modifies `offset, `depth
      ensures Valid() && (ok ==> depth == old(depth) && content[old(offset)] == OPEN_BRACE)
      ensures content[old(offset)] == OPEN_BRACE ==>
                ReadObject(content, strtod, old(offset), Left(old(depth))) == if ok then Some((r, offset)) else None
      decreases |content| - offset, 0
    {
      hide Skip, ReadMembers;
      ok, r := false, Null;
      if depth >= NESTING_LIMIT {
        return;
      }
      depth := depth + 1;
      if content[offset] != OPEN_BRACE {
        return;
      }
      offset := offset + 1;
      SkipWhitespace();
      var members: seq<Member> := [];
      if content[offset] != CLOSE_BRACE {
        MembersSkip(content, strtod, old(offset) + 1, Left(depth));
        offset := offset - 1;
        ok, members := ParseMembers();
        if !ok {
          return;
        }
        if offset >= |content| || content[offset] != CLOSE_BRACE {
          return false, Null;
        }
      }
      depth := depth - 1;
      r := Object(members);
      offset := offset + 1;
      ok := true;
    }

    /** A name and a value; the offset is before the name, and afterwards at what follows the value. */
    method ParseMember() returns (ok: bool, m: Member)
      requires Valid() && offset + 1 < |content|
      modifies `offset, `depth
      ensures Valid() && (ok ==> depth == old(depth))
      ensures ReadMember(content, strtod, old(offset) + 1, Left(old(depth))) == if ok then Some((m, offset)) else None
      decreases |content| - offset - 1, 3
    {
      hide Skip, ReadValue, Reads, ReadString, Left;
      m := Member([], Null);
      offset := offset + 1;
      SkipWhitespace();
      var name, value;
      ok, name := ParseText();
      if !ok {
        return;
      }
      SkipWhitespace();
      if offset >= |content| || content[offset] != COLON {
        return false, m;
      }
      offset := offset + 1;
      SkipWhitespace();
      ok, value := ParseValue();
      if !ok {
        return;
      }
      m := Member(name, value);
      SkipWhitespace();
    }

    /** The members, separated by commas; the offset is before the first one, and then at what follows the last. */
    method ParseMembers() returns (ok: bool, members: seq<Member>)
      requires Valid() && offset + 1 < |content|
      modifies `offset, `depth
      ensures Valid() && (ok ==> old(offset) + 1 < offset < |content| && depth == old(depth))
      ensures ReadMembers(content, strtod, old(offset) + 1, Left(old(depth)))
              == if ok && content[offset] == CLOSE_BRACE then Some((members, offset + 1)) else None
      decreases |content| - offset - 1, 4
    {
      hide ReadMember, Left, Ended;
      members, ok := [], true;
      ghost var start, left := offset + 1, Left(depth);
      ghost var whole := ReadMembers(content, strtod, start, left);
      Behind(members, whole);
      var more := true;
      while more
        invariant Valid() && ok && depth == old(depth) && start <= offset + 1
        invariant if more then offset + 1 < |content| else start < offset < |content|
        invariant more ==> whole == Prefixed(members, ReadMembers(content, strtod, offset + 1, left))
        invariant !more ==> whole == if content[offset] == CLOSE_BRACE then Some((members, offset + 1)) else None
        decreases more, |content| - offset
      {
        ghost var i := offset + 1;
        var m;
        ok, m := ParseMember();
        if !ok {
          return;
        }
        MemberRead(content, strtod, i, left, members, m, offset);
        members := members + [m];
        more := offset < |content| && content[offset] == COMMA;
      }
    }
  }

  /** The text stands for the item, after a byte order mark and blanks; if its end is required, only blanks follow. */
  ghost predicate Accepts(c: seq<byte>, strtod: seq<byte> -> nat, requireEnd: bool, it: Item) {
    exists p: nat, j: nat ::
      Blank(c, AfterMark(c), p) && Reads(c, strtod, p, it, j) && (requireEnd ==> Blank(c, j, |c|))
  }

  /** Behind the byte order mark of UTF-8, if there is one. */
  function AfterMark(c: seq<byte>): (i: nat) {
    if 4 < |c| && c[..3] == [0xEF, 0xBB, 0xBF] then 3 else 0
  }

  /** Parses a C string with its NUL, which is accepted if and only if it follows the grammar and is not too deep. */
  method Parse(c: seq<byte>, strtod: seq<byte> -> nat, requireEnd: bool) returns (ok: bool, r: Item)
    requires Ended(c)
    ensures ok <==> exists it: Item :: Accepts(c, strtod, requireEnd, it) && DepthAtMost(it, NESTING_LIMIT)
    ensures ok ==> Accepts(c, strtod, requireEnd, r) && DepthAtMost(r, NESTING_LIMIT)
  {
    hide DepthAtMost, Reads, ReadValue, Skip, Accepts;
    var p := new ParseBuffer(c, strtod);
    if 4 < |c| && c[0] == 0xEF && c[1] == 0xBB && c[2] == 0xBF {
      p.offset := 3;
    }
    p.SkipWhitespace();
    ghost var found := ReadValue(c, strtod, p.offset, NESTING_LIMIT);
    ok, r := p.ParseValue();
    if ok && requireEnd {
      p.SkipWhitespace();
      ok := p.content[p.offset] == 0;
    }
    Accepted(c, strtod, requireEnd, found, ok);
  }

  lemma Accepted(c: seq<byte>, strtod: seq<byte> -> nat, requireEnd: bool, found: Option<(Item, nat)>, ok: bool)
    requires Ended(c) && found == ReadValue(c, strtod, Skip(c, AfterMark(c)), NESTING_LIMIT)
    requires ok <==> found.Some? && (requireEnd ==> c[Skip(c, found.value.1)] == 0)
    ensures ok <==> exists it: Item :: Accepts(c, strtod, requireEnd, it) && DepthAtMost(it, NESTING_LIMIT)
    ensures ok ==> Accepts(c, strtod, requireEnd, found.value.0) && DepthAtMost(found.value.0, NESTING_LIMIT)
  {
    hide DepthAtMost, Reads, ReadValue, Skip;
    if ok {
      OnlyAccepted(c, strtod, requireEnd, found);
    }
    if it: Item :| Accepts(c, strtod, requireEnd, it) && DepthAtMost(it, NESTING_LIMIT) {
      AllAccepted(c, strtod, requireEnd, it);
    }
  }

  lemma OnlyAccepted(c: seq<byte>, strtod: seq<byte> -> nat, requireEnd: bool, found: Option<(Item, nat)>)
    requires Ended(c) && found == ReadValue(c, strtod, Skip(c, AfterMark(c)), NESTING_LIMIT)
    requires found.Some? && (requireEnd ==> c[Skip(c, found.value.1)] == 0)
    ensures Accepts(c, strtod, requireEnd, found.value.0) && DepthAtMost(found.value.0, NESTING_LIMIT)
  {
    hide DepthAtMost, Reads, ReadValue, Skip;
    SkipBlank(c, AfterMark(c));
    ValueSound(c, strtod, Skip(c, AfterMark(c)), NESTING_LIMIT);
    SkipBlank(c, found.value.1);
  }

  lemma AllAccepted(c: seq<byte>, strtod: seq<byte> -> nat, requireEnd: bool, it: Item)
    requires Ended(c) && Accepts(c, strtod, requireEnd, it) && DepthAtMost(it, NESTING_LIMIT)
    ensures var found := ReadValue(c, strtod, Skip(c, AfterMark(c)), NESTING_LIMIT);
            found.Some? && (requireEnd ==> c[Skip(c, found.value.1)] == 0)
  {
    hide DepthAtMost, Reads, ReadValue, Skip;
    var p: nat, j: nat :| Blank(c, AfterMark(c), p) && Reads(c, strtod, p, it, j) && (requireEnd ==> Blank(c, j, |c|));
    FirstTells(c, strtod, p, it, j);
    SkipIs(c, AfterMark(c), p);
    ValueComplete(c, strtod, p, it, j, NESTING_LIMIT);
    SkipBlank(c, j);
  }
}
