/** Printing a JSON tree into a buffer that grows; the text does not depend on how it grew. */
module JsonPrinter {
  import opened Numbers
  import opened JsonString
  import opened JsonText

  const INT_MAX := 0x7FFFFFFF

  class PrintBuffer {
    var buffer: array<byte>
    var offset: nat
    var depth: nat
    const noalloc: bool
    const format: bool
    /** Is there a reallocation function, or is the buffer copied by hand? */
    const reallocate: bool
    /** The text before the offset. */
    ghost var printed: seq<byte>

    constructor (buffer: array<byte>, noalloc: bool, format: bool, reallocate: bool)
      requires buffer.Length <= INT_MAX
      ensures Valid() && offset == depth == 0 && printed == [] && this.buffer == buffer
      ensures this.noalloc == noalloc && this.format == format && this.reallocate == reallocate
    {
      this.buffer, this.noalloc, this.format, this.reallocate := buffer, noalloc, format, reallocate;
      offset, depth, printed := 0, 0, [];
    }

    ghost predicate Valid()
      reads `buffer, `offset, `printed, buffer
    {
      && (offset < buffer.Length || offset == 0)
      && offset <= buffer.Length <= INT_MAX && buffer[..offset] == printed
    }

    /** The size that the buffer can have. */
    ghost function Limit(): (n: nat)
      reads `buffer
    {
      if noalloc then buffer.Length else INT_MAX
    }

    /** The buffer is the same, or a new one where that is allowed. */
    twostate predicate Kept()
      reads `buffer
    {
      Limit() == old(Limit()) && (buffer == old(buffer) || (!noalloc && fresh(buffer)))
    }

    /** Makes room for at least needed bytes more, and a final NUL. */
    method Ensure(needed0: nat) returns (ok: bool)
      requires Valid()
      modifies `buffer
      ensures Valid() && Kept()
      ensures ok ==> offset + needed0 + 1 <= buffer.Length
      ensures ok <==> offset + needed0 + 1 <= Limit()
    {
      if buffer.Length > 0 && offset >= buffer.Length {
        assert false;
      }
      if needed0 > INT_MAX {
        return false;
      }
      var needed := needed0 + (offset + 1);
      if needed <= buffer.Length {
        return true;
      }
      if noalloc {
        return false;
      }
      var newsize;
      if needed > INT_MAX / 2 {
        if needed <= INT_MAX {
          newsize := INT_MAX;
        } else {
          return false;
        }
      } else {
        newsize := needed * 2;
      }
      Grow(newsize);
      ok := true;
    }

    /** Moves to a larger buffer: all of the old one, or what is before the offset and one byte more,
        if there is one. */
    method Grow(newsize: nat)
      requires Valid() && buffer.Length < newsize <= INT_MAX && newsize > offset
      modifies `buffer
      ensures Valid() && fresh(buffer) && buffer.Length == newsize
    {
      var n := if reallocate || offset == buffer.Length then buffer.Length else offset + 1;
      var newbuffer := new byte[newsize];
      var k := 0;
      while k < n
        invariant 0 <= k <= n && newbuffer[..k] == buffer[..k]
        modifies newbuffer
      {
        newbuffer[k] := buffer[k];
        assert newbuffer[..k + 1] == newbuffer[..k] + [buffer[k]];
        k := k + 1;
      }
      assert newbuffer[..offset] == newbuffer[..n][..offset] == buffer[..n][..offset] == buffer[..offset];
      buffer := newbuffer;
    }

    /** The text t, ended by a NUL, stands at the offset. */
    ghost predicate Placed(t: seq<byte>)
      reads `buffer, `offset, buffer
    {
      NulFree(t) && offset + |t| < buffer.Length && buffer[offset..offset + |t|] == t && buffer[offset + |t|] == 0
    }

    /** The text so far, with what is placed at the offset, has become longer by t. */
    ghost predicate Grown(before: seq<byte>, t: seq<byte>, rest: seq<byte>)
      reads `buffer, `offset, `printed, buffer
    {
      Valid() && Placed(rest) && printed + rest == before + t
    }

    /** All of the text stands at the front of the buffer. */
    lemma Finished(t: seq<byte>, rest: seq<byte>)
      requires Grown([], t, rest)
      ensures At(buffer[..], 0, t + [0])
    {
      hide NulFree;
      var n := offset + |rest|;
      assert buffer[..n + 1] == buffer[..offset] + buffer[offset..n] + [buffer[n]];
      assert [] + t == t;
    }

    /** Appends bytes and moves on; the NUL may come later. */
    method Append(t: seq<byte>, needed: nat, nul: bool) returns (ok: bool)
      requires Valid() && |t| <= needed && (nul ==> |t| + 1 <= needed)
      modifies `buffer, `offset, `printed, buffer
      ensures Kept()
      ensures ok ==> Valid() && printed == old(printed) + t && offset == old(offset) + |t|
      ensures ok && nul ==> Placed([])
      ensures ok <==> |old(printed)| + needed + 1 <= Limit()
    {
      ok := Ensure(needed);
      if !ok {
        return;
      }
      PutBytes(buffer, offset, t);
      if nul {
        buffer[offset + |t|] := 0;
      }
      assert buffer[..offset + |t|] == buffer[..offset] + buffer[offset..offset + |t|];
      offset := offset + |t|;
      printed := printed + t;
    }

    /** Puts bytes and a NUL at the offset without moving on. */
    method Place(t: seq<byte>, needed: nat) returns (ok: bool)
      requires Valid() && |t| + 1 <= needed && NulFree(t)
      modifies `buffer, buffer
      ensures Kept()
      ensures ok ==> Valid() && Placed(t)
      ensures ok <==> |printed| + needed + 1 <= Limit()
    {
      ok := Ensure(needed);
      if !ok {
        return;
      }
      PutBytes(buffer, offset, t);
      buffer[offset + |t|] := 0;
    }

    /** Moves the offset to the NUL. */
    method UpdateOffset(ghost rest: seq<byte>)
      requires Valid() && Placed(rest)
      modifies `offset, `printed
      ensures Valid() && Placed([]) && printed == old(printed) + rest && offset == old(offset) + |rest|
    {
      var n := 0;
      if rest != [] {
        assert buffer[offset..offset + |rest|][0] == rest[0];
      }
      while buffer[offset + n] != 0
        invariant 0 <= n <= |rest|
        invariant buffer[offset..offset + |rest|] == rest
        invariant n < |rest| ==> buffer[offset + n] == rest[n] && rest[n] != 0
        modifies {}
        decreases |rest| - n
      {
        n := n + 1;
        if n < |rest| {
          assert buffer[offset..offset + |rest|][n] == rest[n];
        }
      }
      assert buffer[..offset + n] == buffer[..offset] + buffer[offset..offset + n];
      offset := offset + n;
      printed := printed + rest;
    }

    // ----- Strings -----

    /** How many bytes more the escaped string has. */
    method CountEscapes(s: seq<byte>) returns (n: nat)
      ensures |s| + n == |Escape(s)|
    {
      n := 0;
      var i := 0;
      assert s[0..] == s;
      while i < |s|
        invariant i <= |s| && i + n + |Escape(s[i..])| == |Escape(s)|
      {
        assert s[i..][1..] == s[i + 1..];
        var b := s[i];
        if b == QUOTE || b == BACKSLASH || b == 8 || b == 12 || b == 10 || b == 13 || b == 9 {
          n := n + 1;
        } else if b < 32 {
          n := n + 5;
        }
        i := i + 1;
      }
    }

    /** A string in quotes, escaped where needed; the room is computed beforehand. */
    method PrintString(s: seq<byte>) returns (ok: bool)
      requires Valid() && NulFree(s)
      modifies `buffer, buffer
      ensures Kept()
      ensures ok ==> Valid() && Placed(Literal(s))
      ensures ok <==> |printed| + |Literal(s)| + 2 <= Limit()
    {
      hide Escape, NulFree;
      var escapes := CountEscapes(s);
      var length := |s| + escapes;
      ok := Ensure(length + 3);
      if !ok {
        return;
      }
      LiteralNulFree(s);
      WriteLiteral(s, escapes);
      buffer[offset + length + 2] := 0;
    }

    /** Writes the literal, by one copy if nothing is to be escaped. */
    method WriteLiteral(s: seq<byte>, escapes: nat)
      requires Valid() && |s| + escapes == |Escape(s)| && offset + (|s| + escapes) + 2 < buffer.Length
      modifies buffer
      ensures Valid() && buffer[offset..offset + (|s| + escapes) + 2] == Literal(s)
    {
      hide Escape;
      if escapes == 0 {
        NothingEscaped(s);
        PutBytes(buffer, offset, [QUOTE] + s + [QUOTE]);
      } else {
        WriteEscaped(s, |s| + escapes);
      }
    }

    /** Writes the quotes and the escaped bytes between them. */
    method WriteEscaped(s: seq<byte>, length: nat)
      requires Valid() && length == |Escape(s)| && offset + length + 2 < buffer.Length
      modifies buffer
      ensures Valid() && buffer[offset..offset + length + 2] == Literal(s)
    {
      hide EscapeByte, Escape, Literal;
      PutBytes(buffer, offset, [QUOTE]);
      ghost var goal := printed + ([QUOTE] + Escape(s));
      var i, at := 0, offset + 1;
      assert s[0..] == s;
      Join(printed, [QUOTE], Escape(s));
      while i < |s|
        invariant i <= |s| && offset < at && at + |Escape(s[i..])| == offset + 1 + length
        invariant buffer[..at] + Escape(s[i..]) == goal
      {
        EscapeStep(s, i);
        var t := EscapeByte(s[i]);
        ghost var before, rest := buffer[..at], Escape(s[i + 1..]);
        PutBytes(buffer, at, t);
        Join(before, t, rest);
        at := at + |t|;
        i := i + 1;
      }
      EscapeEnd(s[i..]);
      Join(buffer[..at], [], []);
      PutBytes(buffer, at, [QUOTE]);
      Quoted(printed, s);
      TailOf(buffer[..at + 1], printed, Literal(s));
      assert buffer[..at + 1][..offset] == buffer[..offset];
      assert buffer[..at + 1][offset..] == buffer[offset..at + 1];
    }

    // ----- Values -----

    /** Prints an item at the offset; part of the text may be before the new offset already. */
    method PrintValue(it: Item) returns (ok: bool, ghost rest: seq<byte>)
      requires Valid() && ItemOk(it)
      modifies `buffer, `offset, `printed, `depth, buffer
      ensures Kept()
      ensures ok ==> depth == old(depth) && Grown(old(printed), Text(it, format, depth), rest)
      ensures ok <==> |old(printed)| + |Text(it, format, old(depth))| + 2 <= Limit()
      decreases it, 1, 0
    {
      rest := [];
      match it {
        case Null =>
          rest := NULL_TEXT;
          ok := Place(NULL_TEXT, 5);
        case False =>
          rest := FALSE_TEXT;
          ok := Place(FALSE_TEXT, 6);
        case True =>
          rest := TRUE_TEXT;
          ok := Place(TRUE_TEXT, 5);
        case Number(token) =>
          ok := Append(token, |token| + 1, true);
          assert ok ==> printed + [] == printed;
        case Str(s) =>
          rest := Literal(s);
          ok := PrintString(s);
        case Array(items) =>
          ok, rest := PrintArray(it, items);
        case Object(members) =>
          ok, rest := PrintObject(it, members);
      }
    }

    /** An item, with the offset moved behind it. */
    method PrintWhole(it: Item) returns (ok: bool)
      requires Valid() && ItemOk(it)
      modifies `buffer, `offset, `printed, `depth, buffer
      ensures Kept()
      ensures ok ==> Valid() && depth == old(depth) && printed == old(printed) + Text(it, format, depth)
      ensures ok <==> |old(printed)| + |Text(it, format, old(depth))| + 2 <= Limit()
      decreases it, 2, 0
    {
      ghost var rest;
      ok, rest := PrintValue(it);
      if ok {
        UpdateOffset(rest);
      }
    }

    /** An element, and the comma after it. */
    method PrintElement(it: Item, items: seq<Item>, i: nat, ghost goal: seq<byte>) returns (ok: bool)
      requires Valid() && ItemOk(it) && it == Array(items) && i < |items|
      requires printed + Elements(it, items[i..], format, depth) == goal
      modifies `buffer, `offset, `printed, `depth, buffer
      ensures Kept()
      ensures ok ==> Valid() && depth == old(depth) && printed + Elements(it, items[i + 1..], format, depth) == goal
      ensures !ok ==> |goal| + 2 > Limit()
      decreases it, 0, |items| - i
    {
      hide Text, ItemOk, Elements, Valid, Placed, Limit, NulFree;
      Items(it, items);
      ElementsStep(it, items, i, format, depth);
      ghost var text, more := Text(items[i], format, depth), Elements(it, items[i + 1..], format, depth);
      ghost var gap := ElementGap(|items| - i > 1, format);
      Join(printed, text, gap + more);
      ok := PrintWhole(items[i]);
      if !ok {
        return;
      }
      Join(printed, gap, more);
      if i + 1 < |items| {
        ok := Append(ElementGap(true, format), if format then 3 else 2, true);
      } else {
        Join(printed, [], more);
      }
    }

    method PrintArray(it: Item, items: seq<Item>) returns (ok: bool, ghost rest: seq<byte>)
      requires Valid() && ItemOk(it) && it == Array(items)
      modifies `buffer, `offset, `printed, `depth, buffer
      ensures Kept()
      ensures ok ==> depth == old(depth) && Grown(old(printed), Text(it, format, depth), rest)
      ensures ok <==> |old(printed)| + |Text(it, format, old(depth))| + 2 <= Limit()
      decreases it, 0, |items| + 1
    {
      hide Text, ItemOk, Elements, Valid, Placed, Limit, NulFree;
      rest := [CLOSE_BRACKET];
      ghost var goal := printed + Text(it, format, depth);
      ArrayText(it, items, format, depth);
      Items(it, items);
      ok := Append([OPEN_BRACKET], 1, false);
      if !ok {
        return;
      }
      depth := depth + 1;
      assert items[0..] == items;
      assert old(printed) + ([OPEN_BRACKET] + Elements(it, items, format, depth))
             == printed + Elements(it, items, format, depth);
      var i := 0;
      while i < |items|
        invariant i <= |items| && Valid() && depth == old(depth) + 1
        invariant Kept()
        invariant printed + Elements(it, items[i..], format, depth) == goal
      {
        ok := PrintElement(it, items, i, goal);
        if !ok {
          return;
        }
        i := i + 1;
      }
      ElementsEnd(it, items[i..], format, depth);
      ok := Place([CLOSE_BRACKET], 2);
      depth := depth - 1;
    }

    method PrintObject(it: Item, members: seq<Member>) returns (ok: bool, ghost rest: seq<byte>)
      requires Valid() && ItemOk(it) && it == Object(members)
      modifies `buffer, `offset, `printed, `depth, buffer
      ensures Kept()
      ensures ok ==> depth == old(depth) && Grown(old(printed), Text(it, format, depth), rest)
      ensures ok <==> |old(printed)| + |Text(it, format, old(depth))| + 2 <= Limit()
      decreases it, 0, |members| + 1
    {
      hide Text, ItemOk, Members, Valid, Placed, Limit;
      ghost var goal := printed + Text(it, format, depth);
      ObjectText(it, members, format, depth);
      MembersOf(it, members);
      var open := [OPEN_BRACE] + if format then [NEWLINE] else [];
      rest := [];
      ok := Append(open, |open| + 1, false);
      if !ok {
        return;
      }
      depth := depth + 1;
      assert members[0..] == members;
      assert old(printed) + (open + Members(it, members, format, depth))
             == printed + Members(it, members, format, depth);
      var i := 0;
      while i < |members|
        invariant i <= |members| && Valid() && depth == old(depth) + 1
        invariant Kept()
        invariant printed + Members(it, members[i..], format, depth) == goal
      {
        ok := PrintMember(it, members, i, goal);
        if !ok {
          return;
        }
        i := i + 1;
      }
      MembersEnd(it, members[i..], format, depth);
      rest := (if format then Tabs(depth - 1) else []) + [CLOSE_BRACE];
      ok := Place((if format then Tabs(depth - 1) else []) + [CLOSE_BRACE], if format then depth + 1 else 2);
      depth := depth - 1;
    }

    /** The name of a member, indented, and its colon. */
    method PrintName(name: seq<byte>, ghost rest: seq<byte>, ghost goal: seq<byte>) returns (ok: bool)
      requires Valid() && NulFree(name)
      requires printed + ((if format then Tabs(depth) else []) + (Literal(name) + (NameGap(format) + rest))) == goal
      modifies `buffer, `offset, `printed, buffer
      ensures Kept()
      ensures ok ==> Valid() && printed + rest == goal
      ensures !ok ==> |goal| + 2 > Limit()
    {
      hide Literal, Valid, Placed, Limit, NulFree;
      ghost var tail := NameGap(format) + rest;
      if format {
        Join(printed, Tabs(depth), Literal(name) + tail);
        ok := Append(Tabs(depth), depth, false);
        if !ok {
          return;
        }
      } else {
        Join(printed, [], Literal(name) + tail);
      }
      Join(printed, Literal(name), tail);
      ok := PrintString(name);
      if !ok {
        return;
      }
      UpdateOffset(Literal(name));
      Join(printed, NameGap(format), rest);
      ok := Append(NameGap(format), if format then 2 else 1, false);
    }

    /** A name and its value, with the indentation before them and the comma after them. */
    method PrintMember(it: Item, members: seq<Member>, i: nat, ghost goal: seq<byte>) returns (ok: bool)
      requires Valid() && ItemOk(it) && it == Object(members) && i < |members| && depth > 0
      requires printed + Members(it, members[i..], format, depth) == goal
      modifies `buffer, `offset, `printed, `depth, buffer
      ensures Kept()
      ensures ok ==> Valid() && depth == old(depth) && printed + Members(it, members[i + 1..], format, depth) == goal
      ensures !ok ==> |goal| + 2 > Limit()
      decreases it, 0, |members| - i
    {
      hide Text, ItemOk, Members, Literal, Valid, Placed, Limit, NulFree, Tabs, NameGap;
      MembersOf(it, members);
      MembersStep(it, members, i, format, depth);
      var m := members[i];
      ghost var after := Members(it, members[i + 1..], format, depth);
      ghost var value, gap := Text(m.value, format, depth), MemberGap(|members| - i > 1, format);
      ok := PrintName(m.name, value + (gap + after), goal);
      if !ok {
        return;
      }
      Join(printed, value, gap + after);
      ok := PrintWhole(m.value);
      if !ok {
        return;
      }
      Join(printed, gap, after);
      var t := MemberGap(i + 1 < |members|, format);
      ok := Append(t, |t| + 1, true);
    }
  }

  lemma Join(a: seq<byte>, b: seq<byte>, c: seq<byte>)
    ensures a + (b + c) == (a + b) + c
    ensures a + [] == a && [] + c == c
  {
  }

  lemma ArrayText(it: Item, items: seq<Item>, format: bool, depth: nat)
    requires it == Array(items)
    ensures Text(it, format, depth) == [OPEN_BRACKET] + Elements(it, items, format, depth + 1)
  {
  }

  lemma Items(it: Item, items: seq<Item>)
    requires it == Array(items) && ItemOk(it)
    ensures forall i | 0 <= i < |items| :: items[i] < it && ItemOk(items[i])
  {
  }

  lemma ElementsStep(it: Item, items: seq<Item>, i: nat, format: bool, depth: nat)
    requires it == Array(items) && i < |items|
    ensures Elements(it, items[i..], format, depth)
            == Text(items[i], format, depth)
               + (ElementGap(|items| - i > 1, format) + Elements(it, items[i + 1..], format, depth))
  {
    hide Text;
    assert items[i..][1..] == items[i + 1..];
  }

  lemma ObjectText(it: Item, members: seq<Member>, format: bool, depth: nat)
    requires it == Object(members)
    ensures Text(it, format, depth)
            == ([OPEN_BRACE] + (if format then [NEWLINE] else [])) + Members(it, members, format, depth + 1)
  {
    hide Members;
    Join([OPEN_BRACE], if format then [NEWLINE] else [], Members(it, members, format, depth + 1));
  }

  lemma MembersOf(it: Item, members: seq<Member>)
    requires it == Object(members) && ItemOk(it)
    ensures forall i | 0 <= i < |members| ::
            members[i].value < it && NulFree(members[i].name) && ItemOk(members[i].value)
  {
  }

  lemma MembersStep(it: Item, members: seq<Member>, i: nat, format: bool, depth: nat)
    requires it == Object(members) && i < |members| && depth > 0
    ensures Members(it, members[i..], format, depth)
            == (if format then Tabs(depth) else [])
               + (Literal(members[i].name)
                  + (NameGap(format)
                     + (Text(members[i].value, format, depth)
                        + (MemberGap(|members| - i > 1, format) + Members(it, members[i + 1..], format, depth)))))
  {
    hide Text, Literal;
    assert members[i..][1..] == members[i + 1..];
  }

  /** Prints an item into a buffer of the given size to begin with.  The text depends on the item and
      the format only, and printing fails exactly where the text and two bytes more do not fit the size of an int. */
  method Print(it: Item, prebuffer: nat, format: bool, reallocate: bool) returns (ok: bool, text: seq<byte>)
    requires ItemOk(it) && prebuffer <= INT_MAX
    ensures ok ==> text == Text(it, format, 0)
    ensures ok <==> |Text(it, format, 0)| + 2 <= INT_MAX
  {
    var buffer := new byte[prebuffer];
    var p := new PrintBuffer(buffer, false, format, reallocate);
    text := [];
    ok := p.PrintWhole(it);
    if ok {
      text := p.buffer[..p.offset];
    }
  }

  /** Prints an item into a buffer that cannot grow. */
  method PrintPreallocated(it: Item, buffer: array<byte>, format: bool) returns (ok: bool)
    requires ItemOk(it) && buffer.Length <= INT_MAX
    modifies buffer
    ensures ok ==> At(buffer[..], 0, Text(it, format, 0) + [0])
    ensures ok <==> |Text(it, format, 0)| + 2 <= buffer.Length
  {
    hide Text, ItemOk, NulFree;
    var p := new PrintBuffer(buffer, true, format, true);
    ghost var rest;
    ok, rest := p.PrintValue(it);
    if ok {
      p.Finished(Text(it, format, 0), rest);
    }
  }

  lemma EscapeStep(s: seq<byte>, i: nat)
    requires i < |s|
    ensures Escape(s[i..]) == EscapeByte(s[i]) + Escape(s[i + 1..])
  {
    hide EscapeByte;
    assert s[i..][1..] == s[i + 1..];
  }

  lemma EscapeEnd(s: seq<byte>)
    requires s == []
    ensures Escape(s) == []
  {
  }

  lemma Quoted(a: seq<byte>, s: seq<byte>)
    ensures (a + ([QUOTE] + Escape(s))) + [QUOTE] == a + Literal(s)
  {
    hide Escape;
  }

  lemma TailOf(whole: seq<byte>, a: seq<byte>, b: seq<byte>)
    requires whole == a + b
    ensures whole[..|a|] == a && whole[|a|..] == b
  {
  }

  lemma {:induction false} NothingEscaped(s: seq<byte>)
    requires |Escape(s)| == |s|
    ensures Escape(s) == s
  {
    if s != [] {
      EscapeLength(s[1..]);
      NothingEscaped(s[1..]);
    }
  }

  lemma {:induction false} EscapeLength(s: seq<byte>)
    ensures |Escape(s)| >= |s|
  {
    if s != [] {
      EscapeLength(s[1..]);
    }
  }

  lemma {:induction false} LiteralNulFree(s: seq<byte>)
    requires NulFree(s)
    ensures NulFree(Escape(s)) && NulFree(Literal(s))
  {
    if s != [] {
      LiteralNulFree(s[1..]);
    }
  }
}
