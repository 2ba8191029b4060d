/** The texts that the JSON parser takes for a tree, as a grammar: blanks, which are all bytes up to 32, may stand
    around elements, names and values.  And what a reader of limited depth makes of a text. */
module JsonGrammar {
  import opened Numbers
  import opened JsonString
  import opened JsonText

  // ----- The grammar -----

  /** From i up to p there are only blanks. */
  ghost predicate Blank(c: seq<byte>, i: nat, p: nat) {
    i <= p <= |c| && forall k | i <= k < p :: c[k] <= 32
  }

  /** How many number characters come next, up to the size of the parser's buffer. */
  function RunLength(c: seq<byte>, i: nat, max: nat): (n: nat)
    ensures n <= max && (n > 0 ==> i + n <= |c|)
    decreases max
  {
    if max == 0 || i >= |c| || !NumberChar(c[i]) then 0 else 1 + RunLength(c, i + 1, max - 1)
  }

  /** What the C library takes of the number characters at i. */
  ghost predicate ReadsNumber(c: seq<byte>, strtod: seq<byte> -> nat, i: nat, t: seq<byte>, j: nat) {
    && i < |c| && (c[i] == 45 || Digit(c[i]))
    && var n := RunLength(c, i, MAX_NUMBER);
    && 1 <= |t| <= n && strtod(c[i..i + n]) == |t| && t == c[i..i + |t|] && j == i + |t|
  }

  ghost predicate ReadsString(c: seq<byte>, i: nat, s: seq<byte>, j: nat) {
    && i < |c| && c[i] == QUOTE && j > i
    && ClosingQuote(c, i + 1) == Some(j - 1) && Unescape(c, i + 1, j - 1) == Some(s)
  }

  /** The text from i to j stands for the item. */
  ghost predicate Reads(c: seq<byte>, strtod: seq<byte> -> nat, i: nat, it: Item, j: nat)
    decreases it, 2, 0
  {
    match it
    case Null => At(c, i, NULL_TEXT) && j == i + |NULL_TEXT|
    case False => At(c, i, FALSE_TEXT) && j == i + |FALSE_TEXT|
    case True => At(c, i, TRUE_TEXT) && j == i + |TRUE_TEXT|
    case Number(t) => ReadsNumber(c, strtod, i, t, j)
    case Str(s) => ReadsString(c, i, s, j)
    case Array(items) =>
      && i < |c| && c[i] == OPEN_BRACKET
      && if items == [] then Closes(c, i + 1, CLOSE_BRACKET, j)
         else ReadsElements(c, strtod, i + 1, it, items, j)
    case Object(members) =>
      && i < |c| && c[i] == OPEN_BRACE
      && if members == [] then Closes(c, i + 1, CLOSE_BRACE, j)
         else ReadsMembers(c, strtod, i + 1, it, members, j)
  }

  /** Blanks and a bracket. */
  ghost predicate Closes(c: seq<byte>, i: nat, b: byte, j: nat) {
    j > 0 && Blank(c, i, j - 1) && j <= |c| && c[j - 1] == b
  }

  /** An item with blanks before it, and after it up to r. */
  ghost predicate ReadsPadded(c: seq<byte>, strtod: seq<byte> -> nat, i: nat, it: Item, r: nat)
    decreases it, 3, 0
  {
    exists p: nat, q: nat :: Blank(c, i, p) && Reads(c, strtod, p, it, q) && Blank(c, q, r)
  }

  /** The elements of an array up to its bracket. */
  ghost predicate ReadsElements(c: seq<byte>, strtod: seq<byte> -> nat, i: nat, it: Item, items: seq<Item>, j: nat)
    requires forall k | 0 <= k < |items| :: items[k] < it
    decreases it, 1, |items|
  {
    && items != []
    && exists r: nat :: ReadsPadded(c, strtod, i, items[0], r) && r < |c|
         && if |items| == 1 then c[r] == CLOSE_BRACKET && j == r + 1
            else c[r] == COMMA && ReadsElements(c, strtod, r + 1, it, items[1..], j)
  }

  ghost predicate ReadsName(c: seq<byte>, i: nat, s: seq<byte>, r: nat) {
    exists p: nat, q: nat :: Blank(c, i, p) && ReadsString(c, p, s, q) && Blank(c, q, r)
  }

  /** A name, a colon and a value, with blanks around them. */
  ghost predicate ReadsMember(c: seq<byte>, strtod: seq<byte> -> nat, i: nat, m: Member, r: nat)
    decreases m.value, 4, 0
  {
    exists n: nat ::
      ReadsName(c, i, m.name, n) && n < |c| && c[n] == COLON && ReadsPadded(c, strtod, n + 1, m.value, r)
  }

  /** The members of an object up to its brace. */
  ghost predicate ReadsMembers(c: seq<byte>, strtod: seq<byte> -> nat, i: nat, it: Item, members: seq<Member>, j: nat)
    requires forall k | 0 <= k < |members| :: members[k].value < it
    decreases it, 1, |members|
  {
    && members != []
    && exists r: nat :: ReadsMember(c, strtod, i, members[0], r) && r < |c|
         && if |members| == 1 then c[r] == CLOSE_BRACE && j == r + 1
            else c[r] == COMMA && ReadsMembers(c, strtod, r + 1, it, members[1..], j)
  }

  // ----- Blanks -----

  /** The first place from i on that is not white space; the last place of the text if there is none. */
  function Skip(c: seq<byte>, i: nat): (j: nat)
    requires c != []
    ensures j < |c| && (i < |c| ==> i <= j)
    decreases if i < |c| then |c| - i else 0
  {
    if i >= |c| then |c| - 1 else if c[i] > 32 then i else Skip(c, i + 1)
  }

  lemma {:induction false} SkipIs(c: seq<byte>, i: nat, p: nat)
    requires Blank(c, i, p) && p < |c| && c[p] > 32
    ensures Skip(c, i) == p
    decreases p - i
  {
    if i < p {
      SkipIs(c, i + 1, p);
    }
  }

  lemma {:induction false} SkipBlank(c: seq<byte>, i: nat)
    requires i < |c|
    ensures Blank(c, i, Skip(c, i)) && (c[Skip(c, i)] <= 32 ==> Skip(c, i) == |c| - 1)
    decreases |c| - i
  {
    if c[i] <= 32 && i + 1 < |c| {
      SkipBlank(c, i + 1);
    }
  }

  lemma SkipTwice(c: seq<byte>, i: nat)
    requires i < |c|
    ensures Skip(c, Skip(c, i)) == Skip(c, i)
  {
    hide Skip;
    SkipBlank(c, i);
    var p := Skip(c, i);
    if c[p] > 32 {
      SkipIs(c, p, p);
    } else {
      SkipBlank(c, p);
    }
  }

  // ----- A reader -----

  /** A C string with its NUL. */
  ghost predicate Ended(c: seq<byte>) {
    c != [] && c[|c| - 1] == 0
  }

  lemma WordEnds(c: seq<byte>, i: nat, t: seq<byte>)
    requires Ended(c) && At(c, i, t) && t != [] && t[|t| - 1] != 0
    ensures i + |t| < |c|
  {
    AtIndex(c, i, t, |t| - 1);
  }

  lemma {:induction false} RunEnds(c: seq<byte>, i: nat, max: nat)
    requires Ended(c) && i < |c|
    ensures i + RunLength(c, i, max) < |c|
    decreases max
  {
    if max > 0 && NumberChar(c[i]) {
      RunEnds(c, i + 1, max - 1);
    }
  }

  /** The item at i, and the place behind it; no more than left arrays and objects inside one another. */
  ghost function ReadValue(c: seq<byte>, strtod: seq<byte> -> nat, i: nat, left: nat): (r: Option<(Item, nat)>)
    requires Ended(c)
    ensures r.Some? ==> i < r.value.1 < |c|
    decreases if i < |c| then |c| - i else 0, 1
  {
    if i >= |c| then None
    else if At(c, i, NULL_TEXT) then WordEnds(c, i, NULL_TEXT); Some((Null, i + |NULL_TEXT|))
    else if At(c, i, FALSE_TEXT) then WordEnds(c, i, FALSE_TEXT); Some((False, i + |FALSE_TEXT|))
    else if At(c, i, TRUE_TEXT) then WordEnds(c, i, TRUE_TEXT); Some((True, i + |TRUE_TEXT|))
    else if c[i] == QUOTE then
      match ReadString(c, i)
      case None => None
      case Some((s, j)) => Some((Str(s), j))
    else if c[i] == 45 || Digit(c[i]) then ReadNumber(c, strtod, i)
    else if c[i] == OPEN_BRACKET then ReadArray(c, strtod, i, left)
    else if c[i] == OPEN_BRACE then ReadObject(c, strtod, i, left)
    else None
  }

  ghost function ReadString(c: seq<byte>, i: nat): (r: Option<(seq<byte>, nat)>)
    requires Ended(c)
    ensures r.Some? ==> i < r.value.1 < |c|
  {
    if i >= |c| || c[i] != QUOTE then None
    else
      match ClosingQuote(c, i + 1)
      case None => None
      case Some(end) =>
        match Unescape(c, i + 1, end)
        case None => None
        case Some(s) => Some((s, end + 1))
  }

  ghost function ReadNumber(c: seq<byte>, strtod: seq<byte> -> nat, i: nat): (r: Option<(Item, nat)>)
    requires Ended(c) && i < |c|
    ensures r.Some? ==> i < r.value.1 < |c|
  {
    RunEnds(c, i, MAX_NUMBER);
    var n := RunLength(c, i, MAX_NUMBER);
    var taken := strtod(c[i..i + n]);
    if 1 <= taken <= n then Some((Number(c[i..i + taken]), i + taken)) else None
  }

  ghost function ReadArray(c: seq<byte>, strtod: seq<byte> -> nat, i: nat, left: nat): (r: Option<(Item, nat)>)
    requires Ended(c) && i < |c| && c[i] == OPEN_BRACKET
    ensures r.Some? ==> i < r.value.1 < |c|
    decreases |c| - i, 0
  {
    if left == 0 then None
    else if c[Skip(c, i + 1)] == CLOSE_BRACKET then Some((Array([]), Skip(c, i + 1) + 1))
    else
      match ReadElements(c, strtod, i + 1, left - 1)
      case None => None
      case Some((items, j)) => Some((Array(items), j))
  }

  ghost function ReadElements(c: seq<byte>, strtod: seq<byte> -> nat, i: nat, left: nat)
    : (r: Option<(seq<Item>, nat)>)
    requires Ended(c) && i < |c|
    ensures r.Some? ==> i < r.value.1 < |c| && r.value.0 != []
    decreases |c| - i, 2
  {
    match ReadValue(c, strtod, Skip(c, i), left)
    case None => None
    case Some((v, q)) =>
      var r := Skip(c, q);
      if c[r] == CLOSE_BRACKET then Some(([v], r + 1))
      else if c[r] != COMMA then None
      else
        match ReadElements(c, strtod, r + 1, left)
        case None => None
        case Some((items, j)) => Some(([v] + items, j))
  }

  ghost function ReadObject(c: seq<byte>, strtod: seq<byte> -> nat, i: nat, left: nat): (r: Option<(Item, nat)>)
    requires Ended(c) && i < |c| && c[i] == OPEN_BRACE
    ensures r.Some? ==> i < r.value.1 < |c|
    decreases |c| - i, 0
  {
    if left == 0 then None
    else if c[Skip(c, i + 1)] == CLOSE_BRACE then Some((Object([]), Skip(c, i + 1) + 1))
    else
      match ReadMembers(c, strtod, i + 1, left - 1)
      case None => None
      case Some((members, j)) => Some((Object(members), j))
  }

  /** A member, and the first place behind it that is not blank. */
  ghost function ReadMember(c: seq<byte>, strtod: seq<byte> -> nat, i: nat, left: nat): (r: Option<(Member, nat)>)
    requires Ended(c) && i < |c|
    ensures r.Some? ==> i < r.value.1 < |c|
    decreases |c| - i, 2
  {
    match ReadString(c, Skip(c, i))
    case None => None
    case Some((name, q)) =>
      var n := Skip(c, q);
      if c[n] != COLON then None
      else
        match ReadValue(c, strtod, Skip(c, n + 1), left)
        case None => None
        case Some((v, e)) => Some((Member(name, v), Skip(c, e)))
  }

  ghost function ReadMembers(c: seq<byte>, strtod: seq<byte> -> nat, i: nat, left: nat)
    : (r: Option<(seq<Member>, nat)>)
    requires Ended(c) && i < |c|
    ensures r.Some? ==> i < r.value.1 < |c| && r.value.0 != []
    decreases |c| - i, 3
  {
    match ReadMember(c, strtod, i, left)
    case None => None
    case Some((m, r)) =>
      if c[r] == CLOSE_BRACE then Some(([m], r + 1))
      else if c[r] != COMMA then None
      else
        match ReadMembers(c, strtod, r + 1, left)
        case None => None
        case Some((members, j)) => Some(([m] + members, j))
  }

  lemma RunStep(c: seq<byte>, i: nat, max: nat)
    ensures RunLength(c, i, max)
            == if max == 0 || i >= |c| || !NumberChar(c[i]) then 0 else 1 + RunLength(c, i + 1, max - 1)
  {
  }

  /** What has been read, and then the rest. */
  ghost function Prefixed<T>(before: seq<T>, rest: Option<(seq<T>, nat)>): (r: Option<(seq<T>, nat)>) {
    if rest.None? then None else Some((before + rest.value.0, rest.value.1))
  }

  lemma Behind<T>(before: seq<T>, rest: Option<(seq<T>, nat)>)
    requires before == []
    ensures Prefixed(before, rest) == rest
  {
    assert rest.Some? ==> [] + rest.value.0 == rest.value.0;
  }

  /** It does not matter whether the blanks before the elements have been skipped. */
  lemma ElementsSkip(c: seq<byte>, strtod: seq<byte> -> nat, i: nat, left: nat)
    requires Ended(c) && i < |c|
    ensures ReadElements(c, strtod, Skip(c, i), left) == ReadElements(c, strtod, i, left)
  {
    hide Skip, ReadValue;
    SkipTwice(c, i);
  }

  lemma MembersSkip(c: seq<byte>, strtod: seq<byte> -> nat, i: nat, left: nat)
    requires Ended(c) && i < |c|
    ensures ReadMembers(c, strtod, Skip(c, i), left) == ReadMembers(c, strtod, i, left)
  {
    hide Skip, ReadValue, ReadString;
    SkipTwice(c, i);
  }

  /** One element more. */
  lemma ElementRead(c: seq<byte>, strtod: seq<byte> -> nat, i: nat, left: nat, items: seq<Item>, v: Item, q: nat)
    requires Ended(c) && i < |c| && ReadValue(c, strtod, Skip(c, i), left) == Some((v, q))
    ensures var r, whole := Skip(c, q), Prefixed(items, ReadElements(c, strtod, i, left));
            && i < r < |c|
            && (c[r] == CLOSE_BRACKET ==> whole == Some((items + [v], r + 1)))
            && (c[r] == COMMA ==>
                  r + 1 < |c| && whole == Prefixed(items + [v], ReadElements(c, strtod, r + 1, left)))
            && (c[r] != CLOSE_BRACKET && c[r] != COMMA ==> whole == None)
  {
    hide Skip, ReadValue;
    var r := Skip(c, q);
    if c[r] == COMMA {
      var rest := ReadElements(c, strtod, r + 1, left);
      assert rest.Some? ==> items + ([v] + rest.value.0) == items + [v] + rest.value.0;
    }
  }

  lemma MemberRead(c: seq<byte>, strtod: seq<byte> -> nat, i: nat, left: nat, members: seq<Member>, m: Member, r: nat)
    requires Ended(c) && i < |c| && ReadMember(c, strtod, i, left) == Some((m, r))
    ensures var whole := Prefixed(members, ReadMembers(c, strtod, i, left));
            && i < r < |c|
            && (c[r] == CLOSE_BRACE ==> whole == Some((members + [m], r + 1)))
            && (c[r] == COMMA ==>
                  r + 1 < |c| && whole == Prefixed(members + [m], ReadMembers(c, strtod, r + 1, left)))
            && (c[r] != CLOSE_BRACE && c[r] != COMMA ==> whole == None)
  {
    hide ReadMember;
    if c[r] == COMMA {
      var rest := ReadMembers(c, strtod, r + 1, left);
      assert rest.Some? ==> members + ([m] + rest.value.0) == members + [m] + rest.value.0;
    }
  }

  // ----- The reader and the grammar -----

  lemma FirstLetters(c: seq<byte>, i: nat)
    requires i < |c|
    ensures At(c, i, NULL_TEXT) ==> c[i] == 110
    ensures At(c, i, FALSE_TEXT) ==> c[i] == 102
    ensures At(c, i, TRUE_TEXT) ==> c[i] == 116
  {
    if At(c, i, NULL_TEXT) {
      AtIndex(c, i, NULL_TEXT, 0);
    }
    if At(c, i, FALSE_TEXT) {
      AtIndex(c, i, FALSE_TEXT, 0);
    }
    if At(c, i, TRUE_TEXT) {
      AtIndex(c, i, TRUE_TEXT, 0);
    }
  }

  /** What stands for an item begins with a character that tells its kind. */
  lemma FirstTells(c: seq<byte>, strtod: seq<byte> -> nat, i: nat, it: Item, j: nat)
    requires Reads(c, strtod, i, it, j)
    ensures i < |c| && c[i] > 32
    ensures match it
            case Null => c[i] == 110
            case False => c[i] == 102
            case True => c[i] == 116
            case Number(t) => c[i] == 45 || Digit(c[i])
            case Str(_) => c[i] == QUOTE
            case Array(_) => c[i] == OPEN_BRACKET
            case Object(_) => c[i] == OPEN_BRACE
  {
    hide ReadsElements, ReadsMembers, Closes, ReadsPadded, ClosingQuote, Unescape, RunLength;
    match it
    case Null => AtIndex(c, i, NULL_TEXT, 0);
    case False => AtIndex(c, i, FALSE_TEXT, 0);
    case True => AtIndex(c, i, TRUE_TEXT, 0);
    case _ =>
  }

  lemma Pad(c: seq<byte>, strtod: seq<byte> -> nat, i: nat, p: nat, it: Item, q: nat, r: nat)
    requires Blank(c, i, p) && Reads(c, strtod, p, it, q) && Blank(c, q, r)
    ensures ReadsPadded(c, strtod, i, it, r)
  {
  }

  lemma StringSound(c: seq<byte>, i: nat)
    requires Ended(c) && ReadString(c, i).Some?
    ensures var (s, j) := ReadString(c, i).value; ReadsString(c, i, s, j)
  {
    hide ClosingQuote, Unescape;
  }

  /** The reader finds only what stands there. */
  lemma {:induction false} ValueSound(c: seq<byte>, strtod: seq<byte> -> nat, i: nat, left: nat)
    requires Ended(c) && ReadValue(c, strtod, i, left).Some?
    ensures var (it, j) := ReadValue(c, strtod, i, left).value;
            Reads(c, strtod, i, it, j) && DepthAtMost(it, left)
    decreases |c| - i, 1
  {
    hide ReadString, ReadElements, ReadMembers, ReadsElements, ReadsMembers, RunLength, At, Skip;
    var (it, j) := ReadValue(c, strtod, i, left).value;
    FirstLetters(c, i);
    if c[i] == QUOTE {
      StringSound(c, i);
    } else if c[i] == OPEN_BRACKET {
      ArraySound(c, strtod, i, left);
    } else if c[i] == OPEN_BRACE {
      ObjectSound(c, strtod, i, left);
    }
  }

  lemma CloseSound(c: seq<byte>, i: nat, b: byte)
    requires i < |c| && c[Skip(c, i)] == b
    ensures Closes(c, i, b, Skip(c, i) + 1)
  {
    SkipBlank(c, i);
  }

  lemma {:induction false} ArraySound(c: seq<byte>, strtod: seq<byte> -> nat, i: nat, left: nat)
    requires Ended(c) && i < |c| && c[i] == OPEN_BRACKET && ReadArray(c, strtod, i, left).Some?
    ensures var (it, j) := ReadArray(c, strtod, i, left).value;
            Reads(c, strtod, i, it, j) && DepthAtMost(it, left)
    decreases |c| - i, 0
  {
    hide ReadElements, ReadsElements, Skip, Closes;
    if c[Skip(c, i + 1)] == CLOSE_BRACKET {
      CloseSound(c, i + 1, CLOSE_BRACKET);
    } else {
      var (it, j) := ReadArray(c, strtod, i, left).value;
      ElementsSound(c, strtod, i + 1, left - 1, it);
    }
  }

  lemma {:induction false} ElementsSound(c: seq<byte>, strtod: seq<byte> -> nat, i: nat, left: nat, it: Item)
    requires Ended(c) && i < |c| && ReadElements(c, strtod, i, left).Some?
    requires forall k | 0 <= k < |ReadElements(c, strtod, i, left).value.0| ::
               ReadElements(c, strtod, i, left).value.0[k] < it
    ensures var (items, j) := ReadElements(c, strtod, i, left).value;
            ReadsElements(c, strtod, i, it, items, j) && forall k | 0 <= k < |items| :: DepthAtMost(items[k], left)
    decreases |c| - i, 2
  {
    hide ReadValue, Reads, ReadsPadded, Skip, Blank, DepthAtMost;
    var p := Skip(c, i);
    SkipBlank(c, i);
    ValueSound(c, strtod, p, left);
    var (v, q) := ReadValue(c, strtod, p, left).value;
    SkipBlank(c, q);
    var r := Skip(c, q);
    Pad(c, strtod, i, p, v, q, r);
    var items := ReadElements(c, strtod, i, left).value.0;
    if c[r] == COMMA {
      var rest := ReadElements(c, strtod, r + 1, left).value.0;
      assert items[0] == v && items[1..] == rest;
      forall k | 0 <= k < |rest| ensures rest[k] < it {
        assert rest[k] == items[k + 1];
      }
      ElementsSound(c, strtod, r + 1, left, it);
    }
  }

  lemma {:induction false} ObjectSound(c: seq<byte>, strtod: seq<byte> -> nat, i: nat, left: nat)
    requires Ended(c) && i < |c| && c[i] == OPEN_BRACE && ReadObject(c, strtod, i, left).Some?
    ensures var (it, j) := ReadObject(c, strtod, i, left).value;
            Reads(c, strtod, i, it, j) && DepthAtMost(it, left)
    decreases |c| - i, 0
  {
    hide ReadMembers, ReadsMembers, Skip, Closes;
    if c[Skip(c, i + 1)] == CLOSE_BRACE {
      CloseSound(c, i + 1, CLOSE_BRACE);
    } else {
      var (it, j) := ReadObject(c, strtod, i, left).value;
      MembersSound(c, strtod, i + 1, left - 1, it);
    }
  }

  lemma {:induction false} MemberSound(c: seq<byte>, strtod: seq<byte> -> nat, i: nat, left: nat)
    requires Ended(c) && i < |c| && ReadMember(c, strtod, i, left).Some?
    ensures var (m, r) := ReadMember(c, strtod, i, left).value;
            ReadsMember(c, strtod, i, m, r) && DepthAtMost(m.value, left)
    decreases |c| - i, 2
  {
    hide ReadString, ReadsString, ReadValue, Reads, ReadsPadded, Skip, Blank, DepthAtMost;
    var p := Skip(c, i);
    SkipBlank(c, i);
    StringSound(c, p);
    var (name, q) := ReadString(c, p).value;
    SkipBlank(c, q);
    var n := Skip(c, q);
    var u := Skip(c, n + 1);
    SkipBlank(c, n + 1);
    ValueSound(c, strtod, u, left);
    var (v, e) := ReadValue(c, strtod, u, left).value;
    SkipBlank(c, e);
    Pad(c, strtod, n + 1, u, v, e, Skip(c, e));
    assert ReadsName(c, i, name, n);
  }

  lemma {:induction false} MembersSound(c: seq<byte>, strtod: seq<byte> -> nat, i: nat, left: nat, it: Item)
    requires Ended(c) && i < |c| && ReadMembers(c, strtod, i, left).Some?
    requires forall k | 0 <= k < |ReadMembers(c, strtod, i, left).value.0| ::
               ReadMembers(c, strtod, i, left).value.0[k].value < it
    ensures var (members, j) := ReadMembers(c, strtod, i, left).value;
            && ReadsMembers(c, strtod, i, it, members, j)
            && forall k | 0 <= k < |members| :: DepthAtMost(members[k].value, left)
    decreases |c| - i, 3
  {
    hide ReadMember, ReadsMember, DepthAtMost;
    MemberSound(c, strtod, i, left);
    var (m, r) := ReadMember(c, strtod, i, left).value;
    var members := ReadMembers(c, strtod, i, left).value.0;
    if c[r] == COMMA {
      var rest := ReadMembers(c, strtod, r + 1, left).value.0;
      assert members[0] == m && members[1..] == rest;
      forall k | 0 <= k < |rest| ensures rest[k].value < it {
        assert rest[k] == members[k + 1];
      }
      MembersSound(c, strtod, r + 1, left, it);
    }
  }

  lemma StringComplete(c: seq<byte>, i: nat, s: seq<byte>, j: nat)
    requires Ended(c) && ReadsString(c, i, s, j)
    ensures ReadString(c, i) == Some((s, j))
  {
    hide ClosingQuote, Unescape;
  }

  /** The reader finds everything that stands there and is not too deep. */
  lemma {:induction false} ValueComplete(c: seq<byte>, strtod: seq<byte> -> nat, i: nat, it: Item, j: nat, left: nat)
    requires Ended(c) && Reads(c, strtod, i, it, j) && DepthAtMost(it, left)
    ensures ReadValue(c, strtod, i, left) == Some((it, j))
    decreases it, 2, 0
  {
    hide ReadString, ReadElements, ReadMembers, ReadsElements, ReadsMembers, RunLength, At, Skip, Closes;
    FirstTells(c, strtod, i, it, j);
    FirstLetters(c, i);
    match it {
      case Str(s) =>
        StringComplete(c, i, s, j);
      case Array(items) =>
        if items == [] {
          CloseComplete(c, i + 1, CLOSE_BRACKET, j);
        } else {
          FirstElementVisible(c, strtod, i + 1, it, items, j);
          ElementsComplete(c, strtod, i + 1, it, items, j, left - 1);
        }
      case Object(members) =>
        if members == [] {
          CloseComplete(c, i + 1, CLOSE_BRACE, j);
        } else {
          FirstMemberVisible(c, strtod, i + 1, it, members, j);
          MembersComplete(c, strtod, i + 1, it, members, j, left - 1);
        }
      case _ =>
    }
  }

  lemma CloseComplete(c: seq<byte>, i: nat, b: byte, j: nat)
    requires Closes(c, i, b, j) && b > 32
    ensures c[Skip(c, i)] == b && Skip(c, i) + 1 == j
  {
    SkipIs(c, i, j - 1);
  }

  /** Where an item with blanks around it ends. */
  lemma {:induction false} PaddedComplete(c: seq<byte>, strtod: seq<byte> -> nat, i: nat, it: Item, r: nat, left: nat)
    requires Ended(c) && ReadsPadded(c, strtod, i, it, r) && DepthAtMost(it, left) && r < |c| && c[r] > 32
    ensures ReadValue(c, strtod, Skip(c, i), left).Some?
    ensures var (v, q) := ReadValue(c, strtod, Skip(c, i), left).value; v == it && Skip(c, q) == r
    decreases it, 3, 0
  {
    hide ReadValue, Reads, Skip, DepthAtMost;
    var p: nat, q: nat :| Blank(c, i, p) && Reads(c, strtod, p, it, q) && Blank(c, q, r);
    hide Blank;
    FirstTells(c, strtod, p, it, q);
    SkipIs(c, i, p);
    SkipIs(c, q, r);
    ValueComplete(c, strtod, p, it, q, left);
  }

  /** Before an element there is no bracket. */
  lemma FirstElementVisible(c: seq<byte>, strtod: seq<byte> -> nat, i: nat, it: Item, items: seq<Item>, j: nat)
    requires forall k | 0 <= k < |items| :: items[k] < it
    requires c != [] && ReadsElements(c, strtod, i, it, items, j)
    ensures i < |c| && c[Skip(c, i)] != CLOSE_BRACKET
  {
    hide Reads, Skip;
    var r: nat :| ReadsPadded(c, strtod, i, items[0], r) && r < |c|;
    var p: nat, q: nat :| Blank(c, i, p) && Reads(c, strtod, p, items[0], q) && Blank(c, q, r);
    FirstTells(c, strtod, p, items[0], q);
    SkipIs(c, i, p);
  }

  lemma {:induction false} ElementsComplete(c: seq<byte>, strtod: seq<byte> -> nat, i: nat, it: Item,
                                            items: seq<Item>, j: nat, left: nat)
    requires forall k | 0 <= k < |items| :: items[k] < it
    requires Ended(c) && i < |c| && ReadsElements(c, strtod, i, it, items, j)
    requires forall k | 0 <= k < |items| :: DepthAtMost(items[k], left)
    ensures ReadElements(c, strtod, i, left) == Some((items, j))
    decreases it, 1, |items|
  {
    hide ReadValue, Reads, ReadsPadded, Skip, DepthAtMost;
    var r: nat :| ReadsPadded(c, strtod, i, items[0], r) && r < |c|
                  && if |items| == 1 then c[r] == CLOSE_BRACKET && j == r + 1
                     else c[r] == COMMA && ReadsElements(c, strtod, r + 1, it, items[1..], j);
    PaddedComplete(c, strtod, i, items[0], r, left);
    if |items| == 1 {
      assert items == [items[0]];
    } else {
      hide ReadElements;
      FirstElementVisible(c, strtod, r + 1, it, items[1..], j);
      ElementsComplete(c, strtod, r + 1, it, items[1..], j, left);
      ElementsJoin(c, strtod, i, left, items[0], r, items[1..], j);
      assert items == [items[0]] + items[1..];
    }
  }

  lemma ElementsJoin(c: seq<byte>, strtod: seq<byte> -> nat, i: nat, left: nat, v: Item, r: nat, rest: seq<Item>,
                     j: nat)
    requires Ended(c) && i < |c| && ReadValue(c, strtod, Skip(c, i), left).Some?
    requires var (u, q) := ReadValue(c, strtod, Skip(c, i), left).value; u == v && Skip(c, q) == r && c[r] == COMMA
    requires r + 1 < |c| && ReadElements(c, strtod, r + 1, left) == Some((rest, j))
    ensures ReadElements(c, strtod, i, left) == Some(([v] + rest, j))
  {
    hide ReadValue, Skip;
  }

  /** Before a member there is no brace. */
  lemma FirstMemberVisible(c: seq<byte>, strtod: seq<byte> -> nat, i: nat, it: Item, members: seq<Member>, j: nat)
    requires forall k | 0 <= k < |members| :: members[k].value < it
    requires c != [] && ReadsMembers(c, strtod, i, it, members, j)
    ensures i < |c| && c[Skip(c, i)] == QUOTE
  {
    hide ReadsPadded, Skip, ClosingQuote, Unescape;
    var r: nat :| ReadsMember(c, strtod, i, members[0], r) && r < |c|;
    var n: nat :| ReadsName(c, i, members[0].name, n) && n < |c| && c[n] == COLON;
    var p: nat, q: nat :| Blank(c, i, p) && ReadsString(c, p, members[0].name, q) && Blank(c, q, n);
    SkipIs(c, i, p);
  }

  lemma {:induction false} MemberComplete(c: seq<byte>, strtod: seq<byte> -> nat, i: nat, m: Member, r: nat, left: nat)
    requires Ended(c) && i < |c| && ReadsMember(c, strtod, i, m, r) && r < |c| && c[r] > 32
    requires DepthAtMost(m.value, left)
    ensures ReadMember(c, strtod, i, left) == Some((m, r))
    decreases m.value, 4, 0
  {
    hide ReadValue, ReadString, ReadsString, Reads, ReadsPadded, Skip, DepthAtMost;
    var n: nat :| ReadsName(c, i, m.name, n) && n < |c| && c[n] == COLON && ReadsPadded(c, strtod, n + 1, m.value, r);
    var p: nat, q: nat :| Blank(c, i, p) && ReadsString(c, p, m.name, q) && Blank(c, q, n);
    hide Blank;
    StringFirst(c, p, m.name, q);
    SkipIs(c, i, p);
    SkipIs(c, q, n);
    StringComplete(c, p, m.name, q);
    PaddedComplete(c, strtod, n + 1, m.value, r, left);
  }

  lemma StringFirst(c: seq<byte>, i: nat, s: seq<byte>, j: nat)
    requires ReadsString(c, i, s, j)
    ensures i < |c| && c[i] == QUOTE
  {
  }

  lemma {:induction false} MembersComplete(c: seq<byte>, strtod: seq<byte> -> nat, i: nat, it: Item,
                                           members: seq<Member>, j: nat, left: nat)
    requires forall k | 0 <= k < |members| :: members[k].value < it
    requires Ended(c) && i < |c| && ReadsMembers(c, strtod, i, it, members, j)
    requires forall k | 0 <= k < |members| :: DepthAtMost(members[k].value, left)
    ensures ReadMembers(c, strtod, i, left) == Some((members, j))
    decreases it, 1, |members|
  {
    hide ReadMember, ReadsMember, DepthAtMost;
    var r: nat :| ReadsMember(c, strtod, i, members[0], r) && r < |c|
                  && if |members| == 1 then c[r] == CLOSE_BRACE && j == r + 1
                     else c[r] == COMMA && ReadsMembers(c, strtod, r + 1, it, members[1..], j);
    MemberComplete(c, strtod, i, members[0], r, left);
    if |members| == 1 {
      assert members == [members[0]];
    } else {
      FirstMemberVisible(c, strtod, r + 1, it, members[1..], j);
      MembersComplete(c, strtod, r + 1, it, members[1..], j, left);
      assert members == [members[0]] + members[1..];
    }
  }

  // ----- The grammar is unambiguous -----

  lemma {:induction false} DepthMono(it: Item, n: nat, m: nat)
    requires DepthAtMost(it, n) && n <= m
    ensures DepthAtMost(it, m)
    decreases it
  {
    match it {
      case Array(items) =>
        forall i | 0 <= i < |items| ensures DepthAtMost(items[i], m - 1) {
          DepthMono(items[i], n - 1, m - 1);
        }
      case Object(members) =>
        forall i | 0 <= i < |members| ensures DepthAtMost(members[i].value, m - 1) {
          DepthMono(members[i].value, n - 1, m - 1);
        }
      case _ =>
    }
  }

  lemma {:induction false} SomeDepth(it: Item) returns (n: nat)
    ensures DepthAtMost(it, n)
    decreases it, 1, 0
  {
    n := 0;
    match it {
      case Array(items) =>
        var m := SomeDepths(it, items);
        n := m + 1;
      case Object(members) =>
        var values := seq(|members|, i requires 0 <= i < |members| => members[i].value);
        var m := SomeDepths(it, values);
        n := m + 1;
        forall i | 0 <= i < |members| ensures DepthAtMost(members[i].value, m) {
          assert values[i] == members[i].value;
        }
      case _ =>
    }
  }

  lemma {:induction false} SomeDepths(it: Item, items: seq<Item>) returns (n: nat)
    requires forall i | 0 <= i < |items| :: items[i] < it
    ensures forall i | 0 <= i < |items| :: DepthAtMost(items[i], n)
    decreases it, 0, |items|
  {
    hide DepthAtMost;
    n := 0;
    if items != [] {
      var first := SomeDepth(items[0]);
      var others := SomeDepths(it, items[1..]);
      n := first + others;
      forall i | 0 <= i < |items| ensures DepthAtMost(items[i], n) {
        if i == 0 {
          DepthMono(items[0], first, n);
        } else {
          assert items[i] == items[1..][i - 1];
          DepthMono(items[i], others, n);
        }
      }
    }
  }

  /** A text stands for one tree at most, and that ends at one place. */
  lemma Unambiguous(c: seq<byte>, strtod: seq<byte> -> nat, i: nat, it: Item, j: nat, it': Item, j': nat)
    requires Ended(c) && Reads(c, strtod, i, it, j) && Reads(c, strtod, i, it', j')
    ensures it == it' && j == j'
  {
    hide *;
    var n := SomeDepth(it);
    var n' := SomeDepth(it');
    DepthMono(it, n, n + n');
    DepthMono(it', n', n + n');
    ValueComplete(c, strtod, i, it, j, n + n');
    ValueComplete(c, strtod, i, it', j', n + n');
  }

  /** What the reader finds, in terms of the grammar. */
  lemma ReaderIs(c: seq<byte>, strtod: seq<byte> -> nat, i: nat, left: nat)
    requires Ended(c)
    ensures ReadValue(c, strtod, i, left).Some?
            <==> exists it: Item, j: nat :: Reads(c, strtod, i, it, j) && DepthAtMost(it, left)
    ensures ReadValue(c, strtod, i, left).Some? ==>
              var (it, j) := ReadValue(c, strtod, i, left).value;
              Reads(c, strtod, i, it, j) && DepthAtMost(it, left)
  {
    hide ReadValue, Reads, DepthAtMost;
    if ReadValue(c, strtod, i, left).Some? {
      ValueSound(c, strtod, i, left);
    }
    if it: Item, j: nat :| Reads(c, strtod, i, it, j) && DepthAtMost(it, left) {
      ValueComplete(c, strtod, i, it, j, left);
    }
  }
}
