/** Fetching bits from stuffed data: the bit buffer, its refill, and symbol decoding. */
module HuffBitReader {
  import opened Numbers
  import opened BitStrings
  import opened Stuffing
  import opened HuffTable
  import opened HuffDerived

  const MIN_GET_BITS := BIT_BUF_SIZE - 7

  // ----- Markers -----

  /** A marker that ends the data, with any number of fill bytes before it. */
  ghost predicate MarkerFirst(tail: seq<byte>) {
    exists k: nat :: AfterFill(tail, k) && tail[k] != 0
  }

  ghost predicate AfterFill(s: seq<byte>, k: nat) {
    1 <= k < |s| && s[k] != 0xFF && forall i | 0 <= i < k :: s[i] == 0xFF
  }

  lemma OneFill(s: seq<byte>, k: nat, j: nat)
    requires AfterFill(s, k) && AfterFill(s, j)
    ensures k == j
  {
  }

  datatype Fetched = Suspended | Data(b: byte) | Marker(m: byte)

  /** The permanent state of the bit reader. */
  datatype Bookmark = Bookmark(pos: nat, getBuffer: nat, bitsLeft: nat)

  // ----- What an uninterrupted reader does -----

  /** Everything that a reader changes when it takes bits. */
  datatype BitState = BitState(pos: nat, getBuffer: nat, bitsLeft: nat, unread: byte)

  /** A fetch from place q, when all of the input is there. */
  ghost function Fetch(input: seq<byte>, q: nat): (r: (Fetched, nat))
    ensures !r.0.Suspended? ==> q < r.1 <= |input|
    ensures r.0.Marker? ==> r.0.m != 0
  {
    if q >= |input| then (Suspended, q)
    else if input[q] != 0xFF then (Data(input[q]), q + 1)
    else FetchMarked(input, q + 1)
  }

  /** The same behind a 0xFF. */
  ghost function FetchMarked(input: seq<byte>, q: nat): (r: (Fetched, nat))
    ensures !r.0.Suspended? ==> q < r.1 <= |input|
    ensures r.0.Marker? ==> r.0.m != 0
    decreases if q < |input| then |input| - q else 0
  {
    if q >= |input| then (Suspended, q)
    else if input[q] == 0xFF then FetchMarked(input, q + 1)
    else if input[q] == 0 then (Data(0xFF), q + 1)
    else (Marker(input[q]), q + 1)
  }

  ghost function Loaded(input: seq<byte>, st: BitState): (r: BitState)
    decreases if st.pos < |input| then |input| - st.pos else 0
  {
    if st.unread != 0 || st.bitsLeft >= MIN_GET_BITS then st
    else
      var (f, q) := Fetch(input, st.pos);
      match f
      case Suspended => st
      case Marker(m) => st.(pos := q, unread := m)
      case Data(c) => Loaded(input, BitState(q, Or(ShiftLeft32(st.getBuffer, 8), c), st.bitsLeft + 8, 0))
  }

  /** One fetch on the way to a filled buffer. */
  lemma LoadedStep(input: seq<byte>, st: BitState)
    requires st.unread == 0 && st.bitsLeft < MIN_GET_BITS
    ensures var (f, q) := Fetch(input, st.pos);
            match f
            case Suspended => true
            case Marker(m) => Loaded(input, st) == Loaded(input, st.(pos := q, unread := m))
            case Data(c) =>
              Loaded(input, st)
              == Loaded(input, BitState(q, Or(ShiftLeft32(st.getBuffer, 8), c), st.bitsLeft + 8, 0))
  {
    hide Fetch, Or, ShiftLeft32;
  }

  lemma LoadedOver(input: seq<byte>, st: BitState)
    requires st.unread != 0 || st.bitsLeft >= MIN_GET_BITS
    ensures Loaded(input, st) == st
  {
  }

  ghost function Filled(input: seq<byte>, st: BitState, nbits: nat): (r: BitState) {
    var l := Loaded(input, st);
    if l.unread != 0 && MIN_GET_BITS >= nbits > l.bitsLeft then
      l.(getBuffer := ShiftLeft32(l.getBuffer, MIN_GET_BITS - l.bitsLeft), bitsLeft := MIN_GET_BITS)
    else l
  }

  ghost function Dropped(st: BitState, n: nat): (r: BitState) {
    if n <= st.bitsLeft then st.(bitsLeft := st.bitsLeft - n) else st
  }

  /** After n plain bits. */
  ghost function Taken(input: seq<byte>, st: BitState, n: nat): (r: BitState) {
    Dropped(if st.bitsLeft < n then Filled(input, st, n) else st, n)
  }

  ghost function TakenOnes(input: seq<byte>, st: BitState, n: nat): (r: BitState)
    decreases n
  {
    if n == 0 then st else TakenOnes(input, Taken(input, st, 1), n - 1)
  }

  /** After a code word of m bits. */
  ghost function CodeTaken(input: seq<byte>, st: BitState, m: nat): (r: BitState) {
    var l := if st.bitsLeft < HUFF_LOOKAHEAD then Filled(input, st, 0) else st;
    if l.bitsLeft < HUFF_LOOKAHEAD then TakenOnes(input, Taken(input, l, 1), if m < 1 then 0 else m - 1)
    else if m <= HUFF_LOOKAHEAD then Dropped(l, m)
    else TakenOnes(input, Taken(input, l, HUFF_LOOKAHEAD + 1), m - (HUFF_LOOKAHEAD + 1))
  }

  /** What is taken in one go: a code word, or plain bits. */
  datatype Taking = Code(m: nat) | Plain(n: nat)

  ghost function AfterTaking(input: seq<byte>, st: BitState, tk: Taking): (r: BitState) {
    match tk
    case Code(m) => CodeTaken(input, st, m)
    case Plain(n) => Taken(input, st, n)
  }

  ghost function AfterAll(input: seq<byte>, st: BitState, tks: seq<Taking>): (r: BitState) {
    if tks == [] then st else AfterTaking(input, AfterAll(input, st, tks[..|tks| - 1]), tks[|tks| - 1])
  }

  lemma AfterSnoc(input: seq<byte>, st: BitState, tks: seq<Taking>, tk: Taking)
    ensures AfterAll(input, st, tks + [tk]) == AfterTaking(input, AfterAll(input, st, tks), tk)
  {
    assert (tks + [tk])[..|tks|] == tks;
  }

  lemma {:induction false} AfterAppend(input: seq<byte>, st: BitState, a: seq<Taking>, b: seq<Taking>)
    ensures AfterAll(input, st, a + b) == AfterAll(input, AfterAll(input, st, a), b)
  {
    hide AfterTaking;
    if b == [] {
      assert a + b == a;
    } else {
      var b', tk := b[..|b| - 1], b[|b| - 1];
      AfterAppend(input, st, a, b');
      AfterSnoc(input, st, a + b', tk);
      assert a + b == a + b' + [tk];
    }
  }

  class BitReader {
    const input: seq<byte>
    /** How much of the input the source has delivered so far. */
    var available: nat
    var pos: nat
    /** The marker that ended the data, or 0. */
    var unread: byte
    var getBuffer: nat
    var bitsLeft: nat
    var insufficientData: bool
    /** The rest of the file behind the data of this interval; it begins with a marker. */
    ghost var tail: seq<byte>
    /** The data bytes not fetched yet. */
    ghost var rest: seq<byte>
    /** The state at some moment, and all that is taken from there on. */
    ghost var start: BitState
    ghost var plan: seq<Taking>

    ghost predicate Valid()
      reads this
    {
      && getBuffer < Pow2(BIT_BUF_SIZE) && bitsLeft <= BIT_BUF_SIZE
      && pos <= available <= |input| && MarkerFirst(tail)
      && (if unread == 0 then At(pos, rest) else rest == [] && Behind(pos, unread))
    }

    /** From here the input holds these data bytes, stuffed, and then the marker. */
    ghost predicate At(q: nat, r: seq<byte>)
      reads `tail
    {
      q <= |input| && input[q..] == Stuff(r) + tail
    }

    /** The marker m at the head of the tail has been read. */
    ghost predicate Behind(q: nat, m: byte)
      reads `tail
    {
      m != 0 && q <= |input| && exists k: nat :: AfterFill(tail, k) && tail[k] == m && input[q..] == tail[k + 1..]
    }

    lemma MarkerRead(q: nat, k: nat)
      requires At(q, []) && AfterFill(input[q..], k) && input[q + k] != 0
      ensures Behind(q + k + 1, input[q + k])
    {
      assert Stuff([]) == [];
      assert input[q..] == tail;
      assert input[q + k + 1..] == tail[k + 1..];
    }

    /** The bits the decoder has still to consume. */
    ghost function Ahead(): seq<bit>
      reads this
    {
      BitsOf(getBuffer, bitsLeft) + BytesToBits(rest)
    }

    constructor (bytes: seq<byte>, ghost data: seq<byte>, ghost end: seq<byte>)
      requires bytes == Stuff(data) + end && MarkerFirst(end)
      ensures Valid() && Ahead() == BytesToBits(data) && !insufficientData && unread == 0
      ensures available == 0 && input == bytes && tail == end
    {
      input, available, pos, unread, getBuffer, bitsLeft, insufficientData := bytes, 0, 0, 0, 0, 0, false;
      tail, rest := end, data;
      start, plan := BitState(0, 0, 0, 0), [];
      new;
      hide Stuff, BytesToBits, MarkerFirst, BitsOf;
      assert input[0..] == bytes;
      NoneBuffered(BytesToBits(data));
    }

    ghost function State(): (st: BitState)
      reads `pos, `getBuffer, `bitsLeft, `unread
    {
      BitState(pos, getBuffer, bitsLeft, unread)
    }

    /** From now on these are taken. */
    ghost method Follow(tks: seq<Taking>)
      requires Valid()
      modifies `start, `plan
      ensures Valid() && Ahead() == old(Ahead()) && start == State() && plan == tks
    {
      start, plan := State(), tks;
    }

    // ----- Refilling -----

    lemma Stuffed(q: nat, r: seq<byte>) returns (k: nat)
      requires At(q, r) && MarkerFirst(tail)
      ensures q < |input|
      ensures input[q] != 0xFF ==> r != [] && r[0] == input[q] && At(q + 1, r[1..])
      ensures input[q] == 0xFF ==> AfterFill(input[q..], k)
      ensures input[q] == 0xFF && input[q + k] == 0 ==> r != [] && r[0] == 0xFF && At(q + k + 1, r[1..])
      ensures input[q] == 0xFF && input[q + k] != 0 ==> r == []
    {
      k := 1;
      if r == [] {
        k :| AfterFill(tail, k) && tail[k] != 0;
        assert Stuff(r) == [];
        hide Stuff;
        assert Stuff(r) + tail == tail;
        assert input[q] == tail[0] && input[q + k] == tail[k];
      } else {
        StuffHead(r);
        hide Stuff;
        var s := Stuff(r[1..]) + tail;
        assert input[q..] == StuffByte(r[0]) + s;
        if r[0] == 0xFF {
          assert input[q] == 0xFF && input[q + 1] == 0;
          assert input[q + 2..] == input[q..][2..] == s;
          assert AfterFill(input[q..], 1);
        } else {
          assert input[q + 1..] == input[q..][1..] == s;
        }
      }
    }

    /** The next data byte with its stuffing removed, or the marker. */
    method NextByte(q0: nat, ghost r: seq<byte>) returns (f: Fetched, q: nat)
      requires At(q0, r) && MarkerFirst(tail) && q0 <= available <= |input|
      ensures f.Suspended? ==> available < |input|
      ensures !f.Suspended? ==> q0 < q <= available
      ensures f.Data? ==> r != [] && f.b == r[0] && At(q, r[1..])
      ensures f.Marker? ==> r == [] && Behind(q, f.m)
      ensures !f.Suspended? ==> (f, q) == Fetch(input, q0)
    {
      q := q0;
      ghost var k := Stuffed(q0, r);
      if q == available {
        return Suspended, q;
      }
      var c := input[q];
      q := q + 1;
      if c != 0xFF {
        return Data(c), q;
      }
      assert forall i | 0 <= i <= k :: input[q0..][i] == input[q0 + i];
      while c == 0xFF
        invariant q0 < q <= available && q - q0 <= k + 1
        invariant c == input[q - 1] && (c != 0xFF ==> q == q0 + k + 1)
        invariant Fetch(input, q0) == FetchMarked(input, if c == 0xFF then q else q - 1)
        decreases k + 1 - (q - q0)
      {
        if q == available {
          return Suspended, q;
        }
        c := input[q];
        q := q + 1;
      }
      if c == 0 {
        return Data(0xFF), q;
      }
      MarkerRead(q0, k);
      return Marker(c), q;
    }

    lemma LoadByte(g: nat, b: nat, r: seq<byte>)
      requires b < MIN_GET_BITS && r != []
      ensures Or(ShiftLeft32(g, 8), r[0]) < Pow2(BIT_BUF_SIZE)
      ensures BitsOf(Or(ShiftLeft32(g, 8), r[0]), b + 8) + BytesToBits(r[1..]) == BitsOf(g, b) + BytesToBits(r)
    {
      hide Pow2, BitsOf, Or, BytesToBits, ShiftLeft32;
      var c, s := r[0], r[1..];
      assert r == [c] + s;
      BytesToBitsCons(c, s);
      Pow2Byte();
      ShiftIn(g, b, 8, c);
      var x := Or(ShiftLeft32(g, 8), c);
      calc {
        BitsOf(x, b + 8) + BytesToBits(s);
        (BitsOf(g, b) + BitsOf(c, 8)) + BytesToBits(s);
        { Assoc(BitsOf(g, b), BitsOf(c, 8), BytesToBits(s)); }
        BitsOf(g, b) + (BitsOf(c, 8) + BytesToBits(s));
        BitsOf(g, b) + BytesToBits(r);
      }
    }

    /** Loads at least nbits bits, with zeros after the end of the data; changes nothing if it has to wait. */
    method FillBitBuffer(nbits: nat) returns (ok: bool)
      requires Valid() && nbits <= MIN_GET_BITS
      modifies this`pos, this`unread, this`getBuffer, this`bitsLeft, this`insufficientData, this`rest
      ensures Valid()
      ensures !ok ==> available < |input| && unread == 0
      ensures !ok ==> Ahead() == old(Ahead()) && pos == old(pos) && getBuffer == old(getBuffer)
                      && bitsLeft == old(bitsLeft)
      ensures !ok ==> unread == old(unread) && rest == old(rest) && insufficientData == old(insufficientData)
      ensures old(unread) != 0 ==> ok && unread == old(unread)
      ensures ok && nbits <= |old(Ahead())| ==> Ahead() == old(Ahead()) && insufficientData == old(insufficientData)
      ensures ok && nbits > |old(Ahead())| ==>
                insufficientData && Ahead() == old(Ahead()) + seq(MIN_GET_BITS - |old(Ahead())|, _ => 0)
      ensures ok ==> nbits <= bitsLeft && (bitsLeft >= MIN_GET_BITS || rest == [])
      ensures ok ==> State() == Filled(input, old(State()), nbits)
    {
      hide Or, BitsOf, BytesToBits, Pow2, Stuff, Fetch, ShiftLeft32, Loaded, At, Behind, MarkerFirst;
      var g: nat, b: nat, q: nat, marker: byte := getBuffer, bitsLeft, pos, unread;
      ghost var r := rest;
      while marker == 0 && b < MIN_GET_BITS
        invariant g < Pow2(BIT_BUF_SIZE) && b <= BIT_BUF_SIZE && q <= available
        invariant if marker == 0 then At(q, r) else r == [] && Behind(q, marker)
        invariant BitsOf(g, b) + BytesToBits(r) == old(Ahead())
        invariant old(unread) != 0 ==> marker == old(unread)
        invariant Loaded(input, BitState(q, g, b, marker)) == Loaded(input, old(State()))
        modifies {}
        decreases |input| - q
      {
        LoadedStep(input, BitState(q, g, b, marker));
        var f;
        f, q := NextByte(q, r);
        match f {
          case Suspended =>
            return false;
          case Marker(m) =>
            marker := m;
          case Data(c) =>
            LoadByte(g, b, r);
            g := Or(ShiftLeft32(g, 8), c);
            b := b + 8;
            r := r[1..];
        }
      }
      LoadedOver(input, BitState(q, g, b, marker));
      if marker != 0 && nbits > b {
        insufficientData := true;
        Padded(g, b);
        assert BytesToBits(r) == [];
        g := ShiftLeft32(g, MIN_GET_BITS - b);
        b := MIN_GET_BITS;
      }
      pos, unread, getBuffer, bitsLeft, rest := q, marker, g, b, r;
      ok := true;
    }

    lemma Padded(g: nat, b: nat)
      requires b <= MIN_GET_BITS
      ensures ShiftLeft32(g, MIN_GET_BITS - b) < Pow2(BIT_BUF_SIZE)
      ensures BitsOf(ShiftLeft32(g, MIN_GET_BITS - b), MIN_GET_BITS) == BitsOf(g, b) + seq(MIN_GET_BITS - b, _ => 0)
    {
      var k := MIN_GET_BITS - b;
      ShiftIn(g, b, k, 0);
      BitsOfZero(k);
    }

    // ----- Suspension -----

    /** A place to come back to, with the data bytes that follow it. */
    ghost predicate Marks(bm: Bookmark, r: seq<byte>)
      reads `available, `tail
    {
      && bm.getBuffer < Pow2(BIT_BUF_SIZE) && bm.bitsLeft <= BIT_BUF_SIZE
      && bm.pos <= available <= |input| && MarkerFirst(tail) && At(bm.pos, r)
    }

    method Save() returns (bm: Bookmark)
      requires Valid()
      ensures unread == 0 ==> Marks(bm, rest)
      ensures bm == Bookmark(pos, getBuffer, bitsLeft)
      ensures Ahead() == BitsOf(bm.getBuffer, bm.bitsLeft) + BytesToBits(rest)
    {
      bm := Bookmark(pos, getBuffer, bitsLeft);
    }

    /** Goes back, as after a suspension. */
    method Restore(bm: Bookmark, ghost r: seq<byte>)
      requires unread == 0 && Marks(bm, r)
      modifies `pos, `getBuffer, `bitsLeft, `rest
      ensures bm == Bookmark(pos, getBuffer, bitsLeft) && rest == r
      ensures Valid() && Ahead() == BitsOf(bm.getBuffer, bm.bitsLeft) + BytesToBits(r)
    {
      pos, getBuffer, bitsLeft, rest := bm.pos, bm.getBuffer, bm.bitsLeft, r;
    }

    /** The source delivers more of the input. */
    method Supply(n: nat)
      requires Valid()
      modifies `available
      ensures Valid() && Ahead() == old(Ahead())
      ensures available == if old(available) + n < |input| then old(available) + n else |input|
    {
      available := if available + n < |input| then available + n else |input|;
    }

    // ----- Restarts -----

    /** Skips what is left of the data up to the next marker.  Discarded data stay discarded if it has to wait. */
    method NextMarker() returns (ok: bool)
      requires Valid() && unread == 0
      modifies `pos, `unread, `rest
      ensures Valid() && |rest| <= |old(rest)|
      ensures !ok ==> unread == 0 && available < |input|
      ensures ok ==> unread != 0
    {
      hide Stuff, Pow2;
      while true
        invariant Valid() && |rest| <= |old(rest)| && unread == 0
        decreases |input| - pos
      {
        var f, q := NextByte(pos, rest);
        match f {
          case Suspended =>
            return false;
          case Marker(m) =>
            unread, pos := m, q;
            return true;
          case Data(c) =>
            rest, pos := rest[1..], q;
        }
      }
    }

    /** Throws away the padding of the last byte. */
    method DiscardBits()
      requires Valid() && |Ahead()| <= 7
      modifies `bitsLeft
      ensures Valid() && rest == [] && bitsLeft == 0 && Ahead() == []
    {
      hide Pow2, At, Behind;
      assert |BytesToBits(rest)| <= 7;
      bitsLeft := 0;
      assert BytesToBits([]) == [] && BitsOf(getBuffer, 0) == [];
    }

    /** Data are there again, unless a marker has been read already. */
    method ResumeData()
      requires Valid()
      modifies `insufficientData
      ensures Valid() && Ahead() == old(Ahead()) && (unread == 0 ==> !insufficientData)
    {
      if unread == 0 {
        insufficientData := false;
      }
    }

    /** Takes the restart marker with the given number, and with it the data of the next interval. */
    method ReadRestartMarker(num: nat, ghost next: seq<byte>, ghost end: seq<byte>) returns (ok: bool)
      requires Valid() && rest == [] && num < 8
      requires tail == [0xFF, RST0 + num] + (Stuff(next) + end) && MarkerFirst(end)
      modifies `pos, `unread, `rest, `tail
      ensures Valid() && unread == 0
      ensures !ok ==> available < |input| && rest == [] && tail == old(tail) && Ahead() == old(Ahead())
      ensures ok ==> rest == next && tail == end && (bitsLeft == 0 ==> Ahead() == BytesToBits(next))
    {
      hide Stuff;
      if unread == 0 {
        ok := NextMarker();
        if !ok {
          return;
        }
      }
      assert AfterFill(tail, 1) && tail[2..] == Stuff(next) + end;
      ghost var k: nat :| AfterFill(tail, k) && tail[k] == unread && input[pos..] == tail[k + 1..];
      assert k == 1 by { OneFill(tail, k, 1); }
      ok := unread == RST0 + num;
      if !ok {
        assert false;
      }
      unread := 0;
      rest, tail := next, end;
    }

    /** From the padding of one interval to the data of the next one; may have to wait. */
    method TakeRestart(num: nat, ghost next: seq<byte>, ghost end: seq<byte>) returns (ok: bool)
      requires Valid() && |Ahead()| <= 7 && num < 8
      requires tail == [0xFF, RST0 + num] + (Stuff(next) + end) && MarkerFirst(end)
      modifies `pos, `unread, `bitsLeft, `insufficientData, `rest, `tail
      ensures Valid()
      ensures ok ==> Ahead() == BytesToBits(next) && tail == end && !insufficientData
      ensures !ok ==> Ahead() == [] && tail == old(tail) && available < |input|
    {
      hide Valid, Ahead, Stuff, MarkerFirst;
      DiscardBits();
      ok := ReadRestartMarker(num, next, end);
      if ok {
        ResumeData();
      }
    }

    // ----- Taking bits -----

    lemma BufferField(n: nat)
      requires n <= bitsLeft
      ensures Field(getBuffer, n, bitsLeft - n) == Value(Ahead()[..n])
      ensures BitsOf(getBuffer, bitsLeft - n) + BytesToBits(rest) == Ahead()[n..]
    {
      hide Pow2, BitsOf, BytesToBits, Value, Field;
      BitField(getBuffer, n, bitsLeft - n);
      SplitAt(BitsOf(getBuffer, bitsLeft), BytesToBits(rest), n);
    }

    lemma SplitAt(a: seq<bit>, b: seq<bit>, n: nat)
      requires n <= |a|
      ensures (a + b)[..n] == a[..n] && (a + b)[n..] == a[n..] + b
    {
    }

    /** The next n bits as a number; the bit buffer must hold them. */
    method PeekBits(n: nat) returns (v: nat)
      requires n <= bitsLeft
      ensures v == Value(Ahead()[..n])
    {
      BufferField(n);
      v := Field(getBuffer, n, bitsLeft - n);
    }

    method DropBits(n: nat)
      requires Valid() && n <= bitsLeft
      modifies this`bitsLeft
      ensures Valid() && Ahead() == old(Ahead())[n..] && State() == Dropped(old(State()), n)
    {
      hide At, MarkerFirst, Pow2, BitsOf, BytesToBits, Value;
      BufferField(n);
      bitsLeft := bitsLeft - n;
    }

    /** Takes the next n bits, after refilling the buffer if necessary. */
    method GetBits(n: nat) returns (ok: bool, v: nat)
      requires Valid() && n <= 15 && n <= |Ahead()|
      modifies this`pos, this`unread, this`getBuffer, this`bitsLeft, this`insufficientData, this`rest
      ensures Valid() && insufficientData == old(insufficientData)
      ensures ok ==> v == Value(old(Ahead())[..n]) && Ahead() == old(Ahead())[n..]
      ensures ok ==> State() == Taken(input, old(State()), n)
      ensures !ok ==> available < |input| && unread == 0
      ensures old(unread) != 0 ==> ok && unread == old(unread)
    {
      ok, v := true, 0;
      if bitsLeft < n {
        ok := FillBitBuffer(n);
        if !ok {
          return;
        }
      }
      v := PeekBits(n);
      DropBits(n);
    }

    /** Drops the next n bits, after refilling the buffer if necessary. */
    method SkipBits(n: nat) returns (ok: bool)
      requires Valid() && n <= 15 && n <= |Ahead()|
      modifies this`pos, this`unread, this`getBuffer, this`bitsLeft, this`insufficientData, this`rest
      ensures Valid() && insufficientData == old(insufficientData)
      ensures ok ==> Ahead() == old(Ahead())[n..] && State() == Taken(input, old(State()), n)
      ensures !ok ==> available < |input| && unread == 0
      ensures old(unread) != 0 ==> ok && unread == old(unread)
    {
      ok := true;
      if bitsLeft < n {
        ok := FillBitBuffer(n);
        if !ok {
          return;
        }
      }
      DropBits(n);
    }

    // ----- Symbols -----

    /** Decodes a symbol bit by bit, after a first swoop of min bits. */
    method SlowDecode(d: DecoderTable, min: nat, ghost p: nat, ghost m: nat) returns (ok: bool, sym: byte)
      requires Valid() && Decodes(d.pub, d) && Starts(d.pub.bits, p, m, Ahead()) && 1 <= min <= m && min <= 9
      modifies this`pos, this`unread, this`getBuffer, this`bitsLeft, this`insufficientData, this`rest
      ensures Valid() && insufficientData == old(insufficientData)
      ensures ok ==> p < 256 && sym == d.pub.huffval[p] && Ahead() == old(Ahead())[m..]
      ensures ok ==> State() == TakenOnes(input, Taken(input, old(State()), min), m - min)
      ensures !ok ==> available < |input| && unread == 0
      ensures old(unread) != 0 ==> ok && unread == old(unread)
    {
      hide Decodes, Value, Valid, Ahead, Taken;
      ghost var s := Ahead();
      var code;
      sym := 0;
      ok, code := GetBits(min);
      if !ok {
        return;
      }
      var l := min;
      SerialStep(d.pub, d, p, m, s, l);
      TableSizes(d);
      while code > d.maxcode[l]
        invariant 1 <= l <= m <= 16 && code == Value(s[..l]) && Ahead() == s[l..]
        invariant Valid() && insufficientData == old(insufficientData)
        invariant l < m ==> code > d.maxcode[l]
        invariant l == m ==> code <= d.maxcode[l] && code + d.valoffset[l] == p < 256
        invariant TakenOnes(input, State(), m - l) == TakenOnes(input, Taken(input, old(State()), min), m - min)
        invariant old(unread) != 0 ==> unread == old(unread)
        decreases m - l
      {
        var b;
        ok, b := GetBits(1);
        if !ok {
          return;
        }
        NextBit(s, l);
        code := Or(2 * code, b);
        l := l + 1;
        SerialStep(d.pub, d, p, m, s, l);
      }
      if l > 16 {
        assert false;
      }
      sym := d.pub.huffval[code + d.valoffset[l]];
    }

    /** Decodes the symbol whose code comes next: by the lookahead table if it can, else bit by bit. */
    method HuffDecode(d: DecoderTable, ghost e: EncoderTable, ghost s: byte, ghost more: seq<bit>)
      returns (ok: bool, sym: byte)
      requires Valid() && Decodes(d.pub, d) && Encodes(d.pub, e) && e.ehufsi[s] > 0
      requires Ahead() == SymbolWord(e, s) + more
      modifies this`pos, this`unread, this`getBuffer, this`bitsLeft, this`insufficientData, this`rest
      ensures Valid() && insufficientData == old(insufficientData)
      ensures ok ==> sym == s && Ahead() == more && State() == CodeTaken(input, old(State()), e.ehufsi[s])
      ensures !ok ==> available < |input| && unread == 0
      ensures old(unread) != 0 ==> ok && unread == old(unread)
    {
      hide Valid, Ahead, State, Decodes, Encodes, Starts, Value, Word, SymbolWord, CodeTaken, Filled, Taken, TakenOnes,
           Dropped;
      ghost var p, m := SymbolAhead(d, e, s, more, Ahead());
      ghost var bits, before := Ahead(), State();
      StateFields();
      sym := 0;
      var nb := 1;
      if bitsLeft < HUFF_LOOKAHEAD {
        ok := FillBitBuffer(0);
        if !ok {
          return;
        }
      }
      BufferedBits();
      StateFields();
      CodeTakenFrom(input, before, State(), m);
      if bitsLeft >= HUFF_LOOKAHEAD {
        LookStep(d.pub, d, p, m, bits);
        var look := PeekBits(HUFF_LOOKAHEAD);
        if d.lookNbits[look] != 0 {
          DropBits(d.lookNbits[look]);
          sym := d.lookSym[look];
          return true, sym;
        }
        nb := HUFF_LOOKAHEAD + 1;
      }
      ok, sym := SlowDecode(d, nb, p, m);
    }

    lemma BufferedBits()
      ensures bitsLeft <= |Ahead()|
    {
    }

    lemma StateFields()
      ensures State() == BitState(pos, getBuffer, bitsLeft, unread)
    {
    }
  }

  /** What is ahead begins with the code word of the symbol. */
  lemma SymbolAhead(d: DecoderTable, e: EncoderTable, s: byte, more: seq<bit>, bits: seq<bit>) returns (p: nat, m: nat)
    requires Decodes(d.pub, d) && Encodes(d.pub, e) && e.ehufsi[s] > 0 && bits == SymbolWord(e, s) + more
    ensures 1 <= m == e.ehufsi[s] && m <= |bits| && bits[m..] == more
    ensures p < 256 && Starts(d.pub.bits, p, m, bits) && d.pub.huffval[p] == s
    ensures |d.maxcode| == 18 && |d.valoffset| == 17 && |d.lookNbits| == |d.lookSym| == |d.pub.huffval| == 256
  {
    p := SymbolIndex(d.pub, e, s);
    m := e.ehufsi[s];
    TableSizes(d);
    hide Decodes, Encodes, Word;
    assert |SymbolWord(e, s)| == m;
    assert bits[..m] == SymbolWord(e, s) && bits[m..] == more;
  }

  /** How a code word of m bits is taken once the buffer is refilled. */
  lemma CodeTakenFrom(input: seq<byte>, st: BitState, l: BitState, m: nat)
    requires m >= 1 && l == if st.bitsLeft < HUFF_LOOKAHEAD then Filled(input, st, 0) else st
    ensures l.bitsLeft < HUFF_LOOKAHEAD ==>
              CodeTaken(input, st, m) == TakenOnes(input, Taken(input, l, 1), m - 1)
    ensures l.bitsLeft >= HUFF_LOOKAHEAD && m <= HUFF_LOOKAHEAD ==> CodeTaken(input, st, m) == Dropped(l, m)
    ensures l.bitsLeft >= HUFF_LOOKAHEAD && m > HUFF_LOOKAHEAD ==>
              CodeTaken(input, st, m)
              == TakenOnes(input, Taken(input, l, HUFF_LOOKAHEAD + 1), m - (HUFF_LOOKAHEAD + 1))
  {
    hide Filled, Taken, TakenOnes, Dropped;
  }

  lemma NoneBuffered(bits: seq<bit>)
    ensures BitsOf(0, 0) + bits == bits
  {
    assert BitsOf(0, 0) == [];
  }

  lemma TableSizes(d: DecoderTable)
    requires Decodes(d.pub, d)
    ensures |d.maxcode| == 18 && |d.valoffset| == 17 && |d.lookNbits| == |d.lookSym| == |d.pub.huffval| == 256
  {
  }

  lemma NextBit(s: seq<bit>, l: nat)
    requires l < |s|
    ensures s[l..][1..] == s[l + 1..]
    ensures Or(2 * Value(s[..l]), Value(s[l..][..1])) == Value(s[..l + 1])
  {
    assert s[..l + 1][..l] == s[..l];
    assert s[l..][..1] == [s[l]];
    assert [s[l]][..0] == [];
    assert Value([s[l]]) == s[l];
    assert Pow2(1) == 2;
    OrDisjoint(Value(s[..l]), s[l], 1);
  }

  // ----- Symbols -----

  /** The bits begin with the code word of index p. */
  ghost predicate Starts(bits: Bits, p: nat, l: nat, s: seq<bit>) {
    SizeIs(bits, p, l) && l <= |s| && s[..l] == Word(bits, p, l)
  }

  /** The first bits of a code word are beyond the codes of their length; all of them are the code. */
  lemma SerialStep(t: Table, d: DecoderTable, p: nat, m: nat, s: seq<bit>, l: nat)
    requires Decodes(t, d) && Starts(t.bits, p, m, s) && 1 <= l <= m
    ensures l < m ==> Value(s[..l]) > d.maxcode[l]
    ensures l == m ==> Value(s[..l]) <= d.maxcode[l] && Value(s[..l]) + d.valoffset[l] == p < 256
  {
    TotalMono(t.bits, m, 16);
    CodeFits(t.bits, p, m);
    ValueOfBits(CodeAt(t.bits, p, m), m);
    assert s[..l] == s[..m][..l];
    assert LimitAt(t.bits, d.maxcode[l], d.valoffset[l], l);
    if l < m {
      LongerIsBeyond(t.bits, p, l, m);
    }
  }

  /** What the lookahead table says about the next eight bits. */
  lemma LookStep(t: Table, d: DecoderTable, p: nat, m: nat, s: seq<bit>)
    requires Decodes(t, d) && Starts(t.bits, p, m, s) && HUFF_LOOKAHEAD <= |s|
    ensures Value(s[..HUFF_LOOKAHEAD]) < 256 && p < 256
    ensures var v := Value(s[..HUFF_LOOKAHEAD]);
            if m <= HUFF_LOOKAHEAD then d.lookNbits[v] == m && d.lookSym[v] == t.huffval[p] else d.lookNbits[v] == 0
  {
    var w := s[..HUFF_LOOKAHEAD];
    var v := Value(w);
    BitsOfValue(w);
    Pow2Byte();
    TotalMono(t.bits, m, 16);
    assert LookAt(t, d.lookNbits[v], d.lookSym[v], v, Total(t.bits, HUFF_LOOKAHEAD)) by { TotalMono(t.bits, 8, 16); }
    hide Value, BitsOf, Pow2, LookAt, First, Total;
    if m <= HUFF_LOOKAHEAD {
      assert s[..m] == w[..m];
      PrefixValue(w, m);
      WordValue(t.bits, p, m);
      CoversBelow(t, p, m, v, d.lookNbits[v], d.lookSym[v]);
    } else if d.lookNbits[v] > 0 {
      var n := d.lookNbits[v];
      var q := CoveredBy(t, v, n, d.lookSym[v]);
      PrefixValue(w, n);
      assert w[..n] == s[..m][..n];
      LongerIsBeyond(t.bits, p, n, m);
      CodeFits(t.bits, q, n);
    }
  }

  lemma WordValue(bits: Bits, p: nat, l: nat)
    requires Legal(bits) && SizeIs(bits, p, l)
    ensures Value(Word(bits, p, l)) == CodeAt(bits, p, l)
  {
    CodeFits(bits, p, l);
    ValueOfBits(CodeAt(bits, p, l), l);
  }

  lemma CoversBelow(t: Table, p: nat, m: nat, v: nat, nbits: byte, sym: byte)
    requires TableOk(t) && Total(t.bits, 8) <= 256 && LookAt(t, nbits, sym, v, Total(t.bits, 8))
    requires Covers(t.bits, p, m, v)
    ensures p < 256 && nbits == m && sym == t.huffval[p]
  {
    TotalMono(t.bits, m, 8);
  }

  lemma CoveredBy(t: Table, v: nat, nbits: byte, sym: byte) returns (q: nat)
    requires TableOk(t) && Total(t.bits, 8) <= 256 && LookAt(t, nbits, sym, v, Total(t.bits, 8)) && nbits > 0
    ensures Covers(t.bits, q, nbits, v)
  {
    q :| 0 <= q < Total(t.bits, 8) && Covers(t.bits, q, nbits, v);
  }
}
