/** The tables derived from a Huffman table, as the encoder and the decoder build them. */
module HuffDerived {
  import opened Numbers
  import opened BitStrings
  import opened HuffTable

  /** A table as it is written to the file: counts of lengths, and the symbols in code order. */
  datatype Table = Table(bits: Bits, huffval: seq<byte>)

  ghost predicate TableOk(t: Table) {
    |t.huffval| == 256
  }

  const MAX_DC_SYMBOL := 15

  // ----- Sizes and codes, common to both sides -----

  /** The code lengths in code order, ended by a zero. */
  method FillSizes(bits: Bits) returns (ok: bool, huffsize: array<byte>, lastp: nat)
    ensures fresh(huffsize) && huffsize.Length == 257
    ensures ok <==> Total(bits, 16) <= 256
    ensures ok ==> lastp == Total(bits, 16) && Sized(bits, huffsize[..], lastp)
  {
    huffsize := new byte[257];
    lastp := 0;
    var l := 1;
    while l <= 16
      invariant 1 <= l <= 17 && lastp == Total(bits, l - 1) <= 256
      invariant forall p | 0 <= p < lastp :: SizeIs(bits, p, huffsize[p])
    {
      var i := bits[l];
      if lastp + i > 256 {
        TotalMono(bits, l, 16);
        return false, huffsize, lastp;
      }
      ghost var p0 := lastp;
      while i > 0
        invariant 0 <= i && p0 <= lastp && lastp + i == Total(bits, l) <= 256
        invariant forall p | 0 <= p < p0 :: SizeIs(bits, p, huffsize[p])
        invariant forall p | p0 <= p < lastp :: huffsize[p] == l
      {
        huffsize[lastp] := l;
        lastp := lastp + 1;
        i := i - 1;
      }
      l := l + 1;
    }
    huffsize[lastp] := 0;
    ok := true;
  }

  ghost predicate Sized(bits: Bits, huffsize: seq<byte>, lastp: nat) {
    && lastp < |huffsize|
    && huffsize[lastp] == 0
    && forall p | 0 <= p < lastp :: SizeIs(bits, p, huffsize[p])
  }

  /** The code of every index. */
  ghost predicate Coded(bits: Bits, huffsize: seq<byte>, huffcode: seq<nat>, lastp: nat) {
    && lastp <= |huffsize| && lastp <= |huffcode|
    && forall p | 0 <= p < lastp :: SizeIs(bits, p, huffsize[p]) && huffcode[p] == CodeAt(bits, p, huffsize[p])
  }

  /** Before the shortest code there are no codes at all. */
  lemma {:induction false} NoneBelow(bits: Bits, l: nat)
    requires l <= 16 && Total(bits, l) == 0
    ensures First(bits, l + 1) == 0
    ensures forall k | 1 <= k <= l :: bits[k] == 0 && First(bits, k) == 0
  {
    if l > 0 {
      NoneBelow(bits, l - 1);
    }
  }

  /** After the longest code the rest stays legal. */
  lemma {:induction false} NoneAbove(bits: Bits, l: nat, m: nat)
    requires 1 <= l <= m <= 16 && Fits(bits, l) && Total(bits, m) == Total(bits, l)
    ensures Fits(bits, m)
  {
    if l < m {
      TotalMono(bits, l, m - 1);
      NoneAbove(bits, l, m - 1);
    }
  }

  lemma LengthAt(bits: Bits, p: nat, l: nat, si: nat)
    requires SizeIs(bits, p, l) && 1 <= si <= 17 && Total(bits, si - 1) <= p
    ensures si <= l
    ensures si == l || Total(bits, si) <= p
  {
    if l < si {
      TotalMono(bits, l, si - 1);
    } else if si < l {
      TotalMono(bits, si, l - 1);
    }
  }

  /** Assigns the codes of one length in increasing order. */
  method CodesOfLength(bits: Bits, huffsize: array<byte>, huffcode: array<nat>, lastp: nat, p0: nat, code0: nat,
                       si: nat)
    returns (p: nat, code: nat)
    requires huffsize.Length == huffcode.Length == 257
    requires Sized(bits, huffsize[..], lastp) && lastp == Total(bits, 16)
    requires 1 <= si <= 16 && p0 == Total(bits, si - 1) && code0 == First(bits, si)
    requires Coded(bits, huffsize[..], huffcode[..], p0)
    modifies huffcode
    ensures p == Total(bits, si) && code == First(bits, si) + bits[si]
    ensures Coded(bits, huffsize[..], huffcode[..], p)
  {
    p, code := p0, code0;
    TotalMono(bits, si, 16);
    ghost var sizes := huffsize[..];
    while huffsize[p] == si
      invariant p0 <= p <= Total(bits, si) && code - code0 == p - p0
      invariant forall q | 0 <= q < p :: SizeIs(bits, q, sizes[q]) && huffcode[q] == CodeAt(bits, q, sizes[q])
      decreases Total(bits, si) - p
    {
      assert sizes[p] == si;
      huffcode[p] := code;
      p := p + 1;
      code := code + 1;
    }
    assert sizes[p] != si;
    if p < Total(bits, si) {
      SizeUnique(bits, p, si, sizes[p]);
    }
  }

  /** Lengths without codes fit. */
  lemma AllFit(bits: Bits, lastp: nat, si: nat)
    requires lastp == Total(bits, 16) <= 256
    requires lastp > 0 ==> 1 < si <= 17 && Total(bits, si - 1) == lastp && forall l | 1 <= l < si :: Fits(bits, l)
    ensures Legal(bits)
  {
    if lastp == 0 {
      NoneBelow(bits, 16);
    }
    forall l | 1 <= l <= 16 ensures Fits(bits, l) {
      TotalMono(bits, l, 16);
      if lastp > 0 && l >= si {
        TotalMono(bits, si - 1, l);
        NoneAbove(bits, si - 1, l);
      }
    }
  }

  lemma NextFirst(bits: Bits, l: nat)
    requires 1 <= l <= 16
    ensures First(bits, l + 1) == 2 * (First(bits, l) + bits[l])
  {
  }

  lemma NotLegal(bits: Bits, l: nat)
    requires 1 <= l <= 16 && !Fits(bits, l)
    ensures !Legal(bits)
  {
  }

  method GenerateCodes(bits: Bits, huffsize: array<byte>, lastp: nat) returns (ok: bool, huffcode: array<nat>)
    requires huffsize.Length == 257 && Sized(bits, huffsize[..], lastp)
    requires lastp == Total(bits, 16) <= 256
    ensures fresh(huffcode) && huffcode.Length == 257
    ensures ok <==> Legal(bits)
    ensures ok ==> Coded(bits, huffsize[..], huffcode[..], lastp)
  {
    hide First, Total, Pow2, Legal;
    huffcode := new nat[257](_ => 0);
    var code, si, p := 0, huffsize[0] as nat, 0;
    ghost var sizes := huffsize[..];
    if lastp > 0 {
      assert SizeIs(bits, 0, sizes[0]);
      NoneBelow(bits, si - 1);
    }
    while huffsize[p] != 0
      invariant huffsize[..] == sizes && p <= lastp
      invariant lastp == 0 ==> p == si == 0
      invariant lastp > 0 ==> 1 <= si <= 17 && p == Total(bits, si - 1) && code == First(bits, si)
      invariant lastp > 0 ==> forall l | 1 <= l < si :: Fits(bits, l)
      invariant Coded(bits, sizes, huffcode[..], p)
      decreases 17 - si
    {
      assert sizes[p] != 0;
      assert SizeIs(bits, p, sizes[p]);
      LengthAt(bits, p, sizes[p], si);
      NextFirst(bits, si);
      p, code := CodesOfLength(bits, huffsize, huffcode, lastp, p, code, si);
      if code >= Pow2(si) {
        assert !Fits(bits, si);
        NotLegal(bits, si);
        return false, huffcode;
      }
      assert Fits(bits, si);
      code := 2 * code;
      si := si + 1;
      TotalMono(bits, si - 1, 16);
    }
    ok := true;
    assert sizes[p] == 0;
    assert p == lastp;
    AllFit(bits, lastp, si);
  }

  // ----- The encoder's table -----

  /** Codes and sizes indexed by symbol; a size of zero means the symbol has no code. */
  datatype EncoderTable = EncoderTable(ehufco: seq<nat>, ehufsi: seq<byte>)

  ghost predicate SymbolsBelow(t: Table, max: nat)
    requires TableOk(t) && Total(t.bits, 16) <= 256
  {
    forall p | 0 <= p < Total(t.bits, 16) :: t.huffval[p] <= max
  }

  ghost predicate NoDuplicates(t: Table)
    requires TableOk(t) && Total(t.bits, 16) <= 256
  {
    forall p, q | 0 <= p < q < Total(t.bits, 16) :: t.huffval[p] != t.huffval[q]
  }

  /** What the encoder accepts. */
  ghost predicate Encodable(t: Table, isDC: bool) {
    TableOk(t) && Legal(t.bits) && NoDuplicates(t) && SymbolsBelow(t, if isDC then MAX_DC_SYMBOL else 255)
  }

  /** Exactly the first n symbols of the table have codes, and each has its own. */
  ghost predicate EncodesFirst(t: Table, e: EncoderTable, n: nat)
    requires TableOk(t)
  {
    && |e.ehufco| == |e.ehufsi| == 256 && n <= 256
    && (forall p | 0 <= p < n :: CodedAs(t, p, e.ehufco[t.huffval[p]], e.ehufsi[t.huffval[p]]))
    && (forall s | 0 <= s < 256 && e.ehufsi[s] > 0 :: Listed(t, s, n))
  }

  ghost predicate CodedAs(t: Table, p: nat, co: nat, si: nat) {
    SizeIs(t.bits, p, si) && co == CodeAt(t.bits, p, si)
  }

  ghost predicate Listed(t: Table, s: int, n: nat)
    requires TableOk(t) && n <= 256
  {
    exists p :: 0 <= p < n && t.huffval[p] == s
  }

  ghost predicate Encodes(t: Table, e: EncoderTable) {
    TableOk(t) && Legal(t.bits) && EncodesFirst(t, e, Total(t.bits, 16))
  }

  /** The encoder's table, or a refusal: illegal lengths, a symbol out of range or a symbol listed twice. */
  method MakeEncoderTable(t: Table, isDC: bool) returns (ok: bool, e: EncoderTable)
    requires TableOk(t)
    ensures ok <==> Encodable(t, isDC)
    ensures ok ==> Encodes(t, e)
  {
    e := EncoderTable([], []);
    var huffsize, lastp, huffcode;
    ok, huffsize, lastp := FillSizes(t.bits);
    if !ok {
      return;
    }
    ok, huffcode := GenerateCodes(t.bits, huffsize, lastp);
    if !ok {
      return;
    }
    ok, e := IndexBySymbol(t, isDC, huffsize, huffcode, lastp);
  }

  /** The code of every index, filed under its symbol. */
  method IndexBySymbol(t: Table, isDC: bool, huffsize: array<byte>, huffcode: array<nat>, lastp: nat)
    returns (ok: bool, e: EncoderTable)
    requires TableOk(t) && Legal(t.bits) && lastp == Total(t.bits, 16)
    requires Coded(t.bits, huffsize[..], huffcode[..], lastp)
    ensures ok <==> Encodable(t, isDC)
    ensures ok ==> Encodes(t, e)
  {
    hide EncodesFirst, SizeIs, CodeAt, Total;
    var ehufco := new nat[256](_ => 0);
    var ehufsi := new byte[256](_ => 0);
    var maxsymbol: byte := if isDC then MAX_DC_SYMBOL else 255;
    var p := 0;
    ghost var sizes, codes := huffsize[..], huffcode[..];
    e := EncoderTable(ehufco[..], ehufsi[..]);
    NoneListed(t, e);
    while p < lastp
      invariant |ehufco[..]| == |ehufsi[..]| == 256
      invariant p <= lastp && huffsize[..] == sizes && huffcode[..] == codes
      invariant EncodesFirst(t, EncoderTable(ehufco[..], ehufsi[..]), p)
      invariant forall q | 0 <= q < p :: t.huffval[q] <= maxsymbol
      invariant forall q, r | 0 <= q < r < p :: t.huffval[q] != t.huffval[r]
    {
      ghost var before := EncoderTable(ehufco[..], ehufsi[..]);
      var i := t.huffval[p];
      assert SizeIs(t.bits, p, sizes[p]);
      ListedIfCoded(t, before, i, p);
      if i > maxsymbol || ehufsi[i] != 0 {
        return false, e;
      }
      ehufco[i] := huffcode[p];
      ehufsi[i] := huffsize[p];
      ListedMore(t, before, i, codes[p], sizes[p], p);
      assert ehufco[..] == before.ehufco[i as int := codes[p]];
      assert ehufsi[..] == before.ehufsi[i as int := sizes[p]];
      p := p + 1;
    }
    ok, e := true, EncoderTable(ehufco[..], ehufsi[..]);
  }

  lemma NoneListed(t: Table, e: EncoderTable)
    requires TableOk(t) && |e.ehufco| == |e.ehufsi| == 256
    requires forall s | 0 <= s < 256 :: e.ehufsi[s] == 0
    ensures EncodesFirst(t, e, 0)
  {
  }

  lemma ListedIfCoded(t: Table, e: EncoderTable, s: byte, n: nat)
    requires TableOk(t) && n <= 256 && EncodesFirst(t, e, n)
    ensures e.ehufsi[s] > 0 <==> Listed(t, s, n)
  {
    forall q | 0 <= q < n ensures e.ehufsi[t.huffval[q]] > 0 {
      assert CodedAs(t, q, e.ehufco[t.huffval[q]], e.ehufsi[t.huffval[q]]);
    }
  }

  lemma ListedMore(t: Table, e: EncoderTable, i: byte, co: nat, si: byte, p: nat)
    requires TableOk(t) && p < 256 && EncodesFirst(t, e, p) && t.huffval[p] == i
    requires CodedAs(t, p, co, si)
    requires forall q | 0 <= q < p :: t.huffval[q] != i
    ensures EncodesFirst(t, EncoderTable(e.ehufco[i as int := co], e.ehufsi[i as int := si]), p + 1)
  {
    var e' := EncoderTable(e.ehufco[i as int := co], e.ehufsi[i as int := si]);
    forall s | 0 <= s < 256 && e'.ehufsi[s] > 0 ensures Listed(t, s, p + 1) {
      if s != i {
        assert Listed(t, s, p);
      }
    }
    forall q | 0 <= q < p + 1 ensures CodedAs(t, q, e'.ehufco[t.huffval[q]], e'.ehufsi[t.huffval[q]]) {
      assert q < p ==> CodedAs(t, q, e.ehufco[t.huffval[q]], e.ehufsi[t.huffval[q]]);
    }
  }

  /** The bits sent for a symbol. */
  ghost function SymbolWord(e: EncoderTable, s: byte): (w: seq<bit>)
    requires |e.ehufco| == |e.ehufsi| == 256
    ensures |w| == e.ehufsi[s]
  {
    BitsOf(e.ehufco[s], e.ehufsi[s])
  }

  /** The index at which a symbol with a code is listed. */
  lemma SymbolIndex(t: Table, e: EncoderTable, s: byte) returns (p: nat)
    requires Encodes(t, e) && e.ehufsi[s] > 0
    ensures SizeIs(t.bits, p, e.ehufsi[s]) && p < 256 && t.huffval[p] == s
    ensures SymbolWord(e, s) == Word(t.bits, p, e.ehufsi[s])
  {
    assert Listed(t, s, Total(t.bits, 16));
    p :| 0 <= p < Total(t.bits, 16) && t.huffval[p] == s;
    assert CodedAs(t, p, e.ehufco[t.huffval[p]], e.ehufsi[t.huffval[p]]);
  }

  /** The encoder's codes are a prefix code without an all-ones word. */
  lemma SymbolsPrefixFree(t: Table, e: EncoderTable, a: byte, b: byte)
    requires Encodes(t, e) && e.ehufsi[a] > 0 && e.ehufsi[b] > 0 && a != b
    ensures !(SymbolWord(e, a) <= SymbolWord(e, b))
    ensures exists i :: 0 <= i < |SymbolWord(e, a)| && SymbolWord(e, a)[i] == 0
  {
    var p := SymbolIndex(t, e, a);
    var q := SymbolIndex(t, e, b);
    WordsPrefixFree(t.bits, p, e.ehufsi[a], q, e.ehufsi[b]);
    WordNotAllOnes(t.bits, p, e.ehufsi[a]);
  }

  // ----- The decoder's tables -----

  const HUFF_LOOKAHEAD := 8
  const SENTINEL := 0xFFFFF

  datatype DecoderTable = DecoderTable(pub: Table, maxcode: seq<int>, valoffset: seq<int>,
                                       lookNbits: seq<byte>, lookSym: seq<byte>)

  /** The largest code of a length, and where its symbols are. */
  ghost predicate LimitAt(bits: Bits, maxcode: int, valoffset: int, l: nat)
    requires 1 <= l <= 16
  {
    if bits[l] == 0 then
      maxcode == -1
    else
      maxcode == First(bits, l) + bits[l] - 1 && valoffset == Total(bits, l - 1) - First(bits, l)
  }

  ghost predicate Limits(bits: Bits, maxcode: seq<int>, valoffset: seq<int>, n: nat)
    requires n <= 17
  {
    && |maxcode| == 18 && |valoffset| == 17
    && forall l | 1 <= l < n :: LimitAt(bits, maxcode[l], valoffset[l], l)
  }

  /** The eight bits v begin with the code of index p, of length l. */
  ghost predicate Covers(bits: Bits, p: nat, l: nat, v: nat) {
    l <= HUFF_LOOKAHEAD && SizeIs(bits, p, l) && v / Pow2(HUFF_LOOKAHEAD - l) == CodeAt(bits, p, l)
  }

  lemma CoversUnique(bits: Bits, p: nat, l: nat, q: nat, m: nat, v: nat)
    requires Legal(bits) && Covers(bits, p, l, v) && Covers(bits, q, m, v)
    ensures p == q && l == m
  {
    if p == q {
      SizeUnique(bits, p, l, m);
    } else if l == m {
      SizeOrder(bits, p, l, q, m);
    } else if l < m {
      CoversOnce(bits, p, l, q, m, v);
    } else {
      CoversOnce(bits, q, m, p, l, v);
    }
  }

  lemma CoversOnce(bits: Bits, p: nat, l: nat, q: nat, m: nat, v: nat)
    requires Legal(bits) && l < m && Covers(bits, p, l, v)
    ensures !Covers(bits, q, m, v)
  {
    CodeFits(bits, p, l);
    hide First, Total, Legal, SizeIs, CodeAt, Pow2, Value, Word;
    if Covers(bits, q, m, v) {
      LongerIsBeyond(bits, q, l, m);
      QuotientChain(v, l, m);
    }
  }

  lemma QuotientChain(v: nat, l: nat, m: nat)
    requires l <= m <= 8
    ensures v / Pow2(8 - m) / Pow2(m - l) == v / Pow2(8 - l)
  {
    Pow2Add(8 - m, m - l);
    hide Pow2;
    QuotientTwice(v, Pow2(8 - m), Pow2(m - l));
  }

  lemma QuotientTwice(v: nat, a: nat, b: nat)
    requires a >= 1 && b >= 1
    ensures a * b >= 1 && v / a / b == v / (a * b)
  {
    assert a * b >= 1;
    var q := v / a / b;
    var r := v / a % b;
    assert v / a == b * q + r;
    assert v == a * (v / a) + v % a;
    assert a * (b * q + r) == a * b * q + a * r;
    MulMono(r, b - 1, a);
    assert a * (b - 1) == a * b - a;
    DivModUnique(v, a * b, q, a * r + v % a);
  }

  /** Entry v of the lookahead table, when the codes before index n are filed. */
  ghost predicate LookAt(t: Table, nbits: byte, sym: byte, v: nat, n: nat)
    requires TableOk(t) && n <= 256
  {
    && (nbits > 0 ==> exists p :: 0 <= p < n && Covers(t.bits, p, nbits, v))
    && forall p, l | 0 <= p < n && Covers(t.bits, p, l, v) :: nbits == l && sym == t.huffval[p]
  }

  ghost predicate LookFirst(t: Table, nbits: seq<byte>, syms: seq<byte>, n: nat)
    requires TableOk(t) && n <= 256
  {
    |nbits| == |syms| == 256 && forall v | 0 <= v < 256 :: LookAt(t, nbits[v], syms[v], v, n)
  }

  /** The codes of up to eight bits are filed; an empty entry belongs to longer codes only. */
  ghost predicate Looks(t: Table, nbits: seq<byte>, syms: seq<byte>)
    requires TableOk(t) && Total(t.bits, 16) <= 256
  {
    TotalMono(t.bits, 8, 16);
    LookFirst(t, nbits, syms, Total(t.bits, HUFF_LOOKAHEAD))
  }

  ghost predicate Decodes(t: Table, d: DecoderTable) {
    && TableOk(t) && Legal(t.bits) && d.pub == t
    && Limits(t.bits, d.maxcode, d.valoffset, 17) && d.maxcode[17] == SENTINEL
    && Looks(t, d.lookNbits, d.lookSym)
  }

  /** The limits for bit-serial decoding. */
  method FillLimits(bits: Bits, huffsize: array<byte>, huffcode: array<nat>)
    returns (maxcode: array<int>, valoffset: array<int>)
    requires Legal(bits) && Coded(bits, huffsize[..], huffcode[..], Total(bits, 16))
    ensures Limits(bits, maxcode[..], valoffset[..], 17) && maxcode[17] == SENTINEL
    ensures fresh(maxcode) && fresh(valoffset)
  {
    maxcode, valoffset := new int[18], new int[17];
    var p: nat, l: nat := 0, 1;
    ghost var sizes, codes := huffsize[..], huffcode[..];
    while l <= 16
      invariant 1 <= l <= 17 && p == Total(bits, l - 1)
      invariant Limits(bits, maxcode[..], valoffset[..], l)
      invariant huffcode[..] == codes
    {
      if bits[l] != 0 {
        TotalMono(bits, l, 16);
        CodedAt(bits, sizes, codes, p, l);
        CodedAt(bits, sizes, codes, p + bits[l] - 1, l);
        assert huffcode[p] == codes[p];
        valoffset[l] := p - huffcode[p];
        p := p + bits[l];
        assert huffcode[p - 1] == codes[p - 1];
        maxcode[l] := huffcode[p - 1];
      } else {
        maxcode[l] := -1;
      }
      l := l + 1;
    }
    maxcode[17] := SENTINEL;
  }

  lemma CodedAt(bits: Bits, sizes: seq<byte>, codes: seq<nat>, p: nat, l: nat)
    requires Coded(bits, sizes, codes, Total(bits, 16)) && SizeIs(bits, p, l)
    ensures p < Total(bits, 16) && codes[p] == CodeAt(bits, p, l)
  {
    TotalMono(bits, l, 16);
    SizeUnique(bits, p, l, sizes[p]);
  }

  /** All bit patterns that begin with the code of index p. */
  method FileCode(t: Table, p: nat, l: nat, code: nat, nbits: array<byte>, syms: array<byte>)
    requires TableOk(t) && Legal(t.bits) && p < 256
    requires SizeIs(t.bits, p, l) && l <= HUFF_LOOKAHEAD && code == CodeAt(t.bits, p, l)
    requires nbits.Length == syms.Length == 256 && nbits != syms && LookFirst(t, nbits[..], syms[..], p)
    modifies nbits, syms
    ensures LookFirst(t, nbits[..], syms[..], p + 1)
  {
    hide LookFirst, SizeIs, Legal, CodeAt, Pow2;
    var span := Pow2(HUFF_LOOKAHEAD - l);
    var lookbits := code * span;
    ghost var start, nbits0, syms0 := lookbits, nbits[..], syms[..];
    FiledRange(t.bits, p, l, code);
    var ctr := span;
    while ctr > 0
      invariant 0 <= ctr <= span && lookbits + ctr == start + span <= 256
      invariant forall v | 0 <= v < 256 ::
                  if start <= v < lookbits then
                    nbits[v] == l && syms[v] == t.huffval[p]
                  else
                    nbits[v] == nbits0[v] && syms[v] == syms0[v]
    {
      nbits[lookbits] := l;
      syms[lookbits] := t.huffval[p];
      lookbits := lookbits + 1;
      ctr := ctr - 1;
    }
    Filed(t, p, l, start, nbits0, syms0, nbits[..], syms[..]);
  }

  lemma Filed(t: Table, p: nat, l: nat, start: nat, nbits: seq<byte>, syms: seq<byte>, nbits': seq<byte>,
              syms': seq<byte>)
    requires TableOk(t) && Legal(t.bits) && p < 256 && SizeIs(t.bits, p, l) && l <= HUFF_LOOKAHEAD
    requires LookFirst(t, nbits, syms, p) && |nbits'| == |syms'| == 256
    requires start == CodeAt(t.bits, p, l) * Pow2(HUFF_LOOKAHEAD - l)
    requires forall v | 0 <= v < 256 ::
               if start <= v < start + Pow2(HUFF_LOOKAHEAD - l) then
                 nbits'[v] == l && syms'[v] == t.huffval[p]
               else
                 nbits'[v] == nbits[v] && syms'[v] == syms[v]
    ensures LookFirst(t, nbits', syms', p + 1)
  {
    CodeFits(t.bits, p, l);
    hide LookAt, Pow2, CodeAt, First, Total, Legal;
    forall v | 0 <= v < 256 ensures LookAt(t, nbits'[v], syms'[v], v, p + 1) {
      FiledAt(t, p, l, v, nbits[v], syms[v]);
      QuotientRange(v, CodeAt(t.bits, p, l), Pow2(HUFF_LOOKAHEAD - l));
    }
  }

  lemma QuotientRange(v: nat, c: nat, k: nat)
    requires k >= 1
    ensures v / k == c <==> c * k <= v < c * k + k
  {
    assert v == k * (v / k) + v % k;
    if v / k < c {
      MulMono(v / k + 1, c, k);
    } else if v / k > c {
      MulMono(c + 1, v / k, k);
    }
  }

  lemma FiledRange(bits: Bits, p: nat, l: nat, code: nat)
    requires Legal(bits) && SizeIs(bits, p, l) && l <= HUFF_LOOKAHEAD && code == CodeAt(bits, p, l)
    ensures code * Pow2(HUFF_LOOKAHEAD - l) + Pow2(HUFF_LOOKAHEAD - l) <= 256
  {
    CodeFits(bits, p, l);
    Pow2Add(l, HUFF_LOOKAHEAD - l);
    Pow2Byte();
    MulMono(code + 1, Pow2(l), Pow2(HUFF_LOOKAHEAD - l));
  }

  lemma FiledAt(t: Table, p: nat, l: nat, v: nat, nbits: byte, sym: byte)
    requires TableOk(t) && Legal(t.bits) && p < 256 && SizeIs(t.bits, p, l)
    requires LookAt(t, nbits, sym, v, p)
    ensures Covers(t.bits, p, l, v) ==> LookAt(t, l, t.huffval[p], v, p + 1)
    ensures !Covers(t.bits, p, l, v) ==> LookAt(t, nbits, sym, v, p + 1)
  {
    hide Covers;
    if Covers(t.bits, p, l, v) {
      forall q, m | 0 <= q < p + 1 && Covers(t.bits, q, m, v) ensures m == l && t.huffval[q] == t.huffval[p] {
        CoversUnique(t.bits, p, l, q, m, v);
      }
    } else {
      forall q, m | 0 <= q < p + 1 && Covers(t.bits, q, m, v) ensures q < p {
        CoversSize(t.bits, q, m, v);
        if q == p {
          SizeUnique(t.bits, p, l, m);
        }
      }
    }
  }

  lemma CoversSize(bits: Bits, q: nat, m: nat, v: nat)
    requires Covers(bits, q, m, v)
    ensures SizeIs(bits, q, m)
  {
  }

  method FillLookahead(t: Table, huffsize: array<byte>, huffcode: array<nat>)
    returns (nbits: array<byte>, syms: array<byte>)
    requires TableOk(t) && Legal(t.bits) && Coded(t.bits, huffsize[..], huffcode[..], Total(t.bits, 16))
    ensures Looks(t, nbits[..], syms[..])
    ensures fresh(nbits) && fresh(syms)
  {
    nbits, syms := new byte[256](_ => 0), new byte[256](_ => 0);
    ghost var sizes, codes := huffsize[..], huffcode[..];
    var p: nat, l: nat := 0, 1;
    TotalMono(t.bits, 8, 16);
    while l <= HUFF_LOOKAHEAD
      invariant 1 <= l <= HUFF_LOOKAHEAD + 1 && p == Total(t.bits, l - 1) <= 256
      invariant huffcode[..] == codes && nbits != syms && fresh(nbits) && fresh(syms)
      invariant LookFirst(t, nbits[..], syms[..], p)
    {
      TotalMono(t.bits, l, 8);
      var i: nat := 1;
      while i <= t.bits[l]
        invariant 1 <= i && i - 1 <= t.bits[l] && p == Total(t.bits, l - 1) + (i - 1)
        invariant huffcode[..] == codes && nbits != syms && fresh(nbits) && fresh(syms)
        invariant LookFirst(t, nbits[..], syms[..], p)
      {
        CodedAt(t.bits, sizes, codes, p, l);
        assert huffcode[p] == codes[p];
        FileCode(t, p, l, huffcode[p], nbits, syms);
        i, p := i + 1, p + 1;
      }
      l := l + 1;
    }
  }

  /** The decoder's tables, or a refusal: illegal lengths, or a DC symbol out of range. */
  method MakeDecoderTable(t: Table, isDC: bool) returns (ok: bool, d: DecoderTable)
    requires TableOk(t)
    ensures ok <==> Legal(t.bits) && (isDC ==> SymbolsBelow(t, MAX_DC_SYMBOL))
    ensures ok ==> Decodes(t, d)
  {
    d := DecoderTable(t, [], [], [], []);
    var huffsize, lastp, huffcode;
    ok, huffsize, lastp := FillSizes(t.bits);
    if !ok {
      return;
    }
    ok, huffcode := GenerateCodes(t.bits, huffsize, lastp);
    if !ok {
      return;
    }
    var maxcode, valoffset := FillLimits(t.bits, huffsize, huffcode);
    var nbits, syms := FillLookahead(t, huffsize, huffcode);
    d := DecoderTable(t, maxcode[..], valoffset[..], nbits[..], syms[..]);
    if isDC {
      var i := 0;
      while i < lastp
        invariant i <= lastp && forall p | 0 <= p < i :: t.huffval[p] <= MAX_DC_SYMBOL
      {
        if t.huffval[i] > MAX_DC_SYMBOL {
          return false, d;
        }
        i := i + 1;
      }
    }
  }
}
