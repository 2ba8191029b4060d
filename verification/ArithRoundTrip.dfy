/** The arithmetic encoder and decoder joined by the bytes between them. */
module ArithRoundTrip {
  import opened Numbers
  import opened Stuffing
  import opened IntervalCoder
  import opened ArithModel
  import opened ArithScan
  import opened RestartIntervals
  import opened ArithIntervals
  import E = ArithEncoder
  import D = ArithDecoder
  import SE = ArithScanEncoder
  import SD = ArithScanDecoder

  lemma DataThenMarker(code: seq<byte>)
    ensures D.DataAhead(Stuff(code) + EOI, 0, |Stuff(code)| + 2, code, 0)
  {
    assert (Stuff(code) + EOI)[0..|Stuff(code)| + 2] == Stuff(code[0..]) + D.MarkerBytes(0, 0xD9);
  }

  /** The bytes of one segment that codes the decisions ds. */
  method CodeSegment(ds: seq<Decision>) returns (bytes: seq<byte>, ghost code: seq<byte>)
    requires forall i | 0 <= i < |ds| :: Allocated(ds[i].bin)
    ensures Segment(bytes, code, ds) && bytes == Stuff(code) + EOI
  {
    hide Stuff, Code, Contains, Areas, CodeAll, Allocated, E.ArithEncoder.Valid, E.ArithEncoder.State;
    var enc := new E.ArithEncoder(Areas());
    enc.Fields();
    ghost var start := enc.State();
    CodeAllNone(start);
    for i := 0 to |ds|
      invariant enc.Valid() && enc.header == [] && fresh(enc)
      invariant Known(start.stats, ds[..i]) && enc.State() == CodeAll(start, ds[..i])
    {
      enc.Fields();
      CodeAllSnoc(start, ds[..i], ds[i]);
      assert ds[..i + 1] == ds[..i] + [ds[i]];
      enc.Encode(ds[i].bin, ds[i].val);
    }
    assert ds[..|ds|] == ds;
    enc.Fields();
    code := enc.FinishPass();
    bytes := enc.output + EOI;
    NoHeader(code);
  }

  lemma NoHeader(code: seq<byte>)
    ensures [] + Stuff(code) == Stuff(code)
  {
  }

  lemma CodeAllNone(k: Coder)
    requires Ready(k)
    ensures CodeAll(k, []) == k
  {
  }

  lemma CodeAllSnoc(k: Coder, ds: seq<Decision>, d: Decision)
    requires Ready(k) && Known(k.stats, ds) && d.bin in k.stats
    ensures Known(k.stats, ds + [d])
    ensures CodeAll(k, ds + [d]) == Code(CodeAll(k, ds), d)
  {
    hide Code, StatsOk, Normal;
    assert Known(k.stats, [d]);
    CodeAllAppend(k, ds, [d]);
    SE.CodeAllOne(CodeAll(k, ds), d);
  }

  /** The log of an encoder and the data it leads to. */
  ghost predicate Segment(bytes: seq<byte>, code: seq<byte>, ds: seq<Decision>) {
    && bytes == Stuff(code) + EOI
    && CarriesDecisions(ds, code)
  }

  method OpenSegment(bytes: seq<byte>, ghost code: seq<byte>, ghost ds: seq<Decision>) returns (dec: D.ArithDecoder)
    requires Segment(bytes, code, ds)
    ensures dec.Valid() && fresh(dec) && dec.pending == ds
  {
    hide Stuff, CodeAll, Contains, Areas, D.DataAhead;
    DataThenMarker(code);
    dec := new D.ArithDecoder(bytes);
    dec.StartPass(Areas(), |bytes|, code, ds);
  }

  /** What a decoder makes of the bytes when it asks for the bins in the same order. */
  method DecodeSegment(bytes: seq<byte>, bins: seq<Bin>, ghost code: seq<byte>, ghost ds: seq<Decision>)
    returns (vals: seq<bit>)
    requires Segment(bytes, code, ds)
    requires |bins| == |ds| && forall i | 0 <= i < |ds| :: ds[i].bin == bins[i]
    ensures |vals| == |ds| && forall i | 0 <= i < |ds| :: vals[i] == ds[i].val
  {
    hide Segment, D.ArithDecoder.Valid, Code;
    var dec := OpenSegment(bytes, code, ds);
    vals := [];
    for i := 0 to |bins|
      invariant dec.Valid() && fresh(dec) && dec.pending == ds[i..]
      invariant |vals| == i && forall j | 0 <= j < i :: vals[j] == ds[j].val
    {
      var val := dec.Decode(bins[i]);
      vals := vals + [val];
    }
  }

  /** Any decisions, on any bins, come back as they were coded. */
  method TransmitDecisions(ds: seq<Decision>) returns (bytes: seq<byte>, vals: seq<bit>, ghost code: seq<byte>)
    requires forall i | 0 <= i < |ds| :: Allocated(ds[i].bin)
    ensures |vals| == |ds| && forall i | 0 <= i < |ds| :: vals[i] == ds[i].val
    ensures Segment(bytes, code, ds) && MarkersOk(bytes, false)
  {
    hide Stuff, MarkersOk, Segment;
    bytes, code := CodeSegment(ds);
    SegmentMarkers(code);
    vals := DecodeSegment(bytes, seq(|ds|, i requires 0 <= i < |ds| => ds[i].bin), code, ds);
  }

  lemma SegmentMarkers(code: seq<byte>)
    ensures MarkersOk(Stuff(code) + EOI, false)
  {
    ScanMarkers([code]);
    assert ScanBytes([code]) == Stuff(code) + EOI;
  }

  /** One whole scan with its restart intervals: the blocks at the decoder afterwards.  An
      interval is restored exactly if it codes no DC difference above 2^15. */
  method TransmitScan(cond: Conditioning, sc: Scan, pl: Plan, ci: seq<compNo>,
                      src: seq<array<coef>>, dst: seq<array<coef>>)
    returns (bytes: seq<byte>, ok: bool)
    requires ScanOk(sc) && PlanOk(pl) && |ci| == |src| == |dst|
    requires forall i | 0 <= i < |src| :: src[i].Length == 64 && dst[i].Length == 64
    requires forall i, j | 0 <= i < j < |dst| :: dst[i] != dst[j]
    requires forall i, j | 0 <= i < |src| && 0 <= j < |dst| :: src[i] != dst[j]
    requires forall i | 0 <= i < |src| :: InRange(src[i][..]) && Prepared(sc, dst[i][..], src[i][..])
    modifies set i | 0 <= i < |dst| :: dst[i]
    ensures MarkersOk(bytes, pl.restart != 0) && UnitsOk(SE.Units(ci, src))
    ensures ok <==> RestorableTo(cond, sc, pl, SE.Units(ci, src), |src|)
    ensures forall i | 0 <= i < |dst| && Restorable(cond, sc, pl, SE.Units(ci, src), i) ::
              Received(sc, old(dst[i][..]), dst[i][..], src[i][..])
  {
    hide Stuff, MarkersOk, ScanDecisions, RestorableTo, Restorable, Prepared, Received, InRange, ScanOk, CarriesAll,
         ScanBytes;
    ghost var codes;
    bytes, codes := CodeScan(cond, sc, pl, ci, src);
    var dec := new D.ArithDecoder(bytes);
    var scan := new SD.ScanDecoder(dec, cond, pl.restart);
    ok := scan.DecodeScan(sc, ci, dst, pl.mcu, SE.Units(ci, src), codes);
  }

  method CodeScan(cond: Conditioning, sc: Scan, pl: Plan, ci: seq<compNo>, src: seq<array<coef>>)
    returns (bytes: seq<byte>, ghost codes: seq<seq<byte>>)
    requires ScanOk(sc) && PlanOk(pl) && |ci| == |src| && forall i | 0 <= i < |src| :: src[i].Length == 64
    ensures UnitsOk(SE.Units(ci, src)) && CarriesAll(cond, sc, pl, SE.Units(ci, src), codes)
    ensures bytes == ScanBytes(codes) && MarkersOk(bytes, pl.restart != 0)
  {
    hide Stuff, CodeAll, Contains, Areas, ScanDecisions, InRange, ScanOk, CarriesFirst, LastFrom, BeginAt, Front,
         ScanBytes, MarkersOk;
    var enc := new SE.ScanEncoder(cond, pl.restart);
    codes := enc.EncodeScan(sc, ci, src, pl.mcu);
    ghost var us := SE.Units(ci, src);
    ghost var code := enc.coder.FinishPass();
    bytes := enc.coder.output + EOI;
    LastInterval(cond, sc, pl, us, codes, code, enc.log);
    codes := codes + [code];
    ScanMarkers(codes);
    MoreMarkers(bytes, |codes| > 1, pl.restart != 0);
  }

  lemma MoreMarkers(bytes: seq<byte>, some: bool, all: bool)
    requires MarkersOk(bytes, some) && (some ==> all)
    ensures MarkersOk(bytes, all)
  {
  }

  lemma LastInterval(cond: Conditioning, sc: Scan, pl: Plan, us: seq<Unit>, codes: seq<seq<byte>>, code: seq<byte>,
                     ds: seq<Decision>)
    requires ScanOk(sc) && UnitsOk(us) && CarriesFirst(cond, sc, pl, us, codes) && LastFrom(pl, |codes|, |us|)
    requires ds == ScanDecisions(cond, sc, START, us[BeginAt(pl, |codes|)..]) && CarriesDecisions(ds, code)
    ensures CarriesAll(cond, sc, pl, us, codes + [code])
    ensures ScanBytes(codes + [code]) == Front(codes) + Stuff(code) + EOI
  {
    hide Stuff, Front, ScanDecisions, CarriesDecisions, ScanOk, CarriesFirst, BeginAt;
    var b := BeginAt(pl, |codes|);
    assert us[b..EndOf(pl, b, |us|)] == us[b..];
    CarriesSnoc(cond, sc, pl, us, codes, code);
    assert (codes + [code])[..|codes|] == codes;
  }
}
