/** The passes of a compression: which scan is gathered or output when, and the loop that
    drives the passes to the end. */
module PassControl {
  import S = Script

  datatype PassType = MainPass | HuffOptPass | OutputPass

  /** What decides about the passes of a scan. */
  datatype ScanParams = ScanParams(ss: nat, ah: nat)

  /** What happens, in order.  Data is a pass over the coefficients, for the statistics or for the file. */
  datatype Event = FrameHeader | ScanHeader(scan: nat) | Data(scan: nat, gather: bool) | Trailer

  /** DC refinement scans need no tables. */
  predicate NeedsTables(p: ScanParams) {
    p.ss != 0 || p.ah == 0
  }

  /** The events of one scan. */
  function ScanEvents(scans: seq<ScanParams>, optimize: bool, s: nat): (es: seq<Event>)
    requires s < |scans|
  {
    (if optimize && NeedsTables(scans[s]) then [Data(s, true)] else [])
    + ((if s == 0 then [FrameHeader] else []) + [ScanHeader(s), Data(s, false)])
  }

  /** The events of the first n scans. */
  function AllEvents(scans: seq<ScanParams>, optimize: bool, n: nat): (es: seq<Event>)
    requires n <= |scans|
  {
    if n == 0 then [] else AllEvents(scans, optimize, n - 1) + ScanEvents(scans, optimize, n - 1)
  }

  /** The scans of which data is output. */
  function Outputs(es: seq<Event>): (s: seq<nat>) {
    if es == [] then []
    else Outputs(es[..|es| - 1])
         + match es[|es| - 1] { case Data(scan, false) => [scan] case _ => [] }
  }

  function FrameHeaders(es: seq<Event>): (n: nat) {
    if es == [] then 0
    else FrameHeaders(es[..|es| - 1]) + if es[|es| - 1] == FrameHeader then 1 else 0
  }

  function UpTo(n: nat): (s: seq<nat>) {
    if n == 0 then [] else UpTo(n - 1) + [n - 1]
  }

  lemma {:induction false} OutputsAppend(a: seq<Event>, b: seq<Event>)
    ensures Outputs(a + b) == Outputs(a) + Outputs(b)
    ensures FrameHeaders(a + b) == FrameHeaders(a) + FrameHeaders(b)
  {
    if b == [] {
      assert a + b == a;
    } else {
      var c := b[..|b| - 1];
      assert (a + b)[..|a + b| - 1] == a + c;
      OutputsAppend(a, c);
    }
  }

  lemma ScanOutputs(scans: seq<ScanParams>, optimize: bool, s: nat)
    requires s < |scans|
    ensures Outputs(ScanEvents(scans, optimize, s)) == [s]
    ensures FrameHeaders(ScanEvents(scans, optimize, s)) == if s == 0 then 1 else 0
  {
    var a := if optimize && NeedsTables(scans[s]) then [Data(s, true)] else [];
    var b := if s == 0 then [FrameHeader] else [];
    var h, d := [ScanHeader(s)], [Data(s, false)];
    assert [ScanHeader(s), Data(s, false)] == h + d;
    OutputsAppend(a, b + (h + d));
    OutputsAppend(b, h + d);
    OutputsAppend(h, d);
    OneEvent(Data(s, true));
    OneEvent(FrameHeader);
    OneEvent(ScanHeader(s));
    OneEvent(Data(s, false));
  }

  lemma OneEvent(e: Event)
    ensures Outputs([e]) == match e { case Data(scan, false) => [scan] case _ => [] }
    ensures FrameHeaders([e]) == if e == FrameHeader then 1 else 0
    ensures Outputs([]) == [] && FrameHeaders([]) == 0
  {
    assert [e][..0] == [];
  }

  /** Every scan is output once and in order, after one frame header. */
  lemma {:induction false} EachScanOnce(scans: seq<ScanParams>, optimize: bool, n: nat)
    requires n <= |scans|
    ensures Outputs(AllEvents(scans, optimize, n)) == UpTo(n)
    ensures FrameHeaders(AllEvents(scans, optimize, n)) == if n == 0 then 0 else 1
  {
    hide ScanEvents;
    if n > 0 {
      EachScanOnce(scans, optimize, n - 1);
      ScanOutputs(scans, optimize, n - 1);
      OutputsAppend(AllEvents(scans, optimize, n - 1), ScanEvents(scans, optimize, n - 1));
    }
  }

  /** What comes before and after event i: a header right before the data of its scan, the frame header before
      the first of them, and before that the statistics, if the scan sends anything but DC corrections. */
  ghost predicate InPlace(scans: seq<ScanParams>, optimize: bool, es: seq<Event>, i: nat)
    requires i < |es|
  {
    match es[i]
    case FrameHeader => i + 1 < |es| && es[i + 1] == ScanHeader(0)
    case ScanHeader(s) =>
      && s < |scans| && i + 1 < |es| && es[i + 1] == Data(s, false)
      && (s == 0 ==> i >= 1 && es[i - 1] == FrameHeader)
      && (optimize && !(scans[s].ss == 0 && scans[s].ah > 0) ==>
            var before := if s == 0 then 2 else 1; i >= before && es[i - before] == Data(s, true))
    case Data(s, true) =>
      && s < |scans| && optimize && !(scans[s].ss == 0 && scans[s].ah > 0)
      && i + 1 < |es| && es[i + 1] == if s == 0 then FrameHeader else ScanHeader(s)
    case Data(s, false) => i >= 1 && es[i - 1] == ScanHeader(s)
    case Trailer => false
  }

  lemma {:induction false} EventOrder(scans: seq<ScanParams>, optimize: bool, n: nat, i: nat)
    requires n <= |scans| && i < |AllEvents(scans, optimize, n)|
    ensures InPlace(scans, optimize, AllEvents(scans, optimize, n), i)
  {
    hide InPlace, ScanEvents;
    var before, more := AllEvents(scans, optimize, n - 1), ScanEvents(scans, optimize, n - 1);
    if i < |before| {
      EventOrder(scans, optimize, n - 1, i);
      StillInPlace(scans, optimize, before, more, i);
    } else {
      ScanInPlace(scans, optimize, n - 1, i - |before|);
      LaterInPlace(scans, optimize, before, more, i - |before|);
    }
  }

  lemma ScanInPlace(scans: seq<ScanParams>, optimize: bool, s: nat, i: nat)
    requires s < |scans| && i < |ScanEvents(scans, optimize, s)|
    ensures InPlace(scans, optimize, ScanEvents(scans, optimize, s), i)
  {
  }

  lemma StillInPlace(scans: seq<ScanParams>, optimize: bool, a: seq<Event>, b: seq<Event>, i: nat)
    requires i < |a| && InPlace(scans, optimize, a, i)
    ensures InPlace(scans, optimize, a + b, i)
  {
  }

  lemma LaterInPlace(scans: seq<ScanParams>, optimize: bool, a: seq<Event>, b: seq<Event>, i: nat)
    requires i < |b| && InPlace(scans, optimize, b, i)
    ensures InPlace(scans, optimize, a + b, |a| + i)
  {
    var es := a + b;
    assert i >= 1 ==> es[|a| + i - 1] == b[i - 1];
    assert i >= 2 ==> es[|a| + i - 2] == b[i - 2];
  }

  class Master {
    const scans: seq<ScanParams>
    const optimize: bool
    const transcode: bool
    var passType: PassType
    var passNumber: nat
    const totalPasses: nat
    var scanNumber: nat
    var isLastPass: bool
    var callPassStartup: bool
    /** The scan whose parameters are in force. */
    var current: nat
    /** Is the pass that is prepared for the statistics? */
    var gathering: bool
    var events: seq<Event>

    constructor (scans: seq<ScanParams>, optimize: bool, transcode: bool)
      requires scans != [] && NeedsTables(scans[0])
      ensures Between() && events == [] && !isLastPass && !callPassStartup && passNumber == 0
      ensures this.scans == scans && this.optimize == optimize && this.transcode == transcode
      ensures passType == if !transcode then MainPass else if optimize then HuffOptPass else OutputPass
    {
      this.scans, this.optimize, this.transcode := scans, optimize, transcode;
      passType := if !transcode then MainPass else if optimize then HuffOptPass else OutputPass;
      scanNumber, passNumber := 0, 0;
      totalPasses := if optimize then 2 * |scans| else |scans|;
      isLastPass, callPassStartup, current, gathering, events := false, false, 0, false, [];
    }

    ghost predicate Fixed() {
      && scans != [] && NeedsTables(scans[0])
      && totalPasses == if optimize then 2 * |scans| else |scans|
    }

    /** Does the next pass, or the one that is prepared, come before the output of the scan? */
    predicate First()
      reads `passType
    {
      passType == HuffOptPass || (passType == MainPass && optimize)
    }

    /** The number of the pass follows from the scan, even if optimisation passes are left out. */
    ghost predicate Numbered()
      reads `passType, `passNumber, `scanNumber
    {
      && (passType == HuffOptPass ==> optimize)
      && (passType == MainPass ==> scanNumber == 0)
      && passNumber == if optimize then 2 * scanNumber + (if First() then 0 else 1) else scanNumber
    }

    /** What has happened when the next pass is about to be prepared. */
    ghost function Before(): (es: seq<Event>)
      requires scanNumber <= |scans|
      reads `passType, `scanNumber
    {
      AllEvents(scans, optimize, scanNumber)
      + if optimize && !First() && scanNumber < |scans| && NeedsTables(scans[scanNumber])
        then [Data(scanNumber, true)] else []
    }

    /** The state between passes. */
    ghost predicate Between()
      reads this
    {
      && Fixed() && Numbered() && scanNumber <= |scans| && !callPassStartup
      && (isLastPass <==> scanNumber == |scans|)
      && (isLastPass ==> if optimize then passType == HuffOptPass else passType == OutputPass)
      && (optimize && passType == OutputPass ==> current == scanNumber)
      && events == Before()
    }

    /** The state of a prepared pass. */
    ghost predicate Prepared()
      reads this
    {
      && Fixed() && Numbered() && scanNumber < |scans|
      && current == scanNumber && (gathering <==> First())
      && (gathering ==> NeedsTables(scans[scanNumber]))
      && (callPassStartup ==> passType == MainPass && !optimize)
      && (isLastPass <==> passNumber == totalPasses - 1)
    }

    /** What has happened by then. */
    ghost function Ready(): (es: seq<Event>)
      requires scanNumber < |scans|
      reads `passType, `scanNumber, `gathering, `callPassStartup
    {
      var done := AllEvents(scans, optimize, scanNumber);
      if gathering || callPassStartup then done
      else
        done + (if optimize && NeedsTables(scans[scanNumber]) then [Data(scanNumber, true)] else [])
        + ((if scanNumber == 0 then [FrameHeader] else []) + [ScanHeader(scanNumber)])
    }

    method WriteHeaders()
      modifies `events
      ensures events == old(events) + ((if scanNumber == 0 then [FrameHeader] else []) + [ScanHeader(current)])
    {
      if scanNumber == 0 {
        events := events + [FrameHeader];
      }
      events := events + [ScanHeader(current)];
    }

    /** Sets up a pass; an optimisation pass that is not needed turns into the output pass. */
    method PrepareForPass()
      requires Between() && !isLastPass
      modifies this
      ensures Prepared() && events == Ready() && scanNumber == old(scanNumber) && passNumber >= old(passNumber)
      ensures callPassStartup <==> old(passType) == MainPass && !optimize
    {
      hide AllEvents;
      match passType {
        case MainPass =>
          current := scanNumber;
          gathering := optimize;
          callPassStartup := !optimize;
        case HuffOptPass =>
          current := scanNumber;
          if NeedsTables(scans[current]) {
            gathering := true;
            callPassStartup := false;
          } else {
            passType := OutputPass;
            passNumber := passNumber + 1;
            OutputSetup();
          }
        case OutputPass =>
          OutputSetup();
      }
      isLastPass := passNumber == totalPasses - 1;
    }

    /** The common part of all output passes but the first one of a normal compression. */
    method OutputSetup()
      requires passType == OutputPass && scanNumber < |scans| && (optimize ==> current == scanNumber)
      modifies `current, `gathering, `callPassStartup, `events
      ensures current == scanNumber && !gathering && !callPassStartup
      ensures events == old(events) + ((if scanNumber == 0 then [FrameHeader] else []) + [ScanHeader(scanNumber)])
    {
      if !optimize {
        current := scanNumber;
      }
      gathering := false;
      WriteHeaders();
      callPassStartup := false;
    }

    /** All data of a pass; in a normal compression the headers may have waited for it. */
    method ProcessData()
      requires Prepared() && events == Ready()
      modifies `callPassStartup, `events
      ensures Prepared() && !callPassStartup && events == old(ReadyNow()) + [Data(scanNumber, gathering)]
    {
      if callPassStartup {
        callPassStartup := false;
        WriteHeaders();
      }
      events := events + [Data(current, gathering)];
    }

    /** What has happened just before the data. */
    ghost function ReadyNow(): (es: seq<Event>)
      requires scanNumber < |scans|
      reads `passType, `scanNumber, `gathering
    {
      var done := AllEvents(scans, optimize, scanNumber);
      if gathering then done
      else
        done + (if optimize && NeedsTables(scans[scanNumber]) then [Data(scanNumber, true)] else [])
        + ((if scanNumber == 0 then [FrameHeader] else []) + [ScanHeader(scanNumber)])
    }

    method FinishPass()
      requires Prepared() && !callPassStartup && events == ReadyNow() + [Data(scanNumber, gathering)]
      modifies this
      ensures Between() && passNumber == old(passNumber) + 1
    {
      hide AllEvents;
      ghost var s := scanNumber;
      OneMore(scans, optimize, s);
      match passType {
        case MainPass =>
          passType := OutputPass;
          if !optimize {
            scanNumber := scanNumber + 1;
          }
        case HuffOptPass =>
          passType := OutputPass;
        case OutputPass =>
          if optimize {
            passType := HuffOptPass;
          }
          scanNumber := scanNumber + 1;
      }
      passNumber := passNumber + 1;
      assert events == Before();
    }

    /** Runs all passes: the first one when the application delivers the image, if it does,
        and the others at the end. */
    method Compress()
      requires Between() && events == [] && passNumber == 0 && !isLastPass
      requires passType == if !transcode then MainPass else if optimize then HuffOptPass else OutputPass
      modifies this
      ensures events == AllEvents(scans, optimize, |scans|) + [Trailer]
    {
      if !transcode {
        PrepareForPass();
        ProcessData();
        FinishPass();
      }
      while !isLastPass
        invariant Between()
        decreases totalPasses - passNumber
      {
        PrepareForPass();
        ProcessData();
        FinishPass();
      }
      events := events + [Trailer];
    }
  }

  /** A validated script begins with a scan that needs tables. */
  lemma ScriptStarts(scans: seq<S.ScanInfo>, nc: nat)
    requires S.ValidScript(scans, nc)
    ensures scans[0].ss >= 0 && scans[0].ah >= 0 && NeedsTables(ScanParams(scans[0].ss, scans[0].ah))
  {
    var s := scans[0];
    assert S.ScanValid(scans[..0], s, nc, S.IsProgressive(scans));
    if S.IsProgressive(scans) {
      assert S.StepOk(S.LastAl(scans[..0], s.comps[0], s.ss), s);
    }
  }

  lemma OneMore(scans: seq<ScanParams>, optimize: bool, s: nat)
    requires s < |scans|
    ensures AllEvents(scans, optimize, s + 1) == AllEvents(scans, optimize, s) + ScanEvents(scans, optimize, s)
  {
  }
}
