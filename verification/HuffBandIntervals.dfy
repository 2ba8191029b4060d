/** Restart intervals of a progressive AC scan: bands that are coded together, and their data. */
module HuffBandIntervals {
  import opened Numbers
  import opened BitStrings
  import opened Stuffing
  import opened RestartIntervals
  import opened HuffBitWriter
  import opened ArithModel
  import opened HuffItems
  import opened HuffBlocks

  /** Such a scan has one component, and one block in an MCU. */
  ghost function PlanFor(restart: nat): (pl: Plan) {
    Plan(1, restart)
  }

  /** The end of the interval that starts with band s. */
  ghost function EndFrom(restart: nat, s: nat, n: nat): (e: nat)
    requires s <= n
    ensures s <= e <= n && (s < n ==> s < e)
    ensures e == if restart == 0 || n - s <= restart then n else s + restart
  {
    if restart == 0 || n - s <= restart then n else s + restart
  }

  /** End-of-band runs do not reach over the end of an interval. */
  ghost function AllItems(tbl: tblNo, bands: seq<Band>, restart: nat): (items: seq<Item>)
    decreases |bands|
  {
    var e := EndFrom(restart, 0, |bands|);
    BandItems(tbl, bands[..e], 0, 0) + if e == |bands| then [] else AllItems(tbl, bands[e..], restart)
  }

  /** The first interval of what is left, and the others. */
  lemma NextItems(tbl: tblNo, bands: seq<Band>, restart: nat, s: nat)
    requires s <= |bands|
    ensures var e := EndFrom(restart, s, |bands|);
            AllItems(tbl, bands[s..], restart)
            == BandItems(tbl, bands[s..e], 0, 0) + if e == |bands| then [] else AllItems(tbl, bands[e..], restart)
  {
    hide BandItems;
    var e := EndFrom(restart, s, |bands|);
    assert bands[s..][..e - s] == bands[s..e] && bands[s..][e - s..] == bands[e..];
  }

  /** The data are the items of these bands, and padding. */
  ghost predicate HoldsBands(ts: Tables, tbl: tblNo, bands: seq<Band>, data: seq<byte>)
    requires TablesOk(ts)
  {
    && Codable(ts, BandItems(tbl, bands, 0, 0))
    && exists pad: nat :: pad <= 7 && BytesToBits(data) == AllBits(ts, BandItems(tbl, bands, 0, 0)) + Ones(pad)
  }

  /** Where interval k starts. */
  ghost function StartOfInterval(restart: nat, k: nat): (s: nat) {
    BeginAt(PlanFor(restart), k)
  }

  lemma StartStep(restart: nat, k: nat)
    ensures StartOfInterval(restart, 0) == 0
    ensures StartOfInterval(restart, k + 1) == StartOfInterval(restart, k) + restart
  {
    NextStart(PlanFor(restart), k);
  }

  /** The data of the first intervals. */
  ghost predicate HoldFirst(ts: Tables, tbl: tblNo, bands: seq<Band>, restart: nat, datas: seq<seq<byte>>)
    requires TablesOk(ts)
  {
    forall k | 0 <= k < |datas| :: HoldsInterval(ts, tbl, bands, restart, k, datas[k])
  }

  ghost predicate HoldsInterval(ts: Tables, tbl: tblNo, bands: seq<Band>, restart: nat, k: nat, data: seq<byte>)
    requires TablesOk(ts)
  {
    var s := StartOfInterval(restart, k);
    s <= |bands| && HoldsBands(ts, tbl, bands[s..EndFrom(restart, s, |bands|)], data)
  }

  lemma HoldSnoc(ts: Tables, tbl: tblNo, bands: seq<Band>, restart: nat, datas: seq<seq<byte>>, data: seq<byte>)
    requires TablesOk(ts) && HoldFirst(ts, tbl, bands, restart, datas)
    requires HoldsInterval(ts, tbl, bands, restart, |datas|, data)
    ensures HoldFirst(ts, tbl, bands, restart, datas + [data])
  {
    hide HoldsInterval, TablesOk;
    var all := datas + [data];
    forall k | 0 <= k < |all| ensures HoldsInterval(ts, tbl, bands, restart, k, all[k]) {
      assert k < |datas| ==> all[k] == datas[k];
    }
  }

  /** Interval k is the last one. */
  ghost predicate IsLast(restart: nat, k: nat, n: nat) {
    var s := StartOfInterval(restart, k);
    s <= n && EndFrom(restart, s, n) == n
  }

  /** An output pass in interval |datas|, which starts at band s: the file so far. */
  ghost predicate FileSoFar(ts: Tables, tbl: tblNo, bands: seq<Band>, restart: nat, datas: seq<seq<byte>>, s: nat,
                            num: nat, header: seq<byte>)
    requires TablesOk(ts)
  {
    && s == StartOfInterval(restart, |datas|) && s <= |bands| && (restart == 0 ==> datas == [])
    && num == |datas| % 8 && header == Front(datas) && HoldFirst(ts, tbl, bands, restart, datas)
  }

  lemma FileStart(ts: Tables, tbl: tblNo, bands: seq<Band>, restart: nat)
    requires TablesOk(ts)
    ensures FileSoFar(ts, tbl, bands, restart, [], 0, 0, [])
  {
    StartStep(restart, 0);
  }

  lemma IntervalHeld(ts: Tables, tbl: tblNo, bands: seq<Band>, restart: nat, k: nat, data: seq<byte>, pad: nat)
    requires TablesOk(ts) && StartOfInterval(restart, k) <= |bands| && pad <= 7
    requires var s := StartOfInterval(restart, k);
             var items := BandItems(tbl, bands[s..EndFrom(restart, s, |bands|)], 0, 0);
             Codable(ts, items) && BytesToBits(data) == AllBits(ts, items) + Ones(pad)
    ensures HoldsInterval(ts, tbl, bands, restart, k, data)
  {
    hide TablesOk, Codable, BandItems, BytesToBits, AllBits, Ones, StartOfInterval;
  }

  /** A restart closes the interval. */
  lemma FileRestart(ts: Tables, tbl: tblNo, bands: seq<Band>, restart: nat, datas: seq<seq<byte>>, s: nat,
                    num: nat, header: seq<byte>, data: seq<byte>, pad: nat)
    requires TablesOk(ts) && FileSoFar(ts, tbl, bands, restart, datas, s, num, header)
    requires var e := EndFrom(restart, s, |bands|);
             && e < |bands| && Codable(ts, BandItems(tbl, bands[s..e], 0, 0)) && pad <= 7
             && BytesToBits(data) == AllBits(ts, BandItems(tbl, bands[s..e], 0, 0)) + Ones(pad)
    ensures FileSoFar(ts, tbl, bands, restart, datas + [data], EndFrom(restart, s, |bands|), (num + 1) % 8,
                      header + Stuff(data) + RestartMarker(num))
  {
    hide TablesOk, Codable, BandItems, BytesToBits, AllBits, Ones, Stuff, Front, HoldFirst, HoldsInterval,
         StartOfInterval;
    StartStep(restart, |datas|);
    FrontSnoc(datas, data);
    IntervalHeld(ts, tbl, bands, restart, |datas|, data, pad);
    HoldSnoc(ts, tbl, bands, restart, datas, data);
  }

  /** The last interval, without a restart behind it. */
  lemma FileEnd(ts: Tables, tbl: tblNo, bands: seq<Band>, restart: nat, datas: seq<seq<byte>>, s: nat,
                num: nat, header: seq<byte>, data: seq<byte>, pad: nat)
    requires TablesOk(ts) && FileSoFar(ts, tbl, bands, restart, datas, s, num, header)
    requires EndFrom(restart, s, |bands|) == |bands| && Codable(ts, BandItems(tbl, bands[s..], 0, 0)) && pad <= 7
    requires BytesToBits(data) == AllBits(ts, BandItems(tbl, bands[s..], 0, 0)) + Ones(pad)
    ensures HoldFirst(ts, tbl, bands, restart, datas + [data]) && IsLast(restart, |datas|, |bands|)
    ensures header == Front(datas) && (restart == 0 ==> datas == [])
  {
    hide TablesOk, Codable, BandItems, BytesToBits, AllBits, Ones, Front, StartOfInterval;
    assert bands[s..|bands|] == bands[s..];
    assert HoldsInterval(ts, tbl, bands, restart, |datas|, data);
    HoldSnoc(ts, tbl, bands, restart, datas, data);
  }

  lemma NotAllCodable(ts: Tables, tbl: tblNo, bands: seq<Band>, restart: nat, s: nat, before: seq<Item>)
    requires TablesOk(ts) && s <= |bands|
    requires !Codable(ts, BandItems(tbl, bands[s..EndFrom(restart, s, |bands|)], 0, 0))
    ensures !Codable(ts, before + AllItems(tbl, bands[s..], restart))
  {
    hide TablesOk, Codable, BandItems, AllItems;
    var e := EndFrom(restart, s, |bands|);
    NextItems(tbl, bands, restart, s);
    var rest := if e == |bands| then [] else AllItems(tbl, bands[e..], restart);
    CodableAppend(ts, BandItems(tbl, bands[s..e], 0, 0), rest);
    CodableAppend(ts, before, BandItems(tbl, bands[s..e], 0, 0) + rest);
  }
}
