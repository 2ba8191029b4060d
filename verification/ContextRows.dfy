/** The preprocessing controller in context mode: three row groups behind five groups of
    row pointers look like an image whose first and last rows go on for ever. */
module ContextRows {
  import opened Numbers
  import opened EndlessImage
  import opened SmoothDownsample

  /** The place of row q in a circular buffer of three groups. */
  function Slot(q: int, v: nat): (r: nat)
    requires v > 0
    ensures r < 3 * v
  {
    q % (3 * v)
  }

  lemma SlotsDiffer(p: int, q: int, v: nat)
    requires v > 0 && p < q < p + 3 * v
    ensures Slot(p, v) != Slot(q, v)
  {
    var n := 3 * v;
    if p % n == q % n {
      assert q - p == n * (q / n - p / n);
      if q / n > p / n {
        MulMono(1, q / n - p / n, n);
      } else {
        MulMono(q / n - p / n, 0, n);
      }
    }
  }

  /** Only the slot of a row matters for the slots of its neighbours. */
  lemma SlotAdd(q: int, r: int, d: int, v: nat)
    requires v > 0 && Slot(q, v) == Slot(r, v)
    ensures Slot(q + d, v) == Slot(r + d, v)
  {
    var n := 3 * v;
    var m := (r + d) % n;
    assert q == n * (q / n) + q % n && r == n * (r / n) + r % n;
    assert r + d == n * ((r + d) / n) + m;
    var k := q / n - r / n + (r + d) / n;
    assert n * k == n * (q / n) - n * (r / n) + n * ((r + d) / n);
    DivModUnique(q + d, n, k, m);
  }

  lemma SlotOf(i: int, v: nat)
    requires v > 0 && 0 <= i + v && i < 4 * v
    ensures Slot(i, v) == if i < 0 then i + 3 * v else if i < 3 * v then i else i - 3 * v
  {
    var n := 3 * v;
    if i < 0 {
      DivModUnique(i, n, -1, i + n);
    } else if i < n {
      DivModUnique(i, n, 0, i);
    } else {
      DivModUnique(i, n, 1, i - n);
    }
  }

  class PrepController {
    const v: nat              // max_v_samp_factor
    const width: nat
    const height: nat
    /** Two to one in both directions, or full size. */
    const half: bool
    const cols: nat           // width of the output
    const sf: nat             // smoothing factor
    const trueBuffer: seq<array<byte>>
    /** Row pointers; entry v + i is row i of the buffer, for i from -v to 4v - 1. */
    const colorBuf: seq<array<byte>>
    var rowsToGo: nat
    var nextBufRow: nat
    var thisRowGroup: nat
    var nextBufStop: nat
    /** The rows that the downsampler has put out. */
    var output: seq<Row>
    /** What it was shown, call by call. */
    ghost var shown: seq<seq<Row>>
    ghost const img: seq<Row>
    /** Rows stored so far, padding at the bottom included. */
    ghost var stored: nat

    /** The width of the buffer, which leaves room to repeat the last column. */
    function Padded(): (n: nat) {
      if half then 2 * cols else cols
    }

    /** The pointer array wraps around. */
    ghost predicate Wrapped() {
      && v > 0 && width > 0 && |trueBuffer| == 3 * v && |colorBuf| == 5 * v
      && (forall i, j | 0 <= i < j < 3 * v :: trueBuffer[i] != trueBuffer[j])
      && cols >= 2 && sf <= MAX_SMOOTHING && width <= Padded() && (half ==> v % 2 == 0)
      && (forall i | 0 <= i < 3 * v :: trueBuffer[i].Length == Padded())
      && (forall i: int | 0 <= i + v && i < 4 * v :: colorBuf[v + i] == trueBuffer[Slot(i, v)])
    }

    ghost predicate ImageOk() {
      height > 0 && |img| == height && forall y | 0 <= y < height :: |img[y]| == width
    }

    /** Row q of the endless image is in the buffer. */
    ghost predicate Holds(q: int)
      requires Wrapped() && ImageOk()
      reads trueBuffer
    {
      trueBuffer[Slot(q, v)][..width] == img[Clamp(q, height)]
    }

    /** The last three groups of rows are in the buffer, as far as they exist. */
    ghost predicate Filled()
      requires Wrapped() && ImageOk()
      reads `stored, trueBuffer
    {
      stored > 0 ==> forall q | stored - 3 * v <= q < stored && q + v >= 0 :: Holds(q)
    }

    /** The counters agree with the rows stored and the groups shown. */
    ghost predicate Counters()
      reads `stored, `shown, `rowsToGo, `nextBufRow, `thisRowGroup, `nextBufStop
    {
      && v > 0
      && rowsToGo == (if stored < height then height - stored else 0)
      && (thisRowGroup == 0 || thisRowGroup == v || thisRowGroup == 2 * v)
      && thisRowGroup == Slot(Base(|shown|, v), v)
      && nextBufRow == Slot(stored, v)
      && stored < Base(|shown|, v) + 2 * v && (shown != [] ==> stored >= Base(|shown|, v) + v)
      && nextBufStop == nextBufRow + (Base(|shown|, v) + 2 * v - stored) <= 3 * v
    }

    ghost predicate Valid()
      reads this, trueBuffer
    {
      && Wrapped() && ImageOk() && Counters() && Filled() && Smoothed()
      && forall g | 0 <= g < |shown| :: shown[g] == Window(img, v, g)
    }

    /** Three groups of rows, and pointers to five groups. */
    constructor (v: nat, width: nat, ghost img: seq<Row>, height: nat, half: bool, cols: nat, sf: nat)
      requires v > 0 && width > 0 && height > 0 && |img| == height && forall y | 0 <= y < height :: |img[y]| == width
      requires cols >= 2 && sf <= MAX_SMOOTHING && width <= (if half then 2 * cols else cols) && (half ==> v % 2 == 0)
      ensures Valid() && shown == [] && rowsToGo == height && this.img == img && this.v == v && this.width == width
      ensures this.height == height && this.half == half && this.cols == cols && this.sf == sf
      ensures fresh(trueBuffer)
    {
      this.v, this.width, this.height, this.img := v, width, height, img;
      this.half, this.cols, this.sf, output := half, cols, sf, [];
      var padded := if half then 2 * cols else cols;
      rowsToGo, nextBufRow, thisRowGroup, nextBufStop := height, 0, 0, 2 * v;
      shown, stored := [], 0;
      var rows: seq<array<byte>> := [];
      while |rows| < 3 * v
        invariant |rows| <= 3 * v && fresh(rows)
        invariant forall i, j | 0 <= i < j < |rows| :: rows[i] != rows[j]
        invariant forall i | 0 <= i < |rows| :: rows[i].Length == padded
      {
        var row := new byte[padded](_ => 0);
        rows := rows + [row];
      }
      trueBuffer := rows;
      colorBuf := rows[2 * v..] + rows + rows[..v];
      new;
      forall i: int | 0 <= i + v && i < 4 * v ensures colorBuf[v + i] == trueBuffer[Slot(i, v)] {
        SlotOf(i, v);
      }
      SlotOf(0, v);
    }

    /** Every row of the endless image from lo to hi that fits the buffer is there. */
    ghost predicate Range(lo: int, hi: int)
      requires Wrapped() && ImageOk()
      reads trueBuffer
    {
      forall q | lo <= q < hi && hi - 3 * v <= q :: Holds(q)
    }

    /** Stores a row in the buffer, where row q of the endless image belongs. */
    method PutRow(row: Row, i: int, ghost q: int)
      requires Wrapped() && ImageOk() && |row| == width && 0 <= i + v && i < 4 * v && Slot(i, v) == Slot(q, v)
      modifies trueBuffer[Slot(i, v)]
      ensures trueBuffer[Slot(q, v)][..width] == row
      ensures forall p | q - 3 * v < p < q + 3 * v && p != q ::
                trueBuffer[Slot(p, v)][..width] == old(trueBuffer[Slot(p, v)][..width])
      ensures forall p | q - 3 * v < p < q + 3 * v && p != q && old(Holds(p)) :: Holds(p)
    {
      var dst := colorBuf[v + i];
      var k := 0;
      while k < width
        invariant k <= width && forall j | 0 <= j < k :: dst[j] == row[j]
        invariant forall r | 0 <= r < 3 * v && r != Slot(q, v) :: trueBuffer[r][..] == old(trueBuffer[r][..])
      {
        dst[k] := row[k];
        k := k + 1;
      }
      assert dst[..width] == row;
      forall p | q - 3 * v < p < q + 3 * v && p != q ensures Slot(p, v) != Slot(q, v) {
        if p < q {
          SlotsDiffer(p, q, v);
        } else {
          SlotsDiffer(q, p, v);
        }
      }
    }

    /** Where the next row goes. */
    lemma NextSlot(k: nat)
      requires v > 0 && nextBufRow == Slot(stored, v) && nextBufRow + k < 3 * v
      ensures Slot(nextBufRow + k, v) == Slot(stored + k, v)
    {
      SlotOf(nextBufRow, v);
      SlotAdd(nextBufRow, stored, k, v);
    }

    /** Stores the next row of the endless image. */
    method PutNext(row: Row, i: int, ghost lo: int, ghost q: int)
      requires Wrapped() && ImageOk() && |row| == width && 0 <= i + v && i < 4 * v && Slot(i, v) == Slot(q, v)
      requires lo <= q && Range(lo, q) && row == img[Clamp(q, height)]
      modifies trueBuffer[Slot(i, v)]
      ensures Range(lo, q + 1)
    {
      hide Slot, Clamp;
      PutRow(row, i, q);
    }

    /** Converts rows of the input into the buffer. */
    method ConvertRows(rows: seq<Row>, from: nat, num: nat)
      requires Wrapped() && ImageOk() && from + num <= |rows| && nextBufRow + num <= 3 * v
      requires nextBufRow == Slot(stored, v) && stored + num <= height
      requires rows[from..from + num] == img[stored..stored + num]
      requires Range(if stored == 0 then 0 else -(v as int), stored)
      modifies trueBuffer
      ensures Range(if stored == 0 then 0 else -(v as int), stored + num)
    {
      hide Slot;
      var k := 0;
      ghost var lo := if stored == 0 then 0 else -(v as int);
      while k < num
        invariant k <= num && Range(lo, stored + k)
      {
        NextSlot(k);
        assert rows[from..from + num][k] == img[stored..stored + num][k];
        PutNext(rows[from + k], nextBufRow + k, lo, stored + k);
        k := k + 1;
      }
    }

    /** At the top of the image the first row is copied to the group above it. */
    method PadTop(num: nat)
      requires Wrapped() && ImageOk() && 1 <= num <= 2 * v && Range(0, num) && num <= height
      modifies trueBuffer
      ensures Range(-(v as int), num)
    {
      hide Slot;
      SlotOf(0, v);
      var row := 1;
      while row <= v
        invariant 1 <= row <= v + 1 && Range(0, num)
        invariant forall q | -row < q < 0 :: Holds(q)
      {
        assert Holds(0);
        var first := colorBuf[v][..width];
        PutRow(first, -row, -row);
        row := row + 1;
      }
    }

    /** At the bottom of the image the last row is copied until the group is full. */
    method PadBottom()
      requires Wrapped() && ImageOk() && stored >= height && nextBufRow == Slot(stored, v)
      requires nextBufRow < nextBufStop <= 3 * v && Range(-(v as int), stored)
      modifies trueBuffer
      ensures Range(-(v as int), stored + (nextBufStop - nextBufRow))
    {
      hide Slot;
      SlotOf(nextBufRow, v);
      SlotAdd(nextBufRow, stored, -1, v);
      var row := nextBufRow;
      while row < nextBufStop
        invariant nextBufRow <= row <= nextBufStop && Range(-(v as int), stored + (row - nextBufRow))
      {
        assert Holds(stored - 1);
        NextSlot(row - nextBufRow);
        var last := colorBuf[v + (nextBufRow - 1)][..width];
        PutNext(last, row, -(v as int), stored + (row - nextBufRow));
        row := row + 1;
      }
    }

    /** Rows of output for each row group. */
    function PerGroup(): (n: nat) {
      if half then v / 2 else v
    }

    /** All output so far is the smoothed endless image. */
    ghost predicate Smoothed()
      requires ImageOk() && Wrapped()
      reads `output, `shown
    {
      |output| == Base(|shown|, PerGroup()) && forall j | 0 <= j < |output| :: RowOk(img, half, cols, sf, output[j], j)
    }

    lemma OutputSmoothed()
      requires Valid()
      ensures |output| == |shown| * PerGroup()
      ensures forall j | 0 <= j < |output| :: RowOk(img, half, cols, sf, output[j], j)
    {
    }

    /** Where the group is that is complete. */
    ghost predicate GroupReady()
      reads `stored, `shown, `thisRowGroup, trueBuffer
    {
      && Wrapped() && ImageOk() && stored == Base(|shown|, v) + 2 * v && Range(-(v as int), stored)
      && (thisRowGroup == 0 || thisRowGroup == v || thisRowGroup == 2 * v) && thisRowGroup == Slot(Base(|shown|, v), v)
    }

    /** The pointers around the group lead to the rows of the endless image. */
    lemma PointersShow(d: nat)
      requires GroupReady() && d < 3 * v
      ensures colorBuf[thisRowGroup + d] == trueBuffer[Slot(Base(|shown|, v) - v + d, v)]
              == trueBuffer[Slot(thisRowGroup + d - v, v)]
      ensures colorBuf[thisRowGroup + d][..width] == Window(img, v, |shown|)[d]
    {
      hide Slot;
      var q := Base(|shown|, v) - v + d;
      SlotOf(thisRowGroup, v);
      SlotOf(thisRowGroup + d - v, v);
      SlotAdd(thisRowGroup, Base(|shown|, v), d - v, v);
      assert Holds(q);
    }

    /** The downsampler is given the current group and its context. */
    method ShowGroup()
      requires GroupReady() && Smoothed()
      modifies `shown, `output, trueBuffer
      ensures shown == old(shown) + [Window(img, v, |old(shown)|)]
      ensures Range(-(v as int), stored) && Smoothed()
    {
      hide Slot, RowOk, Window, Base;
      ghost var g := |shown|;
      ghost var before := output;
      ghost var first := Base(g, PerGroup());
      var rows := colorBuf[thisRowGroup + v - 1..thisRowGroup + 2 * v + 1];
      GroupRows(rows);
      OutputBase(g);
      SeenWindow();
      shown := shown + [Seen()];
      var group := SmoothGroup(rows, v, width, half, cols, sf, img, Base(g, v), first);
      output := output + group;
      GroupStep(g, PerGroup());
      forall j | 0 <= j < |output| ensures RowOk(img, half, cols, sf, output[j], j) {
        assert j >= first ==> output[j] == group[j - first];
      }
      forall i | 0 <= i < 3 * v ensures trueBuffer[i][..width] == old(trueBuffer[i][..width]) {
        if trueBuffer[i] in rows {
          var k :| 0 <= k < |rows| && rows[k] == trueBuffer[i];
        }
      }
      forall q | -(v as int) <= q < stored && stored - 3 * v <= q ensures Holds(q) {
        assert old(Holds(q));
      }
    }

    /** The rows around the group, through the pointers. */
    ghost function Seen(): (w: seq<Row>)
      requires Wrapped() && thisRowGroup <= 2 * v
      reads this, trueBuffer
    {
      seq(3 * v, d requires 0 <= d < 3 * v reads this, trueBuffer => trueBuffer[Slot(thisRowGroup + d - v, v)][..width])
    }

    lemma SeenWindow()
      requires GroupReady()
      ensures Seen() == Window(img, v, |shown|)
    {
      hide Slot, Window, Base, Range;
      forall d | 0 <= d < 3 * v ensures Seen()[d] == Window(img, v, |shown|)[d] {
        PointersShow(d);
      }
    }

    /** The group with one row above and one row below it. */
    lemma GroupRows(rows: seq<array<byte>>)
      requires GroupReady() && rows == colorBuf[thisRowGroup + v - 1..thisRowGroup + 2 * v + 1]
      ensures |rows| == v + 2 && forall i, j | 0 <= i < j < |rows| :: rows[i] != rows[j]
      ensures forall i | 0 <= i < |rows| :: rows[i] in trueBuffer && rows[i].Length == Padded()
      ensures forall i | 0 <= i < |rows| :: rows[i][..width] == img[Clamp(Base(|shown|, v) - 1 + i, |img|)]
    {
      hide Slot, Base, Range, Window;
      var q := Base(|shown|, v) - 1;
      forall i | 0 <= i < |rows|
        ensures rows[i] == trueBuffer[Slot(q + i, v)] && rows[i][..width] == img[Clamp(q + i, |img|)]
      {
        PointersShow(v - 1 + i);
        WindowAt(v - 1 + i);
      }
      forall i, j | 0 <= i < j < |rows| ensures rows[i] != rows[j] {
        SlotsDiffer(q + i, q + j, v);
      }
    }

    lemma WindowAt(d: nat)
      requires Wrapped() && ImageOk() && d < 3 * v
      ensures Window(img, v, |shown|)[d] == img[Clamp(Base(|shown|, v) - v + d, |img|)]
    {
    }

    /** Rows of output in front of this group, at both scales. */
    lemma OutputBase(g: nat)
      requires Wrapped()
      ensures Base(g, v) == if half then 2 * Base(g, PerGroup()) else Base(g, PerGroup())
    {
    }
    /** Rows have been stored, and the group may be complete. */
    ghost predicate Loaded()
      reads this, trueBuffer
    {
      && Wrapped() && ImageOk() && Range(-(v as int), stored)
      && rowsToGo == (if stored < height then height - stored else 0)
      && (thisRowGroup == 0 || thisRowGroup == v || thisRowGroup == 2 * v)
      && thisRowGroup == Slot(Base(|shown|, v), v)
      && 0 < stored <= Base(|shown|, v) + 2 * v && (shown != [] ==> stored >= Base(|shown|, v) + v)
      && nextBufRow <= nextBufStop <= 3 * v && nextBufStop - nextBufRow == Base(|shown|, v) + 2 * v - stored
      && Slot(nextBufRow, v) == Slot(stored, v)
      && Smoothed() && forall g | 0 <= g < |shown| :: shown[g] == Window(img, v, g)
    }

    lemma LoadedValid()
      requires Loaded() && nextBufRow < nextBufStop
      ensures Valid()
    {
      hide Slot, Base;
      SlotOf(nextBufRow, v);
    }

    /** The group is complete: it is shown, and the counters go round. */
    method EmitGroup()
      requires Loaded() && nextBufRow == nextBufStop
      modifies `shown, `output, `thisRowGroup, `nextBufRow, `nextBufStop, trueBuffer
      ensures Valid() && |shown| == |old(shown)| + 1
    {
      hide Slot, Base, Range, Window, Holds, Filled, Smoothed, Wrapped, ImageOk, Valid;
      Positive();
      RoundGroup();
      ShowGroup();
      thisRowGroup := thisRowGroup + v;
      if thisRowGroup >= 3 * v {
        thisRowGroup := 0;
      }
      if nextBufRow >= 3 * v {
        nextBufRow := 0;
      }
      nextBufStop := nextBufRow + v;
      RangeFilled();
      AllValid();
    }

    lemma Positive()
      requires Wrapped()
      ensures v > 0
    {
    }

    lemma AllValid()
      requires Wrapped() && ImageOk() && Counters() && Filled() && Smoothed()
      requires forall g | 0 <= g < |shown| :: shown[g] == Window(img, v, g)
      ensures Valid()
    {
    }

    lemma RangeFilled()
      requires Wrapped() && ImageOk() && Range(-(v as int), stored)
      ensures Filled()
    {
    }

    /** Where the next group begins, in the buffer. */
    lemma RoundGroup()
      requires v > 0 && (thisRowGroup == 0 || thisRowGroup == v || thisRowGroup == 2 * v)
      requires thisRowGroup == Slot(Base(|shown|, v), v) && stored == Base(|shown|, v) + 2 * v
      requires Slot(nextBufRow, v) == Slot(stored, v) && nextBufRow <= 3 * v
      ensures Base(|shown| + 1, v) == Base(|shown|, v) + v
      ensures Slot(Base(|shown| + 1, v), v) == if thisRowGroup == 2 * v then 0 else thisRowGroup + v
      ensures Slot(stored, v) == (if nextBufRow == 3 * v then 0 else nextBufRow) <= 2 * v
    {
      var n := |shown|;
      GroupStep(n, v);
      hide Slot, Base;
      SlotOf(thisRowGroup, v);
      SlotAdd(thisRowGroup, Base(n, v), v, v);
      SlotAdd(thisRowGroup, Base(n, v), 2 * v, v);
      NextGroup(thisRowGroup, v);
      SlotOf(nextBufRow, v);
    }

    /** The rows of the input from here on are those of the image that are not stored yet. */
    ghost predicate Matches(input: seq<Row>, inCtr: nat)
      reads `stored
    {
      && inCtr <= |input| && stored + (|input| - inCtr) <= |img|
      && input[inCtr..] == img[stored..][..|input| - inCtr]
    }

    /** Takes as many rows of the input as there is room for. */
    method TakeRows(input: seq<Row>, inCtr0: nat) returns (inCtr: nat)
      requires Valid() && inCtr0 < |input| && Matches(input, inCtr0)
      modifies `rowsToGo, `nextBufRow, `stored, trueBuffer
      ensures Loaded() && inCtr0 < inCtr <= |input| && Matches(input, inCtr)
      ensures rowsToGo == old(rowsToGo) - (inCtr - inCtr0)
    {
      hide Slot, Base, Range, Window;
      var inrows := |input| - inCtr0;
      var numrows := nextBufStop - nextBufRow;
      if inrows < numrows {
        numrows := inrows;
      }
      SlotOf(nextBufRow, v);
      SlotAdd(nextBufRow, stored, numrows, v);
      SameRows(input, inCtr0, img, stored, numrows);
      StoreRows(input, inCtr0, numrows);
      inCtr := inCtr0 + numrows;
      nextBufRow := nextBufRow + numrows;
      rowsToGo := rowsToGo - numrows;
      stored := stored + numrows;
    }

    /** Rows of the input, and at the very first the padding above them. */
    method StoreRows(input: seq<Row>, from: nat, num: nat)
      requires Valid() && from + num <= |input| && 0 < num <= nextBufStop - nextBufRow && stored + num <= height
      requires input[from..from + num] == img[stored..stored + num]
      modifies trueBuffer
      ensures Range(-(v as int), stored + num)
    {
      hide Slot, Base, Range, Window;
      RangeStart();
      ConvertRows(input, from, num);
      if rowsToGo == height {
        PadTop(num);
      }
    }

    lemma RangeStart()
      requires Valid()
      ensures Range(if stored == 0 then 0 else -(v as int), stored)
      ensures rowsToGo == height <==> stored == 0
      ensures stored == 0 ==> nextBufStop - nextBufRow == 2 * v
    {
      if stored == 0 {
        assert shown == [] && Base(0, v) == 0;
      }
    }

    lemma SameRows(input: seq<Row>, from: nat, rows: seq<Row>, at: nat, num: nat)
      requires from + num <= |input| && at + (|input| - from) <= |rows|
      requires input[from..] == rows[at..][..|input| - from]
      ensures input[from..from + num] == rows[at..at + num]
      ensures input[from + num..] == rows[at + num..][..|input| - (from + num)]
    {
      var tail := rows[at..][..|input| - from];
      assert input[from..from + num] == tail[..num] == rows[at..at + num];
      assert input[from + num..] == tail[num..] == rows[at + num..][..|input| - (from + num)];
    }

    /** At the bottom of the image the group is completed with copies of the last row. */
    method PadGroup()
      requires Valid() && rowsToGo == 0
      modifies `nextBufRow, `stored, trueBuffer
      ensures Loaded() && nextBufRow == nextBufStop
    {
      hide Slot, Base, Range, Window;
      RangeStart();
      SlotOf(nextBufRow, v);
      SlotAdd(nextBufRow, stored, nextBufStop - nextBufRow, v);
      PadBottom();
      stored := stored + (nextBufStop - nextBufRow);
      nextBufRow := nextBufStop;
    }

    /** Processes rows of the input until the output is full or more input is needed.  The rows
        may be split over calls in any way: what is shown is always the endless image. */
    method PreProcess(input: seq<Row>, inCtr0: nat, outCtr0: nat, outAvail: nat) returns (inCtr: nat, outCtr: nat)
      requires Valid() && inCtr0 <= |input| && |input| - inCtr0 <= rowsToGo && outCtr0 <= outAvail
      requires input[inCtr0..] == img[height - rowsToGo..][..|input| - inCtr0]
      modifies `rowsToGo, `nextBufRow, `thisRowGroup, `nextBufStop, `shown, `output, `stored, trueBuffer
      ensures Valid() && inCtr0 <= inCtr <= |input| && outCtr0 <= outCtr <= outAvail
      ensures |shown| == |old(shown)| + (outCtr - outCtr0)
      ensures rowsToGo == old(rowsToGo) - (inCtr - inCtr0)
      ensures outCtr < outAvail ==> inCtr == |input| && rowsToGo > 0
    {
      Untouched(input, inCtr0);
      hide Valid, Loaded, Slot, Base, Matches;
      inCtr, outCtr := inCtr0, outCtr0;
      while outCtr < outAvail
        invariant Valid() && inCtr0 <= inCtr <= |input| && outCtr0 <= outCtr <= outAvail
        invariant |shown| == |old(shown)| + (outCtr - outCtr0)
        invariant rowsToGo == old(rowsToGo) - (inCtr - inCtr0)
        invariant inCtr < |input| ==> Matches(input, inCtr)
        decreases outAvail - outCtr, |input| - inCtr
      {
        if inCtr < |input| {
          inCtr := TakeRows(input, inCtr);
        } else {
          if rowsToGo != 0 {
            break;
          }
          PadGroup();
        }
        StopAhead();
        if nextBufRow == nextBufStop {
          EmitGroup();
          outCtr := outCtr + 1;
        } else {
          LoadedValid();
        }
      }
    }

    lemma StopAhead()
      requires Loaded()
      ensures nextBufRow <= nextBufStop
    {
    }

    lemma Untouched(input: seq<Row>, inCtr: nat)
      requires Valid() && inCtr <= |input| && |input| - inCtr <= rowsToGo
      requires input[inCtr..] == img[height - rowsToGo..][..|input| - inCtr]
      ensures inCtr < |input| ==> Matches(input, inCtr)
    {
    }
  }

  /** One call: how many more rows of input there are, and how many groups of output fit. */
  datatype Call = Call(rows: nat, room: nat)

  /** A whole image, or more groups than it fills, handed over in any pieces: the output is
      the smoothed image with its edges repeated. */
  method SmoothImage(image: seq<Row>, v: nat, width: nat, half: bool, cols: nat, sf: nat, calls: seq<Call>, groups: nat)
    returns (output: seq<Row>)
    requires v > 0 && width > 0 && image != [] && forall y | 0 <= y < |image| :: |image[y]| == width
    requires cols >= 2 && sf <= MAX_SMOOTHING && width <= (if half then 2 * cols else cols) && (half ==> v % 2 == 0)
    ensures |output| == groups * (if half then v / 2 else v)
    ensures forall j | 0 <= j < |output| :: RowOk(image, half, cols, sf, output[j], j)
  {
    var prep := new PrepController(v, width, image, |image|, half, cols, sf);
    var fed, taken, done, i := 0, 0, 0, 0;
    hide PrepController.Valid, RowOk;
    while i < |calls|
      invariant i <= |calls| && prep.Valid() && fresh(prep) && fresh(prep.trueBuffer)
      invariant taken <= fed <= |image| && prep.rowsToGo == |image| - taken
      invariant done == |prep.shown| <= groups
    {
      fed := if calls[i].rows < |image| - fed then fed + calls[i].rows else |image|;
      var room := if calls[i].room < groups - done then calls[i].room else groups - done;
      var outCtr;
      assert image[..fed][taken..] == image[taken..][..fed - taken];
      taken, outCtr := prep.PreProcess(image[..fed], taken, 0, room);
      done := done + outCtr;
      i := i + 1;
    }
    var outCtr;
    assert image[..|image|][taken..] == image[taken..][..|image| - taken];
    taken, outCtr := prep.PreProcess(image[..|image|], taken, 0, groups - done);
    output := prep.output;
    prep.OutputSmoothed();
  }

  /** After three groups the slots come round. */
  lemma NextGroup(group: nat, v: nat)
    requires v > 0 && (group == 0 || group == v || group == 2 * v)
    ensures Slot(group + v, v) == if group == 2 * v then 0 else group + v
    ensures Slot(group + 2 * v, v) == if group == 0 then 2 * v else group - v
  {
    DivModUnique(group + v, 3 * v, if group == 2 * v then 1 else 0, if group == 2 * v then 0 else group + v);
    DivModUnique(group + 2 * v, 3 * v, if group == 0 then 0 else 1, if group == 0 then 2 * v else group - v);
  }
}
