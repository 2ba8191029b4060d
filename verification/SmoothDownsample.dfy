/** Smoothing of a full-size component: column sums that run along three rows give the
    direct 3x3 stencil on the endless image. */
module SmoothDownsample {
  import opened Numbers
  import opened EndlessImage

  const MAX_SMOOTHING := 100

  /** A sample of the image, with its edges repeated; cols is the width of the output. */
  function Pixel(img: seq<Row>, cols: nat, y: int, x: int): (p: byte)
    requires img != [] && cols > 0 && forall r | 0 <= r < |img| :: |img[r]| == |img[0]| > 0
  {
    img[Clamp(y, |img|)][Clamp(Clamp(x, cols), |img[0]|)]
  }

  ghost predicate Rectangular(img: seq<Row>, width: nat) {
    img != [] && width > 0 && forall r | 0 <= r < |img| :: |img[r]| == width
  }

  /** The eight neighbours. */
  function Around(img: seq<Row>, cols: nat, y: int, x: int): (n: nat)
    requires img != [] && cols > 0 && forall r | 0 <= r < |img| :: |img[r]| == |img[0]| > 0
    ensures n <= 8 * 255
  {
    Pixel(img, cols, y - 1, x - 1) + Pixel(img, cols, y - 1, x) + Pixel(img, cols, y - 1, x + 1)
    + Pixel(img, cols, y, x - 1) + Pixel(img, cols, y, x + 1)
    + Pixel(img, cols, y + 1, x - 1) + Pixel(img, cols, y + 1, x) + Pixel(img, cols, y + 1, x + 1)
  }

  /** A fraction sf/1024 of each neighbour, the rest of the pixel itself, rounded. */
  function Blend(member: nat, neigh: nat, sf: nat): (v: int)
    requires sf <= MAX_SMOOTHING
  {
    (member * (65536 - sf * 512) + neigh * (sf * 64) + 32768) / 65536
  }

  /** 1024 times a smoothed pixel, not rounded: sf parts of each neighbour and 1024 - 8*sf parts of the pixel. */
  function Parts(member: nat, neigh: nat, sf: nat): (s: int) {
    member * (1024 - 8 * sf) + neigh * sf
  }

  /** The integer weights are those parts, and the result is the nearest integer. */
  lemma BlendNearest(member: nat, neigh: nat, sf: nat)
    requires sf <= MAX_SMOOTHING
    ensures -512 <= 1024 * Blend(member, neigh, sf) - Parts(member, neigh, sf) <= 512
  {
    PartsWeights(member, neigh, sf);
    hide Parts;
    var x := Parts(member, neigh, sf);
    assert Blend(member, neigh, sf) == (64 * x + 32768) / 65536;
  }

  lemma PartsWeights(member: nat, neigh: nat, sf: nat)
    ensures member * (65536 - sf * 512) + neigh * (sf * 64) == 64 * Parts(member, neigh, sf)
  {
    MulSwap(member, 64, 1024 - 8 * sf);
    MulSwap(neigh, 64, sf);
    assert 65536 - sf * 512 == 64 * (1024 - 8 * sf) && sf * 64 == 64 * sf;
  }

  /** The result is a sample again. */
  lemma BlendRange(member: nat, neigh: nat, sf: nat)
    requires sf <= MAX_SMOOTHING && member <= 255 && neigh <= 8 * 255
    ensures 0 <= Blend(member, neigh, sf) <= 255
  {
    var m, n := 65536 - sf * 512, sf * 64;
    MulMono(member, 255, m);
    MulMono(neigh, 8 * 255, n);
    MulMono(0, member, m);
    MulMono(0, neigh, n);
    assert 255 * m + 8 * 255 * n == 255 * 65536;
  }

  function Stencil(img: seq<Row>, cols: nat, sf: nat, y: int, x: int): (v: byte)
    requires sf <= MAX_SMOOTHING && img != [] && cols > 0 && forall r | 0 <= r < |img| :: |img[r]| == |img[0]| > 0
  {
    BlendRange(Pixel(img, cols, y, x), Around(img, cols, y, x), sf);
    Blend(Pixel(img, cols, y, x), Around(img, cols, y, x), sf)
  }

  /** A row of the buffer after it is widened. */
  ghost predicate Widened(row: array<byte>, img: seq<Row>, cols: nat, y: int)
    requires img != [] && cols > 0 && forall r | 0 <= r < |img| :: |img[r]| == |img[0]| > 0
    reads row
  {
    row.Length >= cols && forall x | 0 <= x < cols :: row[x] == Pixel(img, cols, y, x)
  }

  /** Repeats the last sample up to the width of the output. */
  method ExpandRightEdge(row: array<byte>, width: nat, cols: nat, ghost img: seq<Row>, ghost y: int)
    requires Rectangular(img, width) && row.Length >= cols > 0 && row.Length >= width
    requires row[..width] == img[Clamp(y, |img|)]
    modifies row
    ensures Widened(row, img, cols, y) && row[..width] == old(row[..width])
  {
    if cols > width {
      var pixval := row[width - 1];
      var x := width;
      while x < cols
        invariant width <= x <= cols && row[..width] == old(row[..width])
        invariant forall k | width <= k < x :: row[k] == pixval
      {
        row[x] := pixval;
        x := x + 1;
      }
    }
    ghost var line := row[..width];
    forall x | 0 <= x < cols ensures row[x] == Pixel(img, cols, y, x) {
      assert x < width ==> row[x] == line[x];
      assert line[width - 1] == row[width - 1];
    }
  }

  /** The sum of a column of three. */
  ghost function ColSum(img: seq<Row>, cols: nat, y: int, x: int): (s: nat)
    requires img != [] && cols > 0 && forall r | 0 <= r < |img| :: |img[r]| == |img[0]| > 0
  {
    Pixel(img, cols, y - 1, x) + Pixel(img, cols, y, x) + Pixel(img, cols, y + 1, x)
  }

  lemma AroundSums(img: seq<Row>, cols: nat, y: int, x: int)
    requires img != [] && cols > 0 && forall r | 0 <= r < |img| :: |img[r]| == |img[0]| > 0
    requires 0 <= x < cols
    ensures Around(img, cols, y, x)
            == ColSum(img, cols, y, x - 1) + (ColSum(img, cols, y, x) - Pixel(img, cols, y, x))
               + ColSum(img, cols, y, x + 1)
    ensures x == 0 ==> ColSum(img, cols, y, x - 1) == ColSum(img, cols, y, x)
    ensures x == cols - 1 ==> ColSum(img, cols, y, x + 1) == ColSum(img, cols, y, x)
  {
  }

  /** One row, with running column sums. */
  method SmoothRow(above: array<byte>, inp: array<byte>, below: array<byte>, out: array<byte>, cols: nat, sf: nat,
                   ghost img: seq<Row>, ghost y: int)
    requires img != [] && cols >= 2 && forall r | 0 <= r < |img| :: |img[r]| == |img[0]| > 0
    requires sf <= MAX_SMOOTHING && out.Length >= cols && out != above && out != inp && out != below
    requires Widened(above, img, cols, y - 1) && Widened(inp, img, cols, y) && Widened(below, img, cols, y + 1)
    modifies out
    ensures forall x | 0 <= x < cols :: out[x] == Stencil(img, cols, sf, y, x)
  {
    hide Pixel, Blend, Around;
    var colsum: int := above[0] as int + below[0] as int + inp[0] as int;
    var member: int := inp[0];
    var nextcolsum: int := above[1] as int + below[1] as int + inp[1] as int;
    AroundSums(img, cols, y, 0);
    var neigh := colsum + (colsum - member) + nextcolsum;
    BlendRange(member, neigh, sf);
    out[0] := Blend(member, neigh, sf);
    var lastcolsum := colsum;
    colsum := nextcolsum;
    var x := 1;
    while x < cols - 1
      invariant 1 <= x <= cols - 1
      invariant lastcolsum == ColSum(img, cols, y, x - 1) && colsum == ColSum(img, cols, y, x)
      invariant forall k | 0 <= k < x :: out[k] == Stencil(img, cols, sf, y, k)
    {
      member := inp[x];
      nextcolsum := above[x + 1] as int + below[x + 1] as int + inp[x + 1] as int;
      AroundSums(img, cols, y, x);
      neigh := lastcolsum + (colsum - member) + nextcolsum;
      BlendRange(member, neigh, sf);
      out[x] := Blend(member, neigh, sf);
      lastcolsum := colsum;
      colsum := nextcolsum;
      x := x + 1;
    }
    member := inp[x];
    AroundSums(img, cols, y, x);
    neigh := lastcolsum + (colsum - member) + colsum;
    BlendRange(member, neigh, sf);
    out[x] := Blend(member, neigh, sf);
  }

  /** All rows of a group and its context. */
  method WidenRows(rows: seq<array<byte>>, width: nat, cols: nat, ghost img: seq<Row>, ghost base: nat)
    requires Rectangular(img, width) && cols > 0
    requires forall i, j | 0 <= i < j < |rows| :: rows[i] != rows[j]
    requires forall i | 0 <= i < |rows| :: rows[i].Length >= cols && rows[i].Length >= width
    requires forall i | 0 <= i < |rows| :: rows[i][..width] == img[Clamp(base - 1 + i, |img|)]
    modifies rows
    ensures forall i | 0 <= i < |rows| :: Widened(rows[i], img, cols, base - 1 + i)
    ensures forall i | 0 <= i < |rows| :: rows[i][..width] == old(rows[i][..width])
  {
    var i := 0;
    while i < |rows|
      invariant i <= |rows| && forall k | 0 <= k < i :: Widened(rows[k], img, cols, base - 1 + k)
      invariant forall k | 0 <= k < |rows| :: rows[k][..width] == old(rows[k][..width])
    {
      ExpandRightEdge(rows[i], width, cols, img, base - 1 + i);
      i := i + 1;
    }
  }

  /** A row group: rows[0] is the context above it and rows[v + 1] the context below. */
  method FullsizeSmooth(rows: seq<array<byte>>, out: seq<array<byte>>, v: nat, width: nat, cols: nat, sf: nat,
                        ghost img: seq<Row>, ghost base: nat)
    requires Rectangular(img, width) && cols >= 2 && sf <= MAX_SMOOTHING && |rows| == v + 2 && |out| == v
    requires forall i, j | 0 <= i < j < |rows| :: rows[i] != rows[j]
    requires forall i, j | 0 <= i < j < |out| :: out[i] != out[j]
    requires forall i, j | 0 <= i < |rows| && 0 <= j < |out| :: rows[i] != out[j]
    requires forall i | 0 <= i < |rows| :: rows[i].Length >= cols && rows[i].Length >= width
    requires forall i | 0 <= i < |rows| :: rows[i][..width] == img[Clamp(base - 1 + i, |img|)]
    requires forall j | 0 <= j < |out| :: out[j].Length >= cols
    modifies rows, out
    ensures forall i | 0 <= i < |rows| :: rows[i][..width] == old(rows[i][..width])
    ensures forall j, x | 0 <= j < v && 0 <= x < cols :: out[j][x] == Stencil(img, cols, sf, base + j, x)
  {
    WidenRows(rows, width, cols, img, base);
    hide Widened, Stencil;
    var j := 0;
    while j < v
      invariant j <= v && forall k | 0 <= k < |rows| :: Widened(rows[k], img, cols, base - 1 + k)
      invariant forall k | 0 <= k < |rows| :: rows[k][..width] == old(rows[k][..width])
      invariant forall k, x | 0 <= k < j && 0 <= x < cols :: out[k][x] == Stencil(img, cols, sf, base + k, x)
      modifies out
    {
      SmoothRow(rows[j], rows[j + 1], rows[j + 2], out[j], cols, sf, img, base + j);
      j := j + 1;
    }
  }

  // ----- Two to one in both directions -----

  /** The smoothed value of a pixel before rounding, times 65536. */
  function Smoothed(img: seq<Row>, cols: nat, sf: nat, y: int, x: int): (s: int)
    requires img != [] && cols > 0 && forall r | 0 <= r < |img| :: |img[r]| == |img[0]| > 0
  {
    Pixel(img, cols, y, x) * (65536 - sf * 512) + Around(img, cols, y, x) * (sf * 64)
  }

  /** Four smoothed pixels, of which (y, x) is the first. */
  function SmoothedSquare(img: seq<Row>, cols: nat, sf: nat, y: int, x: int): (s: int)
    requires img != [] && cols > 0 && forall r | 0 <= r < |img| :: |img[r]| == |img[0]| > 0
  {
    Smoothed(img, cols, sf, y, x) + Smoothed(img, cols, sf, y, x + 1)
    + Smoothed(img, cols, sf, y + 1, x) + Smoothed(img, cols, sf, y + 1, x + 1)
  }

  /** The four pixels of a square. */
  function Members(img: seq<Row>, cols: nat, y: int, x: int): (s: nat)
    requires img != [] && cols > 0 && forall r | 0 <= r < |img| :: |img[r]| == |img[0]| > 0
  {
    Pixel(img, cols, y, x) + Pixel(img, cols, y, x + 1) + Pixel(img, cols, y + 1, x) + Pixel(img, cols, y + 1, x + 1)
  }

  /** The eight pixels that share an edge with the square. */
  function Edges(img: seq<Row>, cols: nat, y: int, x: int): (s: nat)
    requires img != [] && cols > 0 && forall r | 0 <= r < |img| :: |img[r]| == |img[0]| > 0
  {
    Pixel(img, cols, y - 1, x) + Pixel(img, cols, y - 1, x + 1) + Pixel(img, cols, y + 2, x)
    + Pixel(img, cols, y + 2, x + 1)
    + Pixel(img, cols, y, x - 1) + Pixel(img, cols, y, x + 2) + Pixel(img, cols, y + 1, x - 1)
    + Pixel(img, cols, y + 1, x + 2)
  }

  function Corners(img: seq<Row>, cols: nat, y: int, x: int): (s: nat)
    requires img != [] && cols > 0 && forall r | 0 <= r < |img| :: |img[r]| == |img[0]| > 0
  {
    Pixel(img, cols, y - 1, x - 1) + Pixel(img, cols, y - 1, x + 2) + Pixel(img, cols, y + 2, x - 1)
    + Pixel(img, cols, y + 2, x + 2)
  }

  /** The weights that the routine uses for a square and its surroundings. */
  function Weighted(members: nat, neighs: nat, sf: nat): (s: int) {
    members * (16384 - sf * 80) + neighs * (sf * 16)
  }

  /** Weighting a square and its surroundings once is the average of four smoothed pixels. */
  lemma AverageOfFour(img: seq<Row>, cols: nat, sf: nat, y: int, x: int)
    requires img != [] && cols > 0 && forall r | 0 <= r < |img| :: |img[r]| == |img[0]| > 0
    ensures SmoothedSquare(img, cols, sf, y, x)
            == 4 * Weighted(Members(img, cols, y, x), 2 * Edges(img, cols, y, x) + Corners(img, cols, y, x), sf)
  {
    hide Pixel;
    var a, b := Around(img, cols, y, x), Around(img, cols, y, x + 1);
    var c, d := Around(img, cols, y + 1, x), Around(img, cols, y + 1, x + 1);
    var m, e, k := Members(img, cols, y, x), Edges(img, cols, y, x), Corners(img, cols, y, x);
    assert a + b + c + d == 3 * m + 2 * e + k;
    hide Around, Members, Edges, Corners;
    Weights(Pixel(img, cols, y, x), Pixel(img, cols, y, x + 1), Pixel(img, cols, y + 1, x),
            Pixel(img, cols, y + 1, x + 1), a, b, c, d, 2 * e + k, sf);
  }

  lemma Weights(p: nat, q: nat, r: nat, s: nat, a: nat, b: nat, c: nat, d: nat, n: nat, sf: nat)
    requires a + b + c + d == 3 * (p + q + r + s) + n
    ensures var u, v := 65536 - sf * 512, sf * 64;
            (p * u + a * v) + (q * u + b * v) + (r * u + c * v) + (s * u + d * v)
            == 4 * Weighted(p + q + r + s, n, sf)
  {
    var m, u, v := p + q + r + s, 65536 - sf * 512, sf * 64;
    assert p * u + q * u + r * u + s * u == m * u;
    assert a * v + b * v + c * v + d * v == (3 * m + n) * v;
    assert m * u + 3 * m * v == m * (u + 3 * v);
  }

  /** The average of four smoothed pixels, rounded once. */
  function Averaged(img: seq<Row>, cols: nat, sf: nat, y: int, x: int): (v: int)
    requires img != [] && cols > 0 && forall r | 0 <= r < |img| :: |img[r]| == |img[0]| > 0
  {
    (SmoothedSquare(img, cols, sf, y, x) + 131072) / 262144
  }

  /** It is the integer nearest to the average of the four. */
  lemma AverageNearest(img: seq<Row>, cols: nat, sf: nat, y: int, x: int)
    requires img != [] && cols > 0 && forall r | 0 <= r < |img| :: |img[r]| == |img[0]| > 0
    ensures var four := PixelParts(img, cols, sf, y, x) + PixelParts(img, cols, sf, y, x + 1)
                        + PixelParts(img, cols, sf, y + 1, x) + PixelParts(img, cols, sf, y + 1, x + 1);
            -2048 <= 4096 * Averaged(img, cols, sf, y, x) - four <= 2048
  {
    hide Pixel, Around, Parts;
    PartsWeights(Pixel(img, cols, y, x), Around(img, cols, y, x), sf);
    PartsWeights(Pixel(img, cols, y, x + 1), Around(img, cols, y, x + 1), sf);
    PartsWeights(Pixel(img, cols, y + 1, x), Around(img, cols, y + 1, x), sf);
    PartsWeights(Pixel(img, cols, y + 1, x + 1), Around(img, cols, y + 1, x + 1), sf);
    var four := PixelParts(img, cols, sf, y, x) + PixelParts(img, cols, sf, y, x + 1)
      + PixelParts(img, cols, sf, y + 1, x) + PixelParts(img, cols, sf, y + 1, x + 1);
    assert SmoothedSquare(img, cols, sf, y, x) == 64 * four;
    hide PixelParts, SmoothedSquare;
  }

  function PixelParts(img: seq<Row>, cols: nat, sf: nat, y: int, x: int): (s: int)
    requires img != [] && cols > 0 && forall r | 0 <= r < |img| :: |img[r]| == |img[0]| > 0
  {
    Parts(Pixel(img, cols, y, x), Around(img, cols, y, x), sf)
  }

  /** What the routine computes from its three sums. */
  lemma SquareValue(img: seq<Row>, cols: nat, sf: nat, y: int, x: int) returns (v: byte)
    requires img != [] && cols > 0 && forall r | 0 <= r < |img| :: |img[r]| == |img[0]| > 0
    requires sf <= MAX_SMOOTHING
    ensures v == Averaged(img, cols, sf, y, x)
    ensures v == (Weighted(Members(img, cols, y, x), 2 * Edges(img, cols, y, x) + Corners(img, cols, y, x), sf)
                  + 32768) / 65536
  {
    var m, n := Members(img, cols, y, x), 2 * Edges(img, cols, y, x) + Corners(img, cols, y, x);
    assert m <= 4 * 255 && n <= 20 * 255 by { hide Pixel; }
    AverageOfFour(img, cols, sf, y, x);
    hide Members, Edges, Corners, SmoothedSquare;
    WeightedRange(m, n, sf);
    v := (Weighted(m, n, sf) + 32768) / 65536;
  }

  lemma WeightedRange(m: nat, n: nat, sf: nat)
    requires m <= 4 * 255 && n <= 20 * 255 && sf <= MAX_SMOOTHING
    ensures 0 <= Weighted(m, n, sf) <= 255 * 65536
  {
    var u, v := 16384 - sf * 80, sf * 16;
    MulMono(m, 4 * 255, u);
    MulMono(n, 20 * 255, v);
    MulMono(0, m, u);
    MulMono(0, n, v);
    assert 4 * 255 * u + 20 * 255 * v == 255 * 65536;
  }

  function Four(a: byte, b: byte, c: byte, d: byte): (s: nat) {
    a as int + b as int + c as int + d as int
  }

  /** One row of output from two rows of input. */
  method SmoothSquares(above: array<byte>, inp0: array<byte>, inp1: array<byte>, below: array<byte>, out: array<byte>,
                       cols: nat, sf: nat, ghost img: seq<Row>, ghost y: int)
    requires img != [] && cols >= 2 && forall r | 0 <= r < |img| :: |img[r]| == |img[0]| > 0
    requires sf <= MAX_SMOOTHING && out.Length >= cols
    requires out != above && out != inp0 && out != inp1 && out != below
    requires Widened(above, img, 2 * cols, y - 1) && Widened(inp0, img, 2 * cols, y)
    requires Widened(inp1, img, 2 * cols, y + 1) && Widened(below, img, 2 * cols, y + 2)
    modifies out
    ensures forall c | 0 <= c < cols :: out[c] == Averaged(img, 2 * cols, sf, y, 2 * c)
  {
    hide Pixel, Averaged, Weighted;
    EdgeColumns(img, 2 * cols);
    ghost var v := SquareValue(img, 2 * cols, sf, y, 0);
    var member: nat := Four(inp0[0], inp0[1], inp1[0], inp1[1]);
    var neigh: nat := Four(above[0], above[1], below[0], below[1]) + Four(inp0[0], inp0[2], inp1[0], inp1[2]);
    neigh := neigh + neigh;
    neigh := neigh + Four(above[0], above[2], below[0], below[2]);
    out[0] := (Weighted(member, neigh, sf) + 32768) / 65536;
    var c := 1;
    while c < cols - 1
      invariant 1 <= c <= cols - 1
      invariant forall k | 0 <= k < c :: out[k] == Averaged(img, 2 * cols, sf, y, 2 * k)
    {
      var x := 2 * c;
      v := SquareValue(img, 2 * cols, sf, y, x);
      member := Four(inp0[x], inp0[x + 1], inp1[x], inp1[x + 1]);
      neigh := Four(above[x], above[x + 1], below[x], below[x + 1])
        + Four(inp0[x - 1], inp0[x + 2], inp1[x - 1], inp1[x + 2]);
      neigh := neigh + neigh;
      neigh := neigh + Four(above[x - 1], above[x + 2], below[x - 1], below[x + 2]);
      out[c] := (Weighted(member, neigh, sf) + 32768) / 65536;
      c := c + 1;
    }
    var x := 2 * c;
    v := SquareValue(img, 2 * cols, sf, y, x);
    member := Four(inp0[x], inp0[x + 1], inp1[x], inp1[x + 1]);
    neigh := Four(above[x], above[x + 1], below[x], below[x + 1])
      + Four(inp0[x - 1], inp0[x + 1], inp1[x - 1], inp1[x + 1]);
    neigh := neigh + neigh;
    neigh := neigh + Four(above[x - 1], above[x + 1], below[x - 1], below[x + 1]);
    out[c] := (Weighted(member, neigh, sf) + 32768) / 65536;
  }

  lemma EdgeColumns(img: seq<Row>, cols: nat)
    requires img != [] && cols > 0 && forall r | 0 <= r < |img| :: |img[r]| == |img[0]| > 0
    ensures forall y :: Pixel(img, cols, y, -1) == Pixel(img, cols, y, 0)
    ensures forall y :: Pixel(img, cols, y, cols) == Pixel(img, cols, y, cols - 1)
  {
  }

  /** Averages rows that have been widened. */
  method AverageRows(rows: seq<array<byte>>, out: seq<array<byte>>, cols: nat, sf: nat,
                     ghost img: seq<Row>, ghost base: nat)
    requires img != [] && cols >= 2 && forall r | 0 <= r < |img| :: |img[r]| == |img[0]| > 0
    requires sf <= MAX_SMOOTHING && |rows| == 2 * |out| + 2
    requires forall i, j | 0 <= i < j < |out| :: out[i] != out[j]
    requires forall i, j | 0 <= i < |rows| && 0 <= j < |out| :: rows[i] != out[j]
    requires forall j | 0 <= j < |out| :: out[j].Length >= cols
    requires forall k | 0 <= k < |rows| :: Widened(rows[k], img, 2 * cols, base - 1 + k)
    modifies out
    ensures forall j, c | 0 <= j < |out| && 0 <= c < cols ::
              out[j][c] == Averaged(img, 2 * cols, sf, base + 2 * j, 2 * c)
  {
    hide Widened, Averaged;
    var j := 0;
    while j < |out|
      invariant j <= |out| && forall k | 0 <= k < |rows| :: Widened(rows[k], img, 2 * cols, base - 1 + k)
      invariant forall k, c | 0 <= k < j && 0 <= c < cols ::
                  out[k][c] == Averaged(img, 2 * cols, sf, base + 2 * k, 2 * c)
    {
      var inrow := 2 * j;
      SmoothSquares(rows[inrow], rows[inrow + 1], rows[inrow + 2], rows[inrow + 3], out[j], cols, sf, img,
                    base + inrow);
      j := j + 1;
    }
  }

  /** A row group of even height: rows[0] is the context above it and rows[v + 1] the context below. */
  method HalfSmooth(rows: seq<array<byte>>, out: seq<array<byte>>, v: nat, width: nat, cols: nat, sf: nat,
                    ghost img: seq<Row>, ghost base: nat)
    requires Rectangular(img, width) && cols >= 2 && sf <= MAX_SMOOTHING && |rows| == v + 2 && 2 * |out| == v
    requires forall i, j | 0 <= i < j < |rows| :: rows[i] != rows[j]
    requires forall i, j | 0 <= i < j < |out| :: out[i] != out[j]
    requires forall i, j | 0 <= i < |rows| && 0 <= j < |out| :: rows[i] != out[j]
    requires forall i | 0 <= i < |rows| :: rows[i].Length >= 2 * cols && rows[i].Length >= width
    requires forall i | 0 <= i < |rows| :: rows[i][..width] == img[Clamp(base - 1 + i, |img|)]
    requires forall j | 0 <= j < |out| :: out[j].Length >= cols
    modifies rows, out
    ensures forall i | 0 <= i < |rows| :: rows[i][..width] == old(rows[i][..width])
    ensures forall j, c | 0 <= j < |out| && 0 <= c < cols ::
              out[j][c] == Averaged(img, 2 * cols, sf, base + 2 * j, 2 * c)
  {
    WidenRows(rows, width, 2 * cols, img, base);
    hide Widened, Averaged;
    AverageRows(rows, out, cols, sf, img, base);
  }

  // ----- Either way -----

  /** What the output holds at column x of row j: the stencil, or the average of four. */
  function OutputSample(img: seq<Row>, half: bool, cols: nat, sf: nat, j: nat, x: nat): (v: int)
    requires img != [] && cols > 0 && sf <= MAX_SMOOTHING && forall r | 0 <= r < |img| :: |img[r]| == |img[0]| > 0
  {
    if half then Averaged(img, 2 * cols, sf, 2 * j, 2 * x) else Stencil(img, cols, sf, j, x)
  }

  /** Row j of the output. */
  ghost predicate RowOk(img: seq<Row>, half: bool, cols: nat, sf: nat, row: Row, j: nat)
    requires img != [] && cols > 0 && sf <= MAX_SMOOTHING && forall r | 0 <= r < |img| :: |img[r]| == |img[0]| > 0
  {
    |row| == cols && forall x | 0 <= x < cols :: row[x] == OutputSample(img, half, cols, sf, j, x)
  }

  method FreshRows(n: nat, cols: nat) returns (rows: seq<array<byte>>)
    ensures |rows| == n && fresh(rows) && forall i | 0 <= i < n :: rows[i].Length == cols
    ensures forall i, j | 0 <= i < j < n :: rows[i] != rows[j]
  {
    rows := [];
    while |rows| < n
      invariant |rows| <= n && fresh(rows) && forall i | 0 <= i < |rows| :: rows[i].Length == cols
      invariant forall i, j | 0 <= i < j < |rows| :: rows[i] != rows[j]
    {
      var row := new byte[cols](_ => 0);
      rows := rows + [row];
    }
  }

  method ReadRows(rows: seq<array<byte>>) returns (values: seq<Row>)
    ensures |values| == |rows| && forall i | 0 <= i < |rows| :: values[i] == rows[i][..]
  {
    values := [];
    while |values| < |rows|
      invariant |values| <= |rows| && forall i | 0 <= i < |values| :: values[i] == rows[i][..]
    {
      values := values + [rows[|values|][..]];
    }
  }

  /** The output of one row group, whose first row of output has the number first. */
  method SmoothGroup(rows: seq<array<byte>>, v: nat, width: nat, half: bool, cols: nat, sf: nat,
                     ghost img: seq<Row>, ghost base: nat, ghost first: nat)
    returns (group: seq<Row>)
    requires Rectangular(img, width) && cols >= 2 && sf <= MAX_SMOOTHING && |rows| == v + 2
    requires half ==> v % 2 == 0 && base == 2 * first
    requires !half ==> base == first
    requires forall i, j | 0 <= i < j < |rows| :: rows[i] != rows[j]
    requires forall i | 0 <= i < |rows| ::
             rows[i].Length >= (if half then 2 * cols else cols) && rows[i].Length >= width
    requires forall i | 0 <= i < |rows| :: rows[i][..width] == img[Clamp(base - 1 + i, |img|)]
    modifies rows
    ensures forall i | 0 <= i < |rows| :: rows[i][..width] == old(rows[i][..width])
    ensures |group| == (if half then v / 2 else v)
    ensures forall j | 0 <= j < |group| :: RowOk(img, half, cols, sf, group[j], first + j)
  {
    hide Averaged, Stencil;
    var out := FreshRows(if half then v / 2 else v, cols);
    if half {
      HalfSmooth(rows, out, v, width, cols, sf, img, base);
      assert forall j | 0 <= j < |out| :: base + 2 * j == 2 * (first + j);
    } else {
      FullsizeSmooth(rows, out, v, width, cols, sf, img, base);
    }
    group := ReadRows(out);
    forall j | 0 <= j < |group| ensures RowOk(img, half, cols, sf, group[j], first + j) {
      assert half ==> base + 2 * j == 2 * (first + j);
    }
  }
}
