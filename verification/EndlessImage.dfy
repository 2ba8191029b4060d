/** An image whose first and last rows go on for ever. */
module EndlessImage {
  import opened Numbers

  type Row = seq<byte>

  /** The row of the source that stands for row q of the endless image. */
  function Clamp(q: int, height: nat): (r: nat)
    requires height > 0
    ensures r < height && (0 <= q < height ==> r == q)
  {
    if q < 0 then 0 else if q >= height then height - 1 else q
  }

  /** It is the row of the source that is nearest to it. */
  lemma Nearest(q: int, height: nat, r: nat)
    requires r < height
    ensures var c := Clamp(q, height); (if c <= q then q - c else c - q) <= (if r <= q then q - r else r - q)
  {
  }

  /** The first row of group g. */
  function Base(g: nat, v: nat): (q: nat) {
    g * v
  }

  /** What a downsampler sees of row group g: one group above it to one group below it. */
  function Window(img: seq<Row>, v: nat, g: nat): (w: seq<Row>)
    requires img != []
    ensures |w| == 3 * v && forall d | 0 <= d < 3 * v :: w[d] == img[Clamp(Base(g, v) - v + d, |img|)]
  {
    seq(3 * v, d requires 0 <= d < 3 * v => img[Clamp(Base(g, v) - v + d, |img|)])
  }

  lemma GroupStep(n: nat, v: nat)
    ensures Base(n + 1, v) == Base(n, v) + v
  {
  }
}
