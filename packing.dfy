/**
 * Row-major packing of a picture into 4 bytes per pixel, independent of how each pixel
 * is obtained. Every framebuffer converter of the frontend writes pixel (x, y) of a
 * `w` pixels wide picture at `(y * w + x) * 4`, row after row; `Image` is that output
 * for a picture given as a function from (row, column) to the pixel's four bytes.
 */
module Packing {
  import opened Common

  /** The four output bytes of one pixel. */
  type Pixel = s: seq<byte> | |s| == 4 witness [0, 0, 0, 0]

  /** A picture: the output bytes of the pixel in row `y`, column `x`. */
  type Grid = (nat, nat) -> Pixel

  /** Output of the first `x` pixels of row `y`. */
  function RowOut(g: Grid, y: nat, x: nat): (r: seq<byte>)
    ensures |r| == 4 * x
    decreases x
  {
    if x == 0 then [] else RowOut(g, y, x - 1) + g(y, x - 1)
  }

  /** Output of the first `y` rows of a `w` pixels wide picture. */
  function RowsOut(g: Grid, w: nat, y: nat): (r: seq<byte>)
    ensures |r| == Mul(y, w) * 4
    decreases y
  {
    if y == 0 then [] else RowsOut(g, w, y - 1) + RowOut(g, y - 1, w)
  }

  /** The packed output of a whole `w` by `h` picture. */
  function Image(g: Grid, w: nat, h: nat): (out: seq<byte>)
    ensures |out| == Mul(w, h) * 4
  {
    MulComm(w, h);
    RowsOut(g, w, h)
  }

  lemma {:induction false} RowOutExtends(g: Grid, y: nat, x1: nat, x2: nat)
    requires x1 <= x2
    ensures RowOut(g, y, x1) == RowOut(g, y, x2)[..4 * x1]
    decreases x2
  {
    if x1 < x2 {
      RowOutExtends(g, y, x1, x2 - 1);
      assert RowOut(g, y, x2)[..4 * (x2 - 1)] == RowOut(g, y, x2 - 1);
    }
  }

  lemma {:induction false} RowsOutExtends(g: Grid, w: nat, y1: nat, y2: nat)
    requires y1 <= y2
    ensures Mul(y1, w) * 4 <= Mul(y2, w) * 4
    ensures RowsOut(g, w, y1) == RowsOut(g, w, y2)[..Mul(y1, w) * 4]
    decreases y2
  {
    MulMono(y1, y2, w);
    if y1 < y2 {
      RowsOutExtends(g, w, y1, y2 - 1);
      var shorter := RowsOut(g, w, y2 - 1);
      assert RowsOut(g, w, y2)[..|shorter|] == shorter;
    }
  }

  /** The output of row `y` is the four bytes of each of its pixels in turn. */
  lemma RowOutChunk(g: Grid, y: nat, w: nat, x: nat)
    requires x < w
    ensures RowOut(g, y, w)[4 * x..4 * x + 4] == g(y, x)
  {
    RowOutExtends(g, y, x + 1, w);
    assert RowOut(g, y, x + 1)[4 * x..] == g(y, x);
  }

  /** The output of the first `y + 1` rows ends with the output of row `y`. */
  lemma RowsOutChunk(g: Grid, w: nat, y: nat)
    ensures RowsOut(g, w, y + 1)[Mul(y, w) * 4..] == RowOut(g, y, w)
  {
  }

  /** Row `y` of the packed output is the output of that row, `4 * w` bytes from `y * w * 4` on. */
  lemma ImageRow(g: Grid, w: nat, h: nat, y: nat)
    requires y < h
    ensures Mul(y + 1, w) * 4 == Mul(y, w) * 4 + 4 * w <= Mul(w, h) * 4
    ensures Image(g, w, h)[Mul(y, w) * 4..Mul(y + 1, w) * 4] == RowOut(g, y, w)
  {
    PackedRow(w, h, y);
    MulComm(w, h);
    RowsOutExtends(g, w, y + 1, h);
    RowsOutChunk(g, w, y);
  }

  /** Byte `k` of pixel (x, y) sits at `(y * w + x) * 4 + k` in the packed output. */
  lemma ImageIndex(g: Grid, w: nat, h: nat, y: nat, x: nat, k: nat)
    requires y < h && x < w && k < 4
    ensures Mul(y, w) * 4 + 4 * x + k < Mul(w, h) * 4
    ensures Image(g, w, h)[Mul(y, w) * 4 + 4 * x + k] == g(y, x)[k]
  {
    PackedIndex(w, h, y, x, k);
    ImageRow(g, w, h, y);
    var start, row, pixel := Mul(y, w) * 4, RowOut(g, y, w), g(y, x);
    assert Image(g, w, h)[start..start + |row|] == row;
    SliceIndex(Image(g, w, h), start, row, 4 * x + k, start + 4 * x + k);
    RowOutChunk(g, y, w, x);
    assert row[4 * x..4 * x + |pixel|] == pixel;
    SliceIndex(row, 4 * x, pixel, k, 4 * x + k);
  }

  /**
   * One step of a converter's loop over a row: an output buffer holding the first `x`
   * pixels of row `y` at `base`, into which pixel `x` is written at `at` and nothing else
   * changes, holds the first `x + 1` pixels and still agrees with its old self below `base`.
   */
  lemma RowStep(g: Grid, y: nat, w: nat, x: nat, base: nat, at: nat, before: seq<byte>, after: seq<byte>)
    requires at == base + 4 * x && x < w
    requires |before| == |after| && base + 4 * w <= |after|
    requires forall k | 0 <= k < 4 * x :: before[base + k] == RowOut(g, y, w)[k]
    requires forall i | 0 <= i < |after| && (i < at || at + 4 <= i) :: after[i] == before[i]
    requires after[at] == g(y, x)[0] && after[at + 1] == g(y, x)[1]
    requires after[at + 2] == g(y, x)[2] && after[at + 3] == g(y, x)[3]
    ensures forall k | 0 <= k < 4 * (x + 1) :: after[base + k] == RowOut(g, y, w)[k]
    ensures forall i | 0 <= i < base :: after[i] == before[i]
  {
    var row := RowOut(g, y, w);
    RowOutChunk(g, y, w, x);
    assert row[4 * x] == g(y, x)[0] && row[4 * x + 1] == g(y, x)[1];
    assert row[4 * x + 2] == g(y, x)[2] && row[4 * x + 3] == g(y, x)[3];
    ExtendChunk(before, after, base, x, row);
  }

  /**
   * One step of a converter's loop over the rows: an output buffer holding the first `y`
   * rows, into whose row `y`, starting at `start`, the output of that row is written with
   * nothing before it changed, holds the first `y + 1` rows.
   */
  lemma RowsStep(g: Grid, w: nat, y: nat, start: nat, before: seq<byte>, after: seq<byte>)
    requires start == Mul(y, w) * 4
    requires |before| == |after| && Mul(y + 1, w) * 4 <= |after|
    requires forall i | 0 <= i < Mul(y, w) * 4 :: before[i] == RowsOut(g, w, y)[i]
    requires forall i | 0 <= i < start :: after[i] == before[i]
    requires forall k | 0 <= k < 4 * w :: after[start + k] == RowOut(g, y, w)[k]
    ensures forall i | 0 <= i < Mul(y + 1, w) * 4 :: after[i] == RowsOut(g, w, y + 1)[i]
  {
    var prev := RowsOut(g, w, y);
    var row := RowOut(g, y, w);
    assert RowsOut(g, w, y + 1) == prev + row;
    ExtendAppend(before, after, prev, row, 4 * w, Mul(y + 1, w) * 4);
  }

  /** Two pictures that agree on every pixel of a `w` by `h` rectangle. */
  predicate SameGrid(g1: Grid, g2: Grid, w: nat, h: nat) {
    forall y: nat, x: nat | y < h && x < w :: g1(y, x) == g2(y, x)
  }

  lemma {:induction false} RowOutSame(g1: Grid, g2: Grid, w: nat, h: nat, y: nat, x: nat)
    requires SameGrid(g1, g2, w, h) && y < h && x <= w
    ensures RowOut(g1, y, x) == RowOut(g2, y, x)
    decreases x
  {
    if x > 0 {
      RowOutSame(g1, g2, w, h, y, x - 1);
      assert g1(y, x - 1) == g2(y, x - 1);
    }
  }

  lemma {:induction false} RowsOutSame(g1: Grid, g2: Grid, w: nat, y: nat)
    requires forall r | 0 <= r < y :: RowOut(g1, r, w) == RowOut(g2, r, w)
    ensures RowsOut(g1, w, y) == RowsOut(g2, w, y)
    decreases y
  {
    if y > 0 {
      RowsOutSame(g1, g2, w, y - 1);
    }
  }

  /** The packed output depends only on the pixels inside the picture. */
  lemma ImageSame(g1: Grid, g2: Grid, w: nat, h: nat)
    requires SameGrid(g1, g2, w, h)
    ensures Image(g1, w, h) == Image(g2, w, h)
  {
    forall r | 0 <= r < h
      ensures RowOut(g1, r, w) == RowOut(g2, r, w)
    {
      RowOutSame(g1, g2, w, h, r, w);
    }
    RowsOutSame(g1, g2, w, h);
  }
}
