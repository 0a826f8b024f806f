/** Images as grids of packed 32-bit ARGB words, and the pixel loop of
    `GrayscaleBlend.convert`. */
module Raster {
  import opened Pixel

  /** A raster of `width` x `height` words, stored row by row: the pixel at
      column `x` and row `y` (Java's `getRGB(x, y)`) is `rows[y][x]`. */
  datatype Image = Image(width: nat, height: nat, rows: seq<seq<bv32>>)

  predicate Valid(img: Image)
  {
    |img.rows| == img.height && forall y :: 0 <= y < img.height ==> |img.rows[y]| == img.width
  }

  function At(img: Image, x: nat, y: nat): bv32
    requires Valid(img) && x < img.width && y < img.height
  {
    img.rows[y][x]
  }

  /** A freshly allocated `BufferedImage`: every word is zero. Allocation
      is taken to succeed at every size (see README). */
  function Blank(width: nat, height: nat): (img: Image)
    ensures Valid(img) && img.width == width && img.height == height
    ensures forall x, y :: 0 <= x < width && 0 <= y < height ==> At(img, x, y) == 0
  {
    Image(width, height, seq(height, y => seq(width, x => 0)))
  }

  /** The blended image, defined cell by cell without any traversal order:
      each output pixel depends only on the two input pixels at the same
      coordinate. */
  function Blend(white: Image, black: Image): (out: Image)
    requires Valid(white) && Valid(black)
    requires black.width == white.width && black.height == white.height
    ensures Valid(out) && out.width == white.width && out.height == white.height
    ensures forall x, y :: 0 <= x < out.width && 0 <= y < out.height ==>
              At(out, x, y) == BlendPixel(At(white, x, y), At(black, x, y))
  {
    Image(white.width, white.height,
      seq(white.height, y requires 0 <= y < white.height =>
        seq(white.width, x requires 0 <= x < white.width =>
          BlendPixel(white.rows[y][x], black.rows[y][x]))))
  }

  /** Two image pairs that agree at one coordinate blend to the same pixel
      there, whatever they hold elsewhere. */
  lemma BlendIsLocal(w1: Image, b1: Image, w2: Image, b2: Image, x: nat, y: nat)
    requires Valid(w1) && Valid(b1) && b1.width == w1.width && b1.height == w1.height
    requires Valid(w2) && Valid(b2) && b2.width == w2.width && b2.height == w2.height
    requires x < w1.width && y < w1.height && x < w2.width && y < w2.height
    requires At(w1, x, y) == At(w2, x, y) && At(b1, x, y) == At(b2, x, y)
    ensures At(Blend(w1, b1), x, y) == At(Blend(w2, b2), x, y)
  {
  }

  /** Whether cell (x, y) comes before cell (i, j) in the source's loop
      order: columns outermost, rows innermost. */
  predicate Before(x: nat, y: nat, i: nat, j: nat)
  {
    x < i || (x == i && y < j)
  }

  /** The result grid after the loop has visited exactly the cells before
      (i, j): those hold their pixel of `target`, all others are still
      zero. */
  predicate Filled(rows: seq<seq<bv32>>, target: Image, i: nat, j: nat)
    requires Valid(target)
  {
    && |rows| == target.height
    && (forall y :: 0 <= y < target.height ==> |rows[y]| == target.width)
    && forall x, y :: 0 <= x < target.width && 0 <= y < target.height ==>
         rows[y][x] == if Before(x, y, i, j) then At(target, x, y) else 0
  }

  /** The visit log holds each cell before (i, j) exactly once, and nothing
      else. */
  predicate Visited(writes: seq<(nat, nat)>, width: nat, height: nat, i: nat, j: nat)
  {
    && (forall k :: 0 <= k < |writes| ==>
          writes[k].0 < width && writes[k].1 < height && Before(writes[k].0, writes[k].1, i, j))
    && (forall x, y :: 0 <= x < width && 0 <= y < height && Before(x, y, i, j) ==> (x, y) in writes)
    && (forall k, l :: 0 <= k < l < |writes| ==> writes[k] != writes[l])
  }

  /** The loop of `convert`: start from a blank result and visit columns
      in order, and within a column rows in order, writing one pixel per
      visit. `writes` records the visited coordinates: each in range, every
      cell visited, none twice. The result is the order-free `Blend`. */
  method BlendColumns(white: Image, black: Image) returns (out: Image, writes: seq<(nat, nat)>)
    requires Valid(white) && Valid(black)
    requires black.width == white.width && black.height == white.height
    ensures out == Blend(white, black)
    ensures forall k :: 0 <= k < |writes| ==> writes[k].0 < white.width && writes[k].1 < white.height
    ensures forall x, y :: 0 <= x < white.width && 0 <= y < white.height ==> (x, y) in writes
    ensures forall k, l :: 0 <= k < l < |writes| ==> writes[k] != writes[l]
  {
    var w, h := white.width, white.height;
    var rows := Blank(w, h).rows;
    writes := [];
    ghost var target := Blend(white, black);
    var i := 0;
    while i < w
      invariant i <= w
      invariant Filled(rows, target, i, 0)
      invariant Visited(writes, w, h, i, 0)
    {
      rows, writes := BlendColumn(white, black, i, rows, writes);
      i := i + 1;
    }
    out := Image(w, h, rows);
    assert forall y :: 0 <= y < h ==> rows[y] == target.rows[y];
  }

  /** One pass of the inner loop: fills column `i` top to bottom. */
  method BlendColumn(white: Image, black: Image, i: nat, rows0: seq<seq<bv32>>, writes0: seq<(nat, nat)>)
    returns (rows: seq<seq<bv32>>, writes: seq<(nat, nat)>)
    requires Valid(white) && Valid(black)
    requires black.width == white.width && black.height == white.height
    requires i < white.width
    requires Filled(rows0, Blend(white, black), i, 0)
    requires Visited(writes0, white.width, white.height, i, 0)
    ensures Filled(rows, Blend(white, black), i + 1, 0)
    ensures Visited(writes, white.width, white.height, i + 1, 0)
  {
    var h := white.height;
    rows, writes := rows0, writes0;
    var j := 0;
    while j < h
      invariant j <= h
      invariant Filled(rows, Blend(white, black), i, j)
      invariant Visited(writes, white.width, h, i, j)
    {
      rows, writes := BlendCell(white, black, i, j, rows, writes);
      j := j + 1;
    }
  }

  /** The loop body: writes cell (i, j) and logs the visit. */
  method BlendCell(white: Image, black: Image, i: nat, j: nat, rows0: seq<seq<bv32>>, writes0: seq<(nat, nat)>)
    returns (rows: seq<seq<bv32>>, writes: seq<(nat, nat)>)
    requires Valid(white) && Valid(black)
    requires black.width == white.width && black.height == white.height
    requires i < white.width && j < white.height
    requires Filled(rows0, Blend(white, black), i, j)
    requires Visited(writes0, white.width, white.height, i, j)
    ensures Filled(rows, Blend(white, black), i, j + 1)
    ensures Visited(writes, white.width, white.height, i, j + 1)
  {
    var p := BlendPixel(At(white, i, j), At(black, i, j));
    rows := rows0[j := rows0[j][i := p]];
    writes := writes0 + [(i, j)];
    FilledStep(rows0, Blend(white, black), i, j, p);
    VisitedStep(writes0, white.width, white.height, i, j);
  }

  /** Writing the target pixel at (i, j) extends the filled region by
      that one cell. */
  lemma FilledStep(rows: seq<seq<bv32>>, target: Image, i: nat, j: nat, p: bv32)
    requires Valid(target) && i < target.width && j < target.height
    requires Filled(rows, target, i, j) && p == At(target, i, j)
    ensures Filled(rows[j := rows[j][i := p]], target, i, j + 1)
  {
    var rows' := rows[j := rows[j][i := p]];
    forall x, y | 0 <= x < target.width && 0 <= y < target.height
      ensures rows'[y][x] == if Before(x, y, i, j + 1) then At(target, x, y) else 0
    {
      if y != j {
        assert rows'[y] == rows[y];
      } else if x != i {
        assert rows'[j][x] == rows[j][x];
      }
    }
  }

  /** Logging the visit of (i, j) extends the visited region by that one
      cell, which was not logged before. */
  lemma VisitedStep(writes: seq<(nat, nat)>, width: nat, height: nat, i: nat, j: nat)
    requires i < width && j < height
    requires Visited(writes, width, height, i, j)
    ensures Visited(writes + [(i, j)], width, height, i, j + 1)
  {
    var writes' := writes + [(i, j)];
    assert (i, j) !in writes;
    forall k, l | 0 <= k < l < |writes'|
      ensures writes'[k] != writes'[l]
    {
      if l == |writes| {
        assert writes'[k] in writes;
      }
    }
  }
}
