/** The frame the renderer draws into, and the order in which it visits
    the pixels. */
module Frame {
  import opened Scene

  /** A pixel position (x, y): column x, row y. */
  type Pixel = (nat, nat)

  predicate InGrid(p: Pixel, width: nat, height: nat) {
    p.0 < width && p.1 < height
  }

  /** p comes before q in row-major order: an earlier row, or the same row
      and an earlier column. */
  predicate Precedes(p: Pixel, q: Pixel) {
    p.1 < q.1 || (p.1 == q.1 && p.0 < q.0)
  }

  /** The first `n` pixels of row y, left to right. */
  function Row(y: nat, n: nat): (r: seq<Pixel>)
    ensures |r| == n
  {
    seq(n, x => (x, y))
  }

  /** Row y's first n pixels hold each pixel (x, y) with x < n once and
      no other pixel. */
  lemma {:induction false} RowCounts(y: nat, n: nat)
    ensures forall p: Pixel :: multiset(Row(y, n))[p] == if p.1 == y && p.0 < n then 1 else 0
  {
    if n > 0 {
      RowCounts(y, n - 1);
      assert Row(y, n) == Row(y, n - 1) + [(n - 1, y)];
    }
  }

  /** The pixels of a width x height grid: rows from the top, each row
      from the left; this is the visiting order of `for y { for x { .. } }`. */
  function RowMajor(width: nat, height: nat): seq<Pixel> {
    if height == 0 then [] else RowMajor(width, height - 1) + Row(height - 1, width)
  }

  /** RowMajor lists exactly the pixels of the grid, each once, strictly
      increasing in row-major order (so no pixel appears twice). */
  lemma {:induction false} RowMajorVisitsEachOnce(width: nat, height: nat)
    ensures |RowMajor(width, height)| == width * height
    ensures forall p: Pixel :: p in RowMajor(width, height) <==> InGrid(p, width, height)
    ensures forall i, j :: 0 <= i < j < |RowMajor(width, height)| ==>
      Precedes(RowMajor(width, height)[i], RowMajor(width, height)[j])
    ensures forall i, j :: 0 <= i < j < |RowMajor(width, height)| ==>
      RowMajor(width, height)[i] != RowMajor(width, height)[j]
    ensures forall p: Pixel :: multiset(RowMajor(width, height))[p] == if InGrid(p, width, height) then 1 else 0
  {
    if height > 0 {
      RowMajorVisitsEachOnce(width, height - 1);
      var s, row := RowMajor(width, height - 1), Row(height - 1, width);
      assert RowMajor(width, height) == s + row;
      RowCounts(height - 1, width);
      assert multiset(s + row) == multiset(s) + multiset(row);
      assert |s + row| == width * (height - 1) + width == width * height;
      forall p: Pixel | InGrid(p, width, height)
        ensures p in s + row
      {
        if p.1 == height - 1 { assert row[p.0] == p; }
      }
      forall i, j | 0 <= i < j < |s + row|
        ensures Precedes((s + row)[i], (s + row)[j])
      {
        if j >= |s| && i < |s| { assert s[i] in s; }
      }
    }
  }

  /** The pixel buffer with its current drawing colour. `pixels[x, y]` is
      the colour at (x, y); how the source packs it into memory is not
      modelled. `plotted` records every `point` call, in order. */
  class Framebuffer {
    const width: nat
    const height: nat
    const pixels: array2<Color>
    var currentColor: Color
    ghost var plotted: seq<Pixel>

    ghost predicate Valid()
      reads this
    {
      pixels.Length0 == width && pixels.Length1 == height
    }

    /** A width x height frame with every pixel set to `fill`. */
    constructor (width: nat, height: nat, fill: Color)
      ensures Valid() && fresh(pixels)
      ensures this.width == width && this.height == height
      ensures forall x, y :: 0 <= x < width && 0 <= y < height ==> pixels[x, y] == fill
      ensures currentColor == fill && plotted == []
    {
      this.width, this.height := width, height;
      pixels := new Color[width, height]((x, y) => fill);
      currentColor := fill;
      plotted := [];
    }

    /** `set_current_color`: the colour later `point` calls write. */
    method SetCurrentColor(c: Color)
      requires Valid()
      modifies this`currentColor
      ensures Valid()
      ensures currentColor == c
    {
      currentColor := c;
    }

    /** `point(x, y)`: writes the current colour at (x, y); a position
      outside the frame leaves every pixel as it was. */
    method Point(x: nat, y: nat)
      requires Valid()
      modifies this`plotted, pixels
      ensures Valid()
      ensures plotted == old(plotted) + [(x, y)]
      ensures x < width && y < height ==> pixels[x, y] == currentColor
      ensures forall i, j :: 0 <= i < width && 0 <= j < height && (i != x || j != y) ==>
        pixels[i, j] == old(pixels[i, j])
    {
      if x < width && y < height {
        pixels[x, y] := currentColor;
      }
      plotted := plotted + [(x, y)];
    }
  }
}
