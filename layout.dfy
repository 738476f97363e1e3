/**
 * The square layout of create_colored_qr_code (main.py:55-64) and the
 * canvas it draws on. The canvas stands for the Pillow image: a side x side
 * buffer of pixels stored row-major, written one point at a time, where a
 * point outside the canvas is ignored, and read back row-major as
 * getdata does (main.py:91).
 */
module Layout {
  import opened Packer

  /** Integer floor square root, standing for int(n ** 0.5). */
  function FloorSqrt(n: nat): (r: nat)
    ensures r * r <= n < (r + 1) * (r + 1)
  {
    if n == 0 then 0
    else
      var s := FloorSqrt(n - 1);
      assert (s + 2) * (s + 2) == (s + 1) * (s + 1) + 2 * s + 3;
      if (s + 1) * (s + 1) <= n then s + 1 else s
  }

  /** The floor square root is the only r with r * r <= n < (r + 1) * (r + 1). */
  lemma FloorSqrtUnique(n: nat, r: nat)
    requires r * r <= n < (r + 1) * (r + 1)
    ensures FloorSqrt(n) == r
  {
    var s := FloorSqrt(n);
    if s < r {
      MulMono(s + 1, r);
    } else if s > r {
      MulMono(r + 1, s);
    }
  }

  lemma MulMono(a: nat, b: nat)
    requires a <= b
    ensures a * a <= b * b
  {
    assert a * a <= a * b <= b * b;
  }

  /**
   * side_length = int(total_dots ** 0.5) + (total_dots % 1); the second
   * term is always 0, so the side is the floor square root.
   */
  function SideLength(totalDots: nat): (side: nat)
    ensures side * side <= totalDots < (side + 1) * (side + 1)
    ensures totalDots > 0 ==> side > 0
  {
    FloorSqrt(totalDots) + totalDots % 1
  }

  /** The number of cells of a side x side canvas. */
  function Area(side: nat): (n: nat) {
    side * side
  }

  /** The background the source fills the image with. */
  const White: Pixel := Pixel(255, 255, 255)

  class Canvas {
    const side: nat
    /** The pixel at column x, row y is cells[y * side + x]. */
    const cells: array<Pixel>

    ghost predicate Valid() {
      cells.Length == side * side
    }

    /** Image.new("RGB", (side, side), background). */
    constructor (side: nat, background: Pixel)
      ensures Valid() && this.side == side && fresh(cells)
      ensures forall k :: 0 <= k < cells.Length ==> cells[k] == background
    {
      this.side := side;
      cells := new Pixel[side * side](_ => background);
    }

    /** draw.point((x, y), fill=p): points outside the canvas are dropped. */
    method Point(x: nat, y: nat, p: Pixel)
      requires Valid()
      modifies cells
      ensures x < side && y < side ==> y * side + x < cells.Length && cells[..] == old(cells[..])[y * side + x := p]
      ensures !(x < side && y < side) ==> cells[..] == old(cells[..])
    {
      if x < side && y < side {
        CellIndex(x, y, side);
        cells[y * side + x] := p;
      }
    }

    /** list(img.getdata()): every cell, row by row. */
    function GetData(): (pixels: seq<Pixel>)
      requires Valid()
      reads cells
      ensures |pixels| == side * side
    {
      cells[..]
    }
  }

  lemma CellIndex(x: nat, y: nat, side: nat)
    requires x < side && y < side
    ensures y * side + x < side * side
  {
    assert y * side <= (side - 1) * side;
  }

  /** Pixel i goes to column i % side, row i // side; it lands on the canvas exactly when i < side * side. */
  lemma Placement(i: nat, side: nat)
    requires side > 0
    ensures (i / side) * side + i % side == i
    ensures i % side < side
    ensures i < side * side <==> i / side < side
  {
    if i < side * side {
      DivBelowSquare(i, side);
    } else {
      DivAtLeastSide(i, side);
    }
  }

  lemma DivBelowSquare(i: nat, side: nat)
    requires side > 0 && i < side * side
    ensures i / side < side
  {
  }

  lemma DivAtLeastSide(i: nat, side: nat)
    requires side > 0 && i >= side * side
    ensures i / side >= side
  {
    var q := i / side;
    assert i < (q + 1) * side;
    MulLess(side, q + 1, side);
  }

  lemma MulLess(a: nat, b: nat, c: nat)
    requires a * c < b * c
    ensures a < b
  {
  }

  /**
   * The drawing loop of create_colored_qr_code: pixel i is drawn at
   * (i % side, i // side). Cell k receives pixel k when there is one and
   * keeps its background otherwise; the pixels from side * side on fall
   * outside the canvas.
   */
  method PlacePixels(img: Canvas, pixels: seq<Pixel>)
    requires img.Valid()
    requires |pixels| > 0 ==> img.side > 0
    modifies img.cells
    ensures forall k :: 0 <= k < img.cells.Length ==>
      img.cells[k] == if k < |pixels| then pixels[k] else old(img.cells[k])
    ensures Area(img.side) <= |pixels| ==> img.cells[..] == pixels[..Area(img.side)]
  {
    var side := img.side;
    ghost var background := img.cells[..];
    for i := 0 to |pixels|
      invariant forall k :: 0 <= k < img.cells.Length ==>
        img.cells[k] == if k < i then pixels[k] else background[k]
    {
      var x := i % side;
      var y := i / side;
      Placement(i, side);
      img.Point(x, y, pixels[i]);
    }
    if Area(side) <= |pixels| {
      assert img.cells[..] == pixels[..side * side];
    }
  }
}
