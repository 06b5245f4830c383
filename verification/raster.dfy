/**
  The effect of one stamp on the drawing item's image: pyqtgraph's `drawAt` in
  its default "set" mode with a mask, as the drawing item installs it
  (teclab/image_items.py, lines 72-76, 81-83, 88 and 131-133). The kernel is
  placed with its centre cell on the stamped pixel, kernel axis 0 along x, and
  clipped to the image; inside the window each channel becomes
  `image * (1 - mask) + kern * mask`.
 */
module Raster {
  import opened BrushKernel
  import opened GapFill
  import Drawing

  /** An RGB image: every pixel position inside the image holds its three channel values. */
  type Image = map<Point, seq<int>>

  predicate WellFormed(img: Image) {
    forall p :: p in img ==> |img[p]| == 3
  }

  /** Square kernels of one size with a 0/1 mask. */
  predicate ValidKernels(k: DrawKernels) {
    var size := |k.kern|;
    && Shaped(k.kern, size) && Shaped(k.mask, size)
    && forall r, q, c :: 0 <= r < size && 0 <= q < size && 0 <= c < 3 ==> k.mask[r][q][c] in {0, 1}
  }

  /** The kernel cell over pixel `p` when the kernel centre sits on `at`. */
  function CellOver(k: DrawKernels, at: Point, p: Point): (int, int) {
    (p.0 - at.0 + k.centre, p.1 - at.1 + k.centre)
  }

  predicate InWindow(k: DrawKernels, cell: (int, int)) {
    0 <= cell.0 < |k.kern| && 0 <= cell.1 < |k.kern|
  }

  /** Whether the stamp at `at` writes channel `c` of pixel `p`: the pixel is under the kernel window and the mask is set there. */
  predicate Covers(k: DrawKernels, at: Point, p: Point, c: nat)
    requires ValidKernels(k) && c < 3
  {
    var cell := CellOver(k, at, p);
    InWindow(k, cell) && k.mask[cell.0][cell.1][c] == 1
  }

  /** `drawAt(at)`: blend the kernel into the image through the mask; pixels outside the image are clipped away. */
  function DrawAt(img: Image, at: Point, k: DrawKernels): Image
    requires WellFormed(img) && ValidKernels(k)
  {
    map p | p in img ::
      var cell := CellOver(k, at, p);
      if InWindow(k, cell) then
        seq(3, c requires 0 <= c < 3 =>
          img[p][c] * (1 - k.mask[cell.0][cell.1][c]) + k.kern[cell.0][cell.1][c] * k.mask[cell.0][cell.1][c])
      else img[p]
  }

  /**
    A stamp changes no pixel set outside the image, writes the kernel's value into
    every channel it covers, and leaves every other channel as it was.
   */
  lemma DrawAtSpec(img: Image, at: Point, k: DrawKernels)
    requires WellFormed(img) && ValidKernels(k)
    ensures DrawAt(img, at, k).Keys == img.Keys
    ensures WellFormed(DrawAt(img, at, k))
    ensures forall p, c :: p in img && 0 <= c < 3 ==>
              DrawAt(img, at, k)[p][c] ==
                if Covers(k, at, p, c) then k.kern[CellOver(k, at, p).0][CellOver(k, at, p).1][c] else img[p][c]
  {
    var out := DrawAt(img, at, k);
    forall p, c | p in img && 0 <= c < 3
      ensures out[p][c] == if Covers(k, at, p, c) then k.kern[CellOver(k, at, p).0][CellOver(k, at, p).1][c] else img[p][c]
    {
      var cell := CellOver(k, at, p);
      if InWindow(k, cell) {
        var m := k.mask[cell.0][cell.1][c];
        assert m == 0 || m == 1;
        if m == 1 {
          assert img[p][c] * (1 - m) == 0;
        } else {
          assert k.kern[cell.0][cell.1][c] * m == 0;
        }
      }
    }
  }

  /** Stamping the same point twice leaves the same image as stamping it once. */
  lemma DrawAtIdempotent(img: Image, at: Point, k: DrawKernels)
    requires WellFormed(img) && ValidKernels(k)
    ensures WellFormed(DrawAt(img, at, k))
    ensures DrawAt(DrawAt(img, at, k), at, k) == DrawAt(img, at, k)
  {
    var once := DrawAt(img, at, k);
    DrawAtSpec(img, at, k);
    DrawAtSpec(once, at, k);
    var twice := DrawAt(once, at, k);
    forall p | p in once
      ensures twice[p] == once[p]
    {
      assert |twice[p]| == 3 == |once[p]|;
      forall c | 0 <= c < 3
        ensures twice[p][c] == once[p][c]
      {
      }
    }
  }

  /** Every cell of the kernel holds the same channel values, as the paint and erase kernels do. */
  predicate Uniform(k: DrawKernels)
    requires ValidKernels(k)
  {
    forall r, q, c :: 0 <= r < |k.kern| && 0 <= q < |k.kern| && 0 <= c < 3 ==> k.kern[r][q][c] == k.kern[0][0][c]
  }

  /**
    With a uniform kernel, the order of two stamps does not matter: each channel
    ends with the kernel's value if either stamp covers it, and is unchanged
    otherwise.
   */
  lemma DrawAtCommutes(img: Image, a: Point, b: Point, k: DrawKernels)
    requires WellFormed(img) && ValidKernels(k) && Uniform(k)
    ensures WellFormed(DrawAt(img, a, k)) && WellFormed(DrawAt(img, b, k))
    ensures DrawAt(DrawAt(img, a, k), b, k) == DrawAt(DrawAt(img, b, k), a, k)
  {
    var ia, ib := DrawAt(img, a, k), DrawAt(img, b, k);
    DrawAtSpec(img, a, k);
    DrawAtSpec(img, b, k);
    DrawAtSpec(ia, b, k);
    DrawAtSpec(ib, a, k);
    var ab, ba := DrawAt(ia, b, k), DrawAt(ib, a, k);
    forall p | p in ab
      ensures ab[p] == ba[p]
    {
      assert |ab[p]| == 3 == |ba[p]|;
      forall c | 0 <= c < 3
        ensures ab[p][c] == ba[p][c]
      {
        var ca, cb := CellOver(k, a, p), CellOver(k, b, p);
        if Covers(k, a, p, c) {
          assert k.kern[ca.0][ca.1][c] == k.kern[0][0][c];
        }
        if Covers(k, b, p, c) {
          assert k.kern[cb.0][cb.1][c] == k.kern[0][0][c];
        }
      }
    }
  }

  /** The paint kernel and its erase kernel are both uniform. */
  lemma SetKernelUniform(size: nat, colour: string)
    requires SetKernel(size, colour).Some?
    ensures ValidKernels(SetKernel(size, colour).value)
    ensures Uniform(SetKernel(size, colour).value)
    ensures var k := SetKernel(size, colour).value;
            ValidKernels(k.(kern := EraseKernel(k.kern))) && Uniform(k.(kern := EraseKernel(k.kern)))
  {
    SetKernelSpec(size, colour);
    var k := SetKernel(size, colour).value;
    EraseKernelIsZero(k.kern, size);
  }

  /**
    A stamp of the drawing item's kernel writes exactly the pixels of the disk
    around the stamped point: the kernel window never cuts the disk, and the
    mask is the disk.
   */
  lemma CoversIffInDisk(size: nat, colour: string, at: Point, p: Point, c: nat)
    requires size >= 1 && SetKernel(size, colour).Some? && c < 3
    ensures ValidKernels(SetKernel(size, colour).value)
    ensures Covers(SetKernel(size, colour).value, at, p, c) <==> InDisk(size, p.0 - at.0, p.1 - at.1)
  {
    SetKernelUniform(size, colour);
    SetKernelSpec(size, colour);
    var k := SetKernel(size, colour).value;
    var cell := CellOver(k, at, p);
    InDiskIffInteger(size, p.0 - at.0, p.1 - at.1);
    if InWindow(k, cell) {
      MaskIsDisk(size, cell.0, cell.1);
    }
    if InDisk(size, p.0 - at.0, p.1 - at.1) {
      DiskFitsWindow(size, p.0 - at.0, p.1 - at.1);
      MaskIsDisk(size, cell.0, cell.1);
    }
  }

  /**
    The pixels a stroke paints, as `Drawing.Painted` states them, are exactly the
    pixels some stamp of the sequence covers, in every channel.
   */
  lemma PaintedIffAnyCovers(size: nat, colour: string, stamps: seq<Point>, p: Point, c: nat)
    requires size >= 1 && SetKernel(size, colour).Some? && c < 3
    ensures ValidKernels(SetKernel(size, colour).value)
    ensures AnyCovers(SetKernel(size, colour).value, stamps, p, c) <==> Drawing.Painted(size, stamps, p)
  {
    var k := SetKernel(size, colour).value;
    SetKernelUniform(size, colour);
    forall j | 0 <= j < |stamps|
      ensures Covers(k, stamps[j], p, c) <==> InDisk(size, p.0 - stamps[j].0, p.1 - stamps[j].1)
    {
      CoversIffInDisk(size, colour, stamps[j], p, c);
    }
  }

  /** The stamps of one event, drawn in order. */
  function DrawAll(img: Image, cs: seq<Point>, k: DrawKernels): (out: Image)
    requires WellFormed(img) && ValidKernels(k)
    ensures WellFormed(out) && out.Keys == img.Keys
  {
    if |cs| == 0 then img
    else
      DrawAtSpec(img, cs[0], k);
      DrawAll(DrawAt(img, cs[0], k), cs[1..], k)
  }

  /** Some stamp of `cs` covers channel `c` of pixel `p`. */
  predicate AnyCovers(k: DrawKernels, cs: seq<Point>, p: Point, c: nat)
    requires ValidKernels(k) && c < 3
  {
    exists j :: 0 <= j < |cs| && Covers(k, cs[j], p, c)
  }

  /**
    With a uniform kernel, drawing a sequence of stamps paints a channel with the
    kernel's value exactly when some stamp covers it, and leaves it unchanged
    otherwise. The result depends only on the set of centres, not on their order
    or repetition.
   */
  lemma {:induction false} DrawAllCovered(img: Image, cs: seq<Point>, k: DrawKernels)
    requires WellFormed(img) && ValidKernels(k) && Uniform(k)
    ensures forall p, c :: p in img && 0 <= c < 3 ==>
              DrawAll(img, cs, k)[p][c] == if AnyCovers(k, cs, p, c) then k.kern[0][0][c] else img[p][c]
  {
    if |cs| == 0 {
      assert DrawAll(img, cs, k) == img;
    } else {
      var next := DrawAt(img, cs[0], k);
      var rest := cs[1..];
      DrawAtSpec(img, cs[0], k);
      DrawAllCovered(next, rest, k);
      assert DrawAll(img, cs, k) == DrawAll(next, rest, k);
      forall p, c | p in img && 0 <= c < 3
        ensures DrawAll(img, cs, k)[p][c] == if AnyCovers(k, cs, p, c) then k.kern[0][0][c] else img[p][c]
      {
        var cell := CellOver(k, cs[0], p);
        var later := AnyCovers(k, rest, p, c);
        var any := AnyCovers(k, cs, p, c);
        assert p in next;
        assert DrawAll(next, rest, k)[p][c] == if later then k.kern[0][0][c] else next[p][c];
        if Covers(k, cs[0], p, c) {
          assert k.kern[cell.0][cell.1][c] == k.kern[0][0][c];
          assert next[p][c] == k.kern[0][0][c];
          assert any;
        } else {
          assert next[p][c] == img[p][c];
          if later {
            var j :| 0 <= j < |rest| && Covers(k, rest[j], p, c);
            assert Covers(k, cs[j + 1], p, c);
          }
          if any {
            var j :| 0 <= j < |cs| && Covers(k, cs[j], p, c);
            assert j > 0;
            assert Covers(k, rest[j - 1], p, c);
          }
          assert later == any;
        }
      }
    }
  }
}
