/**
  The disk brush of the hover preview and of the drawing item
  (teclab/image_items.py, lines 34-40 and 53, 62-68, 75 and 83).

  A brush of `size` pixels has the centre index c = int((size - 1) / 2), and its
  cells are the offsets dx, dy in [-c, size - c). Row r of a kernel array holds
  dy = r - c and column q holds dx = q - c, as `np.mgrid` lays them out. An
  offset belongs to the brush when dx*dx + dy*dy <= ((size - 1) / 2)^2, compared
  as the source compares it, against a true quotient.
 */
module BrushKernel {
  import opened Wrappers

  /** Python's `int()` of a real number: truncation toward zero. */
  function Truncate(r: real): int {
    if r >= 0.0 then r.Floor else -((-r).Floor)
  }

  /** `int((size - 1) / 2)`: the centre index of the kernel arrays. */
  function CentreIndex(size: nat): (c: nat)
    ensures size == 0 ==> c == 0
    ensures size >= 1 ==> 2 * c <= size - 1 <= 2 * c + 1
  {
    var r := (size - 1) as real / 2.0;
    if size == 0 then
      assert -r == 0.5 && (0.5).Floor == 0;
      Truncate(r)
    else
      assert r >= 0.0;
      var f := r.Floor;
      assert f as real <= r < f as real + 1.0;
      Truncate(r)
  }

  /** The mask test `x * x + y * y <= (size - 1) / 2 * (size - 1) / 2` for one offset. */
  predicate InDisk(size: nat, dx: int, dy: int) {
    WithinRadius(size, dx * dx + dy * dy)
  }

  /** A squared distance `n`, compared as the source compares it with ((size - 1) / 2)^2. */
  predicate WithinRadius(size: nat, n: int) {
    n as real <= (size - 1) as real / 2.0 * (size - 1) as real / 2.0
  }

  /** The brush mask, one boolean per kernel cell: `mask[r][q]` is the offset (q - c, r - c). */
  function Mask(size: nat): seq<seq<bool>> {
    var c := CentreIndex(size);
    seq(size, r => seq(size, q => InDisk(size, q - c, r - c)))
  }

  /** The hover preview's kernel: 255 on the brush, 0 elsewhere (`kern[mask] = 255`). */
  function HoverKernel(size: nat): seq<seq<int>> {
    var m := Mask(size);
    seq(size, r requires 0 <= r < size => seq(size, q requires 0 <= q < size => if m[r][q] then 255 else 0))
  }

  /** `DrawingImage.colors`: the colour channel each colour name selects. */
  function ChannelOf(colour: string): Option<nat> {
    if colour == "r" then Some(0)
    else if colour == "g" then Some(1)
    else if colour == "b" then Some(2)
    else None
  }

  /** The drawing item's kernels: the centre, the size x size x 3 paint kernel and the 0/1 mask. */
  datatype DrawKernels = DrawKernels(centre: nat, kern: seq<seq<seq<int>>>, mask: seq<seq<seq<int>>>)

  /**
    `DrawingImage.setKernel`: the paint kernel is 255 in the selected channel of
    every cell, and the mask repeats the brush mask in all three channels. An
    unknown colour name fails the dictionary lookup (a `KeyError`), modelled as
    `None`.
   */
  function SetKernel(size: nat, colour: string): Option<DrawKernels> {
    match ChannelOf(colour)
    case None => None
    case Some(ch) =>
      var m := Mask(size);
      Some(DrawKernels(
        CentreIndex(size),
        seq(size, r => seq(size, q => seq(3, k => if k == ch then 255 else 0))),
        seq(size, r requires 0 <= r < size => seq(size, q requires 0 <= q < size => seq(3, k => if m[r][q] then 1 else 0)))))
  }

  /**
    Entrywise `kern * f` on a `uint8` array, for a factor 0 <= f <= 255: the
    product wraps modulo 256. The drawing item only multiplies by 0.
   */
  function Times(kern: seq<seq<seq<int>>>, f: int): seq<seq<seq<int>>>
    requires 0 <= f <= 255
  {
    seq(|kern|, r requires 0 <= r < |kern| =>
      seq(|kern[r]|, q requires 0 <= q < |kern[r]| =>
        seq(|kern[r][q]|, k requires 0 <= k < |kern[r][q]| => (kern[r][q][k] * f) % 256)))
  }

  /** The erase kernel installed by a right button: `kern * 0`. */
  function EraseKernel(kern: seq<seq<seq<int>>>): seq<seq<seq<int>>> {
    Times(kern, 0)
  }

  /** A size x size x 3 array. */
  predicate Shaped(a: seq<seq<seq<int>>>, size: nat) {
    && |a| == size
    && (forall r :: 0 <= r < size ==> |a[r]| == size)
    && (forall r, q :: 0 <= r < size && 0 <= q < size ==> |a[r][q]| == 3)
  }

  lemma SquareMonotone(a: nat, b: nat)
    requires a * a <= b * b
    ensures a <= b
  {
  }

  /** The real-valued mask test is exactly an integer test, for odd and even sizes alike. */
  lemma InDiskIffInteger(size: nat, dx: int, dy: int)
    ensures InDisk(size, dx, dy) <==> 4 * (dx * dx + dy * dy) <= (size - 1) * (size - 1)
  {
    WithinRadiusIff(size, dx * dx + dy * dy);
  }

  lemma WithinRadiusIff(size: nat, n: int)
    ensures WithinRadius(size, n) <==> 4 * n <= (size - 1) * (size - 1)
  {
    var m := (size - 1) * (size - 1);
    var mid := n as real <= m as real / 4.0;
    assert WithinRadius(size, n) == mid by {
      HalfSquared(size - 1);
    }
    assert mid == (4 * n <= m) by {
      QuarterLe(n, m);
    }
  }

  lemma HalfSquared(s: int)
    ensures s as real / 2.0 * s as real / 2.0 == (s * s) as real / 4.0
  {
    assert (s as real) * (s as real) == (s * s) as real;
  }

  lemma QuarterLe(n: int, m: int)
    ensures n as real <= m as real / 4.0 <==> 4 * n <= m
  {
  }

  /** An offset of the disk lies at most (size - 1) / 2 from the centre along each axis. */
  lemma DiskReach(size: nat, dx: int, dy: int)
    requires size >= 1 && InDisk(size, dx, dy)
    ensures -(size - 1) <= 2 * dx <= size - 1
    ensures -(size - 1) <= 2 * dy <= size - 1
  {
    InDiskIffInteger(size, dx, dy);
    var a: nat := if dx >= 0 then 2 * dx else -2 * dx;
    var b: nat := if dy >= 0 then 2 * dy else -2 * dy;
    assert a * a == 4 * (dx * dx) && b * b == 4 * (dy * dy);
    SquareMonotone(a, size - 1);
    SquareMonotone(b, size - 1);
  }

  /**
    The mask is the disk: cell (r, q) is set exactly when its offset lies within
    (size - 1) / 2 of the centre.
   */
  lemma MaskIsDisk(size: nat, r: nat, q: nat)
    requires r < size && q < size
    ensures var c := CentreIndex(size);
            Mask(size)[r][q] <==> 4 * ((q - c) * (q - c) + (r - c) * (r - c)) <= (size - 1) * (size - 1)
  {
    var c := CentreIndex(size);
    InDiskIffInteger(size, q - c, r - c);
  }

  /** The centre cell is always painted, and the mask is unchanged by swapping the axes. */
  lemma MaskCentreAndSymmetry(size: nat)
    requires size >= 1
    ensures CentreIndex(size) < size && Mask(size)[CentreIndex(size)][CentreIndex(size)]
    ensures forall r, q :: 0 <= r < size && 0 <= q < size ==> Mask(size)[r][q] == Mask(size)[q][r]
  {
    var c := CentreIndex(size);
    InDiskIffInteger(size, 0, 0);
    forall r, q | 0 <= r < size && 0 <= q < size
      ensures Mask(size)[r][q] == Mask(size)[q][r]
    {
      MaskIsDisk(size, r, q);
      MaskIsDisk(size, q, r);
    }
  }

  /** For an odd size the window is centred, and the mask is unchanged by mirroring either axis. */
  lemma OddMaskMirror(size: nat, r: nat, q: nat)
    requires size % 2 == 1 && r < size && q < size
    ensures Mask(size)[r][q] == Mask(size)[size - 1 - r][q] == Mask(size)[r][size - 1 - q]
  {
    var c := CentreIndex(size);
    assert size - 1 == 2 * c;
    assert (size - 1 - r - c) * (size - 1 - r - c) == (r - c) * (r - c);
    assert (size - 1 - q - c) * (size - 1 - q - c) == (q - c) * (q - c);
    MaskIsDisk(size, r, q);
    MaskIsDisk(size, size - 1 - r, q);
    MaskIsDisk(size, r, size - 1 - q);
  }

  /**
    No part of the disk is cut off: every offset within (size - 1) / 2 of the
    centre lies in the kernel window [-c, size - c).
   */
  lemma DiskFitsWindow(size: nat, dx: int, dy: int)
    requires size >= 1
    requires 4 * (dx * dx + dy * dy) <= (size - 1) * (size - 1)
    ensures 0 <= dx + CentreIndex(size) < size
    ensures 0 <= dy + CentreIndex(size) < size
  {
    var a: nat := if dx < 0 then -dx else dx;
    var b: nat := if dy < 0 then -dy else dy;
    assert (2 * a) * (2 * a) == 4 * (dx * dx);
    assert (2 * b) * (2 * b) == 4 * (dy * dy);
    SquareMonotone(2 * a, size - 1);
    SquareMonotone(2 * b, size - 1);
  }

  /**
    The drawing kernels: `None` exactly for an unknown colour name; otherwise the
    paint kernel is 255 in exactly the selected channel and 0 in the other two,
    and the mask is the same 0/1 brush mask in all three channels.
   */
  lemma SetKernelSpec(size: nat, colour: string)
    ensures SetKernel(size, colour).None? <==> colour !in {"r", "g", "b"}
    ensures SetKernel(size, colour).Some? ==>
              var k := SetKernel(size, colour).value;
              var ch := ChannelOf(colour).value;
              && ch < 3
              && k.centre == CentreIndex(size)
              && Shaped(k.kern, size) && Shaped(k.mask, size)
              && (forall r, q, c :: 0 <= r < size && 0 <= q < size && 0 <= c < 3 ==>
                    (k.kern[r][q][c] == 255 <==> c == ch) && (k.kern[r][q][c] == 0 <==> c != ch))
              && (forall r, q, c :: 0 <= r < size && 0 <= q < size && 0 <= c < 3 ==>
                    k.mask[r][q][c] == if Mask(size)[r][q] then 1 else 0)
  {
  }

  /** The erase kernel has the paint kernel's shape and is zero everywhere. */
  lemma EraseKernelIsZero(kern: seq<seq<seq<int>>>, size: nat)
    requires Shaped(kern, size)
    ensures Shaped(EraseKernel(kern), size)
    ensures forall r, q, c :: 0 <= r < size && 0 <= q < size && 0 <= c < 3 ==> EraseKernel(kern)[r][q][c] == 0
  {
  }

  /** The hover preview and the drawing item cover the same cells for the same size. */
  lemma HoverMatchesDrawingMask(size: nat, colour: string)
    requires SetKernel(size, colour).Some?
    ensures forall r, q, c :: 0 <= r < size && 0 <= q < size && 0 <= c < 3 ==>
              HoverKernel(size)[r][q] == 255 * SetKernel(size, colour).value.mask[r][q][c]
  {
  }
}
