/** Zoom geometry: the crop (camera/ScalerZoomController.cpp), the planes it is read from (nxutil/NXAllocator.cpp) and
    the addresses given to the scaler (nxutil/NXScaler.cpp), with the alignments of include/gralloc_priv.h. */
module Zoom {
  import opened Arithmetic
  import opened Options

  // ----- ALIGN for the powers of two in use -----

  function Align16(x: nat): (r: nat)
    ensures x <= r < x + 16 && r % 16 == 0
  {
    (x + 15) / 16 * 16
  }

  /** YUV_STRIDE */
  function Stride(w: nat): (r: nat)
    ensures w <= r < w + 64 && r % 64 == 0
  {
    (w + 63) / 64 * 64
  }

  /** YUV_YSTRIDE */
  function YStride(w: nat): nat {
    Stride(w / 2) * 2
  }

  /** YUV_VSTRIDE */
  function VStride(h: nat): nat {
    Align16(h)
  }

  // ----- The planes of a buffer -----

  datatype Format = YUV422_PACKED | YUV420_PLANAR | YUV422_PLANAR | YUV444_PLANAR | RGB32 | OTHER_FORMAT

  datatype Plane = Plane(phys: nat, stride: nat, size: nat)

  function Area(stride: nat, rows: nat): nat {
    stride * rows
  }

  function YSize(format: Format, width: nat, height: nat): nat {
    match format
    case YUV422_PACKED => Area(Stride(width * 2), VStride(height))
    case YUV420_PLANAR => Area(YStride(width), VStride(height))
    case YUV422_PLANAR => Area(Stride(width), VStride(height))
    case YUV444_PLANAR => Area(Stride(width), VStride(height))
    case RGB32 => Area(width, height) * 4
    case OTHER_FORMAT => 0
  }

  function CSize(format: Format, width: nat, height: nat): nat {
    match format
    case YUV420_PLANAR => Area(Stride(width / 2), VStride(height / 2))
    case YUV422_PLANAR => Area(Stride(width), VStride(height / 2))
    case YUV444_PLANAR => Area(Stride(width), VStride(height))
    case _ => 0
  }

  /** A buffer as allocateBuffer fills it in; physical addresses are those of whole pages. */
  ghost predicate Allocated(buffer: seq<Plane>, format: Format, width: nat, height: nat) {
    && (forall p | p in buffer :: p.phys % 4096 == 0)
    && |buffer| == (if CSize(format, width, height) > 0 then 3 else 1)
    && buffer[0].stride == YStride(width) && buffer[0].size == YSize(format, width, height)
    && forall i | 0 < i < |buffer| ::
         buffer[i].stride == Stride(width / 2) && buffer[i].size == CSize(format, width, height)
  }

  /** A buffer whose pieces are these pages. */
  ghost predicate On(buffer: seq<Plane>, pages: nat -> Option<nat>) {
    forall j: nat | j < |buffer| :: pages(j) == Some(buffer[j].phys / 4096)
  }

  /** How many pieces of memory a buffer takes. */
  function Pieces(format: Format, width: nat, height: nat): nat {
    if CSize(format, width, height) > 0 then 3 else 1
  }

  lemma PlanesFit(planes: seq<Plane>, page: nat -> Option<nat>, format: Format, width: nat, height: nat)
    requires |planes| == Pieces(format, width, height) && forall j: nat | j < |planes| :: page(j).Some?
    requires forall j: nat | j < |planes| :: planes[j] == Plane(page(j).value * 4096,
                                                               if j == 0 then YStride(width) else Stride(width / 2),
                                                               if j == 0 then YSize(format, width, height)
                                                               else CSize(format, width, height))
    ensures Allocated(planes, format, width, height) && On(planes, page)
  {
    hide YSize, CSize, YStride, Stride;
  }

  /** The answers of ion_alloc_fd, mmap and ion_get_phys are given, for each piece of each buffer: the page, or
      nothing. */
  method AllocateBuffer(
    buf: array<seq<Plane>>, width: nat, height: nat, format: Format, pages: nat -> nat -> Option<nat>)
    returns (ok: bool)
    modifies buf
    ensures ok <==> format != OTHER_FORMAT
                    && forall i: nat, j: nat | i < buf.Length && j < Pieces(format, width, height) :: pages(i)(j).Some?
    ensures ok ==> forall i: nat | i < buf.Length ::
              Allocated(buf[i], format, width, height) && On(buf[i], pages(i))
  {
    hide YSize, CSize, YStride, Stride, Allocated, On;
    if format == OTHER_FORMAT {
      return false;
    }
    var ySize, cSize := YSize(format, width, height), CSize(format, width, height);
    for i := 0 to buf.Length
      invariant forall k: nat, j: nat | k < i && j < Pieces(format, width, height) :: pages(k)(j).Some?
      invariant forall k: nat | k < i :: Allocated(buf[k], format, width, height) && On(buf[k], pages(k))
    {
      var page := pages(i);
      if page(0).None? {
        return false;
      }
      var planes := [Plane(page(0).value * 4096, YStride(width), ySize)];
      if cSize > 0 {
        if page(1).None? {
          return false;
        }
        planes := planes + [Plane(page(1).value * 4096, Stride(width / 2), cSize)];
        if page(2).None? {
          return false;
        }
        planes := planes + [Plane(page(2).value * 4096, Stride(width / 2), cSize)];
      }
      PlanesFit(planes, page, format, width, height);
      buf[i] := planes;
    }
    return true;
  }

  // ----- The crop -----

  datatype Context = Context(left: int, top: int, srcWidth: int, srcHeight: int, dstWidth: int, dstHeight: int)

  function Abs(x: int): int {
    if x < 0 then -x else x
  }

  /** Division as C has it: what is left over has the sign of a and is smaller than b. */
  predicate Truncated(x: int, a: int, b: int) {
    && (a >= 0 ==> 0 <= a - x * b < Abs(b))
    && (a <= 0 ==> -Abs(b) < a - x * b <= 0)
  }

  function Quotient(a: int, b: int): (x: int)
    requires b != 0
    ensures Truncated(x, a, b)
  {
    if a >= 0 then
      Divided(a, b);
      a / b
    else
      Divided(-a, b);
      -((-a) / b)
  }

  lemma Divided(a: int, b: int)
    requires a >= 0 && b != 0
    ensures Truncated(a / b, a, b) && Truncated(-(a / b), -a, b)
  {
    var x := a / b;
    assert a == x * b + a % b;
    assert -x * b == -(x * b);
  }

  lemma TruncatedOnce(x: int, y: int, a: int, b: int)
    requires b != 0 && Truncated(x, a, b) && Truncated(y, a, b)
    ensures x == y
  {
    assert (x - y) * b == x * b - y * b;
    if x != y {
      OneApart(x - y, b);
    }
  }

  lemma OneApart(n: int, b: int)
    requires n != 0
    ensures n * b >= Abs(b) || n * b <= -Abs(b)
  {
    if n > 0 {
      Below(1, n, Abs(b));
    } else {
      Below(1, -n, Abs(b));
    }
  }

  /** Where a place of the base picture is in the frame; a crop of the full size is taken to start at 0. */
  predicate Placed(x: int, at: int, size: int, base: int, frame: int) {
    if base == size then x == 0 else Truncated(x, at * frame, base)
  }

  /** How large a size of the base picture is in the frame. */
  predicate Sized(n: int, size: int, base: int, frame: int) {
    if base == size then n == frame else Truncated(n, size * frame, base)
  }

  /** For a crop inside the base picture both are scaled down and rounded down. */
  lemma PlacedInside(x: int, n: int, at: nat, size: nat, base: nat, frame: nat)
    requires at + size <= base && base > 0
    ensures Placed(x, at, size, base, frame) <==>
      if size == base then x == 0 else x * base <= at * frame < (x + 1) * base
    ensures Sized(n, size, base, frame) <==>
      if size == base then n == frame else n * base <= size * frame < (n + 1) * base
  {
    hide Truncated;
    Times(0, at, frame);
    Times(0, size, frame);
    RoundedDown(x, at * frame, base);
    RoundedDown(n, size * frame, base);
  }

  lemma RoundedDown(x: int, a: nat, base: nat)
    requires base > 0
    ensures Truncated(x, a, base) <==> x * base <= a < (x + 1) * base
  {
    OneMore(x, base);
    if a == 0 && x != 0 {
      OneApart(x, base);
    }
  }

  lemma OneMore(x: int, base: int)
    ensures (x + 1) * base == x * base + base
  {
  }

  /** What setCrop does with either direction. */
  method Scale(at: int, size: int, base: int, frame: int) returns (calcAt: int, calcSize: int)
    requires base != 0
    ensures Placed(calcAt, at, size, base, frame) && Sized(calcSize, size, base, frame)
    ensures 0 <= at && 0 < size && at + size <= base && frame > 0 ==> 0 <= calcAt <= frame && 0 <= calcSize
  {
    hide Truncated;
    if base == size {
      calcAt, calcSize := 0, frame;
    } else {
      calcAt, calcSize := Quotient(at * frame, base), Quotient(size * frame, base);
    }
    if 0 <= at && 0 < size && at + size <= base && frame > 0 {
      ScaledInside(at, size, base, frame);
    }
  }

  function Min(a: int, b: int): int {
    if a < b then a else b
  }

  lemma PlacedOnce(x: int, y: int, at: int, size: int, base: int, frame: int)
    requires base != 0 && Placed(x, at, size, base, frame) && Placed(y, at, size, base, frame)
    ensures x == y
  {
    if base != size {
      TruncatedOnce(x, y, at * frame, base);
    }
  }

  /** The left edge goes to the next multiple of 32, and what then sticks out of the frame is cut off. */
  ghost predicate Sideways(c: Context, left: int, w: int, base: int, width: int) {
    exists x, n | Placed(x, left, w, base, width) && Sized(n, w, base, width) ::
      c.left % 32 == 0 && x <= c.left < x + 32 && c.srcWidth == Min(n, width - c.left)
  }

  ghost predicate Upright(c: Context, top: int, h: int, base: int, height: int) {
    exists y, n | Placed(y, top, h, base, height) && Sized(n, h, base, height) ::
      c.top == y && c.srcHeight == Min(n, height - c.top)
  }

  class ScalerZoomController {
    var width: int
    var height: int
    var baseWidth: int
    var baseHeight: int
    var srcLeft: int
    var srcTop: int
    var srcWidth: int
    var srcHeight: int
    var context: Context

    predicate Same(left: int, top: int, w: int, h: int)
      reads this
    {
      srcLeft == left && srcTop == top && srcWidth == w && srcHeight == h
    }

    predicate InBase(left: int, top: int, w: int, h: int)
      reads this
    {
      && width > 0 && height > 0 && 0 <= left && 0 <= top && 0 < w && 0 < h
      && left + w <= baseWidth && top + h <= baseHeight
    }

    /** A crop inside the base picture becomes a rectangle inside the frame exactly if its left edge does not pass the
        last multiple of 32 that is inside. */
    method SetCrop(left: int, top: int, w: int, h: int)
      modifies this`srcLeft, this`srcTop, this`srcWidth, this`srcHeight, this`context
      ensures Same(left, top, w, h)
      ensures old(Same(left, top, w, h)) || width == 0 || height == 0 || baseWidth == 0 || baseHeight == 0 ==>
                context == old(context)
      ensures !old(Same(left, top, w, h)) && width != 0 && height != 0 && baseWidth != 0 && baseHeight != 0 ==>
        && Sideways(context, left, w, baseWidth, width) && Upright(context, top, h, baseHeight, height)
        && (context.dstWidth, context.dstHeight) == (width, height)
      ensures !old(Same(left, top, w, h)) && InBase(left, top, w, h) ==>
        forall x | Placed(x, left, w, baseWidth, width) :: InFrame(context, width, height) <==> x <= width / 32 * 32
      ensures !old(Same(left, top, w, h)) && InBase(left, top, w, h) && width % 32 == 0 ==>
                InFrame(context, width, height)
    {
      hide Placed, Sized;
      if !Same(left, top, w, h) {
        srcLeft, srcTop, srcWidth, srcHeight := left, top, w, h;
        if width == 0 || height == 0 || baseWidth == 0 || baseHeight == 0 {
          return;
        }
        var calcAt, calcWidth := Scale(left, w, baseWidth, width);
        var calcTop, calcHeight := Scale(top, h, baseHeight, height);
        var calcLeft := (calcAt + 31) / 32 * 32;
        if calcLeft + calcWidth > width {
          calcWidth := width - calcLeft;
        }
        if calcTop + calcHeight > height {
          calcHeight := height - calcTop;
        }
        AlignedFits(calcAt, calcLeft, width);
        forall x | Placed(x, left, w, baseWidth, width) ensures x == calcAt {
          PlacedOnce(x, calcAt, left, w, baseWidth, width);
        }
        context := Context(calcLeft, calcTop, calcWidth, calcHeight, width, height);
      }
    }
  }

  ghost predicate InFrame(c: Context, width: int, height: int) {
    && 0 <= c.left && 0 <= c.srcWidth && c.left + c.srcWidth <= width
    && 0 <= c.top && 0 <= c.srcHeight && c.top + c.srcHeight <= height
  }

  /** The next multiple of 32 is inside just as far as the last one inside is not passed. */
  lemma AlignedFits(at: int, aligned: int, width: int)
    requires aligned % 32 == 0 && at <= aligned < at + 32
    ensures aligned <= width <==> at <= width / 32 * 32
  {
    assert aligned == aligned / 32 * 32;
  }

  lemma ScaledInside(at: nat, size: nat, base: nat, frame: nat)
    requires base > 0 && at + size <= base
    ensures 0 <= Quotient(at * frame, base) <= frame && 0 <= Quotient(size * frame, base)
  {
    hide Truncated, Quotient;
    Times(at, base, frame);
    Times(0, size, frame);
    QuotientBound(at * frame, base, frame);
    QuotientOfNat(at * frame, base);
    QuotientOfNat(size * frame, base);
  }

  lemma QuotientOfNat(a: nat, base: nat)
    requires base > 0
    ensures Quotient(a, base) == a / base >= 0
  {
    hide Truncated;
  }

  lemma QuotientBound(x: nat, base: nat, frame: nat)
    requires base > 0 && x <= base * frame
    ensures 0 <= x / base <= frame
  {
    if x / base > frame {
      Times(frame + 1, x / base, base);
    }
  }

  // ----- The addresses -----

  /** recalcSourceBuffer; a code it does not know leaves the address as it was. */
  function SourceAddress(phys: nat, isY: bool, left: nat, top: nat, stride: nat, code: Format, was: nat): nat {
    if isY then Align16(phys + top * stride + if code == YUV422_PACKED then left * 2 else left)
    else
      match code
      case YUV420_PLANAR => Align16(phys + top / 2 * stride + left / 2)
      case YUV422_PLANAR => Align16(phys + top * stride + left / 2)
      case YUV444_PLANAR => Align16(phys + top * stride + left)
      case _ => was
  }

  /** The source addresses of nxScalerRun. */
  function SourceAddresses(buffer: seq<Plane>, c: Context, code: Format): seq<nat>
    requires |buffer| == 3 && c.left >= 0 && c.top >= 0
  {
    if c.left > 0 || c.top > 0 then
      [SourceAddress(buffer[0].phys, true, c.left, c.top, buffer[0].stride, code, 0),
       if code == YUV422_PACKED then 0
       else SourceAddress(buffer[1].phys, false, c.left, c.top, buffer[1].stride, code, 0),
       if code == YUV422_PACKED then 0
       else SourceAddress(buffer[2].phys, false, c.left, c.top, buffer[2].stride, code, 0)]
    else [buffer[0].phys, buffer[1].phys, buffer[2].phys]
  }

  /** How far apart samples of plane i are, across and down. */
  function Across(code: Format, i: nat): (n: nat)
    ensures n == 1 || n == 2
  {
    if i > 0 && (code == YUV420_PLANAR || code == YUV422_PLANAR) then 2 else 1
  }

  function Down(code: Format, i: nat): (n: nat)
    ensures n == 1 || n == 2
  {
    if i > 0 && code == YUV420_PLANAR then 2 else 1
  }

  /** Where the sample at the crop's corner is in plane i. */
  function Corner(p: Plane, c: Context, code: Format, i: nat): nat
    requires c.left >= 0 && c.top >= 0
  {
    p.phys + c.top / Down(code, i) * p.stride + c.left / Across(code, i)
  }

  predicate Planar(code: Format) {
    code == YUV420_PLANAR || code == YUV422_PLANAR || code == YUV444_PLANAR
  }

  lemma RowsOnGrid(rows: nat, stride: nat)
    requires stride % 64 == 0
    ensures rows * stride % 16 == 0
  {
    var q := stride / 64;
    assert rows * stride == 16 * (4 * (rows * q)) by {
      assert stride == 64 * q;
    }
  }

  /** A sample's address is kept exactly when it is so many bytes along the grid. */
  lemma AddressExact(phys: nat, rows: nat, stride: nat, across: nat)
    requires phys % 4096 == 0 && stride % 64 == 0
    ensures Align16(phys + rows * stride + across) == phys + rows * stride + across <==> across % 16 == 0
  {
    RowsOnGrid(rows, stride);
    GridSum(phys, rows * stride, across);
  }

  lemma GridSum(phys: nat, rows: nat, across: nat)
    requires phys % 4096 == 0 && rows % 16 == 0
    ensures Align16(phys + rows + across) == phys + rows + across <==> across % 16 == 0
  {
  }

  lemma StridesOnGrid(buffer: seq<Plane>, format: Format, width: nat, height: nat)
    requires Allocated(buffer, format, width, height)
    ensures forall p | p in buffer :: p.stride % 64 == 0 && p.phys % 4096 == 0
  {
    hide YSize, CSize, Stride;
    TwiceOnGrid(Stride(width / 2));
  }

  lemma TwiceOnGrid(x: nat)
    requires x % 64 == 0
    ensures x * 2 % 64 == 0
  {
  }

  lemma HalfLeft(left: nat)
    requires left % 32 == 0
    ensures left % 16 == 0 && left / 2 % 16 == 0
  {
    Halved(left);
  }

  /** With the left edge on a multiple of 32 every plane is read from exactly the crop's corner. */
  lemma AddressesExact(buffer: seq<Plane>, format: Format, width: nat, height: nat, c: Context)
    requires Planar(format) && Allocated(buffer, format, width, height) && |buffer| == 3
    requires c.left >= 0 && c.top >= 0 && c.left % 32 == 0
    ensures forall i | 0 <= i < 3 :: SourceAddresses(buffer, c, format)[i] == Corner(buffer[i], c, format, i)
  {
    StridesOnGrid(buffer, format, width, height);
    hide Allocated, SourceAddress, Corner;
    LumaExact(buffer[0], c, format);
    ChromaExact(buffer[1], c, format, 1);
    ChromaExact(buffer[2], c, format, 2);
    if c.left == 0 && c.top == 0 {
      CornerZero(buffer[0], c, format, 0);
      CornerZero(buffer[1], c, format, 1);
      CornerZero(buffer[2], c, format, 2);
    }
  }

  /** A packed picture has one address, that of the corner two bytes a sample, up to the next multiple of 16. */
  lemma PackedAddress(buffer: seq<Plane>, c: Context)
    requires |buffer| == 3 && c.left >= 0 && c.top >= 0 && (c.left > 0 || c.top > 0)
    ensures var a := SourceAddresses(buffer, c, YUV422_PACKED);
            var corner := buffer[0].phys + c.top * buffer[0].stride + 2 * c.left;
            corner <= a[0] < corner + 16 && a[0] % 16 == 0 && a[1..] == [0, 0]
  {
    assert c.left * 2 == 2 * c.left;
  }

  lemma CornerZero(p: Plane, c: Context, format: Format, i: nat)
    requires c.left == 0 && c.top == 0
    ensures Corner(p, c, format, i) == p.phys
  {
  }

  lemma LumaExact(p: Plane, c: Context, format: Format)
    requires Planar(format) && p.stride % 64 == 0 && p.phys % 4096 == 0
    requires c.left >= 0 && c.top >= 0 && c.left % 32 == 0
    ensures SourceAddress(p.phys, true, c.left, c.top, p.stride, format, 0) == Corner(p, c, format, 0)
  {
    hide Align16;
    HalfLeft(c.left);
    AddressExact(p.phys, c.top, p.stride, c.left);
  }

  lemma ChromaExact(p: Plane, c: Context, format: Format, i: nat)
    requires Planar(format) && p.stride % 64 == 0 && p.phys % 4096 == 0 && i > 0
    requires c.left >= 0 && c.top >= 0 && c.left % 32 == 0
    ensures SourceAddress(p.phys, false, c.left, c.top, p.stride, format, 0) == Corner(p, c, format, i)
  {
    hide Align16;
    var rows, across := c.top / Down(format, i), c.left / Across(format, i);
    ChromaOnGrid(c, format, i);
    AddressExact(p.phys, rows, p.stride, across);
    ChromaAddress(p.phys, c, p.stride, format, i, rows, across);
  }

  lemma ChromaOnGrid(c: Context, format: Format, i: nat)
    requires c.left >= 0 && c.left % 32 == 0
    ensures c.left / Across(format, i) % 16 == 0
  {
    HalfLeft(c.left);
  }

  /** Which sample the chroma address is meant for. */
  lemma ChromaAddress(phys: nat, c: Context, stride: nat, format: Format, i: nat, rows: nat, across: nat)
    requires Planar(format) && i > 0 && c.left >= 0 && c.top >= 0
    requires rows == c.top / Down(format, i) && across == c.left / Across(format, i)
    ensures SourceAddress(phys, false, c.left, c.top, stride, format, 0) == Align16(phys + rows * stride + across)
  {
    hide Align16;
  }

  // ----- Is the rectangle inside the planes? -----

  /** Every row that is read ends inside the plane, chroma rows and columns rounded up. */
  ghost predicate Holds(p: Plane, c: Context, code: Format, i: nat)
    requires c.left >= 0 && c.top >= 0 && c.srcWidth >= 0 && c.srcHeight >= 0
  {
    forall row: nat | row < (c.srcHeight + Down(code, i) - 1) / Down(code, i) ::
      Corner(p, c, code, i) + row * p.stride + (c.srcWidth + Across(code, i) - 1) / Across(code, i) <= p.phys + p.size
  }

  lemma RowInside(first: nat, row: nat, rows: nat, stride: nat, end: nat, size: nat)
    requires first + row < rows && end <= stride && rows * stride <= size
    ensures first * stride + row * stride + end <= size
  {
    Times(first + row + 1, rows, stride);
    assert (first + row + 1) * stride == first * stride + row * stride + stride;
  }

  /** A plane with enough whole rows holds any rectangle of a frame of even size whose left edge is even. */
  lemma EnoughRows(p: Plane, c: Context, code: Format, i: nat, halfLeft: nat, halfWidth: nat, halfHeight: nat,
                   rows: nat)
    requires c.left == 2 * halfLeft && InFrame(c, 2 * halfWidth, 2 * halfHeight)
    requires 2 * halfHeight <= rows * Down(code, i) && 2 * halfWidth <= p.stride * Across(code, i)
    requires rows * p.stride <= p.size
    ensures Holds(p, c, code, i)
  {
    var d, a := Down(code, i), Across(code, i);
    var first, end := c.top / d, c.left / a + (c.srcWidth + a - 1) / a;
    assert end <= p.stride;
    forall row: nat | row < (c.srcHeight + d - 1) / d
      ensures Corner(p, c, code, i) + row * p.stride + (c.srcWidth + a - 1) / a <= p.phys + p.size
    {
      assert first + row < rows;
      RowInside(first, row, rows, p.stride, end, p.size);
    }
  }

  lemma PlanesFit2(x: nat)
    requires x % 32 == 0
    ensures x == 32 * (x / 32)
  {
  }

  lemma HalfOf(k: nat)
    ensures 2 * k / 2 == k
  {
  }

  lemma Halved(x: nat)
    requires x % 32 == 0
    ensures x == 2 * (x / 2) && x / 2 == 16 * (x / 32)
  {
    PlanesFit2(x);
    HalfOf(16 * (x / 32));
    assert x == 2 * (16 * (x / 32));
  }

  lemma StrideFits(halfWidth: nat)
    ensures Stride(halfWidth) >= halfWidth && YStride(2 * halfWidth) >= 2 * halfWidth
  {
    hide Stride;
    HalfOf(halfWidth);
  }

  lemma Planes420(buffer: seq<Plane>, width: nat, height: nat)
    requires Allocated(buffer, YUV420_PLANAR, width, height) && |buffer| == 3
    ensures buffer[0].stride == YStride(width) && buffer[0].size == YStride(width) * VStride(height)
    ensures forall i | 0 < i < 3 ::
              buffer[i].stride == Stride(width / 2) && buffer[i].size == Stride(width / 2) * VStride(height / 2)
  {
    hide Stride, VStride, YStride;
  }

  /** 4:2:0 planes hold every rectangle of the frame. */
  lemma Inside420(buffer: seq<Plane>, width: nat, height: nat, c: Context)
    requires Allocated(buffer, YUV420_PLANAR, width, height) && |buffer| == 3
    requires width % 32 == 0 && height % 2 == 0 && InFrame(c, width, height) && c.left % 32 == 0
    ensures forall i | 0 <= i < 3 :: Holds(buffer[i], c, YUV420_PLANAR, i)
  {
    Planes420(buffer, width, height);
    Halved(width);
    Halved(c.left);
    StrideFits(width / 2);
    hide Holds, Allocated, YStride, Stride, VStride, InFrame;
    var l, w, h := c.left / 2, width / 2, height / 2;
    assert height == 2 * h;
    Luma420(buffer[0], c, l, w, h, VStride(height));
    Chroma420(buffer[1], c, 1, l, w, h, VStride(h));
    Chroma420(buffer[2], c, 2, l, w, h, VStride(h));
  }

  lemma Luma420(p: Plane, c: Context, l: nat, w: nat, h: nat, rows: nat)
    requires c.left == 2 * l && InFrame(c, 2 * w, 2 * h) && 2 * w <= p.stride && 2 * h <= rows
    requires p.size == p.stride * rows
    ensures Holds(p, c, YUV420_PLANAR, 0)
  {
    hide Holds, InFrame;
    EnoughRows(p, c, YUV420_PLANAR, 0, l, w, h, rows);
  }

  lemma Chroma420(p: Plane, c: Context, i: nat, l: nat, w: nat, h: nat, rows: nat)
    requires i > 0 && c.left == 2 * l && InFrame(c, 2 * w, 2 * h) && w <= p.stride && h <= rows
    requires p.size == p.stride * rows
    ensures Holds(p, c, YUV420_PLANAR, i)
  {
    hide Holds, InFrame;
    EnoughRows(p, c, YUV420_PLANAR, i, l, w, h, rows);
  }

  /** The strides of 4:2:2 are laid out for twice the chroma stride, and the planes for once the luma width: the two
      agree but for widths up to 64 past a multiple of 128. */
  lemma StridesAgree(width: nat)
    requires width % 2 == 0
    ensures YStride(width) == Stride(width) <==> width % 128 == 0 || width % 128 > 64
    ensures YStride(width) == Stride(width) || YStride(width) == Stride(width) + 64
  {
    hide Stride;
    var k, r := width / 128, width % 128;
    assert width / 2 == 64 * k + r / 2;
    StrideAt(k, r / 2);
    if r < 64 {
      StrideAt(2 * k, r);
    } else {
      StrideAt(2 * k + 1, r - 64);
    }
  }

  lemma StrideAt(k: nat, r: nat)
    requires r < 64
    ensures Stride(64 * k + r) == 64 * k + if r > 0 then 64 else 0
  {
  }

  function Whole(width: nat, height: nat): Context {
    Context(0, 0, width, height, width, height)
  }

  lemma HalfVStride(height: nat)
    requires height % 2 == 0
    ensures height <= VStride(height) <= 2 * VStride(height / 2)
  {
    var k := (height / 2 + 15) / 16;
    assert VStride(height / 2) == 16 * k && height <= 32 * k;
    assert (height + 15) / 16 <= 2 * k;
  }

  lemma Planes422(buffer: seq<Plane>, width: nat, height: nat)
    requires Allocated(buffer, YUV422_PLANAR, width, height) && |buffer| == 3
    ensures buffer[0].stride == YStride(width) && buffer[0].size == Stride(width) * VStride(height)
    ensures forall i | 0 < i < 3 ::
              buffer[i].stride == Stride(width / 2) && buffer[i].size == Stride(width) * VStride(height / 2)
  {
    hide Stride, VStride, YStride;
  }

  lemma TwiceChroma(width: nat)
    ensures YStride(width) == 2 * Stride(width / 2)
  {
    hide Stride;
  }

  lemma LastRow(p: Plane, width: nat, height: nat, code: Format, i: nat, halfWidth: nat)
    requires Down(code, i) == 1 && height > 0 && width == 2 * halfWidth
    ensures Holds(p, Whole(width, height), code, i)
            <==> (height - 1) * p.stride + (if Across(code, i) == 2 then halfWidth else width) <= p.size
  {
    var c, across := Whole(width, height), if Across(code, i) == 2 then halfWidth else width;
    assert Corner(p, c, code, i) == p.phys && (width + Across(code, i) - 1) / Across(code, i) == across;
    forall row: nat | row < height ensures row * p.stride <= (height - 1) * p.stride {
      Times(row, height - 1, p.stride);
    }
    if Holds(p, c, code, i) {
      var row: nat := height - 1;
      assert Corner(p, c, code, i) + row * p.stride + across <= p.phys + p.size;
    }
  }

  /** The luma plane is short by so much if its rows are further apart than they were laid out for. */
  lemma LumaFits(s: nat, y: nat, width: nat, height: nat, rows: nat)
    requires height > 0 && height <= rows && width <= s && (y == s || y == s + 64)
    ensures (height - 1) * y + width <= s * rows
            <==> y == s || (height - 1) * 64 + width <= s * (rows - height + 1)
  {
    assert s * (rows - height + 1) == s * rows - s * (height - 1);
    if y == s {
      Times(height, rows, s);
      assert height * s == (height - 1) * s + s;
    } else {
      assert (height - 1) * (s + 64) == (height - 1) * s + (height - 1) * 64;
    }
  }

  /** Chroma rows are half as far apart, and their plane has at least half the rows of luma. */
  lemma ChromaFits(s: nat, c: nat, halfWidth: nat, height: nat, rows: nat, halfRows: nat)
    requires height > 0 && rows <= 2 * halfRows
    requires (height - 1) * (2 * c) + 2 * halfWidth <= s * rows
    ensures (height - 1) * c + halfWidth <= s * halfRows
  {
    Times(rows, 2 * halfRows, s);
    assert (height - 1) * (2 * c) == 2 * ((height - 1) * c);
    assert s * (2 * halfRows) == 2 * (s * halfRows);
  }

  /** The strides agree, or the rows that the height is rounded up by make good for it. */
  predicate Roomy422(width: nat, height: nat)
    requires height > 0
  {
    || width % 128 == 0 || width % 128 > 64
    || (height - 1) * 64 + width <= Stride(width) * (VStride(height) - height + 1)
  }

  /** 4:2:2 planes hold the whole frame exactly if the strides agree or the height's rounding leaves room enough. */
  lemma Inside422(buffer: seq<Plane>, width: nat, height: nat)
    requires Allocated(buffer, YUV422_PLANAR, width, height) && |buffer| == 3
    requires height > 0 && width % 32 == 0 && height % 2 == 0
    ensures (forall i | 0 <= i < 3 :: Holds(buffer[i], Whole(width, height), YUV422_PLANAR, i))
            <==> Roomy422(width, height)
  {
    Planes422(buffer, width, height);
    Halved(width);
    StridesAgree(width);
    TwiceChroma(width);
    HalfVStride(height);
    hide Holds, Stride, VStride, YStride, Allocated;
    var s, half := Stride(width), width / 2;
    forall i | 0 <= i < 3
      ensures Holds(buffer[i], Whole(width, height), YUV422_PLANAR, i)
              <==> (height - 1) * buffer[i].stride + (if i > 0 then half else width) <= buffer[i].size
    {
      LastRow(buffer[i], width, height, YUV422_PLANAR, i, half);
    }
    LumaFits(s, YStride(width), width, height, VStride(height));
    if (height - 1) * YStride(width) + width <= s * VStride(height) {
      ChromaFits(s, Stride(half), half, height, VStride(height), VStride(height / 2));
    }
  }

  /** For heights on the grid, 720 for one, there is no such room. */
  lemma OnGrid422(width: nat, height: nat)
    requires height > 1 && height % 16 == 0
    ensures Roomy422(width, height) <==> width % 128 == 0 || width % 128 > 64
  {
    hide Stride;
    assert VStride(height) == height by {
      OnGrid(height / 16);
    }
  }

  lemma OnGrid(k: nat)
    ensures VStride(16 * k) == 16 * k
  {
  }

  lemma CropPlane(p: Plane, c: Context, code: Format, i: nat, l: nat, w: nat, height: nat)
    requires Down(code, i) == 1 && c.left == 2 * l && InFrame(c, 2 * w, height)
    requires Holds(p, Whole(2 * w, height), code, i)
    ensures Holds(p, c, code, i)
  {
    var a := Across(code, i);
    forall row: nat | row < (c.srcHeight + Down(code, i) - 1) / Down(code, i)
      ensures Corner(p, c, code, i) + row * p.stride + (c.srcWidth + a - 1) / a <= p.phys + p.size
    {
      var at: nat := c.top + row;
      Distribute(c.top, row, p.stride);
      assert Corner(p, Whole(2 * w, height), code, i) + at * p.stride + (2 * w + a - 1) / a <= p.phys + p.size;
      assert c.left / a + (c.srcWidth + a - 1) / a <= (2 * w + a - 1) / a;
    }
  }

  lemma Distribute(x: nat, y: nat, k: nat)
    ensures (x + y) * k == x * k + y * k
  {
  }

  /** Planes that hold the whole frame hold every rectangle of it. */
  lemma Crops422(buffer: seq<Plane>, width: nat, height: nat, c: Context)
    requires Allocated(buffer, YUV422_PLANAR, width, height) && |buffer| == 3
    requires height > 0 && width % 32 == 0 && height % 2 == 0 && Roomy422(width, height)
    requires InFrame(c, width, height) && c.left % 2 == 0
    ensures forall i | 0 <= i < 3 :: Holds(buffer[i], c, YUV422_PLANAR, i)
  {
    Inside422(buffer, width, height);
    Halved(width);
    hide Holds, Allocated, InFrame, Roomy422;
    forall i | 0 <= i < 3 ensures Holds(buffer[i], c, YUV422_PLANAR, i) {
      CropPlane(buffer[i], c, YUV422_PLANAR, i, c.left / 2, width / 2, height);
    }
  }

  // ----- 4:4:4 -----

  lemma NarrowStride(width: nat)
    requires width % 2 == 0
    ensures Stride(width / 2) < width <==> width > 64
  {
    if width < 128 {
      assert width / 2 < 64 && (width / 2 > 0 ==> Stride(width / 2) == 64);
    }
  }

  /** The chroma rows of 4:4:4 are as wide as luma and only half as far apart: two samples of a plane share their
      address exactly for widths beyond 64. */
  lemma Overlap444(buffer: seq<Plane>, width: nat, height: nat, i: nat)
    requires Allocated(buffer, YUV444_PLANAR, width, height) && 0 < i < |buffer|
    requires width % 2 == 0 && height > 1
    ensures (exists row: nat, x: nat, row2: nat, x2: nat :: row < row2 < height && x < width && x2 < width
               && Address(buffer[i], row, x) == Address(buffer[i], row2, x2))
            <==> width > 64
  {
    hide Stride, VStride;
    var p := buffer[i];
    NarrowStride(width);
    if width > 64 {
      assert Address(p, 0, p.stride) == Address(p, 1, 0);
    }
    forall row: nat, x: nat, row2: nat, x2: nat
      | row < row2 < height && x < width && x2 < width && Address(p, row, x) == Address(p, row2, x2)
      ensures p.stride < width
    {
      Times(row + 1, row2, p.stride);
      assert (row + 1) * p.stride == row * p.stride + p.stride;
    }
  }

  function Address(p: Plane, row: nat, x: nat): nat {
    p.phys + row * p.stride + x
  }
}
