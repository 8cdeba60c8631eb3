/**
 The linear framebuffer and its back buffer, as the routines of
 crates/nanochrono-baremetal/src/framebuffer.rs write them: flat memory, a padded
 device pitch, and a damage rectangle widened in place. Each routine is proved to
 be one `Step` of the screen model.
 */
module Framebuffers {
  import opened Wrappers
  import opened Arithmetic
  import opened Bytes
  import Scaling
  import opened Pixels
  import opened ScreenModel
  import C = ScreenCoherence

  // -------------------------------------------------------------- addressing

  lemma CellsApart(x: nat, y: nat, x': nat, y': nat, width: nat)
    requires x < width && x' < width && (x, y) != (x', y')
    ensures y * width + x != y' * width + x'
  {
    if y < y' {
      MulStep(y, y', width);
    } else if y' < y {
      MulStep(y', y, width);
    }
  }

  lemma ColumnsApart(x: nat, x': nat, bpp: nat)
    requires x < x'
    ensures x * bpp + bpp <= x' * bpp
  {
    MulStep(x, x', bpp);
  }

  /** The bytes of two different pixels do not overlap, whatever the padding of the rows. */
  lemma PixelsApart(x: nat, y: nat, x': nat, y': nat, width: nat, pitch: nat, bpp: nat)
    requires x < width && x' < width && width * bpp <= pitch && (x, y) != (x', y')
    ensures var (a, b) := (y * pitch + x * bpp, y' * pitch + x' * bpp);
      a + bpp <= b || b + bpp <= a
  {
    ColumnsApart(x, width, bpp);
    ColumnsApart(x', width, bpp);
    if y < y' {
      MulStep(y, y', pitch);
    } else if y' < y {
      MulStep(y', y, pitch);
    } else if x < x' {
      ColumnsApart(x, x', bpp);
    } else {
      ColumnsApart(x', x, bpp);
    }
  }

  /** A pixel of the surface is inside the `pitch * height` bytes of the device. */
  lemma PixelInside(x: nat, y: nat, width: nat, height: nat, pitch: nat, bpp: nat)
    requires x < width && y < height && width * bpp <= pitch
    ensures y * pitch + x * bpp + bpp <= pitch * height
  {
    ColumnsApart(x, width, bpp);
    MulStep(y, height, pitch);
  }

  /** Its cell is inside the back buffer, and no further than its bytes are in the device. */
  lemma CellInside(x: nat, y: nat, width: nat, height: nat, pitch: nat, bpp: nat)
    requires x < width && y < height && width * bpp <= pitch && bpp > 0
    ensures y * width + x < width * height && y * width + x < pitch * height
  {
    MulStep(y, height, width);
    MulMonotone(1, bpp, width);
    MulMonotone(width, pitch, height);
  }

  // The largest mode drawn through the static buffer.
  const STATIC_W := 1920
  const STATIC_H := 1200

  class Framebuffer {
    const base: array<bv8>
    const shadow: array?<Colour>
    const width: u32
    const height: u32
    const pitch: u32
    const bpp: u32
    // DIRTY_X0, DIRTY_Y0, DIRTY_X1 and DIRTY_Y1.
    var x0: u32
    var y0: u32
    var x1: u32
    var y1: u32

    /**
     A device of the loader's numbers, drawn through a back buffer if there is one: the static one where the
     mode fits it, else what the page allocator found for it, if anything.
     */
    constructor (base: array<bv8>, width: u32, height: u32, pitch: u32, bitsPerPixel: byte,
                 builtIn: array<Colour>, found: array?<Colour>)
      requires pitch * height <= base.Length && builtIn.Length == STATIC_W * STATIC_H
      requires found != null && (width > STATIC_W || height > STATIC_H) ==> width * height <= found.Length
      ensures this.base == base && this.width == width && this.height == height && this.pitch == pitch
      ensures bpp == Scaling.CeilDiv(bitsPerPixel, 8) && Damage() == NO_DAMAGE
      ensures shadow == if width <= STATIC_W && height <= STATIC_H then builtIn else found
      ensures IsUsable() ==> Valid()
      ensures IsUsable() <==> width > 0 && height > 0 && 8 < bitsPerPixel <= 32 && width * bpp <= pitch && pitch * height <= U32_MAX
    {
      this.base, this.width, this.height, this.pitch := base, width, height, pitch;
      bpp := Scaling.CeilDiv(bitsPerPixel, 8);
      x0, y0, x1, y1 := U32_MAX, U32_MAX, 0, 0;
      if width <= STATIC_W && height <= STATIC_H {
        shadow := builtIn;
      } else {
        shadow := found;
      }
      new;
      Scaling.CeilDivAtMost(bitsPerPixel, 8, 1);
      Scaling.CeilDivAtMost(bitsPerPixel, 8, 4);
      if width <= STATIC_W && height <= STATIC_H {
        MulMonotone(height, STATIC_H, width);
        MulMonotone(width, STATIC_W, STATIC_H);
      }
    }

    /** The loader's numbers are consistent: every offset below stays inside the surface and 32 bits. */
    predicate IsUsable()
    {
      width * bpp <= U32_MAX && pitch * height <= U32_MAX
      && width > 0 && height > 0 && 2 <= bpp <= 4 && width * bpp <= pitch
    }

    ghost predicate Valid()
    {
      IsUsable() && pitch * height <= base.Length
      && (shadow != null ==> width * height <= shadow.Length)
    }

    ghost function Z(): (z: Size)
      requires Valid()
      ensures z.Valid()
    {
      Size(width, height, bpp)
    }

    ghost function Cell(x: nat, y: nat): (i: nat)
      requires Valid() && shadow != null && x < width && y < height
      ensures i < shadow.Length && i <= U32_MAX
    {
      CellInside(x, y, width, height, pitch, bpp);
      y * width + x
    }

    ghost function Back(x: nat, y: nat): Colour
      requires Valid() && shadow != null && x < width && y < height
      reads shadow
    {
      shadow[Cell(x, y)]
    }

    ghost function Offset(x: nat, y: nat): (i: nat)
      requires Valid() && x < width && y < height
      ensures i + bpp <= pitch * height && i + bpp <= base.Length
    {
      PixelInside(x, y, width, height, pitch, bpp);
      y * pitch + x * bpp
    }

    ghost function Raw(x: nat, y: nat): (r: seq<bv8>)
      requires Valid() && x < width && y < height
      reads base
      ensures |r| == bpp
    {
      base[Offset(x, y)..Offset(x, y) + bpp]
    }

    ghost function Picture(): (p: Picture)
      requires Valid() && shadow != null
      reads shadow
      ensures Sized(Z(), p) && forall x, y | Z().On(x, y) :: p[y][x] == Back(x, y)
    {
      seq(height, y requires 0 <= y < height reads shadow =>
        seq(width, x requires 0 <= x < width reads shadow => Back(x, y)))
    }

    ghost function Device(): (d: Device)
      requires Valid()
      reads base
      ensures ScreenModel.Raw(Z(), d) && forall x, y | Z().On(x, y) :: d[y][x] == Raw(x, y)
    {
      seq(height, y requires 0 <= y < height reads base =>
        seq(width, x requires 0 <= x < width reads base => Raw(x, y)))
    }

    ghost function Damage(): Box
      reads this
    {
      Box(x0, y0, x1, y1)
    }

    ghost function Screen(): (s: Screen)
      requires Valid()
      reads this, base, shadow
      ensures s.Valid(Z())
    {
      ScreenModel.Screen(if shadow == null then None else Some(Picture()), Device(), Damage())
    }

    // ------------------------------------------------------------ one pixel

    method Put(x: nat, y: nat, c: Colour)
      requires Valid() && shadow != null && x < width && y < height
      modifies shadow
      ensures Back(x, y) == c
      ensures forall px: nat, py: nat | px < width && py < height && (px, py) != (x, y) :: Back(px, py) == old(Back(px, py))
    {
      ghost var cell := Cell(x, y);
      var index: u32 := y * width + x;
      shadow[index] := c;
      forall px: nat, py: nat | px < width && py < height && (px, py) != (x, y)
        ensures Back(px, py) == old(Back(px, py))
      {
        CellsApart(x, y, px, py, width);
      }
    }

    method Store(x: nat, y: nat, c: Colour)
      requires Valid() && x < width && y < height
      modifies base
      ensures Raw(x, y) == Encode(c, bpp)
      ensures forall px: nat, py: nat | px < width && py < height && (px, py) != (x, y) :: Raw(px, py) == old(Raw(px, py))
    {
      ghost var at := Offset(x, y);
      var offset: u32 := y * pitch + x * bpp;
      WriteBytes(offset, Encode(c, bpp));
      assert Raw(x, y) == Encode(c, bpp);
      forall px: nat, py: nat | px < width && py < height && (px, py) != (x, y)
        ensures Raw(px, py) == old(Raw(px, py))
      {
        PixelsApart(x, y, px, py, width, pitch, bpp);
      }
    }

    method WriteBytes(offset: u32, bytes: seq<bv8>)
      requires 2 <= |bytes| <= 4 && offset + |bytes| <= base.Length
      modifies base
      ensures forall i | 0 <= i < base.Length ::
        base[i] == if offset <= i < offset + |bytes| then bytes[i - offset] else old(base[i])
    {
      base[offset] := bytes[0];
      base[offset + 1] := bytes[1];
      if |bytes| >= 3 {
        base[offset + 2] := bytes[2];
      }
      if |bytes| == 4 {
        base[offset + 3] := bytes[3];
      }
    }

    method Get(x: u32, y: u32) returns (c: Colour)
      requires Valid()
      ensures !Z().On(x, y) ==> c == 0
      ensures Z().On(x, y) ==> c == if shadow != null then Picture()[y][x] else Decode(Device()[y][x])
    {
      if x >= width || y >= height {
        return 0;
      }
      if shadow != null {
        ghost var cell := Cell(x, y);
        return shadow[y * width + x];
      }
      ghost var at := Offset(x, y);
      var offset: u32 := y * pitch + x * bpp;
      return Decode(base[offset..offset + bpp]);
    }

    /** Widens the damage rectangle; the sums saturate. */
    method Mark(x: u32, y: u32, w: u32, h: u32)
      modifies this
      ensures Damage() == old(Damage()).Widen(x, y, w, h)
    {
      x0 := Min(x0, x);
      y0 := Min(y0, y);
      x1 := Max(x1, Min(x + w, U32_MAX));
      y1 := Max(y1, Min(y + h, U32_MAX));
    }

    /** The picture after `op`, pixel by pixel, is the whole picture after `op`. */
    lemma Repainted(op: Op, was: Picture)
      requires Valid() && shadow != null && Sized(Z(), was)
      requires forall px: nat, py: nat | px < width && py < height :: Back(px, py) == Painted(Z(), op, was, px, py)
      ensures Picture() == Paint(Z(), op, was)
    {
      C.SameGrid(Z(), Picture(), Paint(Z(), op, was));
    }

    lemma Restored(op: Op, was: Device)
      requires Valid() && ScreenModel.Raw(Z(), was)
      requires forall px: nat, py: nat | px < width && py < height :: Raw(px, py) == Stored(Z(), op, was, px, py)
      ensures Device() == ScreenModel.Store(Z(), op, was)
    {
      C.SameGrid(Z(), Device(), ScreenModel.Store(Z(), op, was));
    }

    /** An operation that inks no pixel of the surface leaves the screen as it was. */
    lemma Untouched(op: Op)
      requires Valid() && op.Draws() && !op.CopyWithin? && Marks(Z(), op).None?
      requires forall px: nat, py: nat, under | px < width && py < height :: Ink(Z(), op, px, py, under).None?
      ensures Step(Z(), Screen(), op) == Screen()
    {
      if shadow != null {
        Repainted(op, Picture());
      } else {
        Restored(op, Device());
      }
    }

    // ------------------------------------------------------------- routines

    method SetPixel(x: u32, y: u32, c: Colour)
      requires Valid()
      modifies this, base, shadow
      ensures Screen() == Step(Z(), old(Screen()), Op.Set(x, y, c))
    {
      hide Back, Raw, Encode, Decode;
      ghost var op := Op.Set(x, y, c);
      if x >= width || y >= height {
        Untouched(op);
        return;
      }
      if shadow != null {
        Put(x, y, c);
        Repainted(op, old(Picture()));
        Mark(x, y, 1, 1);
        return;
      }
      Store(x, y, c);
      Restored(op, old(Device()));
    }

    method FillBack(x: u32, y: u32, right: u32, bottom: u32, c: Colour)
      requires Valid() && shadow != null && x <= right <= width && y <= bottom <= height
      modifies shadow
      ensures forall px: nat, py: nat | px < width && py < height ::
        Back(px, py) == if InRect(px, py, x, y, right - x, bottom - y) then c else old(Back(px, py))
    {
      hide Back, Raw, Encode;
      for row := y to bottom
        invariant forall px: nat, py: nat | px < width && py < height ::
          Back(px, py) == if InRect(px, py, x, y, right - x, row - y) then c else old(Back(px, py))
      {
        for col := 0 to right - x
          invariant forall px: nat, py: nat | px < width && py < height ::
            Back(px, py) == if InRect(px, py, x, y, right - x, row - y) || InRect(px, py, x, row, col, 1)
                            then c else old(Back(px, py))
        {
          Put(x + col, row, c);
        }
      }
    }

    method FillDevice(x: u32, y: u32, right: u32, bottom: u32, c: Colour)
      requires Valid() && x <= right <= width && y <= bottom <= height
      modifies base
      ensures forall px: nat, py: nat | px < width && py < height ::
        Raw(px, py) == if InRect(px, py, x, y, right - x, bottom - y) then Encode(c, bpp) else old(Raw(px, py))
    {
      hide Back, Raw, Encode;
      for row := y to bottom
        invariant forall px: nat, py: nat | px < width && py < height ::
          Raw(px, py) == if InRect(px, py, x, y, right - x, row - y) then Encode(c, bpp) else old(Raw(px, py))
      {
        for col := x to right
          invariant forall px: nat, py: nat | px < width && py < height ::
            Raw(px, py) == if InRect(px, py, x, y, right - x, row - y) || InRect(px, py, x, row, col - x, 1)
                           then Encode(c, bpp) else old(Raw(px, py))
        {
          Store(col, row, c);
        }
      }
    }

    method Fill(x: u32, y: u32, w: u32, h: u32, c: Colour)
      requires Valid()
      modifies this, base, shadow
      ensures Screen() == Step(Z(), old(Screen()), Op.Fill(x, y, w, h, c))
    {
      hide Back, Raw, Encode, Decode;
      ghost var op := Op.Fill(x, y, w, h, c);
      if x >= width || y >= height || w == 0 || h == 0 {
        Untouched(op);
        return;
      }
      var right := Min(Min(x + w, U32_MAX), width);
      var bottom := Min(Min(y + h, U32_MAX), height);
      if shadow != null {
        FillBack(x, y, right, bottom, c);
        Repainted(op, old(Picture()));
        Mark(x, y, right - x, bottom - y);
        return;
      }
      FillDevice(x, y, right, bottom, c);
      Restored(op, old(Device()));
    }

    /** `copy_nonoverlapping` of a source line into one row of the back buffer. */
    method PutLine(x: nat, y: nat, line: seq<Colour>)
      requires Valid() && shadow != null && x + |line| <= width && y < height
      modifies shadow
      ensures forall px: nat, py: nat | px < width && py < height ::
        Back(px, py) == if InRect(px, py, x, y, |line|, 1) then line[px - x] else old(Back(px, py))
    {
      hide Back, Raw, Encode;
      for i := 0 to |line|
        invariant forall px: nat, py: nat | px < width && py < height ::
          Back(px, py) == if InRect(px, py, x, y, i, 1) then line[px - x] else old(Back(px, py))
      {
        Put(x + i, y, line[i]);
      }
    }

    method StoreLine(x: nat, y: nat, line: seq<Colour>)
      requires Valid() && x + |line| <= width && y < height
      modifies base
      ensures forall px: nat, py: nat | px < width && py < height ::
        Raw(px, py) == if InRect(px, py, x, y, |line|, 1) then Encode(line[px - x], bpp) else old(Raw(px, py))
    {
      hide Back, Raw, Encode;
      for i := 0 to |line|
        invariant forall px: nat, py: nat | px < width && py < height ::
          Raw(px, py) == if InRect(px, py, x, y, i, 1) then Encode(line[px - x], bpp) else old(Raw(px, py))
      {
        Store(x + i, y, line[i]);
      }
    }

    /** The pixels a blit inks: those of the clipped block whose source row is long enough. */
    lemma BlitInks(op: Op, px: nat, py: nat, under: Colour)
      requires Valid() && op.Blit? && BlockVisible(Z(), op) && px < width && py < height
      ensures Ink(Z(), op, px, py, under).Some? <==>
        InRect(px, py, Max(op.left, 0), Max(op.top, 0), Min(op.left + op.w, width) - Max(op.left, 0),
               Min(op.top + op.h, height) - Max(op.top, 0))
        && RowsFit(Z(), op, py - op.top)
    {
      hide RowsFit;
    }

    lemma BlitInk(op: Op, px: nat, py: nat, under: Colour)
      requires Valid() && op.Blit? && BlockVisible(Z(), op) && px < width && py < height
      requires Max(op.top, 0) <= py < op.top + op.h && RowsFit(Z(), op, py - op.top)
      requires Max(op.left, 0) <= px < op.left + op.w
      ensures 0 <= RowFrom(op, py - op.top) + (px - Max(op.left, 0)) < |op.src|
      ensures Ink(Z(), op, px, py, under) == Some(op.src[RowFrom(op, py - op.top) + (px - Max(op.left, 0))])
    {
      assert RowFits(Z(), op, py - op.top);
    }

    /** Rows above `limit` of the back buffer are done, the others as they were. */
    ghost predicate BackTo(op: Op, was: Picture, limit: int)
      requires Valid() && shadow != null && Sized(Z(), was)
      reads shadow
    {
      forall px: nat, py: nat | px < width && py < height ::
        Back(px, py) == if py < limit then Painted(Z(), op, was, px, py) else was[py][px]
    }

    ghost predicate DeviceTo(op: Op, was: Device, limit: int)
      requires Valid() && ScreenModel.Raw(Z(), was)
      reads base
    {
      forall px: nat, py: nat | px < width && py < height ::
        Raw(px, py) == if py < limit then Stored(Z(), op, was, px, py) else was[py][px]
    }

    /** The part of source row `row` that a blit draws. */
    ghost predicate IsLine(op: Op, row: nat, line: seq<Colour>)
      requires Valid() && op.Blit? && BlockVisible(Z(), op)
    {
      RowsFit(Z(), op, row) && RowFits(Z(), op, row)
      && line == op.src[RowFrom(op, row)..RowFrom(op, row) + RowWidth(Z(), op)]
    }

    /** Row `row` of the source inks row `py` of the surface from the block's left edge on. */
    lemma LineInks(op: Op, row: nat, line: seq<Colour>, px: nat, py: nat, under: Colour)
      requires Valid() && op.Blit? && BlockVisible(Z(), op) && IsLine(op, row, line) && px < width && py < height
      requires row == py - op.top && Max(op.top, 0) <= py < op.top + op.h
      ensures Ink(Z(), op, px, py, under)
        == if InRect(px, py, Max(op.left, 0), py, |line|, 1) then Some(line[px - Max(op.left, 0)]) else None
    {
      hide Ink, RowsFit;
      BlitInks(op, px, py, under);
      if InRect(px, py, Max(op.left, 0), py, |line|, 1) {
        BlitInk(op, px, py, under);
      }
    }

    method BlitBackRow(op: Op, cx0: u32, row: nat, line: seq<Colour>, py: nat, ghost was: Picture)
      requires Valid() && shadow != null && op.Blit? && BlockVisible(Z(), op) && IsLine(op, row, line) && Sized(Z(), was)
      requires cx0 == Max(op.left, 0) && row == py - op.top && Max(op.top, 0) <= py < Min(op.top + op.h, height)
      requires BackTo(op, was, py)
      modifies shadow
      ensures BackTo(op, was, py + 1)
    {
      hide Ink, Back, Raw, IsLine, BlockVisible;
      ghost var under := was[py];
      forall px: nat | px < width
        ensures Ink(Z(), op, px, py, under[px]) == if InRect(px, py, cx0, py, |line|, 1) then Some(line[px - cx0]) else None
      {
        LineInks(op, row, line, px, py, under[px]);
      }
      LineFits(op, row, line);
      PutLine(cx0, py, line);
    }

    lemma LineFits(op: Op, row: nat, line: seq<Colour>)
      requires Valid() && op.Blit? && BlockVisible(Z(), op) && IsLine(op, row, line)
      ensures Max(op.left, 0) + |line| <= width
    {
    }

    method BlitDeviceRow(op: Op, cx0: u32, row: nat, line: seq<Colour>, py: nat, ghost was: Device)
      requires Valid() && op.Blit? && BlockVisible(Z(), op) && IsLine(op, row, line) && ScreenModel.Raw(Z(), was)
      requires cx0 == Max(op.left, 0) && row == py - op.top && Max(op.top, 0) <= py < Min(op.top + op.h, height)
      requires DeviceTo(op, was, py)
      modifies base
      ensures DeviceTo(op, was, py + 1)
    {
      hide Ink, Back, Raw, Encode, Decode, IsLine, BlockVisible;
      ghost var under := was[py];
      forall px: nat | px < width
        ensures Ink(Z(), op, px, py, Decode(under[px]))
          == if InRect(px, py, cx0, py, |line|, 1) then Some(line[px - cx0]) else None
      {
        LineInks(op, row, line, px, py, Decode(under[px]));
      }
      LineFits(op, row, line);
      StoreLine(cx0, py, line);
    }

    /** Above the block a blit inks nothing. */
    lemma NothingAbove(op: Op, px: nat, py: nat, under: Colour)
      requires Valid() && op.Blit? && BlockVisible(Z(), op) && px < width && py < height && py < Max(op.top, 0)
      ensures Ink(Z(), op, px, py, under).None?
    {
    }

    /** Below the block, or from a row on that the source does not reach, a blit inks nothing. */
    lemma NothingFrom(op: Op, limit: int, px: nat, py: nat, under: Colour)
      requires Valid() && op.Blit? && BlockVisible(Z(), op) && px < width && limit <= py < height
      requires limit >= Max(op.top, 0)
      requires limit >= Min(op.top + op.h, height) || !RowFits(Z(), op, limit - op.top)
      ensures Ink(Z(), op, px, py, under).None?
    {
      hide Ink;
      BlitInks(op, px, py, under);
    }

    lemma StartsBack(op: Op, was: Picture)
      requires Valid() && shadow != null && op.Blit? && BlockVisible(Z(), op) && was == Picture()
      ensures BackTo(op, was, Max(op.top, 0))
    {
      hide Ink, Back;
      forall px: nat, py: nat | px < width && py < height && py < Max(op.top, 0)
        ensures Painted(Z(), op, was, px, py) == was[py][px]
      {
        NothingAbove(op, px, py, was[py][px]);
      }
    }

    lemma EndsBack(op: Op, was: Picture, limit: int)
      requires Valid() && shadow != null && op.Blit? && BlockVisible(Z(), op) && Sized(Z(), was) && BackTo(op, was, limit)
      requires limit >= Max(op.top, 0)
      requires limit >= Min(op.top + op.h, height) || !RowFits(Z(), op, limit - op.top)
      ensures Picture() == Paint(Z(), op, was)
    {
      hide Ink, Back;
      forall px: nat, py: nat | px < width && limit <= py < height
        ensures Painted(Z(), op, was, px, py) == was[py][px]
      {
        NothingFrom(op, limit, px, py, was[py][px]);
      }
      Repainted(op, was);
    }

    lemma StartsDevice(op: Op, was: Device)
      requires Valid() && op.Blit? && BlockVisible(Z(), op) && was == Device()
      ensures DeviceTo(op, was, Max(op.top, 0))
    {
      hide Ink, Raw, Encode, Decode;
      forall px: nat, py: nat | px < width && py < height && py < Max(op.top, 0)
        ensures Stored(Z(), op, was, px, py) == was[py][px]
      {
        NothingAbove(op, px, py, Decode(was[py][px]));
      }
    }

    lemma EndsDevice(op: Op, was: Device, limit: int)
      requires Valid() && op.Blit? && BlockVisible(Z(), op) && ScreenModel.Raw(Z(), was) && DeviceTo(op, was, limit)
      requires limit >= Max(op.top, 0)
      requires limit >= Min(op.top + op.h, height) || !RowFits(Z(), op, limit - op.top)
      ensures Device() == ScreenModel.Store(Z(), op, was)
    {
      hide Ink, Raw, Encode, Decode;
      forall px: nat, py: nat | px < width && limit <= py < height
        ensures Stored(Z(), op, was, px, py) == was[py][px]
      {
        NothingFrom(op, limit, px, py, Decode(was[py][px]));
      }
      Restored(op, was);
    }

    lemma NothingMissing(op: Op)
      requires Valid() && op.Blit?
      ensures RowsFit(Z(), op, FirstRow(op) - 1)
    {
    }

    lemma NextRowFits(op: Op, row: int)
      requires Valid() && op.Blit? && RowsFit(Z(), op, row - 1) && RowFits(Z(), op, row)
      ensures RowsFit(Z(), op, row)
    {
      hide RowFits;
    }

    lemma NotCovered(op: Op, row: int)
      requires Valid() && op.Blit? && !RowFits(Z(), op, row)
      requires FirstRow(op) <= row < Min(op.h, height - op.top)
      ensures !Covers(Z(), op)
    {
      hide RowFits;
    }

    method BlitBack(op: Op, cx0: u32, cy0: u32, cw: u32, ch: u32) returns (complete: bool)
      requires Valid() && shadow != null && op.Blit? && BlockVisible(Z(), op)
      requires cx0 == Max(op.left, 0) && cy0 == Max(op.top, 0)
      requires cw == Min(op.left + op.w, width) - cx0 && ch == Min(op.top + op.h, height) - cy0
      modifies shadow
      ensures Picture() == Paint(Z(), op, old(Picture())) && complete == Covers(Z(), op)
    {
      hide Ink, Back, Raw, BackTo, RowsFit, BlockVisible;
      NothingMissing(op);
      var skipX, skipY := cx0 - op.left, cy0 - op.top;
      ghost var was := Picture();
      StartsBack(op, was);
      for row := 0 to ch
        invariant BackTo(op, was, cy0 + row)
        invariant RowsFit(Z(), op, skipY + row - 1)
      {
        var from := Wrap64((skipY + row) * op.stride + skipX);
        if from + cw > |op.src| {
          EndsBack(op, was, cy0 + row);
          NotCovered(op, skipY + row);
          return false;
        }
        NextRowFits(op, skipY + row);
        BlitBackRow(op, cx0, skipY + row, op.src[from..from + cw], cy0 + row, was);
      }
      EndsBack(op, was, cy0 + ch);
      return true;
    }

    method BlitDevice(op: Op, cx0: u32, cy0: u32, cw: u32, ch: u32) returns (complete: bool)
      requires Valid() && op.Blit? && BlockVisible(Z(), op)
      requires cx0 == Max(op.left, 0) && cy0 == Max(op.top, 0)
      requires cw == Min(op.left + op.w, width) - cx0 && ch == Min(op.top + op.h, height) - cy0
      modifies base
      ensures Device() == ScreenModel.Store(Z(), op, old(Device())) && complete == Covers(Z(), op)
    {
      hide Ink, Encode, Decode, Back, Raw, DeviceTo, RowsFit, BlockVisible;
      NothingMissing(op);
      var skipX, skipY := cx0 - op.left, cy0 - op.top;
      ghost var was := Device();
      StartsDevice(op, was);
      for row := 0 to ch
        invariant DeviceTo(op, was, cy0 + row)
        invariant RowsFit(Z(), op, skipY + row - 1)
      {
        var from := Wrap64((skipY + row) * op.stride + skipX);
        if from + cw > |op.src| {
          EndsDevice(op, was, cy0 + row);
          NotCovered(op, skipY + row);
          return false;
        }
        NextRowFits(op, skipY + row);
        BlitDeviceRow(op, cx0, skipY + row, op.src[from..from + cw], cy0 + row, was);
      }
      EndsDevice(op, was, cy0 + ch);
      return true;
    }

    method Blit(x: i32, y: i32, w: u32, h: u32, src: Slice, stride: u64)
      requires Valid()
      modifies this, base, shadow
      ensures Screen() == Step(Z(), old(Screen()), Op.Blit(x, y, w, h, src, stride))
    {
      hide Back, Raw, Encode, Decode;
      var op := Op.Blit(x, y, w, h, src, stride);
      var cx0: u32, cy0: u32 := Max(x, 0), Max(y, 0);
      var skipX: u32, skipY: u32 := cx0 - x, cy0 - y;
      if skipX >= w || skipY >= h || cx0 >= width || cy0 >= height {
        Untouched(op);
        return;
      }
      var cw := Min(w - skipX, width - cx0);
      var ch := Min(h - skipY, height - cy0);
      var complete;
      if shadow != null {
        complete := BlitBack(op, cx0, cy0, cw, ch);
      } else {
        complete := BlitDevice(op, cx0, cy0, cw, ch);
      }
      if complete {
        Mark(cx0, cy0, cw, ch);
      }
    }

    /** `copy` within or between rows: every cell of the source is read before any is written. */
    method MoveRow(sx: nat, sy: nat, dx: nat, dy: nat, w: nat)
      requires Valid() && shadow != null
      requires sx + w <= width && dx + w <= width && sy < height && dy < height
      modifies shadow
      ensures forall px: nat, py: nat | px < width && py < height ::
        Back(px, py) == if InRect(px, py, dx, dy, w, 1) then old(Back(px - dx + sx, sy)) else old(Back(px, py))
    {
      if w == 0 {
        return;
      }
      ghost var first, last := Cell(sx, sy), Cell(sx + w - 1, sy);
      ghost var first', last' := Cell(dx, dy), Cell(dx + w - 1, dy);
      MoveCells(sy * width + sx, dy * width + dx, w);
      forall px: nat, py: nat | px < width && py < height
        ensures Back(px, py) == if InRect(px, py, dx, dy, w, 1) then old(Back(px - dx + sx, sy)) else old(Back(px, py))
      {
        CellInRow(px, py, dx, dy, w);
      }
    }

    /** A cell lies in the run of `w` cells from `(dx, dy)` on exactly when its pixel lies in that row segment. */
    lemma CellInRow(px: nat, py: nat, dx: nat, dy: nat, w: nat)
      requires Valid() && shadow != null && px < width && dx + w <= width
      ensures dy * width + dx <= py * width + px < dy * width + dx + w <==> InRect(px, py, dx, dy, w, 1)
    {
      if py < dy {
        MulStep(py, dy, width);
      } else if dy < py {
        MulStep(dy, py, width);
      }
    }

    method MoveCells(from: u32, to: u32, w: u32)
      requires shadow != null && from + w <= shadow.Length && to + w <= shadow.Length
      modifies shadow
      ensures forall k | 0 <= k < shadow.Length ::
        shadow[k] == if to <= k < to + w then old(shadow[k - to + from]) else old(shadow[k])
    {
      forall i | 0 <= i < w {
        shadow[to + i] := shadow[from + i];
      }
    }

    /** Rows from the end the block moves towards, so that no row is overwritten before it is read. */
    method CopyRows(sx: nat, sy: nat, w: nat, h: nat, dx: nat, dy: nat)
      requires Valid() && shadow != null
      requires sx + w <= width && dx + w <= width && sy + h <= height && dy + h <= height
      modifies shadow
      ensures forall px: nat, py: nat | px < width && py < height ::
        Back(px, py) == if InRect(px, py, dx, dy, w, h) then old(Back(px - dx + sx, py - dy + sy)) else old(Back(px, py))
    {
      hide Back;
      if dy > sy {
        for row := h downto 0
          invariant forall px: nat, py: nat | px < width && py < height ::
            Back(px, py) == if InRect(px, py, dx, dy + row, w, h - row) then old(Back(px - dx + sx, py - dy + sy))
                            else old(Back(px, py))
        {
          MoveRow(sx, sy + row, dx, dy + row, w);
        }
      } else {
        for row := 0 to h
          invariant forall px: nat, py: nat | px < width && py < height ::
            Back(px, py) == if InRect(px, py, dx, dy, w, row) then old(Back(px - dx + sx, py - dy + sy))
                            else old(Back(px, py))
        {
          MoveRow(sx, sy + row, dx, dy + row, w);
        }
      }
    }

    method CopyBlock(sx: u32, sy: u32, w: u32, h: u32, dx: u32, dy: u32, cw: nat, ch: nat)
      requires Valid() && shadow != null && cw > 0 && ch > 0
      requires cw == Min(Min(w, Max(width - sx, 0)), Max(width - dx, 0))
      requires ch == Min(Min(h, Max(height - sy, 0)), Max(height - dy, 0))
      modifies shadow
      ensures Picture() == Paint(Z(), Op.CopyWithin(sx, sy, w, h, dx, dy), old(Picture()))
    {
      hide Back;
      CopyRows(sx, sy, cw, ch, dx, dy);
      Repainted(Op.CopyWithin(sx, sy, w, h, dx, dy), old(Picture()));
    }

    lemma NothingMoves(op: Op)
      requires Valid() && shadow != null && op.CopyWithin?
      requires Min(Min(op.w, Max(width - op.sx, 0)), Max(width - op.dx, 0)) == 0
        || Min(Min(op.h, Max(height - op.sy, 0)), Max(height - op.dy, 0)) == 0
      ensures Paint(Z(), op, Picture()) == Picture()
    {
      hide Back;
      Repainted(op, Picture());
    }

    method CopyWithin(sx: u32, sy: u32, w: u32, h: u32, dx: u32, dy: u32) returns (copied: bool)
      requires Valid()
      modifies this, shadow
      ensures Screen() == Step(Z(), old(Screen()), Op.CopyWithin(sx, sy, w, h, dx, dy))
      ensures copied == (shadow != null)
    {
      hide Back, Raw, Paint;
      ghost var op := Op.CopyWithin(sx, sy, w, h, dx, dy);
      if shadow == null {
        return false;
      }
      var cw := Min(Min(w, Max(width - sx, 0)), Max(width - dx, 0));
      var ch := Min(Min(h, Max(height - sy, 0)), Max(height - dy, 0));
      if cw == 0 || ch == 0 {
        NothingMoves(op);
        return true;
      }
      CopyBlock(sx, sy, w, h, dx, dy, cw, ch);
      Mark(dx, dy, cw, ch);
      return true;
    }

    // `(px, py)` comes before `(x, y)` in the order a nested loop visits them.
    predicate Before(px: int, py: int, x: int, y: int)
    {
      py < y || (py == y && px < x)
    }

    /** The colour one cell of a coverage mask writes: nothing, `bg`, `fg`, or a blend over what is there. */
    method CellColour(op: Op, col: u32, row: u32, px: u32, py: u32) returns (colour: Option<Colour>)
      requires Valid() && px < width && py < height
      requires op.Coverage? && col < op.w && px == op.x + col && py == op.y + row && row < op.h
      ensures colour == Ink(Z(), op, px, py, if shadow != null then Back(px, py) else Decode(Raw(px, py)))
    {
      hide Back, Raw, Blend, Encode, Decode, Ink;
      var i := (row * op.w + col) % 0x1_0000_0000;
      var a := if i < |op.coverage| then op.coverage[i] else 0;
      CellInk(op, col, row, px, py, if shadow != null then Back(px, py) else Decode(Raw(px, py)));
      BlendFull(op.fg);
      if a == 0 {
        return op.bg;
      }
      if a == 255 {
        return Some(op.fg);
      }
      if op.bg.Some? {
        return Some(Blend(op.bg.value, op.fg, a));
      }
      var under := Get(px, py);
      return Some(Blend(under, op.fg, a));
    }

    lemma CellInk(op: Op, col: u32, row: u32, px: u32, py: u32, under: Colour)
      requires Valid() && px < width && py < height
      requires op.Coverage? && col < op.w && px == op.x + col && py == op.y + row && row < op.h
      ensures var a := CoverageAt(op.coverage, op.w, col, row);
        Ink(Z(), op, px, py, under)
          == if a == 0 then op.bg else Some(Blend(if op.bg.Some? then op.bg.value else under, op.fg, a))
    {
      hide Blend, CoverageAt;
    }

    lemma BlendFull(fg: Colour)
      ensures forall bg :: Blend(bg, fg, 255) == fg
    {
    }

    /** A coverage mask inks nothing outside its rectangle. */
    lemma CoverageInks(op: Op)
      requires Valid() && op.Coverage?
      ensures forall px: nat, py: nat, under | px < width && py < height && Ink(Z(), op, px, py, under).Some? ::
        InRect(px, py, op.x, op.y, op.w, op.h)
    {
    }

    /** The pixels before `(x, y)` of the back buffer are done, the others as they were. */
    ghost predicate BackBefore(op: Op, was: Picture, x: int, y: int)
      requires Valid() && shadow != null && Sized(Z(), was)
      reads shadow
    {
      forall px: nat, py: nat | px < width && py < height ::
        Back(px, py) == if Before(px, py, x, y) then Painted(Z(), op, was, px, py) else was[py][px]
    }

    ghost predicate DeviceBefore(op: Op, was: Device, x: int, y: int)
      requires Valid() && ScreenModel.Raw(Z(), was)
      reads base
    {
      forall px: nat, py: nat | px < width && py < height ::
        Raw(px, py) == if Before(px, py, x, y) then Stored(Z(), op, was, px, py) else was[py][px]
    }

    method CoverBackCell(op: Op, col: u32, row: u32, ghost was: Picture)
      requires Valid() && shadow != null && op.Coverage? && Sized(Z(), was) && col < op.w && row < op.h
      requires op.x + col < width && op.y + row < height && BackBefore(op, was, op.x + col, op.y + row)
      modifies shadow
      ensures BackBefore(op, was, op.x + col + 1, op.y + row)
    {
      hide Back, Raw, Ink, Blend, CoverageAt;
      var px, py := op.x + col, op.y + row;
      var colour := CellColour(op, col, row, px, py);
      assert colour == Ink(Z(), op, px, py, was[py][px]);
      if colour.Some? {
        Put(px, py, colour.value);
      }
    }

    method CoverDeviceCell(op: Op, col: u32, row: u32, ghost was: Device)
      requires Valid() && shadow == null && op.Coverage? && ScreenModel.Raw(Z(), was) && col < op.w && row < op.h
      requires op.x + col < width && op.y + row < height && DeviceBefore(op, was, op.x + col, op.y + row)
      modifies base
      ensures DeviceBefore(op, was, op.x + col + 1, op.y + row)
    {
      hide Back, Raw, Ink, Blend, CoverageAt, Encode, Decode;
      var px, py := op.x + col, op.y + row;
      var colour := CellColour(op, col, row, px, py);
      assert colour == Ink(Z(), op, px, py, Decode(was[py][px]));
      if colour.Some? {
        Store(px, py, colour.value);
      }
    }

    /** Moving on over pixels that the mask does not ink. */
    lemma BackMoves(op: Op, was: Picture, x: int, y: int, x': int, y': int)
      requires Valid() && shadow != null && op.Coverage? && Sized(Z(), was) && BackBefore(op, was, x, y)
      requires forall px: nat, py: nat | px < width && py < height && InRect(px, py, op.x, op.y, op.w, op.h) ::
        Before(px, py, x, y) == Before(px, py, x', y')
      ensures BackBefore(op, was, x', y')
    {
      hide Back, Ink;
      CoverageInks(op);
    }

    lemma DeviceMoves(op: Op, was: Device, x: int, y: int, x': int, y': int)
      requires Valid() && op.Coverage? && ScreenModel.Raw(Z(), was) && DeviceBefore(op, was, x, y)
      requires forall px: nat, py: nat | px < width && py < height && InRect(px, py, op.x, op.y, op.w, op.h) ::
        Before(px, py, x, y) == Before(px, py, x', y')
      ensures DeviceBefore(op, was, x', y')
    {
      hide Raw, Ink, Encode, Decode;
      CoverageInks(op);
    }

    lemma BackDone(op: Op, was: Picture)
      requires Valid() && shadow != null && Sized(Z(), was) && BackBefore(op, was, 0, height)
      ensures Picture() == Paint(Z(), op, was)
    {
      hide Back, Ink;
      Repainted(op, was);
    }

    lemma DeviceDone(op: Op, was: Device)
      requires Valid() && ScreenModel.Raw(Z(), was) && DeviceBefore(op, was, 0, height)
      ensures Device() == ScreenModel.Store(Z(), op, was)
    {
      hide Raw, Ink, Encode, Decode;
      Restored(op, was);
    }

    lemma NothingBefore(op: Op)
      requires Valid()
      ensures shadow != null ==> BackBefore(op, Picture(), 0, 0)
      ensures DeviceBefore(op, Device(), 0, 0)
    {
      hide Back, Raw, Ink, Encode, Decode;
    }

    method CoverBack(op: Op, cw: u32, ch: u32)
      requires Valid() && shadow != null && op.Coverage? && Z().On(op.x, op.y)
      requires cw == Min(op.w, width - op.x) && ch == Min(op.h, height - op.y)
      modifies shadow
      ensures Picture() == Paint(Z(), op, old(Picture()))
    {
      hide BackBefore, Back, Raw, Ink;
      ghost var was := Picture();
      NothingBefore(op);
      BackMoves(op, was, 0, 0, op.x, op.y);
      for row := 0 to ch
        invariant BackBefore(op, was, op.x, op.y + row)
      {
        for col := 0 to cw
          invariant BackBefore(op, was, op.x + col, op.y + row)
        {
          CoverBackCell(op, col, row, was);
        }
        BackMoves(op, was, op.x + cw, op.y + row, op.x, op.y + row + 1);
      }
      BackMoves(op, was, op.x, op.y + ch, 0, height);
      BackDone(op, was);
    }

    method CoverDevice(op: Op, cw: u32, ch: u32)
      requires Valid() && shadow == null && op.Coverage? && Z().On(op.x, op.y)
      requires cw == Min(op.w, width - op.x) && ch == Min(op.h, height - op.y)
      modifies base
      ensures Device() == ScreenModel.Store(Z(), op, old(Device()))
    {
      hide DeviceBefore, Back, Raw, Ink;
      ghost var was := Device();
      NothingBefore(op);
      DeviceMoves(op, was, 0, 0, op.x, op.y);
      for row := 0 to ch
        invariant DeviceBefore(op, was, op.x, op.y + row)
      {
        for col := 0 to cw
          invariant DeviceBefore(op, was, op.x + col, op.y + row)
        {
          CoverDeviceCell(op, col, row, was);
        }
        DeviceMoves(op, was, op.x + cw, op.y + row, op.x, op.y + row + 1);
      }
      DeviceMoves(op, was, op.x, op.y + ch, 0, height);
      DeviceDone(op, was);
    }

    method DrawCoverage(x: u32, y: u32, w: u32, h: u32, coverage: seq<bv8>, fg: Colour, bg: Option<Colour>)
      requires Valid()
      modifies this, base, shadow
      ensures Screen() == Step(Z(), old(Screen()), Op.Coverage(x, y, w, h, coverage, fg, bg))
    {
      hide Back, Raw, Blend, CoverageAt, Encode, Decode;
      var op := Op.Coverage(x, y, w, h, coverage, fg, bg);
      if x >= width || y >= height {
        Untouched(op);
        return;
      }
      var cw, ch := Min(w, width - x), Min(h, height - y);
      if shadow != null {
        CoverBack(op, cw, ch);
      } else {
        CoverDevice(op, cw, ch);
      }
      Mark(x, y, cw, ch);
    }

    // ------------------------------------------------------------- presenting

    method PresentRect(x: u32, y: u32, right: u32, bottom: u32)
      requires Valid() && shadow != null && x <= right <= width && y <= bottom <= height
      modifies base
      ensures forall px: nat, py: nat | px < width && py < height ::
        Raw(px, py) == if InRect(px, py, x, y, right - x, bottom - y) then Encode(Back(px, py), bpp) else old(Raw(px, py))
    {
      hide Back, Raw, Encode, Decode;
      for row := y to bottom
        invariant forall px: nat, py: nat | px < width && py < height ::
          Raw(px, py) == if InRect(px, py, x, y, right - x, row - y) then Encode(Back(px, py), bpp)
                         else old(Raw(px, py))
      {
        for col := x to right
          invariant forall px: nat, py: nat | px < width && py < height ::
            Raw(px, py) == if InRect(px, py, x, y, right - x, row - y) || InRect(px, py, x, row, col - x, 1)
                           then Encode(Back(px, py), bpp) else old(Raw(px, py))
        {
          var colour := Get(col, row);
          Store(col, row, colour);
        }
      }
    }

    method Present(x: u32, y: u32, w: u32, h: u32)
      requires Valid()
      modifies base
      ensures Screen() == Step(Z(), old(Screen()), Op.Present(x, y, w, h))
    {
      hide Back, Raw, Encode, Decode;
      if shadow == null {
        return;
      }
      ghost var was := Device();
      ghost var shown := Shown(Z(), Picture(), was, x, y, w, h);
      if !(w == 0 || h == 0 || x >= width || y >= height) {
        var right := Min(Min(x + w, U32_MAX), width);
        var bottom := Min(Min(y + h, U32_MAX), height);
        PresentRect(x, y, right, bottom);
      }
      C.SameGrid(Z(), Device(), shown);
    }

    method PresentAllDamage()
      requires Valid()
      modifies this, base
      ensures Screen() == Step(Z(), old(Screen()), Op.PresentDamage)
    {
      hide Back, Raw, Encode, Decode;
      var a, b, c, d := x0, y0, x1, y1;
      x0, y0, x1, y1 := U32_MAX, U32_MAX, 0, 0;
      if a >= c || b >= d {
        return;
      }
      Present(a, b, c - a, d - b);
    }
  }
}
