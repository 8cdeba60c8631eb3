/**
 The screen as values: the back buffer, the device pixels and the damage box
 (crates/nanochrono-baremetal/src/framebuffer.rs). Each drawing operation is
 stated on unclipped coordinates, as the colour it leaves at one pixel.
 */
module ScreenModel {
  import opened Wrappers
  import opened Arithmetic
  import opened Bytes
  import opened Pixels

  type i32 = x: int | -0x8000_0000 <= x < 0x8000_0000

  datatype Size = Size(w: nat, h: nat, bpp: nat) {
    predicate Valid() {
      2 <= bpp <= 4 && w <= U32_MAX && h <= U32_MAX
    }

    predicate On(x: int, y: int) {
      0 <= x < w && 0 <= y < h
    }
  }

  // A slice of source pixels; its length is a machine word.
  type Slice = s: seq<Colour> | |s| <= U64_MAX witness []

  type Picture = seq<seq<Colour>>
  type Device = seq<seq<seq<bv8>>>

  predicate Sized<T>(z: Size, rows: seq<seq<T>>) {
    |rows| == z.h && forall y | 0 <= y < z.h :: |rows[y]| == z.w
  }

  // ------------------------------------------------------------- damage box

  /** `[x0, x1) x [y0, y1)`; reset to an empty range. */
  datatype Box = Box(x0: u32, y0: u32, x1: u32, y1: u32) {
    predicate Contains(x: int, y: int) {
      x0 <= x < x1 && y0 <= y < y1
    }

    function Widen(x: u32, y: u32, w: u32, h: u32): (r: Box)
      ensures forall px, py | Contains(px, py) :: r.Contains(px, py)
      ensures x + w <= U32_MAX && y + h <= U32_MAX ==>
        forall px: int, py: int | x <= px < x + w && y <= py < y + h :: r.Contains(px, py)
    {
      Box(Min(x0, x), Min(y0, y), Max(x1, Min(x + w, U32_MAX)), Max(y1, Min(y + h, U32_MAX)))
    }
  }

  const NO_DAMAGE := Box(U32_MAX, U32_MAX, 0, 0)

  // -------------------------------------------------------------- operations

  datatype Op =
    | Set(x: u32, y: u32, colour: Colour)
    | Fill(x: u32, y: u32, w: u32, h: u32, colour: Colour)
    | Blit(left: i32, top: i32, w: u32, h: u32, src: Slice, stride: u64)
    | Coverage(x: u32, y: u32, w: u32, h: u32, coverage: seq<bv8>, fg: Colour, bg: Option<Colour>)
    | CopyWithin(sx: u32, sy: u32, w: u32, h: u32, dx: u32, dy: u32)
    | Present(x: u32, y: u32, w: u32, h: u32)
    | PresentDamage
  {
    predicate Draws() {
      !Present? && !PresentDamage?
    }
  }

  predicate InRect(px: int, py: int, x: int, y: int, w: int, h: int) {
    x <= px < x + w && y <= py < y + h
  }

  /** The coverage of cell `(col, row)`; the index is computed in 32 bits and zero past the slice. */
  function CoverageAt(coverage: seq<bv8>, w: u32, col: nat, row: nat): bv8 {
    var i := (row * w + col) % 0x1_0000_0000;
    if i < |coverage| then coverage[i] else 0
  }

  /** The first row of a blit's block, counted from its unclipped top, that is on the surface. */
  function FirstRow(op: Op): int
    requires op.Blit?
  {
    Max(op.top, 0) - op.top
  }

  /** How many pixels of a row of the block are on the surface. */
  function RowWidth(z: Size, op: Op): int
    requires op.Blit?
  {
    Min(op.left + op.w, z.w) - Max(op.left, 0)
  }

  /** The index in `src` of the first pixel drawn of row `row`, kept in a machine word. */
  function RowFrom(op: Op, row: int): u64
    requires op.Blit?
  {
    Wrap64(row * op.stride + (Max(op.left, 0) - op.left))
  }

  predicate RowFits(z: Size, op: Op, row: int)
    requires op.Blit?
  {
    RowFrom(op, row) + RowWidth(z, op) <= |op.src|
  }

  /** `src` has every row up to `row`: a blit stops at the first it has not. */
  predicate RowsFit(z: Size, op: Op, row: int)
    requires op.Blit?
  {
    forall r: int | FirstRow(op) <= r <= row :: RowFits(z, op, r)
  }

  /** The colour `op` writes at `(px, py)` when the pixel there reads as `under`, if it writes it. */
  function Ink(z: Size, op: Op, px: int, py: int, under: Colour): Option<Colour>
    requires z.On(px, py)
  {
    match op
    case Set(x, y, colour) =>
      if px == x && py == y then Some(colour) else None
    case Fill(x, y, w, h, colour) =>
      if InRect(px, py, x, y, w, h) then Some(colour) else None
    case Blit(left, top, w, h, src, stride) =>
      if InRect(px, py, left, top, w, h) && RowsFit(z, op, py - top)
      then assert RowFits(z, op, py - top); Some(src[RowFrom(op, py - top) + (px - Max(left, 0))]) else None
    case Coverage(x, y, w, h, coverage, fg, bg) =>
      if !InRect(px, py, x, y, w, h) then None
      else
        var a := CoverageAt(coverage, w, px - x, py - y);
        if a == 0 then bg
        else Some(Blend(if bg.Some? then bg.value else under, fg, a))
    case _ => None
  }

  // ---------------------------------------------------------------- pictures

  /** The colour at `(px, py)` after `op` on a picture. `CopyWithin` reads another pixel of it. */
  function Painted(z: Size, op: Op, pic: Picture, px: int, py: int): Colour
    requires Sized(z, pic) && z.On(px, py)
  {
    if op.CopyWithin? then
      var (qx, qy) := (px - op.dx + op.sx, py - op.dy + op.sy);
      if InRect(px, py, op.dx, op.dy, op.w, op.h) && z.On(qx, qy) then pic[qy][qx] else pic[py][px]
    else
      match Ink(z, op, px, py, pic[py][px])
      case Some(c) => c
      case None => pic[py][px]
  }

  function Paint(z: Size, op: Op, pic: Picture): (r: Picture)
    requires Sized(z, pic)
    ensures Sized(z, r) && forall x, y | z.On(x, y) :: r[y][x] == Painted(z, op, pic, x, y)
  {
    seq(z.h, y requires 0 <= y < z.h => seq(z.w, x requires 0 <= x < z.w => Painted(z, op, pic, x, y)))
  }

  /** Without a back buffer the same colours go straight to the device; `CopyWithin` does nothing. */
  function Stored(z: Size, op: Op, dev: Device, px: int, py: int): seq<bv8>
    requires z.Valid() && Raw(z, dev) && z.On(px, py)
  {
    match Ink(z, op, px, py, Decode(dev[py][px]))
    case Some(c) => Encode(c, z.bpp)
    case None => dev[py][px]
  }

  ghost predicate Raw(z: Size, dev: Device) {
    Sized(z, dev) && forall x, y | z.On(x, y) :: |dev[y][x]| == z.bpp
  }

  function Store(z: Size, op: Op, dev: Device): (r: Device)
    requires z.Valid() && Raw(z, dev)
    ensures Raw(z, r) && forall x, y | z.On(x, y) :: r[y][x] == Stored(z, op, dev, x, y)
  {
    seq(z.h, y requires 0 <= y < z.h => seq(z.w, x requires 0 <= x < z.w => Stored(z, op, dev, x, y)))
  }

  /** The device after the pixels of a rectangle were converted from the picture. */
  function Shown(z: Size, pic: Picture, dev: Device, x: u32, y: u32, w: u32, h: u32): (r: Device)
    requires z.Valid() && Sized(z, pic) && Raw(z, dev)
    ensures Raw(z, r)
    ensures forall px, py | z.On(px, py) ::
      r[py][px] == (if InRect(px, py, x, y, w, h) then Encode(pic[py][px], z.bpp) else dev[py][px])
  {
    seq(z.h, py requires 0 <= py < z.h => seq(z.w, px requires 0 <= px < z.w =>
      if InRect(px, py, x, y, w, h) then Encode(pic[py][px], z.bpp) else dev[py][px]))
  }

  // ------------------------------------------------------------------- steps

  /** The screen: its back buffer if it has one, its device pixels and what is still to present. */
  datatype Screen = Screen(back: Option<Picture>, dev: Device, box: Box) {
    ghost predicate Valid(z: Size) {
      z.Valid() && Raw(z, dev) && (back.Some? ==> Sized(z, back.value))
    }
  }

  /** The rectangle an operation marks as damaged, after clipping, or none. */
  function Marks(z: Size, op: Op): Option<(u32, u32, u32, u32)>
    requires z.Valid()
  {
    match op
    case Set(x, y, _) =>
      if z.On(x, y) then Some((x, y, 1, 1)) else None
    case Fill(x, y, w, h, _) =>
      if z.On(x, y) && w > 0 && h > 0 then Some((x, y, Min(w, z.w - x), Min(h, z.h - y))) else None
    case Blit(left, top, w, h, src, stride) =>
      if BlockVisible(z, op) && Covers(z, op) then
        var (x, y) := (Max(left, 0), Max(top, 0));
        Some((x, y, Min(left + w, z.w) - x, Min(top + h, z.h) - y))
      else None
    case Coverage(x, y, w, h, _, _, _) =>
      if z.On(x, y) then Some((x, y, Min(w, z.w - x), Min(h, z.h - y))) else None
    case CopyWithin(sx, sy, w, h, dx, dy) =>
      var (cw, ch) := (Min(w, Min(z.w - sx, z.w - dx)), Min(h, Min(z.h - sy, z.h - dy)));
      if cw > 0 && ch > 0 then Some((dx, dy, cw, ch)) else None
    case _ => None
  }

  /** Some pixel of a blit's block is on the surface. */
  predicate BlockVisible(z: Size, op: Op)
    requires op.Blit?
  {
    z.On(Max(op.left, 0), Max(op.top, 0)) && Max(op.left, 0) < op.left + op.w && Max(op.top, 0) < op.top + op.h
  }

  /** The source of a blit has every row the clipped block needs. */
  predicate Covers(z: Size, op: Op)
    requires op.Blit?
  {
    RowsFit(z, op, Min(op.h, z.h - op.top) - 1)
  }

  function Widened(z: Size, op: Op, box: Box): Box
    requires z.Valid()
  {
    match Marks(z, op)
    case None => box
    case Some((x, y, w, h)) => box.Widen(x, y, w, h)
  }

  /** One call of a drawing or presenting routine. */
  function Step(z: Size, s: Screen, op: Op): (r: Screen)
    requires s.Valid(z)
    ensures r.Valid(z)
  {
    match s.back
    case Some(pic) =>
      if op.Draws() then Screen(Some(Paint(z, op, pic)), s.dev, Widened(z, op, s.box))
      else if op.Present? then Screen(s.back, Shown(z, pic, s.dev, op.x, op.y, op.w, op.h), s.box)
      else if s.box.x0 >= s.box.x1 || s.box.y0 >= s.box.y1 then Screen(s.back, s.dev, NO_DAMAGE)
      else
        var (w, h) := (s.box.x1 - s.box.x0, s.box.y1 - s.box.y0);
        Screen(s.back, Shown(z, pic, s.dev, s.box.x0, s.box.y0, w, h), NO_DAMAGE)
    case None =>
      if op.PresentDamage? then Screen(None, s.dev, NO_DAMAGE)
      else if op.CopyWithin? || op.Present? then s
      else Screen(None, Store(z, op, s.dev), if op.Set? || op.Fill? then s.box else Widened(z, op, s.box))
  }

  function Run(z: Size, s: Screen, ops: seq<Op>): (r: Screen)
    requires s.Valid(z)
    ensures r.Valid(z)
    decreases |ops|
  {
    if ops == [] then s else Run(z, Step(z, s, ops[0]), ops[1..])
  }
}
