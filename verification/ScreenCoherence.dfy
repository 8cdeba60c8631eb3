/**
 The damage box is right: outside it the device already shows the back buffer,
 whatever was drawn, and presenting the damage makes the two agree everywhere.
 A composited run then leaves what the same run drawn straight onto the device
 leaves.
 */
module ScreenCoherence {
  import opened Wrappers
  import opened Arithmetic
  import opened Bytes
  import opened Pixels
  import opened ScreenModel
  import H = Highcolour

  /** Every pixel outside the damage box already holds the converted back-buffer colour. */
  ghost predicate Coherent(z: Size, s: Screen)
    requires s.Valid(z)
  {
    s.back.Some? ==> forall x, y | z.On(x, y) && !s.box.Contains(x, y) ::
      s.dev[y][x] == Encode(s.back.value[y][x], z.bpp)
  }

  /** The whole device shows the back buffer. */
  ghost predicate Clean(z: Size, s: Screen)
    requires s.Valid(z)
  {
    s.back.Some? && forall x, y | z.On(x, y) :: s.dev[y][x] == Encode(s.back.value[y][x], z.bpp)
  }

  /** The blit's source is too short even for the first row the clipped block needs. */
  predicate NoRow(z: Size, op: Op)
    requires op.Blit?
  {
    !RowFits(z, op, FirstRow(op))
  }

  /** What a blit must meet to be presented in full: a source that covers its block, or nothing to draw. */
  predicate Presentable(z: Size, op: Op) {
    op.Blit? && BlockVisible(z, op) ==> Covers(z, op) || NoRow(z, op)
  }

  /** A drawing operation changes no pixel outside the box it leaves. */
  lemma ChangesAreMarked(z: Size, op: Op, pic: Picture, box: Box, px: int, py: int)
    requires z.Valid() && Sized(z, pic) && z.On(px, py) && op.Draws()
    requires Presentable(z, op)
    requires Painted(z, op, pic, px, py) != pic[py][px]
    ensures Widened(z, op, box).Contains(px, py)
  {
    hide RowFits, RowsFit, CoverageAt;
    if op.Blit? {
      BlitIsMarked(z, op, px, py, pic[py][px]);
    }
  }

  /** A presentable blit that inks a pixel marks its whole clipped block, and the pixel is in it. */
  lemma BlitIsMarked(z: Size, op: Op, px: int, py: int, under: Colour)
    requires z.Valid() && z.On(px, py) && op.Blit? && Presentable(z, op) && Ink(z, op, px, py, under).Some?
    ensures BlockVisible(z, op) && Covers(z, op) && InRect(px, py, op.left, op.top, op.w, op.h)
  {
    hide RowFits;
    assert RowFits(z, op, FirstRow(op));
  }

  lemma StepCoherent(z: Size, s: Screen, op: Op)
    requires s.Valid(z) && Coherent(z, s) && Presentable(z, op)
    ensures Coherent(z, Step(z, s, op))
  {
    hide Encode, Painted, Marks, Presentable;
    if s.back.Some? && op.Draws() {
      var r := Step(z, s, op);
      forall x, y | z.On(x, y) && !r.box.Contains(x, y)
        ensures r.dev[y][x] == Encode(r.back.value[y][x], z.bpp)
      {
        if Painted(z, op, s.back.value, x, y) != s.back.value[y][x] {
          ChangesAreMarked(z, op, s.back.value, s.box, x, y);
        }
        assert !s.box.Contains(x, y);
      }
    }
  }

  ghost predicate AllPresentable(z: Size, ops: seq<Op>) {
    forall i | 0 <= i < |ops| :: Presentable(z, ops[i])
  }

  /** Every step of every run keeps the device right outside the damage box. */
  lemma {:induction false} RunCoherent(z: Size, s: Screen, ops: seq<Op>)
    requires s.Valid(z) && Coherent(z, s) && AllPresentable(z, ops)
    ensures Coherent(z, Run(z, s, ops))
    decreases |ops|
  {
    if ops != [] {
      StepCoherent(z, s, ops[0]);
      RunCoherent(z, Step(z, s, ops[0]), ops[1..]);
    }
  }

  /** Presenting the damage of a coherent screen leaves nothing stale and forgets the damage. */
  lemma PresentDamageCleans(z: Size, s: Screen)
    requires s.Valid(z) && s.back.Some? && Coherent(z, s)
    ensures Clean(z, Step(z, s, PresentDamage)) && Step(z, s, PresentDamage).box == NO_DAMAGE
  {
    hide Encode, Marks, Painted;
  }

  /** Filling the whole surface makes any screen coherent, whatever the device held. */
  lemma ClearMakesCoherent(z: Size, s: Screen, colour: Colour)
    requires s.Valid(z)
    ensures Coherent(z, Step(z, s, Fill(0, 0, z.w, z.h, colour)))
  {
  }

  /** From any screen: clear, draw and present in any order, present the damage; the device shows it all. */
  lemma ClearedRunIsShown(z: Size, s: Screen, colour: Colour, ops: seq<Op>)
    requires s.Valid(z) && s.back.Some? && AllPresentable(z, ops)
    ensures var cleared := Step(z, s, Fill(0, 0, z.w, z.h, colour));
      Coherent(z, Run(z, cleared, ops)) && Clean(z, Step(z, Run(z, cleared, ops), PresentDamage))
  {
    var cleared := Step(z, s, Fill(0, 0, z.w, z.h, colour));
    ClearMakesCoherent(z, s, colour);
    RunCoherent(z, cleared, ops);
    RunKeepsBack(z, cleared, ops);
    PresentDamageCleans(z, Run(z, cleared, ops));
  }

  lemma {:induction false} RunKeepsBack(z: Size, s: Screen, ops: seq<Op>)
    requires s.Valid(z)
    ensures Run(z, s, ops).back.Some? == s.back.Some?
    decreases |ops|
  {
    if ops != [] {
      RunKeepsBack(z, Step(z, s, ops[0]), ops[1..]);
    }
  }

  // ------------------------------------------------------------- short blits

  function Plain<T>(z: Size, v: T): (r: seq<seq<T>>)
    ensures Sized(z, r) && forall x, y | z.On(x, y) :: r[y][x] == v
  {
    seq(z.h, _ => seq(z.w, _ => v))
  }

  /** A screen of one colour, nothing to present. */
  function PlainScreen(z: Size, c: Colour): (s: Screen)
    requires z.Valid()
    ensures s.Valid(z) && Coherent(z, s)
  {
    Screen(Some(Plain(z, c)), Plain(z, Encode(c, z.bpp)), NO_DAMAGE)
  }

  /** A blit keeps every coherent screen coherent exactly when it is presentable. */
  lemma BlitCoherentIff(z: Size, op: Op)
    requires z.Valid() && op.Blit?
    ensures (forall s: Screen | s.Valid(z) && Coherent(z, s) :: Coherent(z, Step(z, s, op))) <==> Presentable(z, op)
  {
    if Presentable(z, op) {
      forall s: Screen | s.Valid(z) && Coherent(z, s)
        ensures Coherent(z, Step(z, s, op))
      {
        StepCoherent(z, s, op);
      }
    } else {
      var s := ShortBlitGoesStale(z, op);
    }
  }

  /** A source that runs short part way: rows are drawn and nothing is marked. */
  lemma ShortBlitGoesStale(z: Size, op: Op) returns (s: Screen)
    requires z.Valid() && op.Blit? && !Presentable(z, op)
    ensures s.Valid(z) && Coherent(z, s) && !Coherent(z, Step(z, s, op))
  {
    var px, py, ink := ShortBlitDraws(z, op);
    var c := ink ^ 0x0080_8080;
    s := PlainScreen(z, c);
    var r := Step(z, s, op);
    assert r.box == NO_DAMAGE;
    assert r.back.value[py][px] == ink;
    assert s.dev[py][px] == Encode(c, z.bpp);
    FlippedLooksDifferent(ink, z.bpp);
  }

  lemma ShortBlitDraws(z: Size, op: Op) returns (px: nat, py: nat, ink: Colour)
    requires z.Valid() && op.Blit? && !Presentable(z, op)
    ensures z.On(px, py) && forall under :: Ink(z, op, px, py, under) == Some(ink)
  {
    px, py := Max(0, op.left), Max(0, op.top);
    assert RowFits(z, op, py - op.top);
    ink := op.src[RowFrom(op, py - op.top)];
  }

  // A surface of two pixels, one above the other.
  const TWO_ROWS := Size(1, 2, 4)

  /** A block for both of them. */
  function BothRows(src: Slice): Op {
    Blit(0, 0, 1, 2, src, 1)
  }

  /** From a source of one pixel the first row is drawn, and presenting the damage does not show it. */
  lemma ShortBlitExample(src: Slice)
    requires |src| == 1
    ensures var c := src[0] ^ 0x0080_8080;
      var s := Step(TWO_ROWS, PlainScreen(TWO_ROWS, c), BothRows(src));
      !Presentable(TWO_ROWS, BothRows(src)) && s.back.value[0][0] == src[0]
      && Step(TWO_ROWS, s, PresentDamage).dev[0][0] == Encode(c, 4) != Encode(src[0], 4)
  {
    hide Encode, Ink, Marks, Presentable, Shown;
    var start := PlainScreen(TWO_ROWS, src[0] ^ 0x0080_8080);
    OneRowNotMarked(src);
    OneRowDraws(src, start.back.value[0][0]);
    assert TWO_ROWS.On(0, 0);
    assert Step(TWO_ROWS, start, BothRows(src)).back == Some(Paint(TWO_ROWS, BothRows(src), start.back.value));
    FlippedLooksDifferent(src[0], 4);
  }

  lemma OneRowFits(src: Slice)
    requires |src| == 1
    ensures RowFrom(BothRows(src), 0) == 0
    ensures RowFits(TWO_ROWS, BothRows(src), 0) && !RowFits(TWO_ROWS, BothRows(src), 1)
  {
  }

  lemma OneRowNotMarked(src: Slice)
    requires |src| == 1
    ensures !Presentable(TWO_ROWS, BothRows(src)) && Marks(TWO_ROWS, BothRows(src)).None?
  {
    hide RowFits;
    OneRowFits(src);
  }

  lemma OneRowDraws(src: Slice, under: Colour)
    requires |src| == 1
    ensures Ink(TWO_ROWS, BothRows(src), 0, 0, under) == Some(src[0])
  {
    hide RowFits, RowFrom, Blend, CoverageAt;
    OneRowFits(src);
  }

  /** While no row offset leaves a machine word, the last row alone decides. */
  lemma CoversIff(z: Size, op: Op)
    requires z.Valid() && op.Blit? && BlockVisible(z, op)
    ensures var (last, skip) := (Min(op.h, z.h - op.top) - 1, Max(op.left, 0) - op.left);
      Offset(last, op.stride, skip) <= U64_MAX ==>
        (Covers(z, op) <==> Offset(last, op.stride, skip) + RowWidth(z, op) <= |op.src|)
  {
    var (last, skip) := (Min(op.h, z.h - op.top) - 1, Max(op.left, 0) - op.left);
    if Offset(last, op.stride, skip) <= U64_MAX {
      forall row: int | FirstRow(op) <= row <= last
        ensures RowFrom(op, row) == Offset(row, op.stride, skip) <= Offset(last, op.stride, skip)
      {
        MulMonotone(row, last, op.stride);
      }
      assert Covers(z, op) ==> RowFits(z, op, last);
    }
  }

  function Offset(row: nat, stride: nat, skip: nat): nat {
    row * stride + skip
  }

  /** A row offset that wraps comes back to the start of the source, and the row is drawn from there. */
  lemma WrappedStrideDraws(a: Colour, b: Colour)
    ensures var (z, op) := (Size(1, 2, 4), Blit(-1, 0, 2, 2, [a, b], U64_MAX));
      Presentable(z, op) && forall under :: Ink(z, op, 0, 0, under) == Some(b) && Ink(z, op, 0, 1, under) == Some(a)
  {
    var (z, op) := (Size(1, 2, 4), Blit(-1, 0, 2, 2, [a, b], U64_MAX));
    assert RowFrom(op, 0) == 1 && RowFrom(op, 1) == 0;
    assert RowFits(z, op, 0) && RowFits(z, op, 1);
  }

  lemma FlippedLooksDifferent(c: Colour, bpp: nat)
    requires 2 <= bpp <= 4
    ensures Encode(c ^ 0x0080_8080, bpp) != Encode(c, bpp)
  {
    if bpp == 2 {
      assert (Encode(c ^ 0x0080_8080, 2))[1] != Encode(c, 2)[1];
    } else {
      FlippedByte(c);
      assert (Encode(c ^ 0x0080_8080, bpp))[0] != Encode(c, bpp)[0];
    }
  }

  lemma FlippedByte(c: Colour)
    ensures ((c ^ 0x0080_8080) & 0xFF) as bv8 != (c & 0xFF) as bv8
  {
  }

  // ----------------------------------------------- with and without a buffer

  /** The device shows exactly this picture. */
  ghost predicate Shows(z: Size, pic: Picture, dev: Device)
    requires z.Valid() && Sized(z, pic) && Raw(z, dev)
  {
    forall x, y | z.On(x, y) :: dev[y][x] == Encode(pic[y][x], z.bpp)
  }

  /** At 16 bits: a mask drawn over the surface has only coverages that hide what reading it back has lost. */
  ghost predicate Hiding(z: Size, op: Op) {
    op.Coverage? && op.bg.None? ==>
      forall px, py | z.On(px, py) && InRect(px, py, op.x, op.y, op.w, op.h) ::
        H.Hides(CoverageAt(op.coverage, op.w, px - op.x, py - op.y))
  }

  /** Drawing straight onto the device, which cannot move blocks; at 16 bits the masks must be hiding. */
  ghost predicate Direct(z: Size, op: Op) {
    !op.CopyWithin? && (z.bpp == 2 ==> Hiding(z, op))
  }

  /** What is drawn over the pixel as the device gives it back looks like what is drawn over the pixel itself. */
  lemma InkLooksTheSame(z: Size, op: Op, px: int, py: int, c: Colour)
    requires z.Valid() && z.On(px, py) && Direct(z, op)
    ensures var (over, under) := (Ink(z, op, px, py, c), Ink(z, op, px, py, Decode(Encode(c, z.bpp))));
      over.Some? == under.Some? && (over.Some? ==> Encode(over.value, z.bpp) == Encode(under.value, z.bpp))
  {
    hide Encode, Decode, Blend, CoverageAt, RowsFit, H.Hides;
    if z.bpp == 4 {
      GetAfterStore32(c);
    } else if z.bpp == 3 {
      GetAfterStore24(c);
      if op.Coverage? && InRect(px, py, op.x, op.y, op.w, op.h) {
        BlendKeeps24(c, op.fg, CoverageAt(op.coverage, op.w, px - op.x, py - op.y));
      }
    } else if op.Coverage? && op.bg.None? && InRect(px, py, op.x, op.y, op.w, op.h) {
      GetAfterStore16(c);
      H.HiddenBlend(c, op.fg, CoverageAt(op.coverage, op.w, px - op.x, py - op.y));
    }
  }

  lemma DirectStep(z: Size, s: Screen, direct: Screen, op: Op)
    requires s.Valid(z) && direct.Valid(z) && s.back.Some? && direct.back.None?
    requires Direct(z, op) && Shows(z, s.back.value, direct.dev)
    ensures Step(z, s, op).back.Some? && Step(z, direct, op).back.None?
    ensures Shows(z, Step(z, s, op).back.value, Step(z, direct, op).dev)
  {
    hide Encode, Decode, Ink, Hiding, Stored, Painted, Marks;
    if op.Draws() {
      forall x, y | z.On(x, y)
        ensures Stored(z, op, direct.dev, x, y) == Encode(Painted(z, op, s.back.value, x, y), z.bpp)
      {
        DirectPixel(z, op, s.back.value, direct.dev, x, y);
      }
    }
  }

  lemma DirectPixel(z: Size, op: Op, pic: Picture, dev: Device, x: int, y: int)
    requires z.Valid() && Sized(z, pic) && Raw(z, dev) && z.On(x, y) && Direct(z, op)
    requires dev[y][x] == Encode(pic[y][x], z.bpp)
    ensures Stored(z, op, dev, x, y) == Encode(Painted(z, op, pic, x, y), z.bpp)
  {
    hide Encode, Decode, Ink;
    InkLooksTheSame(z, op, x, y, pic[y][x]);
  }

  lemma {:induction false} DirectRun(z: Size, s: Screen, direct: Screen, ops: seq<Op>)
    requires s.Valid(z) && direct.Valid(z) && s.back.Some? && direct.back.None?
    requires forall i | 0 <= i < |ops| :: Direct(z, ops[i])
    requires Shows(z, s.back.value, direct.dev)
    ensures Run(z, s, ops).back.Some? && Shows(z, Run(z, s, ops).back.value, Run(z, direct, ops).dev)
    decreases |ops|
  {
    hide Direct;
    if ops != [] {
      DirectStep(z, s, direct, ops[0]);
      DirectRun(z, Step(z, s, ops[0]), Step(z, direct, ops[0]), ops[1..]);
    }
  }

  /**
   The back buffer is invisible: from equal pictures, a composited run ended by presenting the damage leaves
   the device as the same run drawn straight onto it. At 16 bits this needs that every mask drawn over the
   surface has only coverages that hide the bits lost; `MaskAgreesIff` shows that no other will do.
   */
  lemma CompositedRunIsDirectRun(z: Size, s: Screen, direct: Screen, ops: seq<Op>)
    requires s.Valid(z) && direct.Valid(z) && Clean(z, s) && direct.back.None? && direct.dev == s.dev
    requires AllPresentable(z, ops) && forall i | 0 <= i < |ops| :: Direct(z, ops[i])
    ensures Step(z, Run(z, s, ops), PresentDamage).dev == Run(z, direct, ops).dev
  {
    DirectRun(z, s, direct, ops);
    RunCoherent(z, s, ops);
    var presented := Step(z, Run(z, s, ops), PresentDamage);
    PresentDamageCleans(z, Run(z, s, ops));
    SameGrid(z, presented.dev, Run(z, direct, ops).dev);
  }

  /** From this screen the operation comes out the same with and without a back buffer. */
  ghost predicate Agrees(z: Size, s: Screen, op: Op)
    requires s.Valid(z)
  {
    Step(z, Step(z, s, op), PresentDamage).dev == Step(z, Screen(None, s.dev, s.box), op).dev
  }

  /**
   A mask drawn without a background comes out the same in every colour on every clean screen exactly when it
   may be drawn directly: always at 24 and 32 bits, at 16 bits exactly when all its coverages on the surface
   hide the bits that reading a pixel back loses.
   */
  lemma MaskAgreesIff(z: Size, x: u32, y: u32, w: u32, h: u32, coverage: seq<bv8>)
    requires z.Valid()
    ensures (forall fg: Colour, s: Screen | s.Valid(z) && Clean(z, s) :: Agrees(z, s, Coverage(x, y, w, h, coverage, fg, None)))
       <==> Direct(z, Coverage(x, y, w, h, coverage, 0, None))
  {
    hide Hiding, Agrees, Clean;
    forall fg: Colour, s: Screen | Direct(z, Coverage(x, y, w, h, coverage, 0, None)) && s.Valid(z) && Clean(z, s)
      ensures Agrees(z, s, Coverage(x, y, w, h, coverage, fg, None))
    {
      SameMask(z, x, y, w, h, coverage, fg);
      DirectAgrees(z, s, Coverage(x, y, w, h, coverage, fg, None));
    }
    if !Direct(z, Coverage(x, y, w, h, coverage, 0, None)) {
      var px, py := TellingCell(z, x, y, w, h, coverage);
      var a := CoverageAt(coverage, w, px - x, py - y);
      H.NotHiding(a);
      var s := PlainScreen(z, H.TellingColour(a as nat));
      PlainIsClean(z, H.TellingColour(a as nat));
      MaskTells(z, Coverage(x, y, w, h, coverage, 7, None), px, py, a, a as nat);
    }
  }

  /** Its colour has no part in whether a mask is hiding. */
  lemma SameMask(z: Size, x: u32, y: u32, w: u32, h: u32, coverage: seq<bv8>, fg: Colour)
    ensures Hiding(z, Coverage(x, y, w, h, coverage, fg, None)) == Hiding(z, Coverage(x, y, w, h, coverage, 0, None))
  {
    hide CoverageAt;
  }

  lemma DirectAgrees(z: Size, s: Screen, op: Op)
    requires s.Valid(z) && Clean(z, s) && Direct(z, op) && op.Coverage?
    ensures Agrees(z, s, op)
  {
    hide Hiding, Clean;
    CompositedRunIsDirectRun(z, s, Screen(None, s.dev, s.box), [op]);
    OneStep(z, s, op);
    OneStep(z, Screen(None, s.dev, s.box), op);
  }

  lemma OneStep(z: Size, s: Screen, op: Op)
    requires s.Valid(z)
    ensures Run(z, s, [op]) == Step(z, s, op)
  {
    assert [op][1..] == [];
  }

  lemma TellingCell(z: Size, x: u32, y: u32, w: u32, h: u32, coverage: seq<bv8>) returns (px: int, py: int)
    requires !Hiding(z, Coverage(x, y, w, h, coverage, 0, None))
    ensures z.On(px, py) && InRect(px, py, x, y, w, h) && !H.Hides(CoverageAt(coverage, w, px - x, py - y))
  {
    hide CoverageAt, H.Hides;
    px, py :| z.On(px, py) && InRect(px, py, x, y, w, h) && !H.Hides(CoverageAt(coverage, w, px - x, py - y));
  }

  lemma PlainIsClean(z: Size, c: Colour)
    requires z.Valid()
    ensures Clean(z, PlainScreen(z, c))
  {
    hide Encode;
  }

  /** On a screen of the telling colour that cell comes out differently. */
  lemma MaskTells(z: Size, op: Op, px: int, py: int, alpha: bv8, a: nat)
    requires z.Valid() && z.bpp == 2 && z.On(px, py) && op.Coverage? && op.bg.None? && op.fg == 7
    requires InRect(px, py, op.x, op.y, op.w, op.h) && CoverageAt(op.coverage, op.w, px - op.x, py - op.y) == alpha
    requires !H.Hides(alpha) && a == alpha as nat && 0 < a < 254 && a != 240
    ensures !Agrees(z, PlainScreen(z, H.TellingColour(a)), op)
  {
    hide Encode, Decode, Blend, CoverageAt, Clean, Marks, H.TellingColour;
    var bg := H.TellingColour(a);
    var s := PlainScreen(z, bg);
    PlainIsClean(z, bg);
    StepCoherent(z, s, op);
    PresentDamageCleans(z, Step(z, s, op));
    PresentedPixel(z, Step(z, s, op), px, py);
    assert Step(z, s, op).back.value[py][px] == Blend(bg, 7, alpha);
    GetAfterStore16(bg);
    assert Step(z, Screen(None, s.dev, s.box), op).dev[py][px] == Encode(Blend(bg & H.KEPT, 7, alpha), 2);
    H.TellingBlend(alpha, a);
  }

  lemma PresentedPixel(z: Size, s: Screen, px: int, py: int)
    requires s.Valid(z) && s.back.Some? && Clean(z, Step(z, s, PresentDamage)) && z.On(px, py)
    ensures Step(z, s, PresentDamage).dev[py][px] == Encode(s.back.value[py][px], z.bpp)
  {
    hide Encode;
  }

  /** At 16 bits one pixel covered an eighth comes out differently: 7 is kept as 7 but given back as 0. */
  lemma MixedPixelDiffersAt16()
    ensures var (z, op) := (Size(1, 1, 2), Coverage(0, 0, 1, 1, [32], 15, None));
      var s := PlainScreen(z, 7);
      var direct := Screen(None, s.dev, NO_DAMAGE);
      Clean(z, s) && Presentable(z, op) && !op.CopyWithin?
      && Step(z, Step(z, s, op), PresentDamage).dev[0][0] != Step(z, direct, op).dev[0][0]
  {
    hide Encode, Decode, Blend;
    var (z, op) := (Size(1, 1, 2), Coverage(0, 0, 1, 1, [32], 15, None));
    var s := PlainScreen(z, 7);
    var direct := Screen(None, s.dev, NO_DAMAGE);
    assert z.On(0, 0) && CoverageAt(op.coverage, 1, 0, 0) == 32;
    MixedAt16();
  }

  lemma SameGrid<T>(z: Size, a: seq<seq<T>>, b: seq<seq<T>>)
    requires Sized(z, a) && Sized(z, b)
    requires forall x, y | z.On(x, y) :: a[y][x] == b[y][x]
    ensures a == b
  {
    forall y | 0 <= y < z.h
      ensures a[y] == b[y]
    {
      forall x | 0 <= x < z.w
        ensures a[y][x] == b[y][x]
      {
        assert z.On(x, y);
      }
    }
  }
}
