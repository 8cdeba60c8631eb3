/**
 `render_thumbnail` of crates/nanochrono-baremetal/src/assets.rs: each
 destination pixel is the average of the source pixels behind it, and the sums of
 one destination row are kept at a time.
 */
module Thumbnail {
  import opened Wrappers
  import opened Arithmetic
  import opened Bytes
  import opened Scaling
  import opened Wallpaper

  const MAX_THUMB_W := 256
  const WRAP := 0x1_0000_0000
  const TWICE_U64 := 0x2_0000_0000_0000_0000

  /** What the header of a picture the decoder opens says. */
  predicate Decodable(iw: u32, ih: u32) {
    iw > 0 && ih > 0 && ih * iw <= MAX_PIXELS
  }

  /** A picture's size, the size of the thumbnail, and the scaled size and window between them. */
  datatype Frame = Frame(iw: u32, ih: u32, w: u32, h: u32) {
    predicate Valid() {
      iw > 0 && ih > 0 && Decodable(iw, ih) && 0 < w <= MAX_THUMB_W && h > 0
    }

    function G(): Geometry
      requires Valid()
    {
      CoverGeometry(iw, ih, w, h)
    }

    /** The destination row the code puts source row `sy` in, if it is on screen. */
    function Ty(sy: nat): (r: Option<nat>)
      requires Valid()
      ensures r.Some? ==> r.value < h
    {
      Landing(sy, ih, G().sh, G().oy, h)
    }

    function Tx(sx: nat): (r: Option<nat>)
      requires Valid()
      ensures r.Some? ==> r.value < w
    {
      Landing(sx, iw, G().sw, G().ox, w)
    }

    /** The destination column source column `sx` belongs to. */
    function TrueTx(sx: nat): (r: Option<nat>)
      requires Valid()
    {
      Landed(sx, iw, G().sw, G().ox, w)
    }

    /** No product of a source column and the scaled width leaves 64 bits. */
    predicate ColumnsExact()
      requires Valid()
    {
      (iw - 1) * G().sw <= U64_MAX
    }

    /** The middle of an even width, where it is in the window, has a product of 64 bits. */
    predicate ColumnsRight()
      requires Valid()
    {
      iw * G().sw < TWICE_U64 || iw % 2 == 1 || (w == 1 && G().sw % 2 == 0)
    }
  }

  /** A coordinate of the scaled picture, seen through a window. */
  function InWindow(t: nat, offset: nat, size: nat): (r: Option<nat>)
    ensures r.Some? ==> r.value < size
  {
    if t < offset || t - offset >= size then None else Some(t - offset)
  }

  /** Where source coordinate `s` belongs in a picture scaled from `source` to `scaled`. */
  function Landed(s: nat, source: nat, scaled: nat, offset: nat, size: nat): (r: Option<nat>)
    requires source > 0
    ensures r.Some? ==> r.value < size
  {
    InWindow(s * scaled / source, offset, size)
  }

  /** Where the code puts it: the product is kept in 64 bits. */
  function Landing(s: nat, source: nat, scaled: nat, offset: nat, size: nat): (r: Option<nat>)
    requires source > 0
    ensures r.Some? ==> r.value < size
  {
    InWindow(Wrap64(s * scaled) / source, offset, size)
  }

  lemma LandingIsLanded(s: nat, source: nat, scaled: nat, offset: nat, size: nat)
    requires source > 0 && s * scaled <= U64_MAX
    ensures Landing(s, source, scaled, offset, size) == Landed(s, source, scaled, offset, size)
  {
  }

  /** Source coordinates that land in one destination coordinate are contiguous, as long as no product wraps. */
  lemma LandingContiguous(a: nat, b: nat, c: nat, source: nat, scaled: nat, offset: nat, size: nat)
    requires source > 0 && a <= b <= c && c * scaled <= U64_MAX
    requires Landing(a, source, scaled, offset, size).Some?
    requires Landing(a, source, scaled, offset, size) == Landing(c, source, scaled, offset, size)
    ensures Landing(b, source, scaled, offset, size) == Landing(a, source, scaled, offset, size)
  {
    MulMonotone(a, b, scaled);
    MulMonotone(b, c, scaled);
    DivMonotone(a * scaled, b * scaled, source);
    DivMonotone(b * scaled, c * scaled, source);
  }

  // ------------------------------------------------- products that may wrap

  /** The scaled size is never more than the source's times the wanted size of the other side. */
  lemma ScaledAtMost(iw: u32, ih: u32, w: u32, h: u32)
    requires iw > 0 && ih > 0
    ensures var g := CoverGeometry(iw, ih, w, h); (g.sw == w && g.sh <= ih * w) || (g.sh == h && g.sw <= iw * h)
  {
    hide CeilDiv;
    MulMonotone(1, iw, ih * w);
    MulMonotone(1, ih, iw * h);
    CeilDivAtMost(ih * w, iw, ih * w);
    CeilDivAtMost(iw * h, ih, iw * h);
  }

  lemma Product3(a: nat, b: nat, c: nat, a': nat, b': nat, c': nat)
    requires a <= a' && b <= b' && c <= c'
    ensures a * (b * c) <= a' * (b' * c')
  {
    MulMonotone(b, b', c);
    MulMonotone(c, c', b');
    MulMonotone(a, a', b * c);
    MulMonotone(b * c, b' * c', a');
  }

  lemma SidesFit(iw: u32, ih: u32)
    requires Decodable(iw, ih)
    ensures iw <= MAX_PIXELS && ih <= MAX_PIXELS
  {
    MulMonotone(1, ih, iw);
    MulMonotone(1, iw, ih);
  }

  /** Rows are always safe: a thumbnail's width bounds the scaled height. */
  lemma RowsExact(f: Frame, sy: nat)
    requires f.Valid() && sy < f.ih
    ensures sy * f.G().sh <= U64_MAX
    ensures f.Ty(sy) == Landed(sy, f.ih, f.G().sh, f.G().oy, f.h)
  {
    hide CoverGeometry, Decodable, Landing, Landed;
    SidesFit(f.iw, f.ih);
    ScaledAtMost(f.iw, f.ih, f.w, f.h);
    RowProduct(sy, f.G().sh, f.ih, f.w, f.h);
    LandingIsLanded(sy, f.ih, f.G().sh, f.G().oy, f.h);
  }

  lemma RowProduct(sy: nat, sh: nat, ih: nat, w: nat, h: u32)
    requires sy < ih <= MAX_PIXELS && w <= MAX_THUMB_W && (sh <= ih * w || sh == h)
    ensures sy * sh <= U64_MAX
  {
    if sh <= ih * w {
      MulMonotone(sh, ih * w, sy);
      Product3(sy, ih, w, MAX_PIXELS, MAX_PIXELS, MAX_THUMB_W);
    } else {
      Product3(sy, h, 1, MAX_PIXELS, U32_MAX, 1);
    }
  }

  /** The guard is exact: the last column has the largest product. */
  lemma ColumnsExactIff(f: Frame)
    requires f.Valid()
    ensures f.ColumnsExact() <==> forall sx: nat | sx < f.iw :: Product(sx, f.G().sw) <= U64_MAX
    ensures f.ColumnsExact() ==> forall sx: nat | sx < f.iw :: f.Tx(sx) == f.TrueTx(sx)
  {
    hide CoverGeometry, Decodable, Landing, Landed;
    forall sx: nat | f.ColumnsExact() && sx < f.iw
      ensures Product(sx, f.G().sw) <= U64_MAX
      ensures f.Tx(sx) == f.TrueTx(sx)
    {
      MulMonotone(sx, f.iw - 1, f.G().sw);
      LandingIsLanded(sx, f.iw, f.G().sw, f.G().ox, f.w);
    }
    if !f.ColumnsExact() {
      assert Product(f.iw - 1, f.G().sw) > U64_MAX;
    }
  }

  function Product(a: nat, b: nat): nat { a * b }

  /** A thumbnail at most 4096 rows high is safe, whatever the picture. */
  lemma LowIsExact(f: Frame)
    requires f.Valid() && f.h <= 4096
    ensures f.ColumnsExact()
  {
    hide CoverGeometry, Decodable;
    SidesFit(f.iw, f.ih);
    ScaledAtMost(f.iw, f.ih, f.w, f.h);
    if f.G().sw == f.w {
      Product3(f.iw - 1, f.w, 1, MAX_PIXELS, MAX_THUMB_W, 1);
    } else {
      MulMonotone(f.G().sw, f.iw * f.h, f.iw - 1);
      Product3(f.iw - 1, f.iw, f.h, MAX_PIXELS - 1, MAX_PIXELS, 4096);
    }
  }

  /** A size the decoder accepts where a pixel of the middle column is dropped: its product is 2^64. */
  lemma MiddleColumnLost()
    ensures var f := Frame(0x400_0000, 1, 2, 8192);
      f.Valid() && !f.ColumnsRight() && f.Ty(0) == Some(0) && f.TrueTx(0x200_0000) == Some(1) && f.Tx(0x200_0000) == None
  {
    var f := Frame(0x400_0000, 1, 2, 8192);
    assert f.G() == Geometry(0x80_0000_0000, 8192, 0x40_0000_0000 - 1, 0);
  }

  /** A column whose product wraps moves left by far more than a thumbnail is wide. */
  lemma WrappedIsDropped(f: Frame, sx: nat)
    requires f.Valid() && f.TrueTx(sx).Some? && sx * f.G().sw > U64_MAX
    ensures f.Tx(sx).None?
  {
    hide CoverGeometry, Decodable;
    SidesFit(f.iw, f.ih);
    MovesLeft(Wrap64(sx * f.G().sw), sx * f.G().sw, f.iw);
  }

  lemma MovesLeft(low: nat, product: nat, iw: nat)
    requires 0 < iw <= MAX_PIXELS && low + U64_MAX < product
    ensures low / iw + MAX_THUMB_W <= product / iw
  {
    var t := low / iw;
    DivAtLeast(low, iw, t);
    MulMonotone(iw, MAX_PIXELS, MAX_THUMB_W);
    assert (t + MAX_THUMB_W) * iw == t * iw + MAX_THUMB_W * iw;
    DivAtLeast(product, iw, t + MAX_THUMB_W);
  }

  /** A scaled picture wide enough for products to wrap has only its middle column in the window, if any. */
  lemma OnlyMiddleLands(f: Frame, sx: nat)
    requires f.Valid() && sx < f.iw && f.TrueTx(sx).Some? && f.G().sw >= 0x40_0000_0000
    ensures 2 * sx == f.iw
  {
    hide CoverGeometry, Decodable;
    SidesFit(f.iw, f.ih);
    CoverIsCentred(f.iw, f.ih, f.w, f.h);
    var (sw, ox) := (f.G().sw, f.G().ox);
    InWindowProducts(sx * sw, f.iw, ox, f.w);
    MiddleOf(sx, sw, ox, f.iw, f.w);
  }

  lemma InWindowProducts(product: nat, iw: nat, ox: nat, w: nat)
    requires iw > 0 && ox <= product / iw < ox + w
    ensures ox * iw <= product < (ox + w) * iw
  {
    DivAtLeast(product, iw, ox);
    DivAtLeast(product, iw, ox + w);
  }

  lemma WideWhenWrapped(sx: nat, sw: nat)
    requires sx < MAX_PIXELS && sx * sw > U64_MAX
    ensures sw >= 0x40_0000_0000
  {
    MulMonotone(sx, MAX_PIXELS, sw);
  }

  lemma MiddleOf(sx: nat, sw: nat, ox: nat, iw: nat, w: nat)
    requires iw <= MAX_PIXELS && w <= MAX_THUMB_W && sw >= 0x40_0000_0000
    requires 2 * ox <= sw - w <= 2 * ox + 1
    requires ox * iw <= sx * sw < (ox + w) * iw
    ensures 2 * sx == iw
  {
    assert 2 * (ox * iw) == (2 * ox) * iw;
    assert 2 * (sx * sw) == (2 * sx) * sw;
    assert 2 * ((ox + w) * iw) == (2 * ox + 2 * w) * iw;
    MulMonotone(sw - w - 1, 2 * ox, iw);
    MulMonotone(2 * ox + 2 * w, sw + w, iw);
    assert (sw - w - 1) * iw == sw * iw - (w + 1) * iw;
    assert (sw + w) * iw == sw * iw + w * iw;
    MulMonotone(w + 1, MAX_THUMB_W + 1, iw);
    assert w * iw <= (w + 1) * iw;
    Nearest(2 * sx, iw, sw);
  }

  lemma Nearest(a: nat, b: nat, c: nat)
    requires a * c < b * c + c && b * c < a * c + c
    ensures a == b
  {
    if a < b {
      MulStep(a, b, c);
    } else if b < a {
      MulStep(b, a, c);
    }
  }

  /** A pixel that belongs into the thumbnail is lost exactly for an even width whose half wraps. */
  lemma LostIff(f: Frame)
    requires f.Valid()
    ensures (exists sx: nat :: sx < f.iw && f.TrueTx(sx).Some? && f.Tx(sx) != f.TrueTx(sx))
      <==> f.iw % 2 == 0 && f.iw * f.G().sw >= TWICE_U64 && (f.w >= 2 || f.G().sw % 2 == 1)
  {
    hide CoverGeometry, Decodable, Landing, Landed;
    var sw := f.G().sw;
    forall sx: nat | sx < f.iw && f.TrueTx(sx).Some? && f.Tx(sx) != f.TrueTx(sx)
      ensures f.iw % 2 == 0 && f.iw * sw >= TWICE_U64 && (f.w >= 2 || sw % 2 == 1)
    {
      LostIsMiddle(f, sx);
    }
    if f.iw % 2 == 0 && f.iw * sw >= TWICE_U64 && (f.w >= 2 || sw % 2 == 1) {
      var sx := f.iw / 2;
      assert 2 * (sx * sw) == f.iw * sw;
      MiddleLands(f);
      WrappedIsDropped(f, sx);
    }
  }

  lemma LostIsMiddle(f: Frame, sx: nat)
    requires f.Valid() && sx < f.iw && f.TrueTx(sx).Some? && f.Tx(sx) != f.TrueTx(sx)
    ensures f.iw % 2 == 0 && f.iw * f.G().sw >= TWICE_U64 && (f.w >= 2 || f.G().sw % 2 == 1)
  {
    hide CoverGeometry, Decodable, Landing, Landed;
    var sw := f.G().sw;
    if sx * sw <= U64_MAX {
      LandingIsLanded(sx, f.iw, sw, f.G().ox, f.w);
    }
    SidesFit(f.iw, f.ih);
    WideWhenWrapped(sx, sw);
    OnlyMiddleLands(f, sx);
    assert f.iw * sw == 2 * (sx * sw);
    MiddleLands(f);
  }

  /** The middle column of an even width comes to the middle of the window. */
  lemma MiddleLands(f: Frame)
    requires f.Valid() && f.iw % 2 == 0
    ensures f.TrueTx(f.iw / 2).Some? <==> f.w >= 2 || f.G().sw % 2 == 1
  {
    hide CoverGeometry, Decodable;
    CoverIsCentred(f.iw, f.ih, f.w, f.h);
    HalfOf(f.G().sw, f.iw, f.iw / 2);
  }

  lemma HalfOf(sw: nat, iw: nat, half: nat)
    requires iw == 2 * half > 0
    ensures half * sw / iw == sw / 2
  {
    var q := sw / 2;
    if sw % 2 == 0 {
      assert half * (2 * q) == q * iw;
    } else {
      assert half * (2 * q + 1) == q * iw + half;
    }
    DivIs(half * sw, iw, q);
  }

  /** A wrapped product always lies left of the window. */
  lemma LeftOfWindow(sx: nat, sw: nat, ox: nat, iw: nat, w: nat)
    requires sx < iw <= MAX_PIXELS && w <= MAX_THUMB_W && 2 * ox <= sw - w <= 2 * ox + 1
    requires U64_MAX < sx * sw
    ensures Wrap64(sx * sw) < ox * iw
  {
    WideWhenWrapped(sx, sw);
    MulStep(sx, iw, sw);
    assert Wrap64(sx * sw) <= sx * sw - 0x1_0000_0000_0000_0000;
    assert 2 * (ox * iw) == (2 * ox) * iw;
    MulMonotone(sw - w - 1, 2 * ox, iw);
    assert (sw - w - 1) * iw == iw * sw - (w + 1) * iw;
    MulMonotone(w + 1, MAX_THUMB_W + 1, iw);
  }

  /** So a column whose product wraps is never drawn, wherever it belongs. */
  lemma WrappedNeverLands(f: Frame, sx: nat)
    requires f.Valid() && sx < f.iw && sx * f.G().sw > U64_MAX
    ensures f.Tx(sx).None?
  {
    hide CoverGeometry, Decodable, Landing;
    SidesFit(f.iw, f.ih);
    CoverIsCentred(f.iw, f.ih, f.w, f.h);
    LeftOfWindow(sx, f.G().sw, f.G().ox, f.iw, f.w);
    LandsNowhere(sx, f.iw, f.G().sw, f.G().ox, f.w);
  }

  lemma LandsNowhere(s: nat, source: nat, scaled: nat, offset: nat, size: nat)
    requires source > 0 && Wrap64(s * scaled) < offset * source
    ensures Landing(s, source, scaled, offset, size).None?
  {
    DivAtLeast(Wrap64(s * scaled), source, offset);
  }

  lemma ColumnLandsRight(f: Frame, sx: nat)
    requires f.Valid() && f.ColumnsRight() && sx < f.iw
    ensures f.Tx(sx) == f.TrueTx(sx)
  {
    hide CoverGeometry, Decodable, Landed, Landing;
    if sx * f.G().sw <= U64_MAX {
      LandingIsLanded(sx, f.iw, f.G().sw, f.G().ox, f.w);
    } else {
      WrappedNeverLands(f, sx);
      LostIff(f);
    }
  }

  /** Every column lands where it belongs exactly under that guard. */
  lemma ColumnsRightIff(f: Frame)
    requires f.Valid()
    ensures f.ColumnsRight() <==> forall sx: nat | sx < f.iw :: f.Tx(sx) == f.TrueTx(sx)
  {
    hide CoverGeometry, Decodable, Landed, Landing;
    forall sx: nat | f.ColumnsRight() && sx < f.iw
      ensures f.Tx(sx) == f.TrueTx(sx)
    {
      ColumnLandsRight(f, sx);
    }
    LostIff(f);
  }

  /** From 2^65 on nothing of a picture of odd width belongs into the thumbnail, and nothing is drawn. */
  lemma OddIsEmpty(f: Frame, sx: nat)
    requires f.Valid() && f.iw * f.G().sw >= TWICE_U64 && f.iw % 2 == 1 && sx < f.iw
    ensures f.TrueTx(sx).None? && f.Tx(sx).None?
  {
    hide CoverGeometry, Decodable, Landed, Landing;
    SidesFit(f.iw, f.ih);
    MulMonotone(f.iw, MAX_PIXELS, f.G().sw);
    if f.TrueTx(sx).Some? {
      OnlyMiddleLands(f, sx);
    }
    ColumnLandsRight(f, sx);
  }

  /** A thumbnail less than 8192 rows high is right, whatever the picture; `MiddleColumnLost` has 8192. */
  lemma LowIsRight(f: Frame)
    requires f.Valid() && f.h < 8192
    ensures f.ColumnsRight()
  {
    hide CoverGeometry, Decodable;
    SidesFit(f.iw, f.ih);
    ScaledAtMost(f.iw, f.ih, f.w, f.h);
    if f.G().sw == f.w {
      Product3(f.iw, f.w, 1, MAX_PIXELS, MAX_THUMB_W, 1);
    } else {
      MulMonotone(f.G().sw, f.iw * f.h, f.iw);
      Product3(f.iw, f.iw, f.h, MAX_PIXELS, MAX_PIXELS, 8191);
    }
  }

  // -------------------------------------------------------------- exact sums

  /** What pixel `p` adds to sum `k`: red, green, blue, and one to the count. */
  function Adds(p: Rgba, k: nat): nat {
    if k == 0 then p.r else if k == 1 then p.g else if k == 2 then p.b else 1
  }

  function Source(pixels: seq<Rgba>, i: nat): Rgba {
    if i < |pixels| then pixels[i] else BLACK
  }

  /** Sum `k` over the first `n` pixels of source row `sy` that land in column `tx`. */
  function RowSum(f: Frame, pixels: seq<Rgba>, k: nat, tx: nat, sy: nat, n: nat): nat
    requires f.Valid()
  {
    if n == 0 then 0
    else
      var last := if f.Tx(n - 1) == Some(tx) then Adds(Source(pixels, Cell(f.iw, n - 1, sy)), k) else 0;
      RowSum(f, pixels, k, tx, sy, n - 1) + last
  }

  /** Sum `k` over the pixels of the first `m` source rows that land in `(tx, ty)`. */
  function CellSum(f: Frame, pixels: seq<Rgba>, k: nat, tx: nat, ty: nat, m: nat): nat
    requires f.Valid()
  {
    if m == 0 then 0
    else
      var last := if f.Ty(m - 1) == Some(ty) then RowSum(f, pixels, k, tx, m - 1, f.iw) else 0;
      CellSum(f, pixels, k, tx, ty, m - 1) + last
  }

  /** How many source pixels land in `(tx, ty)`. */
  function Count(f: Frame, pixels: seq<Rgba>, tx: nat, ty: nat): nat
    requires f.Valid()
  {
    CellSum(f, pixels, 3, tx, ty, f.ih)
  }

  lemma {:induction false} RowSumBounds(f: Frame, pixels: seq<Rgba>, k: nat, tx: nat, sy: nat, n: nat)
    requires f.Valid()
    ensures RowSum(f, pixels, k, tx, sy, n) <= 255 * RowSum(f, pixels, 3, tx, sy, n)
    ensures RowSum(f, pixels, 3, tx, sy, n) <= n
  {
    if n > 0 {
      RowSumBounds(f, pixels, k, tx, sy, n - 1);
    }
  }

  /** A cell's sums are at most 255 for each pixel in it, of which there are at most `m` rows full. */
  lemma {:induction false} CellSumBounds(f: Frame, pixels: seq<Rgba>, k: nat, tx: nat, ty: nat, m: nat)
    requires f.Valid()
    ensures CellSum(f, pixels, k, tx, ty, m) <= 255 * CellSum(f, pixels, 3, tx, ty, m)
    ensures CellSum(f, pixels, 3, tx, ty, m) <= m * f.iw
  {
    if m > 0 {
      CellSumBounds(f, pixels, k, tx, ty, m - 1);
      RowSumBounds(f, pixels, k, tx, m - 1, f.iw);
      assert m * f.iw == (m - 1) * f.iw + f.iw;
    }
  }

  // ----------------------------------------------------------- 32-bit sums

  function Quotient(a: nat, n: nat): nat
    requires n > 0
  {
    a / n
  }

  /** One cell of the row of sums, each kept in 32 bits. */
  datatype Sums = Sums(r: u32, g: u32, b: u32, n: u32) {
    /** The quotients `flush` shifts into place fit their channels. */
    predicate Fits() {
      n > 0 ==> Quotient(r, n) < 0x100 && Quotient(g, n) < 0x100 && Quotient(b, n) < 0x100
    }

    function Plus(p: Rgba): Sums {
      Sums((r + p.r) % WRAP, (g + p.g) % WRAP, (b + p.b) % WRAP, (n + 1) % WRAP)
    }
  }

  const NO_SUMS := Sums(0, 0, 0, 0)

  function CellSums(f: Frame, pixels: seq<Rgba>, tx: nat, ty: nat, m: nat): Sums
    requires f.Valid()
  {
    Sums(CellSum(f, pixels, 0, tx, ty, m) % WRAP, CellSum(f, pixels, 1, tx, ty, m) % WRAP,
         CellSum(f, pixels, 2, tx, ty, m) % WRAP, CellSum(f, pixels, 3, tx, ty, m) % WRAP)
  }

  /** Destination pixel after the sums `s` were flushed over `before`. */
  function Flushed(s: Sums, before: u32): u32
    requires s.Fits()
  {
    if s.n > 0 then Rgb(Quotient(s.r, s.n), Quotient(s.g, s.n), Quotient(s.b, s.n)) else before
  }

  lemma QuotientFits(sum: nat, n: nat)
    requires 0 < n < WRAP && sum <= 255 * n
    ensures Quotient(sum % WRAP, n) < 0x100
  {
    assert sum % WRAP <= sum;
    BelowQuotient(sum % WRAP, n, 0x100);
  }

  /** However the sums wrap, the picture being small enough for its pixels to be counted, quotients fit. */
  lemma CellSumsFit(f: Frame, pixels: seq<Rgba>, tx: nat, ty: nat, m: nat)
    requires f.Valid() && m <= f.ih
    ensures CellSum(f, pixels, 3, tx, ty, m) < WRAP
    ensures CellSums(f, pixels, tx, ty, m).Fits()
  {
    hide CellSum, Quotient;
    CellSumBounds(f, pixels, 0, tx, ty, m);
    CellSumBounds(f, pixels, 1, tx, ty, m);
    CellSumBounds(f, pixels, 2, tx, ty, m);
    MulMonotone(m, f.ih, f.iw);
    var n := CellSum(f, pixels, 3, tx, ty, m);
    if n > 0 {
      QuotientFits(CellSum(f, pixels, 0, tx, ty, m), n);
      QuotientFits(CellSum(f, pixels, 1, tx, ty, m), n);
      QuotientFits(CellSum(f, pixels, 2, tx, ty, m), n);
    }
  }

  // -------------------------------------------------------- one row of sums

  /** The sums hold what has landed in destination row `row` so far: nothing when there is none. */
  ghost predicate SumsOf(sums: seq<Sums>, f: Frame, pixels: seq<Rgba>, row: Option<nat>, m: nat)
    requires f.Valid()
  {
    |sums| == MAX_THUMB_W
    && forall tx | 0 <= tx < f.w ::
      sums[tx] == if row.Some? then CellSums(f, pixels, tx, row.value, m) else NO_SUMS
  }

  /** After `m` source rows every destination row but `row` shows its sums so far; `row` is still to be flushed. */
  ghost predicate Shows(dst: seq<u32>, before: seq<u32>, f: Frame, pixels: seq<Rgba>, row: Option<nat>, m: nat)
    requires f.Valid()
  {
    f.h * f.w <= |dst| == |before| && m <= f.ih
    && (forall i | f.h * f.w <= i < |dst| :: dst[i] == before[i])
    && forall tx: nat, ty: nat | tx < f.w && ty < f.h ::
      Cell(f.w, tx, ty) < |dst| && Shown(dst[Cell(f.w, tx, ty)], before[Cell(f.w, tx, ty)], f, pixels, row, m, tx, ty)
  }

  ghost predicate Shown(
    now: u32, before: u32, f: Frame, pixels: seq<Rgba>, row: Option<nat>, m: nat, tx: nat, ty: nat)
    requires f.Valid()
  {
    if row == Some(ty) then now == before
    else CellSums(f, pixels, tx, ty, m).Fits() && now == Flushed(CellSums(f, pixels, tx, ty, m), before)
  }

  method Flush(sums: array<Sums>, dst: array<u32>, w: u32, ty: nat)
    requires sums.Length == MAX_THUMB_W && w <= MAX_THUMB_W && ty * w + w <= dst.Length
    requires forall tx | 0 <= tx < w :: sums[tx].Fits()
    modifies sums, dst
    ensures forall tx | 0 <= tx < w :: sums[tx] == NO_SUMS
    ensures forall tx | 0 <= tx < w :: dst[ty * w + tx] == Flushed(old(sums[tx]), old(dst[ty * w + tx]))
    ensures forall i | 0 <= i < dst.Length && !(ty * w <= i < ty * w + w) :: dst[i] == old(dst[i])
  {
    hide Flushed, Sums.Fits;
    var base := ty * w;
    for tx := 0 to w
      invariant forall i | 0 <= i < tx :: sums[i] == NO_SUMS
      invariant forall i | tx <= i < w :: sums[i] == old(sums[i])
      invariant forall i | 0 <= i < tx :: dst[base + i] == Flushed(old(sums[i]), old(dst[base + i]))
      invariant forall i | 0 <= i < dst.Length && !(base <= i < base + tx) :: dst[i] == old(dst[i])
    {
      var s := sums[tx];
      if s.n > 0 {
        dst[base + tx] := Colour3(s);
      }
      FlushedIs(s, old(dst[base + tx]));
      sums[tx] := NO_SUMS;
    }
  }

  function Colour3(s: Sums): u32
    requires s.n > 0 && s.Fits()
  {
    Rgb(Quotient(s.r, s.n), Quotient(s.g, s.n), Quotient(s.b, s.n))
  }

  lemma FlushedIs(s: Sums, before: u32)
    requires s.Fits()
    ensures Flushed(s, before) == if s.n > 0 then Colour3(s) else before
  {
  }

  /** Sums `s` with the first `n` pixels of source row `sy` added. */
  function WithRow(s: Sums, f: Frame, pixels: seq<Rgba>, tx: nat, sy: nat, n: nat): Sums
    requires f.Valid()
  {
    Sums((s.r + RowSum(f, pixels, 0, tx, sy, n)) % WRAP, (s.g + RowSum(f, pixels, 1, tx, sy, n)) % WRAP,
         (s.b + RowSum(f, pixels, 2, tx, sy, n)) % WRAP, (s.n + RowSum(f, pixels, 3, tx, sy, n)) % WRAP)
  }

  lemma WrapOnce(a: nat, b: nat)
    ensures (a % WRAP + b) % WRAP == (a + b) % WRAP
  {
    assert a == a / WRAP * WRAP + a % WRAP;
  }

  lemma WithRowStep(s: Sums, f: Frame, pixels: seq<Rgba>, tx: nat, sy: nat, n: nat)
    requires f.Valid()
    ensures WithRow(s, f, pixels, tx, sy, n + 1)
         == if f.Tx(n) == Some(tx) then WithRow(s, f, pixels, tx, sy, n).Plus(Source(pixels, Cell(f.iw, n, sy)))
            else WithRow(s, f, pixels, tx, sy, n)
  {
    hide RowSum, Frame.Tx, Source;
    RowPart(s.r, f, pixels, 0, tx, sy, n);
    RowPart(s.g, f, pixels, 1, tx, sy, n);
    RowPart(s.b, f, pixels, 2, tx, sy, n);
    RowPart(s.n, f, pixels, 3, tx, sy, n);
  }

  lemma RowSumStep(f: Frame, pixels: seq<Rgba>, k: nat, tx: nat, sy: nat, n: nat)
    requires f.Valid()
    ensures RowSum(f, pixels, k, tx, sy, n + 1)
      == RowSum(f, pixels, k, tx, sy, n) + if f.Tx(n) == Some(tx) then Adds(Source(pixels, Cell(f.iw, n, sy)), k) else 0
  {
    hide Frame.Tx, Adds, Source, Frame.Valid;
  }

  lemma RowPart(a: nat, f: Frame, pixels: seq<Rgba>, k: nat, tx: nat, sy: nat, n: nat)
    requires f.Valid()
    ensures (a + RowSum(f, pixels, k, tx, sy, n + 1)) % WRAP
      == if f.Tx(n) == Some(tx)
         then ((a + RowSum(f, pixels, k, tx, sy, n)) % WRAP + Adds(Source(pixels, Cell(f.iw, n, sy)), k)) % WRAP
         else (a + RowSum(f, pixels, k, tx, sy, n)) % WRAP
  {
    hide RowSum, Frame.Tx, Adds, Source, Frame.Valid;
    RowSumStep(f, pixels, k, tx, sy, n);
    WrapOnce(a + RowSum(f, pixels, k, tx, sy, n), Adds(Source(pixels, Cell(f.iw, n, sy)), k));
  }

  lemma CellSumStep(f: Frame, pixels: seq<Rgba>, k: nat, tx: nat, ty: nat, sy: nat)
    requires f.Valid() && f.Ty(sy) == Some(ty)
    ensures CellSum(f, pixels, k, tx, ty, sy + 1) == CellSum(f, pixels, k, tx, ty, sy) + RowSum(f, pixels, k, tx, sy, f.iw)
  {
    hide RowSum, Frame.Ty;
  }

  lemma WholeRow(f: Frame, pixels: seq<Rgba>, k: nat, tx: nat, ty: nat, sy: nat)
    requires f.Valid() && f.Ty(sy) == Some(ty)
    ensures (CellSum(f, pixels, k, tx, ty, sy) % WRAP + RowSum(f, pixels, k, tx, sy, f.iw)) % WRAP
      == CellSum(f, pixels, k, tx, ty, sy + 1) % WRAP
  {
    hide RowSum, CellSum, Frame.Ty;
    CellSumStep(f, pixels, k, tx, ty, sy);
    WrapOnce(CellSum(f, pixels, k, tx, ty, sy), RowSum(f, pixels, k, tx, sy, f.iw));
  }

  lemma WithWholeRow(f: Frame, pixels: seq<Rgba>, tx: nat, ty: nat, sy: nat)
    requires f.Valid() && f.Ty(sy) == Some(ty)
    ensures WithRow(CellSums(f, pixels, tx, ty, sy), f, pixels, tx, sy, f.iw) == CellSums(f, pixels, tx, ty, sy + 1)
  {
    hide CellSum, RowSum;
    WholeRow(f, pixels, 0, tx, ty, sy);
    WholeRow(f, pixels, 1, tx, ty, sy);
    WholeRow(f, pixels, 2, tx, ty, sy);
    WholeRow(f, pixels, 3, tx, ty, sy);
  }

  lemma WithNoRow(f: Frame, pixels: seq<Rgba>, tx: nat, ty: nat, sy: nat)
    requires f.Valid()
    ensures WithRow(CellSums(f, pixels, tx, ty, sy), f, pixels, tx, sy, 0) == CellSums(f, pixels, tx, ty, sy)
  {
  }

  /** The sums for row `ty` with the first `n` pixels of source row `sy` added; no row, no sums. */
  ghost predicate RowAdded(sums: seq<Sums>, f: Frame, pixels: seq<Rgba>, ty: Option<nat>, sy: nat, n: nat)
    requires f.Valid()
  {
    |sums| == MAX_THUMB_W && forall tx | 0 <= tx < f.w ::
      sums[tx] == if ty.None? then NO_SUMS
                  else WithRow(CellSums(f, pixels, tx, ty.value, sy), f, pixels, tx, sy, n)
  }

  lemma RowAddedStep(was: seq<Sums>, now: seq<Sums>, f: Frame, pixels: seq<Rgba>, ty: Option<nat>, sy: nat, n: nat)
    requires f.Valid() && RowAdded(was, f, pixels, ty, sy, n) && |now| == |was|
    requires forall tx | 0 <= tx < f.w ::
      now[tx] == if ty.Some? && f.Tx(n) == Some(tx) then was[tx].Plus(Source(pixels, Cell(f.iw, n, sy))) else was[tx]
    ensures RowAdded(now, f, pixels, ty, sy, n + 1)
  {
    hide Sums.Plus, WithRow, Frame.Tx, CellSums;
    if ty.Some? {
      forall tx | 0 <= tx < f.w {
        WithRowStep(CellSums(f, pixels, tx, ty.value, sy), f, pixels, tx, sy, n);
      }
    }
  }

  /** Adds source row `sy`, whose pixels land in the row the sums are for, or skips over it. */
  method AddRow(
    decoder: Decoder, sums: array<Sums>, f: Frame, ty: Option<nat>, ghost pixels: seq<Rgba>, ghost sy: nat)
    requires f.Valid() && sums.Length == MAX_THUMB_W && decoder.pixels == pixels
    requires decoder.taken == Min(sy * f.iw, |pixels|) && ty == f.Ty(sy)
    requires SumsOf(sums[..], f, pixels, ty, sy)
    modifies decoder, sums
    ensures decoder.taken == Min((sy + 1) * f.iw, |pixels|)
    ensures SumsOf(sums[..], f, pixels, ty, sy + 1)
  {
    hide Frame.Ty, Frame.Tx, CellSums, WithRow, Sums.Plus;
    ghost var start := sy * f.iw;
    RowStarts(sums[..], f, pixels, ty, sy);
    for sx := 0 to f.iw
      invariant decoder.taken == Min(start + sx, |pixels|)
      invariant RowAdded(sums[..], f, pixels, ty, sy, sx)
    {
      var next := decoder.NextPixel();
      var p := if next.Some? then next.value else BLACK;
      var tx := f.Tx(sx);
      ghost var was := sums[..];
      if ty.Some? && tx.Some? {
        sums[tx.value] := sums[tx.value].Plus(p);
      }
      RowAddedStep(was, sums[..], f, pixels, ty, sy, sx);
    }
    assert (sy + 1) * f.iw == sy * f.iw + f.iw;
    RowEnds(sums[..], f, pixels, ty, sy);
  }

  lemma RowStarts(sums: seq<Sums>, f: Frame, pixels: seq<Rgba>, ty: Option<nat>, sy: nat)
    requires f.Valid() && SumsOf(sums, f, pixels, ty, sy)
    ensures RowAdded(sums, f, pixels, ty, sy, 0)
  {
    hide CellSums, WithRow, Sums.Plus;
    if ty.Some? {
      forall tx | 0 <= tx < f.w
        ensures WithRow(CellSums(f, pixels, tx, ty.value, sy), f, pixels, tx, sy, 0)
             == CellSums(f, pixels, tx, ty.value, sy)
      {
        WithNoRow(f, pixels, tx, ty.value, sy);
      }
    }
  }

  lemma RowEnds(sums: seq<Sums>, f: Frame, pixels: seq<Rgba>, ty: Option<nat>, sy: nat)
    requires f.Valid() && ty == f.Ty(sy) && RowAdded(sums, f, pixels, ty, sy, f.iw)
    ensures SumsOf(sums, f, pixels, ty, sy + 1)
  {
    hide Frame.Ty, CellSums, WithRow, Sums.Plus;
    if ty.Some? {
      forall tx | 0 <= tx < f.w
        ensures WithRow(CellSums(f, pixels, tx, ty.value, sy), f, pixels, tx, sy, f.iw)
             == CellSums(f, pixels, tx, ty.value, sy + 1)
      {
        WithWholeRow(f, pixels, tx, ty.value, sy);
      }
    }
  }

  // ------------------------------------------------------ from row to row

  /** Nothing has landed in a destination row before its first source row: its rows are contiguous. */
  lemma {:induction false} NothingYet(f: Frame, pixels: seq<Rgba>, k: nat, tx: nat, ty: nat, m: nat, n: nat)
    requires f.Valid() && n <= m < f.ih && f.Ty(m) == Some(ty) && (m > 0 ==> f.Ty(m - 1) != Some(ty))
    ensures CellSum(f, pixels, k, tx, ty, n) == 0
  {
    if n > 0 {
      NothingYet(f, pixels, k, tx, ty, m, n - 1);
      if f.Ty(n - 1) == Some(ty) {
        var g := f.G();
        RowsExact(f, m);
        LandingContiguous(n - 1, m - 1, m, f.ih, g.sh, g.oy, f.h);
      }
    }
  }

  lemma NoSumsYet(f: Frame, pixels: seq<Rgba>, tx: nat, ty: nat, m: nat)
    requires f.Valid() && m < f.ih && f.Ty(m) == Some(ty) && (m > 0 ==> f.Ty(m - 1) != Some(ty))
    ensures CellSums(f, pixels, tx, ty, m) == NO_SUMS
  {
    NothingYet(f, pixels, 0, tx, ty, m, m);
    NothingYet(f, pixels, 1, tx, ty, m, m);
    NothingYet(f, pixels, 2, tx, ty, m, m);
    NothingYet(f, pixels, 3, tx, ty, m, m);
  }

  /** A row that is about to be summed was neither summed nor shown before. */
  lemma TurnTo(sums: seq<Sums>, dst: seq<u32>, before: seq<u32>, f: Frame, pixels: seq<Rgba>, m: nat)
    requires f.Valid() && m < f.ih && (m > 0 ==> f.Ty(m - 1) != f.Ty(m))
    requires SumsOf(sums, f, pixels, None, m) && Shows(dst, before, f, pixels, None, m)
    ensures SumsOf(sums, f, pixels, f.Ty(m), m) && Shows(dst, before, f, pixels, f.Ty(m), m)
  {
    hide CellSums, Frame.Ty;
    if f.Ty(m).Some? {
      var ty := f.Ty(m).value;
      forall tx: nat | tx < f.w
        ensures CellSums(f, pixels, tx, ty, m) == NO_SUMS
      {
        NoSumsYet(f, pixels, tx, ty, m);
      }
    }
  }

  /** The row from `start` on was flushed with these sums, and nothing else changed. */
  ghost predicate RowFlushed(sums: seq<Sums>, was: seq<u32>, now: seq<u32>, start: nat, w: nat) {
    |now| == |was| && start + w <= |was| && w <= |sums|
    && (forall x | 0 <= x < w :: sums[x].Fits() && now[start + x] == Flushed(sums[x], was[start + x]))
    && forall i | 0 <= i < |was| && !(start <= i < start + w) :: now[i] == was[i]
  }

  /** Flushing the row of sums shows the row it was for. */
  lemma AfterFlush(sums: seq<Sums>, was: seq<u32>, now: seq<u32>, before: seq<u32>, f: Frame, pixels: seq<Rgba>,
                   ty: nat, m: nat)
    requires f.Valid() && ty < f.h
    requires SumsOf(sums, f, pixels, Some(ty), m) && Shows(was, before, f, pixels, Some(ty), m)
    requires RowFlushed(sums, was, now, ty * f.w, f.w)
    ensures Shows(now, before, f, pixels, None, m)
  {
    hide CellSums, Flushed, Sums.Fits, Cell, Shown;
    forall tx: nat, t: nat | tx < f.w && t < f.h
      ensures Cell(f.w, tx, t) < |now|
      ensures Shown(now[Cell(f.w, tx, t)], before[Cell(f.w, tx, t)], f, pixels, None, m, tx, t)
    {
      AfterFlushAt(sums, was, now, before, f, pixels, ty, m, tx, t);
    }
    MulStep(ty, f.h, f.w);
    BehindRow(was, now, ty * f.w, f.w, f.h * f.w);
  }

  lemma BehindRow(was: seq<u32>, now: seq<u32>, start: nat, w: nat, end: nat)
    requires |now| == |was| && start + w <= end
    requires forall i | 0 <= i < |was| && !(start <= i < start + w) :: now[i] == was[i]
    ensures forall i | end <= i < |was| :: now[i] == was[i]
  {
  }

  lemma AfterFlushAt(sums: seq<Sums>, was: seq<u32>, now: seq<u32>, before: seq<u32>, f: Frame, pixels: seq<Rgba>,
                     ty: nat, m: nat, tx: nat, t: nat)
    requires f.Valid() && ty < f.h && tx < f.w && t < f.h
    requires SumsOf(sums, f, pixels, Some(ty), m) && Shows(was, before, f, pixels, Some(ty), m)
    requires RowFlushed(sums, was, now, ty * f.w, f.w)
    ensures Cell(f.w, tx, t) < |now| == |before|
    ensures Shown(now[Cell(f.w, tx, t)], before[Cell(f.w, tx, t)], f, pixels, None, m, tx, t)
  {
    hide CellSums, Flushed, Sums.Fits, Cell, Shown;
    var i := Cell(f.w, tx, t);
    assert Shown(was[i], before[i], f, pixels, Some(ty), m, tx, t);
    CellInRow(f.w, tx, t, ty);
    if t == ty {
      ShownFlushed(sums[tx], was[i], now[i], before[i], f, pixels, ty, m, tx);
    } else {
      ShownElsewhere(was[i], before[i], f, pixels, ty, m, tx, t);
    }
  }

  /** A destination index lies in row `ty` exactly when its pixel does. */
  lemma CellInRow(w: nat, tx: nat, t: nat, ty: nat)
    requires tx < w
    ensures ty * w <= Cell(w, tx, t) < ty * w + w <==> t == ty
    ensures Cell(w, tx, ty) == ty * w + tx
  {
    if t < ty {
      MulStep(t, ty, w);
    } else if ty < t {
      MulStep(ty, t, w);
    }
  }

  lemma ShownFlushed(
      s: Sums, was: u32, now: u32, before: u32, f: Frame, pixels: seq<Rgba>, ty: nat, m: nat, tx: nat)
    requires f.Valid() && s == CellSums(f, pixels, tx, ty, m) && s.Fits()
    requires Shown(was, before, f, pixels, Some(ty), m, tx, ty) && now == Flushed(s, was)
    ensures Shown(now, before, f, pixels, None, m, tx, ty)
  {
    hide CellSums, Flushed, Sums.Fits;
  }

  lemma ShownElsewhere(now: u32, before: u32, f: Frame, pixels: seq<Rgba>, ty: nat, m: nat, tx: nat, t: nat)
    requires f.Valid() && t != ty && Shown(now, before, f, pixels, Some(ty), m, tx, t)
    ensures Shown(now, before, f, pixels, None, m, tx, t)
  {
    hide CellSums, Flushed, Sums.Fits;
  }

  /** Adding a source row to the sums of its destination row changes what no other row shows. */
  lemma NextRow(dst: seq<u32>, before: seq<u32>, f: Frame, pixels: seq<Rgba>, m: nat)
    requires f.Valid() && m < f.ih && Shows(dst, before, f, pixels, f.Ty(m), m)
    ensures Shows(dst, before, f, pixels, f.Ty(m), m + 1)
  {
    hide Frame.Ty, Flushed, Sums.Fits;
    forall tx: nat, ty: nat | tx < f.w && ty < f.h && f.Ty(m) != Some(ty)
      ensures CellSums(f, pixels, tx, ty, m + 1) == CellSums(f, pixels, tx, ty, m)
    {
    }
  }

  // -------------------------------------------------------- render_thumbnail

  /** The state between two source rows. */
  ghost predicate Progress(
    decoder: Decoder, sums: array<Sums>, dst: array<u32>, f: Frame, row: Option<nat>, m: nat, before: seq<u32>)
    reads decoder, sums, dst
  {
    f.Valid() && m <= f.ih && sums.Length == MAX_THUMB_W
    && decoder.taken == Min(m * f.iw, |decoder.pixels|)
    && row == (if m == 0 then None else f.Ty(m - 1))
    && SumsOf(sums[..], f, decoder.pixels, row, m)
    && Shows(dst[..], before, f, decoder.pixels, row, m)
  }

  /** Flushes the row of sums if it holds one. */
  method Finish(
    decoder: Decoder, sums: array<Sums>, dst: array<u32>, f: Frame, row: Option<nat>, ghost m: nat,
    ghost before: seq<u32>)
    requires Progress(decoder, sums, dst, f, row, m, before)
    modifies sums, dst
    ensures SumsOf(sums[..], f, decoder.pixels, None, m)
    ensures Shows(dst[..], before, f, decoder.pixels, None, m)
  {
    hide Frame.Ty, CellSums, Flushed, Sums.Fits;
    if row.Some? {
      MulStep(row.value, f.h, f.w);
      forall tx: nat | tx < f.w
        ensures CellSums(f, decoder.pixels, tx, row.value, m).Fits()
      {
        CellSumsFit(f, decoder.pixels, tx, row.value, m);
      }
      ghost var oldSums, was := sums[..], dst[..];
      Flush(sums, dst, f.w, row.value);
      AfterFlush(oldSums, was, dst[..], before, f, decoder.pixels, row.value, m);
    }
  }

  /** One turn of the loop over source rows. */
  method TakeRow(
    decoder: Decoder, sums: array<Sums>, dst: array<u32>, f: Frame, row: Option<nat>, sy: nat,
    ghost before: seq<u32>) returns (row': Option<nat>)
    requires sy < f.ih && Progress(decoder, sums, dst, f, row, sy, before)
    modifies decoder, sums, dst
    ensures Progress(decoder, sums, dst, f, row', sy + 1, before)
  {
    hide Frame.Ty, CellSums, Flushed, Sums.Fits, Shown;
    row' := f.Ty(sy);
    if row' != row {
      Finish(decoder, sums, dst, f, row, sy, before);
      TurnTo(sums[..], dst[..], before, f, decoder.pixels, sy);
    }
    AddRow(decoder, sums, f, row', decoder.pixels, sy);
    NextRow(dst[..], before, f, decoder.pixels, sy);
  }

  /** The thumbnail of a picture over what `dst` held: every cell its pixels' sums, flushed once. */
  ghost predicate Rendered(dst: seq<u32>, before: seq<u32>, f: Frame, pixels: seq<Rgba>)
    requires f.Valid()
  {
    Shows(dst, before, f, pixels, None, f.ih)
  }

  method RenderThumbnail(decoder: Decoder?, iw: u32, ih: u32, dst: array<u32>, w: u32, h: u32) returns (ok: bool)
    requires decoder != null ==> Decodable(iw, ih) && decoder.taken == 0
    modifies decoder, dst
    ensures ok <==> decoder != null && 0 < w <= MAX_THUMB_W && h > 0 && h * w <= dst.Length
    ensures !ok ==> dst[..] == old(dst[..])
    ensures ok ==> Rendered(dst[..], old(dst[..]), Frame(iw, ih, w, h), decoder.pixels)
  {
    if decoder == null || w == 0 || h == 0 || w > MAX_THUMB_W || dst.Length < h * w {
      return false;
    }
    var f := Frame(iw, ih, w, h);
    var sums := new Sums[MAX_THUMB_W](_ => NO_SUMS);
    var row: Option<nat> := None;
    NothingShown(dst[..], f, decoder.pixels);
    for sy := 0 to ih
      invariant Progress(decoder, sums, dst, f, row, sy, old(dst[..]))
    {
      hide Progress;
      row := TakeRow(decoder, sums, dst, f, row, sy, old(dst[..]));
    }
    Finish(decoder, sums, dst, f, row, ih, old(dst[..]));
    return true;
  }

  lemma NothingShown(dst: seq<u32>, f: Frame, pixels: seq<Rgba>)
    requires f.Valid() && f.h * f.w <= |dst|
    ensures Shows(dst, dst, f, pixels, None, 0)
  {
    forall tx: nat, ty: nat | tx < f.w && ty < f.h
      ensures Cell(f.w, tx, ty) < |dst|
    {
      MulStep(ty, f.h, f.w);
    }
  }

  // ---------------------------------------------------- what a cell stands for

  /** The first source coordinate that comes to `t` of the window, or behind it. */
  function Edge(t: nat, source: nat, scaled: nat, offset: nat): (r: nat)
    requires scaled > 0
    ensures r <= source
  {
    Min(CeilDiv((t + offset) * source, scaled), source)
  }

  /** The source coordinates of one destination coordinate are an interval with these ends. */
  lemma LandedIsInterval(s: nat, t: nat, source: nat, scaled: nat, offset: nat, size: nat)
    requires s < source && scaled > 0 && t < size
    ensures Landed(s, source, scaled, offset, size) == Some(t)
       <==> Edge(t, source, scaled, offset) <= s < Edge(t + 1, source, scaled, offset)
  {
    DivAtLeast(s * scaled, source, t + offset);
    DivAtLeast(s * scaled, source, t + 1 + offset);
    CeilDivAtMost((t + offset) * source, scaled, s);
    CeilDivAtMost((t + 1 + offset) * source, scaled, s);
  }

  lemma EdgesInOrder(t: nat, source: nat, scaled: nat, offset: nat)
    requires scaled > 0
    ensures Edge(t, source, scaled, offset) <= Edge(t + 1, source, scaled, offset)
  {
    MulMonotone(t + offset, t + 1 + offset, source);
    DivMonotone((t + offset) * source + scaled - 1, (t + 1 + offset) * source + scaled - 1, scaled);
  }

  /** The rectangle of source pixels behind a destination pixel. */
  datatype Box = Box(x0: nat, x1: nat, y0: nat, y1: nat) {
    function Area(): nat {
      if x0 <= x1 && y0 <= y1 then (y1 - y0) * (x1 - x0) else 0
    }
  }

  function BoxOf(f: Frame, tx: nat, ty: nat): (r: Box)
    requires f.Valid()
    ensures r.x0 <= r.x1 <= f.iw && r.y0 <= r.y1 <= f.ih
  {
    var g := f.G();
    EdgesInOrder(tx, f.iw, g.sw, g.ox);
    EdgesInOrder(ty, f.ih, g.sh, g.oy);
    Box(Edge(tx, f.iw, g.sw, g.ox), Edge(tx + 1, f.iw, g.sw, g.ox),
        Edge(ty, f.ih, g.sh, g.oy), Edge(ty + 1, f.ih, g.sh, g.oy))
  }

  /** Sum `k` over pixels `start` up to `end` of the stream. */
  function RunSum(pixels: seq<Rgba>, k: nat, start: nat, end: nat): nat
    decreases end
  {
    if end <= start then 0 else RunSum(pixels, k, start, end - 1) + Adds(Source(pixels, end - 1), k)
  }

  /** Sum `k` over the rows `y0` up to `y1` of a box in a picture `iw` pixels wide. */
  function BoxSum(pixels: seq<Rgba>, k: nat, iw: nat, x0: nat, x1: nat, y0: nat, y1: nat): nat
    decreases y1
  {
    if y1 <= y0 then 0
    else BoxSum(pixels, k, iw, x0, x1, y0, y1 - 1) + RunSum(pixels, k, Cell(iw, x0, y1 - 1), Cell(iw, x1, y1 - 1))
  }

  lemma {:induction false} RowSumIsRun(f: Frame, pixels: seq<Rgba>, k: nat, tx: nat, ty: nat, sy: nat, n: nat)
    requires f.Valid() && f.ColumnsRight() && n <= f.iw && tx < f.w
    ensures var b := BoxOf(f, tx, ty);
      RowSum(f, pixels, k, tx, sy, n) == RunSum(pixels, k, Cell(f.iw, b.x0, sy), Cell(f.iw, Min(n, b.x1), sy))
  {
    hide Frame.Valid, Frame.ColumnsRight, Adds, Source;
    if n > 0 {
      RowSumIsRun(f, pixels, k, tx, ty, sy, n - 1);
      ColumnLandsRight(f, n - 1);
      LandedIsInterval(n - 1, tx, f.iw, f.G().sw, f.G().ox, f.w);
    }
  }

  lemma {:induction false} CellSumIsBox(f: Frame, pixels: seq<Rgba>, k: nat, tx: nat, ty: nat, m: nat)
    requires f.Valid() && f.ColumnsRight() && m <= f.ih && tx < f.w && ty < f.h
    ensures var b := BoxOf(f, tx, ty);
      CellSum(f, pixels, k, tx, ty, m) == BoxSum(pixels, k, f.iw, b.x0, b.x1, b.y0, Min(m, b.y1))
  {
    hide Frame.Valid, Frame.ColumnsRight, RowSum, RunSum;
    if m > 0 {
      CellSumIsBox(f, pixels, k, tx, ty, m - 1);
      RowSumIsRun(f, pixels, k, tx, ty, m - 1, f.iw);
      RowsExact(f, m - 1);
      LandedIsInterval(m - 1, ty, f.ih, f.G().sh, f.G().oy, f.h);
    }
  }

  lemma {:induction false} RunCounts(pixels: seq<Rgba>, start: nat, end: nat)
    requires start <= end
    ensures RunSum(pixels, 3, start, end) == end - start
    decreases end
  {
    if start < end {
      RunCounts(pixels, start, end - 1);
    }
  }

  lemma {:induction false} BoxCounts(pixels: seq<Rgba>, iw: nat, x0: nat, x1: nat, y0: nat, y1: nat)
    requires x0 <= x1 && y0 <= y1
    ensures BoxSum(pixels, 3, iw, x0, x1, y0, y1) == (y1 - y0) * (x1 - x0)
    decreases y1
  {
    if y0 < y1 {
      BoxCounts(pixels, iw, x0, x1, y0, y1 - 1);
      RunCounts(pixels, Cell(iw, x0, y1 - 1), Cell(iw, x1, y1 - 1));
      assert (y1 - y0) * (x1 - x0) == (y1 - 1 - y0) * (x1 - x0) + (x1 - x0);
    }
  }

  /** A cell's sums are those of its box; how many pixels land in it is the box's area. */
  lemma CellIsBox(f: Frame, pixels: seq<Rgba>, tx: nat, ty: nat, k: nat)
    requires f.Valid() && f.ColumnsRight() && tx < f.w && ty < f.h
    ensures var b := BoxOf(f, tx, ty);
      CellSum(f, pixels, k, tx, ty, f.ih) == BoxSum(pixels, k, f.iw, b.x0, b.x1, b.y0, b.y1)
      && Count(f, pixels, tx, ty) == b.Area()
  {
    hide CellSum, BoxSum, Frame.ColumnsRight;
    var b := BoxOf(f, tx, ty);
    CellSumIsBox(f, pixels, k, tx, ty, f.ih);
    CellSumIsBox(f, pixels, 3, tx, ty, f.ih);
    BoxCounts(pixels, f.iw, b.x0, b.x1, b.y0, b.y1);
  }

  // ----------------------------------------------------------------- averages

  /** Each channel of a cell is the truncated average of the pixels that land in it. */
  ghost predicate IsAverage(f: Frame, pixels: seq<Rgba>, tx: nat, ty: nat, c: u32)
    requires f.Valid()
  {
    var n := Count(f, pixels, tx, ty);
    n > 0 ==> forall k: nat | k < 3 :: Channel(c, k) == Quotient(CellSum(f, pixels, k, tx, ty, f.ih), n)
  }

  /**
   Every destination pixel some source pixel lands in holds the average of exactly those, as long as they
   are few enough for their sums to stay in 32 bits; one none lands in keeps its colour.
   */
  lemma RenderedIsAverage(dst: seq<u32>, before: seq<u32>, f: Frame, pixels: seq<Rgba>, tx: nat, ty: nat)
    requires f.Valid() && Rendered(dst, before, f, pixels) && tx < f.w && ty < f.h
    ensures Cell(f.w, tx, ty) < |dst| == |before|
    ensures Count(f, pixels, tx, ty) == 0 ==> dst[Cell(f.w, tx, ty)] == before[Cell(f.w, tx, ty)]
    ensures 255 * Count(f, pixels, tx, ty) < WRAP ==> IsAverage(f, pixels, tx, ty, dst[Cell(f.w, tx, ty)])
  {
    hide CellSum, Quotient, Cell, Channel, Rendered, Frame.Valid;
    RenderedAt(dst, before, f, pixels, tx, ty);
    CellSumsFit(f, pixels, tx, ty, f.ih);
    if 255 * Count(f, pixels, tx, ty) < WRAP {
      forall k: nat | k < 4
        ensures CellSum(f, pixels, k, tx, ty, f.ih) < WRAP
      {
        SmallSum(f, pixels, k, tx, ty);
      }
      SmallSums(f, pixels, tx, ty);
    }
  }

  lemma SmallSums(f: Frame, pixels: seq<Rgba>, tx: nat, ty: nat)
    requires f.Valid() && (forall k: nat | k < 4 :: CellSum(f, pixels, k, tx, ty, f.ih) < WRAP)
    ensures CellSums(f, pixels, tx, ty, f.ih)
         == Sums(CellSum(f, pixels, 0, tx, ty, f.ih), CellSum(f, pixels, 1, tx, ty, f.ih),
                 CellSum(f, pixels, 2, tx, ty, f.ih), CellSum(f, pixels, 3, tx, ty, f.ih))
  {
    hide CellSum;
  }

  lemma SmallSum(f: Frame, pixels: seq<Rgba>, k: nat, tx: nat, ty: nat)
    requires f.Valid() && 255 * Count(f, pixels, tx, ty) < WRAP
    ensures CellSum(f, pixels, k, tx, ty, f.ih) < WRAP
  {
    hide CellSum, Frame.Valid;
    CellSumBounds(f, pixels, k, tx, ty, f.ih);
  }

  lemma RenderedAt(dst: seq<u32>, before: seq<u32>, f: Frame, pixels: seq<Rgba>, tx: nat, ty: nat)
    requires f.Valid() && Rendered(dst, before, f, pixels) && tx < f.w && ty < f.h
    ensures Cell(f.w, tx, ty) < |dst| == |before| && CellSums(f, pixels, tx, ty, f.ih).Fits()
    ensures dst[Cell(f.w, tx, ty)] == Flushed(CellSums(f, pixels, tx, ty, f.ih), before[Cell(f.w, tx, ty)])
  {
    hide CellSums, Flushed, Sums.Fits, Cell;
    assert Shown(dst[Cell(f.w, tx, ty)], before[Cell(f.w, tx, ty)], f, pixels, None, f.ih, tx, ty);
  }

  /**
   Main result: when every column lands right, a destination pixel is the truncated average, in each channel,
   of the rectangle of source pixels behind it, if 255 times its area stays in 32 bits; a pixel with
   nothing behind it keeps its colour.
   */
  lemma RenderedIsBoxAverage(dst: seq<u32>, before: seq<u32>, f: Frame, pixels: seq<Rgba>, tx: nat, ty: nat, k: nat)
    requires f.Valid() && f.ColumnsRight() && Rendered(dst, before, f, pixels) && tx < f.w && ty < f.h && k < 3
    ensures Cell(f.w, tx, ty) < |dst| == |before|
    ensures var b := BoxOf(f, tx, ty);
      (b.Area() == 0 ==> dst[Cell(f.w, tx, ty)] == before[Cell(f.w, tx, ty)])
      && (0 < 255 * b.Area() < WRAP
          ==> Channel(dst[Cell(f.w, tx, ty)], k) == BoxSum(pixels, k, f.iw, b.x0, b.x1, b.y0, b.y1) / b.Area())
  {
    hide CellSum, BoxSum, Cell, Channel, Rendered, Frame.Valid, Frame.ColumnsRight, Box.Area;
    RenderedIsAverage(dst, before, f, pixels, tx, ty);
    CellIsBox(f, pixels, tx, ty, k);
  }

  // -------------------------------------------------- how large a cell may be

  const WHITE := Rgba(255, 255, 255, 255)

  function White(n: nat): (r: seq<Rgba>)
    ensures |r| == n && forall i | 0 <= i < n :: r[i] == WHITE
  {
    if n == 0 then [] else White(n - 1) + [WHITE]
  }

  lemma {:induction false} WhiteRow(f: Frame, tx: nat, sy: nat, n: nat)
    requires f.Valid() && sy < f.ih && n <= f.iw
    ensures RowSum(f, White(f.ih * f.iw), 0, tx, sy, n) == 255 * RowSum(f, White(f.ih * f.iw), 3, tx, sy, n)
  {
    if n > 0 {
      WhiteRow(f, tx, sy, n - 1);
      MulStep(sy, f.ih, f.iw);
    }
  }

  lemma {:induction false} WhiteCell(f: Frame, tx: nat, ty: nat, m: nat)
    requires f.Valid() && m <= f.ih
    ensures CellSum(f, White(f.ih * f.iw), 0, tx, ty, m) == 255 * CellSum(f, White(f.ih * f.iw), 3, tx, ty, m)
  {
    if m > 0 {
      WhiteCell(f, tx, ty, m - 1);
      WhiteRow(f, tx, m - 1, f.iw);
    }
  }

  /** The number of pixels in a cell depends on the sizes alone. */
  lemma {:induction false} CountOfSizes(f: Frame, a: seq<Rgba>, b: seq<Rgba>, tx: nat, ty: nat, m: nat)
    requires f.Valid()
    ensures CellSum(f, a, 3, tx, ty, m) == CellSum(f, b, 3, tx, ty, m)
  {
    if m > 0 {
      CountOfSizes(f, a, b, tx, ty, m - 1);
      RowCountOfSizes(f, a, b, tx, m - 1, f.iw);
    }
  }

  lemma {:induction false} RowCountOfSizes(f: Frame, a: seq<Rgba>, b: seq<Rgba>, tx: nat, sy: nat, n: nat)
    requires f.Valid()
    ensures RowSum(f, a, 3, tx, sy, n) == RowSum(f, b, 3, tx, sy, n)
  {
    if n > 0 {
      RowCountOfSizes(f, a, b, tx, sy, n - 1);
    }
  }

  /** The sums of a cell over a black destination. */
  function CellColour(f: Frame, pixels: seq<Rgba>, tx: nat, ty: nat): u32
    requires f.Valid()
  {
    var s := CellSums(f, pixels, tx, ty, f.ih);
    if s.Fits() then Flushed(s, 0) else 0
  }

  /** A thumbnail of `pixels`, cell by cell. */
  function Painting(f: Frame, pixels: seq<Rgba>): (r: seq<u32>)
    requires f.Valid()
    ensures |r| == f.h * f.w
  {
    seq(f.h * f.w, i requires 0 <= i < f.h * f.w => CellColour(f, pixels, Remainder(i, f.w), Quotient(i, f.w)))
  }

  function Blank(n: nat): seq<u32> {
    seq(n, i => 0)
  }

  lemma PaintingAt(f: Frame, pixels: seq<Rgba>, tx: nat, ty: nat)
    requires f.Valid() && tx < f.w && ty < f.h
    ensures Cell(f.w, tx, ty) < f.h * f.w && Painting(f, pixels)[Cell(f.w, tx, ty)] == CellColour(f, pixels, tx, ty)
  {
    hide CellColour, Frame.Valid;
    MulStep(ty, f.h, f.w);
    CellDivides(f.w, tx, ty);
  }

  lemma CellDivides(w: nat, tx: nat, ty: nat)
    requires tx < w
    ensures Quotient(Cell(w, tx, ty), w) == ty && Remainder(Cell(w, tx, ty), w) == tx
  {
    DivIs(ty * w + tx, w, ty);
  }

  lemma PaintingIsRendered(f: Frame, pixels: seq<Rgba>)
    requires f.Valid()
    ensures Rendered(Painting(f, pixels), Blank(f.h * f.w), f, pixels)
  {
    hide CellSums, Sums.Fits, Flushed, Frame.Valid, Cell, Painting;
    forall tx: nat, ty: nat | tx < f.w && ty < f.h
      ensures Cell(f.w, tx, ty) < f.h * f.w
      ensures Shown(Painting(f, pixels)[Cell(f.w, tx, ty)], 0, f, pixels, None, f.ih, tx, ty)
    {
      CellSumsFit(f, pixels, tx, ty, f.ih);
      PaintingAt(f, pixels, tx, ty);
    }
  }

  function Remainder(a: nat, n: nat): nat
    requires n > 0
  {
    a % n
  }

  /**
   A cell is averaged right in every rendering of every picture exactly when 255 times the number of
   pixels that land in it stays in 32 bits: one more, and an all-white picture comes out dark.
   */
  lemma AverageRightIff(f: Frame, tx: nat, ty: nat)
    requires f.Valid() && tx < f.w && ty < f.h
    ensures (forall pixels: seq<Rgba>, before: seq<u32>, dst: seq<u32> | Rendered(dst, before, f, pixels) ::
               Cell(f.w, tx, ty) < |dst| && IsAverage(f, pixels, tx, ty, dst[Cell(f.w, tx, ty)]))
       <==> 255 * Count(f, [], tx, ty) < WRAP
  {
    hide CellSum, Rendered, IsAverage, Frame.Valid, Cell;
    forall pixels: seq<Rgba>, before: seq<u32>, dst: seq<u32>
      | 255 * Count(f, [], tx, ty) < WRAP && Rendered(dst, before, f, pixels)
      ensures Cell(f.w, tx, ty) < |dst| && IsAverage(f, pixels, tx, ty, dst[Cell(f.w, tx, ty)])
    {
      CountOfSizes(f, pixels, [], tx, ty, f.ih);
      RenderedIsAverage(dst, before, f, pixels, tx, ty);
    }
    if 255 * Count(f, [], tx, ty) >= WRAP {
      var white := White(f.ih * f.iw);
      PaintingIsRendered(f, white);
      WhiteComesOutDark(Painting(f, white), Blank(f.h * f.w), f, tx, ty);
    }
  }

  lemma WhiteComesOutDark(dst: seq<u32>, before: seq<u32>, f: Frame, tx: nat, ty: nat)
    requires f.Valid() && tx < f.w && ty < f.h && 255 * Count(f, [], tx, ty) >= WRAP
    requires Rendered(dst, before, f, White(f.ih * f.iw))
    ensures Cell(f.w, tx, ty) < |dst|
    ensures Channel(dst[Cell(f.w, tx, ty)], 0) < 255
    ensures !IsAverage(f, White(f.ih * f.iw), tx, ty, dst[Cell(f.w, tx, ty)])
  {
    hide CellSum, Rendered, Frame.Valid, Cell, Channel;
    var white := White(f.ih * f.iw);
    CountOfSizes(f, white, [], tx, ty, f.ih);
    WhiteCell(f, tx, ty, f.ih);
    RenderedAt(dst, before, f, white, tx, ty);
    CellSumsFit(f, white, tx, ty, f.ih);
    var n := Count(f, white, tx, ty);
    BelowQuotient(255 * n % WRAP, n, 255);
    DivIs(255 * n, n, 255);
  }

  /** A picture of at most 16 843 009 pixels is averaged right everywhere. */
  lemma SmallIsRight(f: Frame, tx: nat, ty: nat)
    requires f.Valid() && 255 * (f.ih * f.iw) < WRAP
    ensures 255 * Count(f, [], tx, ty) < WRAP
  {
    CellSumBounds(f, [], 3, tx, ty, f.ih);
  }

  const LARGEST := Frame(8192, 8192, 1, 1)

  lemma LargestGeometry()
    ensures LARGEST.Valid() && LARGEST.G() == Geometry(1, 1, 0, 0)
  {
    assert CeilDiv(8192, 8192) == 1;
  }

  lemma LargestBox()
    ensures LARGEST.Valid() && LARGEST.ColumnsRight() && BoxOf(LARGEST, 0, 0) == Box(0, 8192, 0, 8192)
  {
    hide CoverGeometry, Frame.Valid;
    LargestGeometry();
    assert Edge(0, 8192, 1, 0) == 0;
    assert Edge(1, 8192, 1, 0) == 8192;
  }

  /** The largest picture the decoder accepts, reduced to one pixel, is not. */
  lemma LargestIsWrong()
    ensures LARGEST.Valid() && LARGEST.ColumnsRight()
    ensures Count(LARGEST, [], 0, 0) == 0x400_0000 && 255 * Count(LARGEST, [], 0, 0) >= WRAP
  {
    hide CellSum, BoxOf, Frame.Valid, Frame.ColumnsRight;
    LargestBox();
    CellIsBox(LARGEST, [], 0, 0, 3);
  }
}
