/**
 `render_cover` of crates/nanochrono-baremetal/src/assets.rs: a wallpaper drawn
 through a window of two decoded rows. The decoder hands its pixels out in order,
 each once, and black after the last.
 */
module Wallpaper {
  import opened Wrappers
  import opened Arithmetic
  import opened Bytes
  import opened Scaling

  const MAX_SOURCE_W := 1920
  const MAX_DEST_W := 1920
  // What the decoder accepts at most, from crates/nanochrono-core/src/qoi.rs.
  const MAX_PIXELS := 0x400_0000

  datatype Rgba = Rgba(r: byte, g: byte, b: byte, a: byte)

  const BLACK := Rgba(0, 0, 0, 255)

  /** The pixel stream of a picture: `taken` pixels have been handed out. */
  class Decoder {
    const pixels: seq<Rgba>
    var taken: nat

    constructor (pixels: seq<Rgba>)
      ensures this.pixels == pixels && taken == 0
    {
      this.pixels := pixels;
      taken := 0;
    }

    method NextPixel() returns (p: Option<Rgba>)
      requires taken <= |pixels|
      modifies this
      ensures taken == Min(old(taken) + 1, |pixels|)
      ensures p == if old(taken) < |pixels| then Some(pixels[old(taken)]) else None
    {
      if taken == |pixels| {
        return None;
      }
      p := Some(pixels[taken]);
      taken := taken + 1;
    }
  }

  // ----------------------------------------------------------- the reference

  function Colour(p: Rgba): u32 {
    Rgb(p.r, p.g, p.b)
  }

  /** A picture as its header and stream describe it: `iw * ih` pixels, black where the stream is short. */
  datatype Picture = Picture(iw: u32, ih: u32, pixels: seq<Rgba>) {
    /** Pixel `i` in stream order. */
    function Nth(i: nat): u32 {
      Colour(if i < |pixels| then pixels[i] else BLACK)
    }

    function At(x: nat, y: nat): u32 {
      Nth(y * iw + x)
    }
  }

  function Clamp(v: nat, size: nat): (r: nat)
    requires size > 0
    ensures r < size
  {
    Min(v, size - 1)
  }

  /** Channel `k` of the bilinear sample at `(sx, sy)`, in 1/256ths, with random access to the picture. */
  function Sampled(pic: Picture, sx: nat, sy: nat, k: nat): byte
    requires pic.iw > 0 && pic.ih > 0 && k < 3
  {
    var (x0, x1) := (Clamp(sx / 256, pic.iw), Clamp(sx / 256 + 1, pic.iw));
    var (y0, y1) := (Clamp(sy / 256, pic.ih), Clamp(sy / 256 + 1, pic.ih));
    Mixed(pic.At(x0, y0), pic.At(x1, y0), pic.At(x0, y1), pic.At(x1, y1), sx % 256, sy % 256, k)
  }

  /** The bilinear sample as a colour. */
  function SampledColour(pic: Picture, sx: nat, sy: nat): u32
    requires pic.iw > 0 && pic.ih > 0
  {
    Rgb(Sampled(pic, sx, sy, 0), Sampled(pic, sx, sy, 1), Sampled(pic, sx, sy, 2))
  }

  /** The destination pixel `(x, y)` of `pic` scaled to cover `w x h`. */
  function Covered(pic: Picture, w: u32, h: u32, x: nat, y: nat): u32
    requires pic.iw > 0 && pic.ih > 0
  {
    var g := CoverGeometry(pic.iw, pic.ih, w, h);
    SampledColour(pic, SampleAt(x, g.ox, pic.iw, g.sw), SampleAt(y, g.oy, pic.ih, g.sh))
  }

  // ---------------------------------------------------------------- the code

  method Bilinear(p00: u32, p01: u32, p10: u32, p11: u32, fx: byte, fy: byte) returns (out: u32)
    requires p00 < 0x100_0000
    ensures out == Rgb(Mixed(p00, p01, p10, p11, fx, fy, 0), Mixed(p00, p01, p10, p11, fx, fy, 1),
                       Mixed(p00, p01, p10, p11, fx, fy, 2))
  {
    if fx == 0 && fy == 0 {
      hide Weigh, Channel;
      MixNone(Channel(p00, 0), Channel(p01, 0), Channel(p10, 0), Channel(p11, 0));
      MixNone(Channel(p00, 1), Channel(p01, 1), Channel(p10, 1), Channel(p11, 1));
      MixNone(Channel(p00, 2), Channel(p01, 2), Channel(p10, 2), Channel(p11, 2));
      RgbOfChannels(p00);
      return p00;
    }
    out := 0;
    for k := 0 to 3
      invariant out == (if k > 0 then Mixed(p00, p01, p10, p11, fx, fy, 0) * 0x1_0000 else 0)
                     + (if k > 1 then Mixed(p00, p01, p10, p11, fx, fy, 1) * 0x100 else 0)
                     + (if k > 2 then Mixed(p00, p01, p10, p11, fx, fy, 2) else 0)
    {
      var top := Weigh(Channel(p00, k), Channel(p01, k), fx);
      var bottom := Weigh(Channel(p10, k), Channel(p11, k), fx);
      var mixed := Weigh(top, bottom, fy) / 0x1_0000;
      assert mixed == Mixed(p00, p01, p10, p11, fx, fy, k) by {
        hide Weigh;
      }
      hide Mixed, Weigh, Channel;
      out := out + (if k == 0 then mixed * 0x1_0000 else if k == 1 then mixed * 0x100 else mixed);
    }
  }

  lemma RgbOfChannels(p: u32)
    requires p < 0x100_0000
    ensures Rgb(Channel(p, 0), Channel(p, 1), Channel(p, 2)) == p
  {
  }

  /** Decodes the next `iw` pixels of the picture, from stream position `start` on, into `row`. */
  method FetchRow(decoder: Decoder, row: array<u32>, iw: u32, ghost pic: Picture, ghost start: nat)
    requires iw <= row.Length && decoder.pixels == pic.pixels && decoder.taken == Min(start, |pic.pixels|)
    modifies row, decoder
    ensures decoder.taken == Min(start + iw, |pic.pixels|)
    ensures forall x | 0 <= x < iw :: row[x] == pic.Nth(start + x)
  {
    hide Colour;
    for x := 0 to iw
      invariant decoder.taken == Min(start + x, |pic.pixels|)
      invariant forall i | 0 <= i < x :: row[i] == pic.Nth(start + i)
    {
      var p := decoder.NextPixel();
      row[x] := Colour(if p.Some? then p.value else BLACK);
    }
  }

  /** `SCRATCH`: two decoded rows, and per destination column its source column and weight. */
  class Scratch {
    const even: array<u32>
    const odd: array<u32>
    const xs: array<nat>
    const fx: array<byte>

    ghost predicate Valid() {
      even.Length == odd.Length == MAX_SOURCE_W && xs.Length == fx.Length == MAX_DEST_W && even != odd
    }

    constructor ()
      ensures Valid() && fresh(even) && fresh(odd) && fresh(xs) && fresh(fx)
    {
      even := new u32[MAX_SOURCE_W](_ => 0);
      odd := new u32[MAX_SOURCE_W](_ => 0);
      xs := new nat[MAX_DEST_W](_ => 0);
      fx := new byte[MAX_DEST_W](_ => 0);
    }

    /** The slot source row `r` is decoded into. */
    function Row(r: nat): array<u32> {
      if r % 2 == 0 then even else odd
    }

    /** Source row `r` of the picture is in its slot. */
    ghost predicate Holds(pic: Picture, r: nat)
      reads even, odd
    {
      Valid() && pic.iw <= MAX_SOURCE_W && forall x | 0 <= x < pic.iw :: Row(r)[x] == pic.At(x, r)
    }

    /** The window moves down by one row: the row before stays, the one before that is overwritten. */
    method Advance(decoder: Decoder, iw: u32, r: nat, ghost pic: Picture)
      requires Valid() && iw == pic.iw <= MAX_SOURCE_W && decoder.pixels == pic.pixels
      requires decoder.taken == Min(r * iw, |pic.pixels|)
      modifies even, odd, decoder
      ensures decoder.taken == Min((r + 1) * iw, |pic.pixels|)
      ensures Holds(pic, r)
      ensures r > 0 && old(Holds(pic, r - 1)) ==> Holds(pic, r - 1)
    {
      assert r > 0 ==> Row(r - 1) != Row(r);
      FetchRow(decoder, Row(r), iw, pic, r * iw);
      assert (r + 1) * iw == r * iw + iw;
    }
  }

  /** The two source rows destination row `y` mixes, and the weight of the second. */
  function RowsOf(s: nat, ih: nat): (r: (nat, nat, byte))
    requires ih > 0
    ensures r.0 <= r.1 < ih && r.1 <= r.0 + 1
  {
    var y0 := Clamp(s / 256, ih);
    var y1 := Clamp(y0 + 1, ih);
    (y0, y1, if y1 > y0 then s % 256 else 0)
  }

  /** The left of the two source columns sampled, and how much the right one counts. */
  function ColumnOf(s: nat, iw: nat): (r: (nat, byte))
    requires iw > 0
    ensures r.0 < iw && (r.1 > 0 ==> r.0 + 1 < iw)
  {
    (Clamp(s / 256, iw), if s / 256 + 1 < iw then s % 256 else 0)
  }

  function RightOf(x0: nat, fx: byte): nat { if fx > 0 then x0 + 1 else x0 }

  /** Left and right neighbours as the code picks them mix the same channel values as clamped ones. */
  lemma ColumnsMix(pic: Picture, sx: nat, y0: nat, y1: nat, fy: byte, k: nat)
    requires pic.iw > 0 && k < 3
    ensures var (x0, fx) := ColumnOf(sx, pic.iw);
      var (a, b) := (Clamp(sx / 256, pic.iw), Clamp(sx / 256 + 1, pic.iw));
      Mixed(pic.At(a, y0), pic.At(b, y0), pic.At(a, y1), pic.At(b, y1), sx % 256, fy, k)
      == Mixed(pic.At(x0, y0), pic.At(RightOf(x0, fx), y0), pic.At(x0, y1), pic.At(RightOf(x0, fx), y1), fx, fy, k)
  {
    hide Mix, Channel, Picture.At;
    var (x0, fx) := ColumnOf(sx, pic.iw);
    var b := Clamp(sx / 256 + 1, pic.iw);
    var (c0, c1) := (Channel(pic.At(x0, y0), k), Channel(pic.At(x0, y1), k));
    if b == x0 {
      MixEdgeX(c0, c1, sx % 256, fy);
    } else if fx == 0 {
      MixLeft(c0, Channel(pic.At(b, y0), k), c1, Channel(pic.At(b, y1), k), fy);
    }
  }

  /** Dropping the weights at the edges, as the code does, changes nothing. */
  lemma EdgesDoNotMatter(pic: Picture, sx: nat, sy: nat, k: nat)
    requires pic.iw > 0 && pic.ih > 0 && k < 3
    ensures var (y0, y1, fy) := RowsOf(sy, pic.ih);
      var (x0, fx) := ColumnOf(sx, pic.iw);
      var x1 := RightOf(x0, fx);
      Sampled(pic, sx, sy, k) == Mixed(pic.At(x0, y0), pic.At(x1, y0), pic.At(x0, y1), pic.At(x1, y1), fx, fy, k)
  {
    hide Mix, Channel, Picture.At;
    var (y0, y1, fy) := RowsOf(sy, pic.ih);
    var (x0, fx) := ColumnOf(sx, pic.iw);
    var x1 := RightOf(x0, fx);
    ColumnsMix(pic, sx, y0, y1, sy % 256, k);
    if y0 == y1 {
      MixEdgeY(Channel(pic.At(x0, y0), k), Channel(pic.At(x1, y0), k), fx, sy % 256);
    }
  }

  // ----------------------------------------------------------- render_cover

  lemma CellBelow(w: nat, x: nat, y: nat, y': nat)
    requires x < w && y < y'
    ensures Cell(w, x, y) < y' * w
  {
    MulStep(y, y', w);
  }

  /** What the code keeps per destination column. */
  ghost predicate Columns(scratch: Scratch, pic: Picture, w: nat, ox: nat, sw: nat)
    reads scratch.xs, scratch.fx
  {
    scratch.Valid() && w <= MAX_DEST_W && pic.iw > 0
    && forall x | 0 <= x < w :: (scratch.xs[x], scratch.fx[x]) == ColumnOf(SampleAt(x, ox, pic.iw, sw), pic.iw)
  }

  method FillColumns(scratch: Scratch, ghost pic: Picture, iw: u32, w: u32, ox: nat, sw: nat)
    requires scratch.Valid() && iw == pic.iw > 0 && w <= MAX_DEST_W
    modifies scratch.xs, scratch.fx
    ensures Columns(scratch, pic, w, ox, sw)
  {
    hide SampleAt;
    for x := 0 to w
      invariant Columns(scratch, pic, x, ox, sw)
    {
      var s := SampleAt(x, ox, iw, sw);
      scratch.xs[x] := Min(s / 256, iw - 1);
      scratch.fx[x] := if s / 256 + 1 < iw then s % 256 else 0;
    }
  }

  /** One destination row from the two source rows in the window. */
  method WriteRow(
    scratch: Scratch, dst: array<u32>, base: nat, w: u32, y0: nat, y1: nat, fy: byte,
    ghost pic: Picture, ghost g: Geometry, ghost sy: nat)
    requires pic.iw > 0 && pic.ih > 0 && Columns(scratch, pic, w, g.ox, g.sw) && base + w <= dst.Length
    requires (y0, y1, fy) == RowsOf(sy, pic.ih) && scratch.Holds(pic, y0) && scratch.Holds(pic, y1)
    requires dst != scratch.even && dst != scratch.odd
    modifies dst
    ensures forall x | 0 <= x < w :: dst[base + x] == SampledColour(pic, SampleAt(x, g.ox, pic.iw, g.sw), sy)
    ensures forall i | 0 <= i < dst.Length && !(base <= i < base + w) :: dst[i] == old(dst[i])
  {
    hide SampleAt, SampledColour;
    var top, bottom := scratch.Row(y0), scratch.Row(y1);
    for x := 0 to w
      invariant forall i | 0 <= i < x :: dst[base + i] == SampledColour(pic, SampleAt(i, g.ox, pic.iw, g.sw), sy)
      invariant forall i | 0 <= i < dst.Length && !(base <= i < base + x) :: dst[i] == old(dst[i])
    {
      var x0, fx := scratch.xs[x], scratch.fx[x];
      var x1 := if fx > 0 then x0 + 1 else x0;
      var c := Bilinear(top[x0], top[x1], bottom[x0], bottom[x1], fx, fy);
      ghost var sx := SampleAt(x, g.ox, pic.iw, g.sw);
      SampledIs(pic, sx, sy);
      dst[base + x] := c;
    }
  }

  lemma SampledIs(pic: Picture, sx: nat, sy: nat)
    requires pic.iw > 0 && pic.ih > 0
    ensures var (y0, y1, fy) := RowsOf(sy, pic.ih);
      var (x0, fx) := ColumnOf(sx, pic.iw);
      var (p00, p01) := (pic.At(x0, y0), pic.At(RightOf(x0, fx), y0));
      var (p10, p11) := (pic.At(x0, y1), pic.At(RightOf(x0, fx), y1));
      SampledColour(pic, sx, sy) == Rgb(Mixed(p00, p01, p10, p11, fx, fy, 0), Mixed(p00, p01, p10, p11, fx, fy, 1),
                                        Mixed(p00, p01, p10, p11, fx, fy, 2))
  {
    hide Sampled, Mixed, Rgb, RowsOf, ColumnOf;
    EdgesDoNotMatter(pic, sx, sy, 0);
    EdgesDoNotMatter(pic, sx, sy, 1);
    EdgesDoNotMatter(pic, sx, sy, 2);
  }

  /** The last source row destination row `y` needs. */
  function LastRow(pic: Picture, g: Geometry, y: nat): nat
    requires pic.ih > 0
  {
    RowsOf(SampleAt(y, g.oy, pic.ih, g.sh), pic.ih).1
  }

  lemma LastRowMonotone(pic: Picture, g: Geometry, y: nat, y': nat)
    requires pic.ih > 0 && y <= y'
    ensures LastRow(pic, g, y) <= LastRow(pic, g, y')
  {
    SampleMonotone(y, y', g.oy, pic.ih, g.sh);
    DivMonotone(SampleAt(y, g.oy, pic.ih, g.sh), SampleAt(y', g.oy, pic.ih, g.sh), 256);
  }

  /** The two newest decoded rows are resident; nothing past `have` has been taken from the decoder. */
  ghost predicate Window(scratch: Scratch, decoder: Decoder, pic: Picture, have: int)
    reads scratch.even, scratch.odd, decoder
  {
    scratch.Valid() && decoder.pixels == pic.pixels && -1 <= have < pic.ih && pic.iw <= MAX_SOURCE_W
    && decoder.taken == Min((have + 1) * pic.iw, |pic.pixels|)
    && (have >= 0 ==> scratch.Holds(pic, have))
    && (have >= 1 ==> scratch.Holds(pic, have - 1))
  }

  /** Decodes up to and including source row `upTo`, never past the last. */
  method DecodeTo(scratch: Scratch, decoder: Decoder, ghost pic: Picture, iw: u32, from: int, upTo: nat) returns (have: int)
    requires Window(scratch, decoder, pic, from) && iw == pic.iw && from <= upTo < pic.ih
    modifies scratch.even, scratch.odd, decoder
    ensures have == upTo && Window(scratch, decoder, pic, have)
  {
    have := from;
    while have < upTo
      invariant from <= have <= upTo && Window(scratch, decoder, pic, have)
    {
      have := have + 1;
      scratch.Advance(decoder, iw, have, pic);
    }
  }

  ghost predicate RowsDrawn(dst: seq<u32>, pic: Picture, w: u32, h: u32, y: nat)
    requires pic.iw > 0 && pic.ih > 0
  {
    y * w <= |dst| && forall x: nat, yy: nat | x < w && yy < y ::
      Cell(w, x, yy) < |dst| && dst[Cell(w, x, yy)] == Covered(pic, w, h, x, yy)
  }

  lemma RowDrawn(was: seq<u32>, now: seq<u32>, pic: Picture, w: u32, h: u32, y: nat)
    requires pic.iw > 0 && pic.ih > 0 && RowsDrawn(was, pic, w, h, y)
    requires |now| == |was| && y * w + w <= |was|
    requires forall i | 0 <= i < y * w :: now[i] == was[i]
    requires forall x | 0 <= x < w :: now[y * w + x] == Covered(pic, w, h, x, y)
    ensures RowsDrawn(now, pic, w, h, y + 1)
  {
    assert (y + 1) * w == y * w + w;
    forall x: nat, yy: nat | x < w && yy < y + 1
      ensures Cell(w, x, yy) < |now| && now[Cell(w, x, yy)] == Covered(pic, w, h, x, yy)
    {
      if yy < y {
        CellBelow(w, x, yy, y);
      }
    }
  }

  /**
   The state between two destination rows: the column tables are set, the window stands on the last
   source row the previous destination row needed, `y` rows are drawn and the rest of `dst` is as before.
   */
  ghost predicate Progress(
    scratch: Scratch, decoder: Decoder, dst: array<u32>, pic: Picture, w: u32, h: u32, y: nat, have: int,
    before: seq<u32>)
    reads scratch.xs, scratch.fx, scratch.even, scratch.odd, decoder, dst
  {
    pic.iw > 0 && pic.ih > 0 && y <= h && h * w <= dst.Length == |before|
    && dst != scratch.even && dst != scratch.odd
    && (var g := CoverGeometry(pic.iw, pic.ih, w, h);
        Columns(scratch, pic, w, g.ox, g.sw) && Window(scratch, decoder, pic, have)
        && have == (if y == 0 then -1 else LastRow(pic, g, y - 1)))
    && RowsDrawn(dst[..], pic, w, h, y)
    && forall i | y * w <= i < dst.Length :: dst[i] == before[i]
  }

  /** One turn of the loop over destination rows: bring the window to the rows it needs, then mix them. */
  method DrawRow(
    scratch: Scratch, decoder: Decoder, dst: array<u32>, ghost pic: Picture, iw: u32, ih: u32, w: u32, h: u32,
    g: Geometry, y: nat, from: int, ghost before: seq<u32>) returns (have: int)
    requires iw == pic.iw > 0 && ih == pic.ih > 0 && g == CoverGeometry(iw, ih, w, h) && w > 0 && y < h
    requires Progress(scratch, decoder, dst, pic, w, h, y, from, before)
    modifies scratch.even, scratch.odd, decoder, dst
    ensures Progress(scratch, decoder, dst, pic, w, h, y + 1, have, before)
  {
    hide SampleAt, CoverGeometry, RowsDrawn, Scratch.Holds, SampledColour;
    CellBelow(w, w - 1, y, h);
    if y > 0 {
      LastRowMonotone(pic, g, y - 1, y);
    }
    var s := SampleAt(y, g.oy, ih, g.sh);
    var (y0, y1, fy) := RowsOf(s, ih);
    have := DecodeTo(scratch, decoder, pic, iw, from, y1);
    ghost var was := dst[..];
    WriteRow(scratch, dst, y * w, w, y0, y1, fy, pic, g, s);
    RowDrawn(was, dst[..], pic, w, h, y);
    assert (y + 1) * w == y * w + w;
  }

  /**
   Holding two decoded rows at a time, the destination gets everywhere the pixel a bilinear scaler
   with random access to the whole picture would put there.
   */
  method RenderCover(decoder: Decoder?, iw: u32, ih: u32, dst: array<u32>, w: u32, h: u32) returns (ok: bool)
    requires decoder != null ==> iw > 0 && ih > 0 && decoder.taken == 0
    modifies dst, decoder
    ensures ok <==> decoder != null && w > 0 && h > 0 && iw <= MAX_SOURCE_W && w <= MAX_DEST_W && h * w <= dst.Length
    ensures !ok ==> dst[..] == old(dst[..])
    ensures ok ==> RowsDrawn(dst[..], Picture(iw, ih, decoder.pixels), w, h, h)
    ensures ok ==> dst[h * w..] == old(dst[h * w..])
  {
    if decoder == null || w == 0 || h == 0 || iw > MAX_SOURCE_W || w > MAX_DEST_W || dst.Length < h * w {
      return false;
    }
    ghost var pic := Picture(iw, ih, decoder.pixels);
    var g := CoverGeometry(iw, ih, w, h);
    var scratch := new Scratch();
    FillColumns(scratch, pic, iw, w, g.ox, g.sw);
    var have := -1;
    assert Progress(scratch, decoder, dst, pic, w, h, 0, have, old(dst[..]));
    for y := 0 to h
      invariant Progress(scratch, decoder, dst, pic, w, h, y, have, old(dst[..]))
    {
      hide Progress;
      have := DrawRow(scratch, decoder, dst, pic, iw, ih, w, h, g, y, have, old(dst[..]));
    }
    return true;
  }
}
