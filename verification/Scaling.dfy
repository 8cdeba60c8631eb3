/**
 The geometry of crates/nanochrono-baremetal/src/assets.rs: how large a picture
 is scaled to cover a screen, which source coordinate a destination pixel
 samples, and the 8-bit bilinear mix.
 */
module Scaling {
  import opened Arithmetic
  import opened Bytes

  // --------------------------------------------------------------- geometry

  function CeilDiv(a: nat, b: nat): (r: nat)
    requires b > 0
  {
    (a + b - 1) / b
  }

  /** The least number of times `b` must be taken to reach `a`. */
  lemma CeilDivAtMost(a: nat, b: nat, q: nat)
    requires b > 0
    ensures CeilDiv(a, b) <= q <==> a <= q * b
  {
    var r := CeilDiv(a, b);
    assert r * b + (a + b - 1) % b == a + b - 1;
    if r <= q {
      MulMonotone(r, q, b);
    } else {
      MulStep(q, r, b);
    }
  }

  datatype Geometry = Geometry(sw: nat, sh: nat, ox: nat, oy: nat)

  function CoverGeometry(iw: u32, ih: u32, w: u32, h: u32): (g: Geometry)
    requires iw > 0 && ih > 0
    ensures g.sw >= w && g.sh >= h
    ensures w > 0 && h > 0 ==> g.sw > 0 && g.sh > 0
  {
    if w * ih >= h * iw then
      var sh := CeilDiv(ih * w, iw);
      CeilDivAtMost(ih * w, iw, sh);
      CoversOther(h, iw, sh, w * ih);
      Geometry(w, sh, 0, (sh - h) / 2)
    else
      var sw := CeilDiv(iw * h, ih);
      CeilDivAtMost(iw * h, ih, sw);
      CoversOther(w, ih, sw, iw * h);
      Geometry(sw, h, (sw - w) / 2, 0)
  }

  lemma CoversOther(h: nat, iw: nat, sh: nat, product: nat)
    requires iw > 0 && product >= h * iw && sh * iw >= product
    ensures sh >= h
  {
    if sh < h {
      MulStep(sh, h, iw);
    }
  }

  /** Scaled to cover, a picture is no larger than it must be: it fits one side and just reaches the other. */
  lemma CoverIsTight(iw: u32, ih: u32, w: u32, h: u32)
    requires iw > 0 && ih > 0
    ensures var g := CoverGeometry(iw, ih, w, h);
      (g.sw == w && g.sh * iw >= ih * w && forall sh: nat | sh * iw >= ih * w :: g.sh <= sh)
      || (g.sh == h && g.sw * ih >= iw * h && forall sw: nat | sw * ih >= iw * h :: g.sw <= sw)
  {
    hide CeilDiv;
    forall q: nat
      ensures CeilDiv(ih * w, iw) <= q <==> q * iw >= ih * w
      ensures CeilDiv(iw * h, ih) <= q <==> q * ih >= iw * h
    {
      CeilDivAtMost(ih * w, iw, q);
      CeilDivAtMost(iw * h, ih, q);
    }
  }

  /** The window is in the middle of the scaled picture. */
  lemma CoverIsCentred(iw: u32, ih: u32, w: u32, h: u32)
    requires iw > 0 && ih > 0
    ensures var g := CoverGeometry(iw, ih, w, h);
      2 * g.ox <= g.sw - w <= 2 * g.ox + 1 && 2 * g.oy <= g.sh - h <= 2 * g.oy + 1
  {
    hide CeilDiv;
  }

  // ---------------------------------------------------------------- sampling

  /** The index of pixel `(x, y)` where rows are `w` pixels apart. */
  function Cell(w: nat, x: nat, y: nat): nat { y * w + x }

  /** The source coordinate, in 1/256ths, of destination coordinate `d`. The product saturates. */
  function SampleAt(d: nat, offset: nat, source: nat, scaled: nat): nat {
    var product := Min(((d + offset) * 2 + 1) * (source * 256), U64_MAX);
    var s := if scaled == 0 then 0 else product / (2 * scaled);
    if s >= 128 then s - 128 else 0
  }

  lemma SampleMonotone(d: nat, d': nat, offset: nat, source: nat, scaled: nat)
    requires d <= d'
    ensures SampleAt(d, offset, source, scaled) <= SampleAt(d', offset, source, scaled)
  {
    MulMonotone((d + offset) * 2 + 1, (d' + offset) * 2 + 1, source * 256);
    if scaled > 0 {
      DivMonotone(Min(((d + offset) * 2 + 1) * (source * 256), U64_MAX),
                  Min(((d' + offset) * 2 + 1) * (source * 256), U64_MAX), 2 * scaled);
    }
  }

  /** Inside the scaled picture a sample never starts past the last source pixel. */
  lemma SampleInside(d: nat, offset: nat, source: nat, scaled: nat)
    requires d + offset < scaled && source > 0
    ensures SampleAt(d, offset, source, scaled) / 256 < source
  {
    var product := ((d + offset) * 2 + 1) * (source * 256);
    MulMonotone((d + offset) * 2 + 1, 2 * scaled - 1, source * 256);
    assert (2 * scaled - 1) * (source * 256) == 2 * scaled * (source * 256) - source * 256;
    BelowQuotient(Min(product, U64_MAX), 2 * scaled, source * 256);
  }

  // ------------------------------------------------------------------ mixing

  /** Channel `k` of a `0x00RRGGBB` colour: red, green, blue. */
  function Channel(p: u32, k: nat): byte
    requires k < 3
  {
    if k == 0 then p / 0x100 / 0x100 % 0x100 else if k == 1 then p / 0x100 % 0x100 else p % 0x100
  }

  /** `a` and `b` in 1/256ths, `f` of them `b`. */
  function Weigh(a: nat, b: nat, f: byte): nat {
    a * (256 - f) + b * f
  }

  /** Four channel values mixed with weights `fx` and `fy` in 1/256ths. */
  function Mix(c00: byte, c01: byte, c10: byte, c11: byte, fx: byte, fy: byte): nat {
    Weigh(Weigh(c00, c01, fx), Weigh(c10, c11, fx), fy) / 0x1_0000
  }

  lemma WeighBetween(a: nat, b: nat, f: byte, lo: nat, hi: nat)
    requires lo <= a <= hi && lo <= b <= hi
    ensures lo * 256 <= Weigh(a, b, f) <= hi * 256
  {
    MulMonotone(lo, a, 256 - f);
    MulMonotone(lo, b, f);
    MulMonotone(a, hi, 256 - f);
    MulMonotone(b, hi, f);
    assert lo * (256 - f) + lo * f == lo * 256;
    assert hi * (256 - f) + hi * f == hi * 256;
  }

  lemma WeighSame(a: nat, f: byte)
    ensures Weigh(a, a, f) == a * 256
  {
    assert a * (256 - f) + a * f == a * 256;
  }

  /** A mix lies between the least and the greatest of the four values, so it never leaves its channel. */
  lemma MixBetween(c00: byte, c01: byte, c10: byte, c11: byte, fx: byte, fy: byte, lo: byte, hi: byte)
    requires lo <= c00 <= hi && lo <= c01 <= hi && lo <= c10 <= hi && lo <= c11 <= hi
    ensures lo <= Mix(c00, c01, c10, c11, fx, fy) <= hi
  {
    WeighBetween(c00, c01, fx, lo, hi);
    WeighBetween(c10, c11, fx, lo, hi);
    WeighBetween(Weigh(c00, c01, fx), Weigh(c10, c11, fx), fy, lo * 256, hi * 256);
  }

  /** At an edge, where the neighbour is the pixel itself, the weight towards it does not matter. */
  lemma MixEdgeX(c0: byte, c1: byte, fx: byte, fy: byte)
    ensures Mix(c0, c0, c1, c1, fx, fy) == Mix(c0, c0, c1, c1, 0, fy)
  {
    WeighSame(c0, fx);
    WeighSame(c0, 0);
    WeighSame(c1, fx);
    WeighSame(c1, 0);
  }

  lemma MixEdgeY(c0: byte, c1: byte, fx: byte, fy: byte)
    ensures Mix(c0, c1, c0, c1, fx, fy) == Mix(c0, c1, c0, c1, fx, 0)
  {
    WeighSame(Weigh(c0, c1, fx), fy);
    WeighSame(Weigh(c0, c1, fx), 0);
  }

  /** With no weight towards the right, the right does not matter. */
  lemma MixLeft(c00: byte, c01: byte, c10: byte, c11: byte, fy: byte)
    ensures Mix(c00, c01, c10, c11, 0, fy) == Mix(c00, c00, c10, c10, 0, fy)
  {
  }

  lemma MixNone(c00: byte, c01: byte, c10: byte, c11: byte)
    ensures Mix(c00, c01, c10, c11, 0, 0) == c00
  {
  }

  function Mixed(p00: u32, p01: u32, p10: u32, p11: u32, fx: byte, fy: byte, k: nat): byte
    requires k < 3
  {
    MixBetween(Channel(p00, k), Channel(p01, k), Channel(p10, k), Channel(p11, k), fx, fy, 0, 255);
    Mix(Channel(p00, k), Channel(p01, k), Channel(p10, k), Channel(p11, k), fx, fy)
  }

  function Rgb(r: byte, g: byte, b: byte): (c: u32)
    ensures c < 0x100_0000
    ensures Channel(c, 0) == r && Channel(c, 1) == g && Channel(c, 2) == b
  {
    r * 0x1_0000 + g * 0x100 + b
  }
}
