/**
 Blending at 16 bits per pixel (crates/nanochrono-baremetal/src/draw.rs `blend`,
 framebuffer.rs `store` and `get`): which coverages lead to the same stored pixel
 although reading the pixel under them back has lost its low bits.
 */
module Highcolour {
  import opened Pixels

  // The bits of a colour that a 16-bit pixel keeps.
  const KEPT: Colour := 0x00F8_FCF8

  /** Coverages at which the lost bits never reach the bits kept. */
  predicate Hides(alpha: bv8) {
    alpha == 0 || alpha == 240 || alpha == 254 || alpha == 255
  }

  // ------------------------------------------------------- from bits to numbers

  lemma High5(w: nat)
    requires w <= 255
    ensures (w as bv32) <= 255 && (w as bv32) >> 3 == (w / 8) as bv32
  {
  }

  lemma High6(w: nat)
    requires w <= 255
    ensures (w as bv32) <= 255 && (w as bv32) >> 2 == (w / 4) as bv32
  {
  }

  lemma SameHigh5(w: nat, v: nat)
    requires w <= 255 && v <= 255 && w / 8 == v / 8
    ensures (w as bv32) <= 255 && (v as bv32) <= 255 && (w as bv32) >> 3 == (v as bv32) >> 3
  {
    High5(w);
    High5(v);
  }

  lemma SameHigh6(w: nat, v: nat)
    requires w <= 255 && v <= 255 && w / 4 == v / 4
    ensures (w as bv32) <= 255 && (v as bv32) <= 255 && (w as bv32) >> 2 == (v as bv32) >> 2
  {
    High6(w);
    High6(v);
  }

  lemma WithoutLow3(x: bv32)
    requires x <= 255
    ensures (x & 0xF8) as nat == x as nat / 8 * 8
  {
  }

  lemma WithoutLow2(x: bv32)
    requires x <= 255
    ensures (x & 0xFC) as nat == x as nat / 4 * 4
  {
  }

  lemma KeptRed(c: Colour)
    ensures ChannelAt(c & KEPT, 16) == ChannelAt(c, 16) / 8 * 8
  {
    assert ((c & KEPT) >> 16) & 0xFF == ((c >> 16) & 0xFF) & 0xF8;
    WithoutLow3((c >> 16) & 0xFF);
  }

  lemma KeptGreen(c: Colour)
    ensures ChannelAt(c & KEPT, 8) == ChannelAt(c, 8) / 4 * 4
  {
    assert ((c & KEPT) >> 8) & 0xFF == ((c >> 8) & 0xFF) & 0xFC;
    WithoutLow2((c >> 8) & 0xFF);
  }

  lemma KeptBlue(c: Colour)
    ensures ChannelAt(c & KEPT, 0) == ChannelAt(c, 0) / 8 * 8
  {
    assert ((c & KEPT) >> 0) & 0xFF == ((c >> 0) & 0xFF) & 0xF8;
    WithoutLow3((c >> 0) & 0xFF);
  }

  /** Three channels in their places. */
  function Join(r: nat, g: nat, b: nat): Colour
    requires r <= 255 && g <= 255 && b <= 255
  {
    JoinBits(r as bv32, g as bv32, b as bv32)
  }

  function JoinBits(r: bv32, g: bv32, b: bv32): Colour {
    (r << 16) | (g << 8) | (b << 0)
  }

  lemma BlendJoins(bg: Colour, fg: Colour, alpha: bv8)
    requires alpha != 0 && alpha != 255
    ensures Blend(bg, fg, alpha)
         == Join(Weigh(ChannelAt(bg, 16), ChannelAt(fg, 16), alpha as nat), Weigh(ChannelAt(bg, 8), ChannelAt(fg, 8), alpha as nat),
                 Weigh(ChannelAt(bg, 0), ChannelAt(fg, 0), alpha as nat))
  {
    hide Weigh, ChannelAt;
  }

  lemma PackHigh(r: bv32, g: bv32, b: bv32, r': bv32, g': bv32, b': bv32)
    requires r <= 255 && g <= 255 && b <= 255 && r' <= 255 && g' <= 255 && b' <= 255
    requires r >> 3 == r' >> 3 && g >> 2 == g' >> 2 && b >> 3 == b' >> 3
    ensures Pack565(JoinBits(r, g, b)) == Pack565(JoinBits(r', g', b'))
  {
  }

  /** Of three channels packed only the high bits matter. */
  lemma JoinHigh(r: nat, g: nat, b: nat, r': nat, g': nat, b': nat)
    requires r <= 255 && g <= 255 && b <= 255 && r' <= 255 && g' <= 255 && b' <= 255
    requires r / 8 == r' / 8 && g / 4 == g' / 4 && b / 8 == b' / 8
    ensures Pack565(Join(r, g, b)) == Pack565(Join(r', g', b'))
  {
    hide Pack565, JoinBits;
    SameHigh5(r, r');
    SameHigh6(g, g');
    SameHigh5(b, b');
    PackHigh(r as bv32, g as bv32, b as bv32, r' as bv32, g' as bv32, b' as bv32);
  }

  // --------------------------------------------- coverages that hide the loss

  /** `n / 255` in units is `q`. */
  lemma Quotient(n: nat, unit: nat, q: nat)
    requires unit == 8 || unit == 4
    requires q * (255 * unit) <= n < q * (255 * unit) + 255 * unit
    ensures n / 255 / unit == q
  {
  }

  lemma Weigh240(b: nat, f: nat)
    requires b <= 255 && f <= 255
    ensures Weigh(b, f, 240) / 8 == (2 * f + b / 8) / 17
    ensures Weigh(b, f, 240) / 4 == (4 * f + b / 4) / 17
  {
    var (n, k, l) := (f * 240 + b * 15, 2 * f + b / 8, 4 * f + b / 4);
    assert 120 * k <= n < 120 * k + 120 && 60 * l <= n < 60 * l + 60;
    Quotient(n, 8, k / 17);
    Quotient(n, 4, l / 17);
  }

  lemma Weigh254(b: nat, f: nat)
    requires b <= 255 && f <= 255
    ensures Weigh(b, f, 254) == if b < f then f - 1 else if f == 0 && b == 255 then 1 else f
  {
  }

  lemma HiddenWeigh(b: nat, f: nat, a: nat)
    requires b <= 255 && f <= 255 && (a == 240 || a == 254)
    ensures Weigh(b, f, a) / 8 == Weigh(b / 8 * 8, f, a) / 8
    ensures Weigh(b, f, a) / 4 == Weigh(b / 4 * 4, f, a) / 4
  {
    hide Weigh;
    if a == 240 {
      Weigh240(b, f);
      Weigh240(b / 8 * 8, f);
      Weigh240(b / 4 * 4, f);
    } else {
      Weigh254(b, f);
      Weigh254(b / 8 * 8, f);
      Weigh254(b / 4 * 4, f);
    }
  }

  lemma StoredKept(c: Colour)
    ensures Encode(c & KEPT, 2) == Encode(c, 2)
  {
  }

  lemma StoredPacked(c: Colour, d: Colour)
    requires Pack565(c) == Pack565(d)
    ensures Encode(c, 2) == Encode(d, 2)
  {
    hide Pack565;
  }

  /** A blend over the colour read back is stored as the blend over the colour itself. */
  lemma HiddenBlend(bg: Colour, fg: Colour, alpha: bv8)
    requires Hides(alpha)
    ensures Encode(Blend(bg & KEPT, fg, alpha), 2) == Encode(Blend(bg, fg, alpha), 2)
  {
    hide Blend, Encode, Pack565;
    BlendEnds(bg, fg);
    BlendEnds(bg & KEPT, fg);
    if alpha == 0 {
      StoredKept(bg);
    } else if alpha == 240 {
      HiddenMix(bg, fg, alpha, 240);
    } else if alpha == 254 {
      HiddenMix(bg, fg, alpha, 254);
    }
  }

  lemma HiddenMix(bg: Colour, fg: Colour, alpha: bv8, a: nat)
    requires alpha != 0 && alpha != 255 && alpha as nat == a && (a == 240 || a == 254)
    ensures Encode(Blend(bg & KEPT, fg, alpha), 2) == Encode(Blend(bg, fg, alpha), 2)
  {
    hide Weigh, ChannelAt, Pack565, Blend, Encode, Join;
    var (r, g, b) := (ChannelAt(bg, 16), ChannelAt(bg, 8), ChannelAt(bg, 0));
    var (r', g', b') := (ChannelAt(fg, 16), ChannelAt(fg, 8), ChannelAt(fg, 0));
    KeptRed(bg);
    KeptGreen(bg);
    KeptBlue(bg);
    BlendJoins(bg, fg, alpha);
    BlendJoins(bg & KEPT, fg, alpha);
    HiddenWeigh(r, r', a);
    HiddenWeigh(g, g', a);
    HiddenWeigh(b, b', a);
    JoinHigh(Weigh(r / 8 * 8, r', a), Weigh(g / 4 * 4, g', a), Weigh(b / 8 * 8, b', a),
             Weigh(r, r', a), Weigh(g, g', a), Weigh(b, b', a));
    StoredPacked(Blend(bg & KEPT, fg, alpha), Blend(bg, fg, alpha));
  }

  // ------------------------------------------- coverages that bring it to light

  /** A blue that, under a blue of seven, is stored differently once its low bits are lost. */
  function Telling(a: nat): nat {
    if a <= 223 then 15 else if a <= 226 then 87 else if a <= 239 then 23 else if a <= 244 then 31
    else if a <= 247 then 39 else if a == 248 then 47 else if a == 249 then 55 else if a == 250 then 63
    else if a == 251 then 71 else if a == 252 then 95 else 135
  }

  // The mix on whose two sides the two results lie.
  function Between(a: nat): nat {
    if 224 <= a <= 226 then 16 else 8
  }

  lemma TellingWeigh(a: nat)
    requires 0 < a < 254 && a != 240
    ensures Telling(a) <= 255
    ensures Weigh(Telling(a) / 8 * 8, 7, a) < Between(a) <= Weigh(Telling(a), 7, a)
  {
    var (b, c) := (Telling(a), 255 - a);
    if 224 <= a <= 226 {
      assert 7 * a + 80 * c < 4080 <= 7 * a + 87 * c;
    } else {
      assert 7 * a + (b / 8 * 8) * c < 2040 <= 7 * a + b * c;
    }
  }

  /** That blue, as a colour. */
  function TellingColour(a: nat): (bg: Colour)
    requires 0 < a < 254 && a != 240
    ensures ChannelAt(bg, 16) == ChannelAt(bg, 8) == 0 && ChannelAt(bg, 0) == Telling(a)
  {
    Telling(a) as bv32
  }

  lemma Seven()
    ensures ChannelAt(7, 16) == ChannelAt(7, 8) == 0 && ChannelAt(7, 0) == 7
  {
  }

  lemma Below8(w: nat)
    requires w < 8
    ensures (w as bv32) < 8
  {
  }

  lemma From8(w: nat)
    requires 8 <= w <= 255
    ensures 8 <= (w as bv32) <= 255
  {
  }

  lemma Below16(w: nat)
    requires w < 16
    ensures (w as bv32) < 16
  {
  }

  lemma From16(w: nat)
    requires 16 <= w <= 255
    ensures 16 <= (w as bv32) <= 255
  {
  }

  lemma BlueTells(w: bv32, v: bv32)
    requires (w < 8 <= v <= 255) || (w < 16 <= v <= 255)
    ensures Encode(JoinBits(0, 0, w), 2) != Encode(JoinBits(0, 0, v), 2)
  {
    assert Encode(JoinBits(0, 0, w), 2)[0] != Encode(JoinBits(0, 0, v), 2)[0];
  }

  /** Two blues on different sides are stored differently. */
  lemma BluesApart(w: nat, a: nat, v: nat)
    requires w < Between(a) <= v <= 255
    ensures Encode(Join(0, 0, w), 2) != Encode(Join(0, 0, v), 2)
  {
    hide Encode, JoinBits;
    if 224 <= a <= 226 {
      Below16(w);
      From16(v);
    } else {
      Below8(w);
      From8(v);
    }
    BlueTells(w as bv32, v as bv32);
  }

  /** At every other coverage some blend over the colour read back is stored differently. */
  lemma TellingBlend(alpha: bv8, a: nat)
    requires !Hides(alpha) && a == alpha as nat && 0 < a < 254 && a != 240
    ensures Encode(Blend(TellingColour(a) & KEPT, 7, alpha), 2) != Encode(Blend(TellingColour(a), 7, alpha), 2)
  {
    hide Weigh, ChannelAt, Blend, Encode, TellingColour, Telling, Between, Join;
    var bg := TellingColour(a);
    TellingWeigh(a);
    BlueKept(bg, Telling(a));
    BlueMix(bg, Telling(a), alpha, a);
    BlueMix(bg & KEPT, Telling(a) / 8 * 8, alpha, a);
    BluesApart(Weigh(Telling(a) / 8 * 8, 7, a), a, Weigh(Telling(a), 7, a));
  }

  /** A pure blue under a blue of seven. */
  lemma BlueMix(c: Colour, b: nat, alpha: bv8, a: nat)
    requires alpha != 0 && alpha != 255 && a == alpha as nat && b <= 255
    requires ChannelAt(c, 16) == ChannelAt(c, 8) == 0 && ChannelAt(c, 0) == b
    ensures Blend(c, 7, alpha) == Join(0, 0, Weigh(b, 7, a))
  {
    hide Weigh, ChannelAt, Blend, Join;
    Seven();
    BlendJoins(c, 7, alpha);
    NothingMixed(a);
  }

  /** Reading it back takes its low bits. */
  lemma BlueKept(c: Colour, b: nat)
    requires ChannelAt(c, 16) == ChannelAt(c, 8) == 0 && ChannelAt(c, 0) == b
    ensures ChannelAt(c & KEPT, 16) == ChannelAt(c & KEPT, 8) == 0 && ChannelAt(c & KEPT, 0) == b / 8 * 8
  {
    hide ChannelAt;
    KeptRed(c);
    KeptGreen(c);
    KeptBlue(c);
  }

  lemma NothingMixed(a: nat)
    requires a <= 255
    ensures Weigh(0, 0, a) == 0
  {
  }

  lemma NotHiding(alpha: bv8)
    requires !Hides(alpha)
    ensures 0 < alpha as nat < 254 && alpha as nat != 240
  {
  }
}
