/**
 Colours and their device formats (crates/nanochrono-baremetal/src/framebuffer.rs
 `store` and `get`, draw.rs `blend`). Device words are stored least significant
 byte first.
 */
module Pixels {
  import opened Arithmetic

  type Colour = bv32

  /** What `store` writes for `c`: 8:8:8:8, 8:8:8 or 5:6:5. */
  function Encode(c: Colour, bpp: nat): (r: seq<bv8>)
    requires 2 <= bpp <= 4
    ensures |r| == bpp
  {
    if bpp == 4 then
      [(c & 0xFF) as bv8, ((c >> 8) & 0xFF) as bv8, ((c >> 16) & 0xFF) as bv8, ((c >> 24) & 0xFF) as bv8]
    else if bpp == 3 then
      [(c & 0xFF) as bv8, ((c >> 8) & 0xFF) as bv8, ((c >> 16) & 0xFF) as bv8]
    else
      var packed := Pack565(c);
      [(packed & 0xFF) as bv8, ((packed >> 8) & 0xFF) as bv8]
  }

  function Pack565(c: Colour): bv16 {
    var r := (c >> 19) & 0x1F;
    var g := (c >> 10) & 0x3F;
    var b := (c >> 3) & 0x1F;
    (((r << 11) | (g << 5) | b) & 0xFFFF) as bv16
  }

  /** What `get` makes of the bytes of one device pixel. */
  function Decode(raw: seq<bv8>): Colour
    requires 2 <= |raw| <= 4
  {
    if |raw| == 4 then
      raw[0] as bv32 | (raw[1] as bv32 << 8) | (raw[2] as bv32 << 16) | (raw[3] as bv32 << 24)
    else if |raw| == 3 then
      raw[0] as bv32 | (raw[1] as bv32 << 8) | (raw[2] as bv32 << 16)
    else
      var packed := raw[0] as bv16 | (raw[1] as bv16 << 8);
      Unpack565(packed)
  }

  function Unpack565(packed: bv16): Colour {
    var r := ((packed >> 11) & 0x1F) as bv32;
    var g := ((packed >> 5) & 0x3F) as bv32;
    var b := (packed & 0x1F) as bv32;
    (r << 19) | (g << 10) | (b << 3)
  }

  // Reading back a stored pixel loses exactly the bits the format has no room for.

  lemma GetAfterStore32(c: Colour)
    ensures Decode(Encode(c, 4)) == c
  {
    Rejoin32(c);
  }

  lemma GetAfterStore24(c: Colour)
    ensures Decode(Encode(c, 3)) == c & 0x00FF_FFFF
  {
    Rejoin24(c);
  }

  lemma GetAfterStore16(c: Colour)
    ensures Decode(Encode(c, 2)) == c & 0x00F8_FCF8
  {
    hide Pack565, Unpack565;
    Rejoin16(Pack565(c));
    Repack565(c);
  }

  lemma Rejoin32(c: bv32)
    ensures ((c & 0xFF) as bv8) as bv32 | ((((c >> 8) & 0xFF) as bv8) as bv32 << 8)
          | ((((c >> 16) & 0xFF) as bv8) as bv32 << 16) | ((((c >> 24) & 0xFF) as bv8) as bv32 << 24) == c
  {
  }

  lemma Rejoin24(c: bv32)
    ensures ((c & 0xFF) as bv8) as bv32 | ((((c >> 8) & 0xFF) as bv8) as bv32 << 8)
          | ((((c >> 16) & 0xFF) as bv8) as bv32 << 16) == c & 0x00FF_FFFF
  {
  }

  lemma Rejoin16(p: bv16)
    ensures ((p & 0xFF) as bv8) as bv16 | ((((p >> 8) & 0xFF) as bv8) as bv16 << 8) == p
  {
  }

  lemma Repack565(c: Colour)
    ensures Unpack565(Pack565(c)) == c & 0x00F8_FCF8
  {
  }

  /** At 32 bits per pixel the device bytes are the colour. */
  lemma StoreAfterGet(raw: seq<bv8>)
    requires |raw| == 4
    ensures Encode(Decode(raw), 4) == raw
  {
  }

  /** `bg` and `fg` mixed by an 8-bit coverage, channel by channel. */
  function Blend(bg: Colour, fg: Colour, alpha: bv8): Colour {
    if alpha == 0 then bg
    else if alpha == 255 then fg
    else Mix(bg, fg, alpha, 16) | Mix(bg, fg, alpha, 8) | Mix(bg, fg, alpha, 0)
  }

  /** One channel of the mix, back in its place. The products stay far below 32 bits. */
  function Mix(bg: Colour, fg: Colour, alpha: bv8, shift: bv6): Colour
    requires shift <= 16
  {
    (Weigh(ChannelAt(bg, shift), ChannelAt(fg, shift), alpha as nat) as bv32) << shift
  }

  function Weigh(b: nat, f: nat, a: nat): (w: nat)
    requires b <= 255 && f <= 255 && a <= 255
    ensures w <= 255
  {
    WeighFits(b, f, a);
    (f * a + b * (255 - a)) / 255
  }

  lemma WeighFits(b: nat, f: nat, a: nat)
    requires b <= 255 && f <= 255 && a <= 255
    ensures 0 <= b * (255 - a) && (f * a + b * (255 - a)) / 255 <= 255
  {
    MulMonotone(f, 255, a);
    MulMonotone(b, 255, 255 - a);
  }

  function ChannelAt(c: Colour, shift: bv6): (r: nat)
    requires shift <= 16
    ensures r <= 255
  {
    ((c >> shift) & 0xFF) as nat
  }

  /** What a blend leaves in the low 24 bits depends on the low 24 bits only. */
  lemma BlendKeeps24(bg: Colour, fg: Colour, alpha: bv8)
    ensures Encode(Blend(bg & 0x00FF_FFFF, fg, alpha), 3) == Encode(Blend(bg, fg, alpha), 3)
  {
    hide Blend, Mix, Encode;
    if alpha == 0 {
      BlendEnds(bg, fg);
      BlendEnds(bg & 0x00FF_FFFF, fg);
      Low24(bg);
    } else if alpha == 255 {
      BlendEnds(bg, fg);
      BlendEnds(bg & 0x00FF_FFFF, fg);
    } else {
      LowMix(bg, fg, alpha, 16);
      LowMix(bg, fg, alpha, 8);
      LowMix(bg, fg, alpha, 0);
      SameMixes(bg & 0x00FF_FFFF, bg, fg, alpha);
    }
  }

  lemma BlendEnds(bg: Colour, fg: Colour)
    ensures Blend(bg, fg, 0) == bg && Blend(bg, fg, 255) == fg
  {
  }

  lemma SameMixes(a: Colour, b: Colour, fg: Colour, alpha: bv8)
    requires alpha != 0 && alpha != 255
    requires Mix(a, fg, alpha, 16) == Mix(b, fg, alpha, 16) && Mix(a, fg, alpha, 8) == Mix(b, fg, alpha, 8)
    requires Mix(a, fg, alpha, 0) == Mix(b, fg, alpha, 0)
    ensures Blend(a, fg, alpha) == Blend(b, fg, alpha)
  {
    hide Mix;
  }

  lemma Low24(c: Colour)
    ensures Encode(c & 0x00FF_FFFF, 3) == Encode(c, 3)
  {
  }

  lemma LowMix(bg: Colour, fg: Colour, alpha: bv8, shift: bv6)
    requires shift <= 16
    ensures Mix(bg & 0x00FF_FFFF, fg, alpha, shift) == Mix(bg, fg, alpha, shift)
  {
    hide ChannelAt, Weigh;
    LowChannel(bg, shift);
  }

  lemma LowChannel(c: Colour, shift: bv6)
    requires shift <= 16
    ensures ChannelAt(c & 0x00FF_FFFF, shift) == ChannelAt(c, shift)
  {
  }

  /** At 16 bits a pixel read back has lost its low bits, and a blend can carry the loss into those kept. */
  lemma MixedAt16()
    ensures Decode(Encode(7, 2)) == 0
    ensures Encode(Blend(7, 15, 32), 2) != Encode(Blend(0, 15, 32), 2)
  {
    GetAfterStore16(7);
    assert Blend(7, 15, 32) == 8;
    assert Blend(0, 15, 32) == 1;
    assert Encode(8, 2)[0] == 1 && Encode(1, 2)[0] == 0;
  }
}
