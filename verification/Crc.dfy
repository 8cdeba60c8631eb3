/**
 The CRC-32 of crates/nanochrono-baremetal/src/crashdump.rs (IEEE 802.3, section
 3.2.9, reflected), and what it detects: any error confined to 32 consecutive bits.
 */
module Crc {
  import opened Arithmetic
  import opened Bytes

  const START: bv32 := 0xFFFF_FFFF

  // ------------------------------------------------------- register algebra

  /** One step of the register; 0xEDB88320 is the generator polynomial, lowest coefficient first. */
  function Shift(s: bv32): bv32 {
    if s & 1 != 0 then (s >> 1) ^ 0xEDB8_8320 else s >> 1
  }

  function Xor(a: bv32, b: bv32): bv32 { a ^ b }

  function Not(a: bv32): bv32 { !a }

  predicate Odd(w: bv32) { w & 1 != 0 }

  function Down(w: bv32): bv32 { w >> 1 }

  function Bit(b: bool): bv32 { if b then 1 else 0 }

  /** The inverse of `Shift`. */
  function Unshift(s: bv32): bv32 {
    if s & 0x8000_0000 != 0 then ((s ^ 0xEDB8_8320) << 1) | 1 else s << 1
  }

  lemma UnshiftShift(s: bv32)
    ensures Unshift(Shift(s)) == s
  {
  }

  /** Only the lowest bit of what is added takes part in a step; the rest moves down beside it. */
  lemma AddThenShift(s: bv32, w: bv32)
    ensures Shift(Xor(s, w)) == Xor(Shift(Xor(s, Bit(Odd(w)))), Down(w))
  {
    hide Shift, Bit, Odd;
    LowBit(w);
    AddLowBit(s, w);
  }

  lemma LowBit(w: bv32)
    ensures Bit(Odd(w)) == w & 1
  {
  }

  lemma AddLowBit(s: bv32, w: bv32)
    ensures Shift(s ^ w) == Shift(s ^ (w & 1)) ^ (w >> 1)
  {
  }

  lemma XorZero(a: bv32)
    ensures Xor(a, 0) == a
  {
  }

  lemma XorCancels(s: bv32, a: bv32, b: bv32)
    requires Xor(s, a) == Xor(s, b)
    ensures a == b
  {
  }

  // --------------------------------------------------------------- the code

  function Shifts(s: bv32, n: nat): bv32
    decreases n
  {
    if n == 0 then s else Shifts(Shift(s), n - 1)
  }

  /** The register after `bytes`, from `s`. */
  function Register(s: bv32, bytes: seq<bv8>): bv32
    decreases |bytes|
  {
    if bytes == [] then s else Register(Shifts(Xor(s, bytes[0] as bv32), 8), bytes[1..])
  }

  function Crc32(bytes: seq<bv8>): bv32 {
    Not(Register(START, bytes))
  }

  /** The number that the low `n` bits of a register spell. */
  function Number(w: bv32, n: nat): (r: nat)
    ensures r < Pow2(n)
    decreases n
  {
    if n == 0 then 0 else (if Odd(w) then 1 else 0) + 2 * Number(Down(w), n - 1)
  }

  lemma {:induction false} NumberInjective(a: bv32, b: bv32, n: nat)
    requires Number(a, n) == Number(b, n) && Above(a, n) == Above(b, n)
    ensures a == b
    decreases n
  {
    hide Odd, Down;
    if n > 0 {
      NumberInjective(Down(a), Down(b), n - 1);
      SameHalves(a, b);
    }
  }

  lemma SameHalves(a: bv32, b: bv32)
    requires Odd(a) == Odd(b) && Down(a) == Down(b)
    ensures a == b
  {
    hide Odd, Down, Bit, Twice, Xor;
    LowBit(a);
    LowBit(b);
    Halves(a);
    Halves(b);
  }

  lemma Halves(w: bv32)
    ensures w == Xor(Twice(Down(w)), w & 1)
  {
  }

  function Twice(w: bv32): bv32 { w << 1 }

  lemma Pow32()
    ensures Pow2(32) == 0x1_0000_0000
  {
    assert Pow2(8) == 0x100 && Pow2(16) == 0x1_0000 && Pow2(24) == 0x100_0000;
  }

  /** The register as a 32-bit number. */
  function Value(w: bv32): (r: nat)
    ensures r < 0x1_0000_0000
  {
    Pow32();
    Number(w, 32)
  }

  lemma ValueInjective(a: bv32, b: bv32)
    requires Value(a) == Value(b)
    ensures a == b
  {
    var n := 32;
    NumbersInjective(a, b, n);
  }

  lemma NumbersInjective(a: bv32, b: bv32, n: nat)
    requires n == 32 && Number(a, n) == Number(b, n)
    ensures a == b
  {
    hide Number, Above;
    NothingAboveWord(a);
    NothingAboveWord(b);
    NumberInjective(a, b, n);
  }

  // ---------------------------------------------------------- bytes as bits

  function Eight(a: bool, b: bool, c: bool, d: bool, e: bool, f: bool, g: bool, h: bool): bv8 {
    (if a then 0x01 else 0) | (if b then 0x02 else 0) | (if c then 0x04 else 0) | (if d then 0x08 else 0)
    | (if e then 0x10 else 0) | (if f then 0x20 else 0) | (if g then 0x40 else 0) | (if h then 0x80 else 0)
  }

  lemma EightBits(a: bool, b: bool, c: bool, d: bool, e: bool, f: bool, g: bool, h: bool)
    ensures (var w := Eight(a, b, c, d, e, f, g, h);
      (w & 0x01 != 0) == a && (w & 0x02 != 0) == b && (w & 0x04 != 0) == c && (w & 0x08 != 0) == d
      && (w & 0x10 != 0) == e && (w & 0x20 != 0) == f && (w & 0x40 != 0) == g && (w & 0x80 != 0) == h)
  {
  }

  /** Binary digit `i` of a number. */
  predicate Digit(n: nat, i: nat)
    decreases i
  {
    if i == 0 then n % 2 == 1 else Digit(n / 2, i - 1)
  }
  /** A number below 256 as a byte. */
  function Octet(n: nat): bv8 {
    Eight(Digit(n, 0), Digit(n, 1), Digit(n, 2), Digit(n, 3), Digit(n, 4), Digit(n, 5), Digit(n, 6), Digit(n, 7))
  }

  lemma {:induction false} SameDigits(m: nat, n: nat, k: nat)
    requires m < Pow2(k) && n < Pow2(k) && forall i: nat | i < k :: Digit(m, i) == Digit(n, i)
    ensures m == n
    decreases k
  {
    if k > 0 {
      forall i: nat | i < k - 1
        ensures Digit(m / 2, i) == Digit(n / 2, i)
      {
        assert Digit(m, i + 1) == Digit(n, i + 1);
      }
      SameDigits(m / 2, n / 2, k - 1);
      assert Digit(m, 0) == Digit(n, 0);
    }
  }

  lemma EqualEights(a: bool, b: bool, c: bool, d: bool, e: bool, f: bool, g: bool, h: bool,
                    a': bool, b': bool, c': bool, d': bool, e': bool, f': bool, g': bool, h': bool)
    requires Eight(a, b, c, d, e, f, g, h) == Eight(a', b', c', d', e', f', g', h')
    ensures a == a' && b == b' && c == c' && d == d' && e == e' && f == f' && g == g' && h == h'
  {
    hide Eight;
    EightBits(a, b, c, d, e, f, g, h);
    EightBits(a', b', c', d', e', f', g', h');
  }

  lemma OctetInjective(m: nat, n: nat)
    requires m < 0x100 && n < 0x100 && Octet(m) == Octet(n)
    ensures m == n
  {
    hide Eight, Digit;
    EqualEights(Digit(m, 0), Digit(m, 1), Digit(m, 2), Digit(m, 3), Digit(m, 4), Digit(m, 5), Digit(m, 6), Digit(m, 7),
                Digit(n, 0), Digit(n, 1), Digit(n, 2), Digit(n, 3), Digit(n, 4), Digit(n, 5), Digit(n, 6), Digit(n, 7));
    SameOctets(m, n, 8);
  }

  lemma SameOctets(m: nat, n: nat, k: nat)
    requires k == 8 && m < 0x100 && n < 0x100
    requires Digit(m, 0) == Digit(n, 0) && Digit(m, 1) == Digit(n, 1) && Digit(m, 2) == Digit(n, 2) && Digit(m, 3) == Digit(n, 3)
    requires Digit(m, 4) == Digit(n, 4) && Digit(m, 5) == Digit(n, 5) && Digit(m, 6) == Digit(n, 6) && Digit(m, 7) == Digit(n, 7)
    ensures m == n
  {
    hide Digit;
    assert Pow2(8) == 0x100;
    SameDigits(m, n, k);
  }

  method StepByte(s: bv32) returns (crc: bv32)
    ensures crc == Shifts(s, 8)
  {
    crc := s;
    for k := 0 to 8
      invariant Shifts(crc, 8 - k) == Shifts(s, 8)
    {
      hide Shift;
      ShiftIs(crc);
      crc := if crc & 1 != 0 then (crc >> 1) ^ 0xEDB8_8320 else crc >> 1;
    }
  }

  lemma ShiftIs(s: bv32)
    ensures Shift(s) == if s & 1 != 0 then (s >> 1) ^ 0xEDB8_8320 else s >> 1
  {
  }

  method ComputeCrc32(bytes: seq<bv8>) returns (crc: bv32)
    ensures crc == Crc32(bytes)
  {
    hide Shifts, Xor;
    crc := START;
    for i := 0 to |bytes|
      invariant Register(crc, bytes[i..]) == Register(START, bytes)
    {
      assert bytes[i..][1..] == bytes[i + 1..];
      crc := StepByte(Xor(crc, bytes[i] as bv32));
    }
    crc := Not(crc);
  }

  // ------------------------------------------------------------- bit by bit

  /** The register after a string of bits: each is added to the low end, then the register steps. */
  function Feed(s: bv32, bits: seq<bool>): bv32
    decreases |bits|
  {
    if bits == [] then s else Feed(Shift(Xor(s, Bit(bits[0]))), bits[1..])
  }

  /** The `n` lowest bits of `w`, the least significant first, and what is above them moved down. */
  function Low(w: bv32, n: nat): (r: seq<bool>)
    ensures |r| == n
    decreases n
  {
    if n == 0 then [] else [Odd(w)] + Low(Down(w), n - 1)
  }

  function Above(w: bv32, n: nat): bv32
    decreases n
  {
    if n == 0 then w else Above(Down(w), n - 1)
  }

  function Bits(bytes: seq<bv8>): (r: seq<bool>)
    ensures |r| == 8 * |bytes|
  {
    if bytes == [] then [] else Low(bytes[0] as bv32, 8) + Bits(bytes[1..])
  }

  lemma {:induction false} FeedAppend(s: bv32, a: seq<bool>, b: seq<bool>)
    ensures Feed(s, a + b) == Feed(Feed(s, a), b)
    decreases |a|
  {
    hide Shift, Bit, Xor;
    if a == [] {
      assert a + b == b;
    } else {
      assert (a + b)[0] == a[0] && (a + b)[1..] == a[1..] + b;
      FeedAppend(Shift(Xor(s, Bit(a[0]))), a[1..], b);
    }
  }

  /** A word added at once is its low bits added one before each step; the rest is left over. */
  lemma {:induction false} WordIsBits(s: bv32, w: bv32, n: nat)
    ensures Shifts(Xor(s, w), n) == Xor(Feed(s, Low(w, n)), Above(w, n))
    decreases n
  {
    hide Shift, Bit, Xor, Odd, Down;
    if n > 0 {
      AddThenShift(s, w);
      WordIsBits(Shift(Xor(s, Bit(Odd(w)))), Down(w), n - 1);
      assert Low(w, n)[1..] == Low(Down(w), n - 1);
    }
  }

  lemma AboveByte(w: bv32)
    ensures Above(w, 8) == w >> 8
  {
  }

  lemma {:induction false} AboveAbove(w: bv32, m: nat, n: nat)
    ensures Above(w, m + n) == Above(Above(w, m), n)
    decreases m
  {
    hide Down;
    if m > 0 {
      AboveAbove(Down(w), m - 1, n);
    }
  }

  lemma NothingAboveByte(b: bv8)
    ensures Above(b as bv32, 8) == 0
  {
    hide Above;
    AboveByte(b as bv32);
  }

  /** Nothing of a 32-bit word is left after 32 steps. */
  lemma NothingAboveWord(w: bv32)
    ensures Above(w, 32) == 0
  {
    hide Above;
    AboveAbove(w, 8, 24);
    AboveAbove(w >> 8, 8, 16);
    AboveAbove((w >> 8) >> 8, 8, 8);
    AboveByte(w);
    AboveByte(w >> 8);
    AboveByte((w >> 8) >> 8);
    AboveByte(((w >> 8) >> 8) >> 8);
  }

  /** Reading whole bytes is reading their bits. */
  lemma {:induction false} RegisterIsFeed(s: bv32, bytes: seq<bv8>)
    ensures Register(s, bytes) == Feed(s, Bits(bytes))
    decreases |bytes|
  {
    hide Shifts, Xor, Low, Above;
    if bytes != [] {
      var w := bytes[0] as bv32;
      WordIsBits(s, w, 8);
      NothingAboveByte(bytes[0]);
      XorZero(Feed(s, Low(w, 8)));
      FeedAppend(s, Low(w, 8), Bits(bytes[1..]));
      RegisterIsFeed(Shifts(Xor(s, w), 8), bytes[1..]);
    }
  }

  // ---------------------------------------------------------------- bursts

  lemma {:induction false} ShiftsInjective(a: bv32, b: bv32, n: nat)
    requires Shifts(a, n) == Shifts(b, n)
    ensures a == b
    decreases n
  {
    hide Shift, Unshift;
    if n > 0 {
      ShiftsInjective(Shift(a), Shift(b), n - 1);
      UnshiftShift(a);
      UnshiftShift(b);
    }
  }

  lemma {:induction false} FeedInjective(s: bv32, t: bv32, bits: seq<bool>)
    requires Feed(s, bits) == Feed(t, bits)
    ensures s == t
    decreases |bits|
  {
    hide Shift, Unshift, Xor, Bit;
    if bits != [] {
      var b := Bit(bits[0]);
      FeedInjective(Shift(Xor(s, b)), Shift(Xor(t, b)), bits[1..]);
      UnshiftShift(Xor(s, b));
      UnshiftShift(Xor(t, b));
      XorCommutes(s, b);
      XorCommutes(t, b);
      XorCancels(b, s, t);
    }
  }

  lemma XorCommutes(a: bv32, b: bv32)
    ensures Xor(a, b) == Xor(b, a)
  {
  }

  // ---- every string of at most 32 bits is the low end of a word

  /** The word with bit `n` set alone. */
  function Single(n: nat): bv32
    requires n < 32
    decreases 32 - n
  {
    if n == 31 then 0x8000_0000 else Down(Single(n + 1))
  }

  lemma {:induction false} SingleBits(n: nat)
    requires n < 32
    ensures Low(Single(n), n) == Falses(n) && Above(Single(n), n) == 1
    decreases 32 - n
  {
    if n == 31 {
      TopBit();
    } else {
      hide Down, Odd;
      SingleBits(n + 1);
      assert Low(Single(n), n) == Low(Single(n + 1), n + 1)[1..];
      assert Falses(n) == Falses(n + 1)[1..];
    }
  }

  lemma TopBit()
    ensures Low(0x8000_0000, 31) == Falses(31) && Above(0x8000_0000, 31) == 1
  {
    hide Low, Above;
    LowAbove(0x8000_0000, 8, 23);
    LowAbove(0x80_0000, 8, 15);
    LowAbove(0x8000, 8, 7);
    TopBitSteps();
    assert Falses(8) + (Falses(8) + (Falses(8) + Falses(7))) == Falses(31);
  }

  lemma TopBitSteps()
    ensures Low(0x8000_0000, 8) == Falses(8) && Above(0x8000_0000, 8) == 0x80_0000
    ensures Low(0x80_0000, 8) == Falses(8) && Above(0x80_0000, 8) == 0x8000
    ensures Low(0x8000, 8) == Falses(8) && Above(0x8000, 8) == 0x80
    ensures Low(0x80, 7) == Falses(7) && Above(0x80, 7) == 1
  {
    hide Low, Above;
    AboveByte(0x8000_0000);
    AboveByte(0x80_0000);
    AboveByte(0x8000);
    NoneLow(0x8000_0000);
    NoneLow(0x80_0000);
    NoneLow(0x8000);
    SevenDown(0x80);
  }

  lemma NoneLow(w: bv32)
    requires w & 0xFF == 0
    ensures Low(w, 8) == Falses(8)
  {
    var (a, b, c, d) := (Down(w), Down(Down(w)), Down(Down(Down(w))), Down(Down(Down(Down(w)))));
    assert Low(w, 8) == [Odd(w), Odd(a), Odd(b), Odd(c), Odd(d), Odd(Down(d)), Odd(Down(Down(d))),
                         Odd(Down(Down(Down(d))))];
  }

  lemma SevenDown(w: bv32)
    requires w == 0x80
    ensures Low(w, 7) == Falses(7) && Above(w, 7) == 1
  {
    var (a, b, c, d) := (Down(w), Down(Down(w)), Down(Down(Down(w))), Down(Down(Down(Down(w)))));
    assert Low(w, 7) == [Odd(w), Odd(a), Odd(b), Odd(c), Odd(d), Odd(Down(d)), Odd(Down(Down(d)))];
  }

  lemma LowNone(w: bv32)
    ensures Low(w, 0) == [] && Above(w, 0) == w
  {
  }

  lemma LowStep(w: bv32, n: nat)
    requires n > 0
    ensures Low(w, n) == [Odd(w)] + Low(Down(w), n - 1) && Above(w, n) == Above(Down(w), n - 1)
  {
  }

  lemma {:induction false} LowAbove(w: bv32, m: nat, n: nat)
    ensures Low(w, m + n) == Low(w, m) + Low(Above(w, m), n) && Above(w, m + n) == Above(Above(w, m), n)
    decreases m
  {
    hide Down, Odd, Low, Above;
    if m > 0 {
      var down := Down(w);
      LowAbove(down, m - 1, n);
      LowStep(w, m);
      LowStep(w, m + n);
      assert [Odd(w)] + (Low(down, m - 1) + Low(Above(down, m - 1), n)) == [Odd(w)] + Low(down, m - 1) + Low(Above(w, m), n);
    } else {
      LowNone(w);
      assert Low(w, 0) + Low(w, n) == Low(w, n);
    }
  }

  lemma {:induction false} XorBits(w: bv32, p: bv32, n: nat)
    requires Low(p, n) == Falses(n)
    ensures Low(Xor(w, p), n) == Low(w, n) && Above(Xor(w, p), n) == Xor(Above(w, n), Above(p, n))
    decreases n
  {
    hide Xor, Odd, Down;
    if n > 0 {
      XorLow(w, p);
      assert Low(p, n)[0] == Odd(p) && Low(p, n)[1..] == Low(Down(p), n - 1);
      assert Falses(n)[1..] == Falses(n - 1);
      XorBits(Down(w), Down(p), n - 1);
    }
  }

  lemma XorLow(w: bv32, p: bv32)
    ensures Odd(Xor(w, p)) == (Odd(w) != Odd(p)) && Down(Xor(w, p)) == Xor(Down(w), Down(p))
  {
  }

  lemma {:induction false} LowSnoc(w: bv32, n: nat)
    ensures Low(w, n + 1) == Low(w, n) + [Odd(Above(w, n))] && Above(w, n + 1) == Down(Above(w, n))
    decreases n
  {
    hide Odd, Down;
    if n > 0 {
      LowSnoc(Down(w), n - 1);
    }
  }

  /** The word with these low bits and nothing above them. */
  function Word(bits: seq<bool>): bv32
    requires |bits| <= 32
  {
    if bits == [] then 0
    else
      var n := |bits| - 1;
      Xor(Word(bits[..n]), if bits[n] then Single(n) else 0)
  }

  lemma {:induction false} WordBits(bits: seq<bool>)
    requires |bits| <= 32
    ensures Low(Word(bits), |bits|) == bits && Above(Word(bits), |bits|) == 0
  {
    hide Xor, Odd, Down, Single;
    if bits != [] {
      var n := |bits| - 1;
      var w := Word(bits[..n]);
      WordBits(bits[..n]);
      LowSnoc(Word(bits), n);
      SmallWords();
      if bits[n] {
        SingleBits(n);
        XorBits(w, Single(n), n);
      } else {
        XorZero(w);
      }
      assert bits == bits[..n] + [bits[n]];
    }
  }

  lemma SmallWords()
    ensures Odd(1) && !Odd(0) && Down(1) == 0 && Down(0) == 0 && Xor(0, 1) == 1
  {
  }

  /** 32 bits added one by one move the register exactly as their word added at once. */
  lemma FeedIsWord(s: bv32, bits: seq<bool>)
    requires |bits| == 32
    ensures Feed(s, bits) == Shifts(Xor(s, Word(bits)), 32)
  {
    hide Xor, Shifts, Feed, Low, Above, Word;
    WordBits(bits);
    WordIsBits(s, Word(bits), 32);
    XorZero(Feed(s, bits));
  }

  lemma {:induction false} WindowInjective(s: bv32, u: seq<bool>, v: seq<bool>)
    requires |u| == |v| <= 32 && Feed(s, u) == Feed(s, v)
    ensures u == v
  {
    hide Xor, Shifts, Feed, Low, Above, Word;
    var pad := Falses(32 - |u|);
    FeedAppend(s, u, pad);
    FeedAppend(s, v, pad);
    FeedIsWord(s, u + pad);
    FeedIsWord(s, v + pad);
    ShiftsInjective(Xor(s, Word(u + pad)), Xor(s, Word(v + pad)), 32);
    XorCancels(s, Word(u + pad), Word(v + pad));
    WordBits(u + pad);
    WordBits(v + pad);
    assert u == (u + pad)[..|u|] && v == (v + pad)[..|v|];
  }

  // ----------------------------------------------------------- main results

  /** `a` and `b` differ nowhere but in the 32 bits from bit `at` on. */
  ghost predicate SameOutside(a: seq<bool>, b: seq<bool>, at: nat) {
    |a| == |b| && forall i | 0 <= i < |a| && !(at <= i < at + 32) :: a[i] == b[i]
  }

  lemma WindowDetected(s: bv32, a: seq<bool>, b: seq<bool>, at: nat)
    requires SameOutside(a, b, at) && Feed(s, a) == Feed(s, b)
    ensures a == b
  {
    hide Feed;
    var lo := if at <= |a| then at else |a|;
    var hi := if at + 32 <= |a| then at + 32 else |a|;
    var head, tail := a[..lo], a[hi..];
    assert b[..lo] == head && b[hi..] == tail;
    var u, v := a[lo..hi], b[lo..hi];
    assert a == head + (u + tail) && b == head + (v + tail);
    FeedAppend(s, head, u + tail);
    FeedAppend(s, head, v + tail);
    FeedAppend(Feed(s, head), u, tail);
    FeedAppend(Feed(s, head), v, tail);
    FeedInjective(Feed(Feed(s, head), u), Feed(Feed(s, head), v), tail);
    WindowInjective(Feed(s, head), u, v);
  }

  lemma {:induction false} BitsInjective(x: seq<bv8>, y: seq<bv8>)
    requires |x| == |y| && Bits(x) == Bits(y)
    ensures x == y
  {
    hide Low;
    if x != [] {
      assert Bits(x)[..8] == Low(x[0] as bv32, 8) && Bits(x)[8..] == Bits(x[1..]);
      assert Bits(y)[..8] == Low(y[0] as bv32, 8) && Bits(y)[8..] == Bits(y[1..]);
      LowInjective(x[0], y[0]);
      BitsInjective(x[1..], y[1..]);
    }
  }

  lemma LowInjective(a: bv8, b: bv8)
    requires Low(a as bv32, 8) == Low(b as bv32, 8)
    ensures a == b
  {
    hide Low, Xor, Shifts, Feed;
    WordIsBits(0, a as bv32, 8);
    WordIsBits(0, b as bv32, 8);
    NothingAboveByte(a);
    NothingAboveByte(b);
    ShiftsInjective(Xor(0, a as bv32), Xor(0, b as bv32), 8);
    XorCancels(0, a as bv32, b as bv32);
  }

  /** Two different inputs of one length that differ only within 32 consecutive bits have different CRCs. */
  lemma BurstDetected(x: seq<bv8>, y: seq<bv8>, at: nat)
    requires x != y && SameOutside(Bits(x), Bits(y), at)
    ensures Crc32(x) != Crc32(y)
  {
    hide Feed, Bits, Register, Not;
    if Crc32(x) == Crc32(y) {
      NotCancels(Register(START, x), Register(START, y));
      RegisterIsFeed(START, x);
      RegisterIsFeed(START, y);
      WindowDetected(START, Bits(x), Bits(y), at);
      BitsLength(x);
      BitsLength(y);
      BitsInjective(x, y);
    }
  }

  lemma BitsLength(x: seq<bv8>)
    ensures |Bits(x)| == 8 * |x|
  {
  }

  lemma NotCancels(a: bv32, b: bv32)
    requires Not(a) == Not(b)
    ensures a == b
  {
  }

  lemma {:induction false} BitsAppend(x: seq<bv8>, y: seq<bv8>)
    ensures Bits(x + y) == Bits(x) + Bits(y)
    decreases |x|
  {
    hide Low;
    if x == [] {
      assert x + y == y;
    } else {
      assert (x + y)[0] == x[0] && (x + y)[1..] == x[1..] + y;
      BitsAppend(x[1..], y);
    }
  }

  /** In particular, any damage within four consecutive bytes is detected. */
  lemma FourBytesDetected(head: seq<bv8>, u: seq<bv8>, v: seq<bv8>, tail: seq<bv8>)
    requires |u| == |v| <= 4 && u != v
    ensures Crc32(head + u + tail) != Crc32(head + v + tail)
  {
    hide Bits, Crc32;
    var x, y := head + u + tail, head + v + tail;
    assert x[|head|..|head| + |u|] == u && y[|head|..|head| + |v|] == v;
    BitsAppend(head + u, tail);
    BitsAppend(head + v, tail);
    BitsAppend(head, u);
    BitsAppend(head, v);
    BitsLength(head);
    BitsLength(u);
    BitsLength(v);
    BurstDetected(x, y, 8 * |head|);
  }

  /** 32 bits is the limit: these two differ within 33 bits and have one CRC. */
  lemma BurstOf33Missed()
    ensures Crc32([0, 0, 0, 0, 0]) == Crc32([0x41, 0x06, 0x71, 0xDB, 0x01])
  {
  }
}
