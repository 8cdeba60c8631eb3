/** Base64 as in section 4 of RFC 4648: three bytes to four letters, padded at the end. */
module Base64 {
  import Arithmetic
  import opened Bytes
  import opened Wrappers

  /** The letter for a 6-bit value. */
  function Letter(v: nat): char
    requires v < 64
  {
    if v < 26 then (0x41 + v) as char
    else if v < 52 then (0x61 + v - 26) as char
    else if v < 62 then (0x30 + v - 52) as char
    else if v == 62 then '+' else '/'
  }

  function Value(c: char): (v: Option<nat>)
    ensures v.Some? ==> v.value < 64
  {
    if 'A' <= c <= 'Z' then Some(c as int - 0x41)
    else if 'a' <= c <= 'z' then Some(c as int - 0x61 + 26)
    else if '0' <= c <= '9' then Some(c as int - 0x30 + 52)
    else if c == '+' then Some(62)
    else if c == '/' then Some(63)
    else None
  }

  /** A byte of the chunk, or zero behind its end. */
  function At(chunk: seq<byte>, i: nat): (b: nat)
    ensures b < 0x100
  {
    if i < |chunk| then chunk[i] else 0
  }

  /** The four letters for one to three bytes. */
  function Quad(chunk: seq<byte>): (q: string)
    requires 1 <= |chunk| <= 3
    ensures |q| == 4
  {
    var n := At(chunk, 0) * 0x1_0000 + At(chunk, 1) * 0x100 + At(chunk, 2);
    [Letter(n / 0x4_0000 % 64), Letter(n / 0x1000 % 64),
     if |chunk| > 1 then Letter(n / 0x40 % 64) else '=',
     if |chunk| > 2 then Letter(n % 64) else '=']
  }

  function Encode(bytes: seq<byte>): string {
    if bytes == [] then "" else if |bytes| <= 3 then Quad(bytes) else Quad(bytes[..3]) + Encode(bytes[3..])
  }

  /** The bytes of a quad; only the last one of a text may be padded. */
  function Unquad(q: string, last: bool): Option<seq<byte>>
    requires |q| == 4
  {
    var (a, b, c, d) := (Value(q[0]), Value(q[1]), Value(q[2]), Value(q[3]));
    if a.None? || b.None? then None
    else if last && q[2] == '=' && q[3] == '=' then Some([a.value * 4 + b.value / 16])
    else if c.None? then None
    else if last && q[3] == '=' then Some([a.value * 4 + b.value / 16, b.value % 16 * 16 + c.value / 4])
    else if d.None? then None
    else Some([a.value * 4 + b.value / 16, b.value % 16 * 16 + c.value / 4, c.value % 4 * 64 + d.value])
  }

  function Decode(s: string): Option<seq<byte>> {
    if s == "" then Some([])
    else if |s| < 4 then None
    else
      match (Unquad(s[..4], |s| == 4), Decode(s[4..]))
      case (Some(head), Some(rest)) => Some(head + rest)
      case _ => None
  }

  // ------------------------------------------------------------- round trip

  lemma LetterValue(v: nat)
    requires v < 64
    ensures Value(Letter(v)) == Some(v) && Letter(v) != '='
  {
  }

  lemma UnquadQuad(chunk: seq<byte>, last: bool)
    requires 1 <= |chunk| <= 3 && (last || |chunk| == 3)
    ensures Unquad(Quad(chunk), last) == Some(chunk)
  {
    hide Letter, Value, Quad;
    var b0, b1, b2 := At(chunk, 0), At(chunk, 1), At(chunk, 2);
    QuadIs(chunk);
    PadIsNoLetter();
    Octets(b0, b1, b2);
    LetterValue(b0 / 4);
    LetterValue(b0 % 4 * 16 + b1 / 16);
    LetterValue(b1 % 16 * 4 + b2 / 64);
    LetterValue(b2 % 64);
    if |chunk| == 1 {
      assert Unquad(Quad(chunk), last) == Some([b0]) && chunk == [b0];
    } else if |chunk| == 2 {
      assert Unquad(Quad(chunk), last) == Some([b0, b1]) && chunk == [b0, b1];
    } else {
      assert Unquad(Quad(chunk), last) == Some([b0, b1, b2]) && chunk == [b0, b1, b2];
    }
  }

  lemma QuadIs(chunk: seq<byte>)
    requires 1 <= |chunk| <= 3
    ensures (var (b0, b1, b2) := (At(chunk, 0), At(chunk, 1), At(chunk, 2));
      Quad(chunk) == [Letter(b0 / 4), Letter(b0 % 4 * 16 + b1 / 16),
                      if |chunk| > 1 then Letter(b1 % 16 * 4 + b2 / 64) else '=',
                      if |chunk| > 2 then Letter(b2 % 64) else '='])
  {
    hide Letter, At;
    Sextets(At(chunk, 0), At(chunk, 1), At(chunk, 2));
  }

  lemma PadIsNoLetter()
    ensures Value('=') == None
  {
  }

  lemma Sextets(b0: nat, b1: nat, b2: nat)
    requires b0 < 0x100 && b1 < 0x100 && b2 < 0x100
    ensures (var n := b0 * 0x1_0000 + b1 * 0x100 + b2;
      n / 0x4_0000 % 64 == b0 / 4 && n / 0x1000 % 64 == b0 % 4 * 16 + b1 / 16
      && n / 0x40 % 64 == b1 % 16 * 4 + b2 / 64 && n % 64 == b2 % 64)
  {
    Digits(b0 / 4, b0 % 4, b1 / 16, b1 % 16, b2 / 64, b2 % 64);
  }

  lemma Octets(b0: nat, b1: nat, b2: nat)
    requires b0 < 0x100 && b1 < 0x100 && b2 < 0x100
    ensures (var (a, b, c, d) := (b0 / 4, b0 % 4 * 16 + b1 / 16, b1 % 16 * 4 + b2 / 64, b2 % 64);
      a * 4 + b / 16 == b0 && b % 16 * 16 + c / 4 == b1 && c % 4 * 64 + d == b2)
  {
    assert (b0 % 4 * 16 + b1 / 16) / 16 == b0 % 4 && (b0 % 4 * 16 + b1 / 16) % 16 == b1 / 16;
    assert (b1 % 16 * 4 + b2 / 64) / 4 == b1 % 16 && (b1 % 16 * 4 + b2 / 64) % 4 == b2 / 64;
  }

  lemma Digits(a: nat, b: nat, c: nat, d: nat, e: nat, f: nat)
    requires a < 64 && b < 4 && c < 16 && d < 16 && e < 4 && f < 64
    ensures (var n := a * 0x4_0000 + b * 0x1_0000 + c * 0x1000 + d * 0x100 + e * 0x40 + f;
      n / 0x4_0000 % 64 == a && n / 0x1000 % 64 == b * 16 + c && n / 0x40 % 64 == d * 4 + e && n % 64 == f)
  {
    var x, y, z := b * 16 + c, d * 4 + e, a * 64 + b * 16 + c;
    var n := z * 0x1000 + y * 0x40 + f;
    Split(z * 64 + y, f);
    Split(z, y);
    Split(a, x);
    assert n == (z * 64 + y) * 64 + f;
    Arithmetic.DivIs(n, 0x1000, z);
    Arithmetic.DivIs(n, 0x4_0000, a);
  }

  lemma Split(q: nat, r: nat)
    requires r < 64
    ensures (q * 64 + r) / 64 == q && (q * 64 + r) % 64 == r
  {
  }

  /** Encoding loses nothing. */
  lemma {:induction false} DecodeEncode(bytes: seq<byte>)
    ensures Decode(Encode(bytes)) == Some(bytes)
  {
    hide Quad, Unquad;
    if bytes == [] {
    } else if |bytes| <= 3 {
      UnquadQuad(bytes, true);
      assert Quad(bytes)[..4] == Quad(bytes) && Quad(bytes)[4..] == "";
      assert bytes + [] == bytes;
    } else {
      var (q, rest) := (Quad(bytes[..3]), Encode(bytes[3..]));
      UnquadQuad(bytes[..3], |q + rest| == 4);
      assert (q + rest)[..4] == q && (q + rest)[4..] == rest;
      DecodeEncode(bytes[3..]);
      assert bytes == bytes[..3] + bytes[3..];
    }
  }

  /** The letters of an encoding: no white space, no dash. */
  predicate Plain(c: char) {
    c == '=' || Value(c).Some?
  }

  predicate AllPlain(s: string) {
    forall i | 0 <= i < |s| :: Plain(s[i])
  }

  lemma PlainAppend(a: string, b: string)
    requires AllPlain(a) && AllPlain(b)
    ensures AllPlain(a + b)
  {
    hide Plain;
  }

  lemma {:induction false} EncodeIsPlain(bytes: seq<byte>)
    ensures AllPlain(Encode(bytes))
  {
    hide Quad, Plain;
    if bytes == [] {
    } else if |bytes| <= 3 {
      QuadIsPlain(bytes);
    } else {
      QuadIsPlain(bytes[..3]);
      EncodeIsPlain(bytes[3..]);
      PlainAppend(Quad(bytes[..3]), Encode(bytes[3..]));
    }
  }

  lemma QuadIsPlain(chunk: seq<byte>)
    requires 1 <= |chunk| <= 3
    ensures AllPlain(Quad(chunk))
  {
    hide Letter, Value;
    var b0, b1, b2 := At(chunk, 0), At(chunk, 1), At(chunk, 2);
    var n := b0 * 0x1_0000 + b1 * 0x100 + b2;
    LetterValue(n / 0x4_0000 % 64);
    LetterValue(n / 0x1000 % 64);
    LetterValue(n / 0x40 % 64);
    LetterValue(n % 64);
  }

  /** The next three bytes, or the last one to three, add their quad. */
  lemma {:induction false} EncodeNext(bytes: seq<byte>, k: nat, chunk: seq<byte>)
    requires k % 3 == 0 && k <= |bytes| && 1 <= |chunk| <= 3
    ensures Encode(bytes[..k] + chunk) == Encode(bytes[..k]) + Quad(chunk)
    decreases k
  {
    hide Quad;
    var all := bytes[..k] + chunk;
    if k == 0 {
      assert all == chunk;
      assert |chunk| == 3 ==> chunk[..3] == chunk;
    } else {
      EncodeNext(bytes[3..], k - 3, chunk);
      assert bytes[3..][..k - 3] == bytes[..k][3..];
      assert all[..3] == bytes[..k][..3] && all[3..] == bytes[..k][3..] + chunk;
      if k == 3 {
        assert bytes[..k][..3] == bytes[..k];
      }
    }
  }

  lemma {:induction false} EncodeIsLonger(bytes: seq<byte>)
    ensures |Encode(bytes)| >= |bytes|
  {
    if |bytes| > 3 {
      EncodeIsLonger(bytes[3..]);
    }
  }
}
