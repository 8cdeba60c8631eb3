/** Machine words as bounded integers, and the byte orders the formats use. */
module Bytes {
  type byte = b: int | 0 <= b < 0x100
  type u16 = x: int | 0 <= x < 0x1_0000
  type u32 = x: int | 0 <= x < 0x1_0000_0000
  type u64 = x: int | 0 <= x < 0x1_0000_0000_0000_0000

  type i64 = x: int | -0x8000_0000_0000_0000 <= x < 0x8000_0000_0000_0000

  const U32_MAX := 0xFFFF_FFFF
  const U64_MAX := 0xFFFF_FFFF_FFFF_FFFF

  /** The 64-bit word for a number, in two's complement. */
  function Wrap64(a: int): u64 {
    a % 0x1_0000_0000_0000_0000
  }

  function FromBe32(b: seq<byte>): u32
    requires |b| == 4
  {
    (((b[0] as int * 0x100) + b[1]) * 0x100 + b[2]) * 0x100 + b[3]
  }

  lemma Be32Exists(n: u32) returns (r: seq<byte>)
    ensures |r| == 4 && FromBe32(r) == n
  {
    var hi := n / 0x100;
    var mid := hi / 0x100;
    r := [mid / 0x100, mid % 0x100, hi % 0x100, n % 0x100];
  }

  /** The four bytes, most significant first, that read as `n`. */
  ghost function ToBe32(n: u32): (r: seq<byte>)
    ensures |r| == 4 && FromBe32(r) == n
  {
    assert exists r: seq<byte> :: |r| == 4 && FromBe32(r) == n by {
      var w := Be32Exists(n);
    }
    var r: seq<byte> :| |r| == 4 && FromBe32(r) == n;
    r
  }

  /** The bytes of an ASCII string. */
  function Ascii(s: string): seq<byte> {
    seq(|s|, i requires 0 <= i < |s| => s[i] as int % 0x100)
  }

  // ---------------------------------------------------------- little endian

  /** `n` in `k` bytes, least significant first; what does not fit is dropped. */
  function Le(n: nat, k: nat): (r: seq<byte>)
    ensures |r| == k
    decreases k
  {
    if k == 0 then [] else [n % 0x100] + Le(n / 0x100, k - 1)
  }

  function FromLe(b: seq<byte>): nat {
    if b == [] then 0 else b[0] + 0x100 * FromLe(b[1..])
  }

  function Pow256(k: nat): nat {
    if k == 0 then 1 else 0x100 * Pow256(k - 1)
  }

  lemma {:induction false} FromLeLe(n: nat, k: nat)
    requires n < Pow256(k)
    ensures FromLe(Le(n, k)) == n
    decreases k
  {
    if k > 0 {
      assert Le(n, k)[1..] == Le(n / 0x100, k - 1);
      FromLeLe(n / 0x100, k - 1);
    }
  }

  lemma Pow256s()
    ensures Pow256(2) == 0x1_0000 && Pow256(4) == 0x1_0000_0000 && Pow256(8) == 0x1_0000_0000_0000_0000
  {
  }

  function Zeros(n: nat): (r: seq<byte>)
    ensures |r| == n && forall i | 0 <= i < n :: r[i] == 0
  {
    seq(n, _ => 0)
  }

  function Falses(n: nat): (r: seq<bool>)
    ensures |r| == n && forall i | 0 <= i < n :: !r[i]
  {
    seq(n, _ => false)
  }

  predicate Distinct<T(==)>(s: seq<T>) {
    forall i, j | 0 <= i < j < |s| :: s[i] != s[j]
  }

  // ------------------------------------------------------------------ slices

  /** `b` stands in `s` at `at`. */
  predicate StandsAt(s: seq<byte>, at: nat, b: seq<byte>) {
    at + |b| <= |s| && s[at..at + |b|] == b
  }

  /** The number in the `n` bytes at `at`. */
  function Field(data: seq<byte>, at: nat, n: nat): nat
    requires at + n <= |data|
  {
    FromLe(data[at..at + n])
  }

  /** `s` with `bytes` written over it at `at`. */
  function Patch(s: seq<byte>, at: nat, bytes: seq<byte>): (r: seq<byte>)
    requires at + |bytes| <= |s|
    ensures |r| == |s|
  {
    s[..at] + bytes + s[at + |bytes|..]
  }

  lemma SliceOfSlice(d: seq<byte>, from: nat, to: nat, a: nat, b: nat)
    requires from <= to <= |d| && a <= b <= to - from
    ensures d[from..to][a..b] == d[from + a..from + b]
  {
    var s, t := d[from..to][a..b], d[from + a..from + b];
    assert |s| == |t| && forall i | 0 <= i < b - a :: s[i] == d[from + a + i] == t[i];
  }

  lemma SliceInside(a: seq<byte>, b: seq<byte>, c: seq<byte>, i: nat, j: nat)
    requires i <= j <= |b|
    ensures (a + b + c)[|a| + i..|a| + j] == b[i..j]
  {
  }

  lemma LeReads(d: seq<byte>, at: nat, n: nat, k: nat)
    requires at + k <= |d| && d[at..at + k] == Le(n, k) && n < Pow256(k)
    ensures Field(d, at, k) == n
  {
    hide Le, FromLe, Pow256;
    FromLeLe(n, k);
  }

  lemma PatchAt(s: seq<byte>, at: nat, bytes: seq<byte>, a: nat)
    requires at + |bytes| <= |s| && a < |s|
    ensures Patch(s, at, bytes)[a] == if at <= a < at + |bytes| then bytes[a - at] else s[a]
  {
  }
}
