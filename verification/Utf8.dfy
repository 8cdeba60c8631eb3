/**
 `bytes.decode("utf-8", errors="replace")` as Python does it: well-formed sequences
 (table 3-7 of the Unicode Standard) become their character, and each longest
 beginning of one that is cut short becomes one replacement character.
 */
module Utf8 {
  import opened Bytes

  const REPLACEMENT := '\U{FFFD}'

  /** How many continuation bytes a first byte asks for. */
  function Wanted(first: byte): (n: nat)
    ensures n <= 3
  {
    if 0xC2 <= first <= 0xDF then 1 else if 0xE0 <= first <= 0xEF then 2 else if 0xF0 <= first <= 0xF4 then 3 else 0
  }

  /** `b[k]` can stand in place `k` of the sequence `b[0]` begins. */
  predicate Continues(b: seq<byte>, k: nat)
    requires b != []
  {
    k < |b| && 0x80 <= b[k] <= 0xBF
    && (k == 1 ==>
          (b[0] == 0xE0 ==> b[1] >= 0xA0) && (b[0] == 0xED ==> b[1] <= 0x9F)
          && (b[0] == 0xF0 ==> b[1] >= 0x90) && (b[0] == 0xF4 ==> b[1] <= 0x8F))
  }

  /** How many of the wanted continuation bytes are there. */
  function Given(b: seq<byte>): (n: nat)
    requires b != []
    ensures n <= Wanted(b[0]) && n < |b|
  {
    var wanted := Wanted(b[0]);
    if wanted < 1 || !Continues(b, 1) then 0
    else if wanted < 2 || !Continues(b, 2) then 1
    else if wanted < 3 || !Continues(b, 3) then 2
    else 3
  }

  /** The first character, and how many bytes it takes. */
  function First(b: seq<byte>): (r: (char, nat))
    requires b != []
    ensures 0 < r.1 <= |b|
  {
    var (wanted, given) := (Wanted(b[0]), Given(b));
    if b[0] < 0x80 then (b[0] as char, 1)
    else if wanted == 0 || given < wanted then (REPLACEMENT, given + 1)
    else if wanted == 1 then ((Low(b[0], 0x20) * 0x40 + Low(b[1], 0x40)) as char, 2)
    else if wanted == 2 then ((Low(b[0], 0x10) * 0x1000 + Low(b[1], 0x40) * 0x40 + Low(b[2], 0x40)) as char, 3)
    else ((Low(b[0], 8) * 0x4_0000 + Low(b[1], 0x40) * 0x1000 + Low(b[2], 0x40) * 0x40 + Low(b[3], 0x40)) as char, 4)
  }

  /** The bits of `b` below `unit`. */
  function Low(b: byte, unit: nat): (r: nat)
    requires unit > 0
    ensures r < unit
  {
    b % unit
  }

  function Decode(b: seq<byte>): string
    decreases |b|
  {
    if b == [] then "" else [First(b).0] + Decode(b[First(b).1..])
  }

  /** A byte below 128 ends whatever stands before it, complete or not. */
  lemma GivenAppend(a: seq<byte>, b: seq<byte>)
    requires a != [] && (b == [] || b[0] < 0x80)
    ensures Given(a + b) == Given(a)
  {
    assert forall k: nat | k < |a| :: (a + b)[k] == a[k];
    assert b != [] ==> (a + b)[|a|] == b[0];
    assert Continues(a + b, 1) == Continues(a, 1) || |a| < 1;
    assert Continues(a + b, 2) == Continues(a, 2) || |a| < 2;
    assert Continues(a + b, 3) == Continues(a, 3) || |a| < 3;
  }

  lemma FirstAppend(a: seq<byte>, b: seq<byte>)
    requires a != [] && (b == [] || b[0] < 0x80)
    ensures First(a + b) == First(a)
  {
    hide Given, Low;
    GivenAppend(a, b);
    assert forall k: nat | k < |a| :: (a + b)[k] == a[k];
  }

  lemma FirstAscii(s: string, rest: seq<byte>)
    requires IsAscii(s) && s != ""
    ensures First(Ascii(s) + rest) == (s[0], 1)
  {
    hide Given, Low;
  }

  /** Text before a byte below 128 and text from it on are decoded on their own. */
  lemma {:induction false} DecodeAppend(a: seq<byte>, b: seq<byte>)
    requires b == [] || b[0] < 0x80
    ensures Decode(a + b) == Decode(a) + Decode(b)
    decreases |a|
  {
    if a == [] {
      assert a + b == b;
    } else {
      hide First;
      FirstAppend(a, b);
      var n := First(a).1;
      assert (a + b)[n..] == a[n..] + b;
      DecodeAppend(a[n..], b);
    }
  }

  predicate IsAscii(s: string) {
    forall i | 0 <= i < |s| :: s[i] < '\U{80}'
  }

  lemma RestIsAscii(s: string)
    requires IsAscii(s) && s != ""
    ensures IsAscii(s[1..])
  {
  }

  /** ASCII text comes back as it is, whatever follows it. */
  lemma {:induction false} DecodeAscii(s: string, rest: seq<byte>)
    requires IsAscii(s)
    ensures Decode(Ascii(s) + rest) == s + Decode(rest)
  {
    var b := Ascii(s) + rest;
    if s == "" {
      assert b == rest;
    } else {
      hide First, IsAscii;
      FirstAscii(s, rest);
      RestIsAscii(s);
      assert b[1..] == Ascii(s[1..]) + rest;
      DecodeAscii(s[1..], rest);
    }
  }
}
