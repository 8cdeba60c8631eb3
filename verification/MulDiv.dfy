/**
 `mul_div` of kernel/linux/nanochrono.rs: a saturating `a * b / c` by restoring
 division, whose shifted remainder needs a sixty-fifth bit.
 */
module MulDiv {
  import opened Arithmetic
  import opened Bytes

  const WORD := 0x1_0000_0000_0000_0000
  const TOP := 0x8000_0000_0000_0000

  lemma Pow64()
    ensures Pow2(63) == TOP && Pow2(64) == WORD
  {
    assert Pow2(7) == 128;
    assert Pow2(8) == 256;
    PowSum(8, 8);
    PowSum(16, 16);
    PowSum(32, 32);
  }

  lemma {:induction false} PowSum(m: nat, n: nat)
    ensures Pow2(m + n) == Pow2(m) * Pow2(n)
  {
    if m > 0 {
      PowSum(m - 1, n);
      assert Pow2(m + n) == 2 * (Pow2(m - 1) * Pow2(n)) == (2 * Pow2(m - 1)) * Pow2(n);
    }
  }

  /**
   After `i` steps: the product is the part divided so far, whose quotient and remainder these are,
   followed by `rest`, the `64 - i` bits still to bring down, kept at the top of `low`.
   */
  ghost predicate Divided(product: nat, c: nat, i: nat, quotient: nat, rem: nat, low: nat, rest: nat) {
    i <= 64
    && product == (quotient * c + rem) * Pow2(64 - i) + rest
    && rem < c && quotient < Pow2(i)
    && rest < Pow2(64 - i) && low == rest * Pow2(i)
  }

  lemma Regroup(q: nat, c: nat, rem: nat, bit: nat)
    ensures 2 * (q * c + rem) + bit == (2 * q) * c + (2 * rem + bit)
    ensures 2 * (q * c + rem) + bit == (2 * q + 1) * c + (2 * rem + bit - c)
  {
    assert (2 * q) * c == 2 * (q * c);
    assert (2 * q + 1) * c == (2 * q) * c + c;
  }

  lemma Distribute(whole: nat, half: nat, bit: nat)
    ensures whole * (2 * half) + bit * half == (2 * whole + bit) * half
  {
  }

  lemma Scaled(a: nat, b: nat, scale: nat)
    requires a < b && scale > 0
    ensures a * scale < b * scale
  {
  }

  lemma Shifted(rest: nat, scale: nat)
    ensures rest * (2 * scale) == 2 * (rest * scale)
  {
  }

  lemma SplitScaled(rest: nat, half: nat, scale: nat)
    requires rest >= half
    ensures rest * scale == half * scale + (rest - half) * scale
  {
  }

  /** The top bit of `low` is the next bit of the product; the bits below it stay at the top of the word. */
  lemma NextBit(low: nat, rest: nat, i: nat) returns (rest': nat)
    requires i < 64 && rest < Pow2(64 - i) && low == rest * Pow2(i)
    ensures low < WORD && rest' < Pow2(63 - i) && 2 * low % WORD == rest' * Pow2(i + 1)
    ensures low / TOP <= 1 && rest == low / TOP * Pow2(63 - i) + rest'
  {
    var half, scale := Pow2(63 - i), Pow2(i);
    PowSum(63 - i, i);
    Pow64();
    rest' := if rest < half then rest else rest - half;
    Scaled(rest', half, scale);
    Shifted(rest', scale);
    if rest >= half {
      SplitScaled(rest, half, scale);
    }
  }

  lemma Below(q: nat, n: nat)
    requires q < Pow2(n) && n < 64
    ensures 2 * q + 1 < Pow2(n + 1) <= WORD
  {
    Pow64();
    PowMonotone(n + 1, 64);
  }

  lemma {:induction false} PowMonotone(m: nat, n: nat)
    requires m <= n
    ensures Pow2(m) <= Pow2(n)
    decreases n
  {
    if m < n {
      PowMonotone(m, n - 1);
    }
  }

  /** One turn of the loop, on unbounded numbers: double, bring a bit down, subtract if it goes. */
  lemma DivideStep(product: nat, c: nat, i: nat, q: nat, rem: nat, low: nat, rest: nat) returns (rest': nat)
    requires i < 64 && Divided(product, c, i, q, rem, low, rest)
    ensures low < WORD && low / TOP <= 1 && 2 * q + 1 < WORD
    ensures var twice := 2 * rem + low / TOP;
      if twice >= c then Divided(product, c, i + 1, 2 * q + 1, twice - c, 2 * low % WORD, rest')
      else Divided(product, c, i + 1, 2 * q, twice, 2 * low % WORD, rest')
  {
    rest' := NextBit(low, rest, i);
    Distribute(q * c + rem, Pow2(63 - i), low / TOP);
    Regroup(q, c, rem, low / TOP);
    Below(q, i);
  }

  /** The quotient of a product whose division has ended. */
  lemma DivisionEnds(product: nat, c: nat, q: nat, rem: nat, low: nat, rest: nat)
    requires Divided(product, c, 64, q, rem, low, rest)
    ensures product / c == q && q < WORD
  {
    Pow64();
    DivIs(product, c, q);
  }

  lemma Saturates(product: nat, c: nat)
    requires c > 0
    ensures product / WORD >= c <==> product / c > U64_MAX
  {
    DivAtLeast(product, WORD, c);
    DivAtLeast(product, c, WORD);
  }

  function Exact(a: nat, b: nat, c: nat): nat
    requires c > 0
  {
    a * b / c
  }

  function Capped(n: nat): u64 { if n <= U64_MAX then n else U64_MAX }

  /** `a * b / c` rounded down, saturating; zero for a zero divisor. */
  method MulDiv(a: u64, b: u64, c: u64) returns (quotient: u64)
    ensures c == 0 ==> quotient == 0
    ensures c > 0 ==> quotient == Capped(Exact(a, b, c))
  {
    if c == 0 {
      return 0;
    }
    var product: nat := a * b;
    var rem: nat, low: nat := product / WORD, product % WORD;
    Saturates(product, c);
    if rem >= c {
      return U64_MAX;
    }
    Pow64();
    quotient := 0;
    ghost var rest := low;
    for i := 0 to 64
      invariant Divided(product, c, i, quotient, rem, low, rest)
    {
      hide Divided;
      rest := DivideStep(product, c, i, quotient, rem, low, rest);
      rem, low, quotient := Turn(c, rem, low, quotient);
    }
    DivisionEnds(product, c, quotient, rem, low, rest);
  }

  /** The turn as the code makes it, in 64-bit words: `carry` is the bit the shifted remainder loses. */
  method Turn(c: u64, rem: u64, low: u64, quotient: u64) returns (rem': u64, low': u64, quotient': u64)
    requires rem < c && 2 * quotient + 1 < WORD
    ensures low' == 2 * low % WORD
    ensures var twice := 2 * rem + low / TOP;
      (rem', quotient') == if twice >= c then (twice - c, 2 * quotient + 1) else (twice, 2 * quotient)
  {
    var carry := rem / TOP;
    rem' := 2 * rem % WORD + low / TOP;
    low' := 2 * low % WORD;
    quotient' := 2 * quotient % WORD;
    if carry != 0 || rem' >= c {
      rem' := (rem' - c) % WORD;
      quotient' := quotient' + 1;
    }
  }

  // ---------------------------------------------------------------- snapshot

  /** What one perf event reports: its count, and how long it was enabled and running. */
  datatype Reading = Reading(value: u64, enabledNs: u64, runningNs: u64)

  function Total(readings: seq<Reading>, pick: Reading -> u64): nat {
    if readings == [] then 0 else Total(readings[..|readings| - 1], pick) + pick(readings[|readings| - 1])
  }

  /** The sums over all events, saturating. */
  method Sum(readings: seq<Reading>) returns (raw: u64, enabledNs: u64, runningNs: u64)
    ensures raw == Capped(Total(readings, (r: Reading) => r.value))
    ensures enabledNs == Capped(Total(readings, (r: Reading) => r.enabledNs))
    ensures runningNs == Capped(Total(readings, (r: Reading) => r.runningNs))
  {
    raw, enabledNs, runningNs := 0, 0, 0;
    for i := 0 to |readings|
      invariant raw == Capped(Total(readings[..i], (r: Reading) => r.value))
      invariant enabledNs == Capped(Total(readings[..i], (r: Reading) => r.enabledNs))
      invariant runningNs == Capped(Total(readings[..i], (r: Reading) => r.runningNs))
    {
      assert readings[..i + 1][..i] == readings[..i];
      raw := Capped(raw + readings[i].value);
      enabledNs := Capped(enabledNs + readings[i].enabledNs);
      runningNs := Capped(runningNs + readings[i].runningNs);
    }
    assert readings[..|readings|] == readings;
  }

  /** The count corrected for the time the events were enabled but not running; never corrected down. */
  method Scale(raw: u64, enabledNs: u64, runningNs: u64) returns (scaled: u64)
    ensures runningNs == 0 ==> scaled == 0
    ensures runningNs >= enabledNs && runningNs > 0 ==> scaled == raw
    ensures 0 < runningNs < enabledNs ==> scaled == Capped(Exact(raw, enabledNs, runningNs)) && scaled >= raw
  {
    hide Exact;
    if runningNs == 0 {
      return 0;
    }
    if runningNs >= enabledNs {
      return raw;
    }
    scaled := MulDiv(raw, enabledNs, runningNs);
    NotBelow(raw, enabledNs, runningNs);
  }

  lemma NotBelow(raw: nat, enabledNs: nat, runningNs: nat)
    requires 0 < runningNs < enabledNs
    ensures Exact(raw, enabledNs, runningNs) >= raw
  {
    MulMonotone(runningNs, enabledNs, raw);
    Commute(enabledNs, raw);
    Commute(runningNs, raw);
    DivAtLeast(raw * enabledNs, runningNs, raw);
  }

  lemma Commute(a: nat, b: nat)
    ensures a * b == b * a
  {
  }
}
