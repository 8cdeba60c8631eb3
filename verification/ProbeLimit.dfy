/**
 The command machine of /proc/nanochrono (kernel/linux/nanochrono.rs): the probes
 that make a guest exit run once at load and then only when `reprobe` is written
 and the cooldown has passed. The clock is an input: each event carries the time
 it starts and the time its probes, if any, end.
 */
module ProbeLimit {
  import opened Arithmetic
  import opened Bytes

  const SECOND := 1_000_000_000
  const EINVAL := 22
  const EFAULT := 14
  const EAGAIN := 11
  const ENODEV := 19
  const ENOMEM := 12

  // ---------------------------------------------------------------- commands

  const REPROBE := Ascii("reprobe")
  const COOLDOWN := Ascii("cooldown=")
  const CYCLES := Ascii("cycles")
  const INSTR := Ascii("instr")
  const INSTRUCTIONS := Ascii("instructions")
  const ENABLE := Ascii("enable")
  const DISABLE := Ascii("disable")

  predicate Space(b: byte) {
    b == 0x0A || b == 0x0D || b == 0x20 || b == 0x09 || b == 0
  }

  function Lower(b: byte): byte {
    if 0x41 <= b <= 0x5A then b + 0x20 else b
  }

  /** What was written, in lower case and without white space. */
  function Word(buf: seq<byte>): (w: seq<byte>)
    ensures |w| <= |buf|
  {
    if buf == [] then []
    else
      var last := buf[|buf| - 1];
      Word(buf[..|buf| - 1]) + if Space(last) then [] else [Lower(last)]
  }

  predicate Digit(d: byte) { 0x30 <= d <= 0x39 }

  predicate Digits(value: seq<byte>) {
    forall i | 0 <= i < |value| :: Digit(value[i])
  }

  /** The number a string of decimal digits stands for. */
  function Decimal(value: seq<byte>): nat
    requires Digits(value)
  {
    if value == [] then 0 else Decimal(value[..|value| - 1]) * 10 + (value[|value| - 1] - 0x30)
  }

  datatype Command =
    | Reprobe
    | Cooldown(seconds: nat)
    | Count(cycles: bool)
    | Switch(on: bool)
    | Invalid

  function Parse(word: seq<byte>): (c: Command)
    ensures c.Cooldown? ==> c.seconds < 1_000_000
  {
    if word == REPROBE then Reprobe
    else if COOLDOWN <= word then
      var value := word[|COOLDOWN|..];
      if value == [] || |value| > 6 || !Digits(value) then Invalid
      else
        DecimalBound(value);
        Cooldown(Decimal(value))
    else if word == CYCLES || word == INSTR || word == INSTRUCTIONS then Count(word == CYCLES)
    else if word == ENABLE || word == DISABLE then Switch(word == ENABLE)
    else Invalid
  }

  function Pow10(n: nat): nat { if n == 0 then 1 else 10 * Pow10(n - 1) }

  lemma {:induction false} Decimals(value: seq<byte>)
    requires Digits(value)
    ensures Decimal(value) < Pow10(|value|)
  {
    if value != [] {
      Decimals(value[..|value| - 1]);
    }
  }

  lemma DecimalBound(value: seq<byte>)
    requires Digits(value) && |value| <= 6
    ensures Decimal(value) < 1_000_000
  {
    Decimals(value);
    Powers(|value|);
  }

  lemma {:induction false} Powers(n: nat)
    requires n <= 6
    ensures Pow10(n) <= 1_000_000
    decreases 6 - n
  {
    if n < 6 {
      Powers(n + 1);
    } else {
      assert Pow10(6) == 1_000_000;
    }
  }

  // ------------------------------------------------------------------- state

  /** The part of `State` the commands decide on or change. */
  datatype State = State(probes: u32, lastProbeNs: i64, cooldownS: u32, cycles: bool, enabled: bool)

  function SatSub(a: i64, b: i64): i64 {
    if a - b >= 0x8000_0000_0000_0000 then 0x7FFF_FFFF_FFFF_FFFF
    else if a - b < -0x8000_0000_0000_0000 then -0x8000_0000_0000_0000
    else a - b
  }

  /** The cooldown refuses a probe that would start now. */
  predicate TooSoon(s: State, now: i64) {
    s.cooldownS != 0 && SatSub(now, s.lastProbeNs) < s.cooldownS * SECOND
  }

  function Probed(s: State, end: i64): State {
    s.(probes := if s.probes < U32_MAX then s.probes + 1 else U32_MAX, lastProbeNs := end)
  }

  /** How creating the counters of a kind went: some, none on any CPU, or no room to keep them. */
  datatype Counters = Created | NoneAccepted | NoRoom

  /** A read or a write of the /proc entry, from `start` to `end`. */
  datatype Event =
    | Read(start: i64, end: i64)
    | Write(buf: seq<byte>, faults: bool, counters: Counters, start: i64, end: i64)
  {
    /** The command it carries, if the kernel accepts the buffer at all. */
    function Command(): Command {
      if Read? || |buf| == 0 || |buf| > 32 || faults then Invalid else Parse(Word(buf))
    }
  }

  predicate Probes(s: State, e: Event) {
    e.Command().Reprobe? && !TooSoon(s, e.start)
  }

  function Step(s: State, e: Event): State {
    match e.Command()
    case Reprobe => if TooSoon(s, e.start) then s else Probed(s, e.end)
    case Cooldown(seconds) => s.(cooldownS := seconds)
    case Count(cycles) => s.(cycles := cycles)
    case Switch(on) => s.(enabled := on)
    case Invalid => s
  }

  /** What a write returns: its length, or the first error that applies. */
  function Code(s: State, e: Event): int
    requires e.Write?
  {
    if !(1 <= |e.buf| <= 32) then -EINVAL
    else if e.faults then -EFAULT
    else
      match e.Command()
      case Reprobe => if TooSoon(s, e.start) then -EAGAIN else |e.buf|
      case Count(_) => if e.counters.Created? then |e.buf| else if e.counters.NoRoom? then -ENOMEM else -ENODEV
      case Invalid => -EINVAL
      case _ => |e.buf|
  }

  /**
   The code tells what happened: a refused probe is the only EAGAIN, a fault the only EFAULT, and a write that
   fails leaves the state alone, except that a failed `cycles` or `instr` has already chosen its kind.
   */
  lemma CodeTells(s: State, e: Event)
    requires e.Write?
    ensures Code(s, e) == -EAGAIN <==> e.Command().Reprobe? && TooSoon(s, e.start)
    ensures Code(s, e) == -EFAULT <==> 1 <= |e.buf| <= 32 && e.faults
    ensures Code(s, e) == -EINVAL <==> !(1 <= |e.buf| <= 32) || (!e.faults && Parse(Word(e.buf)).Invalid?)
    ensures Code(s, e) < 0 && !e.Command().Count? ==> Step(s, e) == s
    ensures Code(s, e) >= 0 ==> Code(s, e) == |e.buf|
    ensures Probes(s, e) <==> e.Command().Reprobe? && Code(s, e) >= 0
  {
    hide Word, Parse;
  }

  // ---------------------------------------------------------------- the code

  /** The module's `State` behind its lock. */
  class Module {
    var probes: u32
    var lastProbeNs: i64
    var cooldownS: u32
    var cycles: bool
    var enabled: bool

    ghost function Abstract(): State
      reads this
    {
      State(probes, lastProbeNs, cooldownS, cycles, enabled)
    }

    /** `init` probes once. */
    constructor (cooldown: u32, now: i64)
      ensures Abstract() == State(1, now, cooldown, true, true)
    {
      probes, lastProbeNs, cooldownS, cycles, enabled := 0, 0, cooldown, true, true;
      new;
      RunProbes(now);
    }

    method RunProbes(now: i64)
      modifies this
      ensures Abstract() == Probed(old(Abstract()), now)
    {
      probes := if probes < U32_MAX then probes + 1 else U32_MAX;
      lastProbeNs := now;
    }

    /** `write(2)`: the byte count, or a negative error number. */
    method ProcWrite(buf: seq<byte>, faults: bool, counters: Counters, start: i64, end: i64) returns (rc: int)
      modifies this
      ensures var e := Write(buf, faults, counters, start, end);
        Abstract() == Step(old(Abstract()), e) && rc == Code(old(Abstract()), e)
    {
      if |buf| == 0 || |buf| > 32 {
        return -EINVAL;
      }
      if faults {
        return -EFAULT;
      }
      var word := Squeeze(buf);
      var count := |buf|;
      if word == REPROBE {
        if cooldownS != 0 && SatSub(start, lastProbeNs) < cooldownS * SECOND {
          return -EAGAIN;
        }
        RunProbes(end);
        return count;
      } else if COOLDOWN <= word {
        var seconds := ParseSeconds(word[|COOLDOWN|..]);
        if seconds < 0 {
          return -EINVAL;
        }
        cooldownS := seconds;
        return count;
      } else if word == CYCLES || word == INSTR || word == INSTRUCTIONS {
        cycles := word == CYCLES;
        return if counters.Created? then count else if counters.NoRoom? then -ENOMEM else -ENODEV;
      } else if word == ENABLE || word == DISABLE {
        enabled := word == ENABLE;
        return count;
      }
      return -EINVAL;
    }
  }

  method Squeeze(buf: seq<byte>) returns (word: seq<byte>)
    ensures word == Word(buf)
  {
    word := [];
    for i := 0 to |buf|
      invariant word == Word(buf[..i])
    {
      assert buf[..i + 1][..i] == buf[..i];
      if !Space(buf[i]) {
        word := word + [Lower(buf[i])];
      }
    }
    assert buf[..|buf|] == buf;
  }

  /** The seconds a cooldown is set to, or a negative number when it is no number of up to six digits. */
  method ParseSeconds(value: seq<byte>) returns (seconds: int)
    ensures seconds >= 0 <==> value != [] && |value| <= 6 && Digits(value)
    ensures seconds >= 0 ==> seconds == Decimal(value) && seconds < 1_000_000
  {
    if value == [] || |value| > 6 {
      return -1;
    }
    seconds := 0;
    for i := 0 to |value|
      invariant Digits(value[..i]) && seconds == Decimal(value[..i])
    {
      if !Digit(value[i]) {
        return -1;
      }
      assert value[..i + 1][..i] == value[..i];
      seconds := seconds * 10 + (value[i] - 0x30);
    }
    assert value[..|value|] == value;
    DecimalBound(value);
  }

  // -------------------------------------------------------------------- runs

  /** The state before event `i` of a run. */
  function Before(s: State, events: seq<Event>, i: nat): State
    requires i <= |events|
  {
    if i == 0 then s else Step(Before(s, events, i - 1), events[i - 1])
  }

  predicate ProbesAt(s: State, events: seq<Event>, i: nat)
    requires i < |events|
  {
    Probes(Before(s, events, i), events[i])
  }

  /** The clock never goes back, within an event, between events, or behind the last probe. */
  ghost predicate Clocked(s: State, events: seq<Event>) {
    0 <= s.lastProbeNs
    && (forall i | 0 <= i < |events| :: events[i].start <= events[i].end && s.lastProbeNs <= events[i].start)
    && forall i, j | 0 <= i < j < |events| :: events[i].end <= events[j].start
  }

  /** The last probe on record ended no later than an event after it starts. */
  lemma {:induction false} LastProbeBefore(s: State, events: seq<Event>, i: nat)
    requires Clocked(s, events) && i < |events|
    ensures 0 <= Before(s, events, i).lastProbeNs <= events[i].start
  {
    if i > 0 {
      LastProbeBefore(s, events, i - 1);
    }
  }

  /** A probe stays on record until the next one. */
  lemma {:induction false} LastProbeAfter(s: State, events: seq<Event>, i: nat, j: nat)
    requires Clocked(s, events) && i < j <= |events| && ProbesAt(s, events, i)
    ensures Before(s, events, j).lastProbeNs >= events[i].end
    decreases j
  {
    if j > i + 1 {
      LastProbeAfter(s, events, i, j - 1);
    }
  }

  /**
   In every run, a probe that runs under a cooldown starts at least that long after every earlier probe
   of the run, and after the last one before it, has ended; nothing but an allowed `reprobe` runs one.
   */
  lemma ProbesAreSpaced(s: State, events: seq<Event>, i: nat, j: nat)
    requires Clocked(s, events) && i < j < |events| && ProbesAt(s, events, i) && ProbesAt(s, events, j)
    requires Before(s, events, j).cooldownS > 0
    ensures events[j].start - events[i].end >= Before(s, events, j).cooldownS * SECOND
  {
    LastProbeBefore(s, events, j);
    LastProbeAfter(s, events, i, j);
  }

  /** How many of the events from `i` to before `j` run the probes. */
  function Ran(s: State, events: seq<Event>, i: nat, j: nat): nat
    requires i <= j <= |events|
    decreases j
  {
    if i == j then 0 else Ran(s, events, i, j - 1) + if ProbesAt(s, events, j - 1) then 1 else 0
  }

  /** The cooldown is at least `c` seconds before every one of these events. */
  ghost predicate CooledDown(s: State, events: seq<Event>, i: nat, j: nat, c: nat)
    requires i <= j <= |events|
  {
    forall k | i <= k < j :: Before(s, events, k).cooldownS >= c
  }

  lemma SpacedBy(s: State, events: seq<Event>, i: nat, j: nat, gap: nat)
    requires Clocked(s, events) && i < j < |events| && ProbesAt(s, events, i) && ProbesAt(s, events, j)
    requires Before(s, events, j).cooldownS * SECOND >= gap > 0
    ensures events[j].start - events[i].start >= gap
  {
    ProbesAreSpaced(s, events, i, j);
  }

  lemma OneMore(n: int, gap: int)
    ensures n * gap + gap == (n + 1) * gap
  {
  }

  lemma {:induction false} RanSpan(s: State, events: seq<Event>, i: nat, j: nat, gap: nat) returns (first: nat, last: nat)
    requires Clocked(s, events) && i <= j <= |events| && gap > 0
    requires forall k | i <= k < j :: Before(s, events, k).cooldownS * SECOND >= gap
    requires Ran(s, events, i, j) > 0
    ensures i <= first <= last < j && ProbesAt(s, events, first) && ProbesAt(s, events, last)
    ensures events[last].start - events[first].start >= (Ran(s, events, i, j) - 1) * gap
    decreases j
  {
    hide Clocked, ProbesAt, Before;
    if ProbesAt(s, events, j - 1) {
      last := j - 1;
      if Ran(s, events, i, j - 1) == 0 {
        first := j - 1;
      } else {
        var before;
        first, before := RanSpan(s, events, i, j - 1, gap);
        SpacedBy(s, events, before, last, gap);
        OneMore(Ran(s, events, i, j) - 2, gap);
      }
    } else {
      first, last := RanSpan(s, events, i, j - 1, gap);
    }
  }

  /** While the cooldown is at least `c` seconds, a window of `t` seconds sees at most `1 + t / c` probes start. */
  lemma AtMostInWindow(s: State, events: seq<Event>, i: nat, j: nat, c: nat, t: nat)
    requires Clocked(s, events) && i <= j <= |events| && CooledDown(s, events, i, j, c) && c > 0
    requires forall a, b | i <= a < j && i <= b < j :: events[b].start - events[a].start <= t * SECOND
    ensures Ran(s, events, i, j) <= 1 + t / c
  {
    hide Clocked, Before;
    var n := Ran(s, events, i, j);
    if n > 1 {
      var first, last := RanSpan(s, events, i, j, c * SECOND);
      InSeconds(n - 1, c, t);
    } else {
      DivAtLeast(t, c, 0);
    }
  }

  lemma InSeconds(n: nat, c: nat, t: nat)
    requires c > 0 && n * (c * SECOND) <= t * SECOND
    ensures n <= t / c
  {
    assert n * (c * SECOND) == (n * c) * SECOND;
    DivAtLeast(t, c, n);
  }

  /** `hypercall_probes` counts the probes of the run exactly until it saturates. */
  lemma {:induction false} ProbesCounted(s: State, events: seq<Event>, j: nat)
    requires j <= |events|
    ensures Before(s, events, j).probes
         == if s.probes + Ran(s, events, 0, j) <= U32_MAX then s.probes + Ran(s, events, 0, j) else U32_MAX
  {
    if j > 0 {
      ProbesCounted(s, events, j - 1);
    }
  }
}
