/**
 Finding a device's interrupt line by correlation
 (crates/nanochrono-baremetal/src/gpio.rs): four bits per candidate pad stand in
 for the whole history of labelled samples. Reading a pad is an oracle; a sample's
 bit mask is a sequence with one level per candidate.
 */
module Calibrations {
  import opened Wrappers
  import opened Bytes
  import opened PadMap

  const MAX_CANDIDATES := 32
  const NEEDED := 4

  const SEEN_BUSY_HIGH: bv8 := 1
  const SEEN_BUSY_LOW: bv8 := 2
  const SEEN_IDLE_HIGH: bv8 := 4
  const SEEN_IDLE_LOW: bv8 := 8

  // Bits of a pad's configuration word.
  const RXSTATE: bv32 := 0x2
  const TXDIS: bv32 := 0x100
  const RXDIS: bv32 := 0x200
  const PMODE: bv32 := 0x1C00
  const ABSENT: bv32 := 0xFFFF_FFFF

  type Pad = u32

  /** One labelled sample: the level of each candidate before a poll, and whether it found a report. */
  datatype Poll = Poll(levels: seq<bool>, hadReport: bool)

  type History = seq<Poll>

  ghost predicate Wide(h: History, count: nat) {
    forall i | 0 <= i < |h| :: |h[i].levels| == count
  }

  // ------------------------------------------------------------ candidates

  /** A pad present in GPIO mode with its receiver on and its transmitter off. */
  predicate IsInput(config: bv32) {
    config != ABSENT && config & PMODE == 0 && config & RXDIS == 0 && config & TXDIS != 0
  }

  predicate Level(config: bv32) {
    config & RXSTATE != 0
  }

  /** The pad at place `local` of community `c`, if it can be packed and is an input. */
  function InputAt(communities: seq<Community>, config: Pad -> bv32, c: nat, local: nat): Option<Pad>
    requires c < |communities|
  {
    match Pack(c, communities[c].padsAt + local * PAD_STRIDE)
    case None => None
    case Some(pad) => if IsInput(config(pad)) then Some(pad) else None
  }

  /** The inputs among the first `n` pads of a community, in order. */
  function InputsOf(communities: seq<Community>, config: Pad -> bv32, c: nat, n: nat): seq<Pad>
    requires c < |communities|
  {
    if n == 0 then []
    else
      InputsOf(communities, config, c, n - 1)
      + match InputAt(communities, config, c, n - 1) case None => [] case Some(pad) => [pad]
  }

  /** The inputs of the first `c` communities, in order. */
  function Inputs(communities: seq<Community>, config: Pad -> bv32, c: nat): seq<Pad>
    requires c <= |communities|
  {
    if c == 0 then []
    else Inputs(communities, config, c - 1) + InputsOf(communities, config, c - 1, communities[c - 1].Capacity())
  }

  /** As many of them as fit. */
  function Watched(pads: seq<Pad>): (r: seq<Pad>)
    ensures r <= pads && |r| <= MAX_CANDIDATES
  {
    if |pads| <= MAX_CANDIDATES then pads else pads[..MAX_CANDIDATES]
  }

  lemma {:induction false} InputsOfGrow(communities: seq<Community>, config: Pad -> bv32, c: nat, n: nat, m: nat)
    requires c < |communities| && n <= m
    ensures InputsOf(communities, config, c, n) <= InputsOf(communities, config, c, m)
    decreases m
  {
    if n < m {
      InputsOfGrow(communities, config, c, n, m - 1);
    }
  }

  lemma {:induction false} InputsGrow(communities: seq<Community>, config: Pad -> bv32, c: nat, d: nat)
    requires c <= d <= |communities|
    ensures Inputs(communities, config, c) <= Inputs(communities, config, d)
    decreases d
  {
    if c < d {
      InputsGrow(communities, config, c, d - 1);
    }
  }

  /** Once there are enough, the pads still to come do not matter. */
  lemma WatchedEarly(communities: seq<Community>, config: Pad -> bv32, c: nat, n: nat)
    requires c < |communities| && n <= communities[c].Capacity()
    ensures var soFar := Inputs(communities, config, c) + InputsOf(communities, config, c, n);
      |soFar| >= MAX_CANDIDATES ==> Watched(soFar) == Watched(Inputs(communities, config, |communities|))
  {
    InputsOfGrow(communities, config, c, n, communities[c].Capacity());
    InputsGrow(communities, config, c + 1, |communities|);
    assert Inputs(communities, config, c) + InputsOf(communities, config, c, n) <= Inputs(communities, config, c + 1);
  }

  /** What is collected are inputs of the communities, each at its own place. */
  ghost predicate Listed(communities: seq<Community>, config: Pad -> bv32, pad: Pad, c: nat, local: nat) {
    c < |communities| && local < communities[c].Capacity() && InputAt(communities, config, c, local) == Some(pad)
  }

  lemma {:induction false} InputsOfExact(communities: seq<Community>, config: Pad -> bv32, c: nat, n: nat, pad: Pad)
    requires c < |communities|
    ensures pad in InputsOf(communities, config, c, n)
      <==> exists local: nat | local < n :: InputAt(communities, config, c, local) == Some(pad)
  {
    hide InputAt;
    if n > 0 {
      InputsOfExact(communities, config, c, n - 1, pad);
    }
  }

  /** The scan collects exactly the inputs of the communities. */
  lemma {:induction false} InputsExact(communities: seq<Community>, config: Pad -> bv32, c: nat, pad: Pad)
    requires c <= |communities|
    ensures pad in Inputs(communities, config, c)
      <==> exists d: nat, local: nat | d < c :: Listed(communities, config, pad, d, local)
  {
    hide InputAt, InputsOf;
    if c > 0 {
      InputsExact(communities, config, c - 1, pad);
      InputsOfExact(communities, config, c - 1, communities[c - 1].Capacity(), pad);
      if pad in InputsOf(communities, config, c - 1, communities[c - 1].Capacity()) {
        var local: nat :| local < communities[c - 1].Capacity() && InputAt(communities, config, c - 1, local) == Some(pad);
        assert Listed(communities, config, pad, c - 1, local);
      }
    }
  }

  lemma DistinctAppend(a: seq<Pad>, b: seq<Pad>)
    requires Distinct(a) && Distinct(b) && forall pad | pad in a :: pad !in b
    ensures Distinct(a + b)
  {
    forall i, j | 0 <= i < j < |a + b|
      ensures (a + b)[i] != (a + b)[j]
    {
      if i < |a| <= j {
        assert a[i] in a && b[j - |a|] in b;
      }
    }
  }

  lemma PlaceOfPad(communities: seq<Community>, config: Pad -> bv32, c: nat, local: nat, d: nat, other: nat)
    requires c < |communities| && d < |communities| && InputAt(communities, config, c, local).Some?
    requires InputAt(communities, config, c, local) == InputAt(communities, config, d, other)
    ensures c == d && local == other
  {
    PackReads(c, communities[c].padsAt + local * PAD_STRIDE);
    PackReads(d, communities[d].padsAt + other * PAD_STRIDE);
  }

  lemma {:induction false} InputsOfDistinct(communities: seq<Community>, config: Pad -> bv32, c: nat, n: nat)
    requires c < |communities|
    ensures Distinct(InputsOf(communities, config, c, n))
  {
    hide InputAt;
    if n > 0 {
      InputsOfDistinct(communities, config, c, n - 1);
      if InputAt(communities, config, c, n - 1).Some? {
        var pad := InputAt(communities, config, c, n - 1).value;
        InputsOfExact(communities, config, c, n - 1, pad);
        forall local: nat | local < n - 1
          ensures InputAt(communities, config, c, local) != Some(pad)
        {
          if InputAt(communities, config, c, local) == Some(pad) {
            PlaceOfPad(communities, config, c, local, c, n - 1);
          }
        }
      }
    }
  }

  /** No pad is watched twice. */
  lemma {:induction false} InputsDistinct(communities: seq<Community>, config: Pad -> bv32, c: nat)
    requires c <= |communities|
    ensures Distinct(Inputs(communities, config, c))
  {
    hide InputAt, InputsOf;
    if c > 0 {
      var (before, n) := (Inputs(communities, config, c - 1), communities[c - 1].Capacity());
      var last := InputsOf(communities, config, c - 1, n);
      InputsDistinct(communities, config, c - 1);
      InputsOfDistinct(communities, config, c - 1, n);
      forall pad | pad in before
        ensures pad !in last
      {
        InputsExact(communities, config, c - 1, pad);
        InputsOfExact(communities, config, c - 1, n, pad);
        if pad in last {
          var local: nat :| local < n && InputAt(communities, config, c - 1, local) == Some(pad);
          var d: nat, other: nat :| d < c - 1 && Listed(communities, config, pad, d, other);
          PlaceOfPad(communities, config, d, other, c - 1, local);
        }
      }
      DistinctAppend(before, last);
    }
  }

  // ------------------------------------------------- what the answer should be

  function Labelled(h: History, hadReport: bool): nat {
    if h == [] then 0
    else Labelled(h[..|h| - 1], hadReport) + if h[|h| - 1].hadReport == hadReport then 1 else 0
  }

  /** Candidate `i` was at `level` under every report and at the other level in every quiet poll. */
  predicate Correlates(h: History, i: nat, level: bool) {
    forall k | 0 <= k < |h| :: i < |h[k].levels| && h[k].levels[i] == (h[k].hadReport == level)
  }

  predicate Survives(h: History, i: nat) {
    Correlates(h, i, true) || Correlates(h, i, false)
  }

  predicate Enough(h: History) {
    Labelled(h, true) >= NEEDED && Labelled(h, false) >= NEEDED
  }

  /** Candidate `i` alone survives, high under reports or low as `level` says. */
  ghost predicate IsAnswer(h: History, count: nat, i: nat, level: bool) {
    i < count && Enough(h) && Correlates(h, i, level) && forall j | 0 <= j < count && j != i :: !Survives(h, j)
  }

  // ------------------------------------------------------------ the four bits

  function Bit(hadReport: bool, high: bool): bv8 {
    match (hadReport, high)
    case (true, true) => SEEN_BUSY_HIGH
    case (true, false) => SEEN_BUSY_LOW
    case (false, true) => SEEN_IDLE_HIGH
    case (false, false) => SEEN_IDLE_LOW
  }

  function Or(a: bv8, b: bv8): bv8 { a | b }

  /** What `observe` has accumulated for candidate `i`. */
  function Seen(h: History, i: nat): bv8
    requires forall k | 0 <= k < |h| :: i < |h[k].levels|
  {
    if h == [] then 0
    else
      var last := h[|h| - 1];
      Or(Seen(h[..|h| - 1], i), Bit(last.hadReport, last.levels[i]))
  }

  lemma SeenLast(h: History, poll: Poll, i: nat)
    requires (forall k | 0 <= k < |h| :: i < |h[k].levels|) && i < |poll.levels|
    ensures forall k | 0 <= k < |h + [poll]| :: i < |(h + [poll])[k].levels|
    ensures Seen(h + [poll], i) == Or(Seen(h, i), Bit(poll.hadReport, poll.levels[i]))
  {
    assert (h + [poll])[..|h|] == h;
  }

  lemma LabelledLast(h: History, poll: Poll)
    ensures forall hadReport :: Labelled(h + [poll], hadReport)
                             == Labelled(h, hadReport) + if poll.hadReport == hadReport then 1 else 0
  {
    assert (h + [poll])[..|h|] == h;
  }

  /** Some sample of class `hadReport` had candidate `i` at level `high`. */
  predicate Occurs(h: History, i: nat, hadReport: bool, high: bool)
    requires forall k | 0 <= k < |h| :: i < |h[k].levels|
  {
    exists k | 0 <= k < |h| :: h[k].hadReport == hadReport && h[k].levels[i] == high
  }

  /** The four flags of a byte. */
  function Flags(busyHigh: bool, busyLow: bool, idleHigh: bool, idleLow: bool): bv8 {
    (if busyHigh then 1 else 0) | (if busyLow then 2 else 0) | (if idleHigh then 4 else 0) | (if idleLow then 8 else 0)
  }

  /** Each bit is set exactly when the case it stands for has occurred. */
  lemma {:induction false} SeenIsOccurs(h: History, i: nat)
    requires forall k | 0 <= k < |h| :: i < |h[k].levels|
    ensures Seen(h, i) == Flags(Occurs(h, i, true, true), Occurs(h, i, true, false),
                                Occurs(h, i, false, true), Occurs(h, i, false, false))
  {
    if h != [] {
      var front, last := h[..|h| - 1], h[|h| - 1];
      SeenIsOccurs(front, i);
      OccursLast(h, i, true, true);
      OccursLast(h, i, true, false);
      OccursLast(h, i, false, true);
      OccursLast(h, i, false, false);
    }
  }

  lemma OccursLast(h: History, i: nat, hadReport: bool, high: bool)
    requires h != [] && forall k | 0 <= k < |h| :: i < |h[k].levels|
    ensures Occurs(h, i, hadReport, high)
       <==> Occurs(h[..|h| - 1], i, hadReport, high)
            || (h[|h| - 1].hadReport == hadReport && h[|h| - 1].levels[i] == high)
  {
    var front := h[..|h| - 1];
    if Occurs(front, i, hadReport, high) {
      var k :| 0 <= k < |front| && front[k].hadReport == hadReport && front[k].levels[i] == high;
      assert h[k] == front[k];
    }
    if Occurs(h, i, hadReport, high) {
      var k :| 0 <= k < |h| && h[k].hadReport == hadReport && h[k].levels[i] == high;
      assert k < |front| ==> front[k] == h[k];
    }
  }

  lemma FlagsDistinct(a: bool, b: bool, c: bool, d: bool)
    ensures Flags(a, b, c, d) == SEEN_BUSY_HIGH | SEEN_IDLE_LOW <==> a && !b && !c && d
    ensures Flags(a, b, c, d) == SEEN_BUSY_LOW | SEEN_IDLE_HIGH <==> !a && b && c && !d
  {
  }

  lemma {:induction false} ClassOccurs(h: History, i: nat, hadReport: bool)
    requires (forall k | 0 <= k < |h| :: i < |h[k].levels|) && Labelled(h, hadReport) > 0
    ensures Occurs(h, i, hadReport, true) || Occurs(h, i, hadReport, false)
  {
    OccursLast(h, i, hadReport, true);
    OccursLast(h, i, hadReport, false);
    if h[|h| - 1].hadReport != hadReport {
      ClassOccurs(h[..|h| - 1], i, hadReport);
    }
  }

  /** Four bits decide what the whole history decides: one level under reports and the other otherwise. */
  lemma SeenDecides(h: History, i: nat)
    requires (forall k | 0 <= k < |h| :: i < |h[k].levels|) && Labelled(h, true) > 0 && Labelled(h, false) > 0
    ensures Seen(h, i) == SEEN_BUSY_HIGH | SEEN_IDLE_LOW <==> Correlates(h, i, true)
    ensures Seen(h, i) == SEEN_BUSY_LOW | SEEN_IDLE_HIGH <==> Correlates(h, i, false)
    ensures !(Correlates(h, i, true) && Correlates(h, i, false))
  {
    SeenIsOccurs(h, i);
    FlagsDistinct(Occurs(h, i, true, true), Occurs(h, i, true, false),
                  Occurs(h, i, false, true), Occurs(h, i, false, false));
    ClassOccurs(h, i, true);
    ClassOccurs(h, i, false);
    CorrelatesIsOccurs(h, i, true);
    CorrelatesIsOccurs(h, i, false);
  }

  lemma CorrelatesIsOccurs(h: History, i: nat, level: bool)
    requires forall k | 0 <= k < |h| :: i < |h[k].levels|
    ensures Correlates(h, i, level) <==> !Occurs(h, i, true, !level) && !Occurs(h, i, false, level)
  {
    if !Correlates(h, i, level) {
      var k :| 0 <= k < |h| && h[k].levels[i] != (h[k].hadReport == level);
      assert Occurs(h, i, h[k].hadReport, h[k].levels[i]);
    }
  }

  // ---------------------------------------------------------------- the code

  /** The levels of `count` pads, waiting for their label. */
  datatype Sample = Sample(levels: seq<bool>, count: nat)

  function Counted(n: nat): u32 { if n <= U32_MAX then n else U32_MAX }

  class Calibration {
    const pads: array<Pad>
    const seen: array<bv8>
    var count: nat
    var reports: u32
    var quiet: u32
    /** Every poll filed so far. */
    ghost var history: History

    ghost predicate Valid()
      reads this, seen
    {
      pads.Length == seen.Length == MAX_CANDIDATES && count <= MAX_CANDIDATES
      && Wide(history, count)
      && reports == Counted(Labelled(history, true)) && quiet == Counted(Labelled(history, false))
      && forall i | 0 <= i < count :: seen[i] == Seen(history, i)
    }

    /** `begin_calibration`: of the pads of all communities in order, the inputs, as many as fit. */
    constructor (communities: seq<Community>, config: Pad -> bv32)
      ensures Valid() && fresh(pads) && fresh(seen) && history == []
      ensures pads[..count] == Watched(Inputs(communities, config, |communities|))
    {
      hide IsInput, Pack, Watched, Inputs, InputsOf;
      pads := new Pad[MAX_CANDIDATES](_ => 0);
      seen := new bv8[MAX_CANDIDATES](_ => 0);
      count, reports, quiet, history := 0, 0, 0, [];
      new;
      StartScan(communities, config);
      for c := 0 to |communities|
        invariant count <= MAX_CANDIDATES && reports == quiet == 0 && history == []
        invariant pads[..count] == Watched(Inputs(communities, config, c))
        invariant forall k | 0 <= k < MAX_CANDIDATES :: seen[k] == 0
      {
        ghost var before := Inputs(communities, config, c);
        EnterCommunity(communities, config, c);
        for local := 0 to communities[c].Capacity()
          invariant count <= MAX_CANDIDATES && reports == quiet == 0 && history == []
          invariant pads[..count] == Watched(before + InputsOf(communities, config, c, local))
          invariant forall k | 0 <= k < MAX_CANDIDATES :: seen[k] == 0
        {
          WatchedFull(before + InputsOf(communities, config, c, local), count);
          if count == MAX_CANDIDATES {
            WatchedEarly(communities, config, c, local);
            return;
          }
          InputsOfStep(communities, config, c, local, before);
          var pad := Pack(c, communities[c].padsAt + local * PAD_STRIDE);
          if pad.Some? && IsInput(config(pad.value)) {
            WatchedNext(before + InputsOf(communities, config, c, local), pad.value);
            ghost var watched := pads[..count];
            pads[count] := pad.value;
            count := count + 1;
            assert pads[..count] == watched + [pad.value];
          }
        }
      }
    }

    /** One level for each watched pad, in order. */
    method TakeSample(config: Pad -> bv32) returns (sample: Sample)
      requires Valid()
      ensures sample.count == count == |sample.levels|
      ensures forall i | 0 <= i < count :: sample.levels[i] == Level(config(pads[i]))
    {
      var levels := [];
      for i := 0 to count
        invariant |levels| == i && forall k | 0 <= k < i :: levels[k] == Level(config(pads[k]))
      {
        levels := levels + [Level(config(pads[i]))];
      }
      sample := Sample(levels, count);
    }

    /** Adds a labelled poll to the history, unless the sample is as wide as some other set of pads. */
    method Observe(sample: Sample, hadReport: bool)
      requires Valid() && |sample.levels| == sample.count
      modifies this, seen
      ensures Valid() && count == old(count)
      ensures history == if sample.count == count then old(history) + [Poll(sample.levels, hadReport)]
                         else old(history)
    {
      hide Or, Bit, Seen, Labelled;
      if sample.count != count {
        return;
      }
      if hadReport {
        reports := Counted(reports + 1);
      } else {
        quiet := Counted(quiet + 1);
      }
      ghost var before := history;
      ghost var poll := Poll(sample.levels, hadReport);
      history := history + [poll];
      forall i: nat | i < count
        ensures Seen(history, i) == Or(Seen(before, i), Bit(hadReport, sample.levels[i]))
      {
        SeenLast(before, poll, i);
      }
      LabelledLast(before, poll);
      MarkSeen(sample.levels, hadReport);
    }

    method MarkSeen(levels: seq<bool>, hadReport: bool)
      requires seen.Length == MAX_CANDIDATES && count <= MAX_CANDIDATES && |levels| == count
      modifies seen
      ensures forall i | 0 <= i < count :: seen[i] == Or(old(seen[i]), Bit(hadReport, levels[i]))
    {
      hide Or, Bit;
      for i := 0 to count
        invariant forall k | 0 <= k < i :: seen[k] == Or(old(seen[k]), Bit(hadReport, levels[k]))
        invariant forall k | i <= k < count :: seen[k] == old(seen[k])
      {
        seen[i] := Or(seen[i], Bit(hadReport, levels[i]));
      }
    }

    /** `None` exactly when the history has no answer, else that answer. */
    method Settled() returns (answer: Option<(Pad, bool)>)
      requires Valid()
      ensures answer.Some? ==> exists i: nat :: IsAnswer(history, count, i, answer.value.1) && pads[i] == answer.value.0
      ensures answer.None? ==> forall i: nat, level :: !IsAnswer(history, count, i, level)
    {
      if reports < NEEDED || quiet < NEEDED {
        return None;
      }
      answer := None;
      ghost var at := 0;
      for i := 0 to count
        invariant answer.None? ==> forall k | 0 <= k < i :: !Survives(history, k)
        invariant answer.Some? ==> at < i && answer.value.0 == pads[at] && Correlates(history, at, answer.value.1)
        invariant answer.Some? ==> forall k | 0 <= k < i && k != at :: !Survives(history, k)
      {
        SeenDecides(history, i);
        var assertedHigh := seen[i] == SEEN_BUSY_HIGH | SEEN_IDLE_LOW;
        var assertedLow := seen[i] == SEEN_BUSY_LOW | SEEN_IDLE_HIGH;
        if !assertedHigh && !assertedLow {
          continue;
        }
        if answer.Some? {
          TwoSurvivors(history, count, at, i);
          return None;
        }
        answer := Some((pads[i], assertedHigh));
        at := i;
      }
      if answer.Some? {
        assert IsAnswer(history, count, at, answer.value.1);
      } else {
        NoSurvivor(history, count);
      }
    }
  }

  lemma StartScan(communities: seq<Community>, config: Pad -> bv32)
    ensures Watched(Inputs(communities, config, 0)) == []
  {
  }

  lemma EnterCommunity(communities: seq<Community>, config: Pad -> bv32, c: nat)
    requires c < |communities|
    ensures Inputs(communities, config, c) + InputsOf(communities, config, c, 0) == Inputs(communities, config, c)
    ensures Inputs(communities, config, c) + InputsOf(communities, config, c, communities[c].Capacity())
         == Inputs(communities, config, c + 1)
  {
  }

  lemma WatchedFull(pads: seq<Pad>, n: nat)
    ensures n == |Watched(pads)| == MAX_CANDIDATES ==> |pads| >= MAX_CANDIDATES
    ensures n == |Watched(pads)| < MAX_CANDIDATES ==> n == |pads|
  {
  }

  lemma WatchedNext(pads: seq<Pad>, pad: Pad)
    requires |pads| < MAX_CANDIDATES
    ensures Watched(pads + [pad]) == Watched(pads) + [pad]
  {
  }

  lemma InputsOfStep(communities: seq<Community>, config: Pad -> bv32, c: nat, n: nat, before: seq<Pad>)
    requires c < |communities|
    ensures match InputAt(communities, config, c, n)
            case None => InputsOf(communities, config, c, n + 1) == InputsOf(communities, config, c, n)
            case Some(pad) =>
              before + InputsOf(communities, config, c, n + 1)
              == before + InputsOf(communities, config, c, n) + [pad]
  {
    hide InputAt;
  }

  lemma CorrelatesSurvives(h: History, i: nat, level: bool)
    ensures Correlates(h, i, level) ==> Survives(h, i)
  {
    if level {
    }
  }

  lemma TwoSurvivors(h: History, count: nat, a: nat, b: nat)
    requires a < b < count && Survives(h, a) && Survives(h, b)
    ensures forall i: nat, level :: !IsAnswer(h, count, i, level)
  {
  }

  lemma NoSurvivor(h: History, count: nat)
    requires forall i: nat | i < count :: !Survives(h, i)
    ensures forall i: nat, level :: !IsAnswer(h, count, i, level)
  {
    forall i: nat, level | i < count
      ensures !Correlates(h, i, level)
    {
      CorrelatesSurvives(h, i, level);
    }
  }

  // -------------------------------------------------------------- over time

  lemma {:induction false} LabelledGrows(h: History, more: History, hadReport: bool)
    ensures Labelled(h + more, hadReport) >= Labelled(h, hadReport)
    decreases |more|
  {
    if more == [] {
      assert h + more == h;
    } else {
      assert (h + more)[..|h + more| - 1] == h + more[..|more| - 1];
      LabelledGrows(h, more[..|more| - 1], hadReport);
    }
  }

  lemma CorrelatesShrinks(h: History, more: History, i: nat, level: bool)
    requires Correlates(h + more, i, level)
    ensures Correlates(h, i, level)
  {
    assert forall k | 0 <= k < |h| :: (h + more)[k] == h[k];
  }

  /** Once there is an answer, no later poll can change it to another: it stays, or the answer is taken back. */
  lemma AnswerIsStable(h: History, more: History, count: nat, i: nat, level: bool, i': nat, level': bool)
    requires Wide(h, count) && IsAnswer(h, count, i, level) && IsAnswer(h + more, count, i', level')
    ensures i' == i && level' == level
  {
    CorrelatesShrinks(h, more, i', level');
    CorrelatesSurvives(h, i', level');
    SeenDecides(h, i);
    if level && !level' {
    } else if !level && level' {
    }
  }

  function Repeated(p: Poll, n: nat): (h: History)
    ensures |h| == n && forall k | 0 <= k < n :: h[k] == p
  {
    if n == 0 then [] else Repeated(p, n - 1) + [p]
  }

  lemma {:induction false} LabelledRepeated(p: Poll, n: nat, hadReport: bool)
    ensures Labelled(Repeated(p, n), hadReport) == if p.hadReport == hadReport then n else 0
  {
    if n > 0 {
      LabelledRepeated(p, n - 1, hadReport);
      assert Repeated(p, n)[..n - 1] == Repeated(p, n - 1);
    }
  }

  lemma {:induction false} LabelledAppend(h: History, more: History, hadReport: bool)
    ensures Labelled(h + more, hadReport) == Labelled(h, hadReport) + Labelled(more, hadReport)
    decreases |more|
  {
    if more == [] {
      assert h + more == h;
    } else {
      assert (h + more)[..|h + more| - 1] == h + more[..|more| - 1];
      LabelledAppend(h, more[..|more| - 1], hadReport);
    }
  }

  /** Candidate `i` at level `own`, every other one at `others`. */
  function OneApart(count: nat, i: nat, own: bool, others: bool, hadReport: bool): (p: Poll)
    ensures |p.levels| == count
  {
    Poll(seq(count, j requires 0 <= j < count => if j == i then own else others), hadReport)
  }

  /** Polls after which `i` is the only survivor: under a report the others are once high and once low. */
  function Settling(count: nat, i: nat, level: bool): (h: History)
    ensures Wide(h, count)
  {
    Repeated(OneApart(count, i, level, true, true), NEEDED)
    + Repeated(OneApart(count, i, level, false, true), NEEDED)
    + Repeated(OneApart(count, i, !level, true, false), NEEDED)
  }

  lemma SettlingIsEnough(h: History, count: nat, i: nat, level: bool)
    ensures Enough(h + Settling(count, i, level))
  {
    var (a, b, c) := (OneApart(count, i, level, true, true), OneApart(count, i, level, false, true),
                      OneApart(count, i, !level, true, false));
    forall hadReport
      ensures Labelled(h + Settling(count, i, level), hadReport) >= NEEDED
    {
      LabelledAppend(h, Settling(count, i, level), hadReport);
      LabelledAppend(Repeated(a, NEEDED) + Repeated(b, NEEDED), Repeated(c, NEEDED), hadReport);
      LabelledAppend(Repeated(a, NEEDED), Repeated(b, NEEDED), hadReport);
      LabelledRepeated(a, NEEDED, hadReport);
      LabelledRepeated(b, NEEDED, hadReport);
      LabelledRepeated(c, NEEDED, hadReport);
    }
  }

  lemma SettlingSettles(h: History, count: nat, i: nat, level: bool)
    requires Wide(h, count) && i < count && Correlates(h, i, level)
    ensures IsAnswer(h + Settling(count, i, level), count, i, level)
  {
    hide Enough;
    var more := Settling(count, i, level);
    var longer := h + more;
    SettlingIsEnough(h, count, i, level);
    assert longer[|h|] == more[0] == OneApart(count, i, level, true, true);
    assert longer[|h| + NEEDED] == more[NEEDED] == OneApart(count, i, level, false, true);
    assert forall k | |h| <= k < |longer| :: longer[k] == more[k - |h|] && more[k - |h|].levels[i] == (more[k - |h|].hadReport == level);
    assert forall k | 0 <= k < |h| :: longer[k] == h[k];
    forall j: nat | j < count && j != i
      ensures !Survives(longer, j)
    {
      assert longer[|h|].levels[j] && longer[|h|].hadReport;
      assert !longer[|h| + NEEDED].levels[j] && longer[|h| + NEEDED].hadReport;
    }
  }

  /**
   At any time, no answer can come any more exactly when no candidate survives; while one does, however many
   others do too, later polls can settle it.
   */
  lemma NoneForGoodIff(h: History, count: nat)
    requires Wide(h, count)
    ensures (forall more: History, i: nat, level | Wide(more, count) :: !IsAnswer(h + more, count, i, level))
       <==> forall i: nat | i < count :: !Survives(h, i)
  {
    if i: nat :| i < count && Survives(h, i) {
      var level := Correlates(h, i, true);
      SettlingSettles(h, count, i, level);
      var more := Settling(count, i, level);
      assert Wide(more, count) && IsAnswer(h + more, count, i, level);
    } else {
      forall more: History, i: nat, level | Wide(more, count)
        ensures !IsAnswer(h + more, count, i, level)
      {
        if IsAnswer(h + more, count, i, level) {
          CorrelatesShrinks(h, more, i, level);
          CorrelatesSurvives(h, i, level);
        }
      }
    }
  }

  /** Eight polls after which two pads survive and there is no answer, and one report later there is one. */
  lemma TieIsNotForGood()
    ensures var h := Repeated(Poll([true, true], true), 4) + Repeated(Poll([false, false], false), 4);
      Enough(h) && Survives(h, 0) && Survives(h, 1) && (forall i: nat, level :: !IsAnswer(h, 2, i, level))
      && IsAnswer(h + [Poll([true, false], true)], 2, 0, true)
  {
    var (a, b, last) := (Poll([true, true], true), Poll([false, false], false), Poll([true, false], true));
    var h := Repeated(a, 4) + Repeated(b, 4);
    forall hadReport
      ensures Labelled(h, hadReport) == 4
    {
      LabelledAppend(Repeated(a, 4), Repeated(b, 4), hadReport);
      LabelledRepeated(a, 4, hadReport);
      LabelledRepeated(b, 4, hadReport);
    }
    LabelledLast(h, last);
    var longer := h + [last];
    assert forall k | 0 <= k < 8 :: h[k] == a || h[k] == b;
    assert forall k | 0 <= k < 8 :: longer[k] == h[k];
    assert Correlates(h, 0, true) && Correlates(h, 1, true);
    TwoSurvivors(h, 2, 0, 1);
    assert longer[8] == last && longer[0] == a;
    assert Correlates(longer, 0, true) && !Survives(longer, 1);
  }
}
