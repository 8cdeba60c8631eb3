/**
 From ACPI pin numbers to pads: `Controller::resolve` and `Pad` of
 crates/nanochrono-baremetal/src/gpio.rs, over any well-formed pad-group table.
 */
module PadMap {
  import opened Bytes
  import opened Wrappers

  const MAX_COMMUNITIES := 8
  const PAD_STRIDE := 16
  const OFFSET_LIMIT := 0x1000_0000
  const NOMAP := -1

  // ------------------------------------------------------------------- a pad

  /** A community and an offset in one word: the top four bits and the other twenty-eight. */
  function Pack(community: nat, offset: nat): Option<u32> {
    if community >= MAX_COMMUNITIES || offset >= OFFSET_LIMIT then None else Some(community * OFFSET_LIMIT + offset)
  }

  function CommunityOf(pad: u32): nat { pad / OFFSET_LIMIT }

  function OffsetOf(pad: u32): nat { pad % OFFSET_LIMIT }

  /** Both fields come back from a packed pad, so no two places share a word. */
  lemma PackReads(community: nat, offset: nat)
    ensures Pack(community, offset).Some? <==> community < MAX_COMMUNITIES && offset < OFFSET_LIMIT
    ensures Pack(community, offset).Some? ==>
      (var pad := Pack(community, offset).value; CommunityOf(pad) == community && OffsetOf(pad) == offset)
  {
    if Pack(community, offset).Some? {
      assert (community * OFFSET_LIMIT + offset) / OFFSET_LIMIT == community;
    }
  }

  // --------------------------------------------------------------- the table

  /** `pads` pads from linear index `firstPad` on, reached by pins from `gpioBase` on. Indices are 16-bit words. */
  datatype PadGroup = PadGroup(firstPad: u16, pads: u16, gpioBase: int) {
    predicate HasPin(pin: int) {
      gpioBase != NOMAP && gpioBase <= pin < gpioBase + pads
    }

    /** The linear index of a pin's pad, kept in 16 bits. */
    function PadOf(pin: int): u16 {
      (firstPad + (pin - gpioBase)) % 0x1_0000
    }

    /** Some place of the group has this linear index. */
    predicate HasPad(pad: int) {
      0 <= pad < 0x1_0000 && (firstPad <= pad < firstPad + pads || firstPad <= pad + 0x1_0000 < firstPad + pads)
    }
  }

  /** A community's window as found: where its pads start, and how long it is. */
  datatype Community = Community(padsAt: nat, length: nat) {
    /** How many pads fit the window, in 32 bits. */
    function Capacity(): u32 {
      if padsAt <= length then (length - padsAt) / PAD_STRIDE % 0x1_0000_0000 else 0
    }
  }

  /** No two groups share a pin, no two groups of a community share a pad. */
  ghost predicate WellFormed(table: seq<seq<PadGroup>>) {
    (forall c, i, d, j, pin: int | GroupAt(table, c, i) && GroupAt(table, d, j) && (c, i) != (d, j) ::
      !(table[c][i].HasPin(pin) && table[d][j].HasPin(pin)))
    && forall c, i, j, pad: int | GroupAt(table, c, i) && GroupAt(table, c, j) && i != j ::
      !(table[c][i].HasPad(pad) && table[c][j].HasPad(pad))
  }

  predicate GroupAt(table: seq<seq<PadGroup>>, c: int, i: int) {
    0 <= c < |table| && 0 <= i < |table[c]|
  }

  // ----------------------------------------------------------------- resolve

  /** The first group from `i` on with this pin, or the number of groups. */
  function GroupOf(groups: seq<PadGroup>, pin: nat, i: nat): (r: nat)
    requires i <= |groups|
    ensures i <= r <= |groups| && (r < |groups| ==> groups[r].HasPin(pin))
    ensures forall k | i <= k < r :: !groups[k].HasPin(pin)
    decreases |groups| - i
  {
    if i == |groups| || groups[i].HasPin(pin) then i else GroupOf(groups, pin, i + 1)
  }

  /** The pad for a pin of this group. */
  function PadIn(communities: seq<Community>, c: nat, groups: seq<PadGroup>, g: PadGroup, pin: nat): Option<u32>
    requires c < |communities| && groups != [] && g.HasPin(pin)
  {
    var local := g.PadOf(pin) - groups[0].firstPad;
    if local < 0 || local >= communities[c].Capacity() then None
    else Pack(c, communities[c].padsAt + local * PAD_STRIDE)
  }

  /** Looks from community `c` on; a community that did not respond ends the search. */
  function ResolveFrom(communities: seq<Community>, table: seq<seq<PadGroup>>, pin: nat, c: nat): Option<u32>
    requires c <= |table|
    decreases |table| - c
  {
    if c == |table| || c >= |communities| || table[c] == [] then None
    else
      var i := GroupOf(table[c], pin, 0);
      if i < |table[c]| then PadIn(communities, c, table[c], table[c][i], pin)
      else ResolveFrom(communities, table, pin, c + 1)
  }

  /** The pad of an ACPI pin; without a table, none. */
  function ResolveOf(communities: seq<Community>, table: Option<seq<seq<PadGroup>>>, pin: u16): Option<u32> {
    if table.None? then None else ResolveFrom(communities, table.value, pin, 0)
  }

  method Resolve(communities: seq<Community>, table: Option<seq<seq<PadGroup>>>, pin: u16) returns (r: Option<u32>)
    ensures r == ResolveOf(communities, table, pin)
  {
    if table.None? {
      return None;
    }
    for c := 0 to |table.value|
      invariant ResolveOf(communities, table, pin) == ResolveFrom(communities, table.value, pin, c)
    {
      var groups := table.value[c];
      if c >= |communities| || groups == [] {
        return None;
      }
      for i := 0 to |groups|
        invariant GroupOf(groups, pin, 0) == GroupOf(groups, pin, i)
      {
        if groups[i].HasPin(pin) {
          var within: u16 := pin - groups[i].gpioBase;
          var local := (groups[i].firstPad + within) % 0x1_0000 - groups[0].firstPad;
          if local < 0 || local >= communities[c].Capacity() {
            return None;
          }
          return Pack(c, communities[c].padsAt + local * PAD_STRIDE);
        }
      }
    }
    return None;
  }

  // -------------------------------------------------------------- properties

  /** A resolved pin belongs to a group of its pad's community, and stands as far into it as into its pins. */
  lemma {:induction false} ResolvedPlace(communities: seq<Community>, table: seq<seq<PadGroup>>, pin: nat, c: nat)
      returns (d: nat, i: nat)
    requires c <= |table| && ResolveFrom(communities, table, pin, c).Some?
    ensures GroupAt(table, d, i) && d < |communities| && table[d][i].HasPin(pin)
    ensures (var pad := ResolveFrom(communities, table, pin, c).value;
      CommunityOf(pad) == d
      && OffsetOf(pad) == communities[d].padsAt
        + (table[d][i].PadOf(pin) - table[d][0].firstPad) * PAD_STRIDE
      && communities[d].padsAt <= OffsetOf(pad) && OffsetOf(pad) + PAD_STRIDE <= communities[d].length)
    decreases |table| - c
  {
    i := GroupOf(table[c], pin, 0);
    if i < |table[c]| {
      d := c;
      var local := table[c][i].PadOf(pin) - table[c][0].firstPad;
      PackReads(c, communities[c].padsAt + local * PAD_STRIDE);
      InWindow(communities[c], local);
    } else {
      d, i := ResolvedPlace(communities, table, pin, c + 1);
    }
  }

  lemma InWindow(c: Community, local: nat)
    requires local < c.Capacity()
    ensures c.padsAt + local * PAD_STRIDE + PAD_STRIDE <= c.length
  {
  }

  /** Over a well-formed table two pins never resolve to one pad. */
  lemma ResolveInjective(communities: seq<Community>, table: seq<seq<PadGroup>>, p: u16, q: u16)
    requires WellFormed(table) && ResolveOf(communities, Some(table), p).Some?
    requires ResolveOf(communities, Some(table), p) == ResolveOf(communities, Some(table), q)
    ensures p == q
  {
    hide ResolveFrom, WellFormed;
    var c, i := ResolvedPlace(communities, table, p, 0);
    var d, j := ResolvedPlace(communities, table, q, 0);
    assert c == d && table[c][i].PadOf(p) == table[c][j].PadOf(q);
    PadsOfGroup(table[c][i], p, q);
    PadsOfGroup(table[c][j], q, p);
    if i != j {
      GroupsApart(table, c, i, j, table[c][i].PadOf(p));
    }
  }

  /** The pins of a group have pads of the group, each its own, even where the index wraps. */
  lemma PadsOfGroup(g: PadGroup, p: int, q: int)
    requires g.HasPin(p)
    ensures g.HasPad(g.PadOf(p))
    ensures g.HasPin(q) && g.PadOf(p) == g.PadOf(q) ==> p == q
  {
  }

  lemma GroupsApart(table: seq<seq<PadGroup>>, c: nat, i: nat, j: nat, pad: int)
    requires WellFormed(table) && GroupAt(table, c, i) && GroupAt(table, c, j) && i != j
    ensures !(table[c][i].HasPad(pad) && table[c][j].HasPad(pad))
  {
  }

  /** The table decides by itself which group answers: the search finds the one that has the pin, if its window holds it. */
  lemma {:induction false} ResolveFinds(
      communities: seq<Community>, table: seq<seq<PadGroup>>, pin: nat, c: nat, d: nat, i: nat)
    requires WellFormed(table) && c <= d && GroupAt(table, d, i) && table[d][i].HasPin(pin)
    requires d < |communities| && forall k | c <= k <= d :: table[k] != []
    ensures ResolveFrom(communities, table, pin, c) == PadIn(communities, d, table[d], table[d][i], pin)
    decreases d - c
  {
    hide PadIn, WellFormed;
    var first := GroupOf(table[c], pin, 0);
    if first < |table[c]| {
      assert GroupAt(table, c, first);
      if (c, first) != (d, i) {
        PinsApart(table, c, first, d, i, pin);
      }
    } else if c < d {
      ResolveFinds(communities, table, pin, c + 1, d, i);
    }
  }

  lemma PinsApart(table: seq<seq<PadGroup>>, c: nat, i: nat, d: nat, j: nat, pin: int)
    requires WellFormed(table) && GroupAt(table, c, i) && GroupAt(table, d, j) && (c, i) != (d, j)
    ensures !(table[c][i].HasPin(pin) && table[d][j].HasPin(pin))
  {
  }
}
