/**
 What the reader makes of a dump the kernel wrote: every section as far as it was
 kept, the truncated flag exactly when something was dropped, the memory table
 pointing at each region's own bytes, and damage to the contents noticed.
 */
module DumpRoundTrip {
  import opened Bytes
  import opened DumpFormat
  import opened DumpReader
  import DumpLog
  import Utf8

  // ----------------------------------------------------------------- layout

  lemma {:induction false} LayGrows(out: seq<byte>, bodies: seq<seq<byte>>)
    requires |out| <= CAPACITY
    ensures out <= Lay(out, bodies)
    decreases |bodies|
  {
    if bodies != [] {
      LayGrows(Put(Pad8(out), bodies[0]), bodies[1..]);
    }
  }

  /** Section `i` lies 8-aligned behind `out`, and holds as much of its body as fitted. */
  lemma {:induction false} SectionIsPlaced(out: seq<byte>, bodies: seq<seq<byte>>, kind: u32, i: nat)
    requires |out| <= CAPACITY && kind + |bodies| <= U32_MAX && i < |bodies|
    ensures Placed(out, Lay(out, bodies), bodies[i], kind + i, Entries(out, bodies, kind)[i])
    decreases |bodies|
  {
    hide Put, Pad8, Lay, Placed;
    var after := Put(Pad8(out), bodies[0]);
    LayStep(out, bodies);
    if i == 0 {
      LayGrows(after, bodies[1..]);
      FirstIsPlaced(out, bodies[0], Lay(out, bodies), kind);
    } else {
      SectionIsPlaced(after, bodies[1..], kind + 1, i - 1);
      PlacedBehind(out, after, Lay(out, bodies), bodies[i], kind + i, Entries(out, bodies, kind)[i]);
    }
  }

  predicate Placed(out: seq<byte>, laid: seq<byte>, body: seq<byte>, kind: nat, e: Entry) {
    e.kind == kind && |out| <= e.offset && e.offset % 8 == 0 && e.size <= |body|
    && e.offset + e.size <= |laid| && laid[e.offset..e.offset + e.size] == body[..e.size]
  }

  lemma PlacedBehind(out: seq<byte>, after: seq<byte>, laid: seq<byte>, body: seq<byte>, kind: nat, e: Entry)
    requires |out| <= |after| && Placed(after, laid, body, kind, e)
    ensures Placed(out, laid, body, kind, e)
  {
  }

  lemma FirstIsPlaced(out: seq<byte>, body: seq<byte>, laid: seq<byte>, kind: u32)
    requires |out| <= CAPACITY && Put(Pad8(out), body) <= laid
    ensures (var start := |Pad8(out)|;
      Placed(out, laid, body, kind, Entry(kind, start, |Put(Pad8(out), body)| - start)))
  {
    hide Put, Pad8;
    var padded := Pad8(out);
    PutHolds(padded, body);
    PrefixSlice(Put(padded, body), laid, |padded|);
  }

  lemma LayStep(out: seq<byte>, bodies: seq<seq<byte>>)
    requires |out| <= CAPACITY && bodies != []
    ensures Lay(out, bodies) == Lay(Put(Pad8(out), bodies[0]), bodies[1..])
  {
  }

  lemma PutHolds(out: seq<byte>, body: seq<byte>)
    requires |out| <= CAPACITY
    ensures var n := |Put(out, body)| - |out|; 0 <= n <= |body| && Put(out, body)[|out|..] == body[..n]
  {
  }

  lemma PrefixSlice(a: seq<byte>, b: seq<byte>, from: nat)
    requires a <= b && from <= |a|
    ensures b[from..|a|] == a[from..]
  {
  }

  /** Sections are in order and do not overlap. */
  lemma {:induction false} SectionsInOrder(out: seq<byte>, bodies: seq<seq<byte>>, kind: u32, i: nat, j: nat)
    requires |out| <= CAPACITY && kind + |bodies| <= U32_MAX && i < j < |bodies|
    ensures var e := Entries(out, bodies, kind); e[i].offset + e[i].size <= e[j].offset
    decreases |bodies|
  {
    var after := Put(Pad8(out), bodies[0]);
    if i == 0 {
      SectionIsPlaced(after, bodies[1..], kind + 1, j - 1);
    } else {
      SectionsInOrder(after, bodies[1..], kind + 1, i - 1, j - 1);
    }
  }

  predicate SomeShort(bodies: seq<seq<byte>>, es: seq<Entry>)
    requires |es| == |bodies|
  {
    exists i: nat | i < |bodies| :: es[i].size < |bodies[i]|
  }

  lemma SomeShortStep(body: seq<byte>, bodies: seq<seq<byte>>, e: Entry, es: seq<Entry>)
    requires |es| == |bodies|
    ensures SomeShort([body] + bodies, [e] + es) <==> e.size < |body| || SomeShort(bodies, es)
  {
    var all, entries := [body] + bodies, [e] + es;
    if e.size < |body| {
      assert entries[0].size < |all[0]|;
    }
    if i: nat :| i < |bodies| && es[i].size < |bodies[i]| {
      assert entries[i + 1].size < |all[i + 1]|;
    }
  }

  /** Something was dropped exactly when some section has less than its body. */
  lemma {:induction false} CutIsShortSection(out: seq<byte>, bodies: seq<seq<byte>>, kind: u32)
    requires |out| <= CAPACITY && kind + |bodies| <= U32_MAX
    ensures Cut(out, bodies) <==> SomeShort(bodies, Entries(out, bodies, kind))
    decreases |bodies|
  {
    hide SomeShort, Pad8, Put;
    if bodies == [] {
      NoneShort();
    } else {
      var padded := Pad8(out);
      var after := Put(padded, bodies[0]);
      CutIsShortSection(after, bodies[1..], kind + 1);
      SomeShortStep(bodies[0], bodies[1..], Entry(kind, |padded|, |after| - |padded|), Entries(after, bodies[1..], kind + 1));
      assert bodies == [bodies[0]] + bodies[1..];
      PutIsShort(padded, bodies[0]);
    }
  }

  lemma NoneShort()
    ensures !SomeShort([], [])
  {
  }

  lemma PutIsShort(out: seq<byte>, body: seq<byte>)
    requires |out| <= CAPACITY
    ensures |Put(out, body)| - |out| < |body| <==> |body| > CAPACITY - |out|
  {
  }

  // ------------------------------------------------------------- the image

  function TableOf(r: Report): (e: seq<Entry>)
    ensures |e| == SECTIONS
  {
    Entries(Zeros(BODY), Bodies(r), 1)
  }

  function WasCut(r: Report): bool {
    Cut(Zeros(BODY), Bodies(r))
  }

  /** The sections as kept, by kind. */
  function Kept(r: Report, n: nat): (m: map<nat, seq<byte>>)
    requires n <= SECTIONS
    ensures forall k: nat :: k in m <==> 1 <= k <= n
    ensures forall k: nat | 1 <= k <= n :: m[k] == KeptBody(r, k - 1)
  {
    hide KeptBody;
    if n == 0 then map[]
    else
      var m := Kept(r, n - 1)[n := KeptBody(r, n - 1)];
      assert m[n] == KeptBody(r, n - 1);
      m
  }

  function KeptBody(r: Report, i: nat): seq<byte>
    requires i < SECTIONS
  {
    var b, e := Bodies(r)[i], TableOf(r)[i];
    if e.size <= |b| then b[..e.size] else b
  }

  lemma ImageParts(r: Report)
    ensures |Image(r)| == |Body(r)| && Image(r)[HEADER_SIZE..] == Checked(r)
    ensures Checked(r) == Table(TableOf(r)) + Body(r)[BODY..]
    ensures Image(r)[BODY..] == Body(r)[BODY..]
  {
    hide Lay, Bodies, Entries, Cut, CrcOf, Header, Table, Flags;
    var table, body := Table(TableOf(r)), Body(r)[BODY..];
    assert (table + body)[TABLE_SIZE..] == body;
  }

  predicate Holds(r: Report, data: seq<byte>, i: nat, e: Entry)
    requires i < SECTIONS
  {
    e.kind == i + 1 && BODY <= e.offset && e.offset % 8 == 0 && e.size <= |Bodies(r)[i]|
    && e.offset + e.size <= |Body(r)| <= |data| && data[e.offset..e.offset + e.size] == KeptBody(r, i)
  }

  /** A section's place in the image holds what was kept of its body. */
  lemma SectionInImage(r: Report, tail: seq<byte>, i: nat)
    requires i < SECTIONS
    ensures Holds(r, Image(r) + tail, i, TableOf(r)[i])
  {
    hide Lay, Bodies, Entries, Image, Table, Checked;
    SectionIsPlaced(Zeros(BODY), Bodies(r), 1, i);
    ImageParts(r);
    var e := TableOf(r)[i];
    SliceBehind(Image(r), Body(r), tail, e.offset, e.size);
  }

  lemma SliceBehind(a: seq<byte>, b: seq<byte>, tail: seq<byte>, at: nat, n: nat)
    requires |a| == |b| >= BODY && a[BODY..] == b[BODY..] && BODY <= at && at + n <= |a|
    ensures (a + tail)[at..at + n] == b[at..at + n]
  {
    assert forall i | at <= i < at + n :: a[i] == a[BODY..][i - BODY] == b[BODY..][i - BODY] == b[i];
  }

  lemma {:induction false} TableAt(es: seq<Entry>, i: nat)
    requires i < |es|
    ensures Table(es)[16 * i..16 * i + 16] == EntryBytes(es[i])
  {
    hide EntryBytes;
    if i > 0 {
      TableAt(es[1..], i - 1);
      assert Table(es)[16 * i..16 * i + 16] == Table(es[1..])[16 * (i - 1)..16 * (i - 1) + 16];
    }
  }

  predicate EntryIs(data: seq<byte>, at: nat, e: Entry) {
    at + 16 <= |data|
    && Field(data, at, 4) == e.kind && Field(data, at + 4, 4) == e.offset && Field(data, at + 8, 4) == e.size
  }

  lemma EntryParts(e: Entry)
    ensures var b := EntryBytes(e); b[0..4] == Le(e.kind, 4) && b[4..8] == Le(e.offset, 4) && b[8..12] == Le(e.size, 4)
  {
    hide Le;
    var b := EntryBytes(e);
    assert b[0..4] == Le(e.kind, 4);
    assert b[4..8] == Le(e.offset, 4);
    assert b[8..12] == Le(e.size, 4);
  }

  lemma EntryReads(e: Entry, data: seq<byte>, at: nat)
    requires at + 16 <= |data| && data[at..at + 16] == EntryBytes(e)
    ensures EntryIs(data, at, e)
  {
    hide Le, FromLe, EntryBytes;
    Pow256s();
    FromLeLe(e.kind, 4);
    FromLeLe(e.offset, 4);
    FromLeLe(e.size, 4);
    var b := data[at..at + 16];
    EntryParts(e);
    SliceOfSlice(data, at, at + 16, 0, 4);
    SliceOfSlice(data, at, at + 16, 4, 8);
    SliceOfSlice(data, at, at + 16, 8, 12);
    assert Field(data, at, 4) == FromLe(b[0..4]);
    assert Field(data, at + 4, 4) == FromLe(b[4..8]);
    assert Field(data, at + 8, 4) == FromLe(b[8..12]);
  }

  lemma InnerSlice(d: seq<byte>, from: nat, part: seq<byte>, at: nat, n: nat)
    requires from <= |d| && part <= d[from..] && at + n <= |part|
    ensures d[from + at..from + at + n] == part[at..at + n]
  {
    assert forall i | at <= i < at + n :: d[from + i] == d[from..][i] == part[i];
  }

  lemma EntryInImage(r: Report, tail: seq<byte>, i: nat)
    requires i < SECTIONS
    ensures EntryIs(Image(r) + tail, HEADER_SIZE + i * 16, TableOf(r)[i])
  {
    hide Lay, Bodies, Entries, Image, Table, Checked, Field, TableOf, Body, EntryIs;
    ImageParts(r);
    TableAt(TableOf(r), i);
    var d, table := Image(r) + tail, Table(TableOf(r));
    InnerSlice(d, HEADER_SIZE, table, 16 * i, 16);
    EntryReads(TableOf(r)[i], d, HEADER_SIZE + i * 16);
  }

  lemma {:induction false} SectionsRead(r: Report, tail: seq<byte>, n: nat)
    requires n <= SECTIONS
    ensures |Image(r)| == |Body(r)|
    ensures SectionsOf(Image(r) + tail, HEADER_SIZE, |Body(r)|, n) == Sections(Kept(r, n))
  {
    hide Image, Field, TableOf, Body, KeptBody, Bodies, Checked, Table, Lay;
    ImageParts(r);
    if n > 0 {
      SectionsRead(r, tail, n - 1);
      EntryInImage(r, tail, n - 1);
      SectionInImage(r, tail, n - 1);
    }
  }

  // ------------------------------------------------------------- round trip

  lemma HeaderInImage(r: Report, tail: seq<byte>)
    ensures HeaderIs(Image(r) + tail, |Body(r)|, CrcOf(Checked(r)), Flags(r, WasCut(r)), r.version, r.counter)
  {
    hide Field, TableOf, Body, Version16, CrcOf, Header, Checked, Flags, HeaderIs, Cut, Bodies;
    var (total, crc, flags) := (|Body(r)|, CrcOf(Checked(r)), Flags(r, WasCut(r)));
    HeaderReads(total, crc, flags, r.version, r.counter, Checked(r) + tail);
    assert Image(r) + tail == Header(total, crc, flags, r.version, r.counter) + (Checked(r) + tail);
  }

  /** What the reader shows of a report. */
  function ReadBack(r: Report): Result {
    Parsed(MACHINE, Flags(r, WasCut(r)), StripZeros(Version16(r.version)), r.counter, |Body(r)|, Kept(r, SECTIONS))
  }

  /** The reader accepts every dump the kernel writes, whatever follows it, and gives back what was kept. */
  lemma ReadsBack(r: Report, tail: seq<byte>)
    ensures ParseOf(Image(r) + tail)
      == ReadBack(r)
  {
    hide Field, Image, TableOf, Body, Kept, SectionsOf, StripZeros, Version16, CrcOf, Header, Checked, Flags, WasCut;
    var d := Image(r) + tail;
    ImageParts(r);
    SectionsRead(r, tail, SECTIONS);
    HeaderInImage(r, tail);
    assert d[HEADER_SIZE..|Body(r)|] == Image(r)[HEADER_SIZE..];
  }

  /**
   From a serial log of any bytes whose last complete dump is this one, `extract` gets the report back; `load`
   does exactly when the log does not begin with the four letters a dump file begins with.
   */
  lemma LogReadsBack(r: Report, before: seq<byte>, after: seq<byte>)
    requires DumpLog.ExtractOf(Utf8.Decode(after)) == DumpLog.NoDump
    ensures (var log := DumpLog.Log(Image(r), before, after);
      DumpLog.ExtractOf(Utf8.Decode(log)) == DumpLog.Dump(Image(r))
      && (DumpLog.LoadOf(log) == DumpLog.Dump(Image(r)) <==> !(MAGIC <= before)))
    ensures ParseOf(Image(r)) == ReadBack(r)
  {
    hide Image, ParseOf, DumpLog.ExtractOf, DumpLog.Log, DumpLog.LoadOf, Utf8.Decode, Kept, Body, WasCut, Flags;
    DumpLog.EmittedIsInLog(Image(r), before, after);
    DumpLog.LogLoadsIff(Image(r), before, after);
    ReadsBack(r, []);
    assert Image(r) + [] == Image(r);
  }

  /** A log that begins with a line "DUMP" holds every dump sent after it, and the reader refuses the log. */
  lemma LogNotExtracted(r: Report)
    ensures var log := DumpLog.Log(Image(r), Ascii("DUMP\n"), []);
      DumpLog.ExtractOf(Utf8.Decode(log)) == DumpLog.Dump(Image(r))
      && DumpLog.LoadOf(log) == DumpLog.Dump(log) && ParseOf(log) == Failed(BadVersion)
  {
    hide Image, DumpLog.Emitted, DumpLog.ExtractOf, Utf8.Decode, CrcOf, SectionsOf, StripZeros, Field;
    var before := Ascii("DUMP\n");
    var log := DumpLog.Log(Image(r), before, []);
    DumpLog.EmittedAscii(Image(r));
    assert Ascii(DumpLog.Emitted(Image(r)))[0] == 0x0D;
    assert MAGIC <= before && log[4] == 0x0A && log[5] == 0x0D;
    NothingAfter();
    DumpLog.EmittedIsInLog(Image(r), before, []);
    VersionField(log);
  }

  lemma NothingAfter()
    ensures DumpLog.ExtractOf(Utf8.Decode([])) == DumpLog.NoDump
  {
  }

  lemma VersionField(d: seq<byte>)
    requires |d| >= HEADER_SIZE && d[4] == 0x0A && d[5] == 0x0D
    ensures Field(d, 4, 2) != 1
  {
    assert d[4..6] == [0x0A, 0x0D];
    assert [0x0A, 0x0D][1..] == [0x0D];
  }

  /** A version of at most 16 bytes comes back whole, unless it ends in zero bytes. */
  lemma VersionReads(v: seq<byte>)
    requires |v| <= 16 && (v == [] || v[|v| - 1] != 0)
    ensures StripZeros(Version16(v)) == v
  {
    var s := StripZeros(Version16(v));
    assert forall i | |v| <= i < 16 :: Version16(v)[i] == 0;
    assert v <= Version16(v);
  }

  /** Sections come in order of kind, 8-aligned, disjoint, inside the total, and hold the front of their bodies. */
  lemma SectionsAreSound(r: Report, tail: seq<byte>, i: nat)
    requires i < SECTIONS
    ensures Holds(r, Image(r) + tail, i, TableOf(r)[i])
    ensures KeptBody(r, i) == Bodies(r)[i][..TableOf(r)[i].size]
    ensures forall j: nat | i < j < SECTIONS :: TableOf(r)[i].offset + TableOf(r)[i].size <= TableOf(r)[j].offset
  {
    hide Lay, Bodies, Entries, Image;
    SectionInImage(r, tail, i);
    forall j: nat | i < j < SECTIONS
      ensures TableOf(r)[i].offset + TableOf(r)[i].size <= TableOf(r)[j].offset
    {
      SectionsInOrder(Zeros(BODY), Bodies(r), 1, i, j);
    }
  }

  predicate Flagged(flags: nat) { flags / 4 % 2 == 1 }

  /** The truncated flag is set exactly when some section came out short of its body. */
  lemma TruncatedIff(r: Report)
    ensures Flagged(Flags(r, WasCut(r))) <==> exists i: nat | i < SECTIONS :: |KeptBody(r, i)| < |Bodies(r)[i]|
  {
    hide Bodies, Entries, Cut, Lay;
    CutIsShortSection(Zeros(BODY), Bodies(r), 1);
    var es := TableOf(r);
    if WasCut(r) {
      var i: nat :| i < SECTIONS && es[i].size < |Bodies(r)[i]|;
      assert |KeptBody(r, i)| < |Bodies(r)[i]|;
    }
    if i: nat :| i < SECTIONS && |KeptBody(r, i)| < |Bodies(r)[i]| {
      assert es[i].size < |Bodies(r)[i]|;
    }
  }

  // ----------------------------------------------------------- memory regions

  function OffsetOf(rs: seq<Region>, j: nat): nat
    requires j <= |rs|
  {
    if j == 0 then 0 else |rs[0].bytes| + OffsetOf(rs[1..], j - 1)
  }

  /** In the memory table, entry `j` says where in the memory section region `j` starts. */
  lemma {:induction false} RegionTableAt(rs: seq<Region>, offset: nat, j: nat)
    requires j < |rs|
    ensures RegionTable(rs, offset)[16 * j..16 * j + 16] == RegionEntry(rs[j], offset + OffsetOf(rs, j))
    decreases |rs|
  {
    hide RegionEntry;
    var (head, rest) := (RegionEntry(rs[0], offset), RegionTable(rs[1..], offset + |rs[0].bytes|));
    if j > 0 {
      RegionTableAt(rs[1..], offset + |rs[0].bytes|, j - 1);
      assert (head + rest)[16 * j..16 * j + 16] == rest[16 * (j - 1)..16 * (j - 1) + 16];
    }
  }

  lemma {:induction false} MemoryAt(rs: seq<Region>, j: nat)
    requires j < |rs|
    ensures OffsetOf(rs, j) + |rs[j].bytes| <= |Memory(rs)|
    ensures Memory(rs)[OffsetOf(rs, j)..OffsetOf(rs, j) + |rs[j].bytes|] == rs[j].bytes
    decreases |rs|
  {
    if j > 0 {
      MemoryAt(rs[1..], j - 1);
      var (head, rest, at) := (rs[0].bytes, Memory(rs[1..]), OffsetOf(rs[1..], j - 1));
      assert (head + rest)[|head| + at..|head| + at + |rs[j].bytes|] == rest[at..at + |rs[j].bytes|];
    }
  }

  /** Entry `j` of the memory table leads to this region's address and bytes. */
  predicate Selects(table: seq<byte>, memory: seq<byte>, j: nat, region: Region) {
    16 * j + 16 <= |table| && Field(table, 16 * j, 8) == region.address
    && var (at, n) := (Field(table, 16 * j + 8, 4), Field(table, 16 * j + 12, 4));
    at + n <= |memory| && memory[at..at + n] == region.bytes
  }

  /** An uncut dump's memory table selects each region's own bytes from the memory section. */
  lemma RegionsSelected(r: Report, j: nat)
    requires !WasCut(r) && j < |r.regions|
    ensures Selects(KeptBody(r, 5), KeptBody(r, 6), j, r.regions[j])
  {
    hide KeptBody, OffsetOf, RegionTable, Memory;
    UncutIsWhole(r, 5);
    UncutIsWhole(r, 6);
    RegionTableAt(r.regions, 0, j);
    MemoryAt(r.regions, j);
    RegionEntryReads(r.regions[j], OffsetOf(r.regions, j), RegionTable(r.regions, 0), 16 * j);
  }

  lemma UncutIsWhole(r: Report, i: nat)
    requires !WasCut(r) && i < SECTIONS
    ensures KeptBody(r, i) == Bodies(r)[i] && |Bodies(r)[i]| <= CAPACITY
  {
    hide Bodies, TableOf, Body, WasCut, Image, Flags;
    TruncatedIff(r);
    SectionsAreSound(r, [], i);
    FlagsSay(r);
    assert |KeptBody(r, i)| >= |Bodies(r)[i]|;
  }

  lemma FlagsSay(r: Report)
    ensures Flagged(Flags(r, WasCut(r))) == WasCut(r)
  {
    hide WasCut;
  }

  lemma RegionEntryReads(region: Region, offset: nat, data: seq<byte>, at: nat)
    requires offset <= U32_MAX && |region.bytes| <= U32_MAX
    requires at + 16 <= |data| && data[at..at + 16] == RegionEntry(region, offset)
    ensures Field(data, at, 8) == region.address && Field(data, at + 8, 4) == offset
    ensures Field(data, at + 12, 4) == |region.bytes|
  {
    hide Le, FromLe, RegionEntry;
    Pow256s();
    FromLeLe(region.address, 8);
    FromLeLe(offset, 4);
    FromLeLe(|region.bytes|, 4);
    var b := RegionEntry(region, offset);
    SliceOfSlice(data, at, at + 16, 0, 8);
    SliceOfSlice(data, at, at + 16, 8, 12);
    SliceOfSlice(data, at, at + 16, 12, 16);
    RegionEntryParts(region, offset);
  }

  lemma RegionEntryParts(region: Region, offset: nat)
    ensures (var b := RegionEntry(region, offset);
      b[0..8] == Le(region.address, 8) && b[8..12] == Le(offset, 4) && b[12..16] == Le(|region.bytes|, 4))
  {
    hide Le;
    var b := RegionEntry(region, offset);
    assert b[0..8] == Le(region.address, 8);
    assert b[8..12] == Le(offset, 4);
    assert b[12..16] == Le(|region.bytes|, 4);
  }

  // ------------------------------------------------------------------ damage

  function Bits8(b: seq<byte>): (r: seq<bv8>)
    ensures |r| == |b| && forall i | 0 <= i < |b| :: r[i] == Crc.Octet(b[i])
  {
    seq(|b|, i requires 0 <= i < |b| => Crc.Octet(b[i]))
  }

  lemma Bits8Injective(a: seq<byte>, b: seq<byte>)
    requires Bits8(a) == Bits8(b)
    ensures a == b
  {
    hide Crc.Octet;
    forall i | 0 <= i < |a|
      ensures a[i] == b[i]
    {
      assert Bits8(a)[i] == Bits8(b)[i];
      Crc.OctetInjective(a[i], b[i]);
    }
  }

  lemma CrcOfIs(b: seq<byte>)
    ensures CrcOf(b) == Crc.Value(Crc.Crc32(Bits8(b)))
  {
    hide Crc.Crc32, Crc.Value, Crc.Octet;
    assert seq(|b|, i requires 0 <= i < |b| => Crc.Octet(b[i])) == Bits8(b);
  }

  lemma CrcDiffers(head: seq<byte>, u: seq<byte>, v: seq<byte>, rest: seq<byte>)
    requires |u| == |v| <= 4 && u != v
    ensures CrcOf(head + u + rest) != CrcOf(head + v + rest)
  {
    hide Crc.Crc32, CrcOf, Crc.Value, Bits8;
    CrcOfIs(head + u + rest);
    CrcOfIs(head + v + rest);
    Bits8Append(head, u, rest);
    Bits8Append(head, v, rest);
    if Bits8(u) == Bits8(v) {
      Bits8Injective(u, v);
    } else {
      Crc.FourBytesDetected(Bits8(head), Bits8(u), Bits8(v), Bits8(rest));
      if CrcOf(head + u + rest) == CrcOf(head + v + rest) {
        Crc.ValueInjective(Crc.Crc32(Bits8(head + u + rest)), Crc.Crc32(Bits8(head + v + rest)));
      }
    }
  }

  lemma Bits8Append(a: seq<byte>, b: seq<byte>, c: seq<byte>)
    ensures Bits8(a + b + c) == Bits8(a) + Bits8(b) + Bits8(c)
  {
    hide Crc.Octet;
  }

  /** Any damage to the contents within four consecutive bytes is refused as a CRC mismatch. */
  lemma DamageIsNoticed(r: Report, at: nat, bytes: seq<byte>, tail: seq<byte>)
    requires |bytes| <= 4 && HEADER_SIZE <= at && at + |bytes| <= |Image(r)|
    requires Image(r)[at..at + |bytes|] != bytes
    ensures ParseOf(Patch(Image(r), at, bytes) + tail) == Failed(CrcMismatch)
  {
    hide Image, CrcOf, Checked, Body, Flags, WasCut, HeaderIs, ParseOf, Patch;
    ImageParts(r);
    HeaderInImage(r, []);
    assert Image(r) + [] == Image(r);
    DamageRefused(Image(r), CrcOf(Checked(r)), Flags(r, WasCut(r)), r.version, r.counter, at, bytes, tail);
  }

  lemma DamageRefused(image: seq<byte>, crc: u32, flags: u16, version: seq<byte>, counter: u64,
                      at: nat, bytes: seq<byte>, tail: seq<byte>)
    requires |image| <= U32_MAX && |bytes| <= 4 && HEADER_SIZE <= at && at + |bytes| <= |image|
    requires HeaderIs(image, |image|, crc, flags, version, counter) && CrcOf(image[HEADER_SIZE..]) == crc
    requires image[at..at + |bytes|] != bytes
    ensures ParseOf(Patch(image, at, bytes) + tail) == Failed(CrcMismatch)
  {
    hide CrcOf, HeaderIs, ParseOf, Patch;
    var d, k := Patch(image, at, bytes) + tail, at + |bytes|;
    PatchedParts(image, at, bytes, tail);
    SameHeader(image, d, |image|, crc, flags, version, counter);
    CrcDiffers(image[HEADER_SIZE..at], image[at..k], bytes, image[k..]);
    Refused(d, |image|, crc, flags, version, counter);
  }

  lemma PatchedParts(image: seq<byte>, at: nat, bytes: seq<byte>, tail: seq<byte>)
    requires HEADER_SIZE <= at && at + |bytes| <= |image|
    ensures (var (d, k) := (Patch(image, at, bytes) + tail, at + |bytes|);
      image[HEADER_SIZE..] == image[HEADER_SIZE..at] + image[at..k] + image[k..]
      && d[..HEADER_SIZE] == image[..HEADER_SIZE]
      && d[HEADER_SIZE..|image|] == image[HEADER_SIZE..at] + bytes + image[k..])
  {
  }

  lemma Refused(d: seq<byte>, total: u32, crc: u32, flags: u16, version: seq<byte>, counter: u64)
    requires HeaderIs(d, total, crc, flags, version, counter) && HEADER_SIZE <= total <= |d|
    requires CrcOf(d[HEADER_SIZE..total]) != crc
    ensures ParseOf(d) == Failed(CrcMismatch)
  {
    hide Field, CrcOf, SectionsOf, StripZeros, Version16;
  }

  lemma SameHeader(a: seq<byte>, b: seq<byte>, total: u32, crc: u32, flags: u16, version: seq<byte>, counter: u64)
    requires HeaderIs(a, total, crc, flags, version, counter) && |b| >= HEADER_SIZE && a[..HEADER_SIZE] == b[..HEADER_SIZE]
    ensures HeaderIs(b, total, crc, flags, version, counter)
  {
    hide FromLe, Version16;
    SameSlice(a, b, 0, 4);
    SameSlice(a, b, 4, 6);
    SameSlice(a, b, 6, 8);
    SameSlice(a, b, 8, 12);
    SameSlice(a, b, 12, 16);
    SameSlice(a, b, 16, 18);
    SameSlice(a, b, 18, 20);
    SameSlice(a, b, 20, 24);
    SameSlice(a, b, 24, 28);
    SameSlice(a, b, 32, 48);
    SameSlice(a, b, 48, 56);
    assert a[..4] == a[0..4] && b[..4] == b[0..4];
  }

  lemma SameSlice(a: seq<byte>, b: seq<byte>, i: nat, j: nat)
    requires i <= j <= HEADER_SIZE <= |a| && HEADER_SIZE <= |b| && a[..HEADER_SIZE] == b[..HEADER_SIZE]
    ensures a[i..j] == b[i..j]
  {
    SliceOfSlice(a, 0, HEADER_SIZE, i, j);
    SliceOfSlice(b, 0, HEADER_SIZE, i, j);
  }
}
