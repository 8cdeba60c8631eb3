/**
 The crash-dump image of crates/nanochrono-baremetal/src/crashdump.rs, version 1:
 a 64-byte header, a table of seven sections, and the section bodies, each
 8-aligned, cut off where the 16 KiB image ends.
 */
module DumpFormat {
  import opened Bytes
  import Crc

  const HEADER_SIZE := 64
  const SECTIONS := 7
  const TABLE_SIZE := 112
  const BODY := 176
  const CAPACITY := 16384
  const MACHINE := 0x8664

  const FLAG_CPU_EXCEPTION := 1
  const FLAG_FRAME_POINTER_WALK := 2
  const FLAG_TRUNCATED := 4

  const MAGIC: seq<byte> := [0x44, 0x55, 0x4D, 0x50]

  // --------------------------------------------------------------- contents

  /** A kept region of memory: its address and its bytes. */
  datatype Region = Region(address: u64, bytes: seq<byte>)

  /** What a dump records. */
  datatype Report = Report(
    exception: bool,
    words: seq<u64>,
    reason: seq<byte>,
    driver: seq<byte>,
    trace: seq<u64>,
    scan: seq<u64>,
    regions: seq<Region>,
    version: seq<byte>,
    counter: u64)

  function Words(ws: seq<u64>): seq<byte> {
    if ws == [] then [] else Le(ws[0], 8) + Words(ws[1..])
  }

  /** A region's address, its offset into the memory section, and its size. */
  function RegionEntry(r: Region, offset: nat): (b: seq<byte>)
    ensures |b| == 16
  {
    Le(r.address, 8) + Le(offset, 4) + Le(|r.bytes|, 4)
  }

  function RegionTable(rs: seq<Region>, offset: nat): (b: seq<byte>)
    ensures |b| == 16 * |rs|
  {
    if rs == [] then [] else RegionEntry(rs[0], offset) + RegionTable(rs[1..], offset + |rs[0].bytes|)
  }

  function Memory(rs: seq<Region>): seq<byte> {
    if rs == [] then [] else rs[0].bytes + Memory(rs[1..])
  }

  /** The bodies of the seven sections, in order; section `i` has kind `i + 1`. */
  function Bodies(r: Report): (b: seq<seq<byte>>)
    ensures |b| == SECTIONS
  {
    [Words(r.words), r.reason, r.driver, Words(r.trace), Words(r.scan), RegionTable(r.regions, 0), Memory(r.regions)]
  }

  // ----------------------------------------------------------------- layout

  function Put(out: seq<byte>, bytes: seq<byte>): (r: seq<byte>)
    requires |out| <= CAPACITY
    ensures |out| <= |r| <= CAPACITY && out <= r
  {
    if |bytes| <= CAPACITY - |out| then out + bytes else out + bytes[..CAPACITY - |out|]
  }

  function Pad8(out: seq<byte>): (r: seq<byte>)
    requires |out| <= CAPACITY
    ensures |out| <= |r| <= CAPACITY && |r| % 8 == 0 && out <= r
  {
    out + Zeros((8 - |out| % 8) % 8)
  }

  /** The image with these sections laid out behind `out`. */
  function Lay(out: seq<byte>, bodies: seq<seq<byte>>): (r: seq<byte>)
    requires |out| <= CAPACITY
    ensures |out| <= |r| <= CAPACITY
    decreases |bodies|
  {
    if bodies == [] then out else Lay(Put(Pad8(out), bodies[0]), bodies[1..])
  }

  datatype Entry = Entry(kind: u32, offset: u32, size: u32)

  /** Where `Lay` puts each section and how much of it. */
  function Entries(out: seq<byte>, bodies: seq<seq<byte>>, kind: u32): (r: seq<Entry>)
    requires |out| <= CAPACITY && kind + |bodies| <= U32_MAX
    ensures |r| == |bodies|
    decreases |bodies|
  {
    if bodies == [] then []
    else
      var start := |Pad8(out)|;
      var after := Put(Pad8(out), bodies[0]);
      [Entry(kind, start, |after| - start)] + Entries(after, bodies[1..], kind + 1)
  }

  /** Some byte of some section did not fit. */
  predicate Cut(out: seq<byte>, bodies: seq<seq<byte>>)
    requires |out| <= CAPACITY
    decreases |bodies|
  {
    bodies != [] && (|bodies[0]| > CAPACITY - |Pad8(out)| || Cut(Put(Pad8(out), bodies[0]), bodies[1..]))
  }

  function Flags(r: Report, cut: bool): u16 {
    (if r.exception then FLAG_CPU_EXCEPTION else 0) + (if |r.trace| > 1 then FLAG_FRAME_POINTER_WALK else 0)
    + (if cut then FLAG_TRUNCATED else 0)
  }

  function Version16(v: seq<byte>): (r: seq<byte>)
    ensures |r| == 16
  {
    if |v| <= 16 then v + Zeros(16 - |v|) else v[..16]
  }

  function EntryBytes(e: Entry): (r: seq<byte>)
    ensures |r| == 16
  {
    Le(e.kind, 4) + Le(e.offset, 4) + Le(e.size, 4) + Zeros(4)
  }

  function Table(es: seq<Entry>): (r: seq<byte>)
    ensures |r| == 16 * |es|
  {
    if es == [] then [] else EntryBytes(es[0]) + Table(es[1..])
  }

  function CrcOf(bytes: seq<byte>): u32 {
    Crc.Value(Crc.Crc32(seq(|bytes|, i requires 0 <= i < |bytes| => Crc.Octet(bytes[i]))))
  }

  function HeaderStart(total: nat): (r: seq<byte>)
    ensures |r| == 12
  {
    MAGIC + Le(1, 2) + Le(HEADER_SIZE, 2) + Le(total, 4)
  }

  function HeaderEnd(flags: u16, version: seq<byte>, counter: u64): (r: seq<byte>)
    ensures |r| == 48
  {
    Le(MACHINE, 2) + Le(flags, 2) + Le(SECTIONS, 4) + Le(HEADER_SIZE, 4) + Zeros(4) + Version16(version)
    + Le(counter, 8) + Zeros(8)
  }

  /** The header, in the order of its fields; the CRC stands between the two halves. */
  function Header(total: u32, crc: u32, flags: u16, version: seq<byte>, counter: u64): (r: seq<byte>)
    ensures |r| == HEADER_SIZE
  {
    HeaderStart(total) + Le(crc, 4) + HeaderEnd(flags, version, counter)
  }

  function Body(r: Report): (b: seq<byte>)
    ensures BODY <= |b| <= CAPACITY
  {
    Lay(Zeros(BODY), Bodies(r))
  }

  /** The bytes the CRC covers: everything behind the header. */
  function Checked(r: Report): seq<byte> {
    Table(Entries(Zeros(BODY), Bodies(r), 1)) + Body(r)[BODY..]
  }

  /** The whole dump. */
  function Image(r: Report): seq<byte> {
    Header(|Body(r)|, CrcOf(Checked(r)), Flags(r, Cut(Zeros(BODY), Bodies(r))), r.version, r.counter) + Checked(r)
  }
}
