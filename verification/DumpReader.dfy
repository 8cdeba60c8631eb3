/**
 `parse` of tools/nanodump.py: magic, version, length, CRC, then the section table.
 */
module DumpReader {
  import opened Bytes
  import opened DumpFormat

  datatype Error = TooShort | BadMagic | BadVersion | MissingBytes | CrcMismatch | BadTable | SectionPastEnd

  datatype Result =
    | Parsed(machine: nat, flags: nat, kernel: seq<byte>, counter: nat, size: nat, sections: map<nat, seq<byte>>)
    | Failed(error: Error)

  function StripZeros(b: seq<byte>): (r: seq<byte>)
    ensures r <= b && (r == [] || r[|r| - 1] != 0)
    ensures forall i | |r| <= i < |b| :: b[i] == 0
    decreases |b|
  {
    if b == [] then [] else if b[|b| - 1] != 0 then b else StripZeros(b[..|b| - 1])
  }

  /** The sections of the first `n` table entries; a later entry of a kind replaces an earlier one. */
  datatype Sections = Sections(found: map<nat, seq<byte>>) | Bad(error: Error)

  function SectionsOf(data: seq<byte>, table: nat, total: nat, n: nat): Sections
    requires total <= |data|
  {
    if n == 0 then Sections(map[])
    else
      match SectionsOf(data, table, total, n - 1)
      case Bad(e) => Bad(e)
      case Sections(found) =>
        var at := table + (n - 1) * 16;
        if at + 16 > |data| then Bad(BadTable)
        else
          var (kind, offset, size) := (Field(data, at, 4), Field(data, at + 4, 4), Field(data, at + 8, 4));
          if offset + size > total then Bad(SectionPastEnd)
          else Sections(found[kind := data[offset..offset + size]])
  }

  /** The bytes between the header and the end, as the reader slices them. */
  function CheckedBytes(data: seq<byte>): seq<byte>
    requires |data| >= HEADER_SIZE && Field(data, 8, 4) <= |data|
  {
    var (from, total) := (Field(data, 6, 2), Field(data, 8, 4));
    if from <= total then data[from..total] else []
  }

  function ParseOf(data: seq<byte>): Result {
    if |data| < HEADER_SIZE then Failed(TooShort)
    else if data[..4] != MAGIC then Failed(BadMagic)
    else if Field(data, 4, 2) != 1 then Failed(BadVersion)
    else if Field(data, 8, 4) > |data| then Failed(MissingBytes)
    else if CrcOf(CheckedBytes(data)) != Field(data, 12, 4) then Failed(CrcMismatch)
    else
      match SectionsOf(data, Field(data, 24, 4), Field(data, 8, 4), Field(data, 20, 4))
      case Bad(e) => Failed(e)
      case Sections(found) =>
        Parsed(Field(data, 16, 2), Field(data, 18, 2), StripZeros(data[32..48]), Field(data, 48, 8),
               Field(data, 8, 4), found)
  }

  method Parse(data: seq<byte>) returns (r: Result)
    ensures r == ParseOf(data)
  {
    hide Field, SectionsOf, CrcOf, StripZeros, CheckedBytes;
    if |data| < HEADER_SIZE {
      return Failed(TooShort);
    }
    var total := Field(data, 8, 4);
    if data[..4] != MAGIC {
      return Failed(BadMagic);
    }
    if Field(data, 4, 2) != 1 {
      return Failed(BadVersion);
    }
    if total > |data| {
      return Failed(MissingBytes);
    }
    if CrcOf(CheckedBytes(data)) != Field(data, 12, 4) {
      return Failed(CrcMismatch);
    }
    var sections := ReadSections(data, Field(data, 24, 4), total, Field(data, 20, 4));
    match sections
    case Bad(e) => return Failed(e);
    case Sections(found) =>
      return Parsed(Field(data, 16, 2), Field(data, 18, 2), StripZeros(data[32..48]), Field(data, 48, 8), total, found);
  }

  method ReadSections(data: seq<byte>, table: nat, total: nat, count: nat) returns (r: Sections)
    requires total <= |data|
    ensures r == SectionsOf(data, table, total, count)
  {
    hide Field;
    var sections: map<nat, seq<byte>> := map[];
    for i := 0 to count
      invariant SectionsOf(data, table, total, i) == Sections(sections)
    {
      var at := table + i * 16;
      if at + 16 > |data| {
        SectionsFailed(data, table, total, i + 1, count);
        return Bad(BadTable);
      }
      var kind, offset, size := Field(data, at, 4), Field(data, at + 4, 4), Field(data, at + 8, 4);
      if offset + size > total {
        SectionsFailed(data, table, total, i + 1, count);
        return Bad(SectionPastEnd);
      }
      sections := sections[kind := data[offset..offset + size]];
    }
    return Sections(sections);
  }

  lemma {:induction false} SectionsFailed(data: seq<byte>, table: nat, total: nat, i: nat, n: nat)
    requires total <= |data| && i <= n && SectionsOf(data, table, total, i).Bad?
    ensures SectionsOf(data, table, total, n) == SectionsOf(data, table, total, i)
  {
    hide Field;
    if i < n {
      SectionsFailed(data, table, total, i, n - 1);
    }
  }

  // ------------------------------------------------------------ header fields

  lemma StartFields(total: u32)
    ensures (var s := HeaderStart(total);
      s[0..4] == MAGIC && s[4..6] == Le(1, 2) && s[6..8] == Le(HEADER_SIZE, 2) && s[8..12] == Le(total, 4))
  {
    hide Le;
  }

  lemma EndFields(flags: u16, version: seq<byte>, counter: u64)
    ensures (var e := HeaderEnd(flags, version, counter);
      e[0..2] == Le(MACHINE, 2) && e[2..4] == Le(flags, 2) && e[4..8] == Le(SECTIONS, 4)
      && e[8..12] == Le(HEADER_SIZE, 4) && e[16..32] == Version16(version) && e[32..40] == Le(counter, 8))
  {
    hide Le, Version16;
  }

  lemma FirstFields(start: seq<byte>, crc: seq<byte>, rest: seq<byte>)
    requires |start| == 12 && |crc| == 4
    ensures (var d := start + crc + rest;
      d[0..4] == start[0..4] && d[4..6] == start[4..6] && d[6..8] == start[6..8]
      && d[8..12] == start[8..12] && d[12..16] == crc)
  {
  }

  lemma LastFields(front: seq<byte>, end: seq<byte>, rest: seq<byte>)
    requires |front| == 16 && |end| == 48
    ensures (var d := front + end + rest;
      d[16..18] == end[0..2] && d[18..20] == end[2..4] && d[20..24] == end[4..8]
      && d[24..28] == end[8..12] && d[32..48] == end[16..32] && d[48..56] == end[32..40])
  {
    SliceInside(front, end, rest, 0, 2);
    SliceInside(front, end, rest, 2, 4);
    SliceInside(front, end, rest, 4, 8);
    SliceInside(front, end, rest, 8, 12);
    SliceInside(front, end, rest, 16, 32);
    SliceInside(front, end, rest, 32, 40);
  }

  lemma HeaderFields(total: u32, crc: u32, flags: u16, version: seq<byte>, counter: u64, rest: seq<byte>)
    ensures (var d := Header(total, crc, flags, version, counter) + rest;
      d[0..4] == MAGIC && d[4..6] == Le(1, 2) && d[6..8] == Le(HEADER_SIZE, 2) && d[8..12] == Le(total, 4)
      && d[12..16] == Le(crc, 4))
    ensures (var d := Header(total, crc, flags, version, counter) + rest;
      d[16..18] == Le(MACHINE, 2) && d[18..20] == Le(flags, 2) && d[20..24] == Le(SECTIONS, 4)
      && d[24..28] == Le(HEADER_SIZE, 4) && d[32..48] == Version16(version) && d[48..56] == Le(counter, 8))
  {
    hide Le, Version16, HeaderStart, HeaderEnd;
    var (start, mid, end) := (HeaderStart(total), Le(crc, 4), HeaderEnd(flags, version, counter));
    StartFields(total);
    EndFields(flags, version, counter);
    assert Header(total, crc, flags, version, counter) + rest == start + mid + (end + rest);
    FirstFields(start, mid, end + rest);
    LastFields(start + mid, end, rest);
  }

  /** The fields of the header as the reader sees them. */
  predicate HeaderIs(d: seq<byte>, total: u32, crc: u32, flags: u16, version: seq<byte>, counter: u64) {
    |d| >= HEADER_SIZE
    && d[..4] == MAGIC && Field(d, 4, 2) == 1 && Field(d, 6, 2) == HEADER_SIZE && Field(d, 8, 4) == total
    && Field(d, 12, 4) == crc && Field(d, 16, 2) == MACHINE && Field(d, 18, 2) == flags
    && Field(d, 20, 4) == SECTIONS && Field(d, 24, 4) == HEADER_SIZE
    && d[32..48] == Version16(version) && Field(d, 48, 8) == counter
  }

  lemma HeaderReads(total: u32, crc: u32, flags: u16, version: seq<byte>, counter: u64, rest: seq<byte>)
    ensures HeaderIs(Header(total, crc, flags, version, counter) + rest, total, crc, flags, version, counter)
  {
    hide Le, FromLe, Version16, Header;
    HeaderFields(total, crc, flags, version, counter, rest);
    Pow256s();
    FromLeLe(1, 2);
    FromLeLe(HEADER_SIZE, 2);
    FromLeLe(total, 4);
    FromLeLe(crc, 4);
    FromLeLe(MACHINE, 2);
    FromLeLe(flags, 2);
    FromLeLe(SECTIONS, 4);
    FromLeLe(HEADER_SIZE, 4);
    FromLeLe(counter, 8);
  }
}
