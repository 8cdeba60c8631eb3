/**
 The writer of crates/nanochrono-baremetal/src/crashdump.rs: a bounded cursor over
 the 16 KiB image, and the build that fills in the header once the offsets are known.
 */
module DumpWriter {
  import opened Bytes
  import opened DumpFormat
  import DumpRoundTrip

  // ------------------------------------------------------------ about putting

  predicate Overflows(out: seq<byte>, bytes: seq<byte>) {
    |bytes| > CAPACITY - |out|
  }

  /** Two puts are one put of both, also when the end is reached on the way. */
  lemma PutTwice(out: seq<byte>, a: seq<byte>, b: seq<byte>)
    requires |out| <= CAPACITY
    ensures Put(Put(out, a), b) == Put(out, a + b)
    ensures Overflows(out, a) || Overflows(Put(out, a), b) <==> Overflows(out, a + b)
  {
    var room := CAPACITY - |out|;
    if |a| > room {
      assert (a + b)[..room] == a[..room];
      assert Put(Put(out, a), b) == Put(out, a);
    } else if |a| + |b| > room {
      assert (a + b)[..room] == a + b[..room - |a|];
    }
  }

  lemma PutNothing(out: seq<byte>)
    requires |out| <= CAPACITY
    ensures Put(out, []) == out && !Overflows(out, [])
  {
  }

  lemma {:induction false} LayNext(out: seq<byte>, bodies: seq<seq<byte>>, body: seq<byte>, kind: u32)
    requires |out| <= CAPACITY && kind + |bodies| + 1 <= U32_MAX
    ensures (var (padded, all) := (Pad8(Lay(out, bodies)), bodies + [body]);
      Lay(out, all) == Put(padded, body)
      && (Cut(out, all) <==> Cut(out, bodies) || Overflows(padded, body))
      && Entries(out, all, kind)
         == Entries(out, bodies, kind) + [Entry(kind + |bodies|, |padded|, |Put(padded, body)| - |padded|)])
    decreases |bodies|
  {
    hide Put, Pad8;
    var all := bodies + [body];
    if bodies == [] {
      assert all[0] == body && all[1..] == [];
    } else {
      var after := Put(Pad8(out), bodies[0]);
      assert all[0] == bodies[0] && all[1..] == bodies[1..] + [body];
      LayNext(after, bodies[1..], body, kind + 1);
    }
  }

  // ---------------------------------------------------------- about patching

  /** `s` starts with `done`, then zeros up to `BODY`, then `rest`. */
  predicate Filled(s: seq<byte>, done: seq<byte>, rest: seq<byte>) {
    |done| <= BODY && s == done + Zeros(BODY - |done|) + rest
  }

  /** The next field, `gap` bytes further on. */
  lemma FillNext(s: seq<byte>, done: seq<byte>, rest: seq<byte>, gap: nat, bytes: seq<byte>)
    requires Filled(s, done, rest) && |done| + gap + |bytes| <= BODY
    ensures Filled(Patch(s, |done| + gap, bytes), done + Zeros(gap) + bytes, rest)
  {
  }

  // ----------------------------------------------------------------- cursor

  class Cursor {
    const buf: array<byte>
    var len: nat
    var truncated: bool

    ghost predicate Valid()
      reads this, buf
    {
      buf.Length == CAPACITY && len <= CAPACITY
    }

    ghost function Written(): (s: seq<byte>)
      requires Valid()
      reads this, buf
      ensures |s| == len
    {
      buf[..len]
    }

    /** Over a zeroed image, behind the room for the header and the table. */
    constructor ()
      ensures Valid() && fresh(buf) && Written() == Zeros(BODY) && !truncated
    {
      buf := new byte[CAPACITY](_ => 0);
      len := BODY;
      truncated := false;
    }

    method Put(bytes: seq<byte>)
      requires Valid()
      modifies this, buf
      ensures Valid() && Written() == DumpFormat.Put(old(Written()), bytes)
      ensures truncated == (old(truncated) || Overflows(old(Written()), bytes))
    {
      var room := buf.Length - len;
      var n := if |bytes| < room then |bytes| else room;
      var start := len;
      forall i | 0 <= i < n {
        buf[start + i] := bytes[i];
      }
      len := len + n;
      truncated := truncated || n < |bytes|;
      assert buf[..start] == old(buf[..len]) && buf[start..len] == bytes[..n];
    }

    method Align8()
      requires Valid()
      modifies this, buf
      ensures Valid() && Written() == Pad8(old(Written())) && truncated == old(truncated)
    {
      var was := len;
      while len % 8 != 0 && len < buf.Length
        invariant Valid() && was <= len <= was + (8 - was % 8) % 8 && truncated == old(truncated)
        invariant buf[..len] == old(buf[..len]) + Zeros(len - was)
        decreases buf.Length - len
      {
        buf[len] := 0;
        len := len + 1;
      }
    }

    /** Overwrites bytes of the header or the table; the source's `u16_at`, `u32_at` and `u64_at` do so with numbers. */
    method BytesAt(at: nat, bytes: seq<byte>)
      requires Valid() && at + |bytes| <= BODY
      modifies buf
      ensures buf[..] == Patch(old(buf[..]), at, bytes)
    {
      forall i | 0 <= i < |bytes| {
        buf[at + i] := bytes[i];
      }
    }

    /** As `BytesAt`, into what is still zero. */
    method FieldAt(at: nat, bytes: seq<byte>, ghost done: seq<byte>, ghost rest: seq<byte>) returns (ghost now: seq<byte>)
      requires Valid() && Filled(buf[..], done, rest) && |done| <= at && at + |bytes| <= BODY
      modifies buf
      ensures now == done + Zeros(at - |done|) + bytes && Filled(buf[..], now, rest)
    {
      hide Filled, Patch;
      FillNext(buf[..], done, rest, at - |done|, bytes);
      BytesAt(at, bytes);
      now := done + Zeros(at - |done|) + bytes;
    }

    // ------------------------------------------------------------- sections

    method PutWords(ws: seq<u64>)
      requires Valid()
      modifies this, buf
      ensures Valid() && Written() == DumpFormat.Put(old(Written()), Words(ws))
      ensures truncated == (old(truncated) || Overflows(old(Written()), Words(ws)))
    {
      hide DumpFormat.Put, Le, Overflows;
      ghost var was := Written();
      PutNothing(was);
      for i := 0 to |ws|
        invariant Valid() && Written() == DumpFormat.Put(was, Words(ws[..i]))
        invariant truncated == (old(truncated) || Overflows(was, Words(ws[..i])))
      {
        WordsNext(ws, i);
        PutTwice(was, Words(ws[..i]), Le(ws[i], 8));
        Put(Le(ws[i], 8));
      }
      assert ws[..|ws|] == ws;
    }

    method PutRegionTable(rs: seq<Region>)
      requires Valid()
      modifies this, buf
      ensures Valid() && Written() == DumpFormat.Put(old(Written()), RegionTable(rs, 0))
      ensures truncated == (old(truncated) || Overflows(old(Written()), RegionTable(rs, 0)))
    {
      hide DumpFormat.Put, Le, Overflows;
      ghost var was := Written();
      PutNothing(was);
      var offset := 0;
      for i := 0 to |rs|
        invariant Valid() && offset == |Memory(rs[..i])|
        invariant Written() == DumpFormat.Put(was, RegionTable(rs[..i], 0))
        invariant truncated == (old(truncated) || Overflows(was, RegionTable(rs[..i], 0)))
      {
        PutRegionEntry(rs[i], offset);
        TableNext(rs, 0, i);
        MemoryNext(rs, i);
        PutTwice(was, RegionTable(rs[..i], 0), RegionEntry(rs[i], offset));
        offset := offset + |rs[i].bytes|;
      }
      assert rs[..|rs|] == rs;
    }

    method PutRegionEntry(r: Region, offset: nat)
      requires Valid()
      modifies this, buf
      ensures Valid() && Written() == DumpFormat.Put(old(Written()), RegionEntry(r, offset))
      ensures truncated == (old(truncated) || Overflows(old(Written()), RegionEntry(r, offset)))
    {
      hide DumpFormat.Put, Le, Overflows;
      ghost var was := Written();
      Put(Le(r.address, 8));
      Put(Le(offset, 4));
      PutTwice(was, Le(r.address, 8), Le(offset, 4));
      Put(Le(|r.bytes|, 4));
      PutTwice(was, Le(r.address, 8) + Le(offset, 4), Le(|r.bytes|, 4));
    }

    method PutRegions(rs: seq<Region>)
      requires Valid()
      modifies this, buf
      ensures Valid() && Written() == DumpFormat.Put(old(Written()), Memory(rs))
      ensures truncated == (old(truncated) || Overflows(old(Written()), Memory(rs)))
    {
      hide DumpFormat.Put, Overflows;
      ghost var was := Written();
      PutNothing(was);
      for i := 0 to |rs|
        invariant Valid() && Written() == DumpFormat.Put(was, Memory(rs[..i]))
        invariant truncated == (old(truncated) || Overflows(was, Memory(rs[..i])))
      {
        MemoryNext(rs, i);
        PutTwice(was, Memory(rs[..i]), rs[i].bytes);
        Put(rs[i].bytes);
      }
      assert rs[..|rs|] == rs;
    }

    // ---------------------------------------------------- the seven sections

    /** The sections so far, their table, and whether any was cut. */
    ghost predicate Laid(table: seq<Entry>, bodies: seq<seq<byte>>)
      reads this, buf
    {
      Valid() && |bodies| <= SECTIONS && Written() == Lay(Zeros(BODY), bodies)
      && table == Entries(Zeros(BODY), bodies, 1) && truncated == Cut(Zeros(BODY), bodies)
    }

    method WordsSection(table: seq<Entry>, ws: seq<u64>, ghost bodies: seq<seq<byte>>) returns (r: seq<Entry>)
      requires Laid(table, bodies) && |bodies| < SECTIONS
      modifies this, buf
      ensures Laid(r, bodies + [Words(ws)])
    {
      hide DumpFormat.Put, Overflows, Lay, Entries, Cut, Pad8, Words;
      LayNext(Zeros(BODY), bodies, Words(ws), 1);
      Align8();
      var start := len;
      PutWords(ws);
      r := table + [Entry(|table| + 1, start, len - start)];
    }

    method BytesSection(table: seq<Entry>, bytes: seq<byte>, ghost bodies: seq<seq<byte>>) returns (r: seq<Entry>)
      requires Laid(table, bodies) && |bodies| < SECTIONS
      modifies this, buf
      ensures Laid(r, bodies + [bytes])
    {
      hide DumpFormat.Put, Overflows, Lay, Entries, Cut, Pad8;
      LayNext(Zeros(BODY), bodies, bytes, 1);
      Align8();
      var start := len;
      Put(bytes);
      r := table + [Entry(|table| + 1, start, len - start)];
    }

    method RegionTableSection(table: seq<Entry>, rs: seq<Region>, ghost bodies: seq<seq<byte>>) returns (r: seq<Entry>)
      requires Laid(table, bodies) && |bodies| < SECTIONS
      modifies this, buf
      ensures Laid(r, bodies + [RegionTable(rs, 0)])
    {
      hide DumpFormat.Put, Overflows, Lay, Entries, Cut, Pad8, RegionTable;
      LayNext(Zeros(BODY), bodies, RegionTable(rs, 0), 1);
      Align8();
      var start := len;
      PutRegionTable(rs);
      r := table + [Entry(|table| + 1, start, len - start)];
    }

    method MemorySection(table: seq<Entry>, rs: seq<Region>, ghost bodies: seq<seq<byte>>) returns (r: seq<Entry>)
      requires Laid(table, bodies) && |bodies| < SECTIONS
      modifies this, buf
      ensures Laid(r, bodies + [Memory(rs)])
    {
      hide DumpFormat.Put, Overflows, Lay, Entries, Cut, Pad8, Memory;
      LayNext(Zeros(BODY), bodies, Memory(rs), 1);
      Align8();
      var start := len;
      PutRegions(rs);
      r := table + [Entry(|table| + 1, start, len - start)];
    }

    // --------------------------------------------------- header and table

    /** Fills in the header, all but the CRC. */
    method WriteHeader(flags: u16, version: seq<byte>, counter: u64, ghost rest: seq<byte>)
      requires Valid() && Filled(buf[..], [], rest)
      modifies buf
      ensures Filled(buf[..], Header(len, 0, flags, version, counter), rest)
    {
      hide Le, Filled, Header, Front;
      ghost var a := WriteFront(flags, rest);
      var n := if |version| < 16 then |version| else 16;
      a := FieldAt(32, version[..n], a, rest);
      a := FieldAt(48, Le(counter, 8), a, rest);
      a := FieldAt(64, [], a, rest);
      HeaderIsFront(len, flags, version, counter);
      assert a == Header(len, 0, flags, version, counter);
    }

    method WriteFront(flags: u16, ghost rest: seq<byte>) returns (ghost a: seq<byte>)
      requires Valid() && Filled(buf[..], [], rest)
      modifies buf
      ensures a == Front(len, flags) && Filled(buf[..], a, rest)
    {
      hide Le, Filled, HeaderStart;
      a := WriteStart(rest);
      a := FieldAt(16, Le(MACHINE, 2), a, rest);
      a := FieldAt(18, Le(flags, 2), a, rest);
      a := FieldAt(20, Le(SECTIONS, 4), a, rest);
      a := FieldAt(24, Le(HEADER_SIZE, 4), a, rest);
    }

    method WriteStart(ghost rest: seq<byte>) returns (ghost a: seq<byte>)
      requires Valid() && Filled(buf[..], [], rest)
      modifies buf
      ensures a == HeaderStart(len) && Filled(buf[..], a, rest)
    {
      hide Le, Filled;
      a := FieldAt(0, MAGIC, [], rest);
      a := FieldAt(4, Le(1, 2), a, rest);
      a := FieldAt(6, Le(HEADER_SIZE, 2), a, rest);
      a := FieldAt(8, Le(len, 4), a, rest);
    }

    /** Fills in the table behind the header. */
    method WriteTable(table: seq<Entry>, ghost header: seq<byte>, ghost rest: seq<byte>)
      requires Valid() && |header| == HEADER_SIZE && |table| == SECTIONS && Filled(buf[..], header, rest)
      modifies buf
      ensures buf[..] == header + Table(table) + rest
    {
      hide Le, Filled, EntryBytes;
      ghost var a := header;
      for i := 0 to SECTIONS
        invariant a == header + Table(table[..i]) && Filled(buf[..], a, rest)
      {
        a := WriteEntry(table[i], HEADER_SIZE + i * 16, a, rest);
        TableOfNext(table, i);
      }
      assert table[..SECTIONS] == table;
      FilledWhole(buf[..], a, rest);
    }

    method WriteEntry(e: Entry, at: nat, ghost done: seq<byte>, ghost rest: seq<byte>) returns (ghost a: seq<byte>)
      requires Valid() && at == |done| <= BODY - 16 && Filled(buf[..], done, rest)
      modifies buf
      ensures a == done + EntryBytes(e) && Filled(buf[..], a, rest)
    {
      hide Le, Filled;
      a := FieldAt(at, Le(e.kind, 4), done, rest);
      a := FieldAt(at + 4, Le(e.offset, 4), a, rest);
      a := FieldAt(at + 8, Le(e.size, 4), a, rest);
      a := FieldAt(at + 16, [], a, rest);
    }
  }

  lemma {:induction false} TableOfNext(es: seq<Entry>, i: nat)
    requires i < |es|
    ensures Table(es[..i + 1]) == Table(es[..i]) + EntryBytes(es[i])
  {
    hide EntryBytes;
    if i > 0 {
      TableOfNext(es[1..], i - 1);
      assert es[..i + 1][1..] == es[1..][..i] && es[..i][1..] == es[1..][..i - 1];
    } else {
      assert es[..1][1..] == [];
    }
  }

  lemma FilledWhole(s: seq<byte>, done: seq<byte>, rest: seq<byte>)
    requires Filled(s, done, rest) && |done| == BODY
    ensures s == done + rest
  {
  }

  /** The header up to the reserved word, without its CRC. */
  function Front(total: nat, flags: nat): (r: seq<byte>)
    ensures |r| == 28
  {
    HeaderStart(total) + Zeros(4) + Le(MACHINE, 2) + Le(flags, 2) + Le(SECTIONS, 4) + Le(HEADER_SIZE, 4)
  }

  lemma HeaderIsFront(total: u32, flags: u16, version: seq<byte>, counter: u64)
    ensures (var n := if |version| < 16 then |version| else 16;
      Header(total, 0, flags, version, counter)
      == Front(total, flags) + Zeros(4) + version[..n] + Zeros(16 - n) + Le(counter, 8) + Zeros(8))
  {
    ZeroWord();
    hide Le;
  }

  lemma ZeroWord()
    ensures Le(0, 4) == Zeros(4)
  {
  }

  lemma {:induction false} WordsNext(ws: seq<u64>, i: nat)
    requires i < |ws|
    ensures Words(ws[..i + 1]) == Words(ws[..i]) + Le(ws[i], 8)
  {
    hide Le;
    if i > 0 {
      WordsNext(ws[1..], i - 1);
      assert ws[..i + 1][1..] == ws[1..][..i] && ws[..i][1..] == ws[1..][..i - 1];
    } else {
      assert ws[..1][1..] == [];
    }
  }

  lemma {:induction false} MemoryNext(rs: seq<Region>, i: nat)
    requires i < |rs|
    ensures Memory(rs[..i + 1]) == Memory(rs[..i]) + rs[i].bytes
  {
    if i > 0 {
      MemoryNext(rs[1..], i - 1);
      assert rs[..i + 1][1..] == rs[1..][..i] && rs[..i][1..] == rs[1..][..i - 1];
    } else {
      assert rs[..1][1..] == [];
    }
  }

  lemma {:induction false} TableNext(rs: seq<Region>, offset: nat, i: nat)
    requires i < |rs|
    ensures RegionTable(rs[..i + 1], offset)
      == RegionTable(rs[..i], offset) + RegionEntry(rs[i], offset + |Memory(rs[..i])|)
  {
    hide RegionEntry;
    if i > 0 {
      TableNext(rs[1..], offset + |rs[0].bytes|, i - 1);
      assert rs[..i + 1][1..] == rs[1..][..i] && rs[..i][1..] == rs[1..][..i - 1];
    } else {
      assert rs[..1][1..] == [];
    }
  }

  // ------------------------------------------------------------------ build

  lemma LaidIsFilled(s: seq<byte>, bodies: seq<seq<byte>>)
    requires Lay(Zeros(BODY), bodies) <= s
    ensures Filled(s, [], s[BODY..])
  {
    DumpRoundTrip.LayGrows(Zeros(BODY), bodies);
  }

  lemma CrcGoesIn(total: u32, crc: u32, flags: u16, version: seq<byte>, counter: u64, rest: seq<byte>)
    ensures Patch(Header(total, 0, flags, version, counter) + rest, 12, Le(crc, 4))
      == Header(total, crc, flags, version, counter) + rest
  {
    hide Le, HeaderStart, HeaderEnd;
    var back := HeaderEnd(flags, version, counter) + rest;
    var s := HeaderStart(total) + Le(0, 4) + back;
    assert s == Header(total, 0, flags, version, counter) + rest;
    assert s[16..] == back && s[..12] == HeaderStart(total);
  }

  /** Writes the dump: the sections, then the header and the table, then the CRC over what it covers. */
  method Build(r: Report) returns (image: seq<byte>)
    ensures image == Image(r)
  {
    hide Header, Table, Lay, Entries, Cut, CrcOf, Words, RegionTable, Memory, Filled, Patch, Version16, Pad8, Le;
    var c := new Cursor();
    var table := PutSections(c, r);
    var flags := Flags(r, c.truncated);
    ghost var rest := c.buf[BODY..];
    LaidIsFilled(c.buf[..], Bodies(r));
    c.WriteHeader(flags, r.version, r.counter, rest);
    c.WriteTable(table, Header(c.len, 0, flags, r.version, r.counter), rest);
    assert c.buf[HEADER_SIZE..c.len] == Checked(r);
    var crc := CrcOf(c.buf[HEADER_SIZE..c.len]);
    ghost var header := Header(c.len, 0, flags, r.version, r.counter);
    assert c.buf[..] == header + (Table(table) + rest);
    CrcGoesIn(c.len, crc, flags, r.version, r.counter, Table(table) + rest);
    c.BytesAt(12, Le(crc, 4));
    image := c.buf[..c.len];
  }

  method PutSections(c: Cursor, r: Report) returns (table: seq<Entry>)
    requires c.Valid() && c.Written() == Zeros(BODY) && !c.truncated
    modifies c, c.buf
    ensures c.Laid(table, Bodies(r))
  {
    hide Lay, Entries, Cut, Words, RegionTable, Memory;
    StartsLaid();
    ghost var done := [];
    table := c.WordsSection([], r.words, done);
    done := done + [Words(r.words)];
    table := c.BytesSection(table, r.reason, done);
    done := done + [r.reason];
    table := c.BytesSection(table, r.driver, done);
    done := done + [r.driver];
    table := c.WordsSection(table, r.trace, done);
    done := done + [Words(r.trace)];
    table := c.WordsSection(table, r.scan, done);
    done := done + [Words(r.scan)];
    table := c.RegionTableSection(table, r.regions, done);
    done := done + [RegionTable(r.regions, 0)];
    table := c.MemorySection(table, r.regions, done);
    assert Bodies(r) == done + [Memory(r.regions)];
  }

  lemma StartsLaid()
    ensures Lay(Zeros(BODY), []) == Zeros(BODY) && Entries(Zeros(BODY), [], 1) == [] && !Cut(Zeros(BODY), [])
  {
  }
}
