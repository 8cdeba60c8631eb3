/**
 The PE/COFF file that tools/mkefi.py writes around a program's segments, and how a
 PE loader maps it.
 */
module MkefiPe {
  import opened Bytes
  import opened Wrappers
  import E = MkefiElf

  const FILE_ALIGN := 0x200
  const SECTION_ALIGN := 0x1000

  // ------------------------------------------------------------------ writing

  function AlignFile(n: nat): (r: nat)
    ensures n <= r < n + FILE_ALIGN && r % FILE_ALIGN == 0
  {
    (n + 0x1FF) / 0x200 * 0x200
  }

  function AlignPage(n: nat): (r: nat)
    ensures n <= r < n + SECTION_ALIGN && r % SECTION_ALIGN == 0
  {
    (n + 0xFFF) / 0x1000 * 0x1000
  }

  function RawSize(s: E.Segment): (n: nat)
    ensures |s.body| <= n < |s.body| + FILE_ALIGN
  {
    AlignFile(|s.body|)
  }

  function Padded(s: E.Segment): (r: seq<byte>)
    ensures |r| == RawSize(s)
  {
    s.body + Zeros(RawSize(s) - |s.body|)
  }

  function Raw(ss: seq<E.Segment>): seq<byte> {
    if ss == [] then [] else Padded(ss[0]) + Raw(ss[1..])
  }

  predicate IsCode(s: E.Segment) {
    s.flags % 2 == 1
  }

  /** ".text" or ".data", and code, execute, read or initialised data, read, write. */
  function SectionName(s: E.Segment): (r: seq<byte>)
    ensures |r| == 8
  {
    if IsCode(s) then [0x2E, 0x74, 0x65, 0x78, 0x74, 0, 0, 0] else [0x2E, 0x64, 0x61, 0x74, 0x61, 0, 0, 0]
  }

  function Characteristics(s: E.Segment): u32 {
    if IsCode(s) then 0x6000_0020 else 0xC000_00C0
  }

  function Pointer(s: E.Segment, pointer: nat): nat {
    if RawSize(s) > 0 then pointer else 0
  }

  function SectionHeader(s: E.Segment, pointer: nat): (r: seq<byte>)
    ensures |r| == 40
  {
    SectionName(s) + Le(s.memsz, 4) + Le(s.vaddr, 4) + Le(RawSize(s), 4) + Le(Pointer(s, pointer), 4) + Zeros(12)
    + Le(Characteristics(s), 4)
  }

  function SectionTable(ss: seq<E.Segment>, pointer: nat): (r: seq<byte>)
    ensures |r| == 40 * |ss|
  {
    if ss == [] then [] else SectionHeader(ss[0], pointer) + SectionTable(ss[1..], pointer + RawSize(ss[0]))
  }

  function CodeSize(ss: seq<E.Segment>): nat {
    if ss == [] then 0 else (if IsCode(ss[0]) then RawSize(ss[0]) else 0) + CodeSize(ss[1..])
  }

  function DataSize(ss: seq<E.Segment>): nat {
    if ss == [] then 0 else (if IsCode(ss[0]) then 0 else RawSize(ss[0])) + DataSize(ss[1..])
  }

  function BssSize(ss: seq<E.Segment>): int {
    if ss == [] then 0 else (if IsCode(ss[0]) then 0 else ss[0].memsz - |ss[0].body|) + BssSize(ss[1..])
  }

  function MaxEnd(ss: seq<E.Segment>): (n: nat)
    ensures forall i | 0 <= i < |ss| :: ss[i].vaddr + ss[i].memsz <= n
  {
    if ss == [] then 0
    else
      var (end, rest) := (ss[0].vaddr + ss[0].memsz, MaxEnd(ss[1..]));
      if end > rest then end else rest
  }

  function SizeOfImage(ss: seq<E.Segment>): (n: nat)
    ensures MaxEnd(ss) <= n < MaxEnd(ss) + SECTION_ALIGN && n % SECTION_ALIGN == 0
  {
    AlignPage(MaxEnd(ss))
  }

  function OptSize(wide: bool): nat {
    if wide then 240 else 224
  }

  function DosHeader(): (r: seq<byte>)
    ensures |r| == 64
  {
    [0x4D, 0x5A] + Zeros(58) + Le(0x40, 4)
  }

  function CoffHeader(e: E.Elf): (r: seq<byte>)
    ensures |r| == 24
  {
    [0x50, 0x45, 0, 0] + Le(e.machine, 2) + Le(|e.segments|, 2) + Zeros(12) + Le(OptSize(e.wide), 2)
    + Le(0x20E + (if e.wide then 0x20 else 0x100), 2)
  }

  function OptStart(e: E.Elf): (r: seq<byte>)
    ensures |r| == 32
  {
    Le(if e.wide then 0x20B else 0x10B, 2) + Zeros(2) + Le(CodeSize(e.segments), 4) + Le(DataSize(e.segments), 4)
    + Le(if BssSize(e.segments) >= 0 then BssSize(e.segments) else 0, 4) + Le(e.entry, 4) + Le(E.EFI_BASE, 4)
    + (if e.wide then Zeros(8) else Le(E.EFI_BASE, 4) + Zeros(4))
  }

  function OptMiddle(e: E.Elf): (r: seq<byte>)
    ensures |r| == 40
  {
    Le(SECTION_ALIGN, 4) + Le(FILE_ALIGN, 4) + Zeros(16) + Le(SizeOfImage(e.segments), 4) + Le(FILE_ALIGN, 4) + Zeros(4)
    + Le(10, 2) + Zeros(2)
  }

  function OptEnd(wide: bool): (r: seq<byte>)
    ensures |r| == OptSize(wide) - 72
  {
    Zeros(if wide then 36 else 20) + Le(16, 4) + Zeros(128)
  }

  function Headers(e: E.Elf): (r: seq<byte>)
    ensures |r| == 88 + OptSize(e.wide) + 40 * |e.segments|
  {
    DosHeader() + CoffHeader(e) + OptStart(e) + OptMiddle(e) + OptEnd(e.wide) + SectionTable(e.segments, FILE_ALIGN)
  }

  /** Every number fits its field. */
  predicate Fits(e: E.Elf) {
    e.machine < 0x1_0000 && |e.segments| < 0x1_0000 && e.entry <= U32_MAX && SizeOfImage(e.segments) <= U32_MAX
    && 0 <= BssSize(e.segments) <= U32_MAX && CodeSize(e.segments) <= U32_MAX && DataSize(e.segments) <= U32_MAX
    && SectionsFit(e.segments, FILE_ALIGN)
  }

  predicate SegmentFits(s: E.Segment, pointer: nat) {
    s.memsz <= U32_MAX && s.vaddr <= U32_MAX && RawSize(s) <= U32_MAX && Pointer(s, pointer) <= U32_MAX
  }

  predicate SectionsFit(ss: seq<E.Segment>, pointer: nat) {
    ss == [] || (SegmentFits(ss[0], pointer) && SectionsFit(ss[1..], pointer + RawSize(ss[0])))
  }

  function FileOf(e: E.Elf): (r: E.Result<seq<byte>>)
    ensures r.Ok? ==> |r.value| == FILE_ALIGN + |Raw(e.segments)|
  {
    if !Fits(e) then E.Err(E.FieldTooBig)
    else if |Headers(e)| > FILE_ALIGN then E.Err(E.HeadersTooLong)
    else E.Ok(Headers(e) + Zeros(FILE_ALIGN - |Headers(e)|) + Raw(e.segments))
  }

  // ----------------------------------------------------------- the writer's loop

  lemma {:induction false} NextSegment(ss: seq<E.Segment>, s: E.Segment, pointer: nat)
    ensures Raw(ss + [s]) == Raw(ss) + Padded(s)
    ensures SectionTable(ss + [s], pointer) == SectionTable(ss, pointer) + SectionHeader(s, pointer + |Raw(ss)|)
    ensures CodeSize(ss + [s]) == CodeSize(ss) + if IsCode(s) then RawSize(s) else 0
    ensures DataSize(ss + [s]) == DataSize(ss) + if IsCode(s) then 0 else RawSize(s)
    ensures BssSize(ss + [s]) == BssSize(ss) + if IsCode(s) then 0 else s.memsz - |s.body|
  {
    hide SectionHeader, RawSize, IsCode;
    var all := ss + [s];
    if ss == [] {
      assert all[1..] == [];
    } else {
      assert all[1..] == ss[1..] + [s];
      NextSegment(ss[1..], s, pointer + RawSize(ss[0]));
    }
  }

  lemma NoSegments()
    ensures SectionTable([], FILE_ALIGN) == Raw([]) == [] && CodeSize([]) == DataSize([]) == BssSize([]) == 0
  {
  }

  /** What the writer accumulates over the segments: table, raw data, and the three totals. */
  method WriteSections(ss: seq<E.Segment>)
      returns (sections: seq<byte>, raw: seq<byte>, codeSize: nat, dataSize: nat, bssSize: int)
    ensures sections == SectionTable(ss, FILE_ALIGN) && raw == Raw(ss)
    ensures codeSize == CodeSize(ss) && dataSize == DataSize(ss) && bssSize == BssSize(ss)
  {
    hide SectionHeader, RawSize, IsCode, Padded, SectionTable, Raw, CodeSize, DataSize, BssSize;
    NoSegments();
    assert ss[..0] == [];
    sections, raw, codeSize, dataSize, bssSize := [], [], 0, 0, 0;
    var pointer := FILE_ALIGN;
    for i := 0 to |ss|
      invariant sections == SectionTable(ss[..i], FILE_ALIGN) && raw == Raw(ss[..i]) && pointer == FILE_ALIGN + |raw|
      invariant codeSize == CodeSize(ss[..i]) && dataSize == DataSize(ss[..i]) && bssSize == BssSize(ss[..i])
    {
      NextSegment(ss[..i], ss[i], FILE_ALIGN);
      assert ss[..i + 1] == ss[..i] + [ss[i]];
      var rawSize := RawSize(ss[i]);
      if IsCode(ss[i]) {
        codeSize := codeSize + rawSize;
      } else {
        dataSize := dataSize + rawSize;
        bssSize := bssSize + ss[i].memsz - |ss[i].body|;
      }
      sections := sections + SectionHeader(ss[i], pointer);
      raw := raw + Padded(ss[i]);
      pointer := pointer + rawSize;
    }
    assert ss[..|ss|] == ss;
  }

  // ------------------------------------------------------------------ mapping

  datatype Section = Section(vsize: nat, vaddr: nat, rawSize: nat, pointer: nat, characteristics: nat)

  datatype Pe = Pe(machine: nat, entry: nat, sizeOfImage: nat, sizeOfHeaders: nat, sections: seq<Section>)

  function SectionAt(file: seq<byte>, at: nat): Section
    requires at + 40 <= |file|
  {
    Section(Field(file, at + 8, 4), Field(file, at + 12, 4), Field(file, at + 16, 4), Field(file, at + 20, 4),
            Field(file, at + 36, 4))
  }

  function SectionsAt(file: seq<byte>, at: nat, n: nat): (r: Option<seq<Section>>)
    ensures r.Some? ==> |r.value| == n
    decreases n
  {
    if n == 0 then Some([])
    else if at + 40 > |file| then None
    else
      match SectionsAt(file, at + 40, n - 1)
      case None => None
      case Some(rest) => Some([SectionAt(file, at)] + rest)
  }

  /** The headers of a PE file: offsets as in the PE/COFF specification. */
  function PeOf(file: seq<byte>): Option<Pe> {
    if |file| < 64 || file[0..2] != [0x4D, 0x5A] then None
    else
      var coff := Field(file, 0x3C, 4);
      if coff + 24 + 64 > |file| || file[coff..coff + 4] != [0x50, 0x45, 0, 0] then None
      else
        var opt := coff + 24;
        match SectionsAt(file, opt + Field(file, coff + 20, 2), Field(file, coff + 6, 2))
        case None => None
        case Some(sections) =>
          Some(Pe(Field(file, coff + 4, 2), Field(file, opt + 16, 4), Field(file, opt + 56, 4), Field(file, opt + 60, 4), sections))
  }

  /** What a loader puts at a section's address: its raw data, cut or filled up to the virtual size. */
  function SectionImage(file: seq<byte>, s: Section): Option<seq<byte>> {
    var n := if s.rawSize < s.vsize then s.rawSize else s.vsize;
    if s.pointer + n > |file| then None else Some(file[s.pointer..s.pointer + n] + Zeros(s.vsize - n))
  }

  /** The zeroed image with the headers and the first `n` sections in it. */
  function Mapped(file: seq<byte>, pe: Pe, n: nat): (r: Option<seq<byte>>)
    requires n <= |pe.sections|
    ensures r.Some? ==> |r.value| == pe.sizeOfImage
  {
    if n == 0 then
      if pe.sizeOfHeaders > |file| || pe.sizeOfHeaders > pe.sizeOfImage then None
      else Some(Patch(Zeros(pe.sizeOfImage), 0, file[..pe.sizeOfHeaders]))
    else
      var s := pe.sections[n - 1];
      match (Mapped(file, pe, n - 1), SectionImage(file, s))
      case (Some(memory), Some(bytes)) =>
        if s.vaddr + |bytes| > pe.sizeOfImage then None else Some(Patch(memory, s.vaddr, bytes))
      case _ => None
  }

  // ------------------------------------------------------- reading it back

  predicate CoffIs(d: seq<byte>, e: E.Elf) {
    |d| >= 152 && d[0..2] == [0x4D, 0x5A] && Field(d, 0x3C, 4) == 0x40 && d[0x40..0x44] == [0x50, 0x45, 0, 0]
    && Field(d, 0x44, 2) == e.machine && Field(d, 0x46, 2) == |e.segments| && Field(d, 0x54, 2) == OptSize(e.wide)
  }

  lemma DosReads(d: seq<byte>, post: seq<byte>)
    requires d == DosHeader() + post
    ensures d[0..2] == [0x4D, 0x5A] && Field(d, 0x3C, 4) == 0x40
  {
    hide Le, Field, Pow256;
    Pow256s();
    var dos := DosHeader();
    assert dos[0x3C..0x40] == Le(0x40, 4);
    assert d[0x3C..0x40] == dos[0x3C..0x40];
    LeReads(d, 0x3C, 0x40, 4);
  }

  lemma CoffReads(e: E.Elf, pre: seq<byte>, post: seq<byte>)
    requires |pre| == 64 && e.machine < 0x1_0000 && |e.segments| < 0x1_0000
    ensures (var d := pre + CoffHeader(e) + post;
      d[0x40..0x44] == [0x50, 0x45, 0, 0] && Field(d, 0x44, 2) == e.machine && Field(d, 0x46, 2) == |e.segments|
      && Field(d, 0x54, 2) == OptSize(e.wide))
  {
    hide Le, Field, Pow256;
    Pow256s();
    var (c, d) := (CoffHeader(e), pre + CoffHeader(e) + post);
    assert c[0..4] == [0x50, 0x45, 0, 0] && c[4..6] == Le(e.machine, 2) && c[6..8] == Le(|e.segments|, 2);
    assert c[20..22] == Le(OptSize(e.wide), 2);
    SliceInside(pre, c, post, 0, 4);
    SliceInside(pre, c, post, 4, 6);
    SliceInside(pre, c, post, 6, 8);
    SliceInside(pre, c, post, 20, 22);
    LeReads(d, 0x44, e.machine, 2);
    LeReads(d, 0x46, |e.segments|, 2);
    LeReads(d, 0x54, OptSize(e.wide), 2);
  }

  lemma EntryReads(e: E.Elf, pre: seq<byte>, post: seq<byte>)
    requires |pre| == 88 && e.entry <= U32_MAX
    ensures Field(pre + OptStart(e) + post, 88 + 16, 4) == e.entry
  {
    hide Le, Field, Pow256, CodeSize, DataSize, BssSize;
    Pow256s();
    var (o, d) := (OptStart(e), pre + OptStart(e) + post);
    assert o[16..20] == Le(e.entry, 4);
    SliceInside(pre, o, post, 16, 20);
    LeReads(d, 88 + 16, e.entry, 4);
  }

  lemma SizesRead(e: E.Elf, pre: seq<byte>, post: seq<byte>)
    requires |pre| == 120 && SizeOfImage(e.segments) <= U32_MAX
    ensures (var d := pre + OptMiddle(e) + post;
      Field(d, 88 + 56, 4) == SizeOfImage(e.segments) && Field(d, 88 + 60, 4) == FILE_ALIGN)
  {
    hide Le, Field, Pow256, SizeOfImage;
    Pow256s();
    var (o, d) := (OptMiddle(e), pre + OptMiddle(e) + post);
    assert o[24..28] == Le(SizeOfImage(e.segments), 4) && o[28..32] == Le(FILE_ALIGN, 4);
    SliceInside(pre, o, post, 24, 28);
    SliceInside(pre, o, post, 28, 32);
    LeReads(d, 88 + 56, SizeOfImage(e.segments), 4);
    LeReads(d, 88 + 60, FILE_ALIGN, 4);
  }

  function Written(s: E.Segment, pointer: nat): Section {
    Section(s.memsz, s.vaddr, RawSize(s), Pointer(s, pointer), Characteristics(s))
  }

  function WrittenAll(ss: seq<E.Segment>, pointer: nat): (r: seq<Section>)
    ensures |r| == |ss|
    ensures forall i | 0 <= i < |ss| :: r[i] == Written(ss[i], pointer + |Raw(ss[..i])|)
    decreases |ss|
  {
    hide Written, RawSize, Padded;
    if ss == [] then []
    else
      var r := [Written(ss[0], pointer)] + WrittenAll(ss[1..], pointer + RawSize(ss[0]));
      assert forall i | 0 < i < |ss| :: Raw(ss[..i]) == Padded(ss[0]) + Raw(ss[1..][..i - 1]) by {
        forall i | 0 < i < |ss|
          ensures Raw(ss[..i]) == Padded(ss[0]) + Raw(ss[1..][..i - 1])
        {
          RawFront(ss, i);
        }
      }
      r
  }

  lemma RawFront(ss: seq<E.Segment>, i: nat)
    requires 0 < i <= |ss|
    ensures Raw(ss[..i]) == Padded(ss[0]) + Raw(ss[1..][..i - 1])
  {
    assert ss[..i][0] == ss[0] && ss[..i][1..] == ss[1..][..i - 1];
  }

  lemma SectionReads(s: E.Segment, pointer: nat, pre: seq<byte>, post: seq<byte>)
    requires SegmentFits(s, pointer)
    ensures SectionAt(pre + SectionHeader(s, pointer) + post, |pre|) == Written(s, pointer)
  {
    hide Le, Field, Pow256, RawSize;
    Pow256s();
    var (h, d) := (SectionHeader(s, pointer), pre + SectionHeader(s, pointer) + post);
    HeaderParts(s, pointer);
    SliceInside(pre, h, post, 8, 12);
    SliceInside(pre, h, post, 12, 16);
    SliceInside(pre, h, post, 16, 20);
    SliceInside(pre, h, post, 20, 24);
    SliceInside(pre, h, post, 36, 40);
    LeReads(d, |pre| + 8, s.memsz, 4);
    LeReads(d, |pre| + 12, s.vaddr, 4);
    LeReads(d, |pre| + 16, RawSize(s), 4);
    LeReads(d, |pre| + 20, Pointer(s, pointer), 4);
    LeReads(d, |pre| + 36, Characteristics(s), 4);
  }

  lemma HeaderParts(s: E.Segment, pointer: nat)
    ensures (var h := SectionHeader(s, pointer);
      h[8..12] == Le(s.memsz, 4) && h[12..16] == Le(s.vaddr, 4) && h[16..20] == Le(RawSize(s), 4)
      && h[20..24] == Le(Pointer(s, pointer), 4) && h[36..40] == Le(Characteristics(s), 4))
  {
    hide Le, RawSize, SectionName, Pointer, Characteristics;
  }

  lemma {:induction false} SectionsRead(ss: seq<E.Segment>, pointer: nat, pre: seq<byte>, post: seq<byte>)
    requires SectionsFit(ss, pointer)
    ensures SectionsAt(pre + SectionTable(ss, pointer) + post, |pre|, |ss|) == Some(WrittenAll(ss, pointer))
    decreases |ss|
  {
    hide SectionHeader, SectionAt, Written, RawSize, SegmentFits, Padded;
    if ss != [] {
      var (h, rest) := (SectionHeader(ss[0], pointer), SectionTable(ss[1..], pointer + RawSize(ss[0])));
      var d := pre + SectionTable(ss, pointer) + post;
      assert d == pre + h + (rest + post) && d == (pre + h) + rest + post;
      SectionReads(ss[0], pointer, pre, rest + post);
      SectionsRead(ss[1..], pointer + RawSize(ss[0]), pre + h, post);
    }
  }

  lemma {:induction false} RawAt(ss: seq<E.Segment>, i: nat)
    requires i < |ss|
    ensures (var at := |Raw(ss[..i])|;
      at + RawSize(ss[i]) <= |Raw(ss)| && Raw(ss)[at..at + RawSize(ss[i])] == Padded(ss[i]))
    ensures |Raw(ss[..i + 1])| == |Raw(ss[..i])| + RawSize(ss[i])
    decreases |ss|
  {
    hide Padded, RawSize;
    RawFront(ss, i + 1);
    if i > 0 {
      RawFront(ss, i);
      RawAt(ss[1..], i - 1);
      var (head, rest, at) := (Padded(ss[0]), Raw(ss[1..]), |Raw(ss[1..][..i - 1])|);
      assert (head + rest)[|head| + at..|head| + at + RawSize(ss[i])] == rest[at..at + RawSize(ss[i])];
    }
  }

  /** The reader's view of the file: its headers and one section per segment, in order. */
  function PeFor(e: E.Elf): Pe {
    Pe(e.machine, e.entry, SizeOfImage(e.segments), FILE_ALIGN, WrittenAll(e.segments, FILE_ALIGN))
  }

  lemma HeadersRead(e: E.Elf, rest: seq<byte>)
    requires Fits(e)
    ensures (var d := Headers(e) + rest;
      CoffIs(d, e) && Field(d, 88 + 16, 4) == e.entry && Field(d, 88 + 56, 4) == SizeOfImage(e.segments)
      && Field(d, 88 + 60, 4) == FILE_ALIGN
      && SectionsAt(d, 88 + OptSize(e.wide), |e.segments|) == Some(WrittenAll(e.segments, FILE_ALIGN)))
  {
    hide DosHeader, CoffHeader, OptStart, OptMiddle, OptEnd, SectionTable, Field, SectionsAt, Raw, BssSize, CodeSize, DataSize;
    hide SizeOfImage, WrittenAll, SectionsFit;
    var (dos, coff, start) := (DosHeader(), CoffHeader(e), OptStart(e));
    var (middle, end, table) := (OptMiddle(e), OptEnd(e.wide), SectionTable(e.segments, FILE_ALIGN));
    var d := Headers(e) + rest;
    assert d == dos + (coff + start + middle + end + table + rest);
    assert d == dos + coff + (start + middle + end + table + rest);
    assert d == (dos + coff) + start + (middle + end + table + rest);
    assert d == (dos + coff + start) + middle + (end + table + rest);
    assert d == (dos + coff + start + middle + end) + table + rest;
    DosReads(d, coff + start + middle + end + table + rest);
    CoffReads(e, dos, start + middle + end + table + rest);
    EntryReads(e, dos + coff, middle + end + table + rest);
    SizesRead(e, dos + coff + start, end + table + rest);
    SectionsRead(e.segments, FILE_ALIGN, dos + coff + start + middle + end, rest);
  }

  lemma ReadsBack(e: E.Elf)
    requires FileOf(e).Ok?
    ensures PeOf(FileOf(e).value) == Some(PeFor(e))
  {
    hide Headers, Field, SectionsAt, Raw, Fits, SizeOfImage, WrittenAll;
    var rest := Zeros(FILE_ALIGN - |Headers(e)|) + Raw(e.segments);
    assert FileOf(e).value == Headers(e) + rest;
    HeadersRead(e, rest);
  }

  // ------------------------------------------------------------ preservation

  predicate In(s: E.Segment, a: nat) {
    s.vaddr <= a < s.vaddr + s.memsz
  }

  /** What a segment is in memory: its bytes, cut or filled with zeros up to its memory size. */
  function SegmentImage(s: E.Segment): (r: seq<byte>)
    ensures |r| == s.memsz
  {
    if |s.body| <= s.memsz then s.body + Zeros(s.memsz - |s.body|) else s.body[..s.memsz]
  }

  /** The byte an ELF loader that maps the segments in order leaves at `a`: the last segment's there; nothing elsewhere. */
  function ElfByte(ss: seq<E.Segment>, a: nat): byte {
    if ss == [] then 0
    else
      var last := ss[|ss| - 1];
      if In(last, a) then SegmentImage(last)[a - last.vaddr] else ElfByte(ss[..|ss| - 1], a)
  }

  /** As a linker lays a program out: apart from each other in memory, no more bytes than memory. */
  predicate Apart(ss: seq<E.Segment>) {
    (forall i | 0 <= i < |ss| :: |ss[i].body| <= ss[i].memsz)
    && forall i, j | 0 <= i < j < |ss| :: ss[i].vaddr + ss[i].memsz <= ss[j].vaddr
  }

  /** For such a program the order does not matter: a byte is that of the one segment there. */
  lemma {:induction false} ApartByte(ss: seq<E.Segment>, i: nat, a: nat)
    requires Apart(ss) && i < |ss| && In(ss[i], a)
    ensures ElfByte(ss, a) == if a - ss[i].vaddr < |ss[i].body| then ss[i].body[a - ss[i].vaddr] else 0
  {
    if i < |ss| - 1 {
      ApartByte(ss[..|ss| - 1], i, a);
    }
  }

  /**
   For such a program whose segments start on pages, even a loader that copies all raw data keeps the sections
   apart: the padding of one ends before the next, and inside the image.
   */
  lemma PaddingApart(ss: seq<E.Segment>, i: nat)
    requires Apart(ss) && i < |ss| && forall k | 0 <= k < |ss| :: ss[k].vaddr % SECTION_ALIGN == 0
    ensures ss[i].vaddr + RawSize(ss[i]) <= SizeOfImage(ss)
    ensures forall j | i < j < |ss| :: ss[i].vaddr + RawSize(ss[i]) <= ss[j].vaddr
  {
    hide SizeOfImage, RawSize;
    var s := ss[i];
    RawInPages(s);
    assert s.vaddr + s.memsz <= MaxEnd(ss) <= SizeOfImage(ss);
    NextPage(s.vaddr, s.memsz, SizeOfImage(ss));
    forall j | i < j < |ss|
      ensures s.vaddr + RawSize(s) <= ss[j].vaddr
    {
      NextPage(s.vaddr, s.memsz, ss[j].vaddr);
    }
  }

  lemma RawInPages(s: E.Segment)
    requires |s.body| <= s.memsz
    ensures RawSize(s) <= AlignPage(s.memsz)
  {
    hide AlignFile, AlignPage;
    var (raw, pages) := (RawSize(s) / FILE_ALIGN, AlignPage(s.memsz) / SECTION_ALIGN);
    assert RawSize(s) == FILE_ALIGN * raw && AlignPage(s.memsz) == FILE_ALIGN * (8 * pages);
  }

  lemma NextPage(start: nat, size: nat, next: nat)
    requires start % SECTION_ALIGN == 0 && next % SECTION_ALIGN == 0 && start + size <= next
    ensures start + AlignPage(size) <= next
  {
    hide AlignPage;
    var (at, pages, end) := (start / SECTION_ALIGN, AlignPage(size) / SECTION_ALIGN, next / SECTION_ALIGN);
    assert start == SECTION_ALIGN * at && AlignPage(size) == SECTION_ALIGN * pages && next == SECTION_ALIGN * end;
  }

  /** Each section's raw data stands at its own pointer and ends where the next begins. */
  lemma RawPlaces(e: E.Elf, i: nat)
    requires FileOf(e).Ok? && i < |e.segments|
    ensures (var (at, n) := (FILE_ALIGN + |Raw(e.segments[..i])|, RawSize(e.segments[i]));
      at + n <= |FileOf(e).value| && FileOf(e).value[at..at + n] == Padded(e.segments[i])
      && FILE_ALIGN + |Raw(e.segments[..i + 1])| == at + n)
  {
    hide Headers, Raw, Fits, RawSize, Padded;
    var (raw, front) := (Raw(e.segments), Headers(e) + Zeros(FILE_ALIGN - |Headers(e)|));
    RawAt(e.segments, i);
    var at := |Raw(e.segments[..i])|;
    assert FileOf(e).value == front + raw + [];
    SliceInside(front, raw, [], at, at + RawSize(e.segments[i]));
  }

  /** A section maps to its segment's bytes, cut or filled with zeros up to its memory size, whatever the padding. */
  lemma SectionMaps(e: E.Elf, i: nat)
    requires FileOf(e).Ok? && i < |e.segments|
    ensures (var s := e.segments[i];
      SectionImage(FileOf(e).value, Written(s, FILE_ALIGN + |Raw(e.segments[..i])|)) == Some(SegmentImage(s)))
  {
    hide FileOf, Raw, AlignFile;
    var (s, file, at) := (e.segments[i], FileOf(e).value, FILE_ALIGN + |Raw(e.segments[..i])|);
    RawPlaces(e, i);
    var n := if RawSize(s) < s.memsz then RawSize(s) else s.memsz;
    if RawSize(s) == 0 {
      assert s.body == [] && file[0..0] == [];
      assert [] + Zeros(s.memsz) == s.body + Zeros(s.memsz);
    } else {
      assert file[at..at + n] == Padded(s)[..n];
      assert Padded(s)[..n] + Zeros(s.memsz - n) == SegmentImage(s);
    }
  }

  lemma SectionInMemory(memory: seq<byte>, ss: seq<E.Segment>, s: E.Segment, a: nat)
    requires s.vaddr + s.memsz <= |memory| && a < |memory| && memory[a] == ElfByte(ss, a)
    ensures Patch(memory, s.vaddr, SegmentImage(s))[a] == ElfByte(ss + [s], a)
  {
    hide Patch, SegmentImage;
    assert (ss + [s])[..|ss|] == ss;
    PatchAt(memory, s.vaddr, SegmentImage(s), a);
  }

  /** From the base on, the first `n` sections map to what the first `n` segments are in memory. */
  predicate Agrees(memory: Option<seq<byte>>, ss: seq<E.Segment>, size: nat) {
    memory.Some? && |memory.value| == size && forall a: nat | E.EFI_BASE <= a < size :: memory.value[a] == ElfByte(ss, a)
  }

  lemma {:induction false} MapsStepwise(e: E.Elf, n: nat)
    requires FileOf(e).Ok? && n <= |e.segments| && SizeOfImage(e.segments) >= E.EFI_BASE
    ensures Agrees(Mapped(FileOf(e).value, PeFor(e), n), e.segments[..n], SizeOfImage(e.segments))
  {
    hide FileOf, Raw, ElfByte, Patch, SectionImage, SegmentImage, SizeOfImage, MaxEnd, In, Written, RawSize, Padded, Fits, Headers;
    var ss, file := e.segments, FileOf(e).value;
    if n == 0 {
      HeadersMap(e);
      assert ss[..0] == [];
    } else {
      var s, front := ss[n - 1], ss[..n - 1];
      MapsStepwise(e, n - 1);
      SectionMaps(e, n - 1);
      InImage(e, n - 1);
      var memory := Mapped(file, PeFor(e), n - 1).value;
      assert ss[..n] == front + [s];
      SameSection(s, FILE_ALIGN + |Raw(front)|);
      forall a: nat | E.EFI_BASE <= a < |memory|
        ensures Patch(memory, s.vaddr, SegmentImage(s))[a] == ElfByte(ss[..n], a)
      {
        SectionInMemory(memory, front, s, a);
      }
    }
  }

  lemma SameSection(s: E.Segment, pointer: nat)
    ensures Written(s, pointer).vaddr == s.vaddr
  {
  }

  lemma InImage(e: E.Elf, i: nat)
    requires i < |e.segments|
    ensures e.segments[i].vaddr + e.segments[i].memsz <= SizeOfImage(e.segments)
  {
  }

  lemma HeadersMap(e: E.Elf)
    requires FileOf(e).Ok? && SizeOfImage(e.segments) >= E.EFI_BASE
    ensures Agrees(Mapped(FileOf(e).value, PeFor(e), 0), [], SizeOfImage(e.segments))
  {
    hide Raw, Headers, Fits, SizeOfImage, MaxEnd, Patch, WrittenAll;
    var size, file := SizeOfImage(e.segments), FileOf(e).value;
    forall a: nat | E.EFI_BASE <= a < size
      ensures Patch(Zeros(size), 0, file[..FILE_ALIGN])[a] == 0
    {
      PatchAt(Zeros(size), 0, file[..FILE_ALIGN], a);
    }
  }

  /**
   Wrapping preserves the program: mapping the PE file gives, from the base on, what
   mapping the ELF's segments in ascending order gives; the image covers every
   segment; the machine and the entry are the ELF's.
   */
  lemma MapsAsElf(data: seq<byte>)
    requires E.LoadOf(data).Ok? && FileOf(E.LoadOf(data).value).Ok?
    ensures (var e := E.LoadOf(data).value;
      var pe := PeOf(FileOf(e).value);
      pe.Some? && pe.value.machine == e.machine && pe.value.entry == e.entry && |pe.value.sections| == |e.segments|
      && Agrees(Mapped(FileOf(e).value, pe.value, |e.segments|), e.segments, pe.value.sizeOfImage)
      && forall i | 0 <= i < |e.segments| :: e.segments[i].vaddr + e.segments[i].memsz <= pe.value.sizeOfImage)
  {
    hide FileOf, Raw, E.LoadOf, SizeOfImage, Mapped, Agrees, MaxEnd, PeOf, WrittenAll;
    var e := E.LoadOf(data).value;
    E.LoadedIsWrapped(data);
    ReadsBack(e);
    InImage(e, 0);
    MapsStepwise(e, |e.segments|);
    assert e.segments[..|e.segments|] == e.segments;
    forall i | 0 <= i < |e.segments|
      ensures e.segments[i].vaddr + e.segments[i].memsz <= SizeOfImage(e.segments)
    {
      InImage(e, i);
    }
  }

  /** Writing fails only for a number too big for its field, or with more segments than the header page holds. */
  lemma WrittenIff(e: E.Elf)
    ensures FileOf(e).Ok? <==> Fits(e) && |e.segments| <= if e.wide then 4 else 5
  {
    hide Fits, Raw;
  }

  /** The whole tool: reads the segments and writes the PE file. */
  method MakeEfi(data: seq<byte>) returns (r: E.Result<seq<byte>>)
    ensures r == match E.LoadOf(data) case Err(e) => E.Err(e) case Ok(elf) => FileOf(elf)
  {
    hide SectionTable, CodeSize, DataSize, BssSize, E.LoadOf;
    var loaded := E.LoadElf(data);
    if loaded.Err? {
      return E.Err(loaded.error);
    }
    var elf := loaded.value;
    var sections, raw, codeSize, dataSize, bssSize := WriteSections(elf.segments);
    if !(elf.machine < 0x1_0000 && |elf.segments| < 0x1_0000 && elf.entry <= U32_MAX
         && SizeOfImage(elf.segments) <= U32_MAX && 0 <= bssSize <= U32_MAX
         && codeSize <= U32_MAX && dataSize <= U32_MAX && SectionsFit(elf.segments, FILE_ALIGN)) {
      return E.Err(E.FieldTooBig);
    }
    var headers := DosHeader() + CoffHeader(elf) + OptStart(elf) + OptMiddle(elf) + OptEnd(elf.wide) + sections;
    if |headers| > FILE_ALIGN {
      return E.Err(E.HeadersTooLong);
    }
    return E.Ok(headers + Zeros(FILE_ALIGN - |headers|) + raw);
  }
}
