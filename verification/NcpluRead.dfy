/**
 Reading a packed module back: every accessor of the loader's image gives the
 packer's own section, name, export or relocation, and the parse accepts the file
 exactly when the module keeps the loader's rules.
 */
module NcpluRead {
  import opened Bytes
  import F = NcpluFormat
  import I = NcpluImage

  // ------------------------------------------------------------ single fields

  lemma PairReads(pre: seq<byte>, a: nat, b: nat, post: seq<byte>)
    requires a <= U32_MAX && b <= U32_MAX
    ensures (var d := pre + F.Pair(a, b) + post;
      Field(d, |pre|, 4) == a && Field(d, |pre| + 4, 4) == b)
  {
    hide Le, Pow256, Field;
    var d, p := pre + F.Pair(a, b) + post, F.Pair(a, b);
    Pow256s();
    SliceInside(pre, p, post, 0, 4);
    SliceInside(pre, p, post, 4, 8);
    assert p[0..4] == Le(a, 4) && p[4..8] == Le(b, 4);
    LeReads(d, |pre|, a, 4);
    LeReads(d, |pre| + 4, b, 4);
  }

  predicate TopIs(d: seq<byte>, total: nat, entry: nat) {
    |d| >= 32 && d[0..8] == F.MAGIC && Field(d, 8, 2) == F.FORMAT_VERSION && Field(d, 10, 2) == F.HEADER_SIZE
    && Field(d, 12, 4) == F.FLAG_HAS_CAPS && Field(d, 16, 8) == total && Field(d, 24, 4) == F.ABI_VERSION
    && Field(d, 28, 4) == entry
  }

  lemma TopReads(total: nat, entry: nat, post: seq<byte>)
    requires total <= U64_MAX && entry <= U32_MAX
    ensures TopIs(F.HeaderTop(total, entry) + post, total, entry)
  {
    hide Le, Pow256, Field, F.HeaderTop, F.Pair;
    var d := F.HeaderTop(total, entry) + post;
    Pow256s();
    TopSlices(total, entry);
    FrontSlices(F.HeaderTop(total, entry), post);
    LeReads(d, 8, F.FORMAT_VERSION, 2);
    LeReads(d, 10, F.HEADER_SIZE, 2);
    LeReads(d, 12, F.FLAG_HAS_CAPS, 4);
    LeReads(d, 16, total, 8);
    TopPair(total, entry, post);
  }

  lemma TopSlices(total: nat, entry: nat)
    ensures (var t := F.HeaderTop(total, entry);
      t[0..8] == F.MAGIC && t[8..10] == Le(F.FORMAT_VERSION, 2) && t[10..12] == Le(F.HEADER_SIZE, 2)
      && t[12..16] == Le(F.FLAG_HAS_CAPS, 4) && t[16..24] == Le(total, 8))
  {
    hide Le, F.Pair;
  }

  lemma FrontSlices(t: seq<byte>, post: seq<byte>)
    requires |t| == 32
    ensures (var d := t + post;
      d[0..8] == t[0..8] && d[8..10] == t[8..10] && d[10..12] == t[10..12] && d[12..16] == t[12..16] && d[16..24] == t[16..24])
  {
  }

  lemma TopPair(total: nat, entry: nat, post: seq<byte>)
    requires entry <= U32_MAX
    ensures (var d := F.HeaderTop(total, entry) + post;
      Field(d, 24, 4) == F.ABI_VERSION && Field(d, 28, 4) == entry)
  {
    hide Le, Field, F.Pair;
    var pre := F.MAGIC + Le(F.FORMAT_VERSION, 2) + Le(F.HEADER_SIZE, 2) + Le(F.FLAG_HAS_CAPS, 4) + Le(total, 8);
    PairReads(pre, F.ABI_VERSION, entry, post);
    assert F.HeaderTop(total, entry) == pre + F.Pair(F.ABI_VERSION, entry);
  }

  /** The six pairs of the table directory, as the reader sees them. */
  predicate TablesAre(d: seq<byte>, m: F.Module, at: F.Layout) {
    |d| >= 80
    && Field(d, 32, 4) == at.sections && Field(d, 36, 4) == |m.sections|
    && Field(d, 40, 4) == at.imports && Field(d, 44, 4) == |m.imports|
    && Field(d, 48, 4) == at.exports && Field(d, 52, 4) == |m.exports|
    && Field(d, 56, 4) == at.relocs && Field(d, 60, 4) == |m.relocs|
    && Field(d, 64, 4) == at.strings && Field(d, 68, 4) == |F.PoolOf(m).blob|
    && Field(d, 72, 4) == at.signature && Field(d, 76, 4) == F.SIGNATURE_LEN
  }

  lemma SixPairs(top: seq<byte>, a: seq<byte>, b: seq<byte>, c: seq<byte>, d: seq<byte>, e: seq<byte>, f: seq<byte>, post: seq<byte>)
    ensures (var all := top + (a + b + c + d + e + f) + post;
      all == top + a + (b + c + d + e + f + post) && all == (top + a) + b + (c + d + e + f + post)
      && all == (top + a + b) + c + (d + e + f + post) && all == (top + a + b + c) + d + (e + f + post)
      && all == (top + a + b + c + d) + e + (f + post) && all == (top + a + b + c + d + e) + f + post)
  {
    var all := top + (a + b + c + d + e + f) + post;
    assert all == (top + a + b + c + d + e) + f + post;
    assert all == (top + a + b + c + d) + e + (f + post);
    assert all == (top + a + b + c) + d + (e + f + post);
    assert all == (top + a + b) + c + (d + e + f + post);
    assert all == (top + a) + b + (c + d + e + f + post);
  }

  lemma TablesRead(m: F.Module, top: seq<byte>, post: seq<byte>)
    requires F.Representable(m) && |top| == 32
    ensures TablesAre(top + F.HeaderTables(m, F.LayoutOf(m)) + post, m, F.LayoutOf(m))
  {
    hide Field, F.Pair, F.PoolOf, F.Images, F.PadTo8, F.SectionFits, F.RelocFits, F.ArenaSize;
    var at := F.LayoutOf(m);
    var (a, b, c) := (F.Pair(at.sections, |m.sections|), F.Pair(at.imports, |m.imports|), F.Pair(at.exports, |m.exports|));
    var (d, e, f) :=
      (F.Pair(at.relocs, |m.relocs|), F.Pair(at.strings, |F.PoolOf(m).blob|), F.Pair(at.signature, F.SIGNATURE_LEN));
    SixPairs(top, a, b, c, d, e, f, post);
    PairReads(top, at.sections, |m.sections|, b + c + d + e + f + post);
    PairReads(top + a, at.imports, |m.imports|, c + d + e + f + post);
    PairReads(top + a + b, at.exports, |m.exports|, d + e + f + post);
    PairReads(top + a + b + c, at.relocs, |m.relocs|, e + f + post);
    PairReads(top + a + b + c + d, at.strings, |F.PoolOf(m).blob|, f + post);
    PairReads(top + a + b + c + d + e, at.signature, F.SIGNATURE_LEN, post);
  }

  // ------------------------------------------------------------ whole header

  /** The header of a packed file as the reader sees it. */
  predicate HeaderIs(d: seq<byte>, m: F.Module) {
    |d| == F.TotalSize(m) && |d| >= F.HEADER_SIZE && TopIs(d, F.TotalSize(m), m.entry) && TablesAre(d, m, F.LayoutOf(m))
    && Field(d, 80, 4) == F.ArenaSize(m) && Field(d, 84, 4) == m.caps
    && Field(d, 152, 2) == m.arch && Field(d, 154, 2) == m.kind && d[156..160] == Zeros(4)
  }

  lemma BackReads(m: F.Module, pre: seq<byte>, post: seq<byte>)
    requires m.arch < 0x1_0000 && m.kind < 0x1_0000 && |pre| == 152
    ensures (var d := pre + F.HeaderBack(m) + post;
      Field(d, 152, 2) == m.arch && Field(d, 154, 2) == m.kind && d[156..160] == Zeros(4))
  {
    hide Le, Field, Pow256;
    var (d, b) := (pre + F.HeaderBack(m) + post, F.HeaderBack(m));
    Pow256s();
    SliceInside(pre, b, post, 0, 2);
    SliceInside(pre, b, post, 2, 4);
    SliceInside(pre, b, post, 4, 8);
    assert b[0..2] == Le(m.arch, 2) && b[2..4] == Le(m.kind, 2) && b[4..8] == Zeros(4);
    LeReads(d, 152, m.arch, 2);
    LeReads(d, 154, m.kind, 2);
  }

  lemma HeaderReads(m: F.Module, digest: seq<byte>)
    requires F.Representable(m) && |digest| == 64
    ensures HeaderIs(F.FileWith(m, digest), m)
  {
    hide Field, F.HeaderTop, F.HeaderTables, F.HeaderBack, F.Pair, F.Contents, F.LayoutOf, TopIs, TablesAre, F.ArenaSize;
    hide F.SectionFits, F.RelocFits;
    var (top, tables, pair) :=
      (F.HeaderTop(F.TotalSize(m), m.entry), F.HeaderTables(m, F.LayoutOf(m)), F.Pair(F.ArenaSize(m), m.caps));
    var rest := digest + F.HeaderBack(m) + F.Contents(m) + Zeros(F.SIGNATURE_LEN);
    var file := F.FileWith(m, digest);
    assert file == top + (tables + pair + rest);
    assert file == top + tables + (pair + rest);
    assert file == (top + tables) + pair + rest;
    assert file == (F.HeaderFront(m) + digest) + F.HeaderBack(m) + (F.Contents(m) + Zeros(F.SIGNATURE_LEN));
    TopReads(F.TotalSize(m), m.entry, tables + pair + rest);
    TablesRead(m, top, pair + rest);
    PairReads(top + tables, F.ArenaSize(m), m.caps, rest);
    BackReads(m, F.HeaderFront(m) + digest, F.Contents(m) + Zeros(F.SIGNATURE_LEN));
  }

  // ---------------------------------------------------- the parts of the file

  function Head(m: F.Module, digest: seq<byte>): (r: seq<byte>)
    requires |digest| == 64
    ensures |r| == F.HEADER_SIZE
  {
    F.HeaderFront(m) + digest + F.HeaderBack(m)
  }

  const BLOCK: seq<byte> := Zeros(F.SIGNATURE_LEN)

  lemma AroundImages(m: F.Module, digest: seq<byte>) returns (post: seq<byte>)
    requires F.Representable(m) && |digest| == 64
    ensures F.FileWith(m, digest) == Head(m, digest) + F.Images(m.sections) + post
    ensures post == Zeros(F.PadTo8(F.HEADER_SIZE + |F.Images(m.sections)|)) + F.FromSections(m) + BLOCK
  {
    hide F.HeaderFront, F.HeaderBack, F.FromSections, F.LayoutOf, F.Images, F.SectionFits, F.RelocFits, F.PadTo8;
    post := Zeros(F.PadTo8(F.HEADER_SIZE + |F.Images(m.sections)|)) + F.FromSections(m) + BLOCK;
  }

  lemma AroundSections(m: F.Module, digest: seq<byte>) returns (pre: seq<byte>)
    requires F.Representable(m) && |digest| == 64
    ensures |pre| == F.LayoutOf(m).sections
    ensures F.FileWith(m, digest) == pre + F.SectionTable(m.sections, F.HEADER_SIZE) + (F.FromImports(m) + BLOCK)
  {
    hide F.FromImports, F.Images, F.SectionFits, F.RelocFits, F.SectionTable, F.FileWith, Head, F.PoolOf;
    var post := AroundImages(m, digest);
    var (head, images, pad) := (Head(m, digest), F.Images(m.sections), Zeros(F.PadTo8(F.HEADER_SIZE + |F.Images(m.sections)|)));
    pre := head + images + pad;
    Regroup(head, images, pad, F.SectionTable(m.sections, F.HEADER_SIZE), F.FromImports(m), BLOCK);
  }

  lemma Regroup(a: seq<byte>, b: seq<byte>, c: seq<byte>, d: seq<byte>, e: seq<byte>, f: seq<byte>)
    ensures a + b + (c + (d + e) + f) == a + b + c + d + (e + f)
  {
    assert a + b + (c + (d + e) + f) == a + b + c + ((d + e) + f);
  }

  lemma Next(pre: seq<byte>, part: seq<byte>, next: seq<byte>, rest: seq<byte>, end: seq<byte>)
    ensures pre + part + ((next + rest) + end) == (pre + part) + next + (rest + end)
  {
  }

  lemma AroundImports(m: F.Module, digest: seq<byte>) returns (pre: seq<byte>)
    requires F.Representable(m) && |digest| == 64
    ensures |pre| == F.LayoutOf(m).imports
    ensures F.FileWith(m, digest) == pre + F.ImportTable(F.PoolOf(m), m.imports) + (F.FromExports(m) + BLOCK)
  {
    hide F.FromExports, F.Images, F.SectionFits, F.RelocFits, F.SectionTable, F.ImportTable, F.FileWith, F.PoolOf;
    var before := AroundSections(m, digest);
    var table := F.SectionTable(m.sections, F.HEADER_SIZE);
    pre := before + table;
    Next(before, table, F.ImportTable(F.PoolOf(m), m.imports), F.FromExports(m), BLOCK);
  }

  lemma AroundExports(m: F.Module, digest: seq<byte>) returns (pre: seq<byte>)
    requires F.Representable(m) && |digest| == 64
    ensures |pre| == F.LayoutOf(m).exports
    ensures F.FileWith(m, digest) == pre + F.ExportTable(F.PoolOf(m), m.exports) + (F.FromRelocs(m) + BLOCK)
  {
    hide F.FromRelocs, F.Images, F.SectionFits, F.RelocFits, F.ImportTable, F.ExportTable, F.FileWith, F.PoolOf;
    var before := AroundImports(m, digest);
    var table := F.ImportTable(F.PoolOf(m), m.imports);
    pre := before + table;
    Next(before, table, F.ExportTable(F.PoolOf(m), m.exports), F.FromRelocs(m), BLOCK);
  }

  lemma AroundRelocs(m: F.Module, digest: seq<byte>) returns (pre: seq<byte>)
    requires F.Representable(m) && |digest| == 64
    ensures |pre| == F.LayoutOf(m).relocs
    ensures F.FileWith(m, digest) == pre + F.RelocTable(m.relocs) + (F.FromStrings(m) + BLOCK)
  {
    hide F.FromStrings, F.Images, F.SectionFits, F.RelocFits, F.ExportTable, F.RelocTable, F.FileWith, F.PoolOf;
    var before := AroundExports(m, digest);
    var table := F.ExportTable(F.PoolOf(m), m.exports);
    pre := before + table;
    Next(before, table, F.RelocTable(m.relocs), F.FromStrings(m), BLOCK);
  }

  lemma AroundStrings(m: F.Module, digest: seq<byte>) returns (pre: seq<byte>, post: seq<byte>)
    requires F.Representable(m) && |digest| == 64
    ensures |pre| == F.LayoutOf(m).strings
    ensures F.FileWith(m, digest) == pre + F.PoolOf(m).blob + post
  {
    hide F.Images, F.SectionFits, F.RelocFits, F.RelocTable, F.FileWith, F.PoolOf;
    var before := AroundRelocs(m, digest);
    var (table, blob) := (F.RelocTable(m.relocs), F.PoolOf(m).blob);
    var pad := Zeros(F.PadTo8(F.LayoutOf(m).strings + |blob|));
    pre, post := before + table, pad + BLOCK;
    Next(before, table, blob, pad, BLOCK);
  }

  // ------------------------------------------------------------- table entries

  lemma {:induction false} SectionTableAt(ss: seq<F.Section>, off: nat, i: nat)
    requires i < |ss|
    ensures F.SectionTable(ss, off)[24 * i..24 * i + 24] == F.SectionBytes(ss[i], off + |F.Images(ss[..i])|)
    decreases |ss|
  {
    hide F.SectionBytes;
    if i > 0 {
      var (head, rest) := (F.SectionBytes(ss[0], off), F.SectionTable(ss[1..], off + |ss[0].bytes|));
      SectionTableAt(ss[1..], off + |ss[0].bytes|, i - 1);
      assert (head + rest)[24 * i..24 * i + 24] == rest[24 * (i - 1)..24 * (i - 1) + 24];
      assert ss[..i][0] == ss[0] && ss[..i][1..] == ss[1..][..i - 1];
    }
  }

  lemma {:induction false} ImportTableAt(p: F.Pool, names: seq<F.Name>, i: nat)
    requires i < |names|
    ensures F.ImportTable(p, names)[16 * i..16 * i + 16] == F.NameBytes(p, names[i])
    decreases |names|
  {
    hide F.NameBytes;
    if i > 0 {
      var (head, rest) := (F.NameBytes(p, names[0]), F.ImportTable(p, names[1..]));
      ImportTableAt(p, names[1..], i - 1);
      assert (head + rest)[16 * i..16 * i + 16] == rest[16 * (i - 1)..16 * (i - 1) + 16];
    }
  }

  lemma {:induction false} ExportTableAt(p: F.Pool, es: seq<F.Export>, i: nat)
    requires i < |es|
    ensures F.ExportTable(p, es)[24 * i..24 * i + 24] == F.ExportBytes(p, es[i])
    decreases |es|
  {
    hide F.ExportBytes;
    if i > 0 {
      var (head, rest) := (F.ExportBytes(p, es[0]), F.ExportTable(p, es[1..]));
      ExportTableAt(p, es[1..], i - 1);
      assert (head + rest)[24 * i..24 * i + 24] == rest[24 * (i - 1)..24 * (i - 1) + 24];
    }
  }

  lemma {:induction false} RelocTableAt(rs: seq<F.Reloc>, i: nat)
    requires (forall j | 0 <= j < |rs| :: F.RelocFits(rs[j])) && i < |rs|
    ensures F.RelocTable(rs)[32 * i..32 * i + 32] == F.RelocBytes(rs[i])
    decreases |rs|
  {
    hide F.RelocBytes, F.RelocFits;
    if i > 0 {
      var (head, rest) := (F.RelocBytes(rs[0]), F.RelocTable(rs[1..]));
      RelocTableAt(rs[1..], i - 1);
      assert (head + rest)[32 * i..32 * i + 32] == rest[32 * (i - 1)..32 * (i - 1) + 32];
    }
  }

  lemma {:induction false} ImagesAt(ss: seq<F.Section>, i: nat)
    requires i < |ss|
    ensures (var at := |F.Images(ss[..i])|;
      at + |ss[i].bytes| <= |F.Images(ss)| && F.Images(ss)[at..at + |ss[i].bytes|] == ss[i].bytes)
    decreases |ss|
  {
    if i > 0 {
      ImagesAt(ss[1..], i - 1);
      assert ss[..i][0] == ss[0] && ss[..i][1..] == ss[1..][..i - 1];
      var (head, rest, at) := (ss[0].bytes, F.Images(ss[1..]), |F.Images(ss[1..][..i - 1])|);
      assert (head + rest)[|head| + at..|head| + at + |ss[i].bytes|] == rest[at..at + |ss[i].bytes|];
    }
  }

  // ---------------------------------------------------------------- sections

  /** What the packer makes of a section: never empty, whole unless it has no bits. */
  predicate IsPacked(s: F.Section) {
    F.TEXT <= s.kind <= F.BSS && s.size > 0 && |s.bytes| == if s.kind == F.BSS then 0 else s.size
  }

  predicate FromPacker(m: F.Module) {
    forall i | 0 <= i < |m.sections| :: IsPacked(m.sections[i])
  }

  /** The image a loader makes of the packed file, when the tables are not too long. */
  function ImageOf(m: F.Module, file: seq<byte>): I.Image {
    var at := F.LayoutOf(m);
    I.Image(file, F.ArenaSize(m), at.signature, I.Table(at.sections, |m.sections|), I.Table(at.imports, |m.imports|),
            I.Table(at.exports, |m.exports|), I.Table(at.relocs, |m.relocs|), at.strings, at.strings + |F.PoolOf(m).blob|)
  }

  function Loaded(m: F.Module, i: nat): I.Section
    requires i < |m.sections|
  {
    var s := m.sections[i];
    I.Section(s.kind, s.addr, s.size, if s.kind == F.BSS then 0 else F.HEADER_SIZE + |F.Images(m.sections[..i])|, |s.bytes|)
  }

  lemma SectionFields(d: seq<byte>, at: nat, s: F.Section, off: nat)
    requires at + 24 <= |d| && d[at..at + 24] == F.SectionBytes(s, off) && F.SectionFits(s) && off <= U32_MAX
    ensures d[at] == s.kind && Field(d, at + 2, 2) == 0 && Field(d, at + 4, 4) == s.addr
    ensures Field(d, at + 8, 4) == if s.kind == F.BSS then 0 else off
    ensures Field(d, at + 12, 4) == |s.bytes| && Field(d, at + 16, 4) == s.size
  {
    hide Le, Field, Pow256, F.SectionBytes;
    var file := if s.kind == F.BSS then 0 else off;
    Pow256s();
    SectionParts(s, off);
    SliceOfSlice(d, at, at + 24, 0, 1);
    SliceOfSlice(d, at, at + 24, 2, 4);
    SliceOfSlice(d, at, at + 24, 4, 8);
    SliceOfSlice(d, at, at + 24, 8, 12);
    SliceOfSlice(d, at, at + 24, 12, 16);
    SliceOfSlice(d, at, at + 24, 16, 20);
    OneByte(s.kind);
    assert d[at] == d[at..at + 1][0];
    LeReads(d, at + 2, 0, 2);
    LeReads(d, at + 4, s.addr, 4);
    LeReads(d, at + 8, file, 4);
    LeReads(d, at + 12, |s.bytes|, 4);
    LeReads(d, at + 16, s.size, 4);
  }

  lemma OneByte(n: nat)
    requires n < 0x100
    ensures Le(n, 1) == [n]
  {
  }

  lemma SectionParts(s: F.Section, off: nat)
    ensures (var b := F.SectionBytes(s, off);
      b[0..1] == Le(s.kind, 1) && b[2..4] == Le(0, 2) && b[4..8] == Le(s.addr, 4)
      && b[8..12] == Le(if s.kind == F.BSS then 0 else off, 4) && b[12..16] == Le(|s.bytes|, 4) && b[16..20] == Le(s.size, 4))
  {
    ZeroHalf();
    hide Le;
  }

  lemma ZeroHalf()
    ensures Le(0, 2) == Zeros(2)
  {
  }

  lemma SectionEntry(m: F.Module, digest: seq<byte>, i: nat)
    requires F.Representable(m) && |digest| == 64 && i < |m.sections|
    ensures (var at := F.LayoutOf(m).sections + i * 24;
      at + 24 <= F.TotalSize(m)
      && F.FileWith(m, digest)[at..at + 24] == F.SectionBytes(m.sections[i], F.HEADER_SIZE + |F.Images(m.sections[..i])|))
  {
    hide F.FileWith, F.SectionTable, F.SectionBytes, F.Images, F.FromImports, F.SectionFits, F.RelocFits;
    var pre := AroundSections(m, digest);
    SectionTableAt(m.sections, F.HEADER_SIZE, i);
    SliceInside(pre, F.SectionTable(m.sections, F.HEADER_SIZE), F.FromImports(m) + BLOCK, 24 * i, 24 * i + 24);
  }

  lemma SectionRead(m: F.Module, digest: seq<byte>, i: nat)
    requires F.Representable(m) && FromPacker(m) && |digest| == 64 && i < |m.sections|
    ensures I.SectionAt(ImageOf(m, F.FileWith(m, digest)), i) == I.Ok(Loaded(m, i))
  {
    hide F.FileWith, F.SectionTable, F.SectionBytes, F.Images, F.FromImports, F.RelocFits, Field, F.MaxEnd, F.PoolOf;
    var off := F.HEADER_SIZE + |F.Images(m.sections[..i])|;
    SectionEntry(m, digest, i);
    ImagesAt(m.sections, i);
    assert IsPacked(m.sections[i]) && F.SectionFits(m.sections[i]) && F.EndOf(m.sections[i]) <= F.MaxEnd(m.sections);
    SectionFields(F.FileWith(m, digest), F.LayoutOf(m).sections + i * 24, m.sections[i], off);
  }

  lemma ImageInFile(m: F.Module, digest: seq<byte>, i: nat)
    requires F.Representable(m) && |digest| == 64 && i < |m.sections|
    ensures (var at := F.HEADER_SIZE + |F.Images(m.sections[..i])|;
      at + |m.sections[i].bytes| <= F.LayoutOf(m).signature <= F.TotalSize(m)
      && F.FileWith(m, digest)[at..at + |m.sections[i].bytes|] == m.sections[i].bytes)
  {
    hide F.FileWith, F.Images, F.SectionFits, F.RelocFits, F.PoolOf, Head, F.FromSections, F.PadTo8, F.MaxEnd;
    var post := AroundImages(m, digest);
    var at := |F.Images(m.sections[..i])|;
    ImagesAt(m.sections, i);
    SliceInside(Head(m, digest), F.Images(m.sections), post, at, at + |m.sections[i].bytes|);
  }

  lemma SectionBytesRead(m: F.Module, digest: seq<byte>, i: nat)
    requires F.Representable(m) && FromPacker(m) && |digest| == 64 && i < |m.sections|
    ensures I.SectionBytes(ImageOf(m, F.FileWith(m, digest)), Loaded(m, i)) == I.Ok(m.sections[i].bytes)
  {
    hide F.FileWith, F.Images, F.SectionFits, F.RelocFits, F.PoolOf, F.LayoutOf, F.MaxEnd;
    ImageInFile(m, digest, i);
    assert IsPacked(m.sections[i]);
  }

  // ------------------------------------------------------------------- names

  predicate GoodName(name: F.Name) {
    0 < |name| <= I.MAX_NAME
  }

  lemma NameFields(d: seq<byte>, at: nat, p: F.Pool, name: F.Name)
    requires at + 16 <= |d| && d[at..at + 16] == F.NameBytes(p, name) && name in p.at
    requires p.at[name] <= U32_MAX && |name| <= U32_MAX
    ensures Field(d, at, 4) == p.at[name] && Field(d, at + 4, 4) == |name| && Field(d, at + 8, 8) == F.Fnv1a(name)
  {
    hide Le, Field, Pow256, F.NameBytes, F.Fnv1a;
    Pow256s();
    NameParts(p, name);
    SliceOfSlice(d, at, at + 16, 0, 4);
    SliceOfSlice(d, at, at + 16, 4, 8);
    SliceOfSlice(d, at, at + 16, 8, 16);
    LeReads(d, at, p.at[name], 4);
    LeReads(d, at + 4, |name|, 4);
    LeReads(d, at + 8, F.Fnv1a(name), 8);
  }

  lemma NameParts(p: F.Pool, name: F.Name)
    requires name in p.at
    ensures (var b := F.NameBytes(p, name);
      b[0..4] == Le(p.at[name], 4) && b[4..8] == Le(|name|, 4) && b[8..16] == Le(F.Fnv1a(name), 8))
  {
    hide Le, F.Fnv1a;
  }

  /** A name of the pool stands at its place in the string table. */
  lemma NameInFile(m: F.Module, digest: seq<byte>, name: F.Name)
    requires F.Representable(m) && |digest| == 64 && name in F.PoolOf(m).at
    ensures (var (p, at) := (F.PoolOf(m), F.LayoutOf(m).strings);
      p.at[name] + |name| <= |p.blob| && at + |p.blob| <= F.LayoutOf(m).signature <= F.TotalSize(m)
      && F.FileWith(m, digest)[at + p.at[name]..at + p.at[name] + |name|] == name)
  {
    hide F.FileWith, F.Images, F.SectionFits, F.RelocFits, F.PoolOf, F.MaxEnd, F.PadTo8;
    var p := F.PoolOf(m);
    F.PoolOfHolds(m);
    assert StandsAt(p.blob, p.at[name], name);
    var pre, post := AroundStrings(m, digest);
    SliceInside(pre, p.blob, post, p.at[name], p.at[name] + |name|);
  }

  lemma NameRead(m: F.Module, digest: seq<byte>, at: nat, name: F.Name)
    requires F.Representable(m) && |digest| == 64 && name in F.PoolOf(m).at && at + 16 <= F.TotalSize(m)
    requires F.FileWith(m, digest)[at..at + 16] == F.NameBytes(F.PoolOf(m), name)
    ensures I.NameAt(ImageOf(m, F.FileWith(m, digest)), at) == if GoodName(name) then I.Ok(name) else I.Err(I.BadSymbol)
  {
    hide F.FileWith, F.PoolOf, F.Images, F.SectionFits, F.RelocFits, F.MaxEnd, F.PadTo8, F.NameBytes, Field, F.Fnv1a;
    NameInFile(m, digest, name);
    NameFields(F.FileWith(m, digest), at, F.PoolOf(m), name);
    var (p, strings) := (F.PoolOf(m), F.LayoutOf(m).strings);
    assert strings + (p.at[name] + |name|) == strings + p.at[name] + |name|;
  }

  lemma ImportRead(m: F.Module, digest: seq<byte>, i: nat)
    requires F.Representable(m) && |digest| == 64 && i < |m.imports|
    ensures I.ImportName(ImageOf(m, F.FileWith(m, digest)), i)
      == if GoodName(m.imports[i]) then I.Ok(m.imports[i]) else I.Err(I.BadSymbol)
  {
    hide F.FileWith, F.PoolOf, F.Images, F.SectionFits, F.RelocFits, F.MaxEnd, F.PadTo8, F.NameBytes, F.ImportTable;
    hide I.NameAt, F.FromExports, GoodName;
    var pre := AroundImports(m, digest);
    ImportTableAt(F.PoolOf(m), m.imports, i);
    SliceInside(pre, F.ImportTable(F.PoolOf(m), m.imports), F.FromExports(m) + BLOCK, 16 * i, 16 * i + 16);
    F.PoolOfHolds(m);
    NameRead(m, digest, F.LayoutOf(m).imports + i * 16, m.imports[i]);
  }

  lemma ExportEntry(m: F.Module, digest: seq<byte>, i: nat)
    requires F.Representable(m) && |digest| == 64 && i < |m.exports|
    ensures (var (d, at) := (F.FileWith(m, digest), F.LayoutOf(m).exports + i * 24);
      at + 24 <= |d| && d[at..at + 16] == F.NameBytes(F.PoolOf(m), m.exports[i].name)
      && Field(d, at + 16, 4) == m.exports[i].memOff)
  {
    hide F.FileWith, F.PoolOf, F.Images, F.SectionFits, F.RelocFits, F.MaxEnd, F.PadTo8, F.NameBytes, F.ExportTable;
    hide F.FromRelocs, Field, Pow256, Le;
    var pre := AroundExports(m, digest);
    var (p, e, d, at) := (F.PoolOf(m), m.exports[i], F.FileWith(m, digest), F.LayoutOf(m).exports + i * 24);
    ExportTableAt(p, m.exports, i);
    SliceInside(pre, F.ExportTable(p, m.exports), F.FromRelocs(m) + BLOCK, 24 * i, 24 * i + 24);
    assert d[at..at + 24] == F.ExportBytes(p, e);
    SliceOfSlice(d, at, at + 24, 0, 16);
    SliceOfSlice(d, at, at + 24, 16, 20);
    assert F.ExportBytes(p, e)[0..16] == F.NameBytes(p, e.name) && F.ExportBytes(p, e)[16..20] == Le(e.memOff, 4);
    Pow256s();
    LeReads(d, at + 16, e.memOff, 4);
  }

  lemma ExportRead(m: F.Module, digest: seq<byte>, i: nat)
    requires F.Representable(m) && |digest| == 64 && i < |m.exports|
    ensures (var (x, e) := (I.ExportAt(ImageOf(m, F.FileWith(m, digest)), i), m.exports[i]);
      if GoodName(e.name) && e.memOff < F.ArenaSize(m) then x == I.Ok((e.name, e.memOff)) else x == I.Err(I.BadSymbol))
  {
    hide F.FileWith, F.PoolOf, F.Images, F.SectionFits, F.RelocFits, F.MaxEnd, F.PadTo8, F.NameBytes;
    hide I.NameAt, Field, GoodName;
    ExportEntry(m, digest, i);
    F.PoolOfHolds(m);
    NameRead(m, digest, F.LayoutOf(m).exports + i * 24, m.exports[i].name);
  }

  // ------------------------------------------------------------- relocations

  lemma RelocFields(d: seq<byte>, at: nat, r: F.Reloc)
    requires at + 32 <= |d| && F.RelocFits(r) && r.kind <= U32_MAX && d[at..at + 32] == F.RelocBytes(r)
    ensures Field(d, at, 4) == r.kind && Field(d, at + 8, 8) == r.offset && Field(d, at + 16, 4) == r.sym
    ensures Field(d, at + 24, 8) == F.Word(r.addend)
  {
    hide Le, Field, Pow256, F.RelocBytes, F.Word;
    Pow256s();
    RelocParts(r);
    SliceOfSlice(d, at, at + 32, 0, 4);
    SliceOfSlice(d, at, at + 32, 8, 16);
    SliceOfSlice(d, at, at + 32, 16, 20);
    SliceOfSlice(d, at, at + 32, 24, 32);
    LeReads(d, at, r.kind, 4);
    LeReads(d, at + 8, r.offset, 8);
    LeReads(d, at + 16, r.sym, 4);
    LeReads(d, at + 24, F.Word(r.addend), 8);
  }

  lemma RelocParts(r: F.Reloc)
    requires F.RelocFits(r)
    ensures (var b := F.RelocBytes(r);
      b[0..4] == Le(r.kind, 4) && b[8..16] == Le(r.offset, 8) && b[16..20] == Le(r.sym, 4)
      && b[24..32] == Le(F.Word(r.addend), 8))
  {
    hide Le, F.Word;
  }

  lemma RelocEntry(m: F.Module, digest: seq<byte>, i: nat)
    requires F.Representable(m) && |digest| == 64 && i < |m.relocs|
    ensures (var (d, at, r) := (F.FileWith(m, digest), F.LayoutOf(m).relocs + i * 32, m.relocs[i]);
      at + 32 <= |d| && Field(d, at, 4) == r.kind && Field(d, at + 8, 8) == r.offset && Field(d, at + 16, 4) == r.sym
      && Field(d, at + 24, 8) == F.Word(r.addend))
  {
    hide F.FileWith, F.PoolOf, F.Images, F.SectionFits, F.RelocFits, F.MaxEnd, F.PadTo8, F.RelocTable, F.RelocBytes;
    hide F.FromStrings, Field, F.Word;
    var pre := AroundRelocs(m, digest);
    RelocTableAt(m.relocs, i);
    SliceInside(pre, F.RelocTable(m.relocs), F.FromStrings(m) + BLOCK, 32 * i, 32 * i + 32);
    RelocFields(F.FileWith(m, digest), F.LayoutOf(m).relocs + i * 32, m.relocs[i]);
  }

  predicate Holds(s: F.Section, offset: nat) {
    s.addr <= offset && offset + 8 <= s.addr + s.size
  }

  /** The word at `offset` lies inside a section, and inside none that is code. */
  predicate IsWritable(ss: seq<F.Section>, offset: nat) {
    (exists i | 0 <= i < |ss| :: Holds(ss[i], offset))
    && forall i | 0 <= i < |ss| :: Holds(ss[i], offset) ==> ss[i].kind != F.TEXT
  }

  lemma {:induction false} WritableRead(m: F.Module, digest: seq<byte>, offset: nat, n: nat)
    requires F.Representable(m) && FromPacker(m) && |digest| == 64 && n <= |m.sections|
    ensures (var w := I.Writable(ImageOf(m, F.FileWith(m, digest)), offset, n);
      if exists i | 0 <= i < n :: Holds(m.sections[i], offset) && m.sections[i].kind == F.TEXT
      then w == I.Err(I.BadRelocation)
      else w == I.Ok(exists i | 0 <= i < n :: Holds(m.sections[i], offset)))
  {
    hide F.FileWith, F.PoolOf, F.Images, I.SectionAt, F.LayoutOf, F.Representable, FromPacker, Holds;
    if n > 0 {
      WritableRead(m, digest, offset, n - 1);
      SectionRead(m, digest, n - 1);
      SameHold(m, n - 1, offset);
    }
  }

  lemma SameHold(m: F.Module, i: nat, offset: nat)
    requires i < |m.sections|
    ensures I.Contains(Loaded(m, i), offset) == Holds(m.sections[i], offset) && Loaded(m, i).kind == m.sections[i].kind
  {
  }

  /** What the loader asks of a relocation. */
  predicate GoodReloc(m: F.Module, r: F.Reloc) {
    IsWritable(m.sections, r.offset)
    && if r.kind == F.RELATIVE then 0 <= r.addend <= F.ArenaSize(m)
       else r.kind == F.IMPORT64 && r.sym < |m.imports| && r.addend == 0
  }

  function LoadedReloc(m: F.Module, r: F.Reloc): I.Reloc
    requires GoodReloc(m, r)
  {
    if r.kind == F.RELATIVE then I.Relative(r.offset, r.addend) else I.Import(r.offset, r.sym)
  }

  lemma RelocRead(m: F.Module, digest: seq<byte>, i: nat)
    requires F.Representable(m) && FromPacker(m) && |digest| == 64 && i < |m.relocs|
    ensures (var (x, r) := (I.RelocAt(ImageOf(m, F.FileWith(m, digest)), i), m.relocs[i]);
      if GoodReloc(m, r) then x == I.Ok(LoadedReloc(m, r)) else x == I.Err(I.BadRelocation))
  {
    hide F.FileWith, F.PoolOf, F.Images, F.SectionFits, F.MaxEnd, F.PadTo8, I.Writable, Field, Holds;
    var r := m.relocs[i];
    RelocEntry(m, digest, i);
    WritableRead(m, digest, r.offset, |m.sections|);
    assert F.RelocFits(r);
  }
}
