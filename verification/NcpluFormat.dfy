/**
 The module file of tools/ncplu.py and crates/nanochrono-core/src/ncplu.rs: header,
 section images, four tables, the name pool, and the room for the signature block.
 */
module NcpluFormat {
  import opened Bytes

  const MAGIC: seq<byte> := [0x4E, 0x43, 0x50, 0x4C, 0x55, 0x1B, 0, 0]
  const FORMAT_VERSION := 1
  const ABI_VERSION := 1
  const HEADER_SIZE := 160
  const FLAG_HAS_CAPS := 2
  const SIGNATURE_LEN := 4767

  const TEXT := 1
  const RODATA := 2
  const DATA := 3
  const BSS := 4
  const RELATIVE := 1
  const IMPORT64 := 2

  const SECTION_SIZE := 24
  const IMPORT_SIZE := 16
  const EXPORT_SIZE := 24
  const RELOC_SIZE := 32

  type Name = seq<byte>

  // --------------------------------------------------------------- contents

  /** A section at `addr`: its file bytes, then zeros up to `size`. */
  datatype Section = Section(kind: nat, flags: nat, addr: nat, bytes: seq<byte>, size: nat)

  datatype Export = Export(name: Name, memOff: nat)

  /** Write `base + addend`, or the address of import `sym`, at `offset`. */
  datatype Reloc = Reloc(kind: nat, offset: nat, sym: nat, addend: int)

  datatype Module = Module(
    sections: seq<Section>,
    imports: seq<Name>,
    exports: seq<Export>,
    relocs: seq<Reloc>,
    entry: nat,
    caps: nat,
    arch: nat,
    kind: nat)

  function EndOf(s: Section): nat {
    s.addr + s.size
  }

  function MaxEnd(ss: seq<Section>): (n: nat)
    ensures forall i | 0 <= i < |ss| :: EndOf(ss[i]) <= n
  {
    if ss == [] then 0
    else
      var rest := MaxEnd(ss[..|ss| - 1]);
      var end := EndOf(ss[|ss| - 1]);
      if end > rest then end else rest
  }

  function ArenaSize(m: Module): (n: nat)
    ensures MaxEnd(m.sections) <= n
  {
    (MaxEnd(m.sections) + 15) / 16 * 16
  }

  // -------------------------------------------------------------- name pool

  /** The bytes of the names, and where each name stands in them. */
  datatype Pool = Pool(blob: seq<byte>, at: map<Name, nat>)

  function Intern(p: Pool, name: Name): Pool {
    if name in p.at then p else Pool(p.blob + name, p.at[name := |p.blob|])
  }

  function InternAll(p: Pool, names: seq<Name>): Pool
    decreases |names|
  {
    if names == [] then p else InternAll(Intern(p, names[0]), names[1..])
  }

  function ExportNames(es: seq<Export>): (r: seq<Name>)
    ensures |r| == |es| && forall i | 0 <= i < |es| :: r[i] == es[i].name
  {
    if es == [] then [] else [es[0].name] + ExportNames(es[1..])
  }

  function PoolOf(m: Module): Pool {
    InternAll(InternAll(Pool([], map[]), m.imports), ExportNames(m.exports))
  }

  predicate PoolHolds(p: Pool) {
    forall n | n in p.at :: StandsAt(p.blob, p.at[n], n)
  }

  /** Every place handed out so far stays good. */
  predicate Extends(p: Pool, q: Pool) {
    forall n | n in p.at :: n in q.at && q.at[n] == p.at[n]
  }

  lemma StandsOn(blob: seq<byte>, more: seq<byte>, at: nat, name: Name)
    requires StandsAt(blob, at, name)
    ensures StandsAt(blob + more, at, name)
  {
  }

  lemma InternHolds(p: Pool, name: Name)
    requires PoolHolds(p)
    ensures PoolHolds(Intern(p, name)) && Extends(p, Intern(p, name)) && name in Intern(p, name).at
  {
    var q := Intern(p, name);
    assert StandsAt(p.blob + name, |p.blob|, name);
    hide StandsAt;
    forall n | n in q.at
      ensures StandsAt(q.blob, q.at[n], n)
    {
      if n in p.at {
        StandsOn(p.blob, name, p.at[n], n);
      }
    }
  }

  lemma {:induction false} InternAllHolds(p: Pool, names: seq<Name>)
    requires PoolHolds(p)
    ensures PoolHolds(InternAll(p, names)) && Extends(p, InternAll(p, names))
    ensures forall i | 0 <= i < |names| :: names[i] in InternAll(p, names).at
    decreases |names|
  {
    hide PoolHolds, Intern;
    if names != [] {
      InternHolds(p, names[0]);
      InternAllHolds(Intern(p, names[0]), names[1..]);
      assert names == [names[0]] + names[1..];
    }
  }

  lemma PoolOfHolds(m: Module)
    ensures PoolHolds(PoolOf(m))
    ensures forall i | 0 <= i < |m.imports| :: m.imports[i] in PoolOf(m).at
    ensures forall i | 0 <= i < |m.exports| :: m.exports[i].name in PoolOf(m).at
  {
    hide InternAll;
    var p := InternAll(Pool([], map[]), m.imports);
    InternAllHolds(Pool([], map[]), m.imports);
    InternAllHolds(p, ExportNames(m.exports));
    forall i | 0 <= i < |m.exports|
      ensures m.exports[i].name in PoolOf(m).at
    {
      assert ExportNames(m.exports)[i] in PoolOf(m).at;
    }
  }

  // ------------------------------------------------------------ table entries

  const FNV_OFFSET: bv64 := 0xCBF2_9CE4_8422_2325
  const FNV_PRIME: bv64 := 0x100_0000_01B3

  function Fnv(h: bv64, data: seq<byte>): bv64
    decreases |data|
  {
    if data == [] then h else Fnv((h ^ (data[0] as bv64)) * FNV_PRIME, data[1..])
  }

  function Fnv1a(data: seq<byte>): u64 {
    Fnv(FNV_OFFSET, data) as int
  }

  /** A signed 64-bit number as the word that holds it. */
  function Word(a: int): (w: u64)
    requires -0x8000_0000_0000_0000 <= a < 0x8000_0000_0000_0000
  {
    if a >= 0 then a else a + 0x1_0000_0000_0000_0000
  }

  function SectionBytes(s: Section, fileOff: nat): (r: seq<byte>)
    ensures |r| == SECTION_SIZE
  {
    Le(s.kind, 1) + Le(s.flags, 1) + Zeros(2) + Le(s.addr, 4) + Le(if s.kind == BSS then 0 else fileOff, 4)
    + Le(|s.bytes|, 4) + Le(s.size, 4) + Zeros(4)
  }

  function NameBytes(p: Pool, name: Name): (r: seq<byte>)
    ensures |r| == IMPORT_SIZE
  {
    Le(if name in p.at then p.at[name] else 0, 4) + Le(|name|, 4) + Le(Fnv1a(name), 8)
  }

  function ExportBytes(p: Pool, e: Export): (r: seq<byte>)
    ensures |r| == EXPORT_SIZE
  {
    NameBytes(p, e.name) + Le(e.memOff, 4) + Zeros(4)
  }

  predicate RelocFits(r: Reloc) {
    r.offset <= U64_MAX && r.sym <= U32_MAX && -0x8000_0000_0000_0000 <= r.addend < 0x8000_0000_0000_0000
  }

  function RelocBytes(r: Reloc): (b: seq<byte>)
    requires RelocFits(r)
    ensures |b| == RELOC_SIZE
  {
    Le(r.kind, 4) + Zeros(4) + Le(r.offset, 8) + Le(r.sym, 4) + Zeros(4) + Le(Word(r.addend), 8)
  }

  // ------------------------------------------------------------------ tables

  function Images(ss: seq<Section>): seq<byte> {
    if ss == [] then [] else ss[0].bytes + Images(ss[1..])
  }

  function SectionTable(ss: seq<Section>, fileOff: nat): (r: seq<byte>)
    ensures |r| == SECTION_SIZE * |ss|
  {
    if ss == [] then [] else SectionBytes(ss[0], fileOff) + SectionTable(ss[1..], fileOff + |ss[0].bytes|)
  }

  function ImportTable(p: Pool, names: seq<Name>): (r: seq<byte>)
    ensures |r| == IMPORT_SIZE * |names|
  {
    if names == [] then [] else NameBytes(p, names[0]) + ImportTable(p, names[1..])
  }

  function ExportTable(p: Pool, es: seq<Export>): (r: seq<byte>)
    ensures |r| == EXPORT_SIZE * |es|
  {
    if es == [] then [] else ExportBytes(p, es[0]) + ExportTable(p, es[1..])
  }

  function RelocTable(rs: seq<Reloc>): (b: seq<byte>)
    requires forall i | 0 <= i < |rs| :: RelocFits(rs[i])
    ensures |b| == RELOC_SIZE * |rs|
  {
    if rs == [] then [] else RelocBytes(rs[0]) + RelocTable(rs[1..])
  }

  // ------------------------------------------------------------------ layout

  function PadTo8(n: nat): (k: nat)
    ensures k < 8 && (n + k) % 8 == 0
  {
    (8 - n % 8) % 8
  }

  /** Where each part of the file starts. */
  datatype Layout = Layout(sections: nat, imports: nat, exports: nat, relocs: nat, strings: nat, signature: nat)

  function LayoutOf(m: Module): Layout {
    var images := HEADER_SIZE + |Images(m.sections)|;
    var sections := images + PadTo8(images);
    var imports := sections + SECTION_SIZE * |m.sections|;
    var exports := imports + IMPORT_SIZE * |m.imports|;
    var relocs := exports + EXPORT_SIZE * |m.exports|;
    var strings := relocs + RELOC_SIZE * |m.relocs|;
    var end := strings + |PoolOf(m).blob|;
    Layout(sections, imports, exports, relocs, strings, end + PadTo8(end))
  }

  function TotalSize(m: Module): nat {
    LayoutOf(m).signature + SIGNATURE_LEN
  }

  predicate SectionFits(s: Section) {
    s.kind < 0x100 && s.flags < 0x100 && s.addr <= U32_MAX && |s.bytes| <= U32_MAX && s.size <= U32_MAX
  }

  /** Every number fits its field, so nothing is refused while the fields are written. */
  predicate Representable(m: Module) {
    LayoutOf(m).signature <= U32_MAX && ArenaSize(m) <= U32_MAX && m.caps <= U32_MAX && m.arch < 0x1_0000 && m.kind < 0x1_0000
    && m.entry <= U32_MAX
    && (forall i | 0 <= i < |m.sections| :: SectionFits(m.sections[i]))
    && (forall i | 0 <= i < |m.exports| :: m.exports[i].memOff <= U32_MAX)
    && (forall i | 0 <= i < |m.relocs| :: RelocFits(m.relocs[i]) && m.relocs[i].kind <= U32_MAX)
  }

  // ------------------------------------------------------------------ header

  function Pair(a: nat, b: nat): (r: seq<byte>)
    ensures |r| == 8
  {
    Le(a, 4) + Le(b, 4)
  }

  function HeaderTop(total: nat, entry: nat): (r: seq<byte>)
    ensures |r| == 32
  {
    MAGIC + Le(FORMAT_VERSION, 2) + Le(HEADER_SIZE, 2) + Le(FLAG_HAS_CAPS, 4) + Le(total, 8) + Pair(ABI_VERSION, entry)
  }

  function HeaderTables(m: Module, at: Layout): (r: seq<byte>)
    ensures |r| == 48
  {
    Pair(at.sections, |m.sections|) + Pair(at.imports, |m.imports|) + Pair(at.exports, |m.exports|)
    + Pair(at.relocs, |m.relocs|) + Pair(at.strings, |PoolOf(m).blob|) + Pair(at.signature, SIGNATURE_LEN)
  }

  /** The header up to the digest. */
  function HeaderFront(m: Module): (r: seq<byte>)
    ensures |r| == 88
  {
    HeaderTop(TotalSize(m), m.entry) + HeaderTables(m, LayoutOf(m)) + Pair(ArenaSize(m), m.caps)
  }

  /** The header behind the digest. */
  function HeaderBack(m: Module): (r: seq<byte>)
    ensures |r| == 8
  {
    Le(m.arch, 2) + Le(m.kind, 2) + Zeros(4)
  }

  // -------------------------------------------------------------- whole file

  function FromStrings(m: Module): (r: seq<byte>)
    ensures |r| == LayoutOf(m).signature - LayoutOf(m).strings
  {
    PoolOf(m).blob + Zeros(PadTo8(LayoutOf(m).strings + |PoolOf(m).blob|))
  }

  function FromRelocs(m: Module): (r: seq<byte>)
    requires Representable(m)
    ensures |r| == LayoutOf(m).signature - LayoutOf(m).relocs
  {
    RelocTable(m.relocs) + FromStrings(m)
  }

  function FromExports(m: Module): (r: seq<byte>)
    requires Representable(m)
    ensures |r| == LayoutOf(m).signature - LayoutOf(m).exports
  {
    ExportTable(PoolOf(m), m.exports) + FromRelocs(m)
  }

  function FromImports(m: Module): (r: seq<byte>)
    requires Representable(m)
    ensures |r| == LayoutOf(m).signature - LayoutOf(m).imports
  {
    ImportTable(PoolOf(m), m.imports) + FromExports(m)
  }

  function FromSections(m: Module): (r: seq<byte>)
    requires Representable(m)
    ensures |r| == LayoutOf(m).signature - LayoutOf(m).sections
  {
    SectionTable(m.sections, HEADER_SIZE) + FromImports(m)
  }

  /** Everything behind the header and before the signature block. */
  function Contents(m: Module): (r: seq<byte>)
    requires Representable(m)
    ensures |r| == LayoutOf(m).signature - HEADER_SIZE
  {
    Images(m.sections) + Zeros(PadTo8(HEADER_SIZE + |Images(m.sections)|)) + FromSections(m)
  }

  /** `d` cut or filled up to the 64 bytes of the digest field. */
  function DigestField(d: seq<byte>): (r: seq<byte>)
    ensures |r| == 64
  {
    if |d| >= 64 then d[..64] else d + Zeros(64 - |d|)
  }

  /** The file with this in its digest field. */
  function FileWith(m: Module, digest: seq<byte>): (r: seq<byte>)
    requires Representable(m) && |digest| == 64
    ensures |r| == TotalSize(m)
  {
    HeaderFront(m) + digest + HeaderBack(m) + Contents(m) + Zeros(SIGNATURE_LEN)
  }

  /** What is hashed: everything before the signature, with zeros for the digest. */
  function Signed(file: seq<byte>, sigOff: nat): (r: seq<byte>)
    requires HEADER_SIZE <= sigOff <= |file|
    ensures |r| == sigOff
  {
    file[..88] + Zeros(64) + file[152..sigOff]
  }

  /** The packed file; `sha` stands for SHA-512. */
  function File(m: Module, sha: seq<byte> -> seq<byte>): (r: seq<byte>)
    requires Representable(m)
    ensures |r| == TotalSize(m)
  {
    FileWith(m, DigestField(sha(Signed(FileWith(m, Zeros(64)), LayoutOf(m).signature))))
  }

  /** The header's digest is that of the file, digest field and signature block included: neither is hashed. */
  lemma DigestHolds(m: Module, sha: seq<byte> -> seq<byte>, block: seq<byte>)
    requires Representable(m) && |block| == SIGNATURE_LEN
    ensures (var (file, sig) := (File(m, sha), LayoutOf(m).signature);
      var signed := file[..sig] + block;
      signed[88..152] == DigestField(sha(Signed(signed, sig))))
  {
    hide HeaderFront, HeaderBack, Contents, LayoutOf;
    var sig := LayoutOf(m).signature;
    var zeroed := FileWith(m, Zeros(64));
    var digest := DigestField(sha(Signed(zeroed, sig)));
    var file := FileWith(m, digest);
    var signed := file[..sig] + block;
    assert Signed(signed, sig) == Signed(zeroed, sig);
    assert file[88..152] == digest;
  }
}
