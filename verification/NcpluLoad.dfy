/**
 Packing and loading preserve the object: the loader accepts a packed file exactly
 when the module keeps its rules, and then leaves in the arena what mapping the
 object's sections and applying its relocations leaves.
 */
module NcpluLoad {
  import opened Bytes
  import opened Wrappers
  import F = NcpluFormat
  import I = NcpluImage
  import P = NcpluPack
  import R = NcpluRead

  // ------------------------------------------------- what the loader accepts

  predicate Overlaps(a: F.Section, b: F.Section) {
    a.addr < b.addr + b.size && b.addr < a.addr + a.size
  }

  predicate NoOverlaps(ss: seq<F.Section>, n: nat)
    requires n <= |ss|
  {
    forall i: nat, j: nat | j < i < n :: !Overlaps(ss[i], ss[j])
  }

  lemma {:induction false} SectionsFaultRead(m: F.Module, digest: seq<byte>, n: nat)
    requires F.Representable(m) && R.FromPacker(m) && |digest| == 64 && n <= |m.sections|
    ensures I.SectionsFault(R.ImageOf(m, F.FileWith(m, digest)), n).None? <==> NoOverlaps(m.sections, n)
  {
    hide F.FileWith, F.Representable, R.FromPacker, R.ImageOf, I.SectionAt, Overlaps, I.Overlap, R.Loaded;
    if n > 0 {
      var img := R.ImageOf(m, F.FileWith(m, digest));
      SectionsFaultRead(m, digest, n - 1);
      forall j: nat | j < n
        ensures I.SectionAt(img, j) == I.Ok(R.Loaded(m, j))
        ensures I.Overlap(R.Loaded(m, n - 1), R.Loaded(m, j)) == Overlaps(m.sections[n - 1], m.sections[j])
      {
        R.SectionRead(m, digest, j);
        SameOverlap(m, n - 1, j);
      }
    }
  }

  lemma SameOverlap(m: F.Module, i: nat, j: nat)
    requires i < |m.sections| && j < |m.sections|
    ensures I.Overlap(R.Loaded(m, i), R.Loaded(m, j)) == Overlaps(m.sections[i], m.sections[j])
  {
  }

  lemma {:induction false} ImportsFaultRead(m: F.Module, digest: seq<byte>, n: nat)
    requires F.Representable(m) && |digest| == 64 && n <= |m.imports|
    ensures I.ImportsFault(R.ImageOf(m, F.FileWith(m, digest)), n).None?
      <==> forall i | 0 <= i < n :: R.GoodName(m.imports[i])
  {
    hide F.FileWith, F.Representable, R.ImageOf, I.ImportName, R.GoodName;
    if n > 0 {
      ImportsFaultRead(m, digest, n - 1);
      R.ImportRead(m, digest, n - 1);
    }
  }

  predicate GoodExport(m: F.Module, e: F.Export) {
    R.GoodName(e.name) && e.memOff < F.ArenaSize(m)
  }

  lemma {:induction false} ExportsFaultRead(m: F.Module, digest: seq<byte>, n: nat)
    requires F.Representable(m) && |digest| == 64 && n <= |m.exports|
    ensures I.ExportsFault(R.ImageOf(m, F.FileWith(m, digest)), n).None?
      <==> forall i | 0 <= i < n :: GoodExport(m, m.exports[i])
  {
    hide F.FileWith, F.Representable, R.ImageOf, I.ExportAt, R.GoodName;
    if n > 0 {
      ExportsFaultRead(m, digest, n - 1);
      R.ExportRead(m, digest, n - 1);
    }
  }

  lemma {:induction false} RelocsFaultRead(m: F.Module, digest: seq<byte>, n: nat)
    requires F.Representable(m) && R.FromPacker(m) && |digest| == 64 && n <= |m.relocs|
    ensures I.RelocsFault(R.ImageOf(m, F.FileWith(m, digest)), n).None?
      <==> forall i | 0 <= i < n :: R.GoodReloc(m, m.relocs[i])
  {
    hide F.FileWith, F.Representable, R.FromPacker, R.ImageOf, I.RelocAt, R.GoodReloc;
    if n > 0 {
      RelocsFaultRead(m, digest, n - 1);
      R.RelocRead(m, digest, n - 1);
    }
  }

  /** The entry is an export inside the file bytes of a code section. */
  predicate GoodEntry(m: F.Module) {
    m.entry < |m.exports| && exists i | 0 <= i < |m.sections| :: HoldsCode(m.sections[i], m.exports[m.entry].memOff)
  }

  predicate HoldsCode(s: F.Section, at: nat) {
    s.kind == F.TEXT && s.addr <= at < s.addr + |s.bytes|
  }

  predicate GoodSizes(m: F.Module) {
    F.TotalSize(m) <= I.MAX_IMAGE && 0 < F.ArenaSize(m) <= I.MAX_ARENA && m.arch <= 8 && m.kind <= 3
  }

  predicate GoodCounts(m: F.Module) {
    |m.sections| <= I.MAX_SECTIONS && |m.imports| <= I.MAX_IMPORTS && |m.exports| <= I.MAX_EXPORTS
    && |m.relocs| <= I.MAX_RELOCS
  }

  /** Everything the loader asks of a module. */
  predicate Acceptable(m: F.Module) {
    GoodSizes(m) && GoodCounts(m)
    && NoOverlaps(m.sections, |m.sections|)
    && (forall i | 0 <= i < |m.imports| :: R.GoodName(m.imports[i]))
    && (forall i | 0 <= i < |m.exports| :: GoodExport(m, m.exports[i]))
    && (forall i | 0 <= i < |m.relocs| :: R.GoodReloc(m, m.relocs[i]))
    && GoodEntry(m)
  }

  lemma InCodeRead(m: F.Module, digest: seq<byte>, entry: nat)
    requires F.Representable(m) && R.FromPacker(m) && |digest| == 64
    ensures I.InCode(R.ImageOf(m, F.FileWith(m, digest)), entry)
      <==> exists i | 0 <= i < |m.sections| :: HoldsCode(m.sections[i], entry)
  {
    hide F.FileWith, F.Representable, R.FromPacker, I.SectionAt;
    var img := R.ImageOf(m, F.FileWith(m, digest));
    forall i: nat | i < |m.sections|
      ensures I.SectionAt(img, i) == I.Ok(R.Loaded(m, i))
    {
      R.SectionRead(m, digest, i);
    }
    if i: nat :| i < |m.sections| && HoldsCode(m.sections[i], entry) {
      assert I.SectionAt(img, i) == I.Ok(R.Loaded(m, i));
    }
    if I.InCode(img, entry) {
      var i: nat :| i < |m.sections| && (var s := I.SectionAt(img, i);
        s.Ok? && s.value.kind == F.TEXT && s.value.memOff <= entry < s.value.memOff + s.value.fileSize);
      assert HoldsCode(m.sections[i], entry);
    }
  }

  lemma EntryFaultRead(m: F.Module, digest: seq<byte>)
    requires F.Representable(m) && R.FromPacker(m) && |digest| == 64
    requires forall i | 0 <= i < |m.exports| :: GoodExport(m, m.exports[i])
    ensures I.EntryFault(R.ImageOf(m, F.FileWith(m, digest))).None? <==> GoodEntry(m)
  {
    hide F.FileWith, F.Representable, R.FromPacker, I.ExportAt, I.InCode, HoldsCode, Field, F.LayoutOf, F.PoolOf;
    R.HeaderReads(m, digest);
    if m.entry < |m.exports| {
      R.ExportRead(m, digest, m.entry);
      InCodeRead(m, digest, m.exports[m.entry].memOff);
    }
  }

  lemma EntriesFaultRead(m: F.Module, digest: seq<byte>)
    requires F.Representable(m) && R.FromPacker(m) && |digest| == 64 && GoodSizes(m) && GoodCounts(m)
    ensures I.EntriesFault(R.ImageOf(m, F.FileWith(m, digest))).None? <==> Acceptable(m)
  {
    hide F.FileWith, F.Representable, R.FromPacker, I.EntryFault, GoodEntry, R.GoodReloc, R.GoodName, NoOverlaps, GoodExport;
    hide I.SectionsFault, I.ImportsFault, I.ExportsFault, I.RelocsFault, F.LayoutOf, F.PoolOf, GoodSizes, GoodCounts;
    SectionsFaultRead(m, digest, |m.sections|);
    ImportsFaultRead(m, digest, |m.imports|);
    ExportsFaultRead(m, digest, |m.exports|);
    RelocsFaultRead(m, digest, |m.relocs|);
    if forall i | 0 <= i < |m.exports| :: GoodExport(m, m.exports[i]) {
      EntryFaultRead(m, digest);
    }
  }

  lemma HeaderFaultRead(m: F.Module, digest: seq<byte>)
    requires F.Representable(m) && |digest| == 64
    ensures I.HeaderFault(F.FileWith(m, digest)).None? <==> GoodSizes(m)
  {
    hide F.FileWith, F.Representable, Field, F.PoolOf, F.Images, F.PadTo8, F.ArenaSize;
    R.HeaderReads(m, digest);
  }

  lemma TablesOfRead(m: F.Module, digest: seq<byte>)
    requires F.Representable(m) && |digest| == 64
    ensures I.TablesOf(F.FileWith(m, digest))
      == if GoodCounts(m) then I.Ok(R.ImageOf(m, F.FileWith(m, digest))) else I.Err(I.BadTable)
  {
    hide F.FileWith, F.Representable, Field, F.PoolOf, F.Images, F.ArenaSize;
    R.HeaderReads(m, digest);
  }

  /** The loader accepts a packed file exactly when the module is acceptable, and sees the module as packed. */
  lemma AcceptedIff(m: F.Module, digest: seq<byte>)
    requires F.Representable(m) && R.FromPacker(m) && |digest| == 64
    ensures (var (file, parsed) := (F.FileWith(m, digest), I.ParseOf(F.FileWith(m, digest)));
      if Acceptable(m) then parsed == I.Ok(R.ImageOf(m, file)) else parsed.Err?)
  {
    hide F.FileWith, F.Representable, R.FromPacker, I.HeaderFault, I.TablesOf, I.EntriesFault, F.LayoutOf, F.PoolOf;
    hide GoodEntry, R.GoodReloc, R.GoodName, NoOverlaps, GoodExport, GoodSizes, GoodCounts, F.TotalSize, Field;
    var file := F.FileWith(m, digest);
    HeaderFaultRead(m, digest);
    if GoodSizes(m) {
      R.HeaderReads(m, digest);
      assert Field(file, 16, 8) == F.TotalSize(m) && file[..|file|] == file;
      TablesOfRead(m, digest);
      if GoodCounts(m) {
        EntriesFaultRead(m, digest);
      }
    }
  }

  // ----------------------------------------------------------------- linking

  /** What a relocation against a symbol became: a rebase when it is defined, else an import by name. */
  predicate Bound(s: P.Symbol, imports: seq<F.Name>, addend: int, q: F.Reloc) {
    if s.section != 0 then q.kind == F.RELATIVE && q.addend == s.value + addend
    else q.kind == F.IMPORT64 && q.addend == addend && q.sym < |imports| && imports[q.sym] == s.name
  }

  /** What relocation `r` of the object became. */
  predicate Became(e: P.Elf, imports: seq<F.Name>, r: P.Rela, q: F.Reloc) {
    q.offset == r.offset
    && if r.rtype == P.R_RELATIVE then q.kind == F.RELATIVE && q.addend == r.addend
       else P.IsSymbolic(r.rtype) && r.sym < |e.symbols| && Bound(e.symbols[r.sym], imports, r.addend, q)
  }

  /** Every relocation is there, and every imported name once, however often it is used. */
  lemma {:induction false} LinkKeeps(e: P.Elf, n: nat)
    requires n <= |e.relas| && P.LinkAll(e, n).Done?
    ensures (var l := P.LinkAll(e, n).value;
      |l.relocs| == n && Distinct(l.imports) && forall i | 0 <= i < n :: Became(e, l.imports, e.relas[i], l.relocs[i]))
  {
    if n > 0 {
      hide P.LinkOne, Became;
      LinkKeeps(e, n - 1);
      var (before, after) := (P.LinkAll(e, n - 1).value, P.LinkAll(e, n).value);
      LinkOneKeeps(e, before, e.relas[n - 1]);
      forall i | 0 <= i < n
        ensures Became(e, after.imports, e.relas[i], after.relocs[i])
      {
        if i < n - 1 {
          BecameStays(e, before.imports, after.imports, e.relas[i], before.relocs[i]);
        }
      }
    }
  }

  lemma LinkOneKeeps(e: P.Elf, l: P.Link, r: P.Rela)
    requires P.LinkOne(e, l, r).Done? && Distinct(l.imports)
    ensures (var q := P.LinkOne(e, l, r).value;
      |q.relocs| == |l.relocs| + 1 && q.relocs[..|l.relocs|] == l.relocs && l.imports <= q.imports
      && Distinct(q.imports) && Became(e, q.imports, r, q.relocs[|l.relocs|]))
  {
    hide P.IndexOf;
  }

  lemma BecameStays(e: P.Elf, few: seq<F.Name>, more: seq<F.Name>, r: P.Rela, q: F.Reloc)
    requires few <= more && Became(e, few, r, q)
    ensures Became(e, more, r, q)
  {
  }

  // ---------------------------------------------------------------- sections

  predicate In(s: P.Section, a: nat) {
    s.addr <= a < s.addr + s.size
  }

  /** A section behind others that do not cover `a`. */
  lemma {:induction false} ByteAtNext(ss: seq<P.Section>, s: P.Section, a: nat)
    requires In(s, a) ==> forall i | 0 <= i < |ss| :: !In(ss[i], a)
    ensures P.ByteAt(ss + [s], a) == if In(s, a) then P.ByteAt([s], a) else P.ByteAt(ss, a)
    ensures In(s, a) ==> P.ByteAt(ss, a) == 0
  {
    var all := ss + [s];
    if ss == [] {
      assert all == [s];
      assert [s][1..] == [];
    } else {
      assert all[1..] == ss[1..] + [s];
      assert In(s, a) ==> !In(ss[0], a) && forall i | 0 <= i < |ss[1..]| :: ss[1..][i] == ss[i + 1];
      ByteAtNext(ss[1..], s, a);
    }
  }

  /** The packed sections are the object's kept ones. */
  predicate Matches(m: F.Module, ss: seq<P.Section>) {
    |m.sections| == |ss| && forall i | 0 <= i < |ss| :: m.sections[i] == P.Flat(ss[i]) && IsWhole(ss[i])
  }

  predicate IsWhole(s: P.Section) {
    s.size > 0 && (!s.noBits ==> |s.bytes| == s.size)
  }

  lemma MatchesIsPacked(m: F.Module, ss: seq<P.Section>)
    requires Matches(m, ss)
    ensures R.FromPacker(m)
  {
  }

  /** Copying one more section into what the sections before it left. */
  lemma CopyStep(arena: seq<byte>, ss: seq<P.Section>, s: P.Section)
    requires arena == P.Mapped(ss, |arena|) && s.addr + s.size <= |arena| && (!s.noBits ==> |s.bytes| == s.size)
    requires forall i: nat, a: nat | i < |ss| && In(s, a) :: !In(ss[i], a)
    ensures Patch(arena, s.addr, P.Flat(s).bytes) == P.Mapped(ss + [s], |arena|)
  {
    var patched, mapped := Patch(arena, s.addr, P.Flat(s).bytes), P.Mapped(ss + [s], |arena|);
    forall a: nat | a < |arena|
      ensures patched[a] == mapped[a]
    {
      ByteAtNext(ss, s, a);
      PatchAt(arena, s.addr, P.Flat(s).bytes, a);
    }
  }

  lemma Apart(m: F.Module, ss: seq<P.Section>, i: nat, j: nat, a: nat)
    requires Matches(m, ss) && NoOverlaps(m.sections, |m.sections|) && j < i < |ss| && In(ss[i], a)
    ensures !In(ss[j], a)
  {
    assert !Overlaps(m.sections[i], m.sections[j]);
  }

  lemma {:induction false} CopiedIsMapped(m: F.Module, ss: seq<P.Section>, digest: seq<byte>, n: nat)
    requires F.Representable(m) && |digest| == 64 && Matches(m, ss) && NoOverlaps(m.sections, |m.sections|) && n <= |ss|
    ensures I.Copied(R.ImageOf(m, F.FileWith(m, digest)), n) == I.Ok(P.Mapped(ss[..n], F.ArenaSize(m)))
  {
    hide F.FileWith, F.Representable, R.FromPacker, I.SectionAt, I.SectionBytes, F.LayoutOf, F.PoolOf, NoOverlaps, F.MaxEnd;
    hide P.ByteAt, Patch, In, F.Images;
    MatchesIsPacked(m, ss);
    if n == 0 {
      NothingMapped(F.ArenaSize(m));
      assert ss[..0] == [];
    } else {
      var s := ss[n - 1];
      CopiedIsMapped(m, ss, digest, n - 1);
      R.SectionRead(m, digest, n - 1);
      R.SectionBytesRead(m, digest, n - 1);
      assert ss[..n] == ss[..n - 1] + [s];
      assert F.EndOf(m.sections[n - 1]) <= F.MaxEnd(m.sections);
      var front := ss[..n - 1];
      forall i: nat, a: nat | i < |front| && In(s, a)
        ensures !In(front[i], a)
      {
        Apart(m, ss, n - 1, i, a);
      }
      CopyStep(P.Mapped(front, F.ArenaSize(m)), front, s);
    }
  }

  lemma NothingMapped(size: nat)
    ensures P.Mapped([], size) == Zeros(size)
  {
  }

  // ------------------------------------------------------------- relocations

  predicate IsSlot(r: P.Rela) {
    r.rtype == P.R_GLOB_DAT || r.rtype == P.R_JUMP_SLOT
  }

  /** A slot relocation against a defined symbol; there the packer adds the addend, and the psABI does not. */
  predicate IsBoundSlot(e: P.Elf, r: P.Rela) {
    IsSlot(r) && r.sym < |e.symbols| && e.symbols[r.sym].section != P.UNDEFINED
  }

  /**
   What the packer makes of `r` is right at `base`: no weak symbol that does not resolve, no absolute symbol
   unless what is wrongly added to it vanishes, no addend in a slot bound to a symbol of the image.
   */
  predicate IsRight(e: P.Elf, r: P.Rela, base: nat, resolve: F.Name -> Option<u64>) {
    r.rtype == P.R_RELATIVE || r.sym >= |e.symbols|
    || (var s := e.symbols[r.sym];
        if s.section == P.UNDEFINED then !(s.weak && resolve(s.name).None?)
        else if s.section == P.ABSOLUTE then Wrap64(base + if IsSlot(r) then r.addend else 0) == 0
        else IsSlot(r) ==> r.addend == 0)
  }

  /** The same at every base, whatever resolves. */
  predicate IsPlain(e: P.Elf, r: P.Rela) {
    r.rtype == P.R_RELATIVE || r.sym >= |e.symbols|
    || (var s := e.symbols[r.sym];
        if s.section == P.UNDEFINED then !s.weak
        else s.section != P.ABSOLUTE && (IsSlot(r) ==> r.addend == 0))
  }

  /** Only such a relocation comes out right wherever the object is loaded and whatever resolves. */
  lemma PlainIff(e: P.Elf, r: P.Rela)
    ensures (forall base: nat, resolve: F.Name -> Option<u64> :: IsRight(e, r, base, resolve)) <==> IsPlain(e, r)
  {
    var nothing: F.Name -> Option<u64> := _ => None;
    if forall base: nat, resolve: F.Name -> Option<u64> :: IsRight(e, r, base, resolve) {
      assert IsRight(e, r, 0, nothing) && IsRight(e, r, 1, nothing);
    }
  }

  /** The word the loader writes for what `r` became. */
  function PackedWord(imports: seq<F.Name>, q: F.Reloc, base: nat, resolve: F.Name -> Option<u64>): Option<u64> {
    if q.kind == F.RELATIVE then Some(Wrap64(base + q.addend))
    else if q.sym < |imports| then resolve(imports[q.sym])
    else None
  }

  lemma WrapWrap(a: int, b: int)
    ensures Wrap64(Wrap64(a) + b) == Wrap64(a + b)
  {
  }

  lemma WrapMoves(a: int, b: int)
    ensures Wrap64(a + b) == Wrap64(a) <==> Wrap64(b) == 0
  {
  }

  lemma WrapZero(b: i64)
    ensures Wrap64(b) == 0 <==> b == 0
  {
  }

  /** The packed word is the psABI's exactly where the packer is right. */
  lemma WordIsAbiIff(e: P.Elf, m: F.Module, r: P.Rela, q: F.Reloc, base: nat, resolve: F.Name -> Option<u64>)
    requires Became(e, m.imports, r, q) && R.GoodReloc(m, q)
    ensures PackedWord(m.imports, q, base, resolve) == P.AbiWord(e, r, base, resolve) <==> IsRight(e, r, base, resolve)
  {
    hide Wrap64, R.IsWritable, F.MaxEnd;
    if r.rtype != P.R_RELATIVE {
      var s := e.symbols[r.sym];
      if s.section != P.UNDEFINED {
        BoundWord(e, r, base, resolve);
        assert base + (s.value + r.addend) == base + s.value + r.addend;
      } else if resolve(s.name).Some? {
        WrapIsSame(resolve(s.name).value);
      }
    }
  }

  /** Against a defined symbol the packer always stores base, value and addend together. */
  lemma BoundWord(e: P.Elf, r: P.Rela, base: nat, resolve: F.Name -> Option<u64>)
    requires P.IsSymbolic(r.rtype) && r.sym < |e.symbols| && e.symbols[r.sym].section != P.UNDEFINED
    ensures P.AbiWord(e, r, base, resolve) == Some(Wrap64(base + e.symbols[r.sym].value + r.addend))
      <==> IsRight(e, r, base, resolve)
  {
    hide Wrap64;
    var s := e.symbols[r.sym];
    WrapWrap(s.value, r.addend);
    WrapWrap(base + s.value, r.addend);
    WrapMoves(s.value + r.addend, base);
    WrapMoves(s.value, base + r.addend);
    WrapMoves(base + s.value, r.addend);
    WrapZero(r.addend);
    assert s.value + r.addend + base == base + s.value + r.addend == s.value + (base + r.addend);
  }

  lemma WrapIsSame(a: u64)
    ensures Wrap64(a + 0) == a
  {
  }

  lemma WordRead(m: F.Module, digest: seq<byte>, i: nat, base: nat, resolve: F.Name -> Option<u64>)
    requires F.Representable(m) && R.FromPacker(m) && |digest| == 64 && Acceptable(m) && i < |m.relocs|
    ensures (var (x, q) := (I.WordOf(R.ImageOf(m, F.FileWith(m, digest)), i, base, resolve), m.relocs[i]);
      match PackedWord(m.imports, q, base, resolve)
      case Some(word) => x == I.Ok((q.offset, word))
      case None => x == I.Err(I.UnresolvedImport))
  {
    hide F.FileWith, F.Representable, R.FromPacker, R.ImageOf, I.RelocAt, I.ImportName, F.MaxEnd, NoOverlaps, GoodEntry;
    hide GoodSizes, GoodCounts, R.IsWritable, R.GoodName, GoodExport;
    R.RelocRead(m, digest, i);
    var q := m.relocs[i];
    assert R.GoodReloc(m, q);
    if q.kind == F.IMPORT64 {
      R.ImportRead(m, digest, q.sym);
    }
  }

  lemma SlotFits(m: F.Module, i: nat)
    requires Acceptable(m) && i < |m.relocs|
    ensures m.relocs[i].offset + 8 <= F.ArenaSize(m)
  {
    hide NoOverlaps, GoodEntry, GoodSizes, GoodCounts, R.GoodName, GoodExport, F.MaxEnd;
    assert R.GoodReloc(m, m.relocs[i]);
    var j :| 0 <= j < |m.sections| && R.Holds(m.sections[j], m.relocs[i].offset);
    assert F.EndOf(m.sections[j]) <= F.MaxEnd(m.sections);
  }

  // ------------------------------------------------------------------- whole

  /** The object, the module packed from it, and that all its relocations are plain. */
  predicate Faithful(e: P.Elf, m: F.Module) {
    Matches(m, P.Kept(e.sections)) && |m.relocs| == |e.relas|
    && forall i | 0 <= i < |e.relas| :: Became(e, m.imports, e.relas[i], m.relocs[i]) && IsPlain(e, e.relas[i])
  }

  lemma {:induction false} RelocatedIsMemory(
      e: P.Elf, m: F.Module, digest: seq<byte>, n: nat, base: nat, resolve: F.Name -> Option<u64>)
    requires F.Representable(m) && |digest| == 64 && Acceptable(m) && Faithful(e, m) && n <= |e.relas|
    ensures (var x := I.Relocated(R.ImageOf(m, F.FileWith(m, digest)), n, base, resolve);
      match P.Memory(e, n, F.ArenaSize(m), base, resolve)
      case Some(memory) => x == I.Ok(memory)
      case None => x == I.Err(I.UnresolvedImport))
  {
    hide F.FileWith, F.Representable, R.FromPacker, R.ImageOf, I.WordOf, I.Copied, F.ArenaSize, Acceptable, Matches;
    hide Became, IsPlain, P.AbiWord, PackedWord, Patch, Le, P.Kept, F.LayoutOf, F.PoolOf;
    MatchesIsPacked(m, P.Kept(e.sections));
    if n == 0 {
      CopyRead(e, m, digest);
    } else {
      var r, q := e.relas[n - 1], m.relocs[n - 1];
      RelocatedIsMemory(e, m, digest, n - 1, base, resolve);
      WordRead(m, digest, n - 1, base, resolve);
      SlotFits(m, n - 1);
      SameWord(e, m, n - 1, base, resolve);
    }
  }

  lemma CopyRead(e: P.Elf, m: F.Module, digest: seq<byte>)
    requires F.Representable(m) && |digest| == 64 && Acceptable(m) && Matches(m, P.Kept(e.sections))
    ensures (var img := R.ImageOf(m, F.FileWith(m, digest));
      I.Copied(img, img.sections.n) == I.Ok(P.Mapped(P.Kept(e.sections), F.ArenaSize(m))))
  {
    hide F.FileWith, F.Representable, I.Copied, F.ArenaSize, P.Kept, GoodEntry, R.GoodReloc, R.GoodName, NoOverlaps;
    hide F.LayoutOf, F.PoolOf;
    var ss := P.Kept(e.sections);
    CopiedIsMapped(m, ss, digest, |ss|);
    assert ss[..|ss|] == ss;
  }

  lemma SameWord(e: P.Elf, m: F.Module, i: nat, base: nat, resolve: F.Name -> Option<u64>)
    requires Acceptable(m) && Faithful(e, m) && i < |e.relas|
    ensures PackedWord(m.imports, m.relocs[i], base, resolve) == P.AbiWord(e, e.relas[i], base, resolve)
    ensures m.relocs[i].offset == e.relas[i].offset
  {
    hide PackedWord, P.AbiWord, NoOverlaps, GoodEntry, GoodSizes, GoodCounts, R.GoodName, GoodExport, F.MaxEnd, Matches;
    assert Became(e, m.imports, e.relas[i], m.relocs[i]) && IsPlain(e, e.relas[i]);
    assert R.GoodReloc(m, m.relocs[i]);
    WordIsAbiIff(e, m, e.relas[i], m.relocs[i], base, resolve);
  }

  lemma {:induction false} FlatMatches(m: F.Module, e: P.Elf)
    requires P.IsWhole(e) && m.sections == P.FlatAll(P.Kept(e.sections))
    ensures Matches(m, P.Kept(e.sections))
  {
    var ss := P.Kept(e.sections);
    forall i | 0 <= i < |ss|
      ensures m.sections[i] == P.Flat(ss[i]) && IsWhole(ss[i])
    {
      assert ss[i] in e.sections && P.IsKept(ss[i]);
    }
  }

  /** The module of a whole object with plain relocations is faithful to it. */
  lemma ModuleIsFaithful(e: P.Elf, o: P.Options)
    requires P.ModuleOf(e, o).Done? && P.IsWhole(e) && forall i | 0 <= i < |e.relas| :: IsPlain(e, e.relas[i])
    ensures Faithful(e, P.ModuleOf(e, o).value)
  {
    hide Became, IsPlain, P.Kept, P.FlatAll, P.Exports, P.EntryOf, P.LinkAll, Matches;
    LinkKeeps(e, |e.relas|);
    FlatMatches(P.ModuleOf(e, o).value, e);
  }

  /** Loading is right for an object with plain relocations. */
  lemma LoadsAsAbi(e: P.Elf, o: P.Options, sha: seq<byte> -> seq<byte>, room: nat, base: nat, resolve: F.Name -> Option<u64>)
    requires P.PackOf(e, o, sha).Done? && P.IsWhole(e) && forall i | 0 <= i < |e.relas| :: IsPlain(e, e.relas[i])
    ensures I.ParseOf(P.PackOf(e, o, sha).value).Ok? <==> Acceptable(P.ModuleOf(e, o).value)
    ensures LeavesMemory(I.ParseOf(P.PackOf(e, o, sha).value), P.ModuleOf(e, o).value, e, room, base, resolve)
  {
    hide F.FileWith, F.Representable, I.ParseOf, Acceptable, IsPlain, P.ModuleOf, F.ArenaSize, P.Memory, I.Relocated, Faithful;
    hide F.PoolOf, F.Signed, F.Images;
    var m := P.ModuleOf(e, o).value;
    var digest := F.DigestField(sha(F.Signed(F.FileWith(m, Zeros(64)), F.LayoutOf(m).signature)));
    ModuleIsFaithful(e, o);
    FaithfulIsPacked(e, m);
    AcceptedIff(m, digest);
    if Acceptable(m) {
      RelocatedIsMemory(e, m, digest, |e.relas|, base, resolve);
    }
  }

  /** What a parsed image leaves is the object in memory; it fails only for want of room or an unresolved name. */
  predicate LeavesMemory(
    parsed: I.Result<I.Image>, m: F.Module, e: P.Elf, room: nat, base: nat, resolve: F.Name -> Option<u64>)
  {
    parsed.Ok? ==> (var placed := I.Placed(parsed.value, room, base, resolve);
      if F.ArenaSize(m) > room then placed == I.Err(I.BadSection)
      else
        match P.Memory(e, |e.relas|, F.ArenaSize(m), base, resolve)
        case Some(memory) => placed == I.Ok(memory)
        case None => placed == I.Err(I.UnresolvedImport))
  }

  // ------------------------------------------ what the packer takes an object for

  /** The relocation the packer treats `r` as: in a bound slot it adds the addend, as R_X86_64_64 does. */
  function PackedRela(e: P.Elf, r: P.Rela): P.Rela {
    if IsBoundSlot(e, r) then r.(rtype := P.R_64) else r
  }

  /** The symbol it treats `s` as: an absolute one moves with the image, a weak one must resolve. */
  function PackedSymbol(s: P.Symbol): P.Symbol {
    s.(section := if s.section == P.ABSOLUTE then 1 else s.section, weak := false)
  }

  function PackedSymbols(syms: seq<P.Symbol>): (r: seq<P.Symbol>)
    ensures |r| == |syms| && forall i | 0 <= i < |syms| :: r[i] == PackedSymbol(syms[i])
  {
    seq(|syms|, i requires 0 <= i < |syms| => PackedSymbol(syms[i]))
  }

  /** The object the packer takes `e` for. */
  function AsPacked(e: P.Elf): P.Elf {
    e.(symbols := PackedSymbols(e.symbols),
       relas := seq(|e.relas|, i requires 0 <= i < |e.relas| => PackedRela(e, e.relas[i])))
  }

  lemma PackedLink(e: P.Elf, l: P.Link, r: P.Rela)
    ensures P.LinkOne(AsPacked(e), l, PackedRela(e, r)) == P.LinkOne(e, l, r)
  {
    hide P.IndexOf;
  }

  lemma {:induction false} AsPackedLinks(e: P.Elf, n: nat)
    requires n <= |e.relas|
    ensures P.LinkAll(AsPacked(e), n) == P.LinkAll(e, n)
  {
    hide P.LinkOne, PackedRela;
    if n > 0 {
      AsPackedLinks(e, n - 1);
      if P.LinkAll(e, n - 1).Done? {
        PackedLink(e, P.LinkAll(e, n - 1).value, e.relas[n - 1]);
      }
    }
  }

  lemma {:induction false} AsPackedExports(syms: seq<P.Symbol>, entry: F.Name)
    ensures P.Exports(PackedSymbols(syms)) == P.Exports(syms)
    ensures P.EntryOf(PackedSymbols(syms), entry) == P.EntryOf(syms, entry)
  {
    if syms != [] {
      AsPackedExports(syms[..|syms| - 1], entry);
      assert PackedSymbols(syms)[..|syms| - 1] == PackedSymbols(syms[..|syms| - 1]);
    }
  }

  lemma AsPackedPacks(e: P.Elf, o: P.Options, sha: seq<byte> -> seq<byte>)
    ensures P.ModuleOf(AsPacked(e), o) == P.ModuleOf(e, o) && P.PackOf(AsPacked(e), o, sha) == P.PackOf(e, o, sha)
    ensures P.IsWhole(AsPacked(e)) == P.IsWhole(e)
    ensures forall i | 0 <= i < |e.relas| :: IsPlain(AsPacked(e), AsPacked(e).relas[i])
  {
    hide P.LinkAll, P.Kept, P.Exports, P.EntryOf, F.Representable, F.File;
    AsPackedLinks(e, |e.relas|);
    AsPackedExports(e.symbols, o.entry);
  }

  /**
   Packing and loading preserve the object. Whatever file `pack` writes, the loader
   accepts it exactly when the module keeps the loader's rules; the arena it then
   leaves at any base is the object's kept sections mapped there with every
   relocation of the psABI applied, for the object the packer takes it for: a slot
   bound to a defined symbol is R_X86_64_64, an absolute symbol is one of the image,
   and a weak one must resolve. It fails only for a name that does not resolve, or
   for want of room.
   */
  lemma LoadsAsElf(e: P.Elf, o: P.Options, sha: seq<byte> -> seq<byte>, room: nat, base: nat, resolve: F.Name -> Option<u64>)
    requires P.PackOf(e, o, sha).Done? && P.IsWhole(e)
    ensures I.ParseOf(P.PackOf(e, o, sha).value).Ok? <==> Acceptable(P.ModuleOf(e, o).value)
    ensures LeavesMemory(I.ParseOf(P.PackOf(e, o, sha).value), P.ModuleOf(e, o).value, AsPacked(e), room, base, resolve)
  {
    hide I.ParseOf, Acceptable, IsPlain, P.ModuleOf, P.PackOf, P.IsWhole, AsPacked, LeavesMemory;
    AsPackedPacks(e, o, sha);
    assert |AsPacked(e).relas| == |e.relas| by {
      AsPackedLength(e);
    }
    LoadsAsAbi(AsPacked(e), o, sha, room, base, resolve);
  }

  lemma AsPackedLength(e: P.Elf)
    ensures |AsPacked(e).relas| == |e.relas|
  {
  }

  /** No two relocations write into each other's word. */
  predicate PlacesApart(e: P.Elf) {
    forall i, j | 0 <= i < j < |e.relas| ::
      e.relas[i].offset + 8 <= e.relas[j].offset || e.relas[j].offset + 8 <= e.relas[i].offset
  }

  /** Then each word written is still there at the end. */
  lemma {:induction false} WordStays(
      e: P.Elf, n: nat, i: nat, size: nat, base: nat, resolve: F.Name -> Option<u64>)
    requires PlacesApart(e) && i < n <= |e.relas| && P.Memory(e, n, size, base, resolve).Some?
    ensures P.AbiWord(e, e.relas[i], base, resolve).Some? && e.relas[i].offset + 8 <= size
    ensures P.Memory(e, n, size, base, resolve).value[e.relas[i].offset..e.relas[i].offset + 8]
         == Le(P.AbiWord(e, e.relas[i], base, resolve).value, 8)
  {
    hide P.AbiWord, Le;
    var (at, last) := (e.relas[i].offset, e.relas[n - 1].offset);
    var before := P.Memory(e, n - 1, size, base, resolve).value;
    var word := P.AbiWord(e, e.relas[n - 1], base, resolve).value;
    if i < n - 1 {
      WordStays(e, n - 1, i, size, base, resolve);
      PatchElsewhere(before, last, Le(word, 8), at);
    }
  }

  lemma PatchElsewhere(s: seq<byte>, at: nat, bytes: seq<byte>, other: nat)
    requires at + |bytes| <= |s| && other + 8 <= |s| && |bytes| == 8 && (at + 8 <= other || other + 8 <= at)
    ensures Patch(s, at, bytes)[other..other + 8] == s[other..other + 8]
  {
  }

  /** A word is the same for the object and for what the packer takes it for exactly where the packer is right. */
  lemma AsPackedIsSame(e: P.Elf, r: P.Rela, base: nat, resolve: F.Name -> Option<u64>)
    ensures IsRight(e, r, base, resolve)
      ==> P.AbiWord(AsPacked(e), PackedRela(e, r), base, resolve) == P.AbiWord(e, r, base, resolve)
    ensures P.AbiWord(e, r, base, resolve).Some?
         && P.AbiWord(AsPacked(e), PackedRela(e, r), base, resolve) == P.AbiWord(e, r, base, resolve)
      ==> IsRight(e, r, base, resolve)
  {
    hide Wrap64;
    if P.IsSymbolic(r.rtype) && r.sym < |e.symbols| && e.symbols[r.sym].section != P.UNDEFINED {
      var s := e.symbols[r.sym];
      BoundWord(e, r, base, resolve);
      WrapWrap(base + s.value, r.addend);
    }
  }

  lemma {:induction false} MemorySame(e: P.Elf, n: nat, size: nat, base: nat, resolve: F.Name -> Option<u64>)
    requires n <= |e.relas| && forall i | 0 <= i < |e.relas| :: IsRight(e, e.relas[i], base, resolve)
    ensures P.Memory(AsPacked(e), n, size, base, resolve) == P.Memory(e, n, size, base, resolve)
  {
    hide P.AbiWord, Patch, Le, P.Kept, IsRight;
    if n > 0 {
      MemorySame(e, n - 1, size, base, resolve);
      AsPackedIsSame(e, e.relas[n - 1], base, resolve);
    }
  }

  /** Where no two relocations overlap, the memory left is the psABI's exactly when the packer is right about each. */
  lemma MemoryIsAbiIff(e: P.Elf, size: nat, base: nat, resolve: F.Name -> Option<u64>)
    requires PlacesApart(e) && P.Memory(e, |e.relas|, size, base, resolve).Some?
    ensures P.Memory(AsPacked(e), |e.relas|, size, base, resolve) == P.Memory(e, |e.relas|, size, base, resolve)
      <==> forall i | 0 <= i < |e.relas| :: IsRight(e, e.relas[i], base, resolve)
  {
    hide P.AbiWord, P.Memory, Patch, Le, P.Kept, IsRight, PackedRela;
    if forall i | 0 <= i < |e.relas| :: IsRight(e, e.relas[i], base, resolve) {
      MemorySame(e, |e.relas|, size, base, resolve);
    }
    if P.Memory(AsPacked(e), |e.relas|, size, base, resolve) == P.Memory(e, |e.relas|, size, base, resolve) {
      SamePlaces(e);
      forall i | 0 <= i < |e.relas|
        ensures IsRight(e, e.relas[i], base, resolve)
      {
        WordStays(e, |e.relas|, i, size, base, resolve);
        WordStays(AsPacked(e), |e.relas|, i, size, base, resolve);
        SameLe(P.AbiWord(e, e.relas[i], base, resolve).value,
               P.AbiWord(AsPacked(e), AsPacked(e).relas[i], base, resolve).value);
        AsPackedIsSame(e, e.relas[i], base, resolve);
      }
    }
  }

  lemma SamePlaces(e: P.Elf)
    ensures |AsPacked(e).relas| == |e.relas|
    ensures forall i | 0 <= i < |e.relas| ::
      AsPacked(e).relas[i] == PackedRela(e, e.relas[i]) && AsPacked(e).relas[i].offset == e.relas[i].offset
  {
  }

  lemma SameLe(a: u64, b: u64)
    requires Le(a, 8) == Le(b, 8)
    ensures a == b
  {
    hide Le, FromLe;
    Pow256s();
    FromLeLe(a, 8);
    FromLeLe(b, 8);
  }

  // A code section and three writable words; the entry, an absolute symbol, and a weak one that is not defined.
  const MISTAKEN := P.Elf(
    [P.Section(false, true, false, true, false, 0, 8, [0x90, 0x90, 0x90, 0x90, 0x90, 0x90, 0x90, 0x90]),
     P.Section(true, true, true, false, false, 8, 24, [])],
    [P.Symbol(P.PLUGIN_PREFIX, 0, 1, false), P.Symbol([0x61], 4, P.ABSOLUTE, false), P.Symbol([0x62], 0, P.UNDEFINED, true)],
    [P.Rela(8, P.R_GLOB_DAT, 0, 1), P.Rela(16, P.R_64, 1, 0), P.Rela(24, P.R_GLOB_DAT, 2, 0)])

  const MISTAKEN_OPTIONS := P.Options(P.PLUGIN_PREFIX, 0, "x86_64", "app")

  // The words the psABI asks for at base 0x1000, and those the packer makes the loader write.
  const ABI_WORDS: seq<Option<u64>> := [Some(0x1000), Some(4), Some(0)]
  const PACKED_WORDS: seq<Option<u64>> := [Some(0x1001), Some(0x1004), None]

  /** The packer and the loader accept it, and are wrong about all three words. */
  lemma MistakenExample(sha: seq<byte> -> seq<byte>, resolve: F.Name -> Option<u64>)
    requires resolve([0x62]).None?
    ensures P.PackOf(MISTAKEN, MISTAKEN_OPTIONS, sha).Done? && Acceptable(P.ModuleOf(MISTAKEN, MISTAKEN_OPTIONS).value)
    ensures forall i | 0 <= i < 3 :: P.AbiWord(MISTAKEN, MISTAKEN.relas[i], 0x1000, resolve) == ABI_WORDS[i]
    ensures forall i | 0 <= i < 3 ::
      P.AbiWord(AsPacked(MISTAKEN), AsPacked(MISTAKEN).relas[i], 0x1000, resolve) == PACKED_WORDS[i]
  {
    hide F.Representable, Acceptable, P.ModuleOf;
    MistakenModule();
    MistakenFits();
    MistakenWords(resolve);
  }

  lemma MistakenWords(resolve: F.Name -> Option<u64>)
    requires resolve([0x62]).None?
    ensures forall i | 0 <= i < 3 :: P.AbiWord(MISTAKEN, MISTAKEN.relas[i], 0x1000, resolve) == ABI_WORDS[i]
    ensures forall i | 0 <= i < 3 ::
      P.AbiWord(AsPacked(MISTAKEN), AsPacked(MISTAKEN).relas[i], 0x1000, resolve) == PACKED_WORDS[i]
  {
  }

  function MistakenIs(): F.Module {
    F.Module(
      [F.Section(F.TEXT, 5, 0, MISTAKEN.sections[0].bytes, 8), F.Section(F.BSS, 3, 8, [], 24)],
      [[0x62]], [F.Export(P.PLUGIN_PREFIX, 0)],
      [F.Reloc(F.RELATIVE, 8, 0, 1), F.Reloc(F.RELATIVE, 16, 0, 4), F.Reloc(F.IMPORT64, 24, 0, 0)], 0, 0, 0, 0)
  }

  lemma MistakenModule()
    ensures P.ModuleOf(MISTAKEN, MISTAKEN_OPTIONS) == P.Done(MistakenIs())
  {
    MistakenSections();
    MistakenLinks();
    MistakenExports();
  }

  lemma MistakenSections()
    ensures P.FlatAll(P.Kept(MISTAKEN.sections)) == MistakenIs().sections
  {
    var (text, data) := (MISTAKEN.sections[0], MISTAKEN.sections[1]);
    assert MISTAKEN.sections[1..] == [data] && [data][1..] == [];
    assert P.Kept([data]) == [data];
    assert P.Kept(MISTAKEN.sections) == [text, data];
    assert [text, data][1..] == [data];
    assert P.FlatAll([data]) == [P.Flat(data)] + P.FlatAll([]);
  }

  lemma MistakenLinks()
    ensures P.LinkAll(MISTAKEN, 3) == P.Done(P.Link(MistakenIs().relocs, [[0x62]]))
  {
    var qs := MistakenIs().relocs;
    var (one, two) := (P.Link(qs[..1], []), P.Link(qs[..2], []));
    assert P.LinkAll(MISTAKEN, 0) == P.Done(P.Link([], []));
    assert [] + [qs[0]] == qs[..1] && qs[..1] + [qs[1]] == qs[..2] && qs[..2] + [qs[2]] == qs;
    assert P.LinkOne(MISTAKEN, P.Link([], []), MISTAKEN.relas[0]) == P.Done(one);
    assert P.LinkOne(MISTAKEN, one, MISTAKEN.relas[1]) == P.Done(two);
    var none: seq<F.Name> := [];
    assert P.AddImport(none, [0x62]) == [[0x62]];
    assert P.LinkOne(MISTAKEN, two, MISTAKEN.relas[2]) == P.Done(P.Link(qs, [[0x62]]));
    assert P.LinkAll(MISTAKEN, 1) == P.Done(one);
    assert P.LinkAll(MISTAKEN, 2) == P.Done(two);
  }

  lemma MistakenExports()
    ensures P.Exports(MISTAKEN.symbols) == [F.Export(P.PLUGIN_PREFIX, 0)]
    ensures P.EntryOf(MISTAKEN.symbols, P.PLUGIN_PREFIX) == Some(0)
  {
    var syms := MISTAKEN.symbols;
    assert syms[..2][..1] == syms[..1] && syms[..1][..0] == [] && P.Exports([]) == [];
    assert !P.IsExported(syms[1]) && !P.IsExported(syms[2]) && P.IsExported(syms[0]);
    assert P.Exports(syms[..1]) == [F.Export(P.PLUGIN_PREFIX, 0)];
    assert P.Exports(syms[..2]) == P.Exports(syms[..1]);
    assert P.EntryOf(syms[..2], P.PLUGIN_PREFIX) == P.EntryOf(syms[..1], P.PLUGIN_PREFIX);
  }

  lemma MistakenSizes()
    ensures F.ArenaSize(MistakenIs()) == 32
    ensures |F.Images(MistakenIs().sections)| == 8 && |F.PoolOf(MistakenIs()).blob| == 7
  {
    var m := MistakenIs();
    assert m.sections[1..] == [m.sections[1]] && [m.sections[1]][1..] == [];
    assert F.Images([m.sections[1]]) == F.Images([]) == [];
    assert m.sections[..1] == [m.sections[0]] && [m.sections[0]][..0] == [];
    assert F.MaxEnd([]) == 0 && F.MaxEnd([m.sections[0]]) == 8;
    assert F.MaxEnd(m.sections) == 32;
    MistakenNames();
  }

  lemma MistakenNames()
    ensures |F.PoolOf(MistakenIs()).blob| == 7
  {
    var m := MistakenIs();
    var p := F.Pool([], map[]);
    var q := F.Intern(p, [0x62]);
    assert m.imports[1..] == [] && F.InternAll(q, []) == q;
    assert F.InternAll(p, m.imports) == q;
    assert F.ExportNames(m.exports) == [P.PLUGIN_PREFIX] && [P.PLUGIN_PREFIX][1..] == [];
    assert |P.PLUGIN_PREFIX| == 6;
    assert P.PLUGIN_PREFIX !in q.at;
    assert F.InternAll(q, [P.PLUGIN_PREFIX]) == F.InternAll(F.Intern(q, P.PLUGIN_PREFIX), []);
  }

  lemma MistakenFits()
    ensures F.Representable(MistakenIs()) && Acceptable(MistakenIs())
  {
    hide F.ArenaSize, F.Images, F.PoolOf;
    var m := MistakenIs();
    MistakenSizes();
    assert R.Holds(m.sections[1], 8) && R.Holds(m.sections[1], 16) && R.Holds(m.sections[1], 24);
    assert HoldsCode(m.sections[0], 0);
  }

  lemma FaithfulIsPacked(e: P.Elf, m: F.Module)
    requires Faithful(e, m)
    ensures R.FromPacker(m) && |m.relocs| == |e.relas|
  {
    MatchesIsPacked(m, P.Kept(e.sections));
  }
}
