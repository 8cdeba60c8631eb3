/**
 The loader's view of a module file: `Image` of crates/nanochrono-core/src/ncplu.rs,
 whose accessors check each entry as they read it, and `copy_and_relocate` of
 crates/nanochrono-baremetal/src/ncplu.rs, which places the module in an arena.
 */
module NcpluImage {
  import opened Bytes
  import opened Wrappers
  import F = NcpluFormat

  const MAX_IMAGE := 0x8_0000
  const MAX_ARENA := 0x10_0000
  const MAX_SECTIONS := 64
  const MAX_IMPORTS := 256
  const MAX_EXPORTS := 256
  const MAX_RELOCS := 0x1_0000
  const MAX_NAME := 128
  const MAX_ALIGN := 4096

  datatype Error =
    | TooSmall | BadMagic | BadVersion | AbiMismatch | TooBig | Truncated | BadSignatureBlock | BadTable
    | BadSection | OverlappingSections | BadRelocation | BadSymbol | BadArch | NoEntry | UnresolvedImport

  datatype Result<+T> = Ok(value: T) | Err(error: Error)

  datatype Section = Section(kind: nat, memOff: nat, memSize: nat, fileOff: nat, fileSize: nat)

  datatype Reloc = Relative(offset: nat, target: nat) | Import(offset: nat, sym: nat)

  datatype Table = Table(off: nat, n: nat)

  datatype Image = Image(
    bytes: seq<byte>,
    arenaSize: nat,
    signedLen: nat,
    sections: Table,
    imports: Table,
    exports: Table,
    relocs: Table,
    stringsStart: nat,
    stringsEnd: nat)

  // --------------------------------------------------------------- accessors

  predicate IsPowerOfTwo(n: nat)
    decreases n
  {
    n == 1 || (n > 0 && n % 2 == 0 && IsPowerOfTwo(n / 2))
  }

  function SectionAt(img: Image, i: nat): Result<Section> {
    var at := img.sections.off + i * F.SECTION_SIZE;
    if i >= img.sections.n then Err(BadSection)
    else if at >= |img.bytes| || !(F.TEXT <= img.bytes[at] <= F.BSS) then Err(BadSection)
    else if at + 20 > |img.bytes| then Err(Truncated)
    else
      var align := if Field(img.bytes, at + 2, 2) > 1 then Field(img.bytes, at + 2, 2) else 1;
      var s := Section(img.bytes[at], Field(img.bytes, at + 4, 4), Field(img.bytes, at + 16, 4),
                       Field(img.bytes, at + 8, 4), Field(img.bytes, at + 12, 4));
      if !IsPowerOfTwo(align) || align > MAX_ALIGN || s.memOff % align != 0 || !SectionIsGood(img, s) then Err(BadSection)
      else Ok(s)
  }

  /** In the arena, with its file bytes in the signed region. */
  predicate SectionIsGood(img: Image, s: Section) {
    s.memSize > 0 && s.memOff + s.memSize <= img.arenaSize && s.fileSize <= s.memSize
    && if s.kind == F.BSS then s.fileSize == 0
       else s.fileSize == 0 || (F.HEADER_SIZE <= s.fileOff && s.fileOff + s.fileSize <= img.signedLen)
  }

  function SectionBytes(img: Image, s: Section): Result<seq<byte>> {
    if s.fileSize == 0 then Ok([])
    else if s.fileOff + s.fileSize > img.signedLen || s.fileOff + s.fileSize > |img.bytes| then Err(BadSection)
    else Ok(img.bytes[s.fileOff..s.fileOff + s.fileSize])
  }

  function NameAt(img: Image, at: nat): Result<F.Name> {
    if at + 16 > |img.bytes| then Err(Truncated)
    else
      var (off, len) := (Field(img.bytes, at, 4), Field(img.bytes, at + 4, 4));
      if len == 0 || len > MAX_NAME then Err(BadSymbol)
      else if img.stringsStart > img.stringsEnd || img.stringsEnd > |img.bytes| then Err(BadSymbol)
      else if off + len > img.stringsEnd - img.stringsStart then Err(BadSymbol)
      else
        var name := img.bytes[img.stringsStart + off..img.stringsStart + off + len];
        if F.Fnv1a(name) != Field(img.bytes, at + 8, 8) then Err(BadSymbol) else Ok(name)
  }

  function ImportName(img: Image, i: nat): Result<F.Name> {
    if i >= img.imports.n then Err(BadSymbol) else NameAt(img, img.imports.off + i * F.IMPORT_SIZE)
  }

  function ExportAt(img: Image, i: nat): Result<(F.Name, nat)> {
    var at := img.exports.off + i * F.EXPORT_SIZE;
    if i >= img.exports.n then Err(BadSymbol)
    else
      match NameAt(img, at)
      case Err(e) => Err(e)
      case Ok(name) =>
        if at + 20 > |img.bytes| then Err(Truncated)
        else if Field(img.bytes, at + 16, 4) >= img.arenaSize then Err(BadSymbol)
        else Ok((name, Field(img.bytes, at + 16, 4)))
  }

  predicate Contains(s: Section, offset: nat) {
    s.memOff <= offset && offset + 8 <= s.memOff + s.memSize
  }

  /** The word at `offset` lies inside one of the first `n` sections, and inside none that is code. */
  function Writable(img: Image, offset: nat, n: nat): Result<bool> {
    if n == 0 then Ok(false)
    else
      match Writable(img, offset, n - 1)
      case Err(e) => Err(e)
      case Ok(inside) =>
        match SectionAt(img, n - 1)
        case Err(e) => Err(e)
        case Ok(s) =>
          if !Contains(s, offset) then Ok(inside)
          else if s.kind == F.TEXT then Err(BadRelocation)
          else Ok(true)
  }

  function RelocAt(img: Image, i: nat): Result<Reloc> {
    var at := img.relocs.off + i * F.RELOC_SIZE;
    if i >= img.relocs.n then Err(BadRelocation)
    else if at + 32 > |img.bytes| then Err(Truncated)
    else
      var offset := Field(img.bytes, at + 8, 8);
      match Writable(img, offset, img.sections.n)
      case Err(e) => Err(e)
      case Ok(inside) =>
        if !inside then Err(BadRelocation)
        else Checked(img, Field(img.bytes, at, 4), offset, Field(img.bytes, at + 16, 4), Field(img.bytes, at + 24, 8))
  }

  function Checked(img: Image, kind: nat, offset: nat, sym: nat, addend: nat): Result<Reloc> {
    if kind == F.RELATIVE then if addend > img.arenaSize then Err(BadRelocation) else Ok(Relative(offset, addend))
    else if kind == F.IMPORT64 then
      if sym >= img.imports.n || addend != 0 then Err(BadRelocation) else Ok(Import(offset, sym))
    else Err(BadRelocation)
  }

  // ------------------------------------------------------------------- parse

  function TableAt(bytes: seq<byte>, at: nat, entry: nat, max: nat, signedLen: nat): Result<Table>
    requires at + 8 <= |bytes|
  {
    var (off, n) := (Field(bytes, at, 4), Field(bytes, at + 4, 4));
    if n > max || (n > 0 && (off < F.HEADER_SIZE || off + n * entry > signedLen)) then Err(BadTable)
    else Ok(Table(off, n))
  }

  predicate Overlap(a: Section, b: Section) {
    a.memOff < b.memOff + b.memSize && b.memOff < a.memOff + a.memSize
  }

  /** What is wrong with the first `n` sections, each on its own and against those before it. */
  function SectionsFault(img: Image, n: nat): Option<Error> {
    if n == 0 then None
    else if SectionsFault(img, n - 1).Some? then SectionsFault(img, n - 1)
    else
      match SectionAt(img, n - 1)
      case Err(e) => Some(e)
      case Ok(a) =>
        if exists j: nat | j < n - 1 :: SectionAt(img, j).Ok? && Overlap(a, SectionAt(img, j).value)
        then Some(OverlappingSections) else None
  }

  function ImportsFault(img: Image, n: nat): Option<Error> {
    if n == 0 then None
    else if ImportsFault(img, n - 1).Some? then ImportsFault(img, n - 1)
    else if ImportName(img, n - 1).Err? then Some(ImportName(img, n - 1).error) else None
  }

  function ExportsFault(img: Image, n: nat): Option<Error> {
    if n == 0 then None
    else if ExportsFault(img, n - 1).Some? then ExportsFault(img, n - 1)
    else if ExportAt(img, n - 1).Err? then Some(ExportAt(img, n - 1).error) else None
  }

  function RelocsFault(img: Image, n: nat): Option<Error> {
    if n == 0 then None
    else if RelocsFault(img, n - 1).Some? then RelocsFault(img, n - 1)
    else if RelocAt(img, n - 1).Err? then Some(RelocAt(img, n - 1).error) else None
  }

  /** Some section of code has `entry` among its file bytes. */
  predicate InCode(img: Image, entry: nat) {
    exists i: nat | i < img.sections.n ::
      var s := SectionAt(img, i);
      s.Ok? && s.value.kind == F.TEXT && s.value.memOff <= entry < s.value.memOff + s.value.fileSize
  }

  function EntryFault(img: Image): Option<Error>
    requires |img.bytes| >= F.HEADER_SIZE
  {
    var i := Field(img.bytes, 28, 4);
    if i >= img.exports.n then Some(NoEntry)
    else
      match ExportAt(img, i)
      case Err(e) => Some(e)
      case Ok(x) => if InCode(img, x.1) then None else Some(NoEntry)
  }

  /** What is wrong with the header on its own. */
  function HeaderFault(file: seq<byte>): Option<Error> {
    if |file| < F.HEADER_SIZE then Some(TooSmall)
    else if file[0..8] != F.MAGIC then Some(BadMagic)
    else if Field(file, 8, 2) != F.FORMAT_VERSION || Field(file, 10, 2) != F.HEADER_SIZE then Some(BadVersion)
    else if Field(file, 24, 4) != F.ABI_VERSION then Some(AbiMismatch)
    else if Field(file, 152, 2) > 8 || Field(file, 154, 2) > 3 then Some(BadArch)
    else if file[156..160] != Zeros(4) then Some(BadVersion)
    else
      var total := Field(file, 16, 8);
      if total < F.HEADER_SIZE then Some(TooSmall)
      else if total > MAX_IMAGE then Some(TooBig)
      else if total > |file| then Some(Truncated)
      else if Field(file, 80, 4) == 0 || Field(file, 80, 4) > MAX_ARENA then Some(TooBig)
      else
        var (sig, len) := (Field(file, 72, 4), Field(file, 76, 4));
        if sig < F.HEADER_SIZE || sig + len != total || (len != 0 && len != F.SIGNATURE_LEN) then Some(BadSignatureBlock)
        else None
  }

  function TablesOf(bytes: seq<byte>): Result<Image>
    requires |bytes| >= F.HEADER_SIZE
  {
    var signedLen := Field(bytes, 72, 4);
    var (sections, imports) :=
      (TableAt(bytes, 32, F.SECTION_SIZE, MAX_SECTIONS, signedLen), TableAt(bytes, 40, F.IMPORT_SIZE, MAX_IMPORTS, signedLen));
    var (exports, relocs) :=
      (TableAt(bytes, 48, F.EXPORT_SIZE, MAX_EXPORTS, signedLen), TableAt(bytes, 56, F.RELOC_SIZE, MAX_RELOCS, signedLen));
    var (start, len) := (Field(bytes, 64, 4), Field(bytes, 68, 4));
    if sections.Err? || imports.Err? || exports.Err? || relocs.Err? then Err(BadTable)
    else if len > 0 && (start < F.HEADER_SIZE || start + len > signedLen) then Err(BadTable)
    else Ok(Image(bytes, Field(bytes, 80, 4), signedLen, sections.value, imports.value, exports.value, relocs.value,
                  start, start + len))
  }

  /** The first thing wrong with the entries, in the order they are checked. */
  function EntriesFault(img: Image): Option<Error>
    requires |img.bytes| >= F.HEADER_SIZE
  {
    if SectionsFault(img, img.sections.n).Some? then SectionsFault(img, img.sections.n)
    else if ImportsFault(img, img.imports.n).Some? then ImportsFault(img, img.imports.n)
    else if ExportsFault(img, img.exports.n).Some? then ExportsFault(img, img.exports.n)
    else if RelocsFault(img, img.relocs.n).Some? then RelocsFault(img, img.relocs.n)
    else EntryFault(img)
  }

  /** `Image::parse`: validates everything. */
  function ParseOf(file: seq<byte>): Result<Image> {
    match HeaderFault(file)
    case Some(e) => Err(e)
    case None =>
      match TablesOf(file[..Field(file, 16, 8)])
      case Err(e) => Err(e)
      case Ok(img) =>
        match EntriesFault(img)
        case Some(e) => Err(e)
        case None => Ok(img)
  }

  // ------------------------------------------------------------------- place

  /** The zeroed arena with the first `n` sections copied in. */
  function Copied(img: Image, n: nat): (r: Result<seq<byte>>)
    ensures r.Ok? ==> |r.value| == img.arenaSize
  {
    if n == 0 then Ok(Zeros(img.arenaSize))
    else
      match (Copied(img, n - 1), SectionAt(img, n - 1))
      case (Err(e), _) => Err(e)
      case (_, Err(e)) => Err(e)
      case (Ok(arena), Ok(s)) =>
        match SectionBytes(img, s)
        case Err(e) => Err(e)
        case Ok(bytes) =>
          if s.memOff + |bytes| > |arena| then Err(BadSection) else Ok(Patch(arena, s.memOff, bytes))
  }

  /** The word a relocation writes, and where. */
  function WordOf(img: Image, i: nat, base: nat, resolve: F.Name -> Option<u64>): Result<(nat, u64)> {
    match RelocAt(img, i)
    case Err(e) => Err(e)
    case Ok(Relative(offset, target)) => Ok((offset, Wrap64(base + target)))
    case Ok(Import(offset, sym)) =>
      match ImportName(img, sym)
      case Err(e) => Err(e)
      case Ok(name) => if resolve(name).None? then Err(UnresolvedImport) else Ok((offset, resolve(name).value))
  }

  /** The arena after the first `n` relocations. */
  function Relocated(img: Image, n: nat, base: nat, resolve: F.Name -> Option<u64>): (r: Result<seq<byte>>)
    ensures r.Ok? ==> |r.value| == img.arenaSize
  {
    if n == 0 then Copied(img, img.sections.n)
    else
      match Relocated(img, n - 1, base, resolve)
      case Err(e) => Err(e)
      case Ok(arena) =>
        match WordOf(img, n - 1, base, resolve)
        case Err(e) => Err(e)
        case Ok((offset, word)) =>
          if offset + 8 > |arena| then Err(BadRelocation) else Ok(Patch(arena, offset, Le(word, 8)))
  }

  lemma {:induction false} CopiedFault(img: Image, i: nat, n: nat)
    requires i <= n && Copied(img, i).Err?
    ensures Copied(img, n) == Copied(img, i)
  {
    hide SectionAt, SectionBytes, Patch;
    if i < n {
      CopiedFault(img, i, n - 1);
    }
  }

  lemma {:induction false} RelocatedFault(img: Image, i: nat, n: nat, base: nat, resolve: F.Name -> Option<u64>)
    requires i <= n && Relocated(img, i, base, resolve).Err?
    ensures Relocated(img, n, base, resolve) == Relocated(img, i, base, resolve)
  {
    hide WordOf, Patch, Copied;
    if i < n {
      RelocatedFault(img, i, n - 1, base, resolve);
    }
  }

  lemma PatchFront(s: seq<byte>, limit: nat, at: nat, bytes: seq<byte>)
    requires at + |bytes| <= limit <= |s|
    ensures Patch(s, at, bytes)[..limit] == Patch(s[..limit], at, bytes) && Patch(s, at, bytes)[limit..] == s[limit..]
  {
  }

  method Write(arena: array<byte>, limit: nat, at: nat, bytes: seq<byte>)
    requires at + |bytes| <= limit <= arena.Length
    modifies arena
    ensures arena[..limit] == Patch(old(arena[..limit]), at, bytes) && arena[limit..] == old(arena[limit..])
  {
    PatchFront(arena[..], limit, at, bytes);
    forall i | 0 <= i < |bytes| {
      arena[at + i] := bytes[i];
    }
    assert arena[..] == Patch(old(arena[..]), at, bytes);
  }

  method CopySections(img: Image, arena: array<byte>) returns (fault: Option<Error>)
    requires img.arenaSize <= arena.Length
    modifies arena
    ensures fault.None? ==> Copied(img, img.sections.n) == Ok(arena[..img.arenaSize])
    ensures fault.Some? ==> Copied(img, img.sections.n) == Err(fault.value)
    ensures arena[img.arenaSize..] == old(arena[img.arenaSize..])
  {
    hide SectionAt, SectionBytes, Patch;
    var limit := img.arenaSize;
    forall i | 0 <= i < limit {
      arena[i] := 0;
    }
    assert arena[..limit] == Zeros(limit) && arena[limit..] == old(arena[limit..]);
    for i := 0 to img.sections.n
      invariant Copied(img, i) == Ok(arena[..limit])
      invariant arena[limit..] == old(arena[limit..])
    {
      var section := SectionAt(img, i);
      if section.Err? {
        CopiedFault(img, i + 1, img.sections.n);
        return Some(section.error);
      }
      var bytes := SectionBytes(img, section.value);
      if bytes.Err? {
        CopiedFault(img, i + 1, img.sections.n);
        return Some(bytes.error);
      }
      if section.value.memOff + |bytes.value| > limit {
        CopiedFault(img, i + 1, img.sections.n);
        return Some(BadSection);
      }
      Write(arena, limit, section.value.memOff, bytes.value);
    }
    return None;
  }

  /** What the first `img.arenaSize` bytes of an arena become for an image running at `base`. */
  function Placed(img: Image, room: nat, base: nat, resolve: F.Name -> Option<u64>): Result<seq<byte>> {
    if img.arenaSize > room then Err(BadSection) else Relocated(img, img.relocs.n, base, resolve)
  }

  /** Copies the sections into the zeroed arena and applies the relocations for an image running at `base`. */
  method CopyAndRelocate(img: Image, arena: array<byte>, base: nat, resolve: F.Name -> Option<u64>)
      returns (fault: Option<Error>)
    modifies arena
    ensures fault.None? ==> img.arenaSize <= arena.Length
    ensures fault.None? ==> Placed(img, arena.Length, base, resolve) == Ok(arena[..img.arenaSize])
    ensures fault.Some? ==> Placed(img, arena.Length, base, resolve) == Err(fault.value)
    ensures img.arenaSize <= arena.Length ==> arena[img.arenaSize..] == old(arena[img.arenaSize..])
  {
    hide WordOf, Patch, Copied;
    var limit := img.arenaSize;
    if limit > arena.Length {
      return Some(BadSection);
    }
    fault := CopySections(img, arena);
    if fault.Some? {
      RelocatedFault(img, 0, img.relocs.n, base, resolve);
      return;
    }
    for i := 0 to img.relocs.n
      invariant Relocated(img, i, base, resolve) == Ok(arena[..limit])
      invariant arena[limit..] == old(arena[limit..])
    {
      var word := WordOf(img, i, base, resolve);
      if word.Err? {
        RelocatedFault(img, i + 1, img.relocs.n, base, resolve);
        return Some(word.error);
      }
      if word.value.0 + 8 > limit {
        RelocatedFault(img, i + 1, img.relocs.n, base, resolve);
        return Some(BadRelocation);
      }
      Write(arena, limit, word.value.0, Le(word.value.1, 8));
    }
    return None;
  }
}
