/**
 `pack` of tools/ncplu.py: a shared object's sections, symbols and relocations
 become a flat module. What the object means in memory is stated beside it.
 */
module NcpluPack {
  import opened Bytes
  import opened Wrappers
  import F = NcpluFormat

  // ------------------------------------------------------------- the object

  /** A section header with the section's bytes; one without bits has none. */
  datatype Section = Section(
    noBits: bool, alloc: bool, write: bool, exec: bool, tls: bool, addr: nat, size: nat, bytes: seq<byte>)

  /** A dynamic symbol; `weak` is its binding, which the packer does not look at. */
  datatype Symbol = Symbol(name: F.Name, value: nat, section: nat, weak: bool)

  datatype Rela = Rela(offset: nat, rtype: nat, sym: nat, addend: i64)

  datatype Elf = Elf(sections: seq<Section>, symbols: seq<Symbol>, relas: seq<Rela>)

  /** Section numbers that are none: undefined, and absolute. */
  const UNDEFINED := 0
  const ABSOLUTE := 0xFFF1

  const R_64 := 1
  const R_GLOB_DAT := 6
  const R_JUMP_SLOT := 7
  const R_RELATIVE := 8

  /** "__stack_chk_fail", the one function the compiler itself calls. */
  const STACK_CHK_FAIL: F.Name := [0x5F, 0x5F, 0x73, 0x74, 0x61, 0x63, 0x6B, 0x5F, 0x63, 0x68, 0x6B, 0x5F, 0x66, 0x61, 0x69, 0x6C]
  /** "ncplu_" and "ncdri_". */
  const PLUGIN_PREFIX: F.Name := [0x6E, 0x63, 0x70, 0x6C, 0x75, 0x5F]
  const DRIVER_PREFIX: F.Name := [0x6E, 0x63, 0x64, 0x72, 0x69, 0x5F]

  datatype Error =
    | NoSections | NoSuchSymbol | FunctionImport | UnhandledRelocation | NoEntry | FieldTooBig | UnknownArch | UnknownKind

  datatype Result<+T> = Done(value: T) | Refused(error: Error)

  datatype Options = Options(entry: F.Name, caps: nat, arch: string, kind: string)

  function ArchCode(name: string): Option<nat> {
    if name == "x86_64" || name == "x64" then Some(0)
    else if name == "i386" || name == "x86" then Some(1)
    else if name == "aarch64" || name == "arm64" then Some(2)
    else if name == "arm32" || name == "arm" then Some(3)
    else if name == "riscv64" then Some(4)
    else if name == "riscv32" then Some(5)
    else if name == "ppc64" then Some(6)
    else if name == "ppc64le" then Some(7)
    else if name == "ppc" then Some(8)
    else None
  }

  function KindCode(name: string): Option<nat> {
    if name == "app" then Some(0)
    else if name == "driver" then Some(1)
    else if name == "library" then Some(2)
    else if name == "plugin" then Some(3)
    else None
  }

  // ---------------------------------------------------------------- sections

  predicate IsKept(s: Section) {
    s.alloc && !s.tls && s.size > 0
  }

  function Kept(ss: seq<Section>): (r: seq<Section>)
    ensures forall i | 0 <= i < |r| :: r[i] in ss && IsKept(r[i])
  {
    if ss == [] then [] else (if IsKept(ss[0]) then [ss[0]] else []) + Kept(ss[1..])
  }

  /** The module section for a kept one: its kind, its memory flags (1 read, 2 write, 4 execute), its bytes. */
  function Flat(s: Section): F.Section {
    if s.noBits then F.Section(F.BSS, 3, s.addr, [], s.size)
    else if s.exec then F.Section(F.TEXT, 5, s.addr, s.bytes, s.size)
    else if s.write then F.Section(F.DATA, 3, s.addr, s.bytes, s.size)
    else F.Section(F.RODATA, 1, s.addr, s.bytes, s.size)
  }

  function FlatAll(ss: seq<Section>): (r: seq<F.Section>)
    ensures |r| == |ss| && forall i | 0 <= i < |ss| :: r[i] == Flat(ss[i])
  {
    if ss == [] then [] else [Flat(ss[0])] + FlatAll(ss[1..])
  }

  // ------------------------------------------------------------- relocations

  /** The imports so far and the module's relocations for the entries so far. */
  datatype Link = Link(relocs: seq<F.Reloc>, imports: seq<F.Name>)

  function IndexOf(names: seq<F.Name>, name: F.Name): (i: nat)
    ensures i <= |names| && (i < |names| ==> names[i] == name)
    ensures i == |names| <==> name !in names
  {
    if names == [] then 0 else if names[0] == name then 0 else 1 + IndexOf(names[1..], name)
  }

  function AddImport(names: seq<F.Name>, name: F.Name): seq<F.Name> {
    if name in names then names else names + [name]
  }

  predicate IsSymbolic(rtype: nat) {
    rtype == R_GLOB_DAT || rtype == R_64 || rtype == R_JUMP_SLOT
  }

  function LinkOne(e: Elf, l: Link, r: Rela): Result<Link> {
    if r.rtype == R_RELATIVE then Done(l.(relocs := l.relocs + [F.Reloc(F.RELATIVE, r.offset, 0, r.addend)]))
    else if !IsSymbolic(r.rtype) then Refused(UnhandledRelocation)
    else if r.sym >= |e.symbols| then Refused(NoSuchSymbol)
    else
      var sym := e.symbols[r.sym];
      if sym.section != 0 then Done(l.(relocs := l.relocs + [F.Reloc(F.RELATIVE, r.offset, 0, sym.value + r.addend)]))
      else if r.rtype == R_JUMP_SLOT && sym.name != STACK_CHK_FAIL then Refused(FunctionImport)
      else Done(Link(l.relocs + [F.Reloc(F.IMPORT64, r.offset, IndexOf(l.imports, sym.name), r.addend)],
                     AddImport(l.imports, sym.name)))
  }

  function LinkAll(e: Elf, n: nat): Result<Link>
    requires n <= |e.relas|
  {
    if n == 0 then Done(Link([], []))
    else
      match LinkAll(e, n - 1)
      case Refused(error) => Refused(error)
      case Done(l) => LinkOne(e, l, e.relas[n - 1])
  }

  method LinkRelas(e: Elf) returns (r: Result<Link>)
    ensures r == LinkAll(e, |e.relas|)
  {
    var relocs: seq<F.Reloc>, imports: seq<F.Name> := [], [];
    for i := 0 to |e.relas|
      invariant LinkAll(e, i) == Done(Link(relocs, imports))
    {
      hide IndexOf;
      var rela := e.relas[i];
      if rela.rtype == R_RELATIVE {
        relocs := relocs + [F.Reloc(F.RELATIVE, rela.offset, 0, rela.addend)];
      } else if IsSymbolic(rela.rtype) {
        if rela.sym >= |e.symbols| {
          LinkRefused(e, i + 1, |e.relas|);
          return Refused(NoSuchSymbol);
        }
        var sym := e.symbols[rela.sym];
        if sym.section == 0 {
          if rela.rtype == R_JUMP_SLOT && sym.name != STACK_CHK_FAIL {
            LinkRefused(e, i + 1, |e.relas|);
            return Refused(FunctionImport);
          }
          relocs := relocs + [F.Reloc(F.IMPORT64, rela.offset, IndexOf(imports, sym.name), rela.addend)];
          imports := AddImport(imports, sym.name);
        } else {
          relocs := relocs + [F.Reloc(F.RELATIVE, rela.offset, 0, sym.value + rela.addend)];
        }
      } else {
        LinkRefused(e, i + 1, |e.relas|);
        return Refused(UnhandledRelocation);
      }
    }
    return Done(Link(relocs, imports));
  }

  lemma {:induction false} LinkRefused(e: Elf, i: nat, n: nat)
    requires i <= n <= |e.relas| && LinkAll(e, i).Refused?
    ensures LinkAll(e, n) == LinkAll(e, i)
  {
    hide LinkOne;
    if i < n {
      LinkRefused(e, i, n - 1);
    }
  }

  // ----------------------------------------------------------------- exports

  predicate IsExported(s: Symbol) {
    s.section != 0 && (PLUGIN_PREFIX <= s.name || DRIVER_PREFIX <= s.name)
  }

  function Exports(syms: seq<Symbol>): seq<F.Export> {
    if syms == [] then []
    else
      var (rest, s) := (Exports(syms[..|syms| - 1]), syms[|syms| - 1]);
      if IsExported(s) then rest + [F.Export(s.name, s.value)] else rest
  }

  /** The last export of that name. */
  function EntryOf(syms: seq<Symbol>, entry: F.Name): Option<nat> {
    if syms == [] then None
    else
      var (rest, s) := (syms[..|syms| - 1], syms[|syms| - 1]);
      if IsExported(s) && s.name == entry then Some(|Exports(rest)|) else EntryOf(rest, entry)
  }

  method FindExports(e: Elf, entry: F.Name) returns (exports: seq<F.Export>, index: Option<nat>)
    ensures exports == Exports(e.symbols) && index == EntryOf(e.symbols, entry)
  {
    exports, index := [], None;
    for i := 0 to |e.symbols|
      invariant exports == Exports(e.symbols[..i]) && index == EntryOf(e.symbols[..i], entry)
    {
      hide IsExported;
      assert e.symbols[..i + 1][..i] == e.symbols[..i];
      if IsExported(e.symbols[i]) {
        if e.symbols[i].name == entry {
          index := Some(|exports|);
        }
        exports := exports + [F.Export(e.symbols[i].name, e.symbols[i].value)];
      }
    }
    assert e.symbols[..|e.symbols|] == e.symbols;
  }

  // -------------------------------------------------------------------- pack

  function OrZero(code: Option<nat>): nat {
    if code.Some? then code.value else 0
  }

  /** The module for an object, before it is written out. */
  function ModuleOf(e: Elf, o: Options): Result<F.Module> {
    if Kept(e.sections) == [] then Refused(NoSections)
    else
      match LinkAll(e, |e.relas|)
      case Refused(error) => Refused(error)
      case Done(l) =>
        match EntryOf(e.symbols, o.entry)
        case None => Refused(NoEntry)
        case Some(entry) =>
          Done(F.Module(FlatAll(Kept(e.sections)), l.imports, Exports(e.symbols), l.relocs, entry, o.caps,
                        OrZero(ArchCode(o.arch)), OrZero(KindCode(o.kind))))
  }

  function PackOf(e: Elf, o: Options, sha: seq<byte> -> seq<byte>): Result<seq<byte>> {
    match ModuleOf(e, o)
    case Refused(error) => Refused(error)
    case Done(m) =>
      if !F.Representable(m) then Refused(FieldTooBig)
      else if ArchCode(o.arch).None? then Refused(UnknownArch)
      else if KindCode(o.kind).None? then Refused(UnknownKind)
      else Done(F.File(m, sha))
  }

  // ------------------------------------------------ what the object means

  /** Every section with bits has as many bytes as it says. */
  predicate IsWhole(e: Elf) {
    forall i | 0 <= i < |e.sections| :: !e.sections[i].noBits ==> |e.sections[i].bytes| == e.sections[i].size
  }

  /** The byte that the kept sections put at `a`; nothing there is zero. */
  function ByteAt(ss: seq<Section>, a: nat): byte {
    if ss == [] then 0
    else if ss[0].addr <= a < ss[0].addr + ss[0].size then
      if ss[0].noBits || a - ss[0].addr >= |ss[0].bytes| then 0 else ss[0].bytes[a - ss[0].addr]
    else ByteAt(ss[1..], a)
  }

  function Mapped(ss: seq<Section>, size: nat): (r: seq<byte>)
    ensures |r| == size && forall a | 0 <= a < size :: r[a] == ByteAt(ss, a)
  {
    seq(size, a requires a >= 0 => ByteAt(ss, a))
  }

  /**
   A symbol's address: `S` of the System V AMD64 psABI, section 4.4.1. An absolute symbol does not move with
   the object, and an undefined weak symbol that nothing defines is zero (System V gABI, "Symbol Table").
   */
  function AddressOf(s: Symbol, base: nat, resolve: F.Name -> Option<u64>): Option<u64> {
    if s.section == UNDEFINED then if resolve(s.name).None? && s.weak then Some(0) else resolve(s.name)
    else if s.section == ABSOLUTE then Some(Wrap64(s.value))
    else Some(Wrap64(base + s.value))
  }

  /** The word a relocation stores: `B + A`, `S + A` or `S` of the same section. */
  function AbiWord(e: Elf, r: Rela, base: nat, resolve: F.Name -> Option<u64>): Option<u64> {
    if r.rtype == R_RELATIVE then Some(Wrap64(base + r.addend))
    else if r.sym >= |e.symbols| then None
    else
      match AddressOf(e.symbols[r.sym], base, resolve)
      case None => None
      case Some(s) =>
        if r.rtype == R_64 then Some(Wrap64(s + r.addend))
        else if r.rtype == R_GLOB_DAT || r.rtype == R_JUMP_SLOT then Some(s)
        else None
  }

  /** The object in `size` bytes of memory at `base`, after its first `n` relocations. */
  function Memory(e: Elf, n: nat, size: nat, base: nat, resolve: F.Name -> Option<u64>): (r: Option<seq<byte>>)
    requires n <= |e.relas|
    ensures r.Some? ==> |r.value| == size
  {
    if n == 0 then Some(Mapped(Kept(e.sections), size))
    else
      match (Memory(e, n - 1, size, base, resolve), AbiWord(e, e.relas[n - 1], base, resolve))
      case (Some(memory), Some(word)) =>
        var at := e.relas[n - 1].offset;
        if at + 8 > size then None else Some(Patch(memory, at, Le(word, 8)))
      case _ => None
  }
}
