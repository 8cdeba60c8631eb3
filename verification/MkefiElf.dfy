/**
 `load_elf` of tools/mkefi.py: the loadable segments of an ELF file in address
 order, or why the file cannot be wrapped.
 */
module MkefiElf {
  import opened Bytes

  const PAGE := 0x1000
  const EFI_BASE := 0x1000
  const EM_ARM := 40
  const EM_RISCV := 243

  const ELF_MAGIC: seq<byte> := [0x7F, 0x45, 0x4C, 0x46]

  datatype Segment = Segment(vaddr: nat, body: seq<byte>, memsz: nat, flags: nat)

  datatype Elf = Elf(machine: nat, wide: bool, entry: nat, segments: seq<Segment>)

  datatype Error = NotElf | NoMachine | Truncated | WrongBase | Unaligned | FieldTooBig | HeadersTooLong

  datatype Result<+T> = Ok(value: T) | Err(error: Error)

  /** `data[from:to]` as Python takes it: what lies past the end is missing. */
  function Slice(data: seq<byte>, from: nat, to: nat): seq<byte> {
    var end := if to < |data| then to else |data|;
    if from <= end then data[from..end] else []
  }

  datatype Header = Header(ptype: nat, segment: Segment)

  /** One program header and the bytes it names. */
  function HeaderAt(data: seq<byte>, wide: bool, off: nat): Result<Header> {
    if off + (if wide then 48 else 28) > |data| then Err(Truncated)
    else if wide then
      var (offset, filesz) := (Field(data, off + 8, 8), Field(data, off + 32, 8));
      Ok(Header(Field(data, off, 4),
                Segment(Field(data, off + 16, 8), Slice(data, offset, offset + filesz), Field(data, off + 40, 8),
                        Field(data, off + 4, 4))))
    else
      var (offset, filesz) := (Field(data, off + 4, 4), Field(data, off + 16, 4));
      Ok(Header(Field(data, off, 4),
                Segment(Field(data, off + 8, 4), Slice(data, offset, offset + filesz), Field(data, off + 20, 4),
                        Field(data, off + 24, 4))))
  }

  predicate IsLoaded(h: Header) {
    h.ptype == 1 && h.segment.memsz != 0
  }

  /** The loadable segments among the first `n` program headers, in file order. */
  function SegmentsOf(data: seq<byte>, wide: bool, phoff: nat, phentsize: nat, n: nat): Result<seq<Segment>> {
    if n == 0 then Ok([])
    else
      match (SegmentsOf(data, wide, phoff, phentsize, n - 1), HeaderAt(data, wide, phoff + (n - 1) * phentsize))
      case (Err(e), _) => Err(e)
      case (_, Err(e)) => Err(e)
      case (Ok(segments), Ok(h)) => Ok(if IsLoaded(h) then segments + [h.segment] else segments)
  }

  // ----------------------------------------------------------------- sorting

  predicate BytesBefore(a: seq<byte>, b: seq<byte>)
    decreases |a|
  {
    b != [] && (a == [] || a[0] < b[0] || (a[0] == b[0] && BytesBefore(a[1..], b[1..])))
  }

  /** The order of Python's tuples: by address, then bytes, then size, then flags. */
  predicate Before(a: Segment, b: Segment) {
    a.vaddr < b.vaddr
    || (a.vaddr == b.vaddr
        && (BytesBefore(a.body, b.body)
            || (a.body == b.body && (a.memsz < b.memsz || (a.memsz == b.memsz && a.flags < b.flags)))))
  }

  function Insert(s: Segment, sorted: seq<Segment>): seq<Segment> {
    if sorted == [] || Before(s, sorted[0]) then [s] + sorted else [sorted[0]] + Insert(s, sorted[1..])
  }

  function Sort(segments: seq<Segment>): seq<Segment> {
    if segments == [] then [] else Insert(segments[0], Sort(segments[1..]))
  }

  predicate Ascending(segments: seq<Segment>) {
    forall i, j | 0 <= i < j < |segments| :: segments[i].vaddr <= segments[j].vaddr
  }

  lemma BeforeByAddress(a: Segment, b: Segment)
    ensures if Before(a, b) then a.vaddr <= b.vaddr else b.vaddr <= a.vaddr
  {
  }

  lemma {:induction false} InsertKeeps(s: Segment, sorted: seq<Segment>)
    ensures multiset(Insert(s, sorted)) == multiset(sorted) + multiset{s}
  {
    hide Before;
    if sorted != [] && !Before(s, sorted[0]) {
      InsertKeeps(s, sorted[1..]);
      assert sorted == [sorted[0]] + sorted[1..];
    }
  }

  lemma {:induction false} InsertSorts(s: Segment, sorted: seq<Segment>)
    requires Ascending(sorted)
    ensures Ascending(Insert(s, sorted))
  {
    hide Before;
    if sorted != [] {
      BeforeByAddress(s, sorted[0]);
      if !Before(s, sorted[0]) {
        var rest := Insert(s, sorted[1..]);
        InsertSorts(s, sorted[1..]);
        InsertKeeps(s, sorted[1..]);
        forall i | 0 <= i < |rest|
          ensures sorted[0].vaddr <= rest[i].vaddr
        {
          assert rest[i] in multiset(rest);
          assert rest[i] in multiset(sorted[1..]) || rest[i] == s;
        }
      }
    }
  }

  lemma {:induction false} SortSorts(segments: seq<Segment>)
    ensures Ascending(Sort(segments)) && multiset(Sort(segments)) == multiset(segments)
  {
    if segments != [] {
      SortSorts(segments[1..]);
      InsertSorts(segments[0], Sort(segments[1..]));
      InsertKeeps(segments[0], Sort(segments[1..]));
      assert segments == [segments[0]] + segments[1..];
    }
  }

  // -------------------------------------------------------------------- load

  /** The PE machine for an ELF machine, 0 when there is none. */
  function PeMachine(machine: nat, wide: bool): nat {
    if machine == EM_ARM && !wide then 0x01C2
    else if machine == EM_RISCV then if wide then 0x5064 else 0x5032
    else 0
  }

  /** Segments that can be wrapped: the first at the base, each at a page. */
  function Wrapped(machine: nat, wide: bool, entry: nat, segments: seq<Segment>): Result<Elf> {
    if segments == [] || segments[0].vaddr != EFI_BASE then Err(WrongBase)
    else if exists i | 0 <= i < |segments| :: segments[i].vaddr % PAGE != 0 then Err(Unaligned)
    else Ok(Elf(machine, wide, entry, segments))
  }

  function LoadOf(data: seq<byte>): Result<Elf> {
    if |data| < 6 then if data[..if |data| < 4 then |data| else 4] == ELF_MAGIC then Err(Truncated) else Err(NotElf)
    else if data[..4] != ELF_MAGIC || data[5] != 1 then Err(NotElf)
    else
      var wide := data[4] == 2;
      if |data| < (if wide then 58 else 46) then Err(Truncated)
      else
        var machine := PeMachine(Field(data, 18, 2), wide);
        var (entry, phoff) := if wide then (Field(data, 24, 8), Field(data, 32, 8)) else (Field(data, 24, 4), Field(data, 28, 4));
        var at := if wide then 54 else 42;
        if machine == 0 then Err(NoMachine)
        else
          match SegmentsOf(data, wide, phoff, Field(data, at, 2), Field(data, at + 2, 2))
          case Err(e) => Err(e)
          case Ok(segments) => Wrapped(machine, wide, entry, Sort(segments))
  }

  lemma {:induction false} SegmentsFault(data: seq<byte>, wide: bool, phoff: nat, phentsize: nat, i: nat, n: nat)
    requires i <= n && SegmentsOf(data, wide, phoff, phentsize, i).Err?
    ensures SegmentsOf(data, wide, phoff, phentsize, n) == SegmentsOf(data, wide, phoff, phentsize, i)
  {
    hide HeaderAt;
    if i < n {
      SegmentsFault(data, wide, phoff, phentsize, i, n - 1);
    }
  }

  method ReadSegments(data: seq<byte>, wide: bool, phoff: nat, phentsize: nat, phnum: nat) returns (r: Result<seq<Segment>>)
    ensures r == SegmentsOf(data, wide, phoff, phentsize, phnum)
  {
    hide HeaderAt;
    var segments := [];
    for i := 0 to phnum
      invariant SegmentsOf(data, wide, phoff, phentsize, i) == Ok(segments)
    {
      var h := HeaderAt(data, wide, phoff + i * phentsize);
      if h.Err? {
        SegmentsFault(data, wide, phoff, phentsize, i + 1, phnum);
        return Err(h.error);
      }
      if IsLoaded(h.value) {
        segments := segments + [h.value.segment];
      }
    }
    return Ok(segments);
  }

  method LoadElf(data: seq<byte>) returns (r: Result<Elf>)
    ensures r == LoadOf(data)
  {
    hide Field, SegmentsOf, Sort;
    if |data| < 6 {
      return if data[..if |data| < 4 then |data| else 4] == ELF_MAGIC then Err(Truncated) else Err(NotElf);
    }
    if data[..4] != ELF_MAGIC || data[5] != 1 {
      return Err(NotElf);
    }
    var wide := data[4] == 2;
    if |data| < (if wide then 58 else 46) {
      return Err(Truncated);
    }
    var machine := PeMachine(Field(data, 18, 2), wide);
    if machine == 0 {
      return Err(NoMachine);
    }
    var entry, phoff, at := Field(data, 24, 4), Field(data, 28, 4), 42;
    if wide {
      entry, phoff, at := Field(data, 24, 8), Field(data, 32, 8), 54;
    }
    var segments := ReadSegments(data, wide, phoff, Field(data, at, 2), Field(data, at + 2, 2));
    if segments.Err? {
      return Err(segments.error);
    }
    return Wrapped(machine, wide, entry, Sort(segments.value));
  }

  /** The loadable segments in file order. */
  function Loadable(data: seq<byte>): Result<seq<Segment>>
    requires |data| >= 46 && (data[4] == 2 ==> |data| >= 58)
  {
    var wide := data[4] == 2;
    var at := if wide then 54 else 42;
    SegmentsOf(data, wide, if wide then Field(data, 32, 8) else Field(data, 28, 4), Field(data, at, 2), Field(data, at + 2, 2))
  }

  /** What `load_elf` gives: the loadable segments, ascending and page-aligned from the base on, for a known machine. */
  lemma LoadedIsWrapped(data: seq<byte>)
    requires LoadOf(data).Ok?
    ensures Loadable(data).Ok?
    ensures (var (e, found) := (LoadOf(data).value, Loadable(data).value);
      multiset(e.segments) == multiset(found) && e.segments != [] && e.segments[0].vaddr == EFI_BASE
      && Ascending(e.segments) && e.machine != 0 && forall i | 0 <= i < |e.segments| :: e.segments[i].vaddr % PAGE == 0)
  {
    hide SegmentsOf, Sort, Ascending, Field;
    SortSorts(Loadable(data).value);
  }
}
