/**
 The flattened device tree reader of crates/nanochrono-baremetal/src/fdt.rs:
 checked field reads, header validation, and the token walk over the structure
 block (Devicetree Specification v0.4, sections 5.2 and 5.4).

 `usize` is modelled as an unbounded natural number. Every slice is shorter than
 `isize::MAX`, so the source's `checked_add` calls on positions never fail where
 the slice access that follows them would have succeeded.
 */
module FdtReader {
  import opened Wrappers
  import opened Bytes

  const MAGIC := 0xD00D_FEED
  const MAX_DEPTH := 16
  const BEGIN_NODE := 1
  const END_NODE := 2
  const PROP := 3
  const NOP := 4
  const END := 9

  datatype Fdt = Fdt(structs: seq<byte>, strings: seq<byte>)

  datatype Token =
    | Begin(name: seq<byte>)
    | End
    | Prop(name: seq<byte>, value: seq<byte>)

  // ------------------------------------------------------------------ fields

  function Be32(b: seq<byte>, at: nat): (r: Option<u32>)
    ensures r.Some? <==> at + 4 <= |b|
  {
    if at + 4 <= |b| then Some(FromBe32(b[at..at + 4])) else None
  }

  /** Reads one or two cells as a number, nothing else. */
  function ReadCells(b: seq<byte>, cells: u32): (r: Option<u64>)
    ensures r.Some? <==> (cells == 1 || cells == 2) && 4 * cells <= |b|
  {
    if cells == 1 then
      Be32(b, 0)
    else if cells == 2 && Be32(b, 0).Some? && Be32(b, 4).Some? then
      Some(Be32(b, 0).value * 0x1_0000_0000 + Be32(b, 4).value)
    else
      None
  }

  /** What stands in `b` before its first zero byte; nothing if it has none. */
  function CStr(b: seq<byte>): (r: Option<seq<byte>>)
    ensures r.Some? ==> |r.value| < |b| && r.value == b[..|r.value|] && b[|r.value|] == 0 && 0 !in r.value
    ensures r.None? ==> 0 !in b
  {
    if b == [] then None
    else if b[0] == 0 then Some([])
    else
      var rest := CStr(b[1..]);
      if rest.None? then None else Some([b[0]] + rest.value)
  }

  lemma CStrUnique(b: seq<byte>, name: seq<byte>)
    requires 0 !in name
    requires name + [0] <= b
    ensures CStr(b) == Some(name)
  {
    assert b[|name|] == 0;
    assert forall i | 0 <= i < |name| :: b[i] == name[i] && name[i] != 0;
    var r := CStr(b).value;
    assert forall i | 0 <= i < |r| :: b[i] == r[i] && r[i] != 0;
    assert |r| == |name| by {
      assert b[|r|] == 0;
    }
    assert r == b[..|name|] == name;
  }

  function Align4(n: nat): (r: nat)
    ensures r % 4 == 0 && n <= r < n + 4
  {
    (n + 3) / 4 * 4
  }

  // ------------------------------------------------------------------ header

  /** `b[off..off + len]`, when that range exists. */
  function Slice(b: seq<byte>, off: nat, len: nat): (r: Option<seq<byte>>)
  {
    if off + len <= |b| then Some(b[off..off + len]) else None
  }

  function FromBytes(blob: seq<byte>): (r: Option<Fdt>)
  {
    if |blob| < 8 || Be32(blob, 0).value != MAGIC then None else
    var total := Be32(blob, 4).value;
    if total < 40 || total > |blob| then None else
    var b := blob[..total];
    if Be32(b, 20).value < 17 || Be32(b, 24).value > 17 then None else
    var structs := Slice(b, Be32(b, 8).value, Be32(b, 36).value);
    var strings := Slice(b, Be32(b, 12).value, Be32(b, 32).value);
    if structs.None? || strings.None? then None
    else Some(Fdt(structs.value, strings.value))
  }

  // -------------------------------------------------------------------- walk

  /** What one turn of the walk's loop does. */
  datatype Step =
    | Deliver(token: Token, pos: nat, depth: nat)
    | Skip(pos: nat)
    | Finish
    | Malformed

  /** One turn of the walk at byte `pos`, with `depth` nodes open. */
  function WalkStep(fdt: Fdt, pos: nat, depth: nat): (r: Step)
    ensures r.Deliver? || r.Skip? ==> pos < r.pos <= |fdt.structs| + 3
    ensures r.Deliver? || r.Skip? ==> pos % 4 == 0 ==> r.pos % 4 == 0
    ensures r.Deliver? && depth <= MAX_DEPTH ==> r.depth <= MAX_DEPTH
    ensures r.Deliver? ==> r.depth == depth + Delta(r.token)
  {
    var s := fdt.structs;
    var token := Be32(s, pos);
    if token.None? then Malformed
    else if token.value == BEGIN_NODE then
      var name := CStr(s[pos + 4..]);
      if name.None? || depth + 1 > MAX_DEPTH then Malformed
      else Deliver(Begin(name.value), Align4(pos + 4 + |name.value| + 1), depth + 1)
    else if token.value == END_NODE then
      if depth == 0 then Malformed else Deliver(End, pos + 4, depth - 1)
    else if token.value == PROP then
      var len := Be32(s, pos + 4);
      var nameOff := Be32(s, pos + 8);
      if len.None? || nameOff.None? || pos + 12 + len.value > |s| || nameOff.value > |fdt.strings| then Malformed
      else
        var name := CStr(fdt.strings[nameOff.value..]);
        if name.None? then Malformed
        else Deliver(Prop(name.value, s[pos + 12..pos + 12 + len.value]), Align4(pos + 12 + len.value), depth)
    else if token.value == NOP then Skip(pos + 4)
    else if token.value == END then Finish
    else Malformed
  }

  /** All a visitor that never stops is given, and whether the walk then ended well. */
  datatype Trace = Trace(tokens: seq<Token>, ended: bool)

  function TraceFrom(fdt: Fdt, pos: nat, depth: nat): (t: Trace)
    decreases |fdt.structs| + 4 - pos
  {
    match WalkStep(fdt, pos, depth)
    case Deliver(token, pos', depth') =>
      var rest := TraceFrom(fdt, pos', depth');
      Trace([token] + rest.tokens, rest.ended)
    case Skip(pos') => TraceFrom(fdt, pos', depth)
    case Finish => Trace([], true)
    case Malformed => Trace([], false)
  }

  /** The number of open nodes after `tokens`, if it stays within 0..MAX_DEPTH all along. */
  function Nesting(tokens: seq<Token>, depth: nat): (r: Option<nat>)
    ensures r.Some? && depth <= MAX_DEPTH ==> r.value <= MAX_DEPTH
  {
    if tokens == [] then Some(depth)
    else match tokens[0]
      case Begin(_) => if depth < MAX_DEPTH then Nesting(tokens[1..], depth + 1) else None
      case End => if depth > 0 then Nesting(tokens[1..], depth - 1) else None
      case Prop(_, _) => Nesting(tokens[1..], depth)
  }

  /** How a token moves the nesting depth. */
  function Delta(token: Token): int {
    match token case Begin(_) => 1 case End => -1 case Prop(_, _) => 0
  }

  lemma NestingCons(token: Token, rest: seq<Token>, depth: nat)
    requires 0 <= depth + Delta(token) <= MAX_DEPTH
    ensures Nesting([token] + rest, depth) == Nesting(rest, depth + Delta(token))
  {
    assert ([token] + rest)[1..] == rest;
  }

  /** Whatever the bytes, the nesting a visitor sees never underflows or passes MAX_DEPTH. */
  lemma {:induction false} TraceNesting(fdt: Fdt, pos: nat, depth: nat)
    requires depth <= MAX_DEPTH
    ensures Nesting(TraceFrom(fdt, pos, depth).tokens, depth).Some?
    decreases |fdt.structs| + 4 - pos
  {
    match WalkStep(fdt, pos, depth)
    case Deliver(token, pos', depth') =>
      TraceNesting(fdt, pos', depth');
      NestingCons(token, TraceFrom(fdt, pos', depth').tokens, depth);
    case Skip(pos') => TraceNesting(fdt, pos', depth);
    case Finish =>
    case Malformed =>
  }
}
