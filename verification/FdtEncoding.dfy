/**
 The stored form of a token stream, and the two round trips: the walk over the
 stored form of any well-nested stream delivers that stream, and the lookups
 over the stored form of a tree answer what the search of the tree answers.
 */
module FdtEncoding {
  import opened Wrappers
  import opened Bytes
  import opened FdtReader
  import opened FdtTree
  import L = FdtLookup

  /** A stored token. Property names are offsets into the strings block; padding bytes are arbitrary. */
  datatype Piece =
    | NopPiece
    | BeginPiece(name: seq<byte>, pad: seq<byte>)
    | EndPiece
    | PropPiece(nameOff: u32, value: seq<byte>, pad: seq<byte>)
  {
    predicate Valid(strings: seq<byte>) {
      match this
      case NopPiece => true
      case BeginPiece(name, pad) => 0 !in name && |name| + 1 + |pad| == Align4(|name| + 1)
      case EndPiece => true
      case PropPiece(nameOff, value, pad) =>
        nameOff <= |strings| && CStr(strings[nameOff..]).Some?
        && |value| <= U32_MAX && |value| + |pad| == Align4(|value|)
    }

    ghost function Stored(): (r: seq<byte>)
      requires this.PropPiece? ==> |value| <= U32_MAX
      ensures |r| == Size()
    {
      match this
      case NopPiece => ToBe32(NOP)
      case BeginPiece(name, pad) => ToBe32(BEGIN_NODE) + name + [0] + pad
      case EndPiece => ToBe32(END_NODE)
      case PropPiece(nameOff, value, pad) => ToBe32(PROP) + ToBe32(|value|) + ToBe32(nameOff) + value + pad
    }

    function Size(): nat {
      match this
      case NopPiece => 4
      case BeginPiece(name, pad) => 4 + |name| + 1 + |pad|
      case EndPiece => 4
      case PropPiece(_, value, pad) => 12 + |value| + |pad|
    }

    /** The fields of the token, read back from byte `pos` of `s`. */
    predicate ReadsAt(s: seq<byte>, pos: nat) {
      pos + Size() <= |s|
      && match this
         case NopPiece => Be32(s, pos) == Some(NOP)
         case BeginPiece(name, _) =>
           Be32(s, pos) == Some(BEGIN_NODE) && s[pos + 4..pos + 4 + |name| + 1] == name + [0]
         case EndPiece => Be32(s, pos) == Some(END_NODE)
         case PropPiece(nameOff, value, _) =>
           Be32(s, pos) == Some(PROP) && Be32(s, pos + 4) == Some(|value|) && Be32(s, pos + 8) == Some(nameOff)
           && s[pos + 12..pos + 12 + |value|] == value
    }

    function Meaning(strings: seq<byte>): seq<Token>
      requires Valid(strings)
    {
      match this
      case NopPiece => []
      case BeginPiece(name, _) => [Begin(name)]
      case EndPiece => [End]
      case PropPiece(nameOff, value, _) => [Prop(CStr(strings[nameOff..]).value, value)]
    }
  }

  predicate AllValid(pieces: seq<Piece>, strings: seq<byte>) {
    forall i | 0 <= i < |pieces| :: pieces[i].Valid(strings)
  }

  /** The structure block: the pieces one behind the other, then the end token. */
  ghost function Encode(pieces: seq<Piece>, strings: seq<byte>): seq<byte>
    requires AllValid(pieces, strings)
  {
    if pieces == [] then ToBe32(END) else pieces[0].Stored() + Encode(pieces[1..], strings)
  }

  function Meaning(pieces: seq<Piece>, strings: seq<byte>): seq<Token>
    requires AllValid(pieces, strings)
  {
    if pieces == [] then [] else pieces[0].Meaning(strings) + Meaning(pieces[1..], strings)
  }

  lemma StandsSplit(s: seq<byte>, pos: nat, a: seq<byte>, b: seq<byte>)
    requires StandsAt(s, pos, a + b)
    ensures StandsAt(s, pos, a) && StandsAt(s, pos + |a|, b)
  {
    var whole := s[pos..pos + |a + b|];
    assert s[pos..pos + |a|] == whole[..|a|] == a;
    assert s[pos + |a|..pos + |a| + |b|] == whole[|a|..] == b;
  }

  lemma StandsBe32(s: seq<byte>, pos: nat, n: u32)
    requires StandsAt(s, pos, ToBe32(n))
    ensures Be32(s, pos) == Some(n)
  {
  }

  lemma StoredBeginReads(s: seq<byte>, pos: nat, name: seq<byte>, pad: seq<byte>)
    requires StandsAt(s, pos, ToBe32(BEGIN_NODE) + name + [0] + pad)
    ensures Be32(s, pos) == Some(BEGIN_NODE) && StandsAt(s, pos + 4, name + [0])
  {
    hide StandsAt, Be32, ToBe32;
    var a := ToBe32(BEGIN_NODE);
    assert a + name + [0] == a + (name + [0]);
    StandsSplit(s, pos, a + (name + [0]), pad);
    StandsSplit(s, pos, a, name + [0]);
    StandsBe32(s, pos, BEGIN_NODE);
  }

  lemma StoredPropReads(s: seq<byte>, pos: nat, nameOff: u32, value: seq<byte>, pad: seq<byte>)
    requires |value| <= U32_MAX
    requires StandsAt(s, pos, ToBe32(PROP) + ToBe32(|value|) + ToBe32(nameOff) + value + pad)
    ensures Be32(s, pos) == Some(PROP) && Be32(s, pos + 4) == Some(|value|) && Be32(s, pos + 8) == Some(nameOff)
    ensures StandsAt(s, pos + 12, value)
  {
    hide StandsAt, Be32, ToBe32;
    var a, b, c := ToBe32(PROP), ToBe32(|value|), ToBe32(nameOff);
    StandsSplit(s, pos, a + b + c + value, pad);
    StandsSplit(s, pos, a + b + c, value);
    StandsSplit(s, pos, a + b, c);
    StandsSplit(s, pos, a, b);
    StandsBe32(s, pos, PROP);
    StandsBe32(s, pos + 4, |value|);
    StandsBe32(s, pos + 8, nameOff);
  }

  /** Stored fields read back as they were written. */
  lemma StoredReads(s: seq<byte>, pos: nat, piece: Piece)
    requires piece.PropPiece? ==> |piece.value| <= U32_MAX
    requires StandsAt(s, pos, piece.Stored())
    ensures piece.ReadsAt(s, pos)
  {
    hide Be32, FromBe32, ToBe32;
    match piece
    case NopPiece => StandsBe32(s, pos, NOP);
    case EndPiece => StandsBe32(s, pos, END_NODE);
    case BeginPiece(name, pad) => StoredBeginReads(s, pos, name, pad);
    case PropPiece(nameOff, value, pad) => StoredPropReads(s, pos, nameOff, value, pad);
  }

  /** The pieces read back from `s` from `pos` on, one behind the other, then an end token. */
  predicate AllReadAt(s: seq<byte>, pos: nat, pieces: seq<Piece>)
    decreases |pieces|
  {
    if pieces == [] then Be32(s, pos) == Some(END)
    else pieces[0].ReadsAt(s, pos) && AllReadAt(s, pos + pieces[0].Size(), pieces[1..])
  }

  lemma {:induction false} EncodeReads(s: seq<byte>, pos: nat, pieces: seq<Piece>, strings: seq<byte>)
    requires AllValid(pieces, strings)
    requires StandsAt(s, pos, Encode(pieces, strings))
    ensures AllReadAt(s, pos, pieces)
    decreases |pieces|
  {
    hide Be32, Align4, CStr, Piece.ReadsAt, Piece.Meaning, Piece.Stored, StandsAt, FromBe32;
    if pieces == [] {
      StandsBe32(s, pos, END);
    } else {
      StandsSplit(s, pos, pieces[0].Stored(), Encode(pieces[1..], strings));
      StoredReads(s, pos, pieces[0]);
      EncodeReads(s, pos + pieces[0].Size(), pieces[1..], strings);
    }
  }

  // ------------------------------------------------------ the walk over pieces

  lemma AlignShift(pos: nat, n: nat)
    requires pos % 4 == 0
    ensures Align4(pos + n) == pos + Align4(n)
  {
  }

  /** Nothing or one token delivered, the walk going on at `next`. */
  function Expected(meaning: seq<Token>, next: nat, depth: nat): Step
    requires meaning != [] ==> 0 <= depth + Delta(meaning[0])
  {
    if meaning == [] then Skip(next) else Deliver(meaning[0], next, depth + Delta(meaning[0]))
  }

  function DepthAfter(meaning: seq<Token>, depth: nat): nat
    requires meaning != [] ==> 0 <= depth + Delta(meaning[0])
  {
    if meaning == [] then depth else depth + Delta(meaning[0])
  }

  lemma StepOverBegin(fdt: Fdt, pos: nat, name: seq<byte>, depth: nat)
    requires pos % 4 == 0 && pos + 4 + |name| + 1 <= |fdt.structs| && 0 !in name && depth < MAX_DEPTH
    requires Be32(fdt.structs, pos) == Some(BEGIN_NODE)
    requires fdt.structs[pos + 4..pos + 4 + |name| + 1] == name + [0]
    ensures WalkStep(fdt, pos, depth) == Deliver(Begin(name), pos + 4 + Align4(|name| + 1), depth + 1)
  {
    assert name + [0] == fdt.structs[pos + 4..][..|name| + 1];
    CStrUnique(fdt.structs[pos + 4..], name);
    AlignShift(pos + 4, |name| + 1);
  }

  lemma StepOverProp(fdt: Fdt, pos: nat, nameOff: u32, value: seq<byte>, depth: nat)
    requires pos % 4 == 0 && pos + 12 + |value| <= |fdt.structs| && |value| <= U32_MAX
    requires nameOff <= |fdt.strings| && CStr(fdt.strings[nameOff..]).Some?
    requires Be32(fdt.structs, pos) == Some(PROP)
    requires Be32(fdt.structs, pos + 4) == Some(|value|) && Be32(fdt.structs, pos + 8) == Some(nameOff)
    requires fdt.structs[pos + 12..pos + 12 + |value|] == value
    ensures WalkStep(fdt, pos, depth)
         == Deliver(Prop(CStr(fdt.strings[nameOff..]).value, value), pos + 12 + Align4(|value|), depth)
  {
    AlignShift(pos + 12, |value|);
  }

  /** One turn of the walk over a stored token at a 4-aligned position. */
  lemma StepOverPiece(fdt: Fdt, pos: nat, piece: Piece, depth: nat)
    requires piece.Valid(fdt.strings) && pos % 4 == 0
    requires piece.ReadsAt(fdt.structs, pos)
    requires piece.EndPiece? ==> depth > 0
    requires piece.BeginPiece? ==> depth < MAX_DEPTH
    ensures WalkStep(fdt, pos, depth) == Expected(piece.Meaning(fdt.strings), pos + piece.Size(), depth)
  {
    match piece
    case NopPiece =>
    case EndPiece =>
    case BeginPiece(name, pad) => StepOverBegin(fdt, pos, name, depth);
    case PropPiece(nameOff, value, pad) => StepOverProp(fdt, pos, nameOff, value, depth);
  }

  /** A turn of the walk contributes what it delivers to the trace of what follows. */
  lemma TraceAfterStep(fdt: Fdt, pos: nat, depth: nat, meaning: seq<Token>, next: nat, rest: seq<Token>)
    requires |meaning| <= 1 && (meaning != [] ==> 0 <= depth + Delta(meaning[0]))
    requires WalkStep(fdt, pos, depth) == Expected(meaning, next, depth)
    requires TraceFrom(fdt, next, DepthAfter(meaning, depth)) == Trace(rest, true)
    ensures TraceFrom(fdt, pos, depth) == Trace(meaning + rest, true)
  {
  }

  lemma TraceOverPiece(fdt: Fdt, pos: nat, piece: Piece, rest: seq<Token>, depth: nat)
    requires piece.Valid(fdt.strings) && pos % 4 == 0
    requires piece.ReadsAt(fdt.structs, pos)
    requires piece.EndPiece? ==> depth > 0
    requires piece.BeginPiece? ==> depth < MAX_DEPTH
    requires TraceFrom(fdt, pos + piece.Size(), DepthAfter(piece.Meaning(fdt.strings), depth)) == Trace(rest, true)
    ensures TraceFrom(fdt, pos, depth) == Trace(piece.Meaning(fdt.strings) + rest, true)
  {
    hide Be32, Align4, CStr, WalkStep, TraceFrom;
    StepOverPiece(fdt, pos, piece, depth);
    TraceAfterStep(fdt, pos, depth, piece.Meaning(fdt.strings), pos + piece.Size(), rest);
  }

  lemma NestingFirst(first: seq<Token>, rest: seq<Token>, depth: nat)
    requires |first| <= 1 && Nesting(first + rest, depth).Some?
    ensures first == [] ==> Nesting(rest, depth).Some?
    ensures first != [] ==> 0 <= depth + Delta(first[0]) && Nesting(rest, depth + Delta(first[0])).Some?
    ensures first != [] && first[0].Begin? ==> depth < MAX_DEPTH
  {
    if first == [] {
      assert first + rest == rest;
    } else {
      assert (first + rest)[1..] == rest;
    }
  }

  lemma PieceAligned(piece: Piece, strings: seq<byte>)
    requires piece.Valid(strings)
    ensures piece.Size() % 4 == 0
  {
  }

  /**
   The walk undoes the encoding: over any stored stream whose nesting stays within bounds, NOPs
   anywhere in it and anything after its end token, the visitor is given exactly that stream.
   */
  lemma {:induction false} WalkDelivers(fdt: Fdt, pos: nat, pieces: seq<Piece>, depth: nat)
    requires AllValid(pieces, fdt.strings) && pos % 4 == 0
    requires AllReadAt(fdt.structs, pos, pieces)
    requires Nesting(Meaning(pieces, fdt.strings), depth).Some?
    ensures TraceFrom(fdt, pos, depth) == Trace(Meaning(pieces, fdt.strings), true)
    decreases |pieces|
  {
    hide WalkStep, Be32, Align4;
    if pieces != [] {
      var piece, rest := pieces[0], pieces[1..];
      var meaning := piece.Meaning(fdt.strings);
      NestingFirst(meaning, Meaning(rest, fdt.strings), depth);
      PieceAligned(piece, fdt.strings);
      WalkDelivers(fdt, pos + piece.Size(), rest, DepthAfter(meaning, depth));
      TraceOverPiece(fdt, pos, piece, Meaning(rest, fdt.strings), depth);
    } else {
      TraceAtEnd(fdt, pos, depth);
    }
  }

  lemma TraceAtEnd(fdt: Fdt, pos: nat, depth: nat)
    requires Be32(fdt.structs, pos) == Some(END)
    ensures TraceFrom(fdt, pos, depth) == Trace([], true)
  {
  }

  // ------------------------------------------------------- nesting of a tree

  lemma {:induction false} NestingAppend(a: seq<Token>, b: seq<Token>, depth: nat)
    ensures Nesting(a + b, depth)
         == match Nesting(a, depth) case None => None case Some(d) => Nesting(b, d)
    decreases |a|
  {
    if a == [] {
      assert a + b == b;
    } else {
      assert (a + b)[0] == a[0] && (a + b)[1..] == a[1..] + b;
      if 0 <= depth + Delta(a[0]) {
        NestingAppend(a[1..], b, depth + Delta(a[0]));
      }
    }
  }

  lemma {:induction false} NestingProps(props: seq<Property>, depth: nat)
    ensures Nesting(PropTokens(props), depth) == Some(depth)
    decreases |props|
  {
    if props != [] {
      assert PropTokens(props)[1..] == PropTokens(props[1..]);
      NestingProps(props[1..], depth);
    }
  }

  lemma {:induction false} NestingNode(n: Node, depth: nat)
    requires depth + Height(n) <= MAX_DEPTH
    ensures Nesting(Tokens(n), depth) == Some(depth)
    decreases n, 1
  {
    var props, children := PropTokens(n.props), TokensAll(n.children);
    assert Tokens(n) == ([Begin(n.name)] + props) + (children + [End]);
    NestingAppend([Begin(n.name)] + props, children + [End], depth);
    NestingAppend([Begin(n.name)], props, depth);
    NestingProps(n.props, depth + 1);
    NestingAppend(children, [End], depth + 1);
    NestingNodes(n.children, depth + 1);
  }

  lemma {:induction false} NestingNodes(ns: seq<Node>, depth: nat)
    requires depth + HeightAll(ns) <= MAX_DEPTH
    ensures Nesting(TokensAll(ns), depth) == Some(depth)
    decreases ns, 0
  {
    if ns != [] {
      NestingAppend(Tokens(ns[0]), TokensAll(ns[1..]), depth);
      NestingNode(ns[0], depth);
      NestingNodes(ns[1..], depth);
    }
  }

  // ------------------------------------------------------------ main results

  /** `fdt` stores `tree`: its structure block starts with the tree's tokens and an end token. */
  ghost predicate Stores(fdt: Fdt, pieces: seq<Piece>, tree: Node) {
    AllValid(pieces, fdt.strings)
    && Meaning(pieces, fdt.strings) == Tokens(tree)
    && StandsAt(fdt.structs, 0, Encode(pieces, fdt.strings))
  }

  /** Walking a stored tree delivers exactly its Begin, Prop and End sequence. */
  lemma WalkTree(fdt: Fdt, pieces: seq<Piece>, tree: Node)
    requires Stores(fdt, pieces, tree) && Height(tree) <= MAX_DEPTH
    ensures TraceFrom(fdt, 0, 0) == Trace(Tokens(tree), true)
  {
    NestingNode(tree, 0);
    EncodeReads(fdt.structs, 0, pieces, fdt.strings);
    WalkDelivers(fdt, 0, pieces, 0);
  }

  /** The streaming lookup of a device's address is the search of the tree it is run on. */
  lemma FindCompatibleRegIsSearch(fdt: Fdt, pieces: seq<Piece>, tree: Node, c: seq<byte>)
    requires Stores(fdt, pieces, tree) && Height(tree) <= MAX_DEPTH
    ensures L.Answer(fdt, c) == FirstAddress(Preorder(tree, []), c)
  {
    WalkTree(fdt, pieces, tree);
    assert L.START_FINDER.stack[1..1] == [];
    L.FindNode(L.START_FINDER, tree, [], c);
  }

  // --------------------------------------------- every tree can be stored

  /** What the format can hold: names without NULs, values a length field can count. */
  predicate Storable(tokens: seq<Token>) {
    forall i | 0 <= i < |tokens| :: StorableOne(tokens[i])
  }

  predicate StorableOne(token: Token) {
    match token
    case Begin(name) => 0 !in name
    case Prop(name, value) => 0 !in name && |value| <= U32_MAX
    case End => true
  }

  /** The strings block: the property names one behind the other, each ended by a NUL. */
  function Names(tokens: seq<Token>): seq<byte> {
    if tokens == [] then []
    else (if tokens[0].Prop? then tokens[0].name + [0] else []) + Names(tokens[1..])
  }

  /** The piece for a token whose property name stands at `off`. */
  function PieceFor(token: Token, off: u32): Piece {
    match token
    case Begin(name) => BeginPiece(name, Zeros(Align4(|name| + 1) - |name| - 1))
    case End => EndPiece
    case Prop(name, value) => PropPiece(off, value, Zeros(Align4(|value|) - |value|))
  }

  /** Where the next property name stands. */
  function Behind(token: Token, off: nat): nat {
    if token.Prop? then off + |token.name| + 1 else off
  }

  /** The pieces for these tokens, their property names from `off` in the strings block on. */
  function Pieces(tokens: seq<Token>, off: nat): (r: seq<Piece>)
    requires off + |Names(tokens)| <= U32_MAX
    ensures |r| == |tokens|
  {
    if tokens == [] then [] else [PieceFor(tokens[0], off)] + Pieces(tokens[1..], Behind(tokens[0], off))
  }

  lemma PieceMeans(token: Token, off: u32, strings: seq<byte>, rest: seq<byte>)
    requires StorableOne(token) && off <= |strings|
    requires token.Prop? ==> strings[off..] == token.name + [0] + rest
    ensures PieceFor(token, off).Valid(strings) && PieceFor(token, off).Meaning(strings) == [token]
  {
    if token.Prop? {
      CStrUnique(strings[off..], token.name);
    }
  }

  lemma NamesBehind(tokens: seq<Token>, off: nat, strings: seq<byte>)
    requires tokens != [] && off <= |strings| && strings[off..] == Names(tokens)
    ensures (var next := Behind(tokens[0], off); next <= |strings| && strings[next..] == Names(tokens[1..]))
    ensures tokens[0].Prop? ==> strings[off..] == tokens[0].name + [0] + Names(tokens[1..])
  {
    var next := Behind(tokens[0], off);
    assert strings[next..] == strings[off..][next - off..];
  }

  lemma {:induction false} PiecesMean(tokens: seq<Token>, off: nat, strings: seq<byte>)
    requires Storable(tokens) && off <= |strings| <= U32_MAX && strings[off..] == Names(tokens)
    ensures AllValid(Pieces(tokens, off), strings) && Meaning(Pieces(tokens, off), strings) == tokens
    decreases |tokens|
  {
    if tokens != [] {
      hide PieceFor, StorableOne, Piece.Valid, Piece.Meaning, Behind, Names;
      var (token, rest, next) := (tokens[0], tokens[1..], Behind(tokens[0], off));
      NamesBehind(tokens, off, strings);
      PieceMeans(token, off, strings, Names(rest));
      PiecesMean(rest, next, strings);
      PiecesStep(tokens, off);
      assert tokens == [token] + rest;
    }
  }

  lemma PiecesStep(tokens: seq<Token>, off: nat)
    requires tokens != [] && off + |Names(tokens)| <= U32_MAX
    ensures Behind(tokens[0], off) + |Names(tokens[1..])| <= U32_MAX
    ensures Pieces(tokens, off) == [PieceFor(tokens[0], off)] + Pieces(tokens[1..], Behind(tokens[0], off))
  {
  }

  /** Every tree the format can hold has a stored form. */
  lemma TreeHasEncoding(tree: Node) returns (fdt: Fdt, pieces: seq<Piece>)
    requires Storable(Tokens(tree)) && |Names(Tokens(tree))| <= U32_MAX
    ensures Stores(fdt, pieces, tree)
  {
    var strings := Names(Tokens(tree));
    pieces := Pieces(Tokens(tree), 0);
    assert strings[0..] == strings;
    PiecesMean(Tokens(tree), 0, strings);
    var structs := Encode(pieces, strings);
    assert structs[0..|structs|] == structs;
    fdt := Fdt(structs, strings);
  }

  // ------------------------------------------------------- which blobs open

  /** The ten header words, the magic number apart. */
  datatype Header = Header(
    total: u32, offStructs: u32, offStrings: u32, offReserved: u32, version: u32, lastCompatible: u32,
    bootCpu: u32, sizeStrings: u32, sizeStructs: u32)

  ghost function HeaderBytes(h: Header): (r: seq<byte>)
    ensures |r| == 40
  {
    ToBe32(MAGIC) + ToBe32(h.total) + ToBe32(h.offStructs) + ToBe32(h.offStrings) + ToBe32(h.offReserved)
    + ToBe32(h.version) + ToBe32(h.lastCompatible) + ToBe32(h.bootCpu) + ToBe32(h.sizeStrings) + ToBe32(h.sizeStructs)
  }

  /** `blob` begins with this header, holds what it says, and the two blocks lie inside its total size. */
  ghost predicate Holds(blob: seq<byte>, h: Header, fdt: Fdt) {
    40 <= h.total <= |blob| && HeaderBytes(h) <= blob
    && h.version >= 17 && h.lastCompatible <= 17
    && h.offStructs + h.sizeStructs <= h.total && h.offStrings + h.sizeStrings <= h.total
    && fdt.structs == blob[h.offStructs..h.offStructs + h.sizeStructs]
    && fdt.strings == blob[h.offStrings..h.offStrings + h.sizeStrings]
  }

  lemma Be32Injective(a: seq<byte>, b: seq<byte>)
    requires |a| == |b| == 4 && FromBe32(a) == FromBe32(b)
    ensures a == b
  {
    var (x, y) := ((a[0] as int * 0x100) + a[1], (b[0] as int * 0x100) + b[1]);
    LastByte(x * 0x100 + a[2], a[3], y * 0x100 + b[2], b[3]);
    LastByte(x, a[2], y, b[2]);
    LastByte(a[0], a[1], b[0], b[1]);
  }

  lemma LastByte(x: int, b: byte, y: int, c: byte)
    requires x * 0x100 + b == y * 0x100 + c
    ensures x == y && b == c
  {
  }

  /** A blob opens exactly when it begins with a header of a version that is read, whose blocks are inside it. */
  lemma FromBytesIff(blob: seq<byte>, fdt: Fdt)
    ensures FromBytes(blob) == Some(fdt) <==> exists h: Header :: Holds(blob, h, fdt)
  {
    if FromBytes(blob) == Some(fdt) {
      HeaderRead(blob);
      assert Holds(blob, HeaderAt(blob), fdt);
    }
    forall h: Header | Holds(blob, h, fdt)
      ensures FromBytes(blob) == Some(fdt)
    {
      HoldsOpens(blob, h, fdt);
    }
  }

  function HeaderAt(blob: seq<byte>): Header
    requires |blob| >= 40
  {
    Header(FromBe32(blob[4..8]), FromBe32(blob[8..12]), FromBe32(blob[12..16]), FromBe32(blob[16..20]),
           FromBe32(blob[20..24]), FromBe32(blob[24..28]), FromBe32(blob[28..32]), FromBe32(blob[32..36]),
           FromBe32(blob[36..40]))
  }

  /** Four bytes are the encoding of the word they read as. */
  lemma Word(b: seq<byte>)
    requires |b| == 4
    ensures ToBe32(FromBe32(b)) == b
  {
    Be32Injective(ToBe32(FromBe32(b)), b);
  }

  lemma HeaderRead(blob: seq<byte>)
    requires |blob| >= 40 && FromBe32(blob[0..4]) == MAGIC
    ensures HeaderBytes(HeaderAt(blob)) == blob[..40]
  {
    Word(blob[0..4]);
    Word(blob[4..8]);
    Word(blob[8..12]);
    Word(blob[12..16]);
    Word(blob[16..20]);
    Word(blob[20..24]);
    Word(blob[24..28]);
    Word(blob[28..32]);
    Word(blob[32..36]);
    Word(blob[36..40]);
    assert blob[..40] == blob[0..4] + blob[4..8] + blob[8..12] + blob[12..16] + blob[16..20] + blob[20..24]
      + blob[24..28] + blob[28..32] + blob[32..36] + blob[36..40];
  }

  lemma HeaderWords(h: Header)
    ensures var w := HeaderBytes(h);
      w[0..4] == ToBe32(MAGIC) && w[4..8] == ToBe32(h.total)
      && w[8..12] == ToBe32(h.offStructs) && w[12..16] == ToBe32(h.offStrings)
      && w[20..24] == ToBe32(h.version) && w[24..28] == ToBe32(h.lastCompatible)
      && w[32..36] == ToBe32(h.sizeStrings) && w[36..40] == ToBe32(h.sizeStructs)
  {
  }

  /** A header word, read in a blob or in the part of it that counts. */
  lemma WordAt(w: seq<byte>, blob: seq<byte>, total: nat, at: nat)
    requires |w| == 40 <= total <= |blob| && w <= blob && at + 4 <= 40
    ensures Be32(blob, at) == Some(FromBe32(w[at..at + 4])) && Be32(blob[..total], at) == Some(FromBe32(w[at..at + 4]))
  {
    hide FromBe32;
    assert blob[at..at + 4] == w[at..at + 4] && blob[..total][at..at + 4] == w[at..at + 4];
  }

  lemma HoldsOpens(blob: seq<byte>, h: Header, fdt: Fdt)
    requires Holds(blob, h, fdt)
    ensures FromBytes(blob) == Some(fdt)
  {
    hide HeaderBytes, FromBe32, ToBe32, Be32;
    var w := HeaderBytes(h);
    HeaderWords(h);
    WordAt(w, blob, h.total, 0);
    WordAt(w, blob, h.total, 4);
    WordAt(w, blob, h.total, 8);
    WordAt(w, blob, h.total, 12);
    WordAt(w, blob, h.total, 20);
    WordAt(w, blob, h.total, 24);
    WordAt(w, blob, h.total, 32);
    WordAt(w, blob, h.total, 36);
    InTotal(blob, h.total, h.offStructs, h.sizeStructs);
    InTotal(blob, h.total, h.offStrings, h.sizeStrings);
  }

  lemma InTotal(blob: seq<byte>, total: nat, off: nat, size: nat)
    requires off + size <= total <= |blob|
    ensures Slice(blob[..total], off, size) == Some(blob[off..off + size])
  {
    SliceOfSlice(blob, 0, total, off, off + size);
    assert blob[0..total] == blob[..total];
  }

  // -------------------------------------------------------------- the blob

  function HeaderFor(fdt: Fdt): Header
    requires 40 + |fdt.structs| + |fdt.strings| <= U32_MAX
  {
    Header(40 + |fdt.structs| + |fdt.strings|, 40, 40 + |fdt.structs|, 0, 17, 16, 0, |fdt.strings|, |fdt.structs|)
  }

  /** A version 17 blob: the header of section 5.2 and the two blocks behind it. */
  ghost function Blob(fdt: Fdt): seq<byte>
    requires 40 + |fdt.structs| + |fdt.strings| <= U32_MAX
  {
    HeaderBytes(HeaderFor(fdt)) + fdt.structs + fdt.strings
  }

  /** The reader opens a blob, with whatever follows it, to its two blocks. */
  lemma FromBytesReads(fdt: Fdt, tail: seq<byte>)
    requires 40 + |fdt.structs| + |fdt.strings| <= U32_MAX
    ensures FromBytes(Blob(fdt) + tail) == Some(fdt)
  {
    hide HeaderBytes, FromBytes;
    var (h, blob) := (HeaderFor(fdt), Blob(fdt) + tail);
    assert HeaderBytes(h) <= blob;
    assert blob[40..40 + |fdt.structs|] == fdt.structs;
    assert blob[40 + |fdt.structs|..40 + |fdt.structs| + |fdt.strings|] == fdt.strings;
    HoldsOpens(blob, h, fdt);
  }
}
