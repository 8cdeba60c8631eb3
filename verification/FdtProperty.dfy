/**
 `compatible_property`: the same walk with one match flag and one value per
 depth. Over the tokens of a tree it answers what a search of the tree in
 pre-order answers, except for the list of compatible names itself, whose value
 the visitor does not record.
 */
module FdtProperty {
  import opened Wrappers
  import opened Bytes
  import opened FdtReader
  import opened FdtTree
  import opened FdtLookup
  import E = FdtEncoding

  /** The variables `compatible_property` keeps between tokens. */
  datatype Picker = Picker(depth: nat, matches: seq<bool>, values: seq<Option<seq<byte>>>) {
    ghost predicate Valid() {
      depth <= MAX_DEPTH && |matches| == |values| == MAX_DEPTH + 1
    }

    /** The node being read matches and has the property. */
    predicate Found()
      requires Valid()
    {
      matches[depth] && values[depth].Some?
    }
  }

  function Pick(st: Picker, token: Token, c: seq<byte>, name: seq<byte>): (r: Pass<Picker, Option<seq<byte>>>)
    requires st.Valid()
    ensures r.Running? ==> r.state.Valid()
  {
    match token
    case Begin(_) =>
      if st.Found() then Stopped(st.values[st.depth])
      else if st.depth + 1 > MAX_DEPTH then Stopped(None)
      else
        var d := st.depth + 1;
        Running(Picker(d, st.matches[d := false], st.values[d := None]))
    case End =>
      if st.Found() then Stopped(st.values[st.depth])
      else Running(Picker(if st.depth == 0 then 0 else st.depth - 1, st.matches, st.values))
    case Prop(prop, value) =>
      if prop == COMPATIBLE then
        Running(Picker(st.depth, st.matches[st.depth := c in Fields(value)], st.values))
      else if prop == name then
        Running(Picker(st.depth, st.matches, st.values[st.depth := Some(value)]))
      else Running(st)
  }

  function PickAll(st: Picker, tokens: seq<Token>, c: seq<byte>, name: seq<byte>): (r: Pass<Picker, Option<seq<byte>>>)
    requires st.Valid()
    ensures r.Running? ==> r.state.Valid()
    decreases |tokens|
  {
    if tokens == [] then Running(st)
    else match Pick(st, tokens[0], c, name)
      case Stopped(a) => Stopped(a)
      case Running(st') => PickAll(st', tokens[1..], c, name)
  }

  function Nones(n: nat): (r: seq<Option<seq<byte>>>)
    ensures |r| == n && forall i | 0 <= i < n :: r[i] == None
  {
    if n == 0 then [] else [None] + Nones(n - 1)
  }

  const START_PICKER := Picker(0, Falses(MAX_DEPTH + 1), Nones(MAX_DEPTH + 1))

  function PropertyAnswer(fdt: Fdt, c: seq<byte>, name: seq<byte>): Option<seq<byte>> {
    Result(PickAll(START_PICKER, TraceFrom(fdt, 0, 0).tokens, c, name))
  }

  // ---------------------------------------------------------------- the loop

  /** The variables the visitor of `compatible_property` captures. */
  class PropertyVisitor {
    const matches: array<bool>
    const values: array<Option<seq<byte>>>
    var depth: nat
    var found: Option<seq<byte>>

    ghost predicate Valid()
      reads this
    {
      depth <= MAX_DEPTH && matches.Length == values.Length == MAX_DEPTH + 1
    }

    ghost function State(): (st: Picker)
      requires Valid()
      reads this, matches, values
      ensures st.Valid()
    {
      Picker(depth, matches[..], values[..])
    }

    constructor ()
      ensures Valid() && fresh(matches) && fresh(values) && State() == START_PICKER && found == None
    {
      matches := new bool[MAX_DEPTH + 1](_ => false);
      values := new Option<seq<byte>>[MAX_DEPTH + 1](_ => None);
      depth, found := 0, None;
      new;
      assert matches[..] == START_PICKER.matches;
      assert values[..] == START_PICKER.values;
    }

    method Visit(token: Token, c: seq<byte>, name: seq<byte>) returns (more: bool)
      requires Valid() && found.None?
      modifies this, matches, values
      ensures Valid()
      ensures match Pick(old(State()), token, c, name)
              case Stopped(a) => !more && found == a
              case Running(st) => more && State() == st && found.None?
    {
      if (token.Begin? || token.End?) && matches[depth] && values[depth].Some? {
        found := values[depth];
        return false;
      }
      match token {
        case Begin(_) =>
          if depth + 1 > MAX_DEPTH {
            return false;
          }
          depth := depth + 1;
          matches[depth] := false;
          values[depth] := None;
        case End =>
          depth := if depth == 0 then 0 else depth - 1;
        case Prop(prop, value) =>
          if prop == COMPATIBLE {
            matches[depth] := c in Fields(value);
          } else if prop == name {
            values[depth] := Some(value);
          }
      }
      return true;
    }
  }

  /** The walk with that visitor, whose depth never differs from the walk's own. */
  method CompatibleProperty(fdt: Fdt, c: seq<byte>, name: seq<byte>) returns (found: Option<seq<byte>>)
    ensures found == PropertyAnswer(fdt, c, name)
  {
    var visitor := new PropertyVisitor();
    var pos, open := 0, 0;
    while true
      invariant visitor.Valid() && fresh(visitor) && fresh(visitor.matches) && fresh(visitor.values)
      invariant visitor.found.None? && open == visitor.depth && pos % 4 == 0
      invariant Result(PickAll(visitor.State(), TraceFrom(fdt, pos, open).tokens, c, name))
             == PropertyAnswer(fdt, c, name)
      decreases |fdt.structs| + 4 - pos
    {
      match WalkStep(fdt, pos, open)
      case Malformed => return None;
      case Finish => return visitor.found;
      case Skip(pos') => pos := pos';
      case Deliver(token, pos', open') =>
        assert TraceFrom(fdt, pos, open).tokens[1..] == TraceFrom(fdt, pos', open').tokens;
        pos, open := pos', open';
        var more := visitor.Visit(token, c, name);
        if !more {
          return visitor.found;
        }
    }
  }

  // --------------------------------------------------- what the pass records

  /** The property of a visited node as far as the visitor records it. */
  function RecordedOf(v: Visit, c: seq<byte>, name: seq<byte>): Option<seq<byte>> {
    if name == COMPATIBLE then None else PropertyOf(v, c, name)
  }

  function FirstRecorded(visits: seq<Visit>, c: seq<byte>, name: seq<byte>): Option<seq<byte>> {
    if visits == [] then None
    else if RecordedOf(visits[0], c, name).Some? then RecordedOf(visits[0], c, name)
    else FirstRecorded(visits[1..], c, name)
  }

  lemma {:induction false} FirstRecordedAppend(a: seq<Visit>, b: seq<Visit>, c: seq<byte>, name: seq<byte>)
    ensures FirstRecorded(a + b, c, name)
         == if FirstRecorded(a, c, name).Some? then FirstRecorded(a, c, name) else FirstRecorded(b, c, name)
  {
    if a == [] {
      assert a + b == b;
    } else {
      assert (a + b)[0] == a[0] && (a + b)[1..] == a[1..] + b;
      FirstRecordedAppend(a[1..], b, c, name);
    }
  }

  /** What is recorded is what is there, for every name but one. */
  lemma {:induction false} RecordedIsThere(visits: seq<Visit>, c: seq<byte>, name: seq<byte>)
    ensures name != COMPATIBLE ==> FirstRecorded(visits, c, name) == FirstProperty(visits, c, name)
    ensures FirstRecorded(visits, c, COMPATIBLE) == None
    ensures FirstProperty(visits, c, COMPATIBLE) == None <==>
      forall i | 0 <= i < |visits| :: !Lists(LastValue(visits[i].props, COMPATIBLE), c)
  {
    if visits != [] {
      RecordedIsThere(visits[1..], c, name);
      assert forall i | 0 < i < |visits| :: visits[i] == visits[1..][i - 1];
    }
  }

  // ------------------------------------------------- the pass over one tree

  lemma {:induction false} PickAllAppend(st: Picker, a: seq<Token>, b: seq<Token>, c: seq<byte>, name: seq<byte>)
    requires st.Valid()
    ensures PickAll(st, a + b, c, name)
         == match PickAll(st, a, c, name)
            case Stopped(r) => Stopped(r)
            case Running(st') => PickAll(st', b, c, name)
    decreases |a|
  {
    if a == [] {
      assert a + b == b;
    } else {
      assert (a + b)[0] == a[0] && (a + b)[1..] == a[1..] + b;
      match Pick(st, a[0], c, name)
      case Stopped(_) =>
      case Running(st') => PickAllAppend(st', a[1..], b, c, name);
    }
  }

  /** The state once the properties `props` of the node just entered have been read. */
  ghost predicate HasPicked(st: Picker, entered: Picker, props: seq<Property>, c: seq<byte>, name: seq<byte>) {
    st.Valid() && entered.Valid() && st.depth == entered.depth
    && st.matches == entered.matches[st.depth := Lists(LastValue(props, COMPATIBLE), c)]
    && st.values == entered.values[st.depth := if name == COMPATIBLE then None else LastValue(props, name)]
  }

  lemma PickIsLast(st: Picker, entered: Picker, props: seq<Property>, last: Property, c: seq<byte>, name: seq<byte>)
    requires HasPicked(st, entered, props, c, name)
    ensures Pick(st, Prop(last.name, last.value), c, name).Running?
    ensures HasPicked(Pick(st, Prop(last.name, last.value), c, name).state, entered, props + [last], c, name)
  {
    assert (props + [last])[..|props|] == props;
  }

  lemma {:induction false} PickProps(entered: Picker, props: seq<Property>, c: seq<byte>, name: seq<byte>)
    requires HasPicked(entered, entered, [], c, name)
    ensures PickAll(entered, PropTokens(props), c, name).Running?
    ensures HasPicked(PickAll(entered, PropTokens(props), c, name).state, entered, props, c, name)
  {
    if props == [] {
      assert PropTokens(props) == [];
    } else {
      var front, last := props[..|props| - 1], props[|props| - 1];
      PickProps(entered, front, c, name);
      var token := Prop(last.name, last.value);
      assert PropTokens(props) == PropTokens(front) + [token];
      PickAllAppend(entered, PropTokens(front), [token], c, name);
      var st := PickAll(entered, PropTokens(front), c, name).state;
      PickIsLast(st, entered, front, last, c, name);
      assert PickAll(st, [token], c, name) == Pick(st, token, c, name);
      assert props == front + [last];
    }
  }

  /** `st` is back where `before` was: same depth, same scratch for every open node. */
  ghost predicate Back(st: Picker, before: Picker) {
    st.Valid() && before.Valid() && st.depth == before.depth
    && st.matches[..st.depth + 1] == before.matches[..st.depth + 1]
    && st.values[..st.depth + 1] == before.values[..st.depth + 1]
  }

  ghost predicate Picks(
    r: Pass<Picker, Option<seq<byte>>>, visits: seq<Visit>, before: Picker, c: seq<byte>, name: seq<byte>)
  {
    match FirstRecorded(visits, c, name)
    case Some(v) => r == Stopped(Some(v))
    case None => r.Running? && Back(r.state, before)
  }

  lemma {:induction false} PickNode(st: Picker, n: Node, buses: seq<Bus>, c: seq<byte>, name: seq<byte>)
    requires st.Valid() && !st.Found() && st.depth + Height(n) <= MAX_DEPTH
    ensures Picks(PickAll(st, Tokens(n), c, name), Preorder(n, buses), st, c, name)
    decreases n, 1
  {
    var d := st.depth + 1;
    var entered := Picker(d, st.matches[d := false], st.values[d := None]);
    var inner := PropTokens(n.props) + (TokensAll(n.children) + [End]);
    assert Tokens(n) == [Begin(n.name)] + inner;
    PickAllAppend(st, [Begin(n.name)], inner, c, name);
    assert PickAll(st, [Begin(n.name)], c, name) == Running(entered);
    assert Back(entered.(depth := st.depth), st);

    PickProps(entered, n.props, c, name);
    PickAllAppend(entered, PropTokens(n.props), TokensAll(n.children) + [End], c, name);
    var read := PickAll(entered, PropTokens(n.props), c, name).state;
    PickBody(read, st, n, buses, c, name);
  }

  /** From the end of a node's properties to its own end. */
  lemma {:induction false} PickBody(
    read: Picker, st: Picker, n: Node, buses: seq<Bus>, c: seq<byte>, name: seq<byte>)
    requires read.Valid() && read.depth == st.depth + 1 && st.depth + Height(n) <= MAX_DEPTH
    requires Back(read.(depth := st.depth), st)
    requires read.matches[read.depth] == Lists(LastValue(n.props, COMPATIBLE), c)
    requires read.values[read.depth] == if name == COMPATIBLE then None else LastValue(n.props, name)
    ensures Picks(PickAll(read, TokensAll(n.children) + [End], c, name), Preorder(n, buses), st, c, name)
    decreases n, 0
  {
    var body := TokensAll(n.children) + [End];
    var below := buses + [BusOf(n.props)];
    assert Preorder(n, buses)[0] == Visit(n.props, buses);
    assert Preorder(n, buses)[1..] == PreorderAll(n.children, below);
    assert read.Found() <==> RecordedOf(Visit(n.props, buses), c, name).Some?;
    if read.Found() {
      assert body[0].Begin? || body[0].End? by {
        FirstToken(n.children);
      }
    } else {
      PickNodes(read, n.children, below, c, name);
      PickAllAppend(read, TokensAll(n.children), [End], c, name);
      var r := PickAll(read, TokensAll(n.children), c, name);
      if r.Running? {
        PickEnd(r.state, read, st, c, name);
      }
    }
  }

  lemma PickEnd(last: Picker, read: Picker, st: Picker, c: seq<byte>, name: seq<byte>)
    requires Back(last, read) && !read.Found() && read.depth == st.depth + 1
    requires st.Valid() && Back(read.(depth := st.depth), st)
    ensures PickAll(last, [End], c, name) == Pick(last, End, c, name)
    ensures Pick(last, End, c, name).Running? && Back(Pick(last, End, c, name).state, st)
  {
    var d := st.depth + 1;
    assert last.matches[d] == last.matches[..d + 1][d] && read.matches[d] == read.matches[..d + 1][d];
    assert last.values[d] == last.values[..d + 1][d] && read.values[d] == read.values[..d + 1][d];
    assert last.matches[..d] == last.matches[..d + 1][..d] && read.matches[..d] == read.matches[..d + 1][..d];
    assert last.values[..d] == last.values[..d + 1][..d] && read.values[..d] == read.values[..d + 1][..d];
  }

  lemma BackKeepsFound(st: Picker, before: Picker)
    requires Back(st, before)
    ensures st.Found() == before.Found()
  {
    var d := st.depth;
    assert st.matches[d] == st.matches[..d + 1][d] && before.matches[d] == before.matches[..d + 1][d];
    assert st.values[d] == st.values[..d + 1][d] && before.values[d] == before.values[..d + 1][d];
  }

  lemma {:induction false} PickNodes(st: Picker, ns: seq<Node>, buses: seq<Bus>, c: seq<byte>, name: seq<byte>)
    requires st.Valid() && !st.Found() && st.depth + HeightAll(ns) <= MAX_DEPTH
    ensures Picks(PickAll(st, TokensAll(ns), c, name), PreorderAll(ns, buses), st, c, name)
    decreases ns
  {
    if ns != [] {
      PickNode(st, ns[0], buses, c, name);
      PickAllAppend(st, Tokens(ns[0]), TokensAll(ns[1..]), c, name);
      FirstRecordedAppend(Preorder(ns[0], buses), PreorderAll(ns[1..], buses), c, name);
      var r := PickAll(st, Tokens(ns[0]), c, name);
      if r.Running? {
        BackKeepsFound(r.state, st);
        PickNodes(r.state, ns[1..], buses, c, name);
      }
    }
  }

  /**
   The streaming lookup of a property is the search of the tree it is run on, for every name but "compatible";
   for that one it finds nothing, which is right exactly when no node lists `c`.
   */
  lemma CompatiblePropertyIsSearch(
    fdt: Fdt, pieces: seq<E.Piece>, tree: Node, c: seq<byte>, name: seq<byte>)
    requires E.Stores(fdt, pieces, tree) && Height(tree) <= MAX_DEPTH
    ensures name == COMPATIBLE ==> PropertyAnswer(fdt, c, name) == None
    ensures PropertyAnswer(fdt, c, name) == FirstProperty(Preorder(tree, []), c, name)
      <==> name != COMPATIBLE || NoneLists(Preorder(tree, []), c)
  {
    E.WalkTree(fdt, pieces, tree);
    PickNode(START_PICKER, tree, [], c, name);
    RecordedIsThere(Preorder(tree, []), c, name);
  }

  predicate NoneLists(visits: seq<Visit>, c: seq<byte>) {
    forall i | 0 <= i < |visits| :: !Lists(LastValue(visits[i].props, COMPATIBLE), c)
  }

  // A root that is compatible with "x".
  const LISTING := Node([], [Property(COMPATIBLE, Ascii("x") + [0])], [])

  lemma ListingStored() returns (fdt: Fdt, pieces: seq<E.Piece>)
    ensures E.Stores(fdt, pieces, LISTING)
  {
    var tokens := [Begin([]), Prop(COMPATIBLE, Ascii("x") + [0]), End];
    assert PropTokens(LISTING.props) == tokens[1..2];
    assert Tokens(LISTING) == tokens;
    assert E.Names(tokens[2..]) == E.Names([]) == [];
    assert tokens[1..][0] == tokens[1] && tokens[1..][1..] == tokens[2..];
    assert E.Names(tokens[1..]) == COMPATIBLE + [0];
    assert E.Names(tokens) == COMPATIBLE + [0];
    assert forall k | 0 <= k < |COMPATIBLE| :: COMPATIBLE[k] != 0;
    fdt, pieces := E.TreeHasEncoding(LISTING);
  }

  /** A stored tree whose root has the property asked for, and the lookup does not find it. */
  lemma OwnListNotFound() returns (fdt: Fdt, pieces: seq<E.Piece>)
    ensures E.Stores(fdt, pieces, LISTING)
    ensures FirstProperty(Preorder(LISTING, []), Ascii("x"), COMPATIBLE) == Some(Ascii("x") + [0])
    ensures PropertyAnswer(fdt, Ascii("x"), COMPATIBLE) == None
  {
    var v := Ascii("x") + [0];
    fdt, pieces := ListingStored();
    CompatiblePropertyIsSearch(fdt, pieces, LISTING, Ascii("x"), COMPATIBLE);
    assert Preorder(LISTING, []) == [Visit(LISTING.props, [])];
    assert Fields(v) == [Ascii("x"), []];
  }
}
