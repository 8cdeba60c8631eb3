/**
 `find_compatible_reg`: one pass over the token stream with a depth counter and
 a stack of buses. The method is the loop of fdt.rs; `Finder` is its state, and
 the lemmas show that over the tokens of a tree the pass answers what the search
 of the tree answers.
 */
module FdtLookup {
  import opened Wrappers
  import opened Bytes
  import opened FdtReader
  import opened FdtTree

  // ------------------------------------------------------ find_compatible_reg

  /** The variables `find_compatible_reg` keeps between tokens. */
  datatype Finder = Finder(
    depth: nat,
    stack: seq<Bus>,
    matches: bool,
    disabled: bool,
    reg: Option<seq<byte>>,
    pending: bool)
  {
    ghost predicate Valid() {
      depth <= MAX_DEPTH && |stack| == MAX_DEPTH + 1
    }
  }

  function StartStack(n: nat): (r: seq<Bus>)
    ensures |r| == n && forall i | 0 <= i < n :: r[i] == DEFAULT_BUS
  {
    if n == 0 then [] else [DEFAULT_BUS] + StartStack(n - 1)
  }

  const START_FINDER := Finder(0, StartStack(MAX_DEPTH + 1), false, false, None, false)

  /** A pass either goes on with a state or has stopped with an answer. */
  datatype Pass<+S, +A> = Running(state: S) | Stopped(answer: A)

  /** The answer of the node being read: nothing for the root and above. */
  function Decide(st: Finder): Option<u64>
    requires st.Valid()
  {
    if !st.matches || st.disabled || st.depth < 2 then None else RegAddress(st.reg, st.stack[1..st.depth])
  }

  function Note(st: Finder, name: seq<byte>, value: seq<byte>, c: seq<byte>): (r: Finder)
    requires st.Valid()
    ensures r.Valid() && r.depth == st.depth && r.pending == st.pending
  {
    var bus := st.stack[st.depth];
    if name == ADDRESS_CELLS then
      match Be32(value, 0)
      case None => st
      case Some(cells) => SetBus(st, Bus(cells, bus.sizeCells, bus.ranges))
    else if name == SIZE_CELLS then
      match Be32(value, 0)
      case None => st
      case Some(cells) => SetBus(st, Bus(bus.addressCells, cells, bus.ranges))
    else if name == RANGES then SetBus(st, Bus(bus.addressCells, bus.sizeCells, Some(value)))
    else if name == REG then st.(reg := Some(value))
    else if name == STATUS then st.(disabled := !Enabled(Some(value)))
    else if name == COMPATIBLE then st.(matches := c in Fields(value))
    else st
  }

  function SetBus(st: Finder, bus: Bus): (r: Finder)
    requires st.Valid()
    ensures r.Valid()
  {
    st.(stack := st.stack[st.depth := bus])
  }

  function Find(st: Finder, token: Token, c: seq<byte>): (r: Pass<Finder, Option<u64>>)
    requires st.Valid()
    ensures r.Running? ==> r.state.Valid()
  {
    match token
    case Begin(_) =>
      if st.pending && Decide(st).Some? then Stopped(Decide(st))
      else if st.depth + 1 > MAX_DEPTH then Stopped(None)
      else Running(Finder(st.depth + 1, st.stack[st.depth + 1 := DEFAULT_BUS], false, false, None, true))
    case End =>
      if st.pending && Decide(st).Some? then Stopped(Decide(st))
      else Running(st.(pending := false, depth := if st.depth == 0 then 0 else st.depth - 1))
    case Prop(name, value) => Running(Note(st, name, value, c))
  }

  function FindAll(st: Finder, tokens: seq<Token>, c: seq<byte>): (r: Pass<Finder, Option<u64>>)
    requires st.Valid()
    ensures r.Running? ==> r.state.Valid()
    decreases |tokens|
  {
    if tokens == [] then Running(st)
    else match Find(st, tokens[0], c)
      case Stopped(a) => Stopped(a)
      case Running(st') => FindAll(st', tokens[1..], c)
  }

  /** What the pass over a whole structure block answers. */
  function Answer(fdt: Fdt, c: seq<byte>): Option<u64> {
    Result(FindAll(START_FINDER, TraceFrom(fdt, 0, 0).tokens, c))
  }

  function Result<S, A>(pass: Pass<S, Option<A>>): Option<A> {
    match pass
    case Stopped(a) => a
    case Running(_) => None
  }

  // ---- the loops

  /** One bus up: the loop over the windows of `ranges`. */
  method Climb(addr: u64, bus: Bus, parent: u32) returns (hit: Option<u64>)
    ensures hit == ThroughBus(addr, bus, parent)
  {
    if bus.ranges.None? {
      return None;
    }
    if bus.ranges.value == [] {
      return Some(addr);
    }
    if bus.addressCells + parent + bus.sizeCells == 0 {
      return None;
    }
    hit := FirstHit(bus.ranges.value, addr, bus.addressCells, parent, bus.sizeCells);
  }

  lemma WindowsStep(left: seq<byte>, addr: u64, child: u32, parent: u32, size: u32)
    requires child + parent + size > 0 && |left| >= 4 * (child + parent + size)
    ensures FirstWindow(Windows(left, child, parent, size), addr)
         == match ReadWindow(left[..4 * (child + parent + size)], child, parent, size)
            case None => None
            case Some(w) =>
              if !w.Contains(addr) then
                FirstWindow(Windows(left[4 * (child + parent + size)..], child, parent, size), addr)
              else if w.parent + (addr - w.child) <= U64_MAX then Some(w.parent + (addr - w.child))
              else None
  {
    var entry := 4 * (child + parent + size);
    assert Windows(left, child, parent, size)
        == [ReadWindow(left[..entry], child, parent, size)] + Windows(left[entry..], child, parent, size);
  }

  method FirstHit(ranges: seq<byte>, addr: u64, child: u32, parent: u32, size: u32) returns (hit: Option<u64>)
    requires child + parent + size > 0
    ensures hit == FirstWindow(Windows(ranges, child, parent, size), addr)
  {
    var left := ranges;
    var entry := 4 * (child + parent + size);
    while |left| >= entry
      invariant FirstWindow(Windows(left, child, parent, size), addr)
             == FirstWindow(Windows(ranges, child, parent, size), addr)
      decreases |left|
    {
      WindowsStep(left, addr, child, parent, size);
      var w := ReadWindow(left[..entry], child, parent, size);
      if w.None? {
        return None;
      }
      if addr >= w.value.child && addr - w.value.child < w.value.len {
        var sum := w.value.parent + (addr - w.value.child);
        return if sum <= U64_MAX then Some(sum) else None;
      }
      left := left[entry..];
    }
    return None;
  }

  method DecideNode(depth: nat, stack: array<Bus>, matches: bool, disabled: bool, reg: Option<seq<byte>>)
    returns (r: Option<u64>)
    requires depth <= MAX_DEPTH && stack.Length == MAX_DEPTH + 1
    ensures r == Decide(Finder(depth, stack[..], matches, disabled, reg, true))
  {
    if !matches || disabled || depth < 2 || reg.None? {
      return None;
    }
    var first := ReadCells(reg.value, stack[depth - 1].addressCells);
    if first.None? {
      return None;
    }
    r := ClimbAll(first.value, stack, depth);
  }

  lemma ToCpuStep(addr: u64, buses: seq<Bus>, level: nat)
    requires 2 <= level <= |buses|
    ensures ToCpu(addr, buses[..level])
         == match ThroughBus(addr, buses[level - 1], buses[level - 2].addressCells)
            case None => None
            case Some(up) => ToCpu(up, buses[..level - 1])
  {
    assert buses[..level][..level - 1] == buses[..level - 1];
  }

  method ClimbAll(first: u64, stack: array<Bus>, depth: nat) returns (r: Option<u64>)
    requires 2 <= depth <= MAX_DEPTH && stack.Length == MAX_DEPTH + 1
    ensures r == ToCpu(first, stack[..][1..depth])
  {
    hide ToCpu, ThroughBus;
    var addr := first;
    var level := depth - 1;
    ghost var buses := stack[..][1..depth];
    assert buses[..level] == buses;
    while level >= 2
      invariant 1 <= level < depth
      decreases level
      invariant ToCpu(addr, buses[..level]) == ToCpu(first, buses)
    {
      ToCpuStep(addr, buses, level);
      assert buses[level - 1] == stack[level] && buses[level - 2] == stack[level - 1];
      var hit := Climb(addr, stack[level], stack[level - 1].addressCells);
      if hit.None? {
        return None;
      }
      addr := hit.value;
      level := level - 1;
    }
    ToCpuOne(addr, buses[..level]);
    return Some(addr);
  }

  lemma ToCpuOne(addr: u64, buses: seq<Bus>)
    requires |buses| == 1
    ensures ToCpu(addr, buses) == Some(addr)
  {
  }

  /** The variables the visitor of `find_compatible_reg` captures. */
  class RegVisitor {
    const stack: array<Bus>
    var depth: nat
    var matches: bool
    var disabled: bool
    var reg: Option<seq<byte>>
    var pending: bool
    var result: Option<u64>

    ghost predicate Valid()
      reads this
    {
      depth <= MAX_DEPTH && stack.Length == MAX_DEPTH + 1
    }

    ghost function State(): (st: Finder)
      requires Valid()
      reads this, stack
      ensures st.Valid()
    {
      Finder(depth, stack[..], matches, disabled, reg, pending)
    }

    constructor ()
      ensures Valid() && fresh(stack) && State() == START_FINDER && result == None
    {
      stack := new Bus[MAX_DEPTH + 1](_ => DEFAULT_BUS);
      depth, matches, disabled, reg, pending, result := 0, false, false, None, false, None;
      new;
      assert stack[..] == START_FINDER.stack;
    }

    method Visit(token: Token, c: seq<byte>) returns (more: bool)
      requires Valid() && result.None?
      modifies this, stack
      ensures Valid()
      ensures match Find(old(State()), token, c)
              case Stopped(a) => !more && result == a
              case Running(st) => more && State() == st && result.None?
    {
      match token {
        case Begin(_) =>
          if pending {
            result := DecideNode(depth, stack, matches, disabled, reg);
            if result.Some? {
              return false;
            }
          }
          if depth + 1 > MAX_DEPTH {
            return false;
          }
          depth := depth + 1;
          stack[depth] := DEFAULT_BUS;
          matches, disabled, reg, pending := false, false, None, true;
        case End =>
          if pending {
            result := DecideNode(depth, stack, matches, disabled, reg);
            if result.Some? {
              return false;
            }
          }
          pending := false;
          depth := if depth == 0 then 0 else depth - 1;
        case Prop(name, value) =>
          Read(name, value, c);
      }
      return true;
    }

    method Read(name: seq<byte>, value: seq<byte>, c: seq<byte>)
      requires Valid()
      modifies this, stack
      ensures Valid() && State() == Note(old(State()), name, value, c) && result == old(result)
    {
      if name == ADDRESS_CELLS {
        if Be32(value, 0).Some? {
          stack[depth] := stack[depth].(addressCells := Be32(value, 0).value);
        }
      } else if name == SIZE_CELLS {
        if Be32(value, 0).Some? {
          stack[depth] := stack[depth].(sizeCells := Be32(value, 0).value);
        }
      } else if name == RANGES {
        stack[depth] := stack[depth].(ranges := Some(value));
      } else if name == REG {
        reg := Some(value);
      } else if name == STATUS {
        disabled := !(CStr(value) == Some(OKAY) || CStr(value) == Some(OK));
      } else if name == COMPATIBLE {
        matches := c in Fields(value);
      }
    }
  }

  /** The walk with that visitor: `open` is the walk's own depth, the visitor's never differs from it. */
  method FindCompatibleReg(fdt: Fdt, c: seq<byte>) returns (result: Option<u64>)
    ensures result == Answer(fdt, c)
  {
    var visitor := new RegVisitor();
    var pos, open := 0, 0;
    while true
      invariant visitor.Valid() && fresh(visitor) && fresh(visitor.stack) && visitor.result.None?
      invariant open == visitor.depth && pos % 4 == 0
      invariant Result(FindAll(visitor.State(), TraceFrom(fdt, pos, open).tokens, c)) == Answer(fdt, c)
      decreases |fdt.structs| + 4 - pos
    {
      match WalkStep(fdt, pos, open)
      case Malformed => return None;
      case Finish => return visitor.result;
      case Skip(pos') => pos := pos';
      case Deliver(token, pos', open') =>
        assert TraceFrom(fdt, pos, open).tokens[1..] == TraceFrom(fdt, pos', open').tokens;
        pos, open := pos', open';
        var more := visitor.Visit(token, c);
        if !more {
          return visitor.result;
        }
    }
  }

  // ---- the pass over one tree

  lemma {:induction false} FindAllAppend(st: Finder, a: seq<Token>, b: seq<Token>, c: seq<byte>)
    requires st.Valid()
    ensures FindAll(st, a + b, c)
         == match FindAll(st, a, c) case Stopped(r) => Stopped(r) case Running(st') => FindAll(st', b, c)
    decreases |a|
  {
    if a == [] {
      assert a + b == b;
    } else {
      assert (a + b)[0] == a[0] && (a + b)[1..] == a[1..] + b;
      match Find(st, a[0], c)
      case Stopped(_) =>
      case Running(st') => FindAllAppend(st', a[1..], b, c);
    }
  }

  /** The state once the properties `props` of the node just entered have been read. */
  ghost predicate HasRead(st: Finder, entered: Finder, props: seq<Property>, c: seq<byte>) {
    st.Valid() && entered.Valid()
    && st.depth == entered.depth
    && st.stack == entered.stack[entered.depth := BusOf(props)]
    && st.pending
    && st.matches == Lists(LastValue(props, COMPATIBLE), c)
    && st.disabled == !Enabled(LastValue(props, STATUS))
    && st.reg == LastValue(props, REG)
  }

  lemma {:induction false} FindProps(entered: Finder, props: seq<Property>, c: seq<byte>)
    requires HasRead(entered, entered, [], c)
    ensures FindAll(entered, PropTokens(props), c).Running?
    ensures HasRead(FindAll(entered, PropTokens(props), c).state, entered, props, c)
  {
    if props == [] {
      assert PropTokens(props) == [];
    } else {
      var front, last := props[..|props| - 1], props[|props| - 1];
      FindProps(entered, front, c);
      var token := Prop(last.name, last.value);
      assert PropTokens(props) == PropTokens(front) + [token];
      FindAllAppend(entered, PropTokens(front), [token], c);
      NoteIsLast(FindAll(entered, PropTokens(front), c).state, entered, front, last, c);
    }
  }

  lemma NoteIsLast(st: Finder, entered: Finder, props: seq<Property>, last: Property, c: seq<byte>)
    requires HasRead(st, entered, props, c)
    ensures HasRead(Note(st, last.name, last.value, c), entered, props + [last], c)
  {
    assert (props + [last])[..|props|] == props;
    assert STATUS[0] != RANGES[0];
  }

  /** Between nodes: the open nodes' buses are on the stack and none of them is still to answer. */
  ghost predicate At(st: Finder, buses: seq<Bus>) {
    st.Valid() && st.depth == |buses| && st.stack[1..st.depth + 1] == buses
    && (st.pending ==> Decide(st).None?)
  }

  /** The pass `r` over some nodes below `buses` answers what the search of those nodes answers. */
  ghost predicate Answers(r: Pass<Finder, Option<u64>>, visits: seq<Visit>, buses: seq<Bus>, c: seq<byte>) {
    match FirstAddress(visits, c)
    case Some(a) => r == Stopped(Some(a))
    case None => r.Running? && At(r.state, buses)
  }

  /** After its own properties a node's answer is the one `Decide` gives. */
  lemma DecideIsAddress(st: Finder, entered: Finder, props: seq<Property>, buses: seq<Bus>, c: seq<byte>)
    requires HasRead(st, entered, props, c)
    requires entered.depth == |buses| + 1 && entered.stack[1..entered.depth] == buses
    ensures Decide(st) == Address(Visit(props, buses), c)
    ensures st.stack[1..st.depth] == buses
    ensures Decide(st).None? ==> At(st, buses + [BusOf(props)])
  {
    assert st.stack[1..st.depth + 1] == buses + [BusOf(props)];
  }

  lemma {:induction false} FindNode(st: Finder, n: Node, buses: seq<Bus>, c: seq<byte>)
    requires At(st, buses) && |buses| + Height(n) <= MAX_DEPTH
    ensures Answers(FindAll(st, Tokens(n), c), Preorder(n, buses), buses, c)
    decreases n, 1
  {
    var entered := Finder(st.depth + 1, st.stack[st.depth + 1 := DEFAULT_BUS], false, false, None, true);
    var inner := PropTokens(n.props) + (TokensAll(n.children) + [End]);
    assert Tokens(n) == [Begin(n.name)] + inner;
    FindAllAppend(st, [Begin(n.name)], inner, c);
    assert FindAll(st, [Begin(n.name)], c) == Running(entered);
    assert entered.stack[1..entered.depth] == buses;

    FindProps(entered, n.props, c);
    FindAllAppend(entered, PropTokens(n.props), TokensAll(n.children) + [End], c);
    var read := FindAll(entered, PropTokens(n.props), c).state;
    DecideIsAddress(read, entered, n.props, buses, c);
    FindBody(read, n, buses, c);
  }

  /** From the end of a node's properties to its own end. */
  lemma {:induction false} FindBody(read: Finder, n: Node, buses: seq<Bus>, c: seq<byte>)
    requires read.Valid() && read.pending && read.depth == |buses| + 1
    requires |buses| + Height(n) <= MAX_DEPTH
    requires Decide(read) == Address(Visit(n.props, buses), c)
    requires Decide(read).None? ==> At(read, buses + [BusOf(n.props)])
    ensures Answers(FindAll(read, TokensAll(n.children) + [End], c), Preorder(n, buses), buses, c)
    decreases n, 0
  {
    var body := TokensAll(n.children) + [End];
    var below := buses + [BusOf(n.props)];
    var visits := PreorderAll(n.children, below);
    assert Preorder(n, buses)[0] == Visit(n.props, buses) && Preorder(n, buses)[1..] == visits;
    if Decide(read).Some? {
      assert body[0].Begin? || body[0].End? by {
        FirstToken(n.children);
      }
    } else {
      FindNodes(read, n.children, below, c);
      FindAllAppend(read, TokensAll(n.children), [End], c);
      var r := FindAll(read, TokensAll(n.children), c);
      if r.Running? {
        assert FindAll(r.state, [End], c) == Find(r.state, End, c);
        assert r.state.stack[1..|below| + 1] == below;
        assert r.state.stack[1..|buses| + 1] == r.state.stack[1..|below| + 1][..|buses|];
        assert below[..|buses|] == buses;
      }
    }
  }

  lemma FirstToken(ns: seq<Node>)
    ensures ns == [] ==> TokensAll(ns) == []
    ensures ns != [] ==> TokensAll(ns) != [] && TokensAll(ns)[0] == Begin(ns[0].name)
  {
  }

  lemma {:induction false} FindNodes(st: Finder, ns: seq<Node>, buses: seq<Bus>, c: seq<byte>)
    requires At(st, buses) && |buses| + HeightAll(ns) <= MAX_DEPTH
    ensures Answers(FindAll(st, TokensAll(ns), c), PreorderAll(ns, buses), buses, c)
    decreases ns
  {
    if ns != [] {
      FindNode(st, ns[0], buses, c);
      FindAllAppend(st, Tokens(ns[0]), TokensAll(ns[1..]), c);
      FirstAddressAppend(Preorder(ns[0], buses), PreorderAll(ns[1..], buses), c);
      var r := FindAll(st, Tokens(ns[0]), c);
      if r.Running? {
        FindNodes(r.state, ns[1..], buses, c);
      }
    }
  }
}
