/**
 What a device tree means, independently of how it is stored: nodes with
 properties and children, the address space each node gives its children
 (Devicetree Specification v0.4, sections 2.3.5, 2.3.6 and 2.3.8), and the two
 lookups as searches of the tree in pre-order.
 */
module FdtTree {
  import opened Wrappers
  import opened Bytes
  import opened FdtReader

  datatype Property = Property(name: seq<byte>, value: seq<byte>)
  datatype Node = Node(name: seq<byte>, props: seq<Property>, children: seq<Node>)

  /** Cell counts of addresses and sizes below a node, and the value of its `ranges` if it has one. */
  datatype Bus = Bus(addressCells: u32, sizeCells: u32, ranges: Option<seq<byte>>)

  const DEFAULT_BUS := Bus(2, 1, None)

  const ADDRESS_CELLS := Ascii("#address-cells")
  const SIZE_CELLS := Ascii("#size-cells")
  const RANGES := Ascii("ranges")
  const REG := Ascii("reg")
  const STATUS := Ascii("status")
  const COMPATIBLE := Ascii("compatible")
  const OKAY := Ascii("okay")
  const OK := Ascii("ok")

  // -------------------------------------------------------------- properties

  /** The value of the last property called `name`. */
  function LastValue(props: seq<Property>, name: seq<byte>): Option<seq<byte>> {
    if props == [] then None
    else
      var p := props[|props| - 1];
      if p.name == name then Some(p.value) else LastValue(props[..|props| - 1], name)
  }

  /** The last property called `name` that holds a whole cell, read as one. */
  function LastCell(props: seq<Property>, name: seq<byte>, absent: u32): u32 {
    if props == [] then absent
    else
      var p := props[|props| - 1];
      if p.name == name && Be32(p.value, 0).Some? then Be32(p.value, 0).value
      else LastCell(props[..|props| - 1], name, absent)
  }

  /** The NUL-separated fields of a string list. */
  function Fields(v: seq<byte>): seq<seq<byte>> {
    match CStr(v)
    case None => [v]
    case Some(field) => [field] + Fields(v[|field| + 1..])
  }

  predicate Lists(value: Option<seq<byte>>, compatible: seq<byte>) {
    value.Some? && compatible in Fields(value.value)
  }

  predicate Enabled(status: Option<seq<byte>>) {
    status.None? || CStr(status.value) == Some(OKAY) || CStr(status.value) == Some(OK)
  }

  function BusOf(props: seq<Property>): Bus {
    Bus(LastCell(props, ADDRESS_CELLS, 2), LastCell(props, SIZE_CELLS, 1), LastValue(props, RANGES))
  }

  // ------------------------------------------------------------- translation

  /** One entry of `ranges`: `len` addresses from `child` on appear at `parent` on. */
  datatype Window = Window(child: u64, parent: u64, len: u64) {
    predicate Contains(addr: u64) {
      child <= addr < child + len
    }
  }

  /** The entry read with the cell counts of the three fields; each must be one or two. */
  function ReadWindow(r: seq<byte>, child: u32, parent: u32, size: u32): Option<Window>
    requires |r| == 4 * (child + parent + size)
  {
    var c := ReadCells(r, child);
    var p := ReadCells(r[4 * child..], parent);
    var len := ReadCells(r[4 * child + 4 * parent..], size);
    if c.None? || p.None? || len.None? then None else Some(Window(c.value, p.value, len.value))
  }

  /** The first window that contains `addr`, applied to it. */
  function FirstWindow(windows: seq<Option<Window>>, addr: u64): Option<u64> {
    if windows == [] || windows[0].None? then None
    else
      var w := windows[0].value;
      if w.Contains(addr) then
        if w.parent + (addr - w.child) <= U64_MAX then Some(w.parent + (addr - w.child)) else None
      else FirstWindow(windows[1..], addr)
  }

  /** The windows of a `ranges` property, with the cell counts of its three fields. */
  function Windows(ranges: seq<byte>, child: u32, parent: u32, size: u32): (r: seq<Option<Window>>)
    requires child + parent + size > 0
  {
    var entry := 4 * (child + parent + size);
    if |ranges| < entry then []
    else [ReadWindow(ranges[..entry], child, parent, size)] + Windows(ranges[entry..], child, parent, size)
  }

  /** An address below `bus`, seen from the bus above it, whose addresses have `parent` cells. */
  function ThroughBus(addr: u64, bus: Bus, parent: u32): Option<u64> {
    if bus.ranges.None? then None
    else if bus.ranges.value == [] then Some(addr)
    else if bus.addressCells + parent + bus.sizeCells == 0 then None
    else FirstWindow(Windows(bus.ranges.value, bus.addressCells, parent, bus.sizeCells), addr)
  }

  /** A child address of the innermost of `buses` (the root's first) as the CPU sees it. */
  function ToCpu(addr: u64, buses: seq<Bus>): Option<u64>
    requires |buses| >= 1
    decreases |buses|
  {
    if |buses| == 1 then Some(addr)
    else
      var up := ThroughBus(addr, buses[|buses| - 1], buses[|buses| - 2].addressCells);
      if up.None? then None else ToCpu(up.value, buses[..|buses| - 1])
  }

  /** The first `reg` address of a node with these ancestors, as the CPU sees it. */
  function RegAddress(reg: Option<seq<byte>>, buses: seq<Bus>): Option<u64> {
    if reg.None? || buses == [] then None
    else
      var addr := ReadCells(reg.value, buses[|buses| - 1].addressCells);
      if addr.None? then None else ToCpu(addr.value, buses)
  }

  // ------------------------------------------------------------------ search

  /** A node met in pre-order, with the buses above it, the root's first. */
  datatype Visit = Visit(props: seq<Property>, buses: seq<Bus>)

  function Preorder(n: Node, buses: seq<Bus>): seq<Visit>
    decreases n, 1
  {
    [Visit(n.props, buses)] + PreorderAll(n.children, buses + [BusOf(n.props)])
  }

  function PreorderAll(ns: seq<Node>, buses: seq<Bus>): seq<Visit>
    decreases ns, 0
  {
    if ns == [] then [] else Preorder(ns[0], buses) + PreorderAll(ns[1..], buses)
  }

  /** What the visited node answers for an enabled device compatible with `c`: an address, or nothing. */
  function Address(v: Visit, c: seq<byte>): Option<u64> {
    if Lists(LastValue(v.props, COMPATIBLE), c) && Enabled(LastValue(v.props, STATUS))
    then RegAddress(LastValue(v.props, REG), v.buses)
    else None
  }

  function FirstAddress(visits: seq<Visit>, c: seq<byte>): Option<u64> {
    if visits == [] then None
    else if Address(visits[0], c).Some? then Address(visits[0], c)
    else FirstAddress(visits[1..], c)
  }

  /** What the visited node answers for property `name` of a device compatible with `c`. */
  function PropertyOf(v: Visit, c: seq<byte>, name: seq<byte>): Option<seq<byte>> {
    if Lists(LastValue(v.props, COMPATIBLE), c) then LastValue(v.props, name) else None
  }

  function FirstProperty(visits: seq<Visit>, c: seq<byte>, name: seq<byte>): Option<seq<byte>> {
    if visits == [] then None
    else if PropertyOf(visits[0], c, name).Some? then PropertyOf(visits[0], c, name)
    else FirstProperty(visits[1..], c, name)
  }

  function Height(n: Node): (h: nat)
    ensures h >= 1
    decreases n, 1
  {
    1 + HeightAll(n.children)
  }

  function HeightAll(ns: seq<Node>): nat
    decreases ns, 0
  {
    if ns == [] then 0
    else
      var first := Height(ns[0]);
      var rest := HeightAll(ns[1..]);
      if first > rest then first else rest
  }

  // --------------------------------------------------------------- as tokens

  function PropTokens(props: seq<Property>): (r: seq<Token>)
    ensures |r| == |props|
  {
    seq(|props|, i requires 0 <= i < |props| => Prop(props[i].name, props[i].value))
  }

  function Tokens(n: Node): seq<Token>
    decreases n, 1
  {
    [Begin(n.name)] + PropTokens(n.props) + TokensAll(n.children) + [End]
  }

  function TokensAll(ns: seq<Node>): seq<Token>
    decreases ns, 0
  {
    if ns == [] then [] else Tokens(ns[0]) + TokensAll(ns[1..])
  }

  // -------------------------------------------------- what the searches mean

  lemma {:induction false} FirstAddressAppend(a: seq<Visit>, b: seq<Visit>, c: seq<byte>)
    ensures FirstAddress(a + b, c) == if FirstAddress(a, c).Some? then FirstAddress(a, c) else FirstAddress(b, c)
  {
    if a == [] {
      assert a + b == b;
    } else {
      assert (a + b)[0] == a[0] && (a + b)[1..] == a[1..] + b;
      FirstAddressAppend(a[1..], b, c);
    }
  }

  /** Node `i` of the visits answers `a`, and no earlier one answers anything. */
  predicate EarliestAt(visits: seq<Visit>, c: seq<byte>, a: u64, i: nat) {
    i < |visits| && Address(visits[i], c) == Some(a) && forall j | 0 <= j < i :: Address(visits[j], c) == None
  }

  lemma {:induction false} FirstAddressIsEarliest(visits: seq<Visit>, c: seq<byte>, a: u64)
    ensures FirstAddress(visits, c) == Some(a) <==> exists i: nat :: EarliestAt(visits, c, a, i)
  {
    if visits != [] {
      var rest := visits[1..];
      FirstAddressIsEarliest(rest, c, a);
      if Address(visits[0], c) == Some(a) {
        assert EarliestAt(visits, c, a, 0);
      }
      forall i: nat | EarliestAt(visits, c, a, i) && i > 0
        ensures EarliestAt(rest, c, a, i - 1)
      {
        assert forall j | 0 <= j < i - 1 :: rest[j] == visits[j + 1];
      }
      forall i: nat | EarliestAt(rest, c, a, i) && Address(visits[0], c).None?
        ensures EarliestAt(visits, c, a, i + 1)
      {
        assert forall j | 0 < j < i + 1 :: visits[j] == rest[j - 1];
      }
    }
  }

  /** Node `i` of the visits has the property with value `v`, and no earlier one has it. */
  predicate PropertyAt(visits: seq<Visit>, c: seq<byte>, name: seq<byte>, v: seq<byte>, i: nat) {
    i < |visits| && PropertyOf(visits[i], c, name) == Some(v)
    && forall j | 0 <= j < i :: PropertyOf(visits[j], c, name) == None
  }

  lemma {:induction false} FirstPropertyIsEarliest(visits: seq<Visit>, c: seq<byte>, name: seq<byte>, v: seq<byte>)
    ensures FirstProperty(visits, c, name) == Some(v) <==> exists i: nat :: PropertyAt(visits, c, name, v, i)
  {
    if visits != [] {
      var rest := visits[1..];
      FirstPropertyIsEarliest(rest, c, name, v);
      if PropertyOf(visits[0], c, name) == Some(v) {
        assert PropertyAt(visits, c, name, v, 0);
      }
      forall i: nat | PropertyAt(visits, c, name, v, i) && i > 0
        ensures PropertyAt(rest, c, name, v, i - 1)
      {
        assert forall j | 0 <= j < i - 1 :: rest[j] == visits[j + 1];
      }
      forall i: nat | PropertyAt(rest, c, name, v, i) && PropertyOf(visits[0], c, name).None?
        ensures PropertyAt(visits, c, name, v, i + 1)
      {
        assert forall j | 0 < j < i + 1 :: visits[j] == rest[j - 1];
      }
    }
  }

  /** Window `k` maps `addr` to `a`; the windows before it are readable and do not contain `addr`. */
  predicate MapsAt(windows: seq<Option<Window>>, addr: u64, a: u64, k: nat) {
    k < |windows|
    && (forall j | 0 <= j <= k :: windows[j].Some? && (windows[j].value.Contains(addr) <==> j == k))
    && a == windows[k].value.parent + (addr - windows[k].value.child)
  }

  /** The first containing window wins, an unreadable one before it and an overflow both fail. */
  lemma {:induction false} FirstWindowIsEarliest(windows: seq<Option<Window>>, addr: u64, a: u64)
    ensures FirstWindow(windows, addr) == Some(a) <==> exists k: nat :: MapsAt(windows, addr, a, k)
  {
    if windows != [] && windows[0].Some? {
      var rest := windows[1..];
      FirstWindowIsEarliest(rest, addr, a);
      if windows[0].value.Contains(addr) {
        if FirstWindow(windows, addr) == Some(a) {
          assert MapsAt(windows, addr, a, 0);
        }
      } else {
        forall k: nat | MapsAt(windows, addr, a, k)
          ensures k > 0 && MapsAt(rest, addr, a, k - 1)
        {
          assert forall j | 0 <= j <= k - 1 :: rest[j] == windows[j + 1];
        }
        forall k: nat | MapsAt(rest, addr, a, k)
          ensures MapsAt(windows, addr, a, k + 1)
        {
          assert forall j | 0 < j <= k + 1 :: windows[j] == rest[j - 1];
        }
      }
    }
  }

  /** `c` stands between two NULs (or an end) of `v`, from `i` to `j`. */
  predicate FieldAt(v: seq<byte>, c: seq<byte>, i: nat, j: nat) {
    i <= j <= |v| && v[i..j] == c && 0 !in c && (i == 0 || v[i - 1] == 0) && (j == |v| || v[j] == 0)
  }

  /** A field of `v` is its first one, or one of what follows the first NUL. */
  lemma FieldSplit(v: seq<byte>, c: seq<byte>, i: nat, j: nat, field: seq<byte>)
    requires FieldAt(v, c, i, j) && CStr(v) == Some(field)
    ensures c == field || (i >= |field| + 1 && FieldAt(v[|field| + 1..], c, i - |field| - 1, j - |field| - 1))
  {
    hide CStr;
    var n := |field| + 1;
    FieldEnds(v, field);
    assert forall k | i <= k < j :: c[k - i] == v[k] && v[k] != 0;
    if i < n {
      assert i == 0;
      assert j == |field|;
    } else {
      assert v[n..][i - n..j - n] == v[i..j];
      assert i > n ==> v[n..][i - n - 1] == v[i - 1];
    }
  }

  lemma FieldEnds(v: seq<byte>, field: seq<byte>)
    requires CStr(v) == Some(field)
    ensures |field| < |v| && v[|field|] == 0 && field == v[..|field|] && forall k | 0 <= k < |field| :: v[k] != 0
  {
    assert forall k | 0 <= k < |field| :: field[k] == v[k] && v[k] != 0;
  }

  lemma FieldShift(v: seq<byte>, n: nat, c: seq<byte>, i: nat, j: nat)
    requires 0 < n <= |v| && v[n - 1] == 0 && FieldAt(v[n..], c, i, j)
    ensures FieldAt(v, c, n + i, n + j)
  {
    assert v[n + i..n + j] == v[n..][i..j];
    assert i > 0 ==> v[n + i - 1] == v[n..][i - 1];
  }

  /** A field list is its first field and the list of what follows; that field is a field. */
  lemma FieldsStep(v: seq<byte>)
    ensures CStr(v).None? ==> Fields(v) == [v] && FieldAt(v, v, 0, |v|)
    ensures CStr(v).Some? ==> (var field := CStr(v).value;
      |field| < |v| && v[|field|] == 0 && Fields(v) == [field] + Fields(v[|field| + 1..]) && FieldAt(v, field, 0, |field|))
  {
  }

  lemma {:induction false} FieldsSound(v: seq<byte>, c: seq<byte>) returns (i: nat, j: nat)
    requires c in Fields(v)
    ensures FieldAt(v, c, i, j)
  {
    hide FieldAt, CStr, Fields;
    FieldsStep(v);
    match CStr(v)
    case None =>
      i, j := 0, |v|;
    case Some(field) =>
      if c == field {
        i, j := 0, |field|;
      } else {
        var n := |field| + 1;
        i, j := FieldsSound(v[n..], c);
        FieldShift(v, n, c, i, j);
        i, j := n + i, n + j;
      }
  }

  lemma {:induction false} FieldsComplete(v: seq<byte>, c: seq<byte>, i: nat, j: nat)
    requires FieldAt(v, c, i, j)
    ensures c in Fields(v)
  {
    match CStr(v)
    case None =>
      assert v[i..j] == v;
    case Some(field) =>
      FieldSplit(v, c, i, j, field);
      if c != field {
        var n := |field| + 1;
        FieldsComplete(v[n..], c, i - n, j - n);
      }
  }

  /** A string list holds `c` exactly when `c` is one of its whole NUL-separated entries. */
  lemma FieldsExact(v: seq<byte>, c: seq<byte>)
    ensures c in Fields(v) <==> exists i: nat, j: nat :: FieldAt(v, c, i, j)
  {
    if c in Fields(v) {
      var i, j := FieldsSound(v, c);
    }
    forall i: nat, j: nat | FieldAt(v, c, i, j)
      ensures c in Fields(v)
    {
      FieldsComplete(v, c, i, j);
    }
  }
}
