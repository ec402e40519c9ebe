/**
 * Nodes of a flattened devicetree: the property queries of a node, and the
 * depth-tracking walker behind the child-by-child (`Iter::next_child`) and
 * preorder traversals.
 *
 * A query or traversal step that can panic is modelled as a total function
 * returning `Run`: `Panicked` where the code panics (a token that does not
 * parse or a name that does not resolve, both unwrapped in `OpIter::next`; an
 * FDT_END met where an `expect` wants a token; FDT_END_NODE at depth 0, where
 * the `usize` depth would go below 0). The methods require `Returned`.
 */
module FdtNode {
  import opened Wrappers
  import opened Bytes
  import opened FdtOp
  import opened FdtBlob
  import opened FdtProperty

  /** A node: a position of the cursor at an FDT_BEGIN_NODE token. */
  datatype Node = Node(fdt: Fdt, remain: seq<byte>)

  predicate IsNode(node: Node)
  {
    && InBounds(node.fdt)
    && IsSuffix(node.remain, StructBlock(node.fdt))
    && CanStep(node.fdt, node.remain)
    && StepOp(node.fdt, node.remain).Some?
    && StepOp(node.fdt, node.remain).value.BeginNode?
  }

  /** The asserts of `Fdt::node_from_offset`: `offset` is inside the structure block at an FDT_BEGIN_NODE. */
  predicate StartsNode(fdt: Fdt, offset: nat)
    requires InBounds(fdt)
  {
    && fdt.structRange.start <= offset < fdt.structRange.end
    && CanStep(fdt, StructBlock(fdt)[offset - fdt.structRange.start..])
    && StepOp(fdt, StructBlock(fdt)[offset - fdt.structRange.start..]).Some?
    && StepOp(fdt, StructBlock(fdt)[offset - fdt.structRange.start..]).value.BeginNode?
  }

  /** `Fdt::node_from_offset`: the offset must lie in the structure block and start a node. */
  function NodeFromOffset(fdt: Fdt, offset: nat): (node: Node)
    requires InBounds(fdt) && StartsNode(fdt, offset)
    ensures IsNode(node) && node.fdt == fdt
    ensures Offset(node) == offset
  {
    Node(fdt, StructBlock(fdt)[offset - fdt.structRange.start..])
  }

  /** `Node::offset`: the byte offset of the node's FDT_BEGIN_NODE in the blob. */
  function Offset(node: Node): (r: nat)
    requires IsNode(node)
    ensures node.fdt.structRange.start <= r < node.fdt.structRange.end
    ensures node.fdt.raw[r..node.fdt.structRange.end] == node.remain
  {
    assert |node.remain| >= 4 by {
      assert Parse(node.remain).Parsed?;
    }
    TokenOffset(node.fdt, node.remain)
  }

  /** A node is found again from its offset. */
  lemma OffsetRoundTrip(node: Node)
    requires IsNode(node)
    ensures NodeFromOffset(node.fdt, Offset(node)) == node
  {
    var fdt := node.fdt;
    var o := Offset(node);
    assert StructBlock(fdt)[o - fdt.structRange.start..] == node.remain;
  }

  /** `Fdt::root`: the node at the header's `off_dt_struct`. */
  function Root(fdt: Fdt): (node: Node)
    requires InBounds(fdt) && HeaderFromBytes(fdt.raw).Some?
    requires StartsNode(fdt, HeaderFromBytes(fdt.raw).value.offDtStruct)
    ensures IsNode(node) && Offset(node) == HeaderFromBytes(fdt.raw).value.offDtStruct
  {
    NodeFromOffset(fdt, HeaderFromBytes(fdt.raw).value.offDtStruct)
  }

  /** The root of a decoded blob is the whole structure block, when that block starts with a node. */
  lemma RootOfDecoded(bytes: seq<byte>)
    requires Decode(bytes).Success?
    requires var fdt := Decode(bytes).value;
      InBounds(fdt) && fdt.structRange.start < fdt.structRange.end
      && CanStep(fdt, StructBlock(fdt)) && StepOp(fdt, StructBlock(fdt)).Some? && StepOp(fdt, StructBlock(fdt)).value.BeginNode?
    ensures Root(Decode(bytes).value).remain == StructBlock(Decode(bytes).value)
  {
    DecodeWellFormed(bytes);
    var fdt := Decode(bytes).value;
    assert StructBlock(fdt)[0..] == StructBlock(fdt);
  }

  /** `Node::name`: the name of the node's FDT_BEGIN_NODE, with its unit address. */
  function Name(node: Node): (r: seq<byte>)
    requires IsNode(node)
    ensures 0 !in r
  {
    ParsedNameHasNoNul(node.remain);
    StepOp(node.fdt, node.remain).value.name
  }

  /** What follows the token at `remain`. */
  function After(remain: seq<byte>): (rest: seq<byte>)
    requires Parse(remain).Parsed?
    ensures |rest| < |remain| && IsSuffix(rest, remain)
  {
    Parse(remain).rest
  }

  // ---------------------------------------------------------------------
  // Properties

  /** The `(name, value)` pairs of `PropertiesIter` from `remain`, up to the first non-property token. */
  function PropsFrom(fdt: Fdt, remain: seq<byte>): (r: Run<seq<(seq<byte>, seq<byte>)>>)
    requires InBounds(fdt)
    decreases |remain|
  {
    if !CanStep(fdt, remain) then Panicked
    else match StepOp(fdt, remain)
      case None => Panicked
      case Some(op) =>
        if !op.Prop? then Returned([])
        else match PropsFrom(fdt, After(remain))
          case Panicked => Panicked
          case Returned(ps) => Returned([(op.name, op.value)] + ps)
  }

  /** `Node::properties`: the properties right after the node's FDT_BEGIN_NODE, in order. */
  function Properties(node: Node): Run<seq<(seq<byte>, seq<byte>)>>
    requires IsNode(node)
  {
    PropsFrom(node.fdt, After(node.remain))
  }

  /** The value of the first pair named `name`. */
  function FirstNamed(ps: seq<(seq<byte>, seq<byte>)>, name: seq<byte>): (r: Option<seq<byte>>)
    ensures r.None? <==> forall i :: 0 <= i < |ps| ==> ps[i].0 != name
    ensures r.Some? ==> exists i :: 0 <= i < |ps| && ps[i] == (name, r.value) && forall j :: 0 <= j < i ==> ps[j].0 != name
  {
    if ps == [] then None
    else if ps[0].0 == name then
      assert ps[0] == (name, ps[0].1);
      Some(ps[0].1)
    else
      var r := FirstNamed(ps[1..], name);
      if r.Some? then
        var i :| 0 <= i < |ps[1..]| && ps[1..][i] == (name, r.value) && forall j :: 0 <= j < i ==> ps[1..][j].0 != name;
        assert ps[i + 1] == (name, r.value);
        r
      else r
  }

  /** The `find_map` of `Node::property` over `PropertiesIter`, which stops at the first match. */
  function FindProp(fdt: Fdt, remain: seq<byte>, name: seq<byte>): Run<Option<seq<byte>>>
    requires InBounds(fdt)
    decreases |remain|
  {
    if !CanStep(fdt, remain) then Panicked
    else match StepOp(fdt, remain)
      case None => Panicked
      case Some(op) =>
        if !op.Prop? then Returned(None)
        else if op.name == name then Returned(Some(op.value))
        else FindProp(fdt, After(remain), name)
  }

  /** `Node::property`. */
  function Property(node: Node, name: seq<byte>): Run<Option<seq<byte>>>
    requires IsNode(node)
  {
    FindProp(node.fdt, After(node.remain), name)
  }

  /** The lookup gives the first property of that name, whenever the whole list can be read. */
  lemma {:induction false} FindPropFirst(fdt: Fdt, remain: seq<byte>, name: seq<byte>)
    requires InBounds(fdt) && PropsFrom(fdt, remain).Returned?
    ensures FindProp(fdt, remain, name) == Returned(FirstNamed(PropsFrom(fdt, remain).value, name))
    decreases |remain|
  {
    var op := StepOp(fdt, remain).value;
    if op.Prop? && op.name != name {
      FindPropFirst(fdt, After(remain), name);
      var ps := PropsFrom(fdt, remain).value;
      assert ps[1..] == PropsFrom(fdt, After(remain)).value;
    }
  }

  lemma PropertyIsFirst(node: Node, name: seq<byte>)
    requires IsNode(node) && Properties(node).Returned?
    ensures Property(node, name) == Returned(FirstNamed(Properties(node).value, name))
  {
    FindPropFirst(node.fdt, After(node.remain), name);
  }

  const COMPATIBLE: seq<byte> := Ascii("compatible")
  const PHANDLE: seq<byte> := Ascii("phandle")
  const STATUS: seq<byte> := Ascii("status")
  const REG: seq<byte> := Ascii("reg")

  /** `Node::compatible`: the `compatible` strings; an absent property is an empty list. */
  function Compatible(node: Node): (r: Run<Option<seq<seq<byte>>>>)
    requires IsNode(node)
    ensures Property(node, COMPATIBLE) == Panicked ==> r == Panicked
    ensures Property(node, COMPATIBLE) == Returned(None) ==> r == Returned(Some([]))
    ensures forall v :: Property(node, COMPATIBLE) == Returned(Some(v)) ==>
      r == Returned(StringList(v)) && (r.value.Some? <==> v == [] || v[|v| - 1] == 0)
  {
    var p := Property(node, COMPATIBLE);
    if p.Panicked? then Panicked else Returned(StringList(p.value.GetOr([])))
  }

  /** `Node::compatible_with`: some `compatible` string equals `compatible`; `None` for a malformed list. */
  function CompatibleWith(node: Node, compatible: seq<byte>): (r: Run<Option<bool>>)
    requires IsNode(node)
    ensures Compatible(node) == Panicked ==> r == Panicked
    ensures Compatible(node) == Returned(None) ==> r == Returned(None)
    ensures forall strs :: Compatible(node) == Returned(Some(strs)) ==> r == Returned(Some(compatible in strs))
  {
    var c := Compatible(node);
    if c.Panicked? then Panicked
    else if c.value.None? then Returned(None)
    else Returned(Some(exists i :: 0 <= i < |c.value.value| && c.value.value[i] == compatible))
  }

  /** `Node::phandle`: the `phandle` property as a `<u32>`. */
  function Phandle(node: Node): (r: Run<Option<nat>>)
    requires IsNode(node)
    ensures Property(node, PHANDLE) == Panicked ==> r == Panicked
    ensures Property(node, PHANDLE) == Returned(None) ==> r == Returned(None)
    ensures forall v :: Property(node, PHANDLE) == Returned(Some(v)) && |v| != 4 ==> r == Returned(None)
    ensures forall v :: Property(node, PHANDLE) == Returned(Some(v)) && |v| == 4 ==> r == Returned(Some(BeValue(v)))
  {
    var p := Property(node, PHANDLE);
    if p.Panicked? then Panicked
    else if p.value.None? then Returned(None)
    else Returned(U32(p.value.value))
  }

  /** `Node::status`: `okay` when there is no `status` property. */
  function NodeStatus(node: Node): (r: Run<Option<Status>>)
    requires IsNode(node)
    ensures Property(node, STATUS) == Panicked ==> r == Panicked
    ensures Property(node, STATUS) == Returned(None) ==> r == Returned(Some(Okay))
    ensures forall v :: Property(node, STATUS) == Returned(Some(v)) ==> r == Returned(StatusFromBytes(v))
  {
    var p := Property(node, STATUS);
    if p.Panicked? then Panicked
    else if p.value.None? then Returned(Some(Okay))
    else Returned(StatusFromBytes(p.value.value))
  }

  /** The property name `#<name>-cells`. */
  function CellsName(name: seq<byte>): seq<byte>
  {
    Ascii("#") + name + Ascii("-cells")
  }

  /** `Node::cells`: the `#<name>-cells` property as a `<u32>`. */
  function Cells(node: Node, name: seq<byte>): (r: Run<Option<nat>>)
    requires IsNode(node)
    ensures Property(node, CellsName(name)) == Panicked ==> r == Panicked
    ensures Property(node, CellsName(name)) == Returned(None) ==> r == Returned(None)
    ensures forall v :: Property(node, CellsName(name)) == Returned(Some(v)) && |v| != 4 ==> r == Returned(None)
    ensures forall v :: Property(node, CellsName(name)) == Returned(Some(v)) && |v| == 4 ==> r == Returned(Some(BeValue(v)))
    ensures r.Returned? && r.value.Some? ==> r.value.value < U32_LIMIT
  {
    var p := Property(node, CellsName(name));
    if p.Panicked? then Panicked
    else if p.value.None? then Returned(None)
    else Returned(U32(p.value.value))
  }

  const ADDRESS: seq<byte> := Ascii("address")
  const SIZE: seq<byte> := Ascii("size")

  /** `Node::address_cells`: `#address-cells`, 2 when absent or not a `<u32>`. */
  function AddressCells(node: Node): (r: Run<nat>)
    requires IsNode(node)
    ensures Cells(node, ADDRESS) == Panicked ==> r == Panicked
    ensures Cells(node, ADDRESS) == Returned(None) ==> r == Returned(2)
    ensures forall c :: Cells(node, ADDRESS) == Returned(Some(c)) ==> r == Returned(c) && c < U32_LIMIT
  {
    var c := Cells(node, ADDRESS);
    if c.Panicked? then Panicked else Returned(c.value.GetOr(2))
  }

  /** `Node::size_cells`: `#size-cells`, 2 when absent or not a `<u32>` (the documentation says 1). */
  function SizeCells(node: Node): (r: Run<nat>)
    requires IsNode(node)
    ensures Cells(node, SIZE) == Panicked ==> r == Panicked
    ensures Cells(node, SIZE) == Returned(None) ==> r == Returned(2)
    ensures forall c :: Cells(node, SIZE) == Returned(Some(c)) ==> r == Returned(c) && c < U32_LIMIT
  {
    var c := Cells(node, SIZE);
    if c.Panicked? then Panicked else Returned(c.value.GetOr(2))
  }

  /** `Node::reg`: the `reg` property read with the parent's cell counts; an absent property is empty. */
  function Reg(node: Node, addressCells: nat, sizeCells: nat): (r: Run<Option<seq<(nat, nat)>>>)
    requires IsNode(node) && RegCells(addressCells, sizeCells)
    ensures Property(node, REG) == Panicked ==> r == Panicked
    ensures Property(node, REG) == Returned(None) ==> r == Returned(Some([]))
    ensures forall v :: Property(node, REG) == Returned(Some(v)) ==> r == Returned(RegList(v, addressCells, sizeCells))
  {
    var p := Property(node, REG);
    RegListOfEmpty(addressCells, sizeCells);
    if p.Panicked? then Panicked else Returned(RegList(p.value.GetOr([]), addressCells, sizeCells))
  }

  // ---------------------------------------------------------------------
  // The walker

  /** The depth after the walker yields `op`. */
  function DepthAfter(depth: nat, op: Option<Op>): int
  {
    match op
    case Some(BeginNode(_)) => depth + 1
    case Some(EndNode) => depth - 1
    case _ => depth
  }

  /**
   * `Walker::next` on values: the token, the remainder after it and the new
   * depth. FDT_END is yielded as `None` and consumes the rest.
   */
  function WalkStep(fdt: Fdt, remain: seq<byte>, depth: nat): (r: Run<(seq<byte>, nat, Option<Op>)>)
    requires InBounds(fdt)
    ensures r.Returned? <==> CanStep(fdt, remain) && !(StepOp(fdt, remain) == Some(Op.EndNode) && depth == 0)
    ensures r.Returned? ==> r.value.0 == After(remain) && r.value.2 == StepOp(fdt, remain)
    ensures r.Returned? ==> r.value.1 == DepthAfter(depth, r.value.2)
  {
    if !CanStep(fdt, remain) then Panicked
    else
      var op := StepOp(fdt, remain);
      if op == Some(Op.EndNode) && depth == 0 then Panicked
      else Returned((After(remain), DepthAfter(depth, op) as nat, op))
  }

  /** `Walker`: the shared cursor and the depth relative to where the walk began. */
  class Walker {
    const iter: OpIter
    var depth: nat

    ghost predicate Valid()
      reads this, iter
    {
      iter.Valid()
    }

    /** `Node::walker`: a walk from the node, at depth 0. */
    constructor (node: Node)
      requires IsNode(node)
      ensures Valid() && fresh(iter) && iter.fdt == node.fdt && iter.remain == node.remain && depth == 0
    {
      iter := new OpIter(node.fdt, node.remain);
      depth := 0;
    }

    /** `Walker::next`: one token; FDT_BEGIN_NODE adds 1 to the depth and FDT_END_NODE takes 1 off. */
    method Next() returns (op: Option<Op>)
      requires Valid() && WalkStep(iter.fdt, iter.remain, depth).Returned?
      modifies this, iter
      ensures Valid()
      ensures iter.remain == After(old(iter.remain)) && op == StepOp(iter.fdt, old(iter.remain))
      ensures depth == DepthAfter(old(depth), op)
    {
      op := iter.Next();
      match op {
        case Some(BeginNode(_)) => depth := depth + 1;
        case Some(EndNode) => depth := depth - 1;
        case _ =>
      }
    }

    /** `Walker::iter`: the traversal of the node at the walker's position. */
    method Iter() returns (it: Iter)
      requires Valid() && IsNode(Node(iter.fdt, iter.remain))
      ensures fresh(it) && it.walker == this && it.node == Node(iter.fdt, iter.remain) && it.depth == depth
    {
      it := new Iter(this, Node(iter.fdt, iter.remain), depth);
    }
  }

  // ---------------------------------------------------------------------
  // Preorder traversal

  /**
   * `PreorderIter::next` on values: walk until the depth returns to 0 (the
   * end, `None`) or an FDT_BEGIN_NODE is consumed (the node that starts
   * there). A walker that meets FDT_END panics (`expect`).
   */
  function PreorderNext(fdt: Fdt, remain: seq<byte>, depth: nat): (r: Run<(seq<byte>, nat, Option<Node>)>)
    requires InBounds(fdt)
    ensures r.Returned? && r.value.2.Some? ==> r.value.1 > 0 && r.value.2.value.fdt == fdt
    ensures r.Returned? && r.value.2.None? ==> r.value.1 == 0
    ensures r.Returned? ==> |r.value.0| < |remain| && IsSuffix(r.value.0, remain)
    ensures r.Returned? && r.value.2.Some? ==> IsSuffix(r.value.2.value.remain, remain)
    decreases |remain|
  {
    match WalkStep(fdt, remain, depth)
    case Panicked => Panicked
    case Returned((rest, d, op)) =>
      if op.None? then Panicked
      else if d == 0 then Returned((rest, d, None))
      else if op.value.BeginNode? then Returned((rest, d, Some(Node(fdt, remain))))
      else
        match PreorderNext(fdt, rest, d)
        case Panicked => Panicked
        case Returned(res) => Returned(res)
  }

  /** A node the preorder traversal yields really starts at an FDT_BEGIN_NODE. */
  lemma {:induction false} PreorderYieldsNodes(fdt: Fdt, remain: seq<byte>, depth: nat)
    requires InBounds(fdt) && IsSuffix(remain, StructBlock(fdt))
    requires PreorderNext(fdt, remain, depth).Returned? && PreorderNext(fdt, remain, depth).value.2.Some?
    ensures IsNode(PreorderNext(fdt, remain, depth).value.2.value)
    decreases |remain|
  {
    var (rest, d, op) := WalkStep(fdt, remain, depth).value;
    if !op.value.BeginNode? {
      PreorderYieldsNodes(fdt, rest, d);
    }
  }

  /** `PreorderIter`: the preorder traversal driven by a walker. */
  class PreorderIter {
    const walker: Walker

    /** `Node::preorder`: a walker from the node, at depth 0. */
    constructor (node: Node)
      requires IsNode(node)
      ensures walker.Valid() && fresh(walker) && fresh(walker.iter)
      ensures walker.iter.fdt == node.fdt && walker.iter.remain == node.remain && walker.depth == 0
    {
      walker := new Walker(node);
    }

    /** `PreorderIter::next`: the loop of `PreorderNext`. */
    method Next() returns (node: Option<Node>)
      requires walker.Valid() && PreorderNext(walker.iter.fdt, walker.iter.remain, walker.depth).Returned?
      modifies walker, walker.iter
      ensures walker.Valid()
      ensures (walker.iter.remain, walker.depth, node) ==
        PreorderNext(walker.iter.fdt, old(walker.iter.remain), old(walker.depth)).value
    {
      ghost var goal := PreorderNext(walker.iter.fdt, walker.iter.remain, walker.depth);
      while true
        invariant walker.Valid()
        invariant PreorderNext(walker.iter.fdt, walker.iter.remain, walker.depth) == goal
        decreases |walker.iter.remain|
      {
        var at := Node(walker.iter.fdt, walker.iter.remain);
        var op := walker.Next();
        if op.None? {
          assert false;
        }
        if walker.depth == 0 {
          return None;
        }
        if op.value.BeginNode? {
          return Some(at);
        }
      }
    }
  }

  // ---------------------------------------------------------------------
  // Child-by-child traversal

  /** The first loop of `next_child`: walk until the walker's depth is `target`. */
  function SkipTo(fdt: Fdt, remain: seq<byte>, depth: nat, target: nat): (r: Run<(seq<byte>, nat)>)
    requires InBounds(fdt)
    ensures r.Returned? ==> r.value.1 == target && IsSuffix(r.value.0, remain)
    decreases |remain|
  {
    if depth == target then Returned((remain, depth))
    else
      match WalkStep(fdt, remain, depth)
      case Panicked => Panicked
      case Returned((rest, d, _)) => SkipTo(fdt, rest, d, target)
  }

  /**
   * The second loop of `next_child`: skip properties; an FDT_BEGIN_NODE is
   * the next child, FDT_END_NODE the end of the parent.
   */
  function ChildScan(fdt: Fdt, remain: seq<byte>, depth: nat): (r: Run<(seq<byte>, nat, Option<Node>)>)
    requires InBounds(fdt)
    ensures r.Returned? && r.value.2.Some? ==> r.value.1 == depth + 1 && r.value.2.value.fdt == fdt
    ensures r.Returned? && r.value.2.None? ==> r.value.1 + 1 == depth
    ensures r.Returned? ==> IsSuffix(r.value.0, remain)
    ensures r.Returned? && r.value.2.Some? ==> IsSuffix(r.value.2.value.remain, remain)
    decreases |remain|
  {
    match WalkStep(fdt, remain, depth)
    case Panicked => Panicked
    case Returned((rest, d, op)) =>
      match op
      case None => Panicked
      case Some(BeginNode(_)) => Returned((rest, d, Some(Node(fdt, remain))))
      case Some(EndNode) => Returned((rest, d, None))
      case Some(Prop(_, _)) =>
        match ChildScan(fdt, rest, d)
        case Panicked => Panicked
        case Returned(res) => Returned(res)
  }

  /** `Iter::next_child` on values, for a traversal at depth `depth` over a walker at `walkerDepth`. */
  function NextChildStep(fdt: Fdt, remain: seq<byte>, walkerDepth: nat, depth: nat): (r: Run<(seq<byte>, nat, Option<Node>)>)
    requires InBounds(fdt)
    ensures r.Returned? && r.value.2.Some? ==> r.value.1 == depth + 2
    ensures r.Returned? && r.value.2.None? ==> r.value.1 == depth
  {
    match SkipTo(fdt, remain, walkerDepth, depth + 1)
    case Panicked => Panicked
    case Returned((at, d)) => ChildScan(fdt, at, d)
  }

  /** A child the scan yields really starts at an FDT_BEGIN_NODE. */
  lemma {:induction false} ChildScanYieldsNodes(fdt: Fdt, remain: seq<byte>, depth: nat)
    requires InBounds(fdt) && IsSuffix(remain, StructBlock(fdt))
    requires ChildScan(fdt, remain, depth).Returned? && ChildScan(fdt, remain, depth).value.2.Some?
    ensures IsNode(ChildScan(fdt, remain, depth).value.2.value)
    decreases |remain|
  {
    var (rest, d, op) := WalkStep(fdt, remain, depth).value;
    if !op.value.BeginNode? {
      ChildScanYieldsNodes(fdt, rest, d);
    }
  }

  /** `Iter`: a node under traversal, at depth `depth` of the shared walker. */
  class Iter {
    const walker: Walker
    const node: Node
    const depth: nat

    constructor (walker: Walker, node: Node, depth: nat)
      ensures this.walker == walker && this.node == node && this.depth == depth
    {
      this.walker := walker;
      this.node := node;
      this.depth := depth;
    }

    /**
     * `Iter::next_child`: finish any partly walked child, then move to the
     * next child, skipping properties; `None` at the node's FDT_END_NODE.
     */
    method NextChild() returns (child: Option<Iter>)
      requires walker.Valid() && NextChildStep(walker.iter.fdt, walker.iter.remain, walker.depth, depth).Returned?
      modifies walker, walker.iter
      ensures walker.Valid()
      ensures var r := NextChildStep(walker.iter.fdt, old(walker.iter.remain), old(walker.depth), depth).value;
        && walker.iter.remain == r.0 && walker.depth == r.1
        && (child.None? <==> r.2.None?)
        && (child.Some? ==> fresh(child.value) && child.value.walker == walker
                            && child.value.node == r.2.value && child.value.depth == depth + 1)
    {
      ghost var goal := NextChildStep(walker.iter.fdt, walker.iter.remain, walker.depth, depth);
      while walker.depth != depth + 1
        invariant walker.Valid()
        invariant SkipTo(walker.iter.fdt, walker.iter.remain, walker.depth, depth + 1).Returned?
        invariant NextChildStep(walker.iter.fdt, walker.iter.remain, walker.depth, depth) == goal
        decreases |walker.iter.remain|
      {
        var _ := walker.Next();
      }
      while true
        invariant walker.Valid() && walker.depth >= depth + 1
        invariant ChildScan(walker.iter.fdt, walker.iter.remain, walker.depth) == goal
        decreases |walker.iter.remain|
      {
        var at := Node(walker.iter.fdt, walker.iter.remain);
        var op := walker.Next();
        match op {
          case None =>
            assert false;
          case Some(BeginNode(_)) =>
            var it := new Iter(walker, at, walker.depth - 1);
            return Some(it);
          case Some(EndNode) =>
            return None;
          case Some(Prop(_, _)) =>
        }
      }
    }
  }
}
