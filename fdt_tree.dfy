/**
 * The traversals of a node against the tree it encodes.
 *
 * A `Tree` is a node of the devicetree as a value: its name, its properties
 * (name offset in the strings block and value, in document order) and its
 * children. `EncodeTree` writes it as FDT tokens. The lemmas below run the
 * traversal functions of `FdtNode` over such an encoding and show what they
 * yield: the node's own properties, its direct children in document order,
 * and every node of the subtree once, in preorder.
 */
module FdtTree {
  import opened Wrappers
  import opened Bytes
  import opened FdtOp
  import opened FdtBlob
  import opened FdtNode

  datatype Tree = Tree(name: seq<byte>, props: seq<(nat, seq<byte>)>, children: seq<Tree>)

  // ---------------------------------------------------------------------
  // Encoding

  function EncodeProps(ps: seq<(nat, seq<byte>)>): (r: seq<byte>)
    decreases |ps|
  {
    if ps == [] then [] else EncodeOp(OpRaw.Prop(ps[0].0, ps[0].1)) + EncodeProps(ps[1..])
  }

  /** A node: FDT_BEGIN_NODE with its name, then its body. */
  function EncodeTree(t: Tree): seq<byte>
    decreases t, 1
  {
    EncodeOp(OpRaw.BeginNode(t.name)) + Body(t)
  }

  /** Everything after the FDT_BEGIN_NODE: properties, children, FDT_END_NODE. */
  function Body(t: Tree): seq<byte>
    decreases t, 0
  {
    EncodeProps(t.props) + EncodeForest(t.children) + EncodeOp(OpRaw.EndNode)
  }

  function EncodeForest(ts: seq<Tree>): seq<byte>
    decreases ts
  {
    if ts == [] then [] else EncodeTree(ts[0]) + EncodeForest(ts[1..])
  }

  // ---------------------------------------------------------------------
  // Trees the format can hold

  /** A property whose fields fit their 32-bit words and whose name resolves. */
  predicate PropOk(strings: seq<byte>, p: (nat, seq<byte>))
  {
    p.0 < U32_LIMIT && |p.1| < U32_LIMIT && NameResolvable(strings, p.0)
  }

  predicate PropsOk(strings: seq<byte>, ps: seq<(nat, seq<byte>)>)
  {
    forall i :: 0 <= i < |ps| ==> PropOk(strings, ps[i])
  }

  predicate TreeOk(strings: seq<byte>, t: Tree)
    decreases t
  {
    && 0 !in t.name
    && PropsOk(strings, t.props)
    && forall i :: 0 <= i < |t.children| ==> TreeOk(strings, t.children[i])
  }

  predicate ForestOk(strings: seq<byte>, ts: seq<Tree>)
  {
    forall i :: 0 <= i < |ts| ==> TreeOk(strings, ts[i])
  }

  /** The properties as `PropertiesIter` yields them: each name looked up in the strings block. */
  function ResolveProps(strings: seq<byte>, ps: seq<(nat, seq<byte>)>): (r: seq<(seq<byte>, seq<byte>)>)
    requires PropsOk(strings, ps)
    ensures |r| == |ps|
    ensures forall i :: 0 <= i < |ps| ==>
      r[i].1 == ps[i].1 && 0 !in r[i].0 && r[i].0 + [0] <= strings[ps[i].0..]
    decreases |ps|
  {
    if ps == [] then []
    else
      assert PropOk(strings, ps[0]);
      var op := FromRaw(OpRaw.Prop(ps[0].0, ps[0].1), strings);
      [(op.name, op.value)] + ResolveProps(strings, ps[1..])
  }

  // ---------------------------------------------------------------------
  // Regrouping the encoding

  lemma {:induction false} TreeSplit(t: Tree, rest: seq<byte>)
    ensures EncodeTree(t) + rest == EncodeOp(OpRaw.BeginNode(t.name)) + (Body(t) + rest)
  {
  }

  lemma {:induction false} BodySplit(t: Tree, rest: seq<byte>)
    ensures Body(t) + rest == EncodeProps(t.props) + (EncodeForest(t.children) + (EncodeOp(OpRaw.EndNode) + rest))
  {
  }

  lemma {:induction false} PropsSplit(ps: seq<(nat, seq<byte>)>, rest: seq<byte>)
    requires ps != []
    ensures EncodeProps(ps) + rest == EncodeOp(OpRaw.Prop(ps[0].0, ps[0].1)) + (EncodeProps(ps[1..]) + rest)
  {
  }

  lemma {:induction false} ForestSplit(ts: seq<Tree>, rest: seq<byte>)
    requires ts != []
    ensures EncodeForest(ts) + rest == EncodeTree(ts[0]) + (EncodeForest(ts[1..]) + rest)
  {
  }

  lemma {:induction false} PropsTail(strings: seq<byte>, ps: seq<(nat, seq<byte>)>)
    requires ps != [] && PropsOk(strings, ps)
    ensures PropOk(strings, ps[0]) && PropsOk(strings, ps[1..])
  {
    assert forall i :: 0 <= i < |ps[1..]| ==> ps[1..][i] == ps[i + 1];
  }

  lemma {:induction false} ForestTail(strings: seq<byte>, ts: seq<Tree>)
    requires ts != [] && ForestOk(strings, ts)
    ensures TreeOk(strings, ts[0]) && ForestOk(strings, ts[1..])
  {
    assert forall i :: 0 <= i < |ts[1..]| ==> ts[1..][i] == ts[i + 1];
  }

  // ---------------------------------------------------------------------
  // One encoded token at a time

  lemma {:induction false} StepEncoded(fdt: Fdt, op: OpRaw, rest: seq<byte>)
    requires InBounds(fdt) && Encodable(op)
    requires op.Prop? ==> NameResolvable(StringsBlock(fdt), op.nameOffset)
    ensures CanStep(fdt, EncodeOp(op) + rest)
    ensures After(EncodeOp(op) + rest) == rest
    ensures StepOp(fdt, EncodeOp(op) + rest) == Some(FromRaw(op, StringsBlock(fdt)))
  {
    ParseEncoded(op, rest);
  }

  /** `Node::name` of an encoded node is the tree's own name. */
  lemma {:induction false} NameOfTree(fdt: Fdt, t: Tree, rest: seq<byte>)
    requires InBounds(fdt) && TreeOk(StringsBlock(fdt), t) && IsNode(Node(fdt, EncodeTree(t) + rest))
    ensures Name(Node(fdt, EncodeTree(t) + rest)) == t.name
  {
    TreeSplit(t, rest);
    StepEncoded(fdt, OpRaw.BeginNode(t.name), Body(t) + rest);
  }

  /** The property name `PropertiesIter` reports for `p`. */
  function PropName(strings: seq<byte>, p: (nat, seq<byte>)): seq<byte>
    requires PropOk(strings, p)
  {
    FromRaw(OpRaw.Prop(p.0, p.1), strings).name
  }

  lemma {:induction false} PropsFromProp(fdt: Fdt, p: (nat, seq<byte>), rest: seq<byte>, tail: seq<(seq<byte>, seq<byte>)>)
    requires InBounds(fdt) && PropOk(StringsBlock(fdt), p) && PropsFrom(fdt, rest) == Returned(tail)
    ensures PropsFrom(fdt, EncodeOp(OpRaw.Prop(p.0, p.1)) + rest) == Returned([(PropName(StringsBlock(fdt), p), p.1)] + tail)
  {
    StepEncoded(fdt, OpRaw.Prop(p.0, p.1), rest);
  }

  lemma {:induction false} PropsFromStop(fdt: Fdt, rest: seq<byte>)
    requires InBounds(fdt)
    requires Parse(rest).Parsed? && Parse(rest).op.Some? && !Parse(rest).op.value.Prop?
    ensures PropsFrom(fdt, rest) == Returned([])
  {
  }

  lemma {:induction false} SkipProp(fdt: Fdt, p: (nat, seq<byte>), rest: seq<byte>, depth: nat, target: nat)
    requires InBounds(fdt) && PropOk(StringsBlock(fdt), p) && target != depth
    ensures SkipTo(fdt, EncodeOp(OpRaw.Prop(p.0, p.1)) + rest, depth, target) == SkipTo(fdt, rest, depth, target)
  {
    StepEncoded(fdt, OpRaw.Prop(p.0, p.1), rest);
  }

  lemma {:induction false} SkipBegin(fdt: Fdt, name: seq<byte>, rest: seq<byte>, depth: nat, target: nat)
    requires InBounds(fdt) && 0 !in name && target != depth
    ensures SkipTo(fdt, EncodeOp(OpRaw.BeginNode(name)) + rest, depth, target) == SkipTo(fdt, rest, depth + 1, target)
  {
    StepEncoded(fdt, OpRaw.BeginNode(name), rest);
  }

  lemma {:induction false} SkipEnd(fdt: Fdt, rest: seq<byte>, depth: nat, target: nat)
    requires InBounds(fdt) && target != depth + 1
    ensures SkipTo(fdt, EncodeOp(OpRaw.EndNode) + rest, depth + 1, target) == SkipTo(fdt, rest, depth, target)
  {
    StepEncoded(fdt, OpRaw.EndNode, rest);
  }

  lemma {:induction false} ScanProp(fdt: Fdt, p: (nat, seq<byte>), rest: seq<byte>, depth: nat)
    requires InBounds(fdt) && PropOk(StringsBlock(fdt), p)
    ensures ChildScan(fdt, EncodeOp(OpRaw.Prop(p.0, p.1)) + rest, depth) == ChildScan(fdt, rest, depth)
  {
    StepEncoded(fdt, OpRaw.Prop(p.0, p.1), rest);
  }

  lemma {:induction false} ScanBegin(fdt: Fdt, name: seq<byte>, rest: seq<byte>, depth: nat)
    requires InBounds(fdt) && 0 !in name
    ensures ChildScan(fdt, EncodeOp(OpRaw.BeginNode(name)) + rest, depth)
      == Returned((rest, depth + 1, Some(Node(fdt, EncodeOp(OpRaw.BeginNode(name)) + rest))))
  {
    StepEncoded(fdt, OpRaw.BeginNode(name), rest);
  }

  lemma {:induction false} ScanEnd(fdt: Fdt, rest: seq<byte>, depth: nat)
    requires InBounds(fdt)
    ensures ChildScan(fdt, EncodeOp(OpRaw.EndNode) + rest, depth + 1) == Returned((rest, depth, None))
  {
    StepEncoded(fdt, OpRaw.EndNode, rest);
  }

  lemma {:induction false} PreorderProp(fdt: Fdt, p: (nat, seq<byte>), rest: seq<byte>, depth: nat)
    requires InBounds(fdt) && PropOk(StringsBlock(fdt), p) && depth > 0
    ensures PreorderAll(fdt, EncodeOp(OpRaw.Prop(p.0, p.1)) + rest, depth) == PreorderAll(fdt, rest, depth)
  {
    StepEncoded(fdt, OpRaw.Prop(p.0, p.1), rest);
  }

  lemma {:induction false} PreorderBegin(fdt: Fdt, name: seq<byte>, rest: seq<byte>, depth: nat)
    requires InBounds(fdt) && 0 !in name
    ensures PreorderAll(fdt, EncodeOp(OpRaw.BeginNode(name)) + rest, depth)
      == Prepend([Node(fdt, EncodeOp(OpRaw.BeginNode(name)) + rest)], PreorderAll(fdt, rest, depth + 1))
  {
    StepEncoded(fdt, OpRaw.BeginNode(name), rest);
  }

  /** The FDT_END_NODE that closes the node the walk began at ends the traversal. */
  lemma {:induction false} PreorderEndLast(fdt: Fdt, rest: seq<byte>, depth: nat)
    requires InBounds(fdt) && depth == 0
    ensures PreorderAll(fdt, EncodeOp(OpRaw.EndNode) + rest, depth + 1) == Returned([])
  {
    StepEncoded(fdt, OpRaw.EndNode, rest);
  }

  lemma {:induction false} PreorderEndInner(fdt: Fdt, rest: seq<byte>, depth: nat)
    requires InBounds(fdt) && depth > 0
    ensures PreorderAll(fdt, EncodeOp(OpRaw.EndNode) + rest, depth + 1) == PreorderAll(fdt, rest, depth)
  {
    StepEncoded(fdt, OpRaw.EndNode, rest);
  }

  // ---------------------------------------------------------------------
  // Properties

  /** From encoded properties up to a node token, `PropertiesIter` yields exactly those properties. */
  lemma {:induction false} PropsFromEncoded(fdt: Fdt, ps: seq<(nat, seq<byte>)>, rest: seq<byte>)
    requires InBounds(fdt) && PropsOk(StringsBlock(fdt), ps)
    requires Parse(rest).Parsed? && Parse(rest).op.Some? && !Parse(rest).op.value.Prop?
    ensures PropsFrom(fdt, EncodeProps(ps) + rest) == Returned(ResolveProps(StringsBlock(fdt), ps))
    decreases |ps|
  {
    if ps == [] {
      assert EncodeProps(ps) + rest == rest;
      PropsFromStop(fdt, rest);
    } else {
      PropsTail(StringsBlock(fdt), ps);
      PropsSplit(ps, rest);
      PropsFromEncoded(fdt, ps[1..], rest);
      PropsFromProp(fdt, ps[0], EncodeProps(ps[1..]) + rest, ResolveProps(StringsBlock(fdt), ps[1..]));
    }
  }

  /** The token that opens `EncodeForest(ts) + EncodeOp(EndNode)`: the first child's, or the parent's end. */
  lemma {:induction false} ForestFront(strings: seq<byte>, ts: seq<Tree>, rest: seq<byte>)
    requires ForestOk(strings, ts)
    ensures Parse(EncodeForest(ts) + (EncodeOp(OpRaw.EndNode) + rest)).Parsed?
    ensures Parse(EncodeForest(ts) + (EncodeOp(OpRaw.EndNode) + rest)).op.Some?
    ensures !Parse(EncodeForest(ts) + (EncodeOp(OpRaw.EndNode) + rest)).op.value.Prop?
  {
    if ts == [] {
      assert EncodeForest(ts) + (EncodeOp(OpRaw.EndNode) + rest) == EncodeOp(OpRaw.EndNode) + rest;
      ParseEncoded(OpRaw.EndNode, rest);
    } else {
      ForestTail(strings, ts);
      ForestSplit(ts, EncodeOp(OpRaw.EndNode) + rest);
      var after := EncodeForest(ts[1..]) + (EncodeOp(OpRaw.EndNode) + rest);
      TreeSplit(ts[0], after);
      ParseEncoded(OpRaw.BeginNode(ts[0].name), Body(ts[0]) + after);
    }
  }

  lemma {:induction false} AfterBegin(t: Tree, rest: seq<byte>)
    requires 0 !in t.name
    ensures Parse(EncodeTree(t) + rest).Parsed? && After(EncodeTree(t) + rest) == Body(t) + rest
  {
    TreeSplit(t, rest);
    ParseEncoded(OpRaw.BeginNode(t.name), Body(t) + rest);
  }

  /** `Node::properties` of an encoded node: its own properties, in order, and no child's. */
  lemma {:induction false} PropertiesOfTree(fdt: Fdt, t: Tree, rest: seq<byte>)
    requires InBounds(fdt) && TreeOk(StringsBlock(fdt), t)
    requires IsNode(Node(fdt, EncodeTree(t) + rest))
    ensures Properties(Node(fdt, EncodeTree(t) + rest)) == Returned(ResolveProps(StringsBlock(fdt), t.props))
  {
    var after := EncodeForest(t.children) + (EncodeOp(OpRaw.EndNode) + rest);
    AfterBegin(t, rest);
    BodySplit(t, rest);
    ForestFront(StringsBlock(fdt), t.children, rest);
    PropsFromEncoded(fdt, t.props, after);
  }

  // ---------------------------------------------------------------------
  // Skipping a subtree

  /** The walker crosses encoded properties without changing depth. */
  lemma {:induction false} SkipProps(fdt: Fdt, ps: seq<(nat, seq<byte>)>, rest: seq<byte>, depth: nat, target: nat)
    requires InBounds(fdt) && PropsOk(StringsBlock(fdt), ps) && target < depth
    ensures SkipTo(fdt, EncodeProps(ps) + rest, depth, target) == SkipTo(fdt, rest, depth, target)
    decreases |ps|
  {
    if ps == [] {
      assert EncodeProps(ps) + rest == rest;
    } else {
      PropsTail(StringsBlock(fdt), ps);
      PropsSplit(ps, rest);
      SkipProp(fdt, ps[0], EncodeProps(ps[1..]) + rest, depth, target);
      SkipProps(fdt, ps[1..], rest, depth, target);
    }
  }

  /** Walking to a depth below `depth` crosses a whole subtree: it comes back out at `depth`. */
  lemma {:induction false} SkipTree(fdt: Fdt, t: Tree, rest: seq<byte>, depth: nat, target: nat)
    requires InBounds(fdt) && TreeOk(StringsBlock(fdt), t) && target < depth
    ensures SkipTo(fdt, EncodeTree(t) + rest, depth, target) == SkipTo(fdt, rest, depth, target)
    decreases t, 1
  {
    TreeSplit(t, rest);
    SkipBegin(fdt, t.name, Body(t) + rest, depth, target);
    SkipBody(fdt, t, rest, depth, target);
  }

  /** From just after a node's FDT_BEGIN_NODE, the walk leaves the node one level up. */
  lemma {:induction false} SkipBody(fdt: Fdt, t: Tree, rest: seq<byte>, depth: nat, target: nat)
    requires InBounds(fdt) && TreeOk(StringsBlock(fdt), t) && target <= depth
    ensures SkipTo(fdt, Body(t) + rest, depth + 1, target) == SkipTo(fdt, rest, depth, target)
    decreases t, 0
  {
    var endAndRest := EncodeOp(OpRaw.EndNode) + rest;
    BodySplit(t, rest);
    SkipProps(fdt, t.props, EncodeForest(t.children) + endAndRest, depth + 1, target);
    SkipForest(fdt, t.children, endAndRest, depth + 1, target);
    SkipEnd(fdt, rest, depth, target);
  }

  lemma {:induction false} SkipForest(fdt: Fdt, ts: seq<Tree>, rest: seq<byte>, depth: nat, target: nat)
    requires InBounds(fdt) && ForestOk(StringsBlock(fdt), ts) && target < depth
    ensures SkipTo(fdt, EncodeForest(ts) + rest, depth, target) == SkipTo(fdt, rest, depth, target)
    decreases ts
  {
    if ts == [] {
      assert EncodeForest(ts) + rest == rest;
    } else {
      ForestTail(StringsBlock(fdt), ts);
      ForestSplit(ts, rest);
      SkipTree(fdt, ts[0], EncodeForest(ts[1..]) + rest, depth, target);
      SkipForest(fdt, ts[1..], rest, depth, target);
    }
  }

  // ---------------------------------------------------------------------
  // Children

  /**
   * The reference for a `next_child` call on a node at traversal depth
   * `depth` whose unvisited children are `ts`, followed by the node's
   * FDT_END_NODE and `rest`: the first of `ts`, with the cursor just inside
   * it and the walker one level below it; or, when none is left, `None`
   * with the cursor past the node.
   */
  function NextChildOf(fdt: Fdt, ts: seq<Tree>, rest: seq<byte>, depth: nat): (r: (seq<byte>, nat, Option<Node>))
    ensures ts == [] ==> r == (rest, depth, None)
    ensures ts != [] ==> r == (Body(ts[0]) + (EncodeForest(ts[1..]) + (EncodeOp(OpRaw.EndNode) + rest)), depth + 2,
                               Some(Node(fdt, EncodeTree(ts[0]) + (EncodeForest(ts[1..]) + (EncodeOp(OpRaw.EndNode) + rest)))))
  {
    if ts == [] then (rest, depth, None)
    else
      var siblings := EncodeForest(ts[1..]) + (EncodeOp(OpRaw.EndNode) + rest);
      (Body(ts[0]) + siblings, depth + 2, Some(Node(fdt, EncodeTree(ts[0]) + siblings)))
  }

  lemma {:induction false} ChildScanProps(fdt: Fdt, ps: seq<(nat, seq<byte>)>, rest: seq<byte>, depth: nat)
    requires InBounds(fdt) && PropsOk(StringsBlock(fdt), ps)
    ensures ChildScan(fdt, EncodeProps(ps) + rest, depth) == ChildScan(fdt, rest, depth)
    decreases |ps|
  {
    if ps == [] {
      assert EncodeProps(ps) + rest == rest;
    } else {
      PropsTail(StringsBlock(fdt), ps);
      PropsSplit(ps, rest);
      ScanProp(fdt, ps[0], EncodeProps(ps[1..]) + rest, depth);
      ChildScanProps(fdt, ps[1..], rest, depth);
    }
  }

  /** At the unvisited children of a node, the scan stops at the next one or at the node's end. */
  lemma {:induction false} ChildScanForest(fdt: Fdt, ts: seq<Tree>, rest: seq<byte>, depth: nat)
    requires InBounds(fdt) && ForestOk(StringsBlock(fdt), ts)
    ensures ChildScan(fdt, EncodeForest(ts) + (EncodeOp(OpRaw.EndNode) + rest), depth + 1) == Returned(NextChildOf(fdt, ts, rest, depth))
  {
    var endAndRest := EncodeOp(OpRaw.EndNode) + rest;
    if ts == [] {
      assert EncodeForest(ts) + endAndRest == endAndRest;
      ScanEnd(fdt, rest, depth);
    } else {
      ForestTail(StringsBlock(fdt), ts);
      var siblings := EncodeForest(ts[1..]) + endAndRest;
      ForestSplit(ts, endAndRest);
      TreeSplit(ts[0], siblings);
      ScanBegin(fdt, ts[0].name, Body(ts[0]) + siblings, depth + 1);
    }
  }

  /**
   * The first `next_child` of a node whose walker is still on its
   * FDT_BEGIN_NODE (`Node::children`): its first child, or `None` for a leaf.
   */
  lemma {:induction false} FirstChild(fdt: Fdt, t: Tree, rest: seq<byte>, depth: nat)
    requires InBounds(fdt) && TreeOk(StringsBlock(fdt), t)
    ensures NextChildStep(fdt, EncodeTree(t) + rest, depth, depth) == Returned(NextChildOf(fdt, t.children, rest, depth))
  {
    TreeSplit(t, rest);
    SkipBegin(fdt, t.name, Body(t) + rest, depth, depth + 1);
    FirstGrandchild(fdt, t, rest, depth);
  }

  /**
   * The first `next_child` of a child `Iter`, whose walker has just entered
   * the child: the child's own first child.
   */
  lemma {:induction false} FirstGrandchild(fdt: Fdt, t: Tree, rest: seq<byte>, depth: nat)
    requires InBounds(fdt) && TreeOk(StringsBlock(fdt), t)
    ensures NextChildStep(fdt, Body(t) + rest, depth + 1, depth) == Returned(NextChildOf(fdt, t.children, rest, depth))
  {
    var after := EncodeForest(t.children) + (EncodeOp(OpRaw.EndNode) + rest);
    BodySplit(t, rest);
    ChildScanProps(fdt, t.props, after, depth + 1);
    ChildScanForest(fdt, t.children, rest, depth);
  }

  /**
   * The `next_child` after child `t` was yielded, whatever of `t` has been
   * walked since: the part left is skipped and the next sibling follows.
   * The first case is an untouched child, the second one walked to its end.
   */
  lemma {:induction false} NextSibling(fdt: Fdt, t: Tree, ts: seq<Tree>, rest: seq<byte>, depth: nat)
    requires InBounds(fdt) && TreeOk(StringsBlock(fdt), t) && ForestOk(StringsBlock(fdt), ts)
    ensures NextChildStep(fdt, Body(t) + (EncodeForest(ts) + (EncodeOp(OpRaw.EndNode) + rest)), depth + 2, depth)
      == Returned(NextChildOf(fdt, ts, rest, depth))
    ensures NextChildStep(fdt, EncodeForest(ts) + (EncodeOp(OpRaw.EndNode) + rest), depth + 1, depth)
      == Returned(NextChildOf(fdt, ts, rest, depth))
  {
    var siblings := EncodeForest(ts) + (EncodeOp(OpRaw.EndNode) + rest);
    SkipBody(fdt, t, siblings, depth + 1, depth + 1);
    ChildScanForest(fdt, ts, rest, depth);
  }

  // ---------------------------------------------------------------------
  // Preorder

  /** `PreorderIter` run to its end: the nodes it yields, or a panic. */
  function PreorderAll(fdt: Fdt, remain: seq<byte>, depth: nat): Run<seq<Node>>
    requires InBounds(fdt)
    decreases |remain|
  {
    var s := PreorderNext(fdt, remain, depth);
    if s.Panicked? then Panicked
    else if s.value.2.None? then Returned([])
    else Prepend([s.value.2.value], PreorderAll(fdt, s.value.0, s.value.1))
  }

  /** `xs` followed by what the rest of a traversal yields. */
  function Prepend(xs: seq<Node>, r: Run<seq<Node>>): (p: Run<seq<Node>>)
    ensures p.Panicked? <==> r.Panicked?
    ensures p.Returned? ==> p.value == xs + r.value
  {
    if r.Panicked? then Panicked else Returned(xs + r.value)
  }

  lemma {:induction false} PrependPrepend(xs: seq<Node>, ys: seq<Node>, r: Run<seq<Node>>)
    ensures Prepend(xs, Prepend(ys, r)) == Prepend(xs + ys, r)
  {
    if r.Returned? {
      assert xs + (ys + r.value) == xs + ys + r.value;
    }
  }

  /** The nodes of `t` in preorder, each as a cursor at its FDT_BEGIN_NODE, when `rest` follows `t`. */
  function Preorder(fdt: Fdt, t: Tree, rest: seq<byte>): (r: seq<Node>)
    decreases t, 1
  {
    [Node(fdt, EncodeTree(t) + rest)] + PreorderForest(fdt, t.children, EncodeOp(OpRaw.EndNode) + rest)
  }

  function PreorderForest(fdt: Fdt, ts: seq<Tree>, rest: seq<byte>): (r: seq<Node>)
    decreases ts
  {
    if ts == [] then []
    else Preorder(fdt, ts[0], EncodeForest(ts[1..]) + rest) + PreorderForest(fdt, ts[1..], rest)
  }

  /** The number of nodes in a tree. */
  function Size(t: Tree): nat
    decreases t, 1
  {
    1 + SizeForest(t.children)
  }

  function SizeForest(ts: seq<Tree>): nat
    decreases ts
  {
    if ts == [] then 0 else Size(ts[0]) + SizeForest(ts[1..])
  }

  /** The preorder of a tree holds one entry per node, the tree's own first. */
  lemma {:induction false} PreorderSize(fdt: Fdt, t: Tree, rest: seq<byte>)
    ensures |Preorder(fdt, t, rest)| == Size(t)
    ensures Preorder(fdt, t, rest)[0] == Node(fdt, EncodeTree(t) + rest)
    decreases t, 1
  {
    PreorderForestSize(fdt, t.children, EncodeOp(OpRaw.EndNode) + rest);
  }

  lemma {:induction false} PreorderForestSize(fdt: Fdt, ts: seq<Tree>, rest: seq<byte>)
    ensures |PreorderForest(fdt, ts, rest)| == SizeForest(ts)
    decreases ts
  {
    if ts != [] {
      PreorderSize(fdt, ts[0], EncodeForest(ts[1..]) + rest);
      PreorderForestSize(fdt, ts[1..], rest);
    }
  }

  lemma {:induction false} PreorderProps(fdt: Fdt, ps: seq<(nat, seq<byte>)>, rest: seq<byte>, depth: nat)
    requires InBounds(fdt) && PropsOk(StringsBlock(fdt), ps) && depth > 0
    ensures PreorderAll(fdt, EncodeProps(ps) + rest, depth) == PreorderAll(fdt, rest, depth)
    decreases |ps|
  {
    if ps == [] {
      assert EncodeProps(ps) + rest == rest;
    } else {
      PropsTail(StringsBlock(fdt), ps);
      PropsSplit(ps, rest);
      PreorderProp(fdt, ps[0], EncodeProps(ps[1..]) + rest, depth);
      PreorderProps(fdt, ps[1..], rest, depth);
    }
  }

  /** Inside an open node, a subtree contributes its own preorder and the traversal goes on after it. */
  lemma {:induction false} PreorderTree(fdt: Fdt, t: Tree, rest: seq<byte>, depth: nat)
    requires InBounds(fdt) && TreeOk(StringsBlock(fdt), t) && depth > 0
    ensures PreorderAll(fdt, EncodeTree(t) + rest, depth) == Prepend(Preorder(fdt, t, rest), PreorderAll(fdt, rest, depth))
    decreases t, 1
  {
    PreorderEnter(fdt, t, rest, depth);
    PreorderBody(fdt, t, rest, depth);
    PreorderEndInner(fdt, rest, depth);
    PrependPrepend([Node(fdt, EncodeTree(t) + rest)], PreorderForest(fdt, t.children, EncodeOp(OpRaw.EndNode) + rest), PreorderAll(fdt, rest, depth));
  }

  /** The body of a node opened inside another: its children's preorders, then the walk goes on after it. */
  lemma {:induction false} PreorderBody(fdt: Fdt, t: Tree, rest: seq<byte>, depth: nat)
    requires InBounds(fdt) && TreeOk(StringsBlock(fdt), t)
    ensures PreorderAll(fdt, Body(t) + rest, depth + 1)
      == Prepend(PreorderForest(fdt, t.children, EncodeOp(OpRaw.EndNode) + rest),
                 PreorderAll(fdt, EncodeOp(OpRaw.EndNode) + rest, depth + 1))
    decreases t, 0
  {
    PreorderBodyProps(fdt, t, rest, depth);
    PreorderForestLemma(fdt, t.children, EncodeOp(OpRaw.EndNode) + rest, depth + 1);
  }

  lemma {:induction false} PreorderBodyProps(fdt: Fdt, t: Tree, rest: seq<byte>, depth: nat)
    requires InBounds(fdt) && TreeOk(StringsBlock(fdt), t)
    ensures PreorderAll(fdt, Body(t) + rest, depth + 1)
      == PreorderAll(fdt, EncodeForest(t.children) + (EncodeOp(OpRaw.EndNode) + rest), depth + 1)
  {
    BodySplit(t, rest);
    PreorderProps(fdt, t.props, EncodeForest(t.children) + (EncodeOp(OpRaw.EndNode) + rest), depth + 1);
  }

  lemma {:induction false} PreorderForestLemma(fdt: Fdt, ts: seq<Tree>, rest: seq<byte>, depth: nat)
    requires InBounds(fdt) && ForestOk(StringsBlock(fdt), ts) && depth > 0
    ensures PreorderAll(fdt, EncodeForest(ts) + rest, depth) == Prepend(PreorderForest(fdt, ts, rest), PreorderAll(fdt, rest, depth))
    decreases ts
  {
    if ts == [] {
      assert EncodeForest(ts) + rest == rest;
      assert PreorderAll(fdt, rest, depth).Returned? ==> [] + PreorderAll(fdt, rest, depth).value == PreorderAll(fdt, rest, depth).value;
    } else {
      ForestTail(StringsBlock(fdt), ts);
      ForestSplit(ts, rest);
      var tail := EncodeForest(ts[1..]) + rest;
      PreorderTree(fdt, ts[0], tail, depth);
      PreorderForestLemma(fdt, ts[1..], rest, depth);
      PrependPrepend(Preorder(fdt, ts[0], tail), PreorderForest(fdt, ts[1..], rest), PreorderAll(fdt, rest, depth));
    }
  }

  /**
   * `Node::preorder` of an encoded node, run to its end: exactly the nodes
   * of its subtree, the node itself first and every parent before its
   * children; the walk stops at the node's FDT_END_NODE.
   */
  lemma {:induction false} PreorderOfTree(fdt: Fdt, t: Tree, rest: seq<byte>)
    requires InBounds(fdt) && TreeOk(StringsBlock(fdt), t)
    ensures PreorderAll(fdt, EncodeTree(t) + rest, 0) == Returned(Preorder(fdt, t, rest))
  {
    PreorderFromTop(fdt, t, rest, 0);
  }

  lemma {:induction false} PreorderFromTop(fdt: Fdt, t: Tree, rest: seq<byte>, depth: nat)
    requires InBounds(fdt) && TreeOk(StringsBlock(fdt), t) && depth == 0
    ensures PreorderAll(fdt, EncodeTree(t) + rest, depth) == Returned(Preorder(fdt, t, rest))
  {
    var forest := PreorderForest(fdt, t.children, EncodeOp(OpRaw.EndNode) + rest);
    PreorderEnter(fdt, t, rest, depth);
    PreorderBody(fdt, t, rest, depth);
    PreorderEndLast(fdt, rest, depth);
    assert Prepend(forest, Returned([])) == Returned(forest) by {
      assert forest + [] == forest;
    }
  }

  /** The first node a walk yields from an encoded node is that node; the walk then goes on inside it. */
  lemma {:induction false} PreorderEnter(fdt: Fdt, t: Tree, rest: seq<byte>, depth: nat)
    requires InBounds(fdt) && 0 !in t.name
    ensures PreorderAll(fdt, EncodeTree(t) + rest, depth)
      == Prepend([Node(fdt, EncodeTree(t) + rest)], PreorderAll(fdt, Body(t) + rest, depth + 1))
  {
    TreeSplit(t, rest);
    PreorderBegin(fdt, t.name, Body(t) + rest, depth);
  }
}
