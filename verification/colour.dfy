/**
  The colour rules of the red-black tree of rbtree.cpp. A ghost sequence `bh`
  gives for every node its black height: the number of BLACK nodes on every
  path from below the node down to a missing child. As with the shape, every
  rule is local to one node and its children or parent.
*/
module Colours {
  import opened Options
  import opened Nodes
  import opened Shape

  /** 1 for a BLACK node, 0 for a RED one. */
  function Blackness(n: Node): (b: nat)
    ensures b <= 1 && (b == 1 <==> n.color == Black)
  {
    if n.color == Black then 1 else 0
  }

  /** The black height seen from above a link: none for a missing child. */
  ghost function BlackOf(ns: seq<Node>, bh: seq<nat>, t: Option<nat>): nat
    requires |bh| == |ns|
  {
    if t.Some? && t.value < |ns| then bh[t.value] + Blackness(ns[t.value]) else 0
  }

  /** Both subtrees of node i have the black height of i. */
  ghost predicate HeightOk(ns: seq<Node>, bh: seq<nat>, i: nat)
    requires |bh| == |ns| && i < |ns|
  {
    BlackOf(ns, bh, ns[i].left) == bh[i] && BlackOf(ns, bh, ns[i].right) == bh[i]
  }

  /** Every path from a node down to a missing child crosses the same number
      of BLACK nodes. */
  ghost predicate Balanced(ns: seq<Node>, bh: seq<nat>)
  {
    |bh| == |ns| && forall i: nat | i < |ns| :: HeightOk(ns, bh, i)
  }

  /** A RED node i has no RED parent. */
  ghost predicate RedOk(ns: seq<Node>, i: nat)
    requires i < |ns|
  {
    ns[i].color == Red && ns[i].parent.Some? ==>
      ns[i].parent.value < |ns| && ns[ns[i].parent.value].color == Black
  }

  ghost predicate NoRedRed(ns: seq<Node>)
  {
    forall i: nat | i < |ns| :: RedOk(ns, i)
  }

  /** The red rule holds everywhere except possibly at node z. */
  ghost predicate RedOkExcept(ns: seq<Node>, z: nat)
  {
    forall i: nat | i < |ns| && i != z :: RedOk(ns, i)
  }

  ghost predicate RootBlack(ns: seq<Node>, root: Option<nat>)
  {
    root.Some? && root.value < |ns| ==> ns[root.value].color == Black
  }

  /** ns' is ns with some colours changed and nothing else. */
  ghost predicate Recoloured(ns: seq<Node>, ns': seq<Node>)
  {
    |ns'| == |ns| &&
    forall i | 0 <= i < |ns| ::
      SameEntry(ns'[i], ns[i]) && ns'[i].left == ns[i].left && ns'[i].right == ns[i].right
      && ns'[i].parent == ns[i].parent
  }

  lemma RecolouredShaped(ns: seq<Node>, ns': seq<Node>, root: Option<nat>, desc: seq<set<nat>>)
    requires Shaped(ns, root, desc) && Recoloured(ns, ns')
    ensures Shaped(ns', root, desc)
  {
    assert SameShape(ns, ns');
    ShapedIgnoresPayload(ns, ns', root, desc);
  }

  /** The black-height rule at i only reads the links of i and the colours and
      black heights of its children. */
  lemma HeightOkFrame(ns: seq<Node>, ns': seq<Node>, bh: seq<nat>, i: nat)
    requires |bh| == |ns| == |ns'| && i < |ns| && HeightOk(ns, bh, i)
    requires ns'[i].left == ns[i].left && ns'[i].right == ns[i].right
    requires ns[i].left.Some? && ns[i].left.value < |ns| ==>
               ns'[ns[i].left.value].color == ns[ns[i].left.value].color
    requires ns[i].right.Some? && ns[i].right.value < |ns| ==>
               ns'[ns[i].right.value].color == ns[ns[i].right.value].color
    ensures HeightOk(ns', bh, i)
  {
  }
}
