/**
  The shape of the red-black tree of rbtree.cpp, stated over an arena of nodes.

  Besides the links kept in the nodes, a ghost sequence `desc` gives for every
  node the set of its descendants (itself included). All invariants are local:
  each says something about one node and its immediate neighbours, so a rotation
  or a recolouring has to be re-checked at a handful of indices only.
*/
module Shape {
  import opened Options
  import opened Lex
  import opened Nodes

  /** The descendants below an optional link: none for an absent child. */
  function Below(desc: seq<set<nat>>, c: Option<nat>): set<nat>
  {
    if c.Some? && c.value < |desc| then desc[c.value] else {}
  }

  /** All indices of an arena of n nodes. */
  function Range(n: nat): (r: set<nat>)
    ensures forall i: nat :: i in r <==> i < n
  {
    if n == 0 then {} else Range(n - 1) + {n - 1}
  }

  /** Every child link of node i is matched by the child's parent link. */
  ghost predicate DownOk(ns: seq<Node>, i: nat)
    requires i < |ns|
  {
    && (ns[i].left.Some? ==> ns[i].left.value < |ns| && ns[ns[i].left.value].parent == Some(i))
    && (ns[i].right.Some? ==> ns[i].right.value < |ns| && ns[ns[i].right.value].parent == Some(i))
  }

  /** The parent link of node i is matched by one of the parent's child links. */
  ghost predicate UpOk(ns: seq<Node>, i: nat)
    requires i < |ns|
  {
    ns[i].parent.Some? ==>
      && ns[i].parent.value < |ns|
      && (ns[ns[i].parent.value].left == Some(i) || ns[ns[i].parent.value].right == Some(i))
  }

  ghost predicate LinkOk(ns: seq<Node>, i: nat)
    requires i < |ns|
  {
    DownOk(ns, i) && UpOk(ns, i)
  }

  /** The descendants of i are i and the (disjoint) descendants of its two
      children, none of which is i itself. */
  ghost predicate DescOk(ns: seq<Node>, desc: seq<set<nat>>, i: nat)
    requires i < |ns| == |desc|
  {
    var l, r := Below(desc, ns[i].left), Below(desc, ns[i].right);
    && desc[i] == {i} + l + r
    && i !in l && i !in r && l !! r
    && (forall j | j in desc[i] :: j < |ns|)
  }

  /** Binary-search-tree order at node i: every key in its left subtree is
      smaller and every key in its right subtree is larger. */
  ghost predicate OrderOk(ns: seq<Node>, desc: seq<set<nat>>, i: nat)
    requires i < |ns| == |desc|
  {
    && (forall j | j in Below(desc, ns[i].left) :: j < |ns| && Less(ns[j].key, ns[i].key))
    && (forall j | j in Below(desc, ns[i].right) :: j < |ns| && Less(ns[i].key, ns[j].key))
  }

  ghost predicate Linked(ns: seq<Node>)
  {
    forall i: nat | i < |ns| :: LinkOk(ns, i)
  }

  ghost predicate Descended(ns: seq<Node>, desc: seq<set<nat>>)
  {
    |desc| == |ns| && forall i: nat | i < |ns| :: DescOk(ns, desc, i)
  }

  /** Links agree both ways, and desc gives each node's (finite, acyclic) set
      of descendants. */
  ghost predicate Forest(ns: seq<Node>, desc: seq<set<nat>>)
  {
    Linked(ns) && Descended(ns, desc)
  }

  ghost predicate Ordered(ns: seq<Node>, desc: seq<set<nat>>)
    requires |desc| == |ns|
  {
    forall i: nat | i < |ns| :: OrderOk(ns, desc, i)
  }

  /** root is the one node without a parent, and every node descends from it. */
  ghost predicate Rooted(ns: seq<Node>, root: Option<nat>, desc: seq<set<nat>>)
    requires |desc| == |ns|
  {
    && (root.None? <==> |ns| == 0)
    && (root.Some? ==> root.value < |ns| && ns[root.value].parent.None? && desc[root.value] == Range(|ns|))
    && (forall i: nat | i < |ns| :: ns[i].parent.None? ==> root == Some(i))
  }

  /** A binary search tree with consistent parent/child links that owns every
      node of the arena. */
  ghost predicate Shaped(ns: seq<Node>, root: Option<nat>, desc: seq<set<nat>>)
  {
    Forest(ns, desc) && Ordered(ns, desc) && Rooted(ns, root, desc)
  }

  /** ns and ns' hold the same keys and links (colours and aggregates may differ). */
  ghost predicate SameShape(ns: seq<Node>, ns': seq<Node>)
  {
    && |ns| == |ns'|
    && forall i | 0 <= i < |ns| ::
         ns'[i].key == ns[i].key && ns'[i].left == ns[i].left
         && ns'[i].right == ns[i].right && ns'[i].parent == ns[i].parent
  }

  lemma ShapedIgnoresPayload(ns: seq<Node>, ns': seq<Node>, root: Option<nat>, desc: seq<set<nat>>)
    requires Shaped(ns, root, desc) && SameShape(ns, ns')
    ensures Shaped(ns', root, desc)
  {
    forall i: nat | i < |ns'| ensures LinkOk(ns', i) && DescOk(ns', desc, i) && OrderOk(ns', desc, i) {
      assert LinkOk(ns, i) && DescOk(ns, desc, i) && OrderOk(ns, desc, i);
    }
  }

  // ---------------------------------------------------------------------------
  // Rotations

  /** A rotation at x that lowers x towards side s needs a child of x on the
      other side: `leftRotate` is side L, `rightRotate` side R. */
  ghost predicate CanRotate(ns: seq<Node>, x: nat, s: Side)
  {
    x < |ns| && Child(ns[x], Opp(s)).Some? && Child(ns[x], Opp(s)).value < |ns|
  }

  /** The node at index i after a rotation at x towards side s: the child c of
      x on the other side rises into the slot of x, x becomes the side-s child
      of c, and the former side-s child of c moves over to x. The parent q of x
      takes c in the slot that held x (checked on side s first, as both
      rotations of rbtree.cpp do). */
  ghost function RotateAt(ns: seq<Node>, x: nat, s: Side, i: nat): Node
    requires CanRotate(ns, x, s) && i < |ns|
  {
    var c := Child(ns[x], Opp(s)).value;
    if i == x then WithChild(ns[x], Opp(s), Child(ns[c], s)).(parent := Some(c))
    else if i == c then WithChild(ns[c], s, Some(x)).(parent := ns[x].parent)
    else if Child(ns[c], s) == Some(i) then ns[i].(parent := Some(x))
    else if ns[x].parent == Some(i) then
      (if Child(ns[i], s) == Some(x) then WithChild(ns[i], s, Some(c)) else WithChild(ns[i], Opp(s), Some(c)))
    else ns[i]
  }

  /** The arena and the root after the rotation: c becomes the root when x was. */
  ghost function Rotate(ns: seq<Node>, root: Option<nat>, x: nat, s: Side): (seq<Node>, Option<nat>)
    requires CanRotate(ns, x, s)
  {
    (seq(|ns|, i requires 0 <= i < |ns| => RotateAt(ns, x, s, i)),
     if ns[x].parent.None? then Child(ns[x], Opp(s)) else root)
  }

  /** Only x and its rising child c get new descendant sets: c takes over the
      set of x, and x keeps its side-s subtree and gains the side-s subtree of c. */
  ghost function RotateDesc(ns: seq<Node>, desc: seq<set<nat>>, x: nat, s: Side): seq<set<nat>>
    requires CanRotate(ns, x, s) && |desc| == |ns|
  {
    var c := Child(ns[x], Opp(s)).value;
    desc[x := {x} + Below(desc, Child(ns[x], s)) + Below(desc, Child(ns[c], s))][c := desc[x]]
  }
}
