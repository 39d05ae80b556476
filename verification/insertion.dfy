/**
  The two halves of `insert` in rbtree.cpp that precede `fixInsert`: the
  descent from the root by key comparison, and the linking of the new RED
  leaf under the last node visited.
*/
module Insertion {
  import opened Options
  import opened Lex
  import opened Nodes
  import opened Shape
  import opened Colours
  import opened Traversal
  import opened Fixup

  /** Key k belongs below node p: on the left of every node whose left
      subtree holds p, and on the right of every node whose right subtree
      holds p. */
  ghost predicate PathOk(ns: seq<Node>, desc: seq<set<nat>>, p: nat, k: string)
    requires |desc| == |ns|
  {
    forall i: nat | i < |ns| ::
      && (p in Below(desc, ns[i].left) ==> Less(k, ns[i].key))
      && (p in Below(desc, ns[i].right) ==> Less(ns[i].key, k))
  }

  /** Nothing lies above the root. */
  lemma RootPathOk(ns: seq<Node>, root: Option<nat>, desc: seq<set<nat>>, k: string)
    requires Shaped(ns, root, desc) && root.Some?
    ensures PathOk(ns, desc, root.value, k)
  {
    var r := root.value;
    forall i: nat | i < |ns|
      ensures r !in Below(desc, ns[i].left) && r !in Below(desc, ns[i].right)
    {
      assert DescOk(ns, desc, i);
      if r in Below(desc, ns[i].left) {
        DescTransitive(ns, desc, ns[i].left.value, r);
      }
      if r in Below(desc, ns[i].right) {
        DescTransitive(ns, desc, ns[i].right.value, r);
      }
    }
  }

  /** One step of the descent: moving from p to its child c on the side the
      comparison with the key of p chose keeps the path consistent. */
  lemma DescendPathOk(ns: seq<Node>, root: Option<nat>, desc: seq<set<nat>>, p: nat, s: Side, k: string)
    requires Shaped(ns, root, desc) && p < |ns| && PathOk(ns, desc, p, k)
    requires Child(ns[p], s).Some?
    requires s == L ==> Less(k, ns[p].key)
    requires s == R ==> Less(ns[p].key, k)
    ensures PathOk(ns, desc, Child(ns[p], s).value, k)
  {
    var c := Child(ns[p], s).value;
    assert LinkOk(ns, p) && DescOk(ns, desc, p);
    assert LinkOk(ns, c);
    forall i: nat | i < |ns|
      ensures (c in Below(desc, ns[i].left) ==> Less(k, ns[i].key))
      ensures (c in Below(desc, ns[i].right) ==> Less(ns[i].key, k))
    {
      assert LinkOk(ns, i) && DescOk(ns, desc, i);
      if c in Below(desc, ns[i].left) && ns[i].left != Some(c) {
        BelowHasParent(ns, desc, ns[i].left.value, c);
      }
      if c in Below(desc, ns[i].right) && ns[i].right != Some(c) {
        BelowHasParent(ns, desc, ns[i].right.value, c);
      }
    }
  }

  /** A key that is in the subtree of c but is not the key of c lies in the
      subtree on the side the comparison chose. */
  lemma DescendKeepsKey(ns: seq<Node>, desc: seq<set<nat>>, c: nat, s: Side, k: string, j: nat)
    requires Descended(ns, desc) && Ordered(ns, desc) && c < |ns|
    requires j in desc[c] && j < |ns| && ns[j].key == k && ns[c].key != k
    requires s == L ==> Less(k, ns[c].key)
    requires s == R ==> Less(ns[c].key, k)
    ensures j in Below(desc, Child(ns[c], s))
  {
    assert DescOk(ns, desc, c) && OrderOk(ns, desc, c);
    if s == L && j in Below(desc, ns[c].right) {
      LessAsymmetric(k, ns[c].key);
    }
    if s == R && j in Below(desc, ns[c].left) {
      LessAsymmetric(k, ns[c].key);
    }
  }

  // ---------------------------------------------------------------------------
  // Linking the new leaf

  /** The arena after the new leaf is appended at index |ns| and hung on side
      s of p (or, in an empty tree, left without a parent). */
  ghost function Attach(ns: seq<Node>, p: Option<nat>, s: Side, leaf: Node): seq<Node>
    requires p.Some? ==> p.value < |ns|
  {
    if p.None? then ns + [leaf]
    else (ns + [leaf])[p.value := WithChild(ns[p.value], s, Some(|ns|))]
  }

  /** The leaf descends from itself and from every node p descends from. */
  ghost function AttachDesc(ns: seq<Node>, desc: seq<set<nat>>, p: Option<nat>): seq<set<nat>>
    requires |desc| == |ns|
  {
    seq(|ns|, i requires 0 <= i < |ns| => if p.Some? && p.value in desc[i] then desc[i] + {|ns|} else desc[i])
      + [{|ns|}]
  }

  /** Where the descent stopped: the empty tree, or a node p whose side-s child
      is missing and below which the key belongs. */
  ghost predicate AttachPoint(ns: seq<Node>, root: Option<nat>, desc: seq<set<nat>>, p: Option<nat>, s: Side, k: string)
  {
    && Shaped(ns, root, desc)
    && (p.None? <==> root.None?)
    && (p.Some? ==>
          && p.value < |ns| && Child(ns[p.value], s).None? && PathOk(ns, desc, p.value, k)
          && (s == L ==> Less(k, ns[p.value].key))
          && (s == R ==> Less(ns[p.value].key, k)))
  }

  /** The new leaf can hang on side s of p: that slot is free. */
  ghost predicate Hook(ns: seq<Node>, p: Option<nat>, s: Side)
  {
    p.Some? ==> p.value < |ns| && Child(ns[p.value], s).None?
  }

  lemma AttachLinked(ns: seq<Node>, p: Option<nat>, s: Side, leaf: Node)
    requires Linked(ns) && Hook(ns, p, s)
    requires leaf.parent == p && leaf.left.None? && leaf.right.None?
    ensures Linked(Attach(ns, p, s, leaf))
  {
    var ns' := Attach(ns, p, s, leaf);
    forall i: nat | i < |ns'| ensures LinkOk(ns', i) {
      if i < |ns| {
        assert LinkOk(ns, i);
        if p.Some? { assert LinkOk(ns, p.value); }
      }
    }
  }

  /** The new descendant sets, seen from above a link. */
  lemma AttachBelow(ns: seq<Node>, desc: seq<set<nat>>, p: Option<nat>, t: Option<nat>)
    requires |desc| == |ns| && (t.Some? ==> t.value < |ns|)
    ensures Below(AttachDesc(ns, desc, p), t) ==
      if t.Some? && p.Some? && p.value in desc[t.value] then Below(desc, t) + {|ns|} else Below(desc, t)
  {
  }

  lemma AttachDescAt(ns: seq<Node>, desc: seq<set<nat>>, p: Option<nat>, s: Side, leaf: Node, i: nat)
    requires |desc| == |ns| && Hook(ns, p, s)
    requires leaf.parent == p && leaf.left.None? && leaf.right.None?
    requires i < |ns| && DescOk(ns, desc, i) && DownOk(ns, i)
    requires p.Some? ==> DescOk(ns, desc, p.value)
    ensures DescOk(Attach(ns, p, s, leaf), AttachDesc(ns, desc, p), i)
  {
    var ns', desc' := Attach(ns, p, s, leaf), AttachDesc(ns, desc, p);
    var n := |ns|;
    AttachBelow(ns, desc, p, Some(i));
    AttachBelow(ns, desc, p, ns[i].left);
    AttachBelow(ns, desc, p, ns[i].right);
    if p == Some(i) {
      var o := Child(ns[i], Opp(s));
      assert Child(ns'[i], s) == Some(n) && Child(ns'[i], Opp(s)) == o;
      assert desc'[n] == {n};
      assert Below(desc', Child(ns'[i], Opp(s))) == Below(desc, o);
      if s == L {
        assert desc'[i] == {i} + Below(desc', ns'[i].left) + Below(desc', ns'[i].right);
      } else {
        assert desc'[i] == {i} + Below(desc', ns'[i].left) + Below(desc', ns'[i].right);
      }
    } else {
      assert ns'[i].left == ns[i].left && ns'[i].right == ns[i].right;
    }
  }

  lemma AttachDescended(ns: seq<Node>, desc: seq<set<nat>>, p: Option<nat>, s: Side, leaf: Node)
    requires Forest(ns, desc) && Hook(ns, p, s)
    requires leaf.parent == p && leaf.left.None? && leaf.right.None?
    ensures Descended(Attach(ns, p, s, leaf), AttachDesc(ns, desc, p))
  {
    var ns', desc' := Attach(ns, p, s, leaf), AttachDesc(ns, desc, p);
    if p.Some? { assert DescOk(ns, desc, p.value); }
    forall i: nat | i < |ns'| ensures DescOk(ns', desc', i) {
      if i < |ns| {
        assert DescOk(ns, desc, i) && LinkOk(ns, i);
        AttachDescAt(ns, desc, p, s, leaf, i);
      }
    }
  }

  lemma AttachOrderAt(ns: seq<Node>, desc: seq<set<nat>>, p: Option<nat>, s: Side, k: string, leaf: Node, i: nat)
    requires |desc| == |ns| && i < |ns| && OrderOk(ns, desc, i) && DownOk(ns, i)
    requires leaf.parent == p && leaf.left.None? && leaf.right.None? && leaf.key == k
    requires p.Some? ==> p.value < |ns| && Child(ns[p.value], s).None? && DescOk(ns, desc, p.value)
    requires p == Some(i) ==> (s == L ==> Less(k, ns[i].key)) && (s == R ==> Less(ns[i].key, k))
    requires p.Some? && p.value in Below(desc, ns[i].left) ==> Less(k, ns[i].key)
    requires p.Some? && p.value in Below(desc, ns[i].right) ==> Less(ns[i].key, k)
    ensures OrderOk(Attach(ns, p, s, leaf), AttachDesc(ns, desc, p), i)
  {
    var ns', desc' := Attach(ns, p, s, leaf), AttachDesc(ns, desc, p);
    var n := |ns|;
    assert ns'[n].key == k;
    var l', r' := Below(desc', ns'[i].left), Below(desc', ns'[i].right);
    if p == Some(i) {
      assert desc'[n] == {n};
      AttachBelow(ns, desc, p, Child(ns[i], Opp(s)));
      if s == L {
        assert l' == {n} && r' == Below(desc, ns[i].right);
      } else {
        assert r' == {n} && l' == Below(desc, ns[i].left);
      }
    } else {
      assert ns'[i].left == ns[i].left && ns'[i].right == ns[i].right;
      AttachBelow(ns, desc, p, ns[i].left);
      AttachBelow(ns, desc, p, ns[i].right);
    }
    forall j | j in l' ensures j < |ns'| && Less(ns'[j].key, ns'[i].key) {
      if j < n {
        assert ns'[j].key == ns[j].key;
      }
    }
    forall j | j in r' ensures j < |ns'| && Less(ns'[i].key, ns'[j].key) {
      if j < n {
        assert ns'[j].key == ns[j].key;
      }
    }
  }

  lemma AttachOrdered(ns: seq<Node>, root: Option<nat>, desc: seq<set<nat>>, p: Option<nat>, s: Side, k: string, leaf: Node)
    requires AttachPoint(ns, root, desc, p, s, k)
    requires leaf.parent == p && leaf.left.None? && leaf.right.None? && leaf.key == k
    ensures Ordered(Attach(ns, p, s, leaf), AttachDesc(ns, desc, p))
  {
    var ns', desc' := Attach(ns, p, s, leaf), AttachDesc(ns, desc, p);
    if p.Some? { assert DescOk(ns, desc, p.value); }
    forall i: nat | i < |ns'| ensures OrderOk(ns', desc', i) {
      if i < |ns| {
        assert OrderOk(ns, desc, i) && LinkOk(ns, i);
        AttachOrderAt(ns, desc, p, s, k, leaf, i);
      }
    }
  }

  lemma AttachRooted(ns: seq<Node>, root: Option<nat>, desc: seq<set<nat>>, p: Option<nat>, s: Side, k: string, leaf: Node)
    requires AttachPoint(ns, root, desc, p, s, k)
    requires leaf.parent == p
    ensures Rooted(Attach(ns, p, s, leaf), if p.None? then Some(|ns|) else root, AttachDesc(ns, desc, p))
  {
    var ns', desc' := Attach(ns, p, s, leaf), AttachDesc(ns, desc, p);
    if p.None? {
      assert |ns| == 0 && ns' == [leaf] && desc' == [{0}];
      assert Range(1) == {0};
    } else {
      var r := root.value;
      assert p.value in desc[r] && desc'[r] == desc[r] + {|ns|};
      assert Range(|ns'|) == Range(|ns|) + {|ns|};
      forall i: nat | i < |ns'| && ns'[i].parent.None? ensures root == Some(i) {
        assert i < |ns| && ns'[i].parent == ns[i].parent;
      }
    }
  }

  /** A RED leaf adds no BLACK node to any path, and can break the red rule
      only at itself. */
  lemma AttachColours(ns: seq<Node>, root: Option<nat>, bh: seq<nat>, p: Option<nat>, s: Side, leaf: Node)
    requires Hook(ns, p, s) && Balanced(ns, bh) && NoRedRed(ns) && RootBlack(ns, root)
    requires root.Some? ==> root.value < |ns|
    requires leaf.parent == p && leaf.left.None? && leaf.right.None? && leaf.color == Red
    ensures Balanced(Attach(ns, p, s, leaf), bh + [0])
    ensures RedOkExcept(Attach(ns, p, s, leaf), |ns|)
    ensures RootBlack(Attach(ns, p, s, leaf), root)
  {
    var ns', bh' := Attach(ns, p, s, leaf), bh + [0];
    forall i: nat | i < |ns'| ensures HeightOk(ns', bh', i) {
      if i < |ns| {
        assert HeightOk(ns, bh, i);
      }
    }
    forall i: nat | i < |ns'| && i != |ns| ensures RedOk(ns', i) {
      assert RedOk(ns, i);
    }
  }

  /** Linking the leaf adds exactly its key and changes no other entry. */
  lemma AttachKeys(ns: seq<Node>, p: Option<nat>, s: Side, leaf: Node)
    requires Hook(ns, p, s)
    ensures |Attach(ns, p, s, leaf)| == |ns| + 1
    ensures forall i | 0 <= i < |ns| :: SameEntry(Attach(ns, p, s, leaf)[i], ns[i])
    ensures Keys(Attach(ns, p, s, leaf)) == Keys(ns) + {leaf.key}
  {
    var ns' := Attach(ns, p, s, leaf);
    forall k ensures k in Keys(ns') <==> k in Keys(ns) + {leaf.key} {
      if k in Keys(ns) {
        var i :| 0 <= i < |ns| && ns[i].key == k;
        assert ns'[i].key == k;
      }
      if k == leaf.key {
        assert ns'[|ns|].key == k;
      }
    }
  }

  /** Linking the new leaf leaves a search tree in which `fixInsert` can
      start from the leaf. */
  lemma AttachStep(ns: seq<Node>, root: Option<nat>, desc: seq<set<nat>>, bh: seq<nat>,
                   p: Option<nat>, s: Side, k: string, leaf: Node)
    requires AttachPoint(ns, root, desc, p, s, k)
    requires Balanced(ns, bh) && NoRedRed(ns) && RootBlack(ns, root)
    requires leaf.parent == p && leaf.left.None? && leaf.right.None? && leaf.color == Red && leaf.key == k
    ensures FixInv(Attach(ns, p, s, leaf), if p.None? then Some(|ns|) else root, AttachDesc(ns, desc, p), bh + [0], |ns|)
    ensures Attach(ns, p, s, leaf)[|ns|].color == Red
  {
    AttachLinked(ns, p, s, leaf);
    AttachDescended(ns, desc, p, s, leaf);
    AttachOrdered(ns, root, desc, p, s, k, leaf);
    AttachRooted(ns, root, desc, p, s, k, leaf);
    AttachColours(ns, root, bh, p, s, leaf);
  }
}
