/**
  The three cases of the loop of `fixInsert` (rbtree.cpp), each as a lemma
  about the arena before and after the case's recolouring and rotations. A
  case is stated for the side s of the grandparent g on which the parent p of
  the offending RED node z hangs; the uncle is the child of g on the other side.
*/
module Fixup {
  import opened Options
  import opened Nodes
  import opened Shape
  import opened Colours
  import opened Rotations
  import opened Traversal

  /** Node g has two children inside the arena. */
  ghost predicate TwoChildren(ns: seq<Node>, g: nat, s: Side)
  {
    && g < |ns| && Child(ns[g], s).Some? && Child(ns[g], Opp(s)).Some?
    && Child(ns[g], s).value < |ns| && Child(ns[g], Opp(s)).value < |ns|
    && Child(ns[g], s).value != g && Child(ns[g], Opp(s)).value != g
  }

  /** Case 1, RED uncle: p and the uncle become BLACK and g becomes RED. */
  ghost function Recolor(ns: seq<Node>, g: nat, s: Side): seq<Node>
    requires TwoChildren(ns, g, s)
  {
    var p, u := Child(ns[g], s).value, Child(ns[g], Opp(s)).value;
    var ns1 := ns[p := ns[p].(color := Black)];
    var ns2 := ns1[u := ns1[u].(color := Black)];
    ns2[g := ns2[g].(color := Red)]
  }

  /** The black height of g grows by one and nothing else changes: the BLACK
      node g gave to the paths through it is now given by p and the uncle. */
  lemma RecolorBalanced(ns: seq<Node>, bh: seq<nat>, g: nat, s: Side)
    requires Linked(ns) && Balanced(ns, bh) && TwoChildren(ns, g, s)
    requires ns[Child(ns[g], s).value].color == Red && ns[Child(ns[g], Opp(s)).value].color == Red
    requires ns[g].color == Black
    ensures Balanced(Recolor(ns, g, s), bh[g := bh[g] + 1])
  {
    assert LinkOk(ns, g) && HeightOk(ns, bh, g);
    var ns', bh' := Recolor(ns, g, s), bh[g := bh[g] + 1];
    var p, u := Child(ns[g], s).value, Child(ns[g], Opp(s)).value;
    forall i: nat | i < |ns'| ensures HeightOk(ns', bh', i) {
      assert HeightOk(ns, bh, i);
      if i != g {
        assert LinkOk(ns, i);
        if ns[i].left != Some(p) && ns[i].left != Some(u) && ns[i].right != Some(p) && ns[i].right != Some(u) {
          assert BlackOf(ns', bh', ns[i].left) == BlackOf(ns, bh, ns[i].left);
          assert BlackOf(ns', bh', ns[i].right) == BlackOf(ns, bh, ns[i].right);
        }
      }
    }
  }

  /** After case 1 the red rule can fail only at g. */
  lemma RecolorRedOk(ns: seq<Node>, g: nat, s: Side, z: nat)
    requires Linked(ns) && TwoChildren(ns, g, s)
    requires z < |ns| && z != g && ns[z].parent == Child(ns[g], s)
    requires RedOkExcept(ns, z)
    ensures RedOkExcept(Recolor(ns, g, s), g)
  {
    assert LinkOk(ns, g);
    var ns' := Recolor(ns, g, s);
    forall i: nat | i < |ns'| && i != g ensures RedOk(ns', i) {
      assert LinkOk(ns, i);
      if i != z {
        assert RedOk(ns, i);
      }
    }
  }

  /** Case 2, BLACK uncle and z on the inner side: rotating at a RED node x
      whose rising child c is RED too keeps every black height. */
  lemma RotateRedPairBalanced(ns: seq<Node>, ns': seq<Node>, bh: seq<nat>, x: nat, s: Side)
    requires Linked(ns) && CanRotate(ns, x, s) && RotationFacts(ns, x, s) && Rotated(ns, ns', x, s)
    requires Balanced(ns, bh)
    requires ns[x].color == Red && ns[Child(ns[x], Opp(s)).value].color == Red
    ensures Balanced(ns', bh)
  {
    var c := Child(ns[x], Opp(s)).value;
    assert HeightOk(ns, bh, x) && HeightOk(ns, bh, c);
    forall i: nat | i < |ns'| ensures HeightOk(ns', bh, i) {
      if i == x {
        RedPairHeightAtPivot(ns, ns', bh, x, s);
      } else if i == c {
        RedPairHeightAtChild(ns, ns', bh, x, s);
      } else if ns[x].parent == Some(i) {
        assert HeightOk(ns, bh, i);
        RedPairHeightAtParent(ns, ns', bh, x, s);
      } else {
        assert LinkOk(ns, i) && HeightOk(ns, bh, i);
        if ns[i].left.Some? { assert SamePayload(ns'[ns[i].left.value], ns[ns[i].left.value]); }
        if ns[i].right.Some? { assert SamePayload(ns'[ns[i].right.value], ns[ns[i].right.value]); }
        HeightOkFrame(ns, ns', bh, i);
      }
    }
  }

  lemma RedPairHeightAtPivot(ns: seq<Node>, ns': seq<Node>, bh: seq<nat>, x: nat, s: Side)
    requires CanRotate(ns, x, s) && RotationFacts(ns, x, s) && Rotated(ns, ns', x, s)
    requires |bh| == |ns| && HeightOk(ns, bh, x) && HeightOk(ns, bh, Child(ns[x], Opp(s)).value)
    requires ns[x].color == Red && ns[Child(ns[x], Opp(s)).value].color == Red
    ensures HeightOk(ns', bh, x)
  {
    var c := Child(ns[x], Opp(s)).value;
    var a, b := Child(ns[x], s), Child(ns[c], s);
    if a.Some? { assert SamePayload(ns'[a.value], ns[a.value]); }
    if b.Some? { assert SamePayload(ns'[b.value], ns[b.value]); }
    assert BlackOf(ns', bh, Child(ns'[x], s)) == BlackOf(ns, bh, a) == bh[x];
    assert BlackOf(ns', bh, Child(ns'[x], Opp(s))) == BlackOf(ns, bh, b) == bh[c] == bh[x];
  }

  lemma RedPairHeightAtChild(ns: seq<Node>, ns': seq<Node>, bh: seq<nat>, x: nat, s: Side)
    requires CanRotate(ns, x, s) && RotationFacts(ns, x, s) && Rotated(ns, ns', x, s)
    requires |bh| == |ns| && HeightOk(ns, bh, x) && HeightOk(ns, bh, Child(ns[x], Opp(s)).value)
    requires ns[x].color == Red && ns[Child(ns[x], Opp(s)).value].color == Red
    ensures HeightOk(ns', bh, Child(ns[x], Opp(s)).value)
  {
    var c := Child(ns[x], Opp(s)).value;
    var d := Child(ns[c], Opp(s));
    assert SamePayload(ns'[x], ns[x]);
    if d.Some? { assert SamePayload(ns'[d.value], ns[d.value]); }
    assert BlackOf(ns', bh, Child(ns'[c], s)) == bh[x] == bh[c];
    assert BlackOf(ns', bh, Child(ns'[c], Opp(s))) == BlackOf(ns, bh, d) == bh[c];
  }

  lemma RedPairHeightAtParent(ns: seq<Node>, ns': seq<Node>, bh: seq<nat>, x: nat, s: Side)
    requires CanRotate(ns, x, s) && RotationFacts(ns, x, s) && Rotated(ns, ns', x, s)
    requires |bh| == |ns| && HeightOk(ns, bh, x) && HeightOk(ns, bh, Child(ns[x], Opp(s)).value)
    requires ns[x].color == Red && ns[Child(ns[x], Opp(s)).value].color == Red
    requires ns[x].parent.Some? && HeightOk(ns, bh, ns[x].parent.value)
    ensures HeightOk(ns', bh, ns[x].parent.value)
  {
    var c, q := Child(ns[x], Opp(s)).value, ns[x].parent.value;
    var l, r := ns[q].left, ns[q].right;
    assert SamePayload(ns'[c], ns[c]);
    if l.Some? && l.value < |ns| { assert SamePayload(ns'[l.value], ns[l.value]); }
    if r.Some? && r.value < |ns| { assert SamePayload(ns'[r.value], ns[r.value]); }
    assert BlackOf(ns', bh, Some(c)) == BlackOf(ns, bh, Some(x));
  }

  /** After the inner rotation the red rule can fail only at the old parent x,
      which is now the outer child of c: the situation of case 3. */
  lemma RotateRedPairRedOk(ns: seq<Node>, ns': seq<Node>, x: nat, s: Side)
    requires Linked(ns) && CanRotate(ns, x, s) && RotationFacts(ns, x, s) && Rotated(ns, ns', x, s)
    requires RedOkExcept(ns, Child(ns[x], Opp(s)).value)
    requires ns[x].color == Red && ns[Child(ns[x], Opp(s)).value].color == Red
    ensures RedOkExcept(ns', x)
  {
    var c := Child(ns[x], Opp(s)).value;
    assert RedOk(ns, x);
    forall i: nat | i < |ns'| && i != x ensures RedOk(ns', i) {
      assert SamePayload(ns'[i], ns[i]);
      if i != c {
        assert RedOk(ns, i);
      }
      if ns'[i].parent.Some? && ns'[i].parent.value < |ns| {
        assert SamePayload(ns'[ns'[i].parent.value], ns[ns'[i].parent.value]);
      }
      if ns[i].parent.Some? && ns[i].parent.value < |ns| {
        assert SamePayload(ns'[ns[i].parent.value], ns[ns[i].parent.value]);
      }
    }
  }

  /** `std::swap` of the colours of nodes i and j. */
  ghost function SwapColours(ns: seq<Node>, i: nat, j: nat): seq<Node>
    requires i < |ns| && j < |ns|
  {
    var ns1 := ns[i := ns[i].(color := ns[j].color)];
    ns1[j := ns1[j].(color := ns[i].color)]
  }

  /** Case 3, BLACK uncle and z on the outer side: rotating the BLACK
      grandparent x away from its RED child c and swapping their colours keeps
      every black height. (The rotation is towards the uncle's side t.) */
  lemma ZigZigBalanced(ns: seq<Node>, ns': seq<Node>, bh: seq<nat>, x: nat, t: Side)
    requires Linked(ns) && CanRotate(ns, x, t) && RotationFacts(ns, x, t) && Rotated(ns, ns', x, t)
    requires Balanced(ns, bh)
    requires ns[x].color == Black && ns[Child(ns[x], Opp(t)).value].color == Red
    ensures Balanced(SwapColours(ns', Child(ns[x], Opp(t)).value, x), bh)
  {
    var c := Child(ns[x], Opp(t)).value;
    var ns'' := SwapColours(ns', c, x);
    assert HeightOk(ns, bh, x) && HeightOk(ns, bh, c);
    forall i: nat | i < |ns''| ensures HeightOk(ns'', bh, i) {
      if i == x {
        ZigZigHeightAtPivot(ns, ns', bh, x, t);
      } else if i == c {
        ZigZigHeightAtChild(ns, ns', bh, x, t);
      } else if ns[x].parent == Some(i) {
        assert HeightOk(ns, bh, i);
        ZigZigHeightAtParent(ns, ns', bh, x, t);
      } else {
        assert LinkOk(ns, i) && HeightOk(ns, bh, i);
        if ns[i].left.Some? { assert SamePayload(ns'[ns[i].left.value], ns[ns[i].left.value]); }
        if ns[i].right.Some? { assert SamePayload(ns'[ns[i].right.value], ns[ns[i].right.value]); }
        HeightOkFrame(ns, ns'', bh, i);
      }
    }
  }

  lemma ZigZigHeightAtPivot(ns: seq<Node>, ns': seq<Node>, bh: seq<nat>, x: nat, t: Side)
    requires CanRotate(ns, x, t) && RotationFacts(ns, x, t) && Rotated(ns, ns', x, t)
    requires |bh| == |ns| && HeightOk(ns, bh, x) && HeightOk(ns, bh, Child(ns[x], Opp(t)).value)
    requires ns[x].color == Black && ns[Child(ns[x], Opp(t)).value].color == Red
    ensures HeightOk(SwapColours(ns', Child(ns[x], Opp(t)).value, x), bh, x)
  {
    var c := Child(ns[x], Opp(t)).value;
    var ns'' := SwapColours(ns', c, x);
    var a, b := Child(ns[x], t), Child(ns[c], t);
    if a.Some? { assert SamePayload(ns'[a.value], ns[a.value]); }
    if b.Some? { assert SamePayload(ns'[b.value], ns[b.value]); }
    assert BlackOf(ns'', bh, Child(ns''[x], t)) == BlackOf(ns, bh, a) == bh[x];
    assert BlackOf(ns'', bh, Child(ns''[x], Opp(t))) == BlackOf(ns, bh, b) == bh[c] == bh[x];
  }

  lemma ZigZigHeightAtChild(ns: seq<Node>, ns': seq<Node>, bh: seq<nat>, x: nat, t: Side)
    requires CanRotate(ns, x, t) && RotationFacts(ns, x, t) && Rotated(ns, ns', x, t)
    requires |bh| == |ns| && HeightOk(ns, bh, x) && HeightOk(ns, bh, Child(ns[x], Opp(t)).value)
    requires ns[x].color == Black && ns[Child(ns[x], Opp(t)).value].color == Red
    ensures HeightOk(SwapColours(ns', Child(ns[x], Opp(t)).value, x), bh, Child(ns[x], Opp(t)).value)
  {
    var c := Child(ns[x], Opp(t)).value;
    var ns'' := SwapColours(ns', c, x);
    var d := Child(ns[c], Opp(t));
    if d.Some? { assert SamePayload(ns'[d.value], ns[d.value]); }
    assert BlackOf(ns'', bh, Child(ns''[c], t)) == bh[x] == bh[c];
    assert BlackOf(ns'', bh, Child(ns''[c], Opp(t))) == BlackOf(ns, bh, d) == bh[c];
  }

  lemma ZigZigHeightAtParent(ns: seq<Node>, ns': seq<Node>, bh: seq<nat>, x: nat, t: Side)
    requires CanRotate(ns, x, t) && RotationFacts(ns, x, t) && Rotated(ns, ns', x, t)
    requires |bh| == |ns| && HeightOk(ns, bh, x) && HeightOk(ns, bh, Child(ns[x], Opp(t)).value)
    requires ns[x].color == Black && ns[Child(ns[x], Opp(t)).value].color == Red
    requires ns[x].parent.Some? && HeightOk(ns, bh, ns[x].parent.value)
    ensures HeightOk(SwapColours(ns', Child(ns[x], Opp(t)).value, x), bh, ns[x].parent.value)
  {
    var c, q := Child(ns[x], Opp(t)).value, ns[x].parent.value;
    var ns'' := SwapColours(ns', c, x);
    var l, r := ns[q].left, ns[q].right;
    if l.Some? && l.value < |ns| { assert SamePayload(ns'[l.value], ns[l.value]); }
    if r.Some? && r.value < |ns| { assert SamePayload(ns'[r.value], ns[r.value]); }
    assert BlackOf(ns'', bh, Some(c)) == BlackOf(ns, bh, Some(x));
  }

  /** After case 3 the red rule holds everywhere: c is BLACK, both its children
      are RED or absent, and their children are BLACK or absent. */
  lemma ZigZigRedOk(ns: seq<Node>, ns': seq<Node>, x: nat, t: Side)
    requires CanRotate(ns, x, t) && RotationFacts(ns, x, t) && Rotated(ns, ns', x, t)
    requires var c := Child(ns[x], Opp(t)).value;
      && Child(ns[c], Opp(t)).Some? && RedOkExcept(ns, Child(ns[c], Opp(t)).value)
      && ns[x].color == Black && ns[c].color == Red
      && (Child(ns[x], t).Some? ==> ns[Child(ns[x], t).value].color == Black)
    requires Linked(ns)
    ensures NoRedRed(SwapColours(ns', Child(ns[x], Opp(t)).value, x))
  {
    var c := Child(ns[x], Opp(t)).value;
    var z := Child(ns[c], Opp(t)).value;
    var ns'' := SwapColours(ns', c, x);
    forall i: nat | i < |ns''| ensures RedOk(ns'', i) {
      assert SamePayload(ns'[i], ns[i]) && LinkOk(ns, i);
      if i != z {
        assert RedOk(ns, i);
      }
      if ns[i].parent.Some? && ns[i].parent.value < |ns| {
        assert SamePayload(ns'[ns[i].parent.value], ns[ns[i].parent.value]);
      }
    }
  }

  /** After case 3 the root is BLACK: either it is c, now BLACK, or it is a
      node whose colour did not change. */
  lemma ZigZigRootBlack(ns: seq<Node>, ns': seq<Node>, root: Option<nat>, desc: seq<set<nat>>, x: nat, t: Side)
    requires CanRotate(ns, x, t) && RotationFacts(ns, x, t) && Rotated(ns, ns', x, t)
    requires |desc| == |ns| && Rooted(ns, root, desc) && RootBlack(ns, root)
    requires ns[x].color == Black
    ensures RootBlack(SwapColours(ns', Child(ns[x], Opp(t)).value, x), Rotate(ns, root, x, t).1)
  {
    if root.Some? {
      assert SamePayload(ns'[root.value], ns[root.value]);
    }
  }

  // ---------------------------------------------------------------------------
  // One pass of the loop of `fixInsert`

  /** The loop invariant of `fixInsert`: a search tree with balanced black
      heights in which only z may be a RED child of a RED parent, and the root
      is BLACK unless it is z itself. */
  ghost predicate FixInv(ns: seq<Node>, root: Option<nat>, desc: seq<set<nat>>, bh: seq<nat>, z: nat)
  {
    && Shaped(ns, root, desc) && Balanced(ns, bh) && z < |ns|
    && RedOkExcept(ns, z) && (RootBlack(ns, root) || root == Some(z))
  }

  /** The loop runs while z is a RED non-root node with a RED parent. */
  ghost predicate Violation(ns: seq<Node>, root: Option<nat>, z: nat)
  {
    && z < |ns| && Some(z) != root && ns[z].color == Red
    && ns[z].parent.Some? && ns[z].parent.value < |ns| && ns[ns[z].parent.value].color == Red
  }

  /** The grandparent dereferenced by `fixInsert` exists: a RED parent is not
      the root, so it has a parent, which is BLACK. */
  lemma GrandparentExists(ns: seq<Node>, root: Option<nat>, desc: seq<set<nat>>, bh: seq<nat>, z: nat)
    requires FixInv(ns, root, desc, bh, z) && Violation(ns, root, z)
    ensures var p := ns[z].parent.value;
      && p != z && ns[p].parent.Some? && ns[p].parent.value < |ns|
      && var g := ns[p].parent.value;
         g != p && g != z && ns[g].color == Black
         && (ns[g].left == Some(p) || ns[g].right == Some(p))
         && (ns[p].left == Some(z) || ns[p].right == Some(z))
         && desc[z] < desc[p] < desc[g]
  {
    var p := ns[z].parent.value;
    assert LinkOk(ns, z) && LinkOk(ns, p) && DescOk(ns, desc, z) && DescOk(ns, desc, p);
    assert RedOk(ns, p);
    var g := ns[p].parent.value;
    assert LinkOk(ns, g) && DescOk(ns, desc, g);
  }

  /** Case 1 restores the invariant one level up, at g. */
  lemma RecolorStep(ns: seq<Node>, ns': seq<Node>, root: Option<nat>, desc: seq<set<nat>>, bh: seq<nat>, bh': seq<nat>,
                    z: nat, s: Side, g: nat)
    requires FixInv(ns, root, desc, bh, z) && Violation(ns, root, z)
    requires var p := ns[z].parent.value; ns[p].parent.Some? && ns[p].parent.value == g
    requires TwoChildren(ns, g, s) && Child(ns[g], s) == ns[z].parent
    requires ns[Child(ns[g], Opp(s)).value].color == Red
    requires ns' == Recolor(ns, g, s) && bh' == bh[g := bh[g] + 1]
    ensures FixInv(ns', root, desc, bh', g) && Recoloured(ns, ns') && desc[z] < desc[g]
  {
    GrandparentExists(ns, root, desc, bh, z);
    var p := ns[z].parent.value;
    var u := Child(ns[g], Opp(s)).value;
    assert DescOk(ns, desc, g);
    RecolorBalanced(ns, bh, g, s);
    RecolorRedOk(ns, g, s, z);
    RecolorRecoloured(ns, g, s);
    RecolouredShaped(ns, Recolor(ns, g, s), root, desc);
    if root.Some? && root != Some(g) {
      assert LinkOk(ns, p) && LinkOk(ns, u);
      RecolorKeepsRoot(ns, root, desc, g, s);
    }
  }

  lemma RecolorRecoloured(ns: seq<Node>, g: nat, s: Side)
    requires TwoChildren(ns, g, s)
    ensures Recoloured(ns, Recolor(ns, g, s))
  {
  }

  lemma RecolorKeepsRoot(ns: seq<Node>, root: Option<nat>, desc: seq<set<nat>>, g: nat, s: Side)
    requires TwoChildren(ns, g, s) && |desc| == |ns| && Rooted(ns, root, desc) && RootBlack(ns, root)
    requires root.Some? && root != Some(g)
    requires ns[Child(ns[g], s).value].parent.Some? && ns[Child(ns[g], Opp(s)).value].parent.Some?
    ensures RootBlack(Recolor(ns, g, s), root)
  {
  }

  /** Case 3: rotating at g away from p and swapping their colours ends the
      loop with every colour rule restored. */
  lemma ZigZigStep(ns: seq<Node>, ns': seq<Node>, ns'': seq<Node>, root: Option<nat>, root': Option<nat>,
                   desc: seq<set<nat>>, desc': seq<set<nat>>, bh: seq<nat>, z: nat, p: nat, g: nat, s: Side)
    requires FixInv(ns, root, desc, bh, z) && Violation(ns, root, z)
    requires ns[z].parent == Some(p) && p < |ns| && ns[p].parent == Some(g) && g < |ns|
    requires Child(ns[g], s) == Some(p) && Child(ns[p], s) == Some(z)
    requires Child(ns[g], Opp(s)).Some? && Child(ns[g], Opp(s)).value < |ns| ==>
               ns[Child(ns[g], Opp(s)).value].color == Black
    requires CanRotate(ns, g, Opp(s))
    requires ns' == Rotate(ns, root, g, Opp(s)).0 && root' == Rotate(ns, root, g, Opp(s)).1
    requires desc' == RotateDesc(ns, desc, g, Opp(s))
    requires ns'' == SwapColours(ns', p, g)
    ensures FixInv(ns'', root', desc', bh, p) && NoRedRed(ns'') && RootBlack(ns'', root')
    ensures ns''[p].color == Black && desc'[p] == desc[g] && desc[z] < desc[g]
    ensures |ns''| == |ns| && forall i | 0 <= i < |ns| :: SameEntry(ns''[i], ns[i])
  {
    GrandparentExists(ns, root, desc, bh, z);
    var t := Opp(s);
    assert Child(ns[g], Opp(t)) == Some(p);
    RotateShaped(ns, root, desc, g, t);
    ZigZigBalanced(ns, ns', bh, g, t);
    assert Child(ns[p], Opp(t)) == Some(z);
    ZigZigRedOk(ns, ns', g, t);
    ZigZigRootBlack(ns, ns', root, desc, g, t);
    SwapRecoloured(ns', p, g);
    RecolouredShaped(ns', ns'', root', desc');
  }

  lemma SwapRecoloured(ns: seq<Node>, i: nat, j: nat)
    requires i < |ns| && j < |ns|
    ensures Recoloured(ns, SwapColours(ns, i, j))
  {
  }

  /** Case 2: rotating at p towards g's side s turns the inner RED child z
      into p's parent and leaves the offending pair, now p below z, on the
      outer side, ready for case 3. */
  lemma ZigZagStep(ns: seq<Node>, root: Option<nat>, desc: seq<set<nat>>, bh: seq<nat>, z: nat, s: Side)
    requires FixInv(ns, root, desc, bh, z) && Violation(ns, root, z)
    requires var p := ns[z].parent.value; ns[p].parent.Some? && ns[p].parent.value < |ns|
    requires var p := ns[z].parent.value; var g := ns[p].parent.value;
      Child(ns[g], s) == Some(p) && Child(ns[p], Opp(s)) == Some(z)
    ensures var p := ns[z].parent.value; var g := ns[p].parent.value;
      && CanRotate(ns, p, s)
      && var (ns', root') := Rotate(ns, root, p, s);
      && var desc' := RotateDesc(ns, desc, p, s);
      && FixInv(ns', root', desc', bh, p) && Violation(ns', root', p) && RootBlack(ns', root')
      && ns'[p].parent == Some(z) && ns'[z].parent == Some(g) && g < |ns'|
      && Child(ns'[g], s) == Some(z) && Child(ns'[z], s) == Some(p)
      && Child(ns'[g], Opp(s)) == Child(ns[g], Opp(s))
      && (forall i | 0 <= i < |ns| :: SamePayload(ns'[i], ns[i]))
      && desc'[g] == desc[g] && desc[z] < desc[g]
  {
    GrandparentExists(ns, root, desc, bh, z);
    var p := ns[z].parent.value;
    var g := ns[p].parent.value;
    assert CanRotate(ns, p, s);
    var (ns', root') := Rotate(ns, root, p, s);
    RotateShaped(ns, root, desc, p, s);
    RotateRedPairBalanced(ns, ns', bh, p, s);
    RotateRedPairRedOk(ns, ns', p, s);
    assert root != Some(p) && root != Some(z) by {
      assert LinkOk(ns, p);
    }
    if root.Some? {
      assert SamePayload(ns'[root.value], ns[root.value]);
    }
    assert SamePayload(ns'[p], ns[p]) && SamePayload(ns'[z], ns[z]);
  }
}
