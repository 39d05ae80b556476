/**
  The class `RBTree` of rbtree.cpp: a red-black tree of films keyed by name,
  each node carrying the running aggregate of the ratings given to its film.

  The nodes live in an arena `nodes`; a link is the index of the node it
  points to. Three ghost fields carry what the proofs need: `desc` (the
  descendants of every node), `bh` (the black height of every node) and
  `ratings` (for every film, the ratings it has received, in order).
*/
module RedBlackTree {
  import opened Options
  import opened Lex
  import opened Nodes
  import opened Shape
  import opened Traversal
  import opened Colours
  import opened Rotations
  import opened Fixup
  import opened Insertion
  import opened Recommendation
  import opened Heights

  /** The ratings a film has received so far: none for a film not yet rated. */
  ghost function History(ratings: map<string, seq<real>>, k: string): seq<real>
  {
    if k in ratings then ratings[k] else []
  }

  /** Every film of the tree has a history of ratings whose aggregate its node
      holds, and every history belongs to a film of the tree. */
  ghost predicate Tallied(ns: seq<Node>, ratings: map<string, seq<real>>)
  {
    && ratings.Keys == Keys(ns)
    && forall i | 0 <= i < |ns| :: ns[i].key in ratings && Aggregates(ns[i], ratings[ns[i].key])
  }

  /** Nodes that keep their keys, colours and links keep every shape and
      colour rule, whatever happens to their aggregates. */
  lemma ReweighKeepsTree(ns: seq<Node>, ns': seq<Node>, root: Option<nat>, desc: seq<set<nat>>, bh: seq<nat>)
    requires Shaped(ns, root, desc) && Balanced(ns, bh) && NoRedRed(ns) && RootBlack(ns, root)
    requires |ns'| == |ns|
    requires forall i | 0 <= i < |ns| ::
      && ns'[i].key == ns[i].key && ns'[i].color == ns[i].color
      && ns'[i].left == ns[i].left && ns'[i].right == ns[i].right && ns'[i].parent == ns[i].parent
    ensures Shaped(ns', root, desc) && Balanced(ns', bh) && NoRedRed(ns') && RootBlack(ns', root)
  {
    assert SameShape(ns, ns');
    ShapedIgnoresPayload(ns, ns', root, desc);
    forall i: nat | i < |ns'| ensures HeightOk(ns', bh, i) && RedOk(ns', i) {
      assert HeightOk(ns, bh, i) && RedOk(ns, i);
      HeightOkFrame(ns, ns', bh, i);
    }
  }

  /** Two nodes of a search tree with the same key are the same node. */
  lemma UniqueKeys(ns: seq<Node>, root: Option<nat>, desc: seq<set<nat>>, i: nat, j: nat)
    requires Shaped(ns, root, desc) && i < |ns| && j < |ns| && ns[i].key == ns[j].key
    ensures i == j
  {
    KeysUnique(ns, desc, root, i, j);
  }

  /** Arenas whose nodes keep their keys hold the same keys. */
  lemma KeysFrame(ns: seq<Node>, ns': seq<Node>)
    requires |ns'| == |ns| && forall i | 0 <= i < |ns| :: ns'[i].key == ns[i].key
    ensures Keys(ns') == Keys(ns)
  {
    forall key ensures key in Keys(ns') <==> key in Keys(ns) {
      if key in Keys(ns) {
        var i :| 0 <= i < |ns| && ns[i].key == key;
        assert ns'[i].key == key;
      }
      if key in Keys(ns') {
        var i :| 0 <= i < |ns'| && ns'[i].key == key;
        assert ns[i].key == key;
      }
    }
  }

  /** Merging one more rating into the only node c of its film keeps the
      tally, with the rating appended to the history of that film. */
  lemma UpdateTallied(ns: seq<Node>, ratings: map<string, seq<real>>, c: nat, rating: real)
    requires Tallied(ns, ratings) && c < |ns|
    requires forall i | 0 <= i < |ns| && ns[i].key == ns[c].key :: i == c
    ensures ns[c].key in ratings
    ensures Tallied(ns[c := UpdateRating(ns[c], rating)], ratings[ns[c].key := ratings[ns[c].key] + [rating]])
  {
    var k := ns[c].key;
    var ns' := ns[c := UpdateRating(ns[c], rating)];
    var ratings' := ratings[k := ratings[k] + [rating]];
    UpdateRatingAverages(ns[c], ratings[k], rating);
    KeysFrame(ns, ns');
    forall i | 0 <= i < |ns'| ensures ns'[i].key in ratings' && Aggregates(ns'[i], ratings'[ns'[i].key]) {
      if i != c {
        assert ns'[i] == ns[i] && ns[i].key != k;
      }
    }
  }

  /** A node for a new film with a single rating extends the tally by that
      film. */
  lemma AttachTallied(ns: seq<Node>, ratings: map<string, seq<real>>, p: Option<nat>, s: Side, k: string, rating: real)
    requires Tallied(ns, ratings) && Hook(ns, p, s) && k !in Keys(ns)
    ensures Tallied(Attach(ns, p, s, NewNode(k, rating).(parent := p)), ratings[k := [rating]])
  {
    var leaf := NewNode(k, rating).(parent := p);
    var ns' := Attach(ns, p, s, leaf);
    AttachKeys(ns, p, s, leaf);
    forall i | 0 <= i < |ns'| ensures ns'[i].key in ratings[k := [rating]] && Aggregates(ns'[i], ratings[k := [rating]][ns'[i].key]) {
      if i < |ns| {
        assert SameEntry(ns'[i], ns[i]);
        assert ns[i].key in Keys(ns);
      }
    }
  }

  /** Changing colours and links but no entry keeps the tally. */
  lemma SameEntriesTallied(ns: seq<Node>, ns': seq<Node>, ratings: map<string, seq<real>>)
    requires Tallied(ns, ratings)
    requires |ns'| == |ns| && forall i | 0 <= i < |ns| :: SameEntry(ns'[i], ns[i])
    ensures Tallied(ns', ratings)
  {
    SameEntriesSameKeys(ns, ns');
    forall i | 0 <= i < |ns'| ensures ns'[i].key in ratings && Aggregates(ns'[i], ratings[ns'[i].key]) {
      assert SameEntry(ns'[i], ns[i]);
    }
  }

  /** The final `root->color = BLACK` of `fixInsert`: once the loop has
      stopped, blackening the root leaves a valid red-black tree. */
  lemma BlackenRoot(ns: seq<Node>, root: Option<nat>, desc: seq<set<nat>>, bh: seq<nat>, z: nat)
    requires FixInv(ns, root, desc, bh, z) && !Violation(ns, root, z)
    ensures root.Some?
    ensures var ns' := ns[root.value := ns[root.value].(color := Black)];
      && Shaped(ns', root, desc) && Balanced(ns', bh) && NoRedRed(ns') && RootBlack(ns', root)
      && Recoloured(ns, ns')
  {
    var r := root.value;
    var ns' := ns[r := ns[r].(color := Black)];
    assert Recoloured(ns, ns');
    RecolouredShaped(ns, ns', root, desc);
    assert RedOk(ns, z) by {
      assert LinkOk(ns, z);
    }
    forall i: nat | i < |ns'| ensures HeightOk(ns', bh, i) && RedOk(ns', i) {
      assert HeightOk(ns, bh, i) && RedOk(ns, i) && LinkOk(ns, i);
      HeightOkFrame(ns, ns', bh, i);
    }
  }

  /** The loop measure of `fixInsert`: the nodes outside the subtree of the
      current node become fewer whenever that subtree grows. */
  lemma ComplementShrinks(n: nat, a: set<nat>, b: set<nat>)
    requires a < b && forall j | j in b :: j < n
    ensures Range(n) - b < Range(n) - a
  {
    var j :| j in b && j !in a;
    assert j in Range(n) - a;
  }

  /** A node other than the root has a parent in the arena. */
  lemma NotRootHasParent(ns: seq<Node>, root: Option<nat>, desc: seq<set<nat>>, z: nat)
    requires Shaped(ns, root, desc) && z < |ns| && Some(z) != root
    ensures ns[z].parent.Some? && ns[z].parent.value < |ns|
  {
    assert LinkOk(ns, z);
  }

  /** One step of a descent by key k from node c to its side-s child, the
      side the comparison of k with the key of c chose: the path stays
      consistent with k, every node holding k stays below, and the subtree
      left to search shrinks. */
  lemma DescendStep(ns: seq<Node>, root: Option<nat>, desc: seq<set<nat>>, c: nat, s: Side, k: string)
    requires Shaped(ns, root, desc) && c < |ns| && PathOk(ns, desc, c, k)
    requires s == L ==> Less(k, ns[c].key)
    requires s == R ==> Less(ns[c].key, k)
    requires forall j | 0 <= j < |ns| && ns[j].key == k :: j in desc[c]
    ensures Child(ns[c], s).Some? ==> Child(ns[c], s).value < |ns| && PathOk(ns, desc, Child(ns[c], s).value, k)
    ensures forall j | 0 <= j < |ns| && ns[j].key == k :: j in Below(desc, Child(ns[c], s))
    ensures Below(desc, Child(ns[c], s)) < desc[c]
  {
    assert DescOk(ns, desc, c) && LinkOk(ns, c);
    LessIrreflexive(k);
    forall j | 0 <= j < |ns| && ns[j].key == k ensures j in Below(desc, Child(ns[c], s)) {
      DescendKeepsKey(ns, desc, c, s, k, j);
    }
    if Child(ns[c], s).Some? {
      DescendPathOk(ns, root, desc, c, s, k);
    }
  }

  class RBTree {
    var nodes: seq<Node>
    var root: Option<nat>
    ghost var desc: seq<set<nat>>
    ghost var bh: seq<nat>
    ghost var ratings: map<string, seq<real>>

    /** A red-black search tree over the whole arena whose nodes tally the
        ratings received. */
    ghost predicate Valid()
      reads this
    {
      && Shaped(nodes, root, desc) && Balanced(nodes, bh) && NoRedRed(nodes) && RootBlack(nodes, root)
      && Tallied(nodes, ratings)
    }

    /** What the colour rules are kept for: a valid tree of n films is at most
        2 * log2(n + 1) levels deep (12 for 100 films inserted in increasing
        order), so the descents of `insert` and `search` take O(log n) steps. */
    lemma HeightBound()
      requires Valid()
      ensures Height(nodes, desc, root) <= 2 * Log2(|nodes| + 1)
    {
      HeightLogarithmic(nodes, root, desc, bh);
    }

    /** The empty tree. */
    constructor ()
      ensures Valid() && nodes == [] && root == None && ratings == map[]
    {
      nodes, root := [], None;
      desc, bh, ratings := [], [], map[];
    }

    /** `leftRotate`: the right child of x takes the place of x, which becomes
        its left child. What the rotation keeps (the search-tree shape and the
        in-order sequence of keys) is proved about `Rotate` in RotateShaped
        and RotateKeepsInOrder. */
    method LeftRotate(x: nat)
      requires Shaped(nodes, root, desc) && CanRotate(nodes, x, L)
      modifies this
      ensures nodes == Rotate(old(nodes), old(root), x, L).0 && root == Rotate(old(nodes), old(root), x, L).1
      ensures desc == RotateDesc(old(nodes), old(desc), x, L)
      ensures bh == old(bh) && ratings == old(ratings)
    {
      ghost var ns0, root0, desc0 := nodes, root, desc;
      RotationFactsHold(nodes, desc, x, L);
      var ns := nodes;
      var child := ns[x].right.value;
      ns := ns[x := ns[x].(right := ns[child].left)];
      if ns[x].right.Some? {
        var b := ns[x].right.value;
        ns := ns[b := ns[b].(parent := Some(x))];
      }
      ns := ns[child := ns[child].(parent := ns[x].parent)];
      if ns[x].parent.None? {
        root := Some(child);
      } else if ns[ns[x].parent.value].left == Some(x) {
        var q := ns[x].parent.value;
        ns := ns[q := ns[q].(left := Some(child))];
      } else {
        var q := ns[x].parent.value;
        ns := ns[q := ns[q].(right := Some(child))];
      }
      ns := ns[child := ns[child].(left := Some(x))];
      ns := ns[x := ns[x].(parent := Some(child))];
      nodes := ns;
      forall i | 0 <= i < |ns| ensures ns[i] == RotateAt(ns0, x, L, i) {
        var c := Child(ns0[x], Opp(L)).value;
        if i == x {
        } else if i == c {
        } else if Child(ns0[c], L) == Some(i) {
        } else if ns0[x].parent == Some(i) {
        } else {
        }
      }
      assert ns == Rotate(ns0, root0, x, L).0;
      desc := RotateDesc(ns0, desc0, x, L);
    }

    /** `rightRotate`: the left child of y takes the place of y, which becomes
        its right child. */
    method RightRotate(y: nat)
      requires Shaped(nodes, root, desc) && CanRotate(nodes, y, R)
      modifies this
      ensures nodes == Rotate(old(nodes), old(root), y, R).0 && root == Rotate(old(nodes), old(root), y, R).1
      ensures desc == RotateDesc(old(nodes), old(desc), y, R)
      ensures bh == old(bh) && ratings == old(ratings)
    {
      ghost var ns0, root0, desc0 := nodes, root, desc;
      RotationFactsHold(nodes, desc, y, R);
      var ns := nodes;
      var child := ns[y].left.value;
      ns := ns[y := ns[y].(left := ns[child].right)];
      if ns[y].left.Some? {
        var b := ns[y].left.value;
        ns := ns[b := ns[b].(parent := Some(y))];
      }
      ns := ns[child := ns[child].(parent := ns[y].parent)];
      if ns[y].parent.None? {
        root := Some(child);
      } else if ns[ns[y].parent.value].right == Some(y) {
        var q := ns[y].parent.value;
        ns := ns[q := ns[q].(right := Some(child))];
      } else {
        var q := ns[y].parent.value;
        ns := ns[q := ns[q].(left := Some(child))];
      }
      ns := ns[child := ns[child].(right := Some(y))];
      ns := ns[y := ns[y].(parent := Some(child))];
      nodes := ns;
      forall i | 0 <= i < |ns| ensures ns[i] == RotateAt(ns0, y, R, i) {
        var c := Child(ns0[y], Opp(R)).value;
        if i == y {
        } else if i == c {
        } else if Child(ns0[c], R) == Some(i) {
        } else if ns0[y].parent == Some(i) {
        } else {
        }
      }
      assert ns == Rotate(ns0, root0, y, R).0;
      desc := RotateDesc(ns0, desc0, y, R);
    }

    /** The rotation at x towards side s: `leftRotate` for L, `rightRotate`
        for R. */
    method RotateTowards(x: nat, s: Side)
      requires Shaped(nodes, root, desc) && CanRotate(nodes, x, s)
      modifies this
      ensures nodes == Rotate(old(nodes), old(root), x, s).0 && root == Rotate(old(nodes), old(root), x, s).1
      ensures desc == RotateDesc(old(nodes), old(desc), x, s)
      ensures bh == old(bh) && ratings == old(ratings)
    {
      if s == L {
        LeftRotate(x);
      } else {
        RightRotate(x);
      }
    }

    /** Case 1 of `fixInsert` (the uncle is RED): the parent and the uncle
        turn BLACK, the grandparent turns RED and becomes the node to fix. */
    method RecolorCase(z: nat, s: Side) returns (g: nat)
      requires FixInv(nodes, root, desc, bh, z) && Violation(nodes, root, z)
      requires var p := nodes[z].parent.value; nodes[p].parent.Some? && nodes[p].parent.value < |nodes|
      requires var g := nodes[nodes[z].parent.value].parent.value;
        && Child(nodes[g], s) == nodes[z].parent
        && Child(nodes[g], Opp(s)).Some? && Child(nodes[g], Opp(s)).value < |nodes|
        && nodes[Child(nodes[g], Opp(s)).value].color == Red
      modifies this
      ensures g == old(nodes[nodes[z].parent.value].parent.value) && g < |old(bh)|
      ensures TwoChildren(old(nodes), g, s)
      ensures nodes == Recolor(old(nodes), g, s) && bh == old(bh)[g := old(bh)[g] + 1]
      ensures root == old(root) && desc == old(desc) && ratings == old(ratings)
      ensures FixInv(nodes, root, desc, bh, g) && Recoloured(old(nodes), nodes) && old(desc[z]) < desc[g]
    {
      ghost var ns1, bh1 := nodes, bh;
      var parent := nodes[z].parent.value;
      var grand := nodes[parent].parent.value;
      var uncle := Child(nodes[grand], Opp(s)).value;
      nodes := nodes[parent := nodes[parent].(color := Black)];
      nodes := nodes[uncle := nodes[uncle].(color := Black)];
      nodes := nodes[grand := nodes[grand].(color := Red)];
      bh := bh[grand := bh[grand] + 1];
      g := grand;
      GrandparentExists(ns1, root, desc, bh1, z);
      assert LinkOk(ns1, grand);
      RecolorStep(ns1, nodes, root, desc, bh1, bh, z, s, grand);
    }

    /** Case 2 of `fixInsert` (BLACK or missing uncle, z the inner child of
        its parent p): a rotation at p towards the grandparent's side s lifts z
        into the place of p, leaving p as the outer RED child of the RED z. */
    method LiftInner(z: nat, s: Side)
      requires FixInv(nodes, root, desc, bh, z) && Violation(nodes, root, z)
      requires var p := nodes[z].parent.value; nodes[p].parent.Some? && nodes[p].parent.value < |nodes|
      requires var p := nodes[z].parent.value; var g := nodes[p].parent.value;
        Child(nodes[g], s) == Some(p) && Child(nodes[p], Opp(s)) == Some(z)
      modifies this
      ensures var p := old(nodes[z].parent.value); var g := old(nodes[nodes[z].parent.value].parent.value);
        && FixInv(nodes, root, desc, bh, p) && Violation(nodes, root, p)
        && nodes[p].parent == Some(z) && nodes[z].parent == Some(g) && g < |nodes|
        && Child(nodes[g], s) == Some(z) && Child(nodes[z], s) == Some(p)
        && Child(nodes[g], Opp(s)) == old(Child(nodes[g], Opp(s)))
        && |nodes| == |old(nodes)| && (forall i | 0 <= i < |nodes| :: SamePayload(nodes[i], old(nodes[i])))
        && desc[g] == old(desc[g]) && old(desc[z]) < desc[g]
      ensures bh == old(bh) && ratings == old(ratings)
    {
      var parent := nodes[z].parent.value;
      ZigZagStep(nodes, root, desc, bh, z, s);
      RotateTowards(parent, s);
    }

    /** Case 3 of `fixInsert` (BLACK or missing uncle, z the outer child of
        its parent p): a rotation at the grandparent g away from side s lifts
        p into the place of g, and p and g swap colours. p, now BLACK, tops
        the subtree g had, and the repair is over. */
    method RotateOuter(z: nat, s: Side) returns (top: nat)
      requires FixInv(nodes, root, desc, bh, z) && Violation(nodes, root, z)
      requires var p := nodes[z].parent.value; nodes[p].parent.Some? && nodes[p].parent.value < |nodes|
      requires var p := nodes[z].parent.value; var g := nodes[p].parent.value;
        && Child(nodes[g], s) == Some(p) && Child(nodes[p], s) == Some(z)
        && (Child(nodes[g], Opp(s)).Some? && Child(nodes[g], Opp(s)).value < |nodes| ==>
              nodes[Child(nodes[g], Opp(s)).value].color == Black)
      modifies this
      ensures top == old(nodes[z].parent.value)
      ensures var g := old(nodes[nodes[z].parent.value].parent.value);
        && CanRotate(old(nodes), g, Opp(s))
        && nodes == SwapColours(Rotate(old(nodes), old(root), g, Opp(s)).0, top, g)
        && root == Rotate(old(nodes), old(root), g, Opp(s)).1
        && desc == RotateDesc(old(nodes), old(desc), g, Opp(s))
        && desc[top] == old(desc[g])
      ensures bh == old(bh) && ratings == old(ratings)
      ensures FixInv(nodes, root, desc, bh, top) && NoRedRed(nodes) && RootBlack(nodes, root)
      ensures nodes[top].color == Black
      ensures |nodes| == |old(nodes)| && forall i | 0 <= i < |nodes| :: SameEntry(nodes[i], old(nodes[i]))
      ensures old(desc[z]) < desc[top]
    {
      GrandparentExists(nodes, root, desc, bh, z);
      var parent := nodes[z].parent.value;
      var grand := nodes[parent].parent.value;
      ghost var ns0, root0, desc0 := nodes, root, desc;
      assert Child(nodes[grand], Opp(Opp(s))) == Some(parent);
      RotateTowards(grand, Opp(s));
      ghost var rotated := nodes;
      var c := nodes[parent].color;
      nodes := nodes[parent := nodes[parent].(color := nodes[grand].color)];
      nodes := nodes[grand := nodes[grand].(color := c)];
      ZigZigStep(ns0, rotated, nodes, root0, root, desc0, desc, bh, z, parent, grand, s);
      top := parent;
    }

    /** Cases 2 and 3 of `fixInsert` (the uncle is BLACK or missing): when z
        is the inner child of its parent, a rotation at the parent first lifts
        z into the parent's place (the source then refers to z as the parent
        and as the node); case 3 then ends the repair. */
    method RotateCase(z: nat, s: Side) returns (top: nat)
      requires FixInv(nodes, root, desc, bh, z) && Violation(nodes, root, z)
      requires var p := nodes[z].parent.value; nodes[p].parent.Some? && nodes[p].parent.value < |nodes|
      requires var g := nodes[nodes[z].parent.value].parent.value;
        && Child(nodes[g], s) == nodes[z].parent
        && (Child(nodes[g], Opp(s)).Some? && Child(nodes[g], Opp(s)).value < |nodes| ==>
              nodes[Child(nodes[g], Opp(s)).value].color == Black)
      modifies this
      ensures FixInv(nodes, root, desc, bh, top) && NoRedRed(nodes) && RootBlack(nodes, root)
      ensures nodes[top].color == Black
      ensures bh == old(bh) && ratings == old(ratings)
      ensures |nodes| == |old(nodes)| && forall i | 0 <= i < |nodes| :: SameEntry(nodes[i], old(nodes[i]))
      ensures old(desc[z]) < desc[top]
    {
      GrandparentExists(nodes, root, desc, bh, z);
      var parent := nodes[z].parent.value;
      assert LinkOk(nodes, z) && LinkOk(nodes, parent);
      if Child(nodes[parent], Opp(s)) == Some(z) {
        LiftInner(z, s);
        top := RotateOuter(parent, s);
      } else {
        assert Child(nodes[parent], s) == Some(z);
        top := RotateOuter(z, s);
      }
    }

    /** One pass of the loop of `fixInsert`, for a RED node z with a RED
        parent: the parent's side s under the grandparent selects the uncle,
        whose colour selects the case. The node returned, which the loop goes
        on with, has a strictly larger subtree than z had. */
    method FixStep(z: nat) returns (next: nat)
      requires FixInv(nodes, root, desc, bh, z) && Violation(nodes, root, z)
      modifies this
      ensures FixInv(nodes, root, desc, bh, next)
      ensures |nodes| == |old(nodes)| && forall i | 0 <= i < |nodes| :: SameEntry(nodes[i], old(nodes[i]))
      ensures ratings == old(ratings) && old(desc[z]) < desc[next]
    {
      GrandparentExists(nodes, root, desc, bh, z);
      var parent := nodes[z].parent.value;
      var grand := nodes[parent].parent.value;
      var s := if nodes[grand].left == Some(parent) then L else R;
      var uncle := Child(nodes[grand], Opp(s));
      assert LinkOk(nodes, grand);
      if uncle.Some? && nodes[uncle.value].color == Red {
        next := RecolorCase(z, s);
      } else {
        next := RotateCase(z, s);
      }
    }

    /** `fixInsert`: starting from a search tree whose colour rules hold
        everywhere except that z may be a RED child of a RED parent (or a RED
        root), recolour and rotate until they hold everywhere. Only colours and
        links change, so the tree keeps its films and their aggregates. */
    method FixInsert(z: nat)
      requires FixInv(nodes, root, desc, bh, z)
      modifies this
      ensures Shaped(nodes, root, desc) && Balanced(nodes, bh) && NoRedRed(nodes) && RootBlack(nodes, root)
      ensures |nodes| == |old(nodes)| && forall i | 0 <= i < |nodes| :: SameEntry(nodes[i], old(nodes)[i])
      ensures ratings == old(ratings)
    {
      ghost var ns0 := nodes;
      if Some(z) == root {
        BlackenRoot(nodes, root, desc, bh, z);
        nodes := nodes[z := nodes[z].(color := Black)];
        return;
      }
      var node := z;
      NotRootHasParent(nodes, root, desc, node);
      while Some(node) != root && nodes[node].color == Red && nodes[nodes[node].parent.value].color == Red
        invariant FixInv(nodes, root, desc, bh, node)
        invariant Some(node) != root ==> nodes[node].parent.Some? && nodes[node].parent.value < |nodes|
        invariant |nodes| == |ns0| && forall i | 0 <= i < |nodes| :: SameEntry(nodes[i], ns0[i])
        invariant ratings == old(ratings)
        decreases Range(|nodes|) - desc[node]
      {
        ghost var z1, desc1 := node, desc;
        node := FixStep(node);
        assert DescOk(nodes, desc, node);
        ComplementShrinks(|nodes|, desc1[z1], desc[node]);
        if Some(node) != root {
          NotRootHasParent(nodes, root, desc, node);
        }
      }
      BlackenRoot(nodes, root, desc, bh, node);
      var r := root.value;
      nodes := nodes[r := nodes[r].(color := Black)];
    }

    /** `current->updateRating(rating)` on node c of a valid tree: the node's
        aggregate absorbs the rating, which joins the history of its film;
        nothing else changes. */
    method UpdateRatingAt(c: nat, rating: real)
      requires Valid() && c < |nodes|
      modifies this
      ensures Valid()
      ensures nodes == old(nodes[c := UpdateRating(nodes[c], rating)])
      ensures old(nodes[c].key) in old(ratings)
      ensures ratings == old(ratings[nodes[c].key := ratings[nodes[c].key] + [rating]])
      ensures root == old(root) && desc == old(desc) && bh == old(bh)
    {
      forall i | 0 <= i < |nodes| && nodes[i].key == nodes[c].key ensures i == c {
        UniqueKeys(nodes, root, desc, i, c);
      }
      UpdateTallied(nodes, ratings, c, rating);
      ReweighKeepsTree(nodes, nodes[c := UpdateRating(nodes[c], rating)], root, desc, bh);
      ratings := ratings[nodes[c].key := ratings[nodes[c].key] + [rating]];
      nodes := nodes[c := UpdateRating(nodes[c], rating)];
    }

    /** The descent of `insert`: from the root, go right past a smaller name
        and left past a larger one, until a node with the name is found or the
        link to follow is missing. In the second case the name is in no node
        and the new leaf belongs on side `side` of the last node visited. */
    method Descend(k: string) returns (current: Option<nat>, parent: Option<nat>, ghost side: Side)
      requires Shaped(nodes, root, desc)
      ensures current.Some? ==> current.value < |nodes| && nodes[current.value].key == k
      ensures current.None? ==> k !in Keys(nodes) && AttachPoint(nodes, root, desc, parent, side, k)
    {
      current := root;
      parent := None;
      side := L;
      if root.Some? {
        RootPathOk(nodes, root, desc, k);
        assert forall j | 0 <= j < |nodes| :: j in Below(desc, root);
      }
      while current.Some?
        invariant current.Some? ==> current.value < |nodes| && PathOk(nodes, desc, current.value, k)
        invariant parent.None? ==> current == root
        invariant parent.Some? ==>
          && parent.value < |nodes| && current == Child(nodes[parent.value], side)
          && PathOk(nodes, desc, parent.value, k)
          && (side == L ==> Less(k, nodes[parent.value].key))
          && (side == R ==> Less(nodes[parent.value].key, k))
        invariant forall j | 0 <= j < |nodes| && nodes[j].key == k :: j in Below(desc, current)
        decreases Below(desc, current)
      {
        var c := current.value;
        parent := current;
        if Less(nodes[c].key, k) {
          DescendStep(nodes, root, desc, c, R, k);
          side := R;
          current := nodes[c].right;
        } else if Less(k, nodes[c].key) {
          DescendStep(nodes, root, desc, c, L, k);
          side := L;
          current := nodes[c].left;
        } else {
          assert nodes[c].key == k by {
            if nodes[c].key != k {
              LessTotal(nodes[c].key, k);
            }
          }
          return;
        }
      }
    }

    /** The linking step of `insert`: the new leaf takes the last node
        visited as its parent and is appended to the arena; it becomes the
        root of an empty tree, and otherwise the right child of a parent with
        a smaller name or the left child of one with a larger name. */
    method HangLeaf(newNode: Node, parent: Option<nat>, ghost side: Side) returns (n: nat)
      requires AttachPoint(nodes, root, desc, parent, side, newNode.key)
      requires Balanced(nodes, bh) && NoRedRed(nodes) && RootBlack(nodes, root)
      requires newNode.parent.None? && newNode.left.None? && newNode.right.None? && newNode.color == Red
      modifies this
      ensures n == |old(nodes)|
      ensures nodes == Attach(old(nodes), parent, side, newNode.(parent := parent))
      ensures root == if parent.None? then Some(n) else old(root)
      ensures desc == AttachDesc(old(nodes), old(desc), parent) && bh == old(bh) + [0] && ratings == old(ratings)
      ensures FixInv(nodes, root, desc, bh, n)
    {
      ghost var ns0, root0, desc0, bh0 := nodes, root, desc, bh;
      var leaf := newNode.(parent := parent);
      n := |nodes|;
      nodes := nodes + [leaf];
      if parent.None? {
        root := Some(n);
      } else if Less(nodes[parent.value].key, leaf.key) {
        if side == L {
          LessAsymmetric(leaf.key, nodes[parent.value].key);
        }
        nodes := nodes[parent.value := nodes[parent.value].(right := Some(n))];
      } else {
        nodes := nodes[parent.value := nodes[parent.value].(left := Some(n))];
      }
      assert nodes == Attach(ns0, parent, side, leaf);
      desc := AttachDesc(ns0, desc0, parent);
      bh := bh + [0];
      AttachStep(ns0, root0, desc0, bh0, parent, side, leaf.key, leaf);
    }

    /** `insert`, an upsert: a node with the name absorbs the rating;
        otherwise a new RED leaf with the single rating hangs where the descent
        fell off the tree, and `fixInsert` repairs the colours. Either way the
        rating joins the history of the film, and the tree stays a valid
        red-black tree. */
    method Insert(k: string, rating: real)
      requires Valid()
      modifies this
      ensures Valid()
      ensures ratings == old(ratings)[k := History(old(ratings), k) + [rating]]
      ensures k in old(ratings) ==>
        && root == old(root) && |nodes| == |old(nodes)|
        && forall i | 0 <= i < |nodes| ::
             nodes[i] == (if old(nodes[i].key) == k then UpdateRating(old(nodes[i]), rating) else old(nodes[i]))
      ensures k !in old(ratings) ==>
        && |nodes| == |old(nodes)| + 1 && nodes[|old(nodes)|].key == k
        && forall i | 0 <= i < |old(nodes)| :: SameEntry(nodes[i], old(nodes[i]))
    {
      var newNode := NewNode(k, rating);
      var current, parent, side := Descend(k);
      if current.Some? {
        var c := current.value;
        forall i | 0 <= i < |nodes| && nodes[i].key == k ensures i == c {
          UniqueKeys(nodes, root, desc, i, c);
        }
        ghost var ns0 := nodes;
        assert k in ratings && History(ratings, k) == ratings[k];
        UpdateRatingAt(c, rating);
        forall i | 0 <= i < |nodes|
          ensures nodes[i] == (if ns0[i].key == k then UpdateRating(ns0[i], rating) else ns0[i])
        {
        }
        return;
      }
      assert k !in ratings && History(ratings, k) + [rating] == [rating];
      AddLeaf(newNode, parent, side, rating);
    }

    /** The second half of `insert` for a name not yet in the tree: the new
        RED node is hung where the descent stopped and `fixInsert` restores
        the colour rules from it. */
    method AddLeaf(newNode: Node, parent: Option<nat>, ghost side: Side, rating: real)
      requires Valid() && newNode == NewNode(newNode.key, rating)
      requires newNode.key !in Keys(nodes) && AttachPoint(nodes, root, desc, parent, side, newNode.key)
      modifies this
      ensures Valid() && ratings == old(ratings)[newNode.key := [rating]]
      ensures |nodes| == |old(nodes)| + 1 && nodes[|old(nodes)|].key == newNode.key
      ensures forall i | 0 <= i < |old(nodes)| :: SameEntry(nodes[i], old(nodes[i]))
    {
      ghost var ns0, ratings0 := nodes, ratings;
      var n := HangLeaf(newNode, parent, side);
      ratings := ratings[newNode.key := [rating]];
      AttachTallied(ns0, ratings0, parent, side, newNode.key, rating);
      AttachKeys(ns0, parent, side, newNode.(parent := parent));
      ghost var attached := nodes;
      FixInsert(n);
      SameEntriesTallied(attached, nodes, ratings);
      assert SameEntry(nodes[n], attached[n]);
      forall i | 0 <= i < |ns0| ensures SameEntry(nodes[i], ns0[i]) {
        assert SameEntry(nodes[i], attached[i]) && SameEntry(attached[i], ns0[i]);
      }
    }

    /** `search`: the same descent as `insert`; the node with the name if
        there is one, which then holds the aggregate of every rating the film
        has received, and None exactly when no node has it. */
    method Search(k: string) returns (r: Option<nat>)
      requires Valid()
      ensures r.None? <==> k !in Keys(nodes)
      ensures r.Some? ==> r.value < |nodes| && nodes[r.value].key == k
      ensures r.Some? ==> k in ratings && Aggregates(nodes[r.value], ratings[k])
    {
      var current: Option<nat> := root;
      if root.Some? {
        RootPathOk(nodes, root, desc, k);
        assert forall j | 0 <= j < |nodes| :: j in Below(desc, root);
      }
      while current.Some?
        invariant current.Some? ==> current.value < |nodes| && PathOk(nodes, desc, current.value, k)
        invariant forall j | 0 <= j < |nodes| && nodes[j].key == k :: j in Below(desc, current)
        decreases Below(desc, current)
      {
        var c := current.value;
        if Less(nodes[c].key, k) {
          DescendStep(nodes, root, desc, c, R, k);
          current := nodes[c].right;
        } else if Less(k, nodes[c].key) {
          DescendStep(nodes, root, desc, c, L, k);
          current := nodes[c].left;
        } else {
          assert nodes[c].key == k by {
            if nodes[c].key != k {
              LessTotal(nodes[c].key, k);
            }
          }
          return Some(c);
        }
      }
      return None;
    }

    /** `inOrderRecommend`, which despite its name visits a node before its
        left subtree and that before its right subtree: the best match after
        the subtree under t is that of scanning its nodes in this order,
        starting from the best match so far. */
    method InOrderRecommend(t: Option<nat>, target: real, best: Option<Match>) returns (best': Option<Match>)
      requires Forest(nodes, desc) && (t.Some? ==> t.value < |nodes|) && MatchOk(nodes, target, best)
      ensures InArena(nodes, PreOrder(nodes, desc, t))
      ensures best' == Scan(nodes, target, best, PreOrder(nodes, desc, t))
      decreases Below(desc, t)
    {
      PreOrderCovers(nodes, desc, t);
      if t.None? {
        return best;
      }
      var node := t.value;
      assert DescOk(nodes, desc, node) && LinkOk(nodes, node);
      var currDiff := Dist(nodes[node].mean, target);
      best' := best;
      if best'.None? || currDiff < best'.value.diff {
        best' := Some(Match(node, currDiff));
      }
      ghost var visited := best';
      var l, r := nodes[node].left, nodes[node].right;
      PreOrderCovers(nodes, desc, l);
      PreOrderCovers(nodes, desc, r);
      best' := InOrderRecommend(l, target, best');
      ScanFinds(nodes, target, visited, PreOrder(nodes, desc, l));
      best' := InOrderRecommend(r, target, best');
      ghost var s1, s2 := PreOrder(nodes, desc, l), PreOrder(nodes, desc, r);
      assert PreOrder(nodes, desc, t) == [node] + s1 + s2;
      assert Scan(nodes, target, best, [node]) == visited;
      ScanAppend(nodes, target, best, [node], s1);
      ScanAppend(nodes, target, best, [node] + s1, s2);
    }

    /** `recommend`: None for an empty tree, and otherwise a node whose mean
        rating is closest to the target -- the first such node in the order
        of the scan. */
    method Recommend(target: real) returns (r: Option<nat>)
      requires Valid()
      ensures r.None? <==> root.None?
      ensures r.Some? ==> r.value < |nodes|
      ensures r.Some? ==> forall i | 0 <= i < |nodes| :: Dist(nodes[r.value].mean, target) <= Dist(nodes[i].mean, target)
      ensures r.Some? ==> InArena(nodes, PreOrder(nodes, desc, root)) &&
                          FirstClosest(nodes, target, PreOrder(nodes, desc, root), r.value)
    {
      if root.None? {
        return None;
      }
      var bestMatch := InOrderRecommend(root, target, None);
      ghost var order := PreOrder(nodes, desc, root);
      PreOrderCovers(nodes, desc, root);
      ScanFromNothing(nodes, target, order);
      assert root.value in order;
      r := Some(bestMatch.value.node);
      forall i | 0 <= i < |nodes| ensures Dist(nodes[r.value].mean, target) <= Dist(nodes[i].mean, target) {
        assert i in desc[root.value];
        var m :| 0 <= m < |order| && order[m] == i;
      }
    }
  }
}
