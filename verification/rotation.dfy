/**
  `leftRotate` and `rightRotate` of rbtree.cpp keep the arena a well-linked
  binary search tree: every changed child link gets its parent back-link, the
  rising child takes the pivot's slot (or becomes the root), and only the pivot
  and the rising child get new descendant sets.
*/
module Rotations {
  import opened Options
  import opened Lex
  import opened Nodes
  import opened Shape
  import opened Traversal

  /** The nodes a rotation at x towards side s touches below x -- the rising
      child c, the side-s child a of x and the children b (side s) and d of c --
      are distinct and linked to each other as expected. */
  ghost predicate LowerFacts(ns: seq<Node>, x: nat, s: Side)
    requires CanRotate(ns, x, s)
  {
    var c := Child(ns[x], Opp(s)).value;
    var a, b, d := Child(ns[x], s), Child(ns[c], s), Child(ns[c], Opp(s));
    && c != x && ns[c].parent == Some(x)
    && (a.Some? ==> a.value < |ns| && a.value != x && a.value != c && ns[a.value].parent == Some(x)
                    && a != b && a != d)
    && (b.Some? ==> b.value < |ns| && b.value != x && b.value != c && ns[b.value].parent == Some(c)
                    && b != d)
    && (d.Some? ==> d.value < |ns| && d.value != x && d.value != c && ns[d.value].parent == Some(c))
  }

  /** The parent q of x, if any, lies outside the subtree of x and holds x in
      exactly one of its slots. */
  ghost predicate UpperFacts(ns: seq<Node>, x: nat, s: Side)
    requires CanRotate(ns, x, s)
  {
    var c := Child(ns[x], Opp(s)).value;
    var a, b, d, q := Child(ns[x], s), Child(ns[c], s), Child(ns[c], Opp(s)), ns[x].parent;
    q.Some? ==>
      && q.value < |ns| && q.value != x && q.value != c && q != a && q != b && q != d
      && (ns[q.value].left == Some(x) || ns[q.value].right == Some(x))
      && ns[q.value].left != ns[q.value].right && ns[q.value].parent != q
  }

  ghost predicate RotationFacts(ns: seq<Node>, x: nat, s: Side)
    requires CanRotate(ns, x, s)
  {
    LowerFacts(ns, x, s) && UpperFacts(ns, x, s)
  }

  lemma LowerFactsHold(ns: seq<Node>, desc: seq<set<nat>>, x: nat, s: Side)
    requires CanRotate(ns, x, s) && |desc| == |ns|
    requires var c := Child(ns[x], Opp(s)).value;
      && LinkOk(ns, x) && LinkOk(ns, c) && DescOk(ns, desc, x) && DescOk(ns, desc, c)
      && (Child(ns[x], s).Some? ==> Child(ns[x], s).value < |ns| && DescOk(ns, desc, Child(ns[x], s).value))
      && (Child(ns[c], s).Some? ==> Child(ns[c], s).value < |ns| && DescOk(ns, desc, Child(ns[c], s).value))
    ensures LowerFacts(ns, x, s)
  {
  }

  lemma UpperFactsHold(ns: seq<Node>, desc: seq<set<nat>>, x: nat, s: Side)
    requires CanRotate(ns, x, s) && |desc| == |ns|
    requires ns[x].parent.Some? ==> var q := ns[x].parent.value;
      && q < |ns| && LinkOk(ns, q) && DescOk(ns, desc, q) && DescOk(ns, desc, x)
      && (ns[q].left.Some? ==> ns[q].left.value < |ns| && DescOk(ns, desc, ns[q].left.value))
      && (ns[q].right.Some? ==> ns[q].right.value < |ns| && DescOk(ns, desc, ns[q].right.value))
      && (ns[x].left.Some? ==> ns[x].left.value < |ns| && DescOk(ns, desc, ns[x].left.value))
      && (ns[x].right.Some? ==> ns[x].right.value < |ns| && DescOk(ns, desc, ns[x].right.value))
    requires LinkOk(ns, x)
    ensures UpperFacts(ns, x, s)
  {
  }

  lemma RotationFactsHold(ns: seq<Node>, desc: seq<set<nat>>, x: nat, s: Side)
    requires Forest(ns, desc) && CanRotate(ns, x, s)
    ensures RotationFacts(ns, x, s)
  {
    var c := Child(ns[x], Opp(s)).value;
    assert LinkOk(ns, x) && LinkOk(ns, c);
    LowerFactsHold(ns, desc, x, s);
    if ns[x].parent.Some? {
      assert LinkOk(ns, ns[x].parent.value);
    }
    UpperFactsHold(ns, desc, x, s);
  }

  /** ns' is ns after a rotation at x towards side s, described field by field:
      only x, c and the former side-s child b of c get a new parent, only x, c
      and the parent q of x get new children, and no payload changes. */
  ghost predicate Rotated(ns: seq<Node>, ns': seq<Node>, x: nat, s: Side)
    requires CanRotate(ns, x, s)
  {
    var c := Child(ns[x], Opp(s)).value;
    var b, q := Child(ns[c], s), ns[x].parent;
    && |ns'| == |ns|
    && ns'[x] == WithChild(ns[x], Opp(s), b).(parent := Some(c))
    && ns'[c] == WithChild(ns[c], s, Some(x)).(parent := q)
    && (b.Some? ==> b.value < |ns| && ns'[b.value].parent == Some(x))
    && (q.Some? ==>
          && q.value < |ns|
          && Child(ns'[q.value], s) == (if Child(ns[q.value], s) == Some(x) then Some(c) else Child(ns[q.value], s))
          && Child(ns'[q.value], Opp(s)) ==
             (if Child(ns[q.value], s) == Some(x) then Child(ns[q.value], Opp(s)) else Some(c)))
    && (forall i: nat | i < |ns| && i != x && i != c && b != Some(i) :: ns'[i].parent == ns[i].parent)
    && (forall i: nat | i < |ns| && i != x && i != c && q != Some(i) ::
          ns'[i].left == ns[i].left && ns'[i].right == ns[i].right)
    && (forall i: nat | i < |ns| :: SamePayload(ns'[i], ns[i]))
  }

  lemma RotatePoints(ns: seq<Node>, root: Option<nat>, desc: seq<set<nat>>, x: nat, s: Side)
    requires Forest(ns, desc) && CanRotate(ns, x, s)
    ensures Rotated(ns, Rotate(ns, root, x, s).0, x, s)
  {
    RotationFactsHold(ns, desc, x, s);
  }

  lemma RotateDownAt(ns: seq<Node>, ns': seq<Node>, x: nat, s: Side, i: nat)
    requires CanRotate(ns, x, s) && RotationFacts(ns, x, s) && Rotated(ns, ns', x, s)
    requires i < |ns| && DownOk(ns, i)
    ensures DownOk(ns', i)
  {
  }

  lemma RotateUpAt(ns: seq<Node>, ns': seq<Node>, x: nat, s: Side, i: nat)
    requires CanRotate(ns, x, s) && RotationFacts(ns, x, s) && Rotated(ns, ns', x, s)
    requires i < |ns| && UpOk(ns, i)
    ensures UpOk(ns', i)
  {
  }

  lemma RotateDescAtPivot(ns: seq<Node>, ns': seq<Node>, desc: seq<set<nat>>, x: nat, s: Side)
    requires CanRotate(ns, x, s) && RotationFacts(ns, x, s) && Rotated(ns, ns', x, s)
    requires |desc| == |ns| && DescOk(ns, desc, x) && DescOk(ns, desc, Child(ns[x], Opp(s)).value)
    ensures DescOk(ns', RotateDesc(ns, desc, x, s), x)
  {
  }

  lemma RotateOrderAtPivot(ns: seq<Node>, ns': seq<Node>, desc: seq<set<nat>>, x: nat, s: Side)
    requires CanRotate(ns, x, s) && RotationFacts(ns, x, s) && Rotated(ns, ns', x, s)
    requires |desc| == |ns| && DescOk(ns, desc, x) && DescOk(ns, desc, Child(ns[x], Opp(s)).value)
    requires OrderOk(ns, desc, x)
    ensures OrderOk(ns', RotateDesc(ns, desc, x, s), x)
  {
  }

  lemma RotateDescAtChild(ns: seq<Node>, ns': seq<Node>, desc: seq<set<nat>>, x: nat, s: Side)
    requires CanRotate(ns, x, s) && RotationFacts(ns, x, s) && Rotated(ns, ns', x, s)
    requires |desc| == |ns| && DescOk(ns, desc, x) && DescOk(ns, desc, Child(ns[x], Opp(s)).value)
    ensures DescOk(ns', RotateDesc(ns, desc, x, s), Child(ns[x], Opp(s)).value)
  {
  }

  /** The pivot x now sits on side s of c, and so does everything on side s of x. */
  lemma RotateOrderAtChild(ns: seq<Node>, ns': seq<Node>, desc: seq<set<nat>>, x: nat, s: Side)
    requires CanRotate(ns, x, s) && RotationFacts(ns, x, s) && Rotated(ns, ns', x, s)
    requires |desc| == |ns| && DescOk(ns, desc, x) && DescOk(ns, desc, Child(ns[x], Opp(s)).value)
    requires OrderOk(ns, desc, x) && OrderOk(ns, desc, Child(ns[x], Opp(s)).value)
    ensures OrderOk(ns', RotateDesc(ns, desc, x, s), Child(ns[x], Opp(s)).value)
  {
    var c := Child(ns[x], Opp(s)).value;
    var desc' := RotateDesc(ns, desc, x, s);
    var A := Below(desc, Child(ns[x], s));
    assert Below(desc', Child(ns'[c], s)) == desc'[x] == {x} + A + Below(desc, Child(ns[c], s));
    assert Below(desc', Child(ns'[c], Opp(s))) == Below(desc, Child(ns[c], Opp(s)));
    if s == L {
      forall j | j in desc'[x] ensures j < |ns| && Less(ns'[j].key, ns'[c].key) {
        if j in A {
          LessTransitive(ns[j].key, ns[x].key, ns[c].key);
        }
      }
    } else {
      forall j | j in desc'[x] ensures j < |ns| && Less(ns'[c].key, ns'[j].key) {
        if j in A {
          LessTransitive(ns[c].key, ns[x].key, ns[j].key);
        }
      }
    }
  }

  /** The parent of x sees c, with the same descendants, where it saw x. */
  lemma RotateDescAtParent(ns: seq<Node>, ns': seq<Node>, desc: seq<set<nat>>, x: nat, s: Side)
    requires CanRotate(ns, x, s) && RotationFacts(ns, x, s) && Rotated(ns, ns', x, s)
    requires |desc| == |ns| && ns[x].parent.Some?
    requires DownOk(ns, ns[x].parent.value)
    requires DescOk(ns, desc, ns[x].parent.value) && OrderOk(ns, desc, ns[x].parent.value)
    ensures DescOk(ns', RotateDesc(ns, desc, x, s), ns[x].parent.value)
    ensures OrderOk(ns', RotateDesc(ns, desc, x, s), ns[x].parent.value)
  {
    var q, c := ns[x].parent.value, Child(ns[x], Opp(s)).value;
    var desc' := RotateDesc(ns, desc, x, s);
    assert desc'[q] == desc[q] && desc'[c] == desc[x];
    if ns[q].left == Some(x) {
      assert ns'[q].left == Some(c) && ns'[q].right == ns[q].right;
      assert Below(desc', ns'[q].right) == Below(desc, ns[q].right);
    } else {
      assert ns'[q].right == Some(c) && ns'[q].left == ns[q].left;
      assert Below(desc', ns'[q].left) == Below(desc, ns[q].left);
    }
  }

  lemma RotateDescElsewhere(ns: seq<Node>, ns': seq<Node>, desc: seq<set<nat>>, x: nat, s: Side, i: nat)
    requires CanRotate(ns, x, s) && RotationFacts(ns, x, s) && Rotated(ns, ns', x, s)
    requires |desc| == |ns| && i < |ns| && i != x && i != Child(ns[x], Opp(s)).value && ns[x].parent != Some(i)
    requires DownOk(ns, i) && DescOk(ns, desc, i) && OrderOk(ns, desc, i)
    ensures DescOk(ns', RotateDesc(ns, desc, x, s), i) && OrderOk(ns', RotateDesc(ns, desc, x, s), i)
  {
  }

  lemma RotateLinked(ns: seq<Node>, ns': seq<Node>, x: nat, s: Side)
    requires Linked(ns) && CanRotate(ns, x, s) && RotationFacts(ns, x, s) && Rotated(ns, ns', x, s)
    ensures Linked(ns')
  {
    forall i: nat | i < |ns'| ensures LinkOk(ns', i) {
      assert LinkOk(ns, i);
      RotateDownAt(ns, ns', x, s, i);
      RotateUpAt(ns, ns', x, s, i);
    }
  }

  lemma RotateDescendedOrdered(ns: seq<Node>, ns': seq<Node>, desc: seq<set<nat>>, x: nat, s: Side)
    requires Forest(ns, desc) && Ordered(ns, desc)
    requires CanRotate(ns, x, s) && RotationFacts(ns, x, s) && Rotated(ns, ns', x, s)
    ensures Descended(ns', RotateDesc(ns, desc, x, s)) && Ordered(ns', RotateDesc(ns, desc, x, s))
  {
    var c := Child(ns[x], Opp(s)).value;
    var desc' := RotateDesc(ns, desc, x, s);
    assert DescOk(ns, desc, x) && DescOk(ns, desc, c) && OrderOk(ns, desc, x) && OrderOk(ns, desc, c);
    forall i: nat | i < |ns'| ensures DescOk(ns', desc', i) && OrderOk(ns', desc', i) {
      if i == x {
        RotateDescAtPivot(ns, ns', desc, x, s);
        RotateOrderAtPivot(ns, ns', desc, x, s);
      } else if i == c {
        RotateDescAtChild(ns, ns', desc, x, s);
        RotateOrderAtChild(ns, ns', desc, x, s);
      } else if ns[x].parent == Some(i) {
        assert LinkOk(ns, i) && DescOk(ns, desc, i) && OrderOk(ns, desc, i);
        RotateDescAtParent(ns, ns', desc, x, s);
      } else {
        assert LinkOk(ns, i) && DescOk(ns, desc, i) && OrderOk(ns, desc, i);
        RotateDescElsewhere(ns, ns', desc, x, s, i);
      }
    }
  }

  lemma RotateRooted(ns: seq<Node>, ns': seq<Node>, root: Option<nat>, desc: seq<set<nat>>, x: nat, s: Side)
    requires |desc| == |ns| && Rooted(ns, root, desc)
    requires CanRotate(ns, x, s) && RotationFacts(ns, x, s) && Rotated(ns, ns', x, s)
    ensures Rooted(ns', Rotate(ns, root, x, s).1, RotateDesc(ns, desc, x, s))
  {
  }

  /** A rotation keeps the arena a rooted, well-linked binary search tree, and
      changes only the links it is meant to change. */
  lemma RotateShaped(ns: seq<Node>, root: Option<nat>, desc: seq<set<nat>>, x: nat, s: Side)
    requires Shaped(ns, root, desc) && CanRotate(ns, x, s)
    ensures Rotated(ns, Rotate(ns, root, x, s).0, x, s) && RotationFacts(ns, x, s)
    ensures Shaped(Rotate(ns, root, x, s).0, Rotate(ns, root, x, s).1, RotateDesc(ns, desc, x, s))
  {
    var ns' := Rotate(ns, root, x, s).0;
    RotationFactsHold(ns, desc, x, s);
    RotatePoints(ns, root, desc, x, s);
    RotateLinked(ns, ns', x, s);
    RotateDescendedOrdered(ns, ns', desc, x, s);
    RotateRooted(ns, ns', root, desc, x, s);
  }

  /** A rotation keeps the in-order sequence of keys. */
  lemma RotateKeepsInOrder(ns: seq<Node>, root: Option<nat>, desc: seq<set<nat>>, x: nat, s: Side)
    requires Shaped(ns, root, desc) && CanRotate(ns, x, s)
    ensures Descended(Rotate(ns, root, x, s).0, RotateDesc(ns, desc, x, s))
    ensures InOrder(Rotate(ns, root, x, s).0, RotateDesc(ns, desc, x, s), Rotate(ns, root, x, s).1)
            == InOrder(ns, desc, root)
  {
    var ns' := Rotate(ns, root, x, s).0;
    RotateShaped(ns, root, desc, x, s);
    assert Keys(ns') == Keys(ns) by {
      forall k ensures k in Keys(ns') <==> k in Keys(ns) {
        if k in Keys(ns) {
          var i :| 0 <= i < |ns| && ns[i].key == k;
          assert SamePayload(ns'[i], ns[i]);
        }
        if k in Keys(ns') {
          var i :| 0 <= i < |ns'| && ns'[i].key == k;
          assert SamePayload(ns'[i], ns[i]);
        }
      }
    }
    ContentsDeterminedByKeys(ns', Rotate(ns, root, x, s).1, RotateDesc(ns, desc, x, s), ns, root, desc);
  }
}
