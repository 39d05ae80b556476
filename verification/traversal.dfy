/**
  What the descendant sets say about the tree as a whole: the in-order sequence
  of keys is strictly sorted and is determined by the set of keys alone, keys
  are unique, and descendant sets nest along parent links.
*/
module Traversal {
  import opened Options
  import opened Lex
  import opened Nodes
  import opened Shape

  ghost predicate Sorted(s: seq<string>)
  {
    forall i, j | 0 <= i < j < |s| :: Less(s[i], s[j])
  }

  /** The keys of the nodes in the subtree under link t. */
  ghost function KeysBelow(ns: seq<Node>, desc: seq<set<nat>>, t: Option<nat>): set<string>
  {
    set j | j in Below(desc, t) && j < |ns| :: ns[j].key
  }

  /** The keys of the subtree under link t, left subtree first. */
  ghost function InOrder(ns: seq<Node>, desc: seq<set<nat>>, t: Option<nat>): seq<string>
    requires Descended(ns, desc)
    decreases Below(desc, t)
  {
    if t.None? || t.value >= |ns| then []
    else
      var i := t.value;
      assert DescOk(ns, desc, i);
      InOrder(ns, desc, ns[i].left) + [ns[i].key] + InOrder(ns, desc, ns[i].right)
  }

  /** In a binary search tree the in-order keys are strictly increasing and
      are exactly the keys of the subtree. */
  lemma {:induction false} InOrderSorted(ns: seq<Node>, desc: seq<set<nat>>, t: Option<nat>)
    requires Descended(ns, desc) && Ordered(ns, desc)
    ensures Sorted(InOrder(ns, desc, t))
    ensures forall k :: k in InOrder(ns, desc, t) <==> k in KeysBelow(ns, desc, t)
    decreases Below(desc, t)
  {
    if t.Some? && t.value < |ns| {
      var i := t.value;
      assert DescOk(ns, desc, i) && OrderOk(ns, desc, i);
      var l, r := ns[i].left, ns[i].right;
      InOrderSorted(ns, desc, l);
      InOrderSorted(ns, desc, r);
      var sl, sr := InOrder(ns, desc, l), InOrder(ns, desc, r);
      var s := sl + [ns[i].key] + sr;
      forall k | k in sl ensures Less(k, ns[i].key) {
        var j :| j in Below(desc, l) && j < |ns| && ns[j].key == k;
      }
      forall k | k in sr ensures Less(ns[i].key, k) {
        var j :| j in Below(desc, r) && j < |ns| && ns[j].key == k;
      }
      forall a, b | 0 <= a < b < |s| ensures Less(s[a], s[b]) {
        if a < |sl| && b > |sl| {
          assert s[a] in sl && s[b] in sr;
          LessTransitive(s[a], ns[i].key, s[b]);
        } else if a < |sl| && b == |sl| {
          assert s[a] in sl;
        } else if a == |sl| {
          assert s[b] in sr;
        } else if b < |sl| {
          assert s[a] == sl[a] && s[b] == sl[b];
        } else {
          assert s[a] == sr[a - |sl| - 1] && s[b] == sr[b - |sl| - 1];
        }
      }
      forall k ensures k in s <==> k in KeysBelow(ns, desc, t) {
        if k in KeysBelow(ns, desc, t) {
          var j :| j in desc[i] && j < |ns| && ns[j].key == k;
          if j in Below(desc, l) {
            assert k in KeysBelow(ns, desc, l);
          } else if j in Below(desc, r) {
            assert k in KeysBelow(ns, desc, r);
          }
        }
        if k in s && k != ns[i].key {
          if k in sl {
            var j :| j in Below(desc, l) && j < |ns| && ns[j].key == k;
          } else {
            var j :| j in Below(desc, r) && j < |ns| && ns[j].key == k;
          }
        }
      }
    }
  }

  lemma HeadIn(t: seq<string>)
    ensures t != [] ==> t[0] in t
  {
  }

  /** A strictly sorted sequence is determined by its elements. */
  lemma {:induction false} SortedUnique(s: seq<string>, t: seq<string>)
    requires Sorted(s) && Sorted(t)
    requires forall k :: k in s <==> k in t
    ensures s == t
    decreases |s|
  {
    if s == [] {
      HeadIn(t);
    } else {
      assert s[0] in t;
      assert t != [];
      assert t[0] in s;
      var m :| 0 <= m < |s| && s[m] == t[0];
      var j :| 0 <= j < |t| && t[j] == s[0];
      if m > 0 {
        if j > 0 {
          LessAsymmetric(s[0], s[m]);
        } else {
          LessIrreflexive(s[0]);
        }
      }
      assert s[0] == t[0];
      forall k ensures k in s[1..] <==> k in t[1..] {
        if k in s[1..] {
          var a :| 1 <= a < |s| && s[a] == k;
          LessIrreflexive(s[0]);
          assert k in t && k != t[0];
        }
        if k in t[1..] {
          var a :| 1 <= a < |t| && t[a] == k;
          LessIrreflexive(t[0]);
          assert k in s && k != s[0];
        }
      }
      SortedUnique(s[1..], t[1..]);
    }
  }

  /** No two nodes of a subtree share a key. */
  lemma {:induction false} KeysUnique(ns: seq<Node>, desc: seq<set<nat>>, t: Option<nat>, i: nat, j: nat)
    requires Descended(ns, desc) && Ordered(ns, desc)
    requires i in Below(desc, t) && j in Below(desc, t) && i < |ns| && j < |ns|
    requires ns[i].key == ns[j].key
    ensures i == j
    decreases Below(desc, t)
  {
    var n := t.value;
    assert DescOk(ns, desc, n) && OrderOk(ns, desc, n);
    var l, r := Below(desc, ns[n].left), Below(desc, ns[n].right);
    if i == n && j != n {
      LessIrreflexive(ns[n].key);
    } else if j == n && i != n {
      LessIrreflexive(ns[n].key);
    } else if i in l && j in l {
      KeysUnique(ns, desc, ns[n].left, i, j);
    } else if i in r && j in r {
      KeysUnique(ns, desc, ns[n].right, i, j);
    } else if i in l && j in r {
      LessAsymmetric(ns[i].key, ns[n].key);
    } else if i in r && j in l {
      LessAsymmetric(ns[j].key, ns[n].key);
    }
  }

  /** Descendant sets nest: a descendant's descendants are descendants. */
  lemma {:induction false} DescTransitive(ns: seq<Node>, desc: seq<set<nat>>, l: nat, j: nat)
    requires Descended(ns, desc) && l < |ns| && j in desc[l]
    ensures j < |ns| && desc[j] <= desc[l]
    decreases desc[l]
  {
    assert DescOk(ns, desc, l);
    if j != l {
      if j in Below(desc, ns[l].left) {
        DescTransitive(ns, desc, ns[l].left.value, j);
      } else {
        DescTransitive(ns, desc, ns[l].right.value, j);
      }
    }
  }

  /** A proper descendant of l has a parent, which is a descendant of l too. */
  lemma {:induction false} BelowHasParent(ns: seq<Node>, desc: seq<set<nat>>, l: nat, j: nat)
    requires Linked(ns) && Descended(ns, desc) && l < |ns| && j in desc[l] && j != l
    ensures j < |ns| && ns[j].parent.Some? && ns[j].parent.value in desc[l]
    decreases desc[l]
  {
    assert DescOk(ns, desc, l) && LinkOk(ns, l);
    var c := if j in Below(desc, ns[l].left) then ns[l].left.value else ns[l].right.value;
    assert DescOk(ns, desc, c);
    if j != c {
      BelowHasParent(ns, desc, c, j);
    }
  }

  /** The keys held anywhere in the arena. */
  ghost function Keys(ns: seq<Node>): set<string>
  {
    set i | 0 <= i < |ns| :: ns[i].key
  }

  /** The in-order keys of the whole tree are strictly sorted and are exactly
      the keys of the arena. */
  lemma ContentsSorted(ns: seq<Node>, root: Option<nat>, desc: seq<set<nat>>)
    requires Shaped(ns, root, desc)
    ensures Sorted(InOrder(ns, desc, root))
    ensures forall k :: k in InOrder(ns, desc, root) <==> k in Keys(ns)
  {
    InOrderSorted(ns, desc, root);
    forall k ensures k in KeysBelow(ns, desc, root) <==> k in Keys(ns) {
      if k in Keys(ns) {
        var i :| 0 <= i < |ns| && ns[i].key == k;
        assert i in Below(desc, root);
      }
    }
  }

  /** Two search trees holding the same keys have the same in-order sequence,
      however they are shaped. */
  lemma ContentsDeterminedByKeys(ns: seq<Node>, root: Option<nat>, desc: seq<set<nat>>,
                                 ns': seq<Node>, root': Option<nat>, desc': seq<set<nat>>)
    requires Shaped(ns, root, desc) && Shaped(ns', root', desc') && Keys(ns) == Keys(ns')
    ensures InOrder(ns, desc, root) == InOrder(ns', desc', root')
  {
    ContentsSorted(ns, root, desc);
    ContentsSorted(ns', root', desc');
    SortedUnique(InOrder(ns, desc, root), InOrder(ns', desc', root'));
  }

  /** Nodes holding the same entries hold the same keys. */
  lemma SameEntriesSameKeys(ns: seq<Node>, ns': seq<Node>)
    requires |ns'| == |ns| && forall i | 0 <= i < |ns| :: SameEntry(ns'[i], ns[i])
    ensures Keys(ns') == Keys(ns)
  {
    forall k ensures k in Keys(ns') <==> k in Keys(ns) {
      if k in Keys(ns) {
        var i :| 0 <= i < |ns| && ns[i].key == k;
        assert SameEntry(ns'[i], ns[i]);
      }
      if k in Keys(ns') {
        var i :| 0 <= i < |ns'| && ns'[i].key == k;
        assert SameEntry(ns'[i], ns[i]);
      }
    }
  }
}
