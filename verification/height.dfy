/**
  Why the rebalancing of rbtree.cpp pays off: in a tree that keeps the colour
  rules, no path from the root is longer than twice the binary logarithm of
  the number of films plus one, so `insert` and `search` descend O(log n)
  levels. The proof is the classic one: a subtree of black height b holds at
  least 2^b - 1 nodes, and since a red node has no red child, a path crosses
  at most as many red nodes as black ones.
*/
module Heights {
  import opened Options
  import opened Nodes
  import opened Shape
  import opened Colours

  function Pow2(n: nat): (p: nat)
    ensures p >= 1
  {
    if n == 0 then 1 else 2 * Pow2(n - 1)
  }

  /** The binary logarithm of m, rounded down. */
  function Log2(m: nat): (r: nat)
    requires m >= 1
    ensures Pow2(r) <= m < 2 * Pow2(r)
  {
    if m == 1 then 0 else 1 + Log2(m / 2)
  }

  lemma {:induction false} Pow2Monotone(a: nat, b: nat)
    requires a <= b
    ensures Pow2(a) <= Pow2(b)
    decreases b
  {
    if a < b {
      Pow2Monotone(a, b - 1);
    }
  }

  /** Log2 is the largest exponent whose power of two fits in m. */
  lemma {:induction false} Log2Largest(b: nat, m: nat)
    requires m >= 1 && Pow2(b) <= m
    ensures b <= Log2(m)
    decreases b
  {
    if b > 0 {
      Log2Largest(b - 1, m / 2);
    }
  }

  /** The arena of n nodes has n indices. */
  lemma {:induction false} RangeSize(n: nat)
    ensures |Range(n)| == n
  {
    if n > 0 {
      RangeSize(n - 1);
      var r := Range(n - 1);
      assert n - 1 !in r;
      assert r * {n - 1} == {};
    }
  }

  /** The subtrees of the two children of node i are smaller than its own. */
  lemma ChildrenSmaller(ns: seq<Node>, desc: seq<set<nat>>, i: nat)
    requires i < |ns| == |desc| && DescOk(ns, desc, i)
    ensures |desc[i]| == 1 + |Below(desc, ns[i].left)| + |Below(desc, ns[i].right)|
  {
    var l, r := Below(desc, ns[i].left), Below(desc, ns[i].right);
    assert |l + r| == |l| + |r| by {
      assert l * r == {};
    }
    assert desc[i] == (l + r) + {i};
  }

  /** The number of nodes on the longest path from t down to a missing child;
      0 for a missing child. The last guard only matters for arenas that are
      not a forest. */
  ghost function Height(ns: seq<Node>, desc: seq<set<nat>>, t: Option<nat>): nat
    decreases |Below(desc, t)|
  {
    if t.None? || t.value >= |ns| || |desc| != |ns| || !DescOk(ns, desc, t.value) then 0
    else
      var i := t.value;
      ChildrenSmaller(ns, desc, i);
      var hl, hr := Height(ns, desc, ns[i].left), Height(ns, desc, ns[i].right);
      1 + (if hl < hr then hr else hl)
  }

  /** A subtree whose black height, counting its top, is b holds at least
      2^b - 1 nodes. */
  lemma {:induction false} SubtreeSize(ns: seq<Node>, desc: seq<set<nat>>, bh: seq<nat>, t: Option<nat>)
    requires Forest(ns, desc) && Balanced(ns, bh)
    ensures Pow2(BlackOf(ns, bh, t)) <= |Below(desc, t)| + 1
    decreases |Below(desc, t)|
  {
    if t.Some? && t.value < |ns| {
      var i := t.value;
      assert DescOk(ns, desc, i) && HeightOk(ns, bh, i);
      ChildrenSmaller(ns, desc, i);
      SubtreeSize(ns, desc, bh, ns[i].left);
      SubtreeSize(ns, desc, bh, ns[i].right);
      Pow2Monotone(BlackOf(ns, bh, t), bh[i] + 1);
    }
  }

  /** A path from t down crosses at most one red node per black one, plus the
      top when that is red. */
  lemma {:induction false} HeightByBlack(ns: seq<Node>, desc: seq<set<nat>>, bh: seq<nat>, t: Option<nat>)
    requires Forest(ns, desc) && Balanced(ns, bh) && NoRedRed(ns)
    ensures Height(ns, desc, t) <= 2 * BlackOf(ns, bh, t) + (if t.Some? && t.value < |ns| && ns[t.value].color == Red then 1 else 0)
    decreases |Below(desc, t)|
  {
    if t.Some? && t.value < |ns| {
      var i := t.value;
      assert DescOk(ns, desc, i) && HeightOk(ns, bh, i) && LinkOk(ns, i);
      ChildrenSmaller(ns, desc, i);
      HeightByBlack(ns, desc, bh, ns[i].left);
      HeightByBlack(ns, desc, bh, ns[i].right);
      if ns[i].color == Red {
        if ns[i].left.Some? {
          assert RedOk(ns, ns[i].left.value);
        }
        if ns[i].right.Some? {
          assert RedOk(ns, ns[i].right.value);
        }
      }
    }
  }

  /** In a red-black tree of n nodes whose root has black height b (counting
      the root), 2^b - 1 <= n and the longest path from the root holds at most
      2 * b nodes, so at most 2 * log2(n + 1): the tree never degenerates into
      a list. */
  lemma HeightLogarithmic(ns: seq<Node>, root: Option<nat>, desc: seq<set<nat>>, bh: seq<nat>)
    requires Shaped(ns, root, desc) && Balanced(ns, bh) && NoRedRed(ns) && RootBlack(ns, root)
    ensures Pow2(BlackOf(ns, bh, root)) <= |ns| + 1
    ensures Height(ns, desc, root) <= 2 * BlackOf(ns, bh, root)
    ensures Height(ns, desc, root) <= 2 * Log2(|ns| + 1)
  {
    assert |Below(desc, root)| == |ns| by {
      RangeSize(|ns|);
    }
    SubtreeSize(ns, desc, bh, root);
    HeightByBlack(ns, desc, bh, root);
    Log2Largest(BlackOf(ns, bh, root), |ns| + 1);
  }
}
