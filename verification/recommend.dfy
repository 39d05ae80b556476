/**
  `recommend` and `inOrderRecommend` of rbtree.cpp: a scan of the whole tree,
  node before left subtree before right subtree (pre-order, whatever the name
  says), for the mean rating closest to a target. A node replaces the best
  match so far only when it is strictly closer, so ties go to the node met
  first.
*/
module Recommendation {
  import opened Options
  import opened Nodes
  import opened Shape

  /** `std::abs(mean - target)`. */
  function Dist(mean: real, target: real): (d: real)
    ensures d >= 0.0 && (d == mean - target || d == target - mean)
  {
    if mean >= target then mean - target else target - mean
  }

  /** The best match so far: `bestMatch` together with `bestDiff`. "No match
      yet" is None rather than a null node at distance DBL_MAX. */
  datatype Match = Match(node: nat, diff: real)

  /** The node indices of the subtree under t, each node before its left
      subtree and that before its right subtree. */
  ghost function PreOrder(ns: seq<Node>, desc: seq<set<nat>>, t: Option<nat>): seq<nat>
    requires Descended(ns, desc)
    decreases Below(desc, t)
  {
    if t.None? || t.value >= |ns| then []
    else
      var i := t.value;
      assert DescOk(ns, desc, i);
      [i] + PreOrder(ns, desc, ns[i].left) + PreOrder(ns, desc, ns[i].right)
  }

  /** The pre-order visits exactly the nodes of the subtree. */
  lemma {:induction false} PreOrderCovers(ns: seq<Node>, desc: seq<set<nat>>, t: Option<nat>)
    requires Descended(ns, desc)
    ensures forall j :: j in PreOrder(ns, desc, t) <==> j in Below(desc, t)
    ensures InArena(ns, PreOrder(ns, desc, t))
    decreases Below(desc, t)
  {
    if t.Some? && t.value < |ns| {
      var i := t.value;
      assert DescOk(ns, desc, i);
      PreOrderCovers(ns, desc, ns[i].left);
      PreOrderCovers(ns, desc, ns[i].right);
    }
  }

  /** A match records the distance of its node. */
  ghost predicate MatchOk(ns: seq<Node>, target: real, best: Option<Match>)
  {
    best.Some? ==> best.value.node < |ns| && best.value.diff == Dist(ns[best.value.node].mean, target)
  }

  /** Every entry of s indexes the arena. */
  predicate InArena(ns: seq<Node>, s: seq<nat>)
  {
    forall m | 0 <= m < |s| :: s[m] < |ns|
  }

  /** Visiting node i: it becomes the best match when there is none yet or it
      is strictly closer than the current one. */
  function Visit(ns: seq<Node>, target: real, best: Option<Match>, i: nat): Option<Match>
    requires i < |ns|
  {
    var d := Dist(ns[i].mean, target);
    if best.None? || d < best.value.diff then Some(Match(i, d)) else best
  }

  /** Visiting the nodes of s in order. */
  function Scan(ns: seq<Node>, target: real, best: Option<Match>, s: seq<nat>): Option<Match>
    requires InArena(ns, s)
    decreases |s|
  {
    if s == [] then best else Scan(ns, target, Visit(ns, target, best, s[0]), s[1..])
  }

  /** Scanning two stretches one after the other is scanning their
      concatenation. */
  lemma {:induction false} ScanAppend(ns: seq<Node>, target: real, best: Option<Match>, s1: seq<nat>, s2: seq<nat>)
    requires InArena(ns, s1) && InArena(ns, s2)
    ensures InArena(ns, s1 + s2)
    ensures Scan(ns, target, best, s1 + s2) == Scan(ns, target, Scan(ns, target, best, s1), s2)
    decreases |s1|
  {
    forall m | 0 <= m < |s1 + s2| ensures (s1 + s2)[m] < |ns| {
      if m >= |s1| {
        assert (s1 + s2)[m] == s2[m - |s1|];
      }
    }
    if s1 != [] {
      assert (s1 + s2)[0] == s1[0] && (s1 + s2)[1..] == s1[1..] + s2;
      assert InArena(ns, s1[1..]) by {
        forall m | 0 <= m < |s1[1..]| ensures s1[1..][m] < |ns| {
          assert s1[1..][m] == s1[m + 1];
        }
      }
      ScanAppend(ns, target, Visit(ns, target, best, s1[0]), s1[1..], s2);
    } else {
      assert s1 + s2 == s2;
    }
  }

  /** Node j is a closest node of s, and every node of s before its first
      occurrence is strictly farther from the target. */
  ghost predicate FirstClosest(ns: seq<Node>, target: real, s: seq<nat>, j: nat)
    requires InArena(ns, s)
    requires j < |ns|
  {
    && (forall m | 0 <= m < |s| :: Dist(ns[j].mean, target) <= Dist(ns[s[m]].mean, target))
    && exists m | 0 <= m < |s| && s[m] == j ::
         forall m' | 0 <= m' < m :: Dist(ns[j].mean, target) < Dist(ns[s[m']].mean, target)
  }

  /** What a scan computes: the result is the starting match or a node of s;
      it is at least as close as the starting match and as every node of s;
      and a node of s that replaced the starting match is strictly closer than
      it and than every node of s met before it. */
  lemma {:induction false} ScanFinds(ns: seq<Node>, target: real, best: Option<Match>, s: seq<nat>)
    requires InArena(ns, s)
    requires MatchOk(ns, target, best)
    ensures var r := Scan(ns, target, best, s);
      && MatchOk(ns, target, r)
      && (r.None? <==> best.None? && s == [])
      && (r.Some? ==> forall m | 0 <= m < |s| :: r.value.diff <= Dist(ns[s[m]].mean, target))
      && (r.Some? && best.Some? ==> r.value.diff <= best.value.diff)
      && (r.Some? && r != best ==>
            && (best.Some? ==> r.value.diff < best.value.diff)
            && exists m | 0 <= m < |s| && s[m] == r.value.node ::
                 forall m' | 0 <= m' < m :: r.value.diff < Dist(ns[s[m']].mean, target))
    decreases |s|
  {
    if s != [] {
      var b1 := Visit(ns, target, best, s[0]);
      ScanFinds(ns, target, b1, s[1..]);
      var r := Scan(ns, target, best, s);
      assert r == Scan(ns, target, b1, s[1..]);
      if r.Some? {
        forall m | 0 <= m < |s| ensures r.value.diff <= Dist(ns[s[m]].mean, target) {
          if m > 0 {
            assert s[m] == s[1..][m - 1];
          }
        }
        if r != best {
          if r == b1 {
            assert s[0] == r.value.node;
          } else {
            var m :| 0 <= m < |s[1..]| && s[1..][m] == r.value.node &&
              forall m' | 0 <= m' < m :: r.value.diff < Dist(ns[s[1..][m']].mean, target);
            forall m' | 0 <= m' < m + 1 ensures r.value.diff < Dist(ns[s[m']].mean, target) {
              if m' > 0 {
                assert s[m'] == s[1..][m' - 1];
              }
            }
            assert s[m + 1] == r.value.node;
          }
        }
      }
    }
  }

  /** Scanning from "no match yet": the result is None exactly for an empty
      sequence, and otherwise the first of the closest nodes. */
  lemma ScanFromNothing(ns: seq<Node>, target: real, s: seq<nat>)
    requires InArena(ns, s)
    ensures var r := Scan(ns, target, None, s);
      && (r.None? <==> s == [])
      && (r.Some? ==> r.value.node < |ns| && FirstClosest(ns, target, s, r.value.node))
  {
    ScanFinds(ns, target, None, s);
  }
}
