/**
  One film of the tree (the `Node` struct of rbtree.cpp): its key, the running
  aggregate of its ratings, its colour and its links. Links are indices into the
  tree's arena of nodes rather than pointers.
*/
module Nodes {
  import opened Options

  datatype Color = Red | Black

  datatype Node = Node(
    key: string,
    sum: real,       // sum_ratings
    count: nat,      // count_ratings
    mean: real,      // avg_rating
    color: Color,
    left: Option<nat>,
    right: Option<nat>,
    parent: Option<nat>)

  /** A side of a node: `leftRotate` and `rightRotate` are mirror images of
      one another, and so are the two halves of `fixInsert`. */
  datatype Side = L | R

  function Opp(s: Side): (t: Side)
    ensures t != s
  {
    if s == L then R else L
  }

  /** The child link of n on side s. */
  function Child(n: Node, s: Side): Option<nat>
  {
    if s == L then n.left else n.right
  }

  /** n with its child link on side s replaced by c. */
  function WithChild(n: Node, s: Side, c: Option<nat>): (n': Node)
    ensures Child(n', s) == c && Child(n', Opp(s)) == Child(n, Opp(s))
    ensures n'.key == n.key && n'.color == n.color && n'.parent == n.parent
  {
    if s == L then n.(left := c) else n.(right := c)
  }

  /** n and m hold the same film and rating aggregate. */
  predicate SameEntry(n: Node, m: Node)
  {
    n.key == m.key && n.sum == m.sum && n.count == m.count && n.mean == m.mean
  }

  /** n and m differ at most in their links. */
  predicate SamePayload(n: Node, m: Node)
  {
    SameEntry(n, m) && n.color == m.color
  }

  /** The sum of a history of ratings. */
  function Sum(h: seq<real>): real
  {
    if h == [] then 0.0 else h[0] + Sum(h[1..])
  }

  lemma {:induction false} SumAppend(h: seq<real>, r: real)
    ensures Sum(h + [r]) == Sum(h) + r
  {
    if h != [] {
      assert (h + [r])[1..] == h[1..] + [r];
      SumAppend(h[1..], r);
    }
  }

  /** The aggregate of n is the count, sum and mean of the non-empty history h. */
  ghost predicate Aggregates(n: Node, h: seq<real>)
  {
    && |h| > 0
    && n.count == |h|
    && n.sum == Sum(h)
    && n.mean == Sum(h) / (|h| as real)
  }

  /** The node constructor: a RED node without links whose aggregate is that of
      the single rating it was created with. */
  function NewNode(key: string, rating: real): (n: Node)
    ensures n.key == key && n.color == Red
    ensures n.left.None? && n.right.None? && n.parent.None?
    ensures Aggregates(n, [rating])
  {
    Node(key, rating, 1, rating, Red, None, None, None)
  }

  /** `updateRating`: merge one more rating into the aggregate; the key, the
      colour and the links are left as they are. */
  function UpdateRating(n: Node, rating: real): (n': Node)
    ensures n'.key == n.key && n'.color == n.color
    ensures n'.left == n.left && n'.right == n.right && n'.parent == n.parent
    ensures n'.count == n.count + 1
  {
    var count := n.count + 1;
    var sum := n.sum + rating;
    n.(count := count, sum := sum, mean := sum / (count as real))
  }

  /** After any number of updates the mean is the average of every rating
      applied to the key, in exact arithmetic. */
  lemma UpdateRatingAverages(n: Node, h: seq<real>, rating: real)
    requires Aggregates(n, h)
    ensures Aggregates(UpdateRating(n, rating), h + [rating])
  {
    SumAppend(h, rating);
  }

  /** Starting from a fresh node and applying a whole history one rating at a
      time gives the aggregate of that history. */
  function Replay(n: Node, rs: seq<real>): Node
    decreases rs
  {
    if rs == [] then n else Replay(UpdateRating(n, rs[0]), rs[1..])
  }

  lemma {:induction false} ReplayAverages(n: Node, h: seq<real>, rs: seq<real>)
    requires Aggregates(n, h)
    ensures Aggregates(Replay(n, rs), h + rs)
    ensures Replay(n, rs).key == n.key
    decreases rs
  {
    if rs == [] {
      assert h + rs == h;
    } else {
      UpdateRatingAverages(n, h, rs[0]);
      assert h + rs == (h + [rs[0]]) + rs[1..];
      ReplayAverages(UpdateRating(n, rs[0]), h + [rs[0]], rs[1..]);
    }
  }
}
