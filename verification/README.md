# Film ratings tree and hashed spam features, in Dafny

This project models the core of a small C++ program with two halves.

- **The ratings tree** (`rbtree.cpp`) is a red-black tree of films keyed by
  name.
  - Each node keeps the sum, count and mean of the ratings the film has
    received.
  - `insert` is an upsert. It adds a rating to an existing film, or hangs a
    new red leaf and restores the red-black rules with `fixInsert`.
  - `search` finds a film by name.
  - `recommend` returns the film whose mean rating is closest to a target.
- **The spam classifier's text side** (`MurmurHash3.cpp`, `hashing.cpp`) turns
  a text into a hashed bag of words and tallies a confusion matrix.
  - To build the bag of words, the text is lowered, split on whitespace, and
    every token is counted in bucket `MurmurHash3(token, 42) % 1000`.
  - `predict` thresholds a probability at 0.53.
  - `evaluate` tallies the confusion matrix.
  - `read_csv` turns each `class,text` line into a labelled sample.

How the tree is modelled:

- The tree is the class `RedBlackTree.RBTree`. Its nodes live in an arena,
  `nodes: seq<Node>`, and pointers are indices into it.
- Ghost fields track three things:
  - the set of descendants of every node;
  - the black height of every node;
  - the full history of ratings per film.
- `Valid()` says the arena is a linked binary search tree under
  lexicographic string order (`Lex.Less`) and satisfies the red-black rules.
  It also says every node's aggregate is the count, sum and mean of that
  film's history.
- `RBTree.HeightBound` turns the colour rules into the depth bound that
  balancing exists for. A valid tree of n films is at most 2 * log2(n + 1)
  levels deep, so 100 films inserted in increasing order give a depth of at
  most 12.

The hash and the text handling are written twice:

- once as pure functions (`Murmur3.Hash`, `HashedFeatures.Features`, and so
  on), which the lemmas are about;
- once as methods with the loops of the source (`Murmur3.MurmurHash3`,
  `HashedFeatures.TextToFeatures`, `Classifier.Evaluate`,
  `CsvLoading.ReadCsv`), each proved equal to its function.

`inOrderRecommend` visits a node, then its left subtree, then its right
subtree, so its scan is a pre-order despite the name. It replaces the best
match only on a strictly smaller distance, so ties go to the node met first
in that order. The model keeps both behaviours, and `Recommend` states them.

In the zig-zag case, `fixInsert` rotates at the parent and then assigns
`parent = node; node = parent;`. So `node` stays on the lifted node instead
of moving down to the old parent, as it does in the textbook algorithm. This
changes nothing: the case ends with `node = parent` either way, and the
rotation at the grandparent and the colour swap act on the same two nodes.
`RedBlackTree.RBTree.LiftInner` and `RotateOuter` follow these steps.

## Model

| member | source | states |
|---|---|---|
| Lex.LessIrreflexive | rbtree.cpp:116-119 | no film name is less than itself, so a name compared with its own node takes the "equal" branch |
| Lex.LessAsymmetric | rbtree.cpp:116-119 | two names are never each less than the other, so the left and right branches exclude each other |
| Lex.LessTransitive | rbtree.cpp:116-119 | the string order is transitive, which makes in-order traversal sorted |
| Lex.LessTotal | rbtree.cpp:116-119 | of two different names one is less than the other, so a descent always takes a branch |
| Nodes.NewNode | rbtree.cpp:20-23 | a new node is red, has no links, and its aggregate is that of its single rating (count 1, sum and mean equal to the rating) |
| Nodes.UpdateRating | rbtree.cpp:41-45 | a rating update keeps the name, colour and all three links and adds one to the count |
| Nodes.UpdateRatingAverages | rbtree.cpp:41-45 | if the node aggregates history h, then after the update it aggregates h + [r]: the mean is the average of every rating so far |
| Nodes.ReplayAverages | rbtree.cpp:41-45 | any sequence of updates leaves the aggregate of the whole history and the same name |
| Shape.ShapedIgnoresPayload | rbtree.cpp:41-45 | the tree shape does not depend on the ratings stored in the nodes |
| Traversal.InOrderSorted | rbtree.cpp:109-138 | the in-order name sequence of every subtree is strictly increasing and holds exactly that subtree's names |
| Traversal.ContentsSorted | rbtree.cpp:109-138 | the in-order name sequence of the whole tree is strictly increasing and holds exactly the names in the tree |
| Traversal.KeysUnique | rbtree.cpp:114-126 | no two nodes hold the same name |
| Traversal.ContentsDeterminedByKeys | rbtree.cpp:60-101 | two search trees holding the same names have the same in-order sequence |
| Rotations.RotatePoints | rbtree.cpp:60-77 | a rotation relinks exactly the pivot, its child, the child's inner subtree and the pivot's old parent, field by field, and changes nothing else |
| Rotations.RotateShaped | rbtree.cpp:60-101 | a left or right rotation turns a rooted, well-linked binary search tree into one |
| Rotations.RotateKeepsInOrder | rbtree.cpp:60-101 | a rotation leaves the in-order name sequence unchanged |
| Colours.RecolouredShaped | rbtree.cpp:161-165 | changing colours only keeps the tree shape |
| Fixup.GrandparentExists | rbtree.cpp:153-157 | while the parent is red, the node has a parent and a black grandparent, so the grandparent dereference is safe |
| Fixup.RecolorBalanced | rbtree.cpp:161-165 | the recolouring case keeps every black height equal on both sides, with the grandparent's height raised by one |
| Fixup.RecolorRedOk | rbtree.cpp:161-165 | after recolouring, only the grandparent may be a red node with a red parent, and the loop continues there |
| Fixup.RecolorStep | rbtree.cpp:161-165 | case 1 re-establishes the loop invariant at the grandparent and moves strictly up the tree |
| Fixup.RotateRedPairBalanced | rbtree.cpp:169-173 | rotating about a red parent with a red child keeps the black heights balanced |
| Fixup.RotateRedPairRedOk | rbtree.cpp:169-173 | that rotation only moves the single red-red violation down to the former parent |
| Fixup.ZigZagStep | rbtree.cpp:169-173 | the zig-zag case turns the inner red child into an outer one and keeps the loop invariant at the former parent |
| Fixup.ZigZigBalanced | rbtree.cpp:175-177 | recolouring the parent and grandparent and then rotating at the grandparent keeps black heights balanced |
| Fixup.ZigZigRedOk | rbtree.cpp:175-177 | after the zig-zig case no red node has a red child |
| Fixup.ZigZigRootBlack | rbtree.cpp:175-177 | after the zig-zig case the root is black |
| Fixup.ZigZigStep | rbtree.cpp:175-177 | case 3 ends the loop with a full red-black tree whose new top is black |
| Insertion.AttachStep | rbtree.cpp:128-135 | linking a new red leaf under the descent's last node (or as the root) gives a search tree that satisfies the fix-up invariant at the leaf |
| Recommendation.Dist | rbtree.cpp:239 | the distance is the absolute difference between the mean and the target, never negative |
| Recommendation.PreOrderCovers | rbtree.cpp:234-247 | the pre-order visits exactly the nodes of the subtree, all inside the arena |
| Recommendation.ScanAppend | rbtree.cpp:245-246 | scanning the left subtree and then the right equals one scan of their concatenation |
| Recommendation.ScanFinds | rbtree.cpp:236-244 | the best match after a scan is at least as close as every node scanned and as the starting match; when the scan replaced the starting match, the new one is strictly closer than it and than every node scanned before it |
| Recommendation.ScanFromNothing | rbtree.cpp:256-263 | a scan from no match gives no match exactly when nothing is scanned; otherwise it gives the first closest node |
| RedBlackTree.ReweighKeepsTree | rbtree.cpp:121 | changing the ratings of nodes leaves them a valid red-black tree |
| RedBlackTree.UniqueKeys | rbtree.cpp:114-126 | two nodes of a search tree that hold the same name are the same node |
| RedBlackTree.UpdateTallied | rbtree.cpp:121 | updating the found node appends the rating to that film's history and keeps every aggregate correct |
| RedBlackTree.AttachTallied | rbtree.cpp:128-135 | hanging a new node starts that film's history with its single rating and keeps every other aggregate correct |
| RedBlackTree.BlackenRoot | rbtree.cpp:201 | painting the root black after the loop turns the invariant into the full red-black rules |
| RedBlackTree.DescendStep | rbtree.cpp:114-126 | one step of the descent keeps every node with the sought name below the current node, in a strictly smaller subtree |
| RedBlackTree.RBTree.constructor | rbtree.cpp:53 | the new tree is empty and valid |
| RedBlackTree.RBTree.LeftRotate | rbtree.cpp:60-77 | the arena and root become the left rotation of the old ones; black heights and histories are unchanged |
| RedBlackTree.RBTree.RightRotate | rbtree.cpp:84-101 | the arena and root become the right rotation of the old ones; black heights and histories are unchanged |
| RedBlackTree.RBTree.RotateTowards | rbtree.cpp:60-101 | a rotation on the chosen side, with the same effect as LeftRotate or RightRotate |
| RedBlackTree.RBTree.RecolorCase | rbtree.cpp:161-165 | with a red uncle, the parent and uncle turn black and the grandparent red; the invariant moves to the grandparent |
| RedBlackTree.RBTree.LiftInner | rbtree.cpp:169-173 | in the zig-zag case, rotating at the parent makes the parent the outer red child of the node |
| RedBlackTree.RBTree.RotateOuter | rbtree.cpp:175-177 | in the zig-zig case, recolouring and rotating at the grandparent leaves a red-black tree whose top is black, with entries unchanged |
| RedBlackTree.RBTree.RotateCase | rbtree.cpp:167-178 | with a black uncle, cases 2 and 3 finish the fix-up, with entries unchanged |
| RedBlackTree.RBTree.FixStep | rbtree.cpp:153-199 | one pass of the loop keeps the invariant and moves strictly up, with entries unchanged |
| RedBlackTree.RBTree.FixInsert | rbtree.cpp:145-202 | starting from the invariant after the attach, the tree ends as a full red-black tree holding the same entries |
| Heights.Log2 | rbtree.cpp:145-202 | the binary logarithm rounded down: 2^r <= m < 2^(r+1) |
| Heights.SubtreeSize | rbtree.cpp:145-202 | a subtree whose black height, counting its top, is b holds at least 2^b - 1 nodes |
| Heights.HeightByBlack | rbtree.cpp:145-202 | since no red node has a red child, a subtree is at most twice its black height deep, plus one when its top is red |
| Heights.HeightLogarithmic | rbtree.cpp:145-202 | in a tree that keeps the colour rules, 2^b - 1 <= n for the root's black height b, and the depth is at most 2b, so at most 2 * log2(n + 1) |
| RedBlackTree.RBTree.HeightBound | rbtree.cpp:109-138 | a valid tree of n films is at most 2 * log2(n + 1) levels deep, so each insert and search descends O(log n) levels |
| RedBlackTree.RBTree.UpdateRatingAt | rbtree.cpp:121 | the found node gets the rating, that film's history grows by it, and the tree stays valid |
| RedBlackTree.RBTree.Descend | rbtree.cpp:111-126 | the descent either finds the node holding the name, or proves the name absent and returns where a leaf for it belongs |
| RedBlackTree.RBTree.HangLeaf | rbtree.cpp:128-135 | the new node is appended to the arena and linked as the root or as the chosen child of its parent |
| RedBlackTree.RBTree.AddLeaf | rbtree.cpp:128-137 | hanging and fixing up a new film leaves a valid tree with one more node |
| RedBlackTree.RBTree.Insert | rbtree.cpp:109-138 | insertion keeps the tree valid and appends the rating to the film's history; an existing film changes only its own node, and a new film adds one node |
| RedBlackTree.RBTree.Search | rbtree.cpp:211-223 | the search finds nothing exactly when the name is absent; a node it finds holds the name and aggregates its whole history |
| RedBlackTree.RBTree.InOrderRecommend | rbtree.cpp:234-247 | the recursive scan from a subtree gives the best match of scanning that subtree in pre-order |
| RedBlackTree.RBTree.Recommend | rbtree.cpp:256-264 | nothing exactly when the tree is empty; otherwise the node whose mean is closest to the target, the first such in pre-order |
| Murmur3.Rotl15 | MurmurHash3.cpp:4-6 | rotating by 15 puts x's low 17 bits on top and its top 15 bits at the bottom |
| Murmur3.Rotl13 | MurmurHash3.cpp:4-6 | rotating by 13 puts x's low 19 bits on top and its top 13 bits at the bottom |
| Murmur3.RotlInverse | MurmurHash3.cpp:4-6 | rotating by 13 or 15 and then by the rest of the word returns the word |
| Murmur3.Block | MurmurHash3.cpp:28-33 | block j is bytes 4j..4j+3, little-endian, and each byte can be recovered from it |
| Murmur3.TailStart | MurmurHash3.cpp:43 | the tail starts at the last multiple of four and holds len mod 4 bytes |
| Murmur3.Tail | MurmurHash3.cpp:43-57 | the tail word holds the 0 to 3 trailing bytes, the first one lowest, with zeros above |
| Murmur3.HashEmpty | MurmurHash3.cpp:18-76 | an empty key leaves only the finaliser on the seed, and seed 0 hashes it to 0 |
| Murmur3.OneBlockVector | MurmurHash3.cpp:18-76 | a one-block key hashes to the published reference value |
| Murmur3.TailVector | MurmurHash3.cpp:43-64 | a three-byte key, which is all tail, hashes to the published reference value |
| Murmur3.HelloVector | MurmurHash3.cpp:18-76 | "hello" under seed 42 hashes to 0xe2dbd2e1, so the token falls into bucket 185 |
| Murmur3.TailWord | MurmurHash3.cpp:43-57 | the switch on the tail length builds exactly the tail word |
| Murmur3.MixBlocks | MurmurHash3.cpp:19-41 | the backward-indexed block loop mixes blocks 0 to nblocks-1 into the seed, in forward order |
| Murmur3.MurmurHash3 | MurmurHash3.cpp:18-76 | the block loop, tail and finaliser compute the hash of the first len bytes |
| Text.ToLower | hashing.cpp:47-50 | a lowered byte is never upper case; it is the byte itself, or an upper-case letter moved down to lower case |
| Text.LowerKeepsSpaces | hashing.cpp:47-55 | lowering does not change which bytes are whitespace |
| Text.LowerIdempotent | hashing.cpp:47-50 | lowering twice is lowering once |
| Text.LowerText | hashing.cpp:44-50 | the lowered text has the text's length |
| Text.LowerTextIgnoresCase | hashing.cpp:44-50 | texts that differ only in letter case lower to the same text |
| Text.RunLength | hashing.cpp:53-55 | a token read stops at the first whitespace byte or at the end |
| Text.TokensWellFormed | hashing.cpp:53-55 | every token is non-empty, holds no whitespace, and is no longer than the text |
| Text.TokensEmptyIffBlank | hashing.cpp:53-55 | a text has no tokens exactly when it is all whitespace |
| Text.TokensKeepText | hashing.cpp:53-55 | the tokens put back together are the text's non-whitespace bytes, in order |
| Text.TokensAreRuns | hashing.cpp:53-55 | there are exactly as many tokens as places where a run of non-whitespace begins |
| Text.TokenSpanAt | hashing.cpp:53-55 | token i is the stretch of the text at span i, which starts on non-whitespace and has whitespace or an end of the text on either side |
| Text.TokenSpansOrdered | hashing.cpp:53-55 | the span of each token ends before the span of the next token starts |
| Text.TokensAreMaximalRuns | hashing.cpp:53-55 | each token is a maximal run of non-whitespace of the text, and the tokens come in the order of their runs, never overlapping |
| HashedFeatures.Buckets | hashing.cpp:56-58 | one bucket per token under the bucket function, each below HASH_DIM |
| HashedFeatures.Zeros | hashing.cpp:42 | the start vector has HASH_DIM zero entries |
| HashedFeatures.Histogram | hashing.cpp:55-59 | counting buckets keeps HASH_DIM entries |
| HashedFeatures.HistogramCounts | hashing.cpp:55-59 | each entry is the number of times its bucket occurs |
| HashedFeatures.HistogramSum | hashing.cpp:55-59 | the entries sum to the number of buckets counted |
| HashedFeatures.Features | hashing.cpp:41-59 | the feature vector has HASH_DIM entries |
| HashedFeatures.FeaturesCount | hashing.cpp:53-59 | each entry counts the tokens of the lowered text that hash into it |
| HashedFeatures.FeaturesSum | hashing.cpp:53-59 | the counts sum to the number of tokens |
| HashedFeatures.FeaturesIgnoreCase | hashing.cpp:44-59 | texts that differ only in letter case have the same features |
| HashedFeatures.FeaturesOfBlank | hashing.cpp:53-71 | the features are all zero exactly when the text is empty or all whitespace, the one case where normalisation is skipped |
| HashedFeatures.TokenBucket | hashing.cpp:56-58 | the bucket computed for a token is its MurmurHash3 under seed 42, modulo HASH_DIM |
| HashedFeatures.NextToken | hashing.cpp:55-58 | reading and counting one token moves forward and keeps the loop invariant |
| HashedFeatures.CountTokens | hashing.cpp:53-59 | the token loop counts every token of the lowered text in its bucket |
| HashedFeatures.TextToFeatures | hashing.cpp:41-59 | the lowering and token loop compute the feature counts of the text |
| Classifier.Predict | hashing.cpp:165-168 | the prediction is 1 exactly when the probability is at least 0.53, and 0 otherwise |
| Classifier.PredictMonotone | hashing.cpp:165-168 | a higher probability never predicts a lower class |
| Classifier.CountIsCell | hashing.cpp:148-163 | a confusion-matrix cell is the number of samples with that cell's label and prediction |
| Classifier.LabelledIsSize | hashing.cpp:148-163 | the labelled count is the number of samples labelled 0 or 1 |
| Classifier.Metrics | hashing.cpp:148-163 | the matrix has four cells: TP, TN, FP, FN |
| Classifier.MetricsCover | hashing.cpp:148-163 | the cells add up to the samples labelled 0 or 1, so to all samples when every label is 0 or 1; samples with other labels are not counted |
| Classifier.MetricsCorrect | hashing.cpp:148-163 | TP + TN is the number of labelled samples predicted correctly |
| Classifier.Evaluate | hashing.cpp:148-163 | the loop with its if-chain computes the confusion matrix |
| CsvLoading.FirstComma | hashing.cpp:209 | the first comma's index, or none exactly when the line has no comma |
| CsvLoading.LabelOf | hashing.cpp:212 | the label is 0 or 1, and 0 exactly when the class is `ham` |
| CsvLoading.ParseLineSplits | hashing.cpp:209-216 | a line gives a sample exactly when it holds a comma; the label comes from before the first comma and the features from after it |
| CsvLoading.ParsedSamples | hashing.cpp:207-218 | one sample per line with a comma, each labelled 0 or 1 with HASH_DIM features |
| CsvLoading.ParsedMetricsCover | hashing.cpp:209-216 | every sample loaded from a file lands in exactly one confusion-matrix cell |
| CsvLoading.ReadLine | hashing.cpp:209-216 | one pass of the read loop gives the line's sample, or nothing for a line without a comma |
| CsvLoading.ReadCsv | hashing.cpp:201-221 | false with data unchanged when the file cannot be opened; otherwise true with every line's sample appended in order |

## Left out

- Nodes.UpdateRating: the count is an unbounded `nat`. In the source,
  `count_ratings` is an `int`, and one film's count overflows past
  2^31 - 1 ratings (undefined behaviour in C++). The model has no such
  limit.
- Floating point is not modelled.
  - Ratings, sums, means and distances are exact `real`s.
  - So `Nodes.UpdateRatingAverages` states the exact average, not its
    rounded `double`.
  - `DBL_MAX`, the start value of the best distance in `recommend`, is
    modelled as "no match yet" (None).
- Memory is not modelled. There is no `new` or `delete`. Nodes live in an
  arena of values and pointers are arena indices, so aliasing and address
  identity are not captured. A node is appended only when it is actually
  linked. The source allocates it first and deletes it when the name already
  exists; that has the same observable outcome.
- Deletion from the tree is not part of the source's core and is not
  modelled.
- `main.cpp` is not part of this model. Neither are the command-line
  interface or the printing of results.
- File I/O: `CsvLoading.ReadCsv` receives the file as its lines, or None when
  it cannot be opened. `std::getline` and the file stream are not modelled.
- CsvLoading.ReadCsv: requires every line to be shorter than 2^31 bytes,
  because the token lengths pass through MurmurHash3's `int len`.
- Murmur3.MurmurHash3: requires `0 <= len < 2^31`, the range of the source's
  `int len`. `Murmur3.Hash` itself is defined for any length, with the
  length reduced modulo 2^32 as the `uint32_t` conversion does.
- Murmur3.MurmurHash3: returns the hash instead of writing through the `out`
  pointer.
- Murmur3.Rotl: its bit layout and inverse are proved only for the two
  rotation amounts the hash uses, 13 and 15, not for every r from 1 to 31.
- No inverse is proved for the mixing steps of the hash. A hash has no
  inverse. The reference vectors and the equivalence between the loop and
  the function are proved instead.
- HashedFeatures.TextToFeatures: gives the integer bucket counts before the
  L2 normalisation (hashing.cpp lines 61-71). The square root and the
  division are floating point. `HashedFeatures.FeaturesOfBlank` states when
  that normalisation is skipped. It requires the text to be shorter than
  2^31 bytes, because the token lengths pass through MurmurHash3's `int len`.
- Lex.Less: a film name stands for the bytes of its `std::string`, one char
  per byte, with each char below 256. Comparing chars then compares unsigned
  bytes, as `std::string`'s `<` does in `insert` and `search`.
- The sigmoid, the dot product, the weights, training (`train`) and the other
  floating-point parts of the classifier are not part of this model.
  - `Classifier.Evaluate` and `Classifier.Metrics` take the model's
    probability as a function `prob` from features to `real`.
  - `Classifier.Predict` takes that probability.
- `std::tolower` and `std::isspace` follow the C locale: only ASCII letters
  change case, and the whitespace bytes are space and 0x09-0x0d.
- The sample's label is a field named `category`, because `label` is a
  keyword here.
- The token loop, `HashedFeatures.CountTokens`, is proved for any bucket
  function that agrees with `HashedFeatures.BucketOf`. Only
  `HashedFeatures.TokenBucket` relates it to the hash, so the counting proofs
  never unfold MurmurHash3.
