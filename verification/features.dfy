/**
  The hashed bag of words of `text_to_features` (hashing.cpp), as the counts
  it holds before the L2 normalisation: every token of the lowered text adds
  one to the bucket `MurmurHash3(token, 42) % HASH_DIM` of a vector of
  HASH_DIM = 1000 entries.
*/
module HashedFeatures {
  import opened Murmur3
  import opened Text

  const HashDim: nat := 1000

  /** A position of the feature vector. */
  type Index = b: nat | b < HashDim

  /** The seed every token is hashed with. */
  const Seed: bv32 := 42

  /** The bucket of a token: its hash reduced modulo HASH_DIM (an unsigned
      remainder, as `uint32_t % short` is computed in unsigned arithmetic). */
  const BucketOf: seq<bv8> -> Index := t => (Hash(t, Seed) as int) % HashDim

  /** f buckets every token as BucketOf does. The fact is used only where a
      hash has been computed (the trigger), so the counting proofs, which see
      f alone, never unfold the hash. */
  ghost predicate HashBuckets(f: seq<bv8> -> Index)
  {
    forall t {:trigger Hash(t, Seed)} :: f(t) == (Hash(t, Seed) as int) % HashDim
  }

  /** The bucket under f of each token, in order. */
  function Buckets(ts: seq<seq<bv8>>, f: seq<bv8> -> Index): (bs: seq<nat>)
    ensures |bs| == |ts| && InRange(bs)
  {
    if ts == [] then [] else Buckets(ts[..|ts| - 1], f) + [f(ts[|ts| - 1])]
  }

  predicate InRange(bs: seq<nat>)
  {
    forall i | 0 <= i < |bs| :: bs[i] < HashDim
  }

  /** `std::vector<double> feats(HASH_DIM, 0)`. */
  function Zeros(): (z: seq<nat>)
    ensures |z| == HashDim && forall i | 0 <= i < HashDim :: z[i] == 0
  {
    seq(HashDim, _ => 0)
  }

  /** The vector after bucket after bucket of bs has grown by one. */
  function Histogram(bs: seq<nat>): (h: seq<nat>)
    requires InRange(bs)
    ensures |h| == HashDim
  {
    if bs == [] then Zeros()
    else
      var h := Histogram(bs[..|bs| - 1]);
      var b := bs[|bs| - 1];
      h[b := h[b] + 1]
  }

  /** Every entry counts how often its bucket occurs. */
  lemma {:induction false} HistogramCounts(bs: seq<nat>)
    requires InRange(bs)
    ensures forall b | 0 <= b < HashDim :: Histogram(bs)[b] == multiset(bs)[b]
    decreases |bs|
  {
    if bs != [] {
      var init, last := bs[..|bs| - 1], bs[|bs| - 1];
      HistogramCounts(init);
      assert bs == init + [last];
      assert multiset(bs) == multiset(init) + multiset{last};
    }
  }

  function Sum(h: seq<nat>): nat
  {
    if h == [] then 0 else h[0] + Sum(h[1..])
  }

  lemma {:induction false} SumOfZeros(n: nat)
    ensures Sum(seq(n, _ => 0)) == 0
  {
    if n > 0 {
      assert seq(n, _ => 0)[1..] == seq(n - 1, _ => 0);
      SumOfZeros(n - 1);
    }
  }

  /** Adding one to an entry adds one to the sum. */
  lemma {:induction false} SumIncrement(h: seq<nat>, b: nat)
    requires b < |h|
    ensures Sum(h[b := h[b] + 1]) == Sum(h) + 1
    decreases |h|
  {
    if b > 0 {
      SumIncrement(h[1..], b - 1);
      assert h[b := h[b] + 1][1..] == h[1..][b - 1 := h[1..][b - 1] + 1];
    } else {
      assert h[b := h[b] + 1][1..] == h[1..];
    }
  }

  /** The counts sum to the number of buckets counted. */
  lemma {:induction false} HistogramSum(bs: seq<nat>)
    requires InRange(bs)
    ensures Sum(Histogram(bs)) == |bs|
    decreases |bs|
  {
    if bs == [] {
      SumOfZeros(HashDim);
    } else {
      HistogramSum(bs[..|bs| - 1]);
      SumIncrement(Histogram(bs[..|bs| - 1]), bs[|bs| - 1]);
    }
  }

  /** The features of a text, before normalisation. */
  function Features(text: seq<bv8>): (h: seq<nat>)
    ensures |h| == HashDim
  {
    Histogram(Buckets(Tokens(LowerText(text)), BucketOf))
  }

  /** Each entry counts the tokens of the lowered text that hash into it. */
  lemma FeaturesCount(text: seq<bv8>, b: nat)
    requires b < HashDim
    ensures Features(text)[b] == multiset(Buckets(Tokens(LowerText(text)), BucketOf))[b]
  {
    HistogramCounts(Buckets(Tokens(LowerText(text)), BucketOf));
  }

  /** The counts sum to the number of tokens of the lowered text. */
  lemma FeaturesSum(text: seq<bv8>)
    ensures Sum(Features(text)) == |Tokens(LowerText(text))|
  {
    HistogramSum(Buckets(Tokens(LowerText(text)), BucketOf));
  }

  /** Texts that differ only in the case of letters have the same features. */
  lemma FeaturesIgnoreCase(a: seq<bv8>, b: seq<bv8>)
    requires SameUpToCase(a, b)
    ensures Features(a) == Features(b)
  {
    LowerTextIgnoresCase(a, b);
  }

  /** The features are all zero exactly when the text is empty or all
      whitespace (and normalisation then leaves them so). */
  lemma FeaturesOfBlank(text: seq<bv8>)
    ensures Features(text) == Zeros() <==> forall i | 0 <= i < |text| :: IsSpace(text[i])
  {
    var lower := LowerText(text);
    TokensEmptyIffBlank(lower);
    FeaturesSum(text);
    SumOfZeros(HashDim);
    forall i | 0 <= i < |text|
      ensures IsSpace(lower[i]) == IsSpace(text[i])
    {
      LowerKeepsSpaces(text[i]);
    }
  }

  // ---------------------------------------------------------------------------
  // The token loop

  /** The loop state after the text up to pos: done holds the tokens read so
      far, which with the tokens still ahead make up all of them; counted
      holds their buckets under f and feats counts those. */
  ghost predicate Scanned(lower: seq<bv8>, pos: nat, done: seq<seq<bv8>>, counted: seq<nat>, feats: seq<nat>,
                          f: seq<bv8> -> Index)
  {
    && pos <= |lower|
    && done + Tokens(lower[pos..]) == Tokens(lower)
    && counted == Buckets(done, f)
    && feats == Histogram(counted)
  }

  /** A whitespace byte at pos is passed over. */
  lemma SkipSpace(lower: seq<bv8>, pos: nat, done: seq<seq<bv8>>, counted: seq<nat>, feats: seq<nat>,
                  f: seq<bv8> -> Index)
    requires pos < |lower| && IsSpace(lower[pos]) && Scanned(lower, pos, done, counted, feats, f)
    ensures Scanned(lower, pos + 1, done, counted, feats, f)
  {
    assert lower[pos..][1..] == lower[pos + 1..];
  }

  /** Counting the bucket b of the token of the n bytes from pos moves it over
      to the tokens read. */
  lemma CountToken(lower: seq<bv8>, pos: nat, n: nat, done: seq<seq<bv8>>, counted: seq<nat>, feats: seq<nat>,
                   f: seq<bv8> -> Index, b: nat, feats': seq<nat>)
    requires pos < |lower| && !IsSpace(lower[pos]) && n == RunLength(lower[pos..])
    requires Scanned(lower, pos, done, counted, feats, f)
    requires b == f(lower[pos..pos + n]) && feats' == feats[b := feats[b] + 1]
    ensures Scanned(lower, pos + n, done + [lower[pos..pos + n]], counted + [b], feats', f)
  {
    var token := lower[pos..pos + n];
    var rest := Tokens(lower[pos + n..]);
    assert lower[pos..][..n] == token && lower[pos..][n..] == lower[pos + n..];
    assert Tokens(lower[pos..]) == [token] + rest;
    assert (done + [token]) + rest == done + ([token] + rest);
    assert (done + [token])[..|done|] == done;
  }

  /** The bucket of one token: its MurmurHash3 under the seed 42, modulo
      HASH_DIM. */
  method TokenBucket(token: seq<bv8>, ghost f: seq<bv8> -> Index) returns (b: Index)
    requires |token| < MaxLen && HashBuckets(f)
    ensures b == f(token)
  {
    var hash := MurmurHash3(token, |token|, Seed);
    assert token[..|token|] == token;
    b := (hash as int) % HashDim;
  }

  /** One pass of the token loop: reads the token at pos and counts it. */
  method NextToken(lower: seq<bv8>, pos: nat, feats: seq<nat>, ghost f: seq<bv8> -> Index,
                   ghost done: seq<seq<bv8>>, ghost counted: seq<nat>)
    returns (pos': nat, feats': seq<nat>, ghost done': seq<seq<bv8>>, ghost counted': seq<nat>)
    requires |lower| < MaxLen && pos < |lower| && !IsSpace(lower[pos]) && HashBuckets(f)
    requires Scanned(lower, pos, done, counted, feats, f)
    ensures pos < pos' && Scanned(lower, pos', done', counted', feats', f)
  {
    var n := RunLength(lower[pos..]);
    var token := lower[pos..pos + n];
    var b := TokenBucket(token, f);
    feats' := feats[b := feats[b] + 1];
    CountToken(lower, pos, n, done, counted, feats, f, b, feats');
    done' := done + [token];
    counted' := counted + [b];
    pos' := pos + n;
  }

  /** The token loop of `text_to_features`: reads the lowered text token by
      token and counts each token in its bucket. */
  method CountTokens(lower: seq<bv8>, ghost f: seq<bv8> -> Index) returns (feats: seq<nat>)
    requires |lower| < MaxLen && HashBuckets(f)
    ensures feats == Histogram(Buckets(Tokens(lower), f))
  {
    feats := seq(HashDim, _ => 0);
    ghost var done: seq<seq<bv8>> := [];
    ghost var counted: seq<nat> := [];
    var pos := 0;
    assert lower[pos..] == lower && done + Tokens(lower) == Tokens(lower);
    while pos < |lower|
      invariant Scanned(lower, pos, done, counted, feats, f)
      decreases |lower| - pos
    {
      if IsSpace(lower[pos]) {
        SkipSpace(lower, pos, done, counted, feats, f);
        pos := pos + 1;
      } else {
        pos, feats, done, counted := NextToken(lower, pos, feats, f, done, counted);
      }
    }
    assert lower[pos..] == [] && done + [] == done;
  }

  /** `text_to_features` up to the normalisation: lowers the text, then counts
      its tokens in their MurmurHash3 buckets. */
  method TextToFeatures(text: seq<bv8>) returns (feats: seq<nat>)
    requires |text| < MaxLen
    ensures feats == Features(text)
  {
    var lower := LowerText(text);
    feats := CountTokens(lower, BucketOf);
  }
}
