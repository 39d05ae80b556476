/**
  The text handling of `text_to_features` in hashing.cpp: bytes are lowered
  one by one with `std::tolower` and the lowered text is split into tokens by
  `std::istringstream >> token`, which skips whitespace and then reads a
  maximal run of non-whitespace. Both follow the C locale: only the ASCII
  letters A-Z have a lower case, and the whitespace bytes are space, tab,
  newline, vertical tab, form feed and carriage return.
*/
module Text {
  predicate IsUpper(c: bv8)
  {
    0x41 <= c <= 0x5a
  }

  /** `std::isspace` in the C locale. */
  predicate IsSpace(c: bv8)
  {
    c == 0x20 || 0x09 <= c <= 0x0d
  }

  /** `std::tolower` in the C locale: an upper-case letter moves down to its
      lower-case partner 0x20 places above it; every other byte stays. */
  function ToLower(c: bv8): (d: bv8)
    ensures !IsUpper(d)
    ensures d == c || (IsUpper(c) && d == c + 0x20)
  {
    if IsUpper(c) then c + 0x20 else c
  }

  /** Lowering does not change what is whitespace. */
  lemma LowerKeepsSpaces(c: bv8)
    ensures IsSpace(ToLower(c)) == IsSpace(c)
  {
    if IsUpper(c) {
      assert 0x61 <= ToLower(c) <= 0x7a;
    }
  }

  /** Lowering twice is lowering once. */
  lemma LowerIdempotent(c: bv8)
    ensures ToLower(ToLower(c)) == ToLower(c)
  {
    assert !IsUpper(ToLower(c));
  }

  /** The `std::transform` of the text into `lower_text`. */
  function LowerText(s: seq<bv8>): (r: seq<bv8>)
    ensures |r| == |s|
  {
    seq(|s|, i requires 0 <= i < |s| => ToLower(s[i]))
  }

  /** Two texts that differ at most in the case of ASCII letters. */
  predicate SameUpToCase(a: seq<bv8>, b: seq<bv8>)
  {
    && |a| == |b|
    && forall i | 0 <= i < |a| ::
         a[i] == b[i] || (IsUpper(a[i]) && b[i] == a[i] + 0x20) || (IsUpper(b[i]) && a[i] == b[i] + 0x20)
  }

  /** Texts that differ only in letter case lower to the same text. */
  lemma LowerTextIgnoresCase(a: seq<bv8>, b: seq<bv8>)
    requires SameUpToCase(a, b)
    ensures LowerText(a) == LowerText(b)
  {
    forall i | 0 <= i < |a|
      ensures LowerText(a)[i] == LowerText(b)[i]
    {
      if a[i] != b[i] {
        if IsUpper(a[i]) && b[i] == a[i] + 0x20 {
          assert !IsUpper(b[i]);
        } else {
          assert !IsUpper(a[i]);
        }
      }
    }
  }

  // ---------------------------------------------------------------------------
  // Tokens

  /** The length of the run of non-whitespace bytes at the front of s. */
  function RunLength(s: seq<bv8>): (n: nat)
    ensures n <= |s|
    ensures forall i | 0 <= i < n :: !IsSpace(s[i])
    ensures n < |s| ==> IsSpace(s[n])
  {
    if s == [] || IsSpace(s[0]) then 0 else 1 + RunLength(s[1..])
  }

  /** The tokens `iss >> token` reads from s, in order. */
  function Tokens(s: seq<bv8>): seq<seq<bv8>>
    decreases |s|
  {
    if s == [] then []
    else if IsSpace(s[0]) then Tokens(s[1..])
    else
      var n := RunLength(s);
      [s[..n]] + Tokens(s[n..])
  }

  /** A token is a non-empty string of non-whitespace bytes. */
  predicate IsToken(t: seq<bv8>)
  {
    t != [] && forall i | 0 <= i < |t| :: !IsSpace(t[i])
  }

  /** Every token is well formed and no longer than the text it came from. */
  lemma {:induction false} TokensWellFormed(s: seq<bv8>)
    ensures forall i | 0 <= i < |Tokens(s)| :: IsToken(Tokens(s)[i]) && |Tokens(s)[i]| <= |s|
    decreases |s|
  {
    if s == [] {
    } else if IsSpace(s[0]) {
      TokensWellFormed(s[1..]);
    } else {
      var n := RunLength(s);
      TokensWellFormed(s[n..]);
      var ts := Tokens(s);
      assert ts == [s[..n]] + Tokens(s[n..]);
      forall i | 0 <= i < |ts|
        ensures IsToken(ts[i]) && |ts[i]| <= |s|
      {
        if i > 0 {
          assert ts[i] == Tokens(s[n..])[i - 1];
        }
      }
    }
  }

  /** A text has no tokens exactly when it is all whitespace. */
  lemma {:induction false} TokensEmptyIffBlank(s: seq<bv8>)
    ensures Tokens(s) == [] <==> forall i | 0 <= i < |s| :: IsSpace(s[i])
    decreases |s|
  {
    if s != [] && IsSpace(s[0]) {
      TokensEmptyIffBlank(s[1..]);
      if forall i | 0 <= i < |s[1..]| :: IsSpace(s[1..][i]) {
        forall i | 0 <= i < |s|
          ensures IsSpace(s[i])
        {
          if i > 0 {
            assert s[i] == s[1..][i - 1];
          }
        }
      }
    }
  }

  /** The non-whitespace bytes of s, in order. */
  function NonSpace(s: seq<bv8>): seq<bv8>
  {
    if s == [] then [] else (if IsSpace(s[0]) then [] else [s[0]]) + NonSpace(s[1..])
  }

  /** The tokens written one after the other. */
  function Concat(ts: seq<seq<bv8>>): seq<bv8>
  {
    if ts == [] then [] else ts[0] + Concat(ts[1..])
  }

  /** A run without whitespace at the front of s passes into NonSpace whole. */
  lemma {:induction false} NonSpaceOfRun(s: seq<bv8>, n: nat)
    requires n <= |s|
    requires forall i | 0 <= i < n :: !IsSpace(s[i])
    ensures NonSpace(s) == s[..n] + NonSpace(s[n..])
    decreases n
  {
    if n > 0 {
      NonSpaceOfRun(s[1..], n - 1);
      assert s[1..][n - 1..] == s[n..];
      assert [s[0]] + s[1..][..n - 1] == s[..n];
    }
  }

  /** Tokenising loses only whitespace: the tokens put back together are the
      non-whitespace bytes of the text, in their order. */
  lemma {:induction false} TokensKeepText(s: seq<bv8>)
    ensures Concat(Tokens(s)) == NonSpace(s)
    decreases |s|
  {
    if s == [] {
    } else if IsSpace(s[0]) {
      TokensKeepText(s[1..]);
    } else {
      var n := RunLength(s);
      TokensKeepText(s[n..]);
      var ts := [s[..n]] + Tokens(s[n..]);
      assert ts[0] == s[..n] && ts[1..] == Tokens(s[n..]);
      NonSpaceOfRun(s, n);
    }
  }

  /** The number of places in s where a run of non-whitespace begins; before
      the first byte counts as whitespace when `afterSpace` holds. */
  function RunStarts(s: seq<bv8>, afterSpace: bool): nat
  {
    if s == [] then 0
    else (if afterSpace && !IsSpace(s[0]) then 1 else 0) + RunStarts(s[1..], IsSpace(s[0]))
  }

  /** Inside a run, the starts still to come are those after the run. */
  lemma {:induction false} RunStartsInRun(s: seq<bv8>, n: nat)
    requires 0 < n <= |s|
    requires forall i | 0 <= i < n :: !IsSpace(s[i])
    requires n < |s| ==> IsSpace(s[n])
    ensures RunStarts(s[1..], false) == RunStarts(s[n..], true)
    decreases n
  {
    if n == 1 {
      if |s| > 1 {
        assert s[1..][1..] == s[2..];
      }
    } else {
      RunStartsInRun(s[1..], n - 1);
      assert s[1..][n - 1..] == s[n..];
    }
  }

  /** Tokens are maximal: there is one token per run of non-whitespace. */
  lemma {:induction false} TokensAreRuns(s: seq<bv8>)
    ensures |Tokens(s)| == RunStarts(s, true)
    decreases |s|
  {
    if s == [] {
    } else if IsSpace(s[0]) {
      TokensAreRuns(s[1..]);
    } else {
      var n := RunLength(s);
      TokensAreRuns(s[n..]);
      RunStartsInRun(s, n);
    }
  }

  /** The token t is the non-empty stretch s[span.0..span.1], which starts
      on a non-whitespace byte and has whitespace or an end of s on either
      side. As tokens hold no whitespace (TokensWellFormed), such a stretch is
      a maximal run of non-whitespace. */
  predicate IsRunAt(s: seq<bv8>, t: seq<bv8>, span: (nat, nat))
  {
    && span.0 < span.1 <= |s|
    && t == s[span.0..span.1]
    && !IsSpace(s[span.0])
    && (span.0 == 0 || IsSpace(s[span.0 - 1]))
    && (span.1 == |s| || IsSpace(s[span.1]))
  }

  /** The tokens ts are maximal runs of s at the given spans, which follow one
      another from left to right without overlapping. */
  predicate RunSplit(s: seq<bv8>, ts: seq<seq<bv8>>, spans: seq<(nat, nat)>)
  {
    && |spans| == |ts|
    && (forall i | 0 <= i < |ts| :: IsRunAt(s, ts[i], spans[i]))
    && (forall i | 0 < i < |ts| :: spans[i - 1].1 < spans[i].0)
  }

  /** The spans moved d places to the right. */
  function Shift(spans: seq<(nat, nat)>, d: nat): (r: seq<(nat, nat)>)
    ensures |r| == |spans|
    ensures forall i | 0 <= i < |spans| :: r[i] == (spans[i].0 + d, spans[i].1 + d)
  {
    seq(|spans|, i requires 0 <= i < |spans| => (spans[i].0 + d, spans[i].1 + d))
  }

  /** A run of s[d..] is a run of s once moved d places, provided the byte
      before it is whitespace when it starts s[d..]. */
  lemma ShiftRun(s: seq<bv8>, d: nat, t: seq<bv8>, span: (nat, nat))
    requires d <= |s| && IsRunAt(s[d..], t, span)
    requires span.0 == 0 && d > 0 ==> IsSpace(s[d - 1])
    ensures IsRunAt(s, t, (span.0 + d, span.1 + d))
  {
    assert s[d..][span.0..span.1] == s[span.0 + d..span.1 + d];
    if span.0 > 0 {
      assert s[d..][span.0 - 1] == s[span.0 + d - 1];
    }
    if span.1 < |s[d..]| {
      assert s[d..][span.1] == s[span.1 + d];
    }
  }

  /** The n bytes at the front of s are a run. */
  lemma FrontRun(s: seq<bv8>, n: nat)
    requires s != [] && !IsSpace(s[0]) && n == RunLength(s)
    ensures IsRunAt(s, s[..n], (0, n))
  {
    assert s[..n] == s[0..n];
  }

  /** A run after the run of n bytes at the front of s starts past it. */
  lemma RunAfterRun(s: seq<bv8>, n: nat, t: seq<bv8>, span: (nat, nat))
    requires s != [] && !IsSpace(s[0]) && n == RunLength(s)
    requires IsRunAt(s[n..], t, span)
    ensures 0 < span.0 && IsRunAt(s, t, (span.0 + n, span.1 + n))
  {
    ShiftRun(s, n, t, span);
  }

  /** Where each token of s lies in s, found as `iss >> token` finds it. */
  function TokenSpans(s: seq<bv8>): seq<(nat, nat)>
    decreases |s|
  {
    if s == [] then []
    else if IsSpace(s[0]) then Shift(TokenSpans(s[1..]), 1)
    else
      var n := RunLength(s);
      [(0, n)] + Shift(TokenSpans(s[n..]), n)
  }

  lemma {:induction false} TokenSpansLength(s: seq<bv8>)
    ensures |TokenSpans(s)| == |Tokens(s)|
    decreases |s|
  {
    if s == [] {
    } else if IsSpace(s[0]) {
      TokenSpansLength(s[1..]);
    } else {
      TokenSpansLength(s[RunLength(s)..]);
    }
  }

  /** Prefixing a leading run keeps the later tokens at their shifted spans. */
  lemma RunStep(s: seq<bv8>, n: nat, ts: seq<seq<bv8>>, spans: seq<(nat, nat)>, i: nat)
    requires s != [] && !IsSpace(s[0]) && n == RunLength(s)
    requires |ts| == |spans| && 0 < i <= |ts| && IsRunAt(s[n..], ts[i - 1], spans[i - 1])
    ensures IsRunAt(s, ([s[..n]] + ts)[i], ([(0, n)] + Shift(spans, n))[i])
  {
    assert ([s[..n]] + ts)[i] == ts[i - 1];
    assert ([(0, n)] + Shift(spans, n))[i] == Shift(spans, n)[i - 1];
    RunAfterRun(s, n, ts[i - 1], spans[i - 1]);
  }

  /** Token i of s is the maximal run at span i. */
  lemma {:induction false} TokenSpanAt(s: seq<bv8>, i: nat)
    requires i < |Tokens(s)|
    ensures |TokenSpans(s)| == |Tokens(s)| && IsRunAt(s, Tokens(s)[i], TokenSpans(s)[i])
    decreases |s|, 1
  {
    if IsSpace(s[0]) {
      TokenSpanAfterSpace(s, i);
    } else {
      TokenSpanAfterRun(s, i);
    }
  }

  /** The case of TokenSpanAt where s starts with whitespace. */
  lemma {:induction false} TokenSpanAfterSpace(s: seq<bv8>, i: nat)
    requires s != [] && IsSpace(s[0]) && i < |Tokens(s)|
    ensures |TokenSpans(s)| == |Tokens(s)| && IsRunAt(s, Tokens(s)[i], TokenSpans(s)[i])
    decreases |s|, 0
  {
    TokenSpansLength(s);
    var t, span := Tokens(s[1..])[i], TokenSpans(s[1..])[i];
    TokenSpanAt(s[1..], i);
    assert Tokens(s)[i] == t && TokenSpans(s)[i] == (span.0 + 1, span.1 + 1);
    ShiftRun(s, 1, t, span);
  }

  /** The case of TokenSpanAt where s starts with a run. */
  lemma {:induction false} TokenSpanAfterRun(s: seq<bv8>, i: nat)
    requires s != [] && !IsSpace(s[0]) && i < |Tokens(s)|
    ensures |TokenSpans(s)| == |Tokens(s)| && IsRunAt(s, Tokens(s)[i], TokenSpans(s)[i])
    decreases |s|, 0
  {
    TokenSpansLength(s);
    var n := RunLength(s);
    if i == 0 {
      assert Tokens(s)[0] == s[..n] && TokenSpans(s)[0] == (0, n);
      FrontRun(s, n);
    } else {
      TokenSpanAt(s[n..], i - 1);
      RunStep(s, n, Tokens(s[n..]), TokenSpans(s[n..]), i);
    }
  }

  /** Span i - 1 ends before span i starts. */
  lemma {:induction false} TokenSpansOrdered(s: seq<bv8>, i: nat)
    requires 0 < i < |Tokens(s)|
    ensures |TokenSpans(s)| == |Tokens(s)| && TokenSpans(s)[i - 1].1 < TokenSpans(s)[i].0
    decreases |s|
  {
    TokenSpansLength(s);
    if IsSpace(s[0]) {
      TokenSpansOrdered(s[1..], i);
    } else {
      var n := RunLength(s);
      TokenSpansLength(s[n..]);
      if i == 1 {
        TokenSpanAt(s[n..], 0);
        RunAfterRun(s, n, Tokens(s[n..])[0], TokenSpans(s[n..])[0]);
      } else {
        TokenSpansOrdered(s[n..], i - 1);
      }
    }
  }

  /** Each token is a maximal run of non-whitespace of the text, and the
      tokens come in the order of their runs: `iss >> token` never splits a
      run and never joins two. */
  lemma TokensAreMaximalRuns(s: seq<bv8>)
    ensures RunSplit(s, Tokens(s), TokenSpans(s))
  {
    TokenSpansLength(s);
    forall i | 0 <= i < |Tokens(s)|
      ensures IsRunAt(s, Tokens(s)[i], TokenSpans(s)[i])
    {
      TokenSpanAt(s, i);
    }
    forall i | 0 < i < |Tokens(s)|
      ensures TokenSpans(s)[i - 1].1 < TokenSpans(s)[i].0
    {
      TokenSpansOrdered(s, i);
    }
  }
}
