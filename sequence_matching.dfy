/** The pattern extractor `Match`: it folds a group of token sequences into
    their common pattern by repeatedly keeping only the matching blocks of
    the current pattern and the next sequence, optionally with a placeholder
    token standing for each gap between blocks. */
module SequenceMatching {
  import opened Common
  import opened Seqs
  import opened Difflib
  import Rng

  /** The placeholder token inserted between matching blocks. */
  const Placeholder: Token := "(.*?)"

  /** `string.punctuation`. */
  const Punctuation: string := "!\"#$%&'()*+,-./:;<=>?@[\\]^_`{|}~"

  /** The junk list: every punctuation character as a one-character token,
      then `'_'`, the placeholder and the empty token. */
  predicate IsJunk(t: Token)
  {
    (|t| == 1 && t[0] in Punctuation) || t == "_" || t == Placeholder || t == ""
  }

  /** Threshold of `matching_clusters`. */
  const ClusterThreshold: real := 0.7

  /** Some token of the pattern is not junk: the pattern is accepted. */
  predicate HasContent(p: Pattern)
  {
    exists i | 0 <= i < |p| :: !IsJunk(p[i])
  }

  predicate PlaceholderFree(p: Pattern)
  {
    forall i :: 0 <= i < |p| ==> p[i] != Placeholder
  }

  /** Placeholders only between two literal tokens: never first, never
      last, never two in a row. */
  predicate WellFormed(p: Pattern)
  {
    forall i :: 0 <= i < |p| && p[i] == Placeholder ==>
      0 < i < |p| - 1 && p[i - 1] != Placeholder && p[i + 1] != Placeholder
  }

  /** The pattern with its placeholders removed. */
  function Strip(p: Pattern): (r: Pattern)
    ensures PlaceholderFree(r)
  {
    if |p| == 0 then []
    else (if p[0] == Placeholder then [] else [p[0]]) + Strip(p[1..])
  }

  /** `[match + ['(.*?)'] for match in matches]` */
  function AppendPlaceholders(cs: seq<Pattern>): (r: seq<Pattern>)
    ensures |r| == |cs|
    ensures forall k :: 0 <= k < |cs| ==> r[k] == cs[k] + [Placeholder]
  {
    seq(|cs|, k requires 0 <= k < |cs| => cs[k] + [Placeholder])
  }

  /** `matches[-1].pop()` */
  function PopLast(cs: seq<Pattern>): seq<Pattern>
    requires |cs| > 0 && |cs[|cs| - 1]| > 0
  {
    cs[..|cs| - 1] + [cs[|cs| - 1][..|cs[|cs| - 1]| - 1]]
  }

  /** The chunks with one placeholder between each two of them. */
  function Join(cs: seq<Pattern>): Pattern
    requires |cs| > 0
  {
    if |cs| == 1 then cs[0] else cs[0] + [Placeholder] + Join(cs[1..])
  }

  /** Appending a placeholder to every chunk and popping the last one joins
      the chunks with one placeholder between each two. */
  lemma {:induction false} PopJoin(cs: seq<Pattern>)
    requires |cs| > 0
    ensures Flatten(PopLast(AppendPlaceholders(cs))) == Join(cs)
  {
    var a := AppendPlaceholders(cs);
    if |cs| == 1 {
      assert PopLast(a) == [cs[0]];
      assert Flatten([cs[0]]) == cs[0] + Flatten([]);
    } else {
      var rest := AppendPlaceholders(cs[1..]);
      PopJoin(cs[1..]);
      AppendPlaceholdersCons(cs);
      PopLastCons(cs[0] + [Placeholder], rest);
      FlattenCons(cs[0] + [Placeholder], PopLast(rest));
    }
  }

  lemma AppendPlaceholdersCons(cs: seq<Pattern>)
    requires |cs| > 0
    ensures AppendPlaceholders(cs) == [cs[0] + [Placeholder]] + AppendPlaceholders(cs[1..])
  {
    var a, rest := AppendPlaceholders(cs), AppendPlaceholders(cs[1..]);
    assert forall k :: 0 < k < |a| ==> a[k] == rest[k - 1];
  }

  lemma PopLastCons(h: Pattern, rest: seq<Pattern>)
    requires |rest| > 0 && |rest[|rest| - 1]| > 0
    ensures PopLast([h] + rest) == [h] + PopLast(rest)
  {
    var n := |rest|;
    assert ([h] + rest)[..n] == [h] + rest[..n - 1];
  }

  /** The new pattern built from the matching blocks of `p`: their slices of
      `p` concatenated, with placeholders between them when asked for. With
      placeholders and no block at all, the `pop()` on an empty list raises. */
  function Merge(p: Pattern, bs: seq<Block>, addPlaceholder: bool): Result<Pattern>
    requires InBounds(p, bs)
  {
    var cs := Chunks(p, bs);
    if !addPlaceholder then Ok(Flatten(cs))
    else if |cs| == 0 then Err(IndexError)
    else Ok(Flatten(PopLast(AppendPlaceholders(cs))))
  }

  /** One accepted step: the pattern narrowed to what it shares with `s`. */
  function Refine(p: Pattern, s: Pattern, addPlaceholder: bool): Result<Pattern>
  {
    var bs := MatchingBlocks(p, s);
    ValidInBounds(p, s, bs, 0, |p|, 0, |s|);
    Merge(p, bs, addPlaceholder)
  }

  /** One iteration of the loop of `sequence_matcher`: a sequence too
      dissimilar to the pattern is skipped. */
  function Step(p: Pattern, s: Pattern, threshold: real, addPlaceholder: bool): Result<Pattern>
  {
    if Ratio(p, s) < threshold then Ok(p) else Refine(p, s, addPlaceholder)
  }

  /** The whole loop: the steps over `ss` in order, starting from `p`; the
      first exception ends it. */
  function Fold(p: Pattern, ss: seq<Pattern>, threshold: real, addPlaceholder: bool): Result<Pattern>
    decreases |ss|
  {
    if |ss| == 0 then Ok(p)
    else match Step(p, ss[0], threshold, addPlaceholder)
      case Err(e) => Err(e)
      case Ok(q) => Fold(q, ss[1..], threshold, addPlaceholder)
  }

  /** One step of the fold over the suffix starting at `i`. */
  lemma FoldAt(p: Pattern, ss: seq<Pattern>, i: nat, threshold: real, addPlaceholder: bool)
    requires i < |ss|
    ensures var st := Step(p, ss[i], threshold, addPlaceholder);
      Fold(p, ss[i..], threshold, addPlaceholder)
        == if st.Err? then Err(st.error) else Fold(st.value, ss[i + 1..], threshold, addPlaceholder)
  {
    assert ss[i..][0] == ss[i] && ss[i..][1..] == ss[i + 1..];
  }

  /** The loop of `matcher`: every sequence refines the pattern, with
      placeholders and with no similarity test. */
  function Refinements(p: Pattern, ss: seq<Pattern>): Result<Pattern>
    decreases |ss|
  {
    if |ss| == 0 then Ok(p)
    else match Refine(p, ss[0], true)
      case Err(e) => Err(e)
      case Ok(q) => Refinements(q, ss[1..])
  }

  lemma RefinementsAt(p: Pattern, ss: seq<Pattern>, i: nat)
    requires i < |ss|
    ensures var st := Refine(p, ss[i], true);
      Refinements(p, ss[i..]) == if st.Err? then Err(st.error) else Refinements(st.value, ss[i + 1..])
  {
    assert ss[i..][0] == ss[i] && ss[i..][1..] == ss[i + 1..];
  }

  /** What `matcher` computes: the refinements from the first sequence. */
  function CommonPattern(ss: seq<Pattern>): Result<Pattern>
  {
    if |ss| == 0 then Err(IndexError) else Refinements(ss[0], ss)
  }

  /** `matcher` is the loop of `sequence_matcher` with placeholders and a
      threshold no ratio falls below. */
  lemma {:induction false} FoldWithoutThreshold(p: Pattern, ss: seq<Pattern>, threshold: real)
    requires threshold <= 0.0
    ensures Fold(p, ss, threshold, true) == Refinements(p, ss)
    decreases |ss|
  {
    if |ss| > 0 {
      assert Step(p, ss[0], threshold, true) == Refine(p, ss[0], true);
      var st := Refine(p, ss[0], true);
      if st.Ok? {
        FoldWithoutThreshold(st.value, ss[1..], threshold);
      }
    }
  }

  // ---------------------------------------------------------------------
  // Facts about one step

  /** Without placeholders a step keeps a common subsequence of the pattern
      and the sequence, so the pattern never grows. */
  lemma RefinePlain(p: Pattern, s: Pattern)
    ensures Refine(p, s, false).Ok?
    ensures var r := Refine(p, s, false).value;
      IsSubseq(r, p) && IsSubseq(r, s) && |r| <= |p| && |r| <= |s|
  {
    CommonSubsequence(p, s);
    var r := Refine(p, s, false).value;
    SubseqLength(r, p);
    SubseqLength(r, s);
  }

  lemma SliceFree(s: Pattern, lo: nat, hi: nat)
    requires PlaceholderFree(s) && lo <= hi <= |s|
    ensures PlaceholderFree(s[lo..hi])
  {
    assert forall j :: 0 <= j < hi - lo ==> s[lo..hi][j] == s[lo + j];
  }

  /** The text matched against a placeholder-free sequence holds no
      placeholder, and every block contributes at least one token. */
  lemma RefineChunks(p: Pattern, s: Pattern)
    requires PlaceholderFree(s)
    ensures var bs := MatchingBlocks(p, s);
      InBounds(p, bs) && forall k :: 0 <= k < |bs| ==>
        |Chunks(p, bs)[k]| > 0 && PlaceholderFree(Chunks(p, bs)[k])
  {
    var bs := MatchingBlocks(p, s);
    ChunksAgree(p, s, bs, 0, |p|, 0, |s|);
    var sw := Swap(bs);
    forall k | 0 <= k < |bs|
      ensures |Chunks(p, bs)[k]| > 0 && PlaceholderFree(Chunks(p, bs)[k])
    {
      ChunksIndex(s, sw, k);
      assert Chunks(p, bs)[k] == s[sw[k].a..sw[k].a + sw[k].size];
      SliceFree(s, sw[k].a, sw[k].a + sw[k].size);
    }
  }

  lemma {:induction false} StripAppend(a: Pattern, b: Pattern)
    ensures Strip(a + b) == Strip(a) + Strip(b)
  {
    if |a| == 0 {
      assert a + b == b;
    } else {
      assert (a + b)[1..] == a[1..] + b;
      StripAppend(a[1..], b);
    }
  }

  lemma {:induction false} StripFree(p: Pattern)
    requires PlaceholderFree(p)
    ensures Strip(p) == p
  {
    if |p| > 0 {
      StripFree(p[1..]);
    }
  }

  lemma {:induction false} JoinStrip(cs: seq<Pattern>)
    requires |cs| > 0 && forall k :: 0 <= k < |cs| ==> PlaceholderFree(cs[k])
    ensures Strip(Join(cs)) == Flatten(cs)
  {
    StripFree(cs[0]);
    if |cs| == 1 {
      assert Flatten(cs) == cs[0] + Flatten([]);
    } else {
      JoinStrip(cs[1..]);
      StripAppend(cs[0] + [Placeholder], Join(cs[1..]));
      StripAppend(cs[0], [Placeholder]);
      assert Strip([Placeholder]) == [];
    }
  }

  lemma {:induction false} JoinCount(cs: seq<Pattern>)
    requires |cs| > 0 && forall k :: 0 <= k < |cs| ==> PlaceholderFree(cs[k])
    ensures Count(Join(cs), Placeholder) == |cs| - 1
  {
    assert Placeholder !in cs[0];
    if |cs| > 1 {
      JoinCount(cs[1..]);
      assert multiset(cs[0] + [Placeholder] + Join(cs[1..]))
        == multiset(cs[0]) + multiset([Placeholder]) + multiset(Join(cs[1..]));
    }
  }

  lemma {:induction false} JoinWellFormed(cs: seq<Pattern>)
    requires |cs| > 0
    requires forall k :: 0 <= k < |cs| ==> |cs[k]| > 0 && PlaceholderFree(cs[k])
    ensures WellFormed(Join(cs))
    ensures |Join(cs)| > 0 && Join(cs)[0] == cs[0][0]
    ensures Join(cs)[|Join(cs)| - 1] != Placeholder
  {
    if |cs| > 1 {
      var c := cs[0];
      var j := Join(cs[1..]);
      JoinWellFormed(cs[1..]);
      assert cs[1..][0] == cs[1];
      var p := c + [Placeholder] + j;
      forall i | 0 <= i < |p| && p[i] == Placeholder
        ensures 0 < i < |p| - 1 && p[i - 1] != Placeholder && p[i + 1] != Placeholder
      {
        if i == |c| {
          assert p[i - 1] == c[|c| - 1] && p[i + 1] == j[0];
        } else if i > |c| {
          var t := i - |c| - 1;
          assert p[i] == j[t];
          assert p[i - 1] == j[t - 1] && p[i + 1] == j[t + 1];
        }
      }
      assert p[|p| - 1] == j[|j| - 1];
    }
  }

  /** With placeholders, against a placeholder-free sequence: the step fails
      exactly when nothing matches; otherwise the placeholders sit only
      between literal tokens, there is exactly one fewer of them than
      blocks, and removing them gives the step without placeholders. */
  lemma RefinePlaceholders(p: Pattern, s: Pattern)
    requires PlaceholderFree(s)
    ensures var bs := MatchingBlocks(p, s);
      && (Refine(p, s, true).Err? <==> |bs| == 0)
      && (Refine(p, s, true).Err? ==> Refine(p, s, true).error == IndexError)
      && (Refine(p, s, true).Ok? ==>
            var r := Refine(p, s, true).value;
            && WellFormed(r)
            && |r| > 0 && r[|r| - 1] != Placeholder
            && Strip(r) == Refine(p, s, false).value
            && Count(r, Placeholder) == |bs| - 1)
  {
    var bs := MatchingBlocks(p, s);
    RefineChunks(p, s);
    var cs := Chunks(p, bs);
    if |cs| > 0 {
      PopJoin(cs);
      JoinWellFormed(cs);
      JoinStrip(cs);
      JoinCount(cs);
    }
  }

  /** A non-empty sequence compared with itself is kept whole. */
  lemma RefineIdentical(s: Pattern, addPlaceholder: bool)
    requires |s| > 0
    ensures Refine(s, s, addPlaceholder) == Ok(s)
  {
    MatchingBlocksSelf(s);
    var bs := MatchingBlocks(s, s);
    assert bs == [Block(0, 0, |s|)];
    assert s[0..|s|] == s;
    var cs := Chunks(s, bs);
    assert cs == [s];
    assert Flatten(cs) == s + Flatten([]);
    PopJoin(cs);
  }

  /** Matched text with a ratio above zero means at least one block. */
  lemma MatchedBlocks(bs: seq<Block>)
    requires Matched(bs) > 0
    ensures |bs| > 0
  {
  }

  /** With a positive threshold, a step against a non-empty sequence never
      raises: an accepted sequence shares at least one block with the
      pattern, so there is a list to `pop()` from. */
  lemma StepNoError(p: Pattern, s: Pattern, threshold: real, addPlaceholder: bool)
    requires threshold > 0.0 && |s| > 0
    ensures Step(p, s, threshold, addPlaceholder).Ok?
  {
    if Ratio(p, s) >= threshold {
      var bs := MatchingBlocks(p, s);
      MatchedBlocks(bs);
      ValidInBounds(p, s, bs, 0, |p|, 0, |s|);
      assert |Chunks(p, bs)| > 0;
    }
  }

  // ---------------------------------------------------------------------
  // Facts about the fold

  /** If every sequence is too dissimilar to the pattern, the pattern comes
      back unchanged. */
  lemma {:induction false} FoldUnchanged(p: Pattern, ss: seq<Pattern>, threshold: real, addPlaceholder: bool)
    requires forall k :: 0 <= k < |ss| ==> Ratio(p, ss[k]) < threshold
    ensures Fold(p, ss, threshold, addPlaceholder) == Ok(p)
  {
    if |ss| > 0 {
      FoldUnchanged(p, ss[1..], threshold, addPlaceholder);
    }
  }

  /** Without placeholders the fold never raises and ends with a
      subsequence of the pattern it started from; when no sequence is
      skipped (threshold at most 0) the result is a common subsequence of
      every sequence. */
  lemma {:induction false} FoldSubseq(p: Pattern, ss: seq<Pattern>, threshold: real)
    ensures Fold(p, ss, threshold, false).Ok?
    ensures IsSubseq(Fold(p, ss, threshold, false).value, p)
    ensures threshold <= 0.0 ==>
      forall k :: 0 <= k < |ss| ==> IsSubseq(Fold(p, ss, threshold, false).value, ss[k])
    decreases |ss|
  {
    if |ss| == 0 {
      SubseqRefl(p);
    } else {
      RefinePlain(p, ss[0]);
      var q := Step(p, ss[0], threshold, false).value;
      if Ratio(p, ss[0]) < threshold {
        assert q == p;
      } else {
        assert q == Refine(p, ss[0], false).value;
      }
      SubseqRefl(p);
      FoldSubseq(q, ss[1..], threshold);
      var r := Fold(q, ss[1..], threshold, false).value;
      SubseqTrans(r, q, p);
      if threshold <= 0.0 {
        SubseqTrans(r, q, ss[0]);
        forall k | 0 <= k < |ss|
          ensures IsSubseq(r, ss[k])
        {
          if k > 0 {
            assert ss[k] == ss[1..][k - 1];
          }
        }
      }
    }
  }

  /** With a positive threshold and no empty sequence, the fold never
      raises. */
  lemma {:induction false} FoldNoError(p: Pattern, ss: seq<Pattern>, threshold: real, addPlaceholder: bool)
    requires threshold > 0.0
    requires forall k :: 0 <= k < |ss| ==> |ss[k]| > 0
    ensures Fold(p, ss, threshold, addPlaceholder).Ok?
    decreases |ss|
  {
    if |ss| > 0 {
      StepNoError(p, ss[0], threshold, addPlaceholder);
      FoldNoError(Step(p, ss[0], threshold, addPlaceholder).value, ss[1..], threshold, addPlaceholder);
    }
  }

  lemma FreeWellFormed(p: Pattern)
    requires PlaceholderFree(p)
    ensures WellFormed(p)
  {
  }

  /** With placeholders, over placeholder-free sequences, a well-formed
      pattern stays well-formed. */
  lemma {:induction false} FoldWellFormed(p: Pattern, ss: seq<Pattern>, threshold: real)
    requires WellFormed(p)
    requires forall k :: 0 <= k < |ss| ==> PlaceholderFree(ss[k])
    ensures Fold(p, ss, threshold, true).Ok? ==> WellFormed(Fold(p, ss, threshold, true).value)
    decreases |ss|
  {
    if |ss| > 0 {
      RefinePlaceholders(p, ss[0]);
      var st := Step(p, ss[0], threshold, true);
      if st.Ok? {
        FoldWellFormed(st.value, ss[1..], threshold);
      }
    }
  }

  /** A placeholder-free subsequence of a pattern survives the removal of
      the pattern's placeholders. */
  lemma {:induction false} SubseqStrip(x: Pattern, p: Pattern)
    requires PlaceholderFree(x) && IsSubseq(x, p)
    ensures IsSubseq(x, Strip(p))
    decreases |p|
  {
    if |x| > 0 {
      if x[0] == p[0] && IsSubseq(x[1..], p[1..]) {
        SubseqStrip(x[1..], p[1..]);
        assert Strip(p) == [p[0]] + Strip(p[1..]);
      } else {
        SubseqStrip(x, p[1..]);
        SubseqPrepend(x, if p[0] == Placeholder then [] else [p[0]], Strip(p[1..]));
      }
    }
  }

  /** The literal tokens left by one step with placeholders occur, in
      order, among the pattern's literals and in the sequence. */
  lemma RefineLiterals(p: Pattern, s: Pattern)
    requires PlaceholderFree(s) && Refine(p, s, true).Ok?
    ensures var q := Refine(p, s, true).value;
      IsSubseq(Strip(q), Strip(p)) && IsSubseq(Strip(q), s)
  {
    RefinePlaceholders(p, s);
    RefinePlain(p, s);
    var q := Refine(p, s, true).value;
    SubseqStrip(Strip(q), p);
  }

  /** With no threshold, a fold that succeeds refines by its first sequence. */
  lemma FoldHead(p: Pattern, ss: seq<Pattern>, threshold: real)
    requires threshold <= 0.0 && |ss| > 0 && Fold(p, ss, threshold, true).Ok?
    ensures Refine(p, ss[0], true).Ok?
    ensures Fold(p, ss, threshold, true) == Fold(Refine(p, ss[0], true).value, ss[1..], threshold, true)
  {
    assert Step(p, ss[0], threshold, true) == Refine(p, ss[0], true);
  }

  /** With placeholders, over placeholder-free sequences and with no
      sequence skipped, the literal tokens of the result are a common
      subsequence of every sequence. */
  lemma {:induction false} FoldCommonLiterals(p: Pattern, ss: seq<Pattern>, threshold: real)
    requires threshold <= 0.0
    requires forall k :: 0 <= k < |ss| ==> PlaceholderFree(ss[k])
    ensures var f := Fold(p, ss, threshold, true);
      f.Ok? ==> (IsSubseq(Strip(f.value), Strip(p))
                 && forall k :: 0 <= k < |ss| ==> IsSubseq(Strip(f.value), ss[k]))
    decreases |ss|
  {
    var f := Fold(p, ss, threshold, true);
    if |ss| == 0 {
      SubseqRefl(Strip(p));
    } else if f.Ok? {
      FoldHead(p, ss, threshold);
      var q := Refine(p, ss[0], true).value;
      RefineLiterals(p, ss[0]);
      FoldCommonLiterals(q, ss[1..], threshold);
      var r := Strip(f.value);
      SubseqTrans(r, Strip(q), Strip(p));
      SubseqTrans(r, Strip(q), ss[0]);
      SubseqOfAll(r, ss);
    }
  }

  lemma SubseqOfAll(r: Pattern, ss: seq<Pattern>)
    requires |ss| > 0 && IsSubseq(r, ss[0])
    requires forall k :: 0 <= k < |ss| - 1 ==> IsSubseq(r, ss[1..][k])
    ensures forall k :: 0 <= k < |ss| ==> IsSubseq(r, ss[k])
  {
    forall k | 0 < k < |ss|
      ensures IsSubseq(r, ss[k])
    {
      assert ss[k] == ss[1..][k - 1];
    }
  }

  /** With placeholders, over placeholder-free sequences and at any
      threshold, the literal tokens of the result are a subsequence of the
      literal tokens of the starting pattern. */
  lemma {:induction false} FoldLiterals(p: Pattern, ss: seq<Pattern>, threshold: real)
    requires forall k :: 0 <= k < |ss| ==> PlaceholderFree(ss[k])
    ensures var f := Fold(p, ss, threshold, true);
      f.Ok? ==> IsSubseq(Strip(f.value), Strip(p))
    decreases |ss|
  {
    var f := Fold(p, ss, threshold, true);
    if |ss| == 0 {
      SubseqRefl(Strip(p));
    } else if f.Ok? {
      var st := Step(p, ss[0], threshold, true);
      var q := st.value;
      if Ratio(p, ss[0]) < threshold {
        SubseqRefl(Strip(p));
      } else {
        RefineLiterals(p, ss[0]);
      }
      FoldLiterals(q, ss[1..], threshold);
      SubseqTrans(Strip(f.value), Strip(q), Strip(p));
    }
  }

  /** `matcher` on copies of one non-empty sequence gives that sequence. */
  lemma {:induction false} FoldIdentical(x: Pattern, ss: seq<Pattern>, addPlaceholder: bool)
    requires |x| > 0 && forall k :: 0 <= k < |ss| ==> ss[k] == x
    ensures Fold(x, ss, 0.0, addPlaceholder) == Ok(x)
  {
    if |ss| > 0 {
      RefineIdentical(x, addPlaceholder);
      FoldIdentical(x, ss[1..], addPlaceholder);
    }
  }

  lemma MatcherIdentical(x: Pattern, ss: seq<Pattern>)
    requires |x| > 0 && |ss| > 0 && forall k :: 0 <= k < |ss| ==> ss[k] == x
    ensures CommonPattern(ss) == Ok(x)
  {
    FoldIdentical(x, ss, true);
    FoldWithoutThreshold(x, ss, 0.0);
  }

  /** Over placeholder-free sequences, the pattern `matcher` returns never
      starts or ends with a placeholder nor holds two in a row, and its
      literal tokens occur, in order, in every sequence. */
  lemma MatcherShape(ss: seq<Pattern>)
    requires forall k :: 0 <= k < |ss| ==> PlaceholderFree(ss[k])
    ensures CommonPattern(ss).Ok? ==>
      var r := CommonPattern(ss).value;
      && WellFormed(r)
      && (|r| > 0 ==> r[0] != Placeholder && r[|r| - 1] != Placeholder)
      && forall k :: 0 <= k < |ss| ==> IsSubseq(Strip(r), ss[k])
  {
    if |ss| > 0 {
      FreeWellFormed(ss[0]);
      FoldWithoutThreshold(ss[0], ss, 0.0);
      FoldWellFormed(ss[0], ss, 0.0);
      FoldCommonLiterals(ss[0], ss, 0.0);
    }
  }

  /** A sequence of the group that fails, because it is empty, makes
      `matcher` raise: no block to `pop()` from. */
  lemma MatcherEmptyFirst(ss: seq<Pattern>)
    requires |ss| > 0 && |ss[0]| == 0
    ensures CommonPattern(ss) == Err(IndexError)
  {
    MatchingBlocksSelf(ss[0]);
    assert Chunks(ss[0], MatchingBlocks(ss[0], ss[0])) == [];
  }

  // ---------------------------------------------------------------------
  // matching_clusters and matrix_matching

  /** The positions of a group of `n` sequences whose score is at or above
      0.7 (a missing score counts as below). */
  function Close(n: nat, sims: seq<real>): (keep: seq<bool>)
    ensures |keep| == n
    ensures forall k :: 0 <= k < n ==> (keep[k] <==> k < |sims| && sims[k] >= ClusterThreshold)
  {
    seq(n, k requires 0 <= k < n => k < |sims| && sims[k] >= ClusterThreshold)
  }

  /** A score at or above 0.7 with no sequence at its position: looking the
      sequence up raises. */
  predicate Overrun(n: nat, sims: seq<real>)
  {
    exists k :: n <= k < |sims| && sims[k] >= ClusterThreshold
  }

  /** `np.delete(xs, idx)` on a one-dimensional array. */
  function Delete(xs: seq<Pattern>, idx: seq<nat>): (r: seq<Pattern>)
  {
    Select(xs, seq(|xs|, k requires 0 <= k < |xs| => k !in idx))
  }

  /** What one round of `matching_clusters` comes to: it raises, or it
      yields the matched group's pattern and the sequences left over. */
  datatype RoundOutcome = Raised | Grouped(pattern: Pattern, rest: seq<Pattern>)

  /** A round raises when a passing score has no sequence or `matcher`
      raises on the group; a group it matches is never empty, so fewer
      sequences are left. */
  function FirstRound(ss: seq<Pattern>, similarity: seq<Pattern> -> seq<real>): (o: RoundOutcome)
    ensures o.Grouped? ==> |o.rest| < |ss|
  {
    var sims := similarity(ss);
    var keep := Close(|ss|, sims);
    SelectSplit(ss, keep);
    if Overrun(|ss|, sims) then Raised
    else match CommonPattern(Select(ss, keep))
      case Err(_) => Raised
      case Ok(p) => Grouped(p, Select(ss, Negate(keep)))
  }

  /** Deleting the flagged positions keeps the unflagged ones. */
  lemma DeleteMask(xs: seq<Pattern>, idx: seq<nat>, keep: seq<bool>)
    requires |keep| == |xs| && forall k :: 0 <= k < |xs| ==> (k in idx <==> keep[k])
    ensures Delete(xs, idx) == Select(xs, Negate(keep))
  {
    assert seq(|xs|, k requires 0 <= k < |xs| => k !in idx) == Negate(keep);
  }

  /** The patterns that `matching_clusters` appends, and whether a round
      raised (after which nothing more is appended). */
  datatype Rounds = Rounds(patterns: seq<Pattern>, failed: bool)

  function Clustering(ss: seq<Pattern>, similarity: seq<Pattern> -> seq<real>): Rounds
    decreases |ss|
  {
    match FirstRound(ss, similarity)
    case Raised => Rounds([], true)
    case Grouped(p, rest) =>
      if |rest| > 1 then
        var sub := Clustering(rest, similarity);
        Rounds([p] + sub.patterns, sub.failed)
      else if |rest| == 1 then Rounds([p, rest[0]], false)
      else Rounds([p], false)
  }

  /** Each round removes at least one sequence and appends one pattern, so
      there are never more patterns than sequences. */
  lemma {:induction false} ClusteringBound(ss: seq<Pattern>, similarity: seq<Pattern> -> seq<real>)
    ensures |Clustering(ss, similarity).patterns| <= |ss|
    decreases |ss|
  {
    var o := FirstRound(ss, similarity);
    if o.Grouped? && |o.rest| > 1 {
      ClusteringBound(o.rest, similarity);
    }
  }

  /** The first round: it raises exactly when a score has no sequence or
      the matched group makes `matcher` raise (an empty group always does);
      otherwise its pattern comes first, and the sequences it matched and
      the ones left split the group, with strictly fewer left. */
  lemma ClusteringFirstRound(ss: seq<Pattern>, similarity: seq<Pattern> -> seq<real>)
    ensures var keep := Close(|ss|, similarity(ss));
      var filtered := Select(ss, keep);
      var m := CommonPattern(filtered);
      && (Overrun(|ss|, similarity(ss)) || m.Err? <==> Clustering(ss, similarity) == Rounds([], true))
      && (|filtered| == 0 ==> Clustering(ss, similarity).failed)
      && (!Overrun(|ss|, similarity(ss)) && m.Ok? ==>
            && Clustering(ss, similarity).patterns[0] == m.value
            && |Select(ss, Negate(keep))| < |ss|
            && multiset(filtered) + multiset(Select(ss, Negate(keep))) == multiset(ss))
  {
    SelectSplit(ss, Close(|ss|, similarity(ss)));
  }

  /** Shortest sequence length (`zip` stops at the shortest). */
  function MinLen(ss: seq<Pattern>): (n: nat)
    ensures forall j :: 0 <= j < |ss| ==> n <= |ss[j]|
    ensures |ss| > 0 ==> exists j :: 0 <= j < |ss| && n == |ss[j]|
  {
    if |ss| == 0 then 0
    else if |ss| == 1 then |ss[0]|
    else
      var m := MinLen(ss[1..]);
      assert forall j :: 1 <= j < |ss| ==> ss[j] == ss[1..][j - 1];
      if |ss[0]| <= m then |ss[0]| else m
  }

  /** Column `i` of the group. */
  function Column(ss: seq<Pattern>, i: nat): (col: seq<Token>)
    requires i <= MinLen(ss) && (|ss| > 0 ==> i < MinLen(ss))
    ensures |col| == |ss| && forall j :: 0 <= j < |ss| ==> col[j] == ss[j][i]
  {
    seq(|ss|, j requires 0 <= j < |ss| => ss[j][i])
  }

  /** All sequences hold the same token at position `i`. */
  predicate Agree(ss: seq<Pattern>, i: nat)
    requires forall j :: 0 <= j < |ss| ==> i < |ss[j]|
  {
    forall j :: 0 <= j < |ss| ==> ss[j][i] == ss[0][i]
  }

  /** `tokens[0] if len(tokens) == 1 else '(.*?)'` for the distinct tokens
      of column `i`. */
  function ColumnToken(ss: seq<Pattern>, i: nat): (t: Token)
    requires |ss| > 0 && i < MinLen(ss)
    ensures t == if Agree(ss, i) then ss[0][i] else Placeholder
  {
    var col := Column(ss, i);
    var u := Distinct(col);
    DistinctSingleton(col);
    if |u| == 1 then
      DistinctHead(col);
      u[0]
    else Placeholder
  }

  /** `matrix_matching`: a single sequence is its own pattern; otherwise,
      column by column, the token all sequences share there, or the
      placeholder where they differ. */
  function MatrixMatching(ss: seq<Pattern>): (r: Pattern)
    ensures |ss| == 1 ==> r == ss[0]
    ensures |ss| != 1 ==> |r| == MinLen(ss)
    ensures |ss| != 1 ==> forall i :: 0 <= i < |r| ==>
      r[i] == if Agree(ss, i) then ss[0][i] else Placeholder
  {
    if |ss| == 1 then ss[0]
    else if |ss| == 0 then []
    else seq(MinLen(ss), i requires 0 <= i < MinLen(ss) => ColumnToken(ss, i))
  }

  /** Copies of one sequence give that sequence back. */
  lemma MatrixIdentical(x: Pattern, ss: seq<Pattern>)
    requires |ss| > 0 && forall j :: 0 <= j < |ss| ==> ss[j] == x
    ensures MatrixMatching(ss) == x
  {
    if |ss| != 1 {
      assert MinLen(ss) == |x|;
    }
  }

  // ---------------------------------------------------------------------
  // The Match object

  /** The list that `matching_clusters` appends to. */
  class PatternList {
    var items: seq<Pattern>

    constructor ()
      ensures items == []
    {
      items := [];
    }

    method Append(p: Pattern)
      modifies this
      ensures items == old(items) + [p]
    {
      items := items + [p];
    }
  }

  class Match {
    const sequences: seq<Pattern>
    const matchThreshold: real
    const maxAttempts: int
    var attemptNumber: int

    /** `Match(sequences, match_threshhold=0.5, max_attempts=3)`. */
    constructor (sequences: seq<Pattern>, matchThreshold: real, maxAttempts: int)
      ensures this.sequences == sequences && this.matchThreshold == matchThreshold
      ensures this.maxAttempts == maxAttempts && attemptNumber == 1
    {
      this.sequences := sequences;
      this.matchThreshold := matchThreshold;
      this.maxAttempts := maxAttempts;
      attemptNumber := 1;
    }

    /** `sequence_matcher`. The distinct sequences are folded into a pattern
        from a randomly chosen one of them. A pattern with some non-junk
        token, or any pattern once the attempts are used up, is returned;
        otherwise the attempt counter goes up and the search runs again,
        but the value of that run is dropped and `None` comes back (an
        exception raised by it still propagates). `calls` counts the
        invocations, this one included. */
    method SequenceMatcher(addPlaceholder: bool, rng: Rng.Random) returns (r: Result<Option<Pattern>>, ghost calls: nat)
      modifies this, rng
      ensures var u := Distinct(sequences);
        |u| <= 1 ==> (attemptNumber == old(attemptNumber) && rng.drawn == old(rng.drawn) && calls == 1
                      && r == (if |u| == 0 then Err(IndexError) else Ok(Some(u[0]))))
      ensures var u := Distinct(sequences);
        |u| >= 2 ==>
          var f := Fold(u[old(rng.source(rng.drawn)) % |u|], u, matchThreshold, addPlaceholder);
          && rng.drawn > old(rng.drawn)
          && (f.Err? ==> r == Err(f.error) && attemptNumber == old(attemptNumber))
          && (f.Ok? && (HasContent(f.value) || old(attemptNumber) > maxAttempts) ==>
                r == Ok(Some(f.value)) && attemptNumber == old(attemptNumber))
          && (f.Ok? && !HasContent(f.value) && old(attemptNumber) <= maxAttempts ==>
                (r == Ok(None) || r.Err?) && attemptNumber > old(attemptNumber))
      ensures matchThreshold > 0.0 && |sequences| > 0 && (forall k :: 0 <= k < |sequences| ==> |sequences[k]| > 0)
        ==> r.Ok?
      ensures old(attemptNumber) <= attemptNumber <= Max(old(attemptNumber), maxAttempts + 1)
      ensures calls == attemptNumber - old(attemptNumber) + 1
      ensures old(attemptNumber) == 1 ==> calls <= Max(1, maxAttempts + 1)
      decreases if attemptNumber <= maxAttempts then maxAttempts - attemptNumber + 1 else 0
    {
      var unique := Distinct(sequences);
      if |unique| <= 1 {
        if |unique| == 0 {
          return Err(IndexError), 1;
        }
        return Ok(Some(unique[0])), 1;
      }
      var c := rng.Choice(|unique|);
      var pattern := unique[c];
      ghost var seed := pattern;
      if matchThreshold > 0.0 && |sequences| > 0 && (forall k :: 0 <= k < |sequences| ==> |sequences[k]| > 0) {
        forall k | 0 <= k < |unique|
          ensures |unique[k]| > 0
        {
          assert unique[k] in sequences;
        }
        FoldNoError(seed, unique, matchThreshold, addPlaceholder);
      }
      var folded := FoldGroup(pattern, unique, addPlaceholder);
      if folded.Err? {
        return Err(folded.error), 1;
      }
      pattern := folded.value;
      if HasContent(pattern) || attemptNumber > maxAttempts {
        return Ok(Some(pattern)), 1;
      }
      attemptNumber := attemptNumber + 1;
      var again, inner := SequenceMatcher(addPlaceholder, rng);
      calls := inner + 1;
      r := if again.Err? then Err(again.error) else Ok(None);
    }

    /** The loop of `sequence_matcher`: each sequence whose ratio to the
        pattern reaches the threshold is merged into it, the others are
        skipped; an exception from a merge ends the loop. */
    method FoldGroup(seed: Pattern, unique: seq<Pattern>, addPlaceholder: bool) returns (r: Result<Pattern>)
      ensures r == Fold(seed, unique, matchThreshold, addPlaceholder)
    {
      var pattern := seed;
      var i := 0;
      while i < |unique|
        invariant 0 <= i <= |unique|
        invariant Fold(pattern, unique[i..], matchThreshold, addPlaceholder)
               == Fold(seed, unique, matchThreshold, addPlaceholder)
      {
        var s := unique[i];
        FoldAt(pattern, unique, i, matchThreshold, addPlaceholder);
        if Ratio(pattern, s) < matchThreshold {
          i := i + 1;
          continue;
        }
        var blocks := MatchingBlocks(pattern, s);
        ValidInBounds(pattern, s, blocks, 0, |pattern|, 0, |s|);
        var merged := Merge(pattern, blocks, addPlaceholder);
        assert merged == Step(pattern, s, matchThreshold, addPlaceholder);
        if merged.Err? {
          return merged;
        }
        pattern := merged.value;
        i := i + 1;
      }
      assert unique[i..] == [];
      return Ok(pattern);
    }

    /** `matcher`: the group folded from its first sequence, with
        placeholders between blocks and no sequence skipped. */
    method Matcher(ss: seq<Pattern>) returns (r: Result<Pattern>)
      ensures r == CommonPattern(ss)
    {
      if |ss| == 0 {
        return Err(IndexError);
      }
      var pattern := ss[0];
      var i := 0;
      while i < |ss|
        invariant 0 <= i <= |ss|
        invariant Refinements(pattern, ss[i..]) == CommonPattern(ss)
      {
        var s := ss[i];
        RefinementsAt(pattern, ss, i);
        var blocks := MatchingBlocks(pattern, s);
        ValidInBounds(pattern, s, blocks, 0, |pattern|, 0, |s|);
        var merged := Merge(pattern, blocks, true);
        if merged.Err? {
          return merged;
        }
        pattern := merged.value;
        i := i + 1;
      }
      return Ok(pattern);
    }

    /** The loop of `matching_clusters`: the sequences scoring at least 0.7,
        in order, and their positions; a passing score past the last
        sequence raises. */
    method Partition(ss: seq<Pattern>, sims: seq<real>) returns (r: Result<seq<Pattern>>, toRemove: seq<nat>)
      ensures r.Err? <==> Overrun(|ss|, sims)
      ensures r.Err? ==> r.error == IndexError
      ensures r.Ok? ==> r.value == Select(ss, Close(|ss|, sims))
      ensures r.Ok? ==> Delete(ss, toRemove) == Select(ss, Negate(Close(|ss|, sims)))
    {
      var keep := Close(|ss|, sims);
      var filtered := [];
      toRemove := [];
      var i := 0;
      while i < |sims|
        invariant 0 <= i <= |sims|
        invariant filtered == Select(ss[..Min(i, |ss|)], keep[..Min(i, |ss|)])
        invariant forall k :: 0 <= k < |ss| ==> (k in toRemove <==> k < i && keep[k])
        invariant forall k :: |ss| <= k < i ==> sims[k] < ClusterThreshold
      {
        if sims[i] >= ClusterThreshold {
          if i >= |ss| {
            return Err(IndexError), toRemove;
          }
          SelectSnoc(ss, keep, i);
          filtered := filtered + [ss[i]];
          toRemove := toRemove + [i];
        } else if i < |ss| {
          SelectSnoc(ss, keep, i);
        }
        i := i + 1;
      }
      SelectFalseTail(ss, keep, Min(i, |ss|));
      DeleteMask(ss, toRemove, keep);
      r := Ok(filtered);
    }

    /** One round of `matching_clusters`: the group of sequences scoring at
        least 0.7 is matched and its pattern appended; the sequences left
        are returned. */
    method Round(ss: seq<Pattern>, patterns: PatternList, similarity: seq<Pattern> -> seq<real>)
      returns (r: Result<()>, rest: seq<Pattern>)
      modifies patterns
      ensures var o := FirstRound(ss, similarity);
        && (o.Raised? ==> r.Err? && patterns.items == old(patterns.items))
        && (o.Grouped? ==> r.Ok? && rest == o.rest && patterns.items == old(patterns.items) + [o.pattern])
    {
      var sims := similarity(ss);
      var filtered, toRemove := Partition(ss, sims);
      if filtered.Err? {
        return Err(filtered.error), [];
      }
      var p := Matcher(filtered.value);
      if p.Err? {
        return Err(p.error), [];
      }
      SelectSplit(ss, Close(|ss|, sims));
      patterns.Append(p.value);
      rest := Delete(ss, toRemove);
      r := Ok(());
    }

    /** `matching_clusters`: the sequences scoring at least 0.7 form one
        group whose `matcher` pattern is appended; they are deleted and the
        rest is clustered the same way; a single leftover sequence is
        appended as its own pattern. `similarity` stands for
        `levenshtein_similarity_1_to_n`. */
    method MatchingClusters(ss: seq<Pattern>, patterns: PatternList, similarity: seq<Pattern> -> seq<real>)
      returns (r: Result<()>)
      modifies patterns
      ensures patterns.items == old(patterns.items) + Clustering(ss, similarity).patterns
      ensures r.Err? <==> Clustering(ss, similarity).failed
      decreases |ss|
    {
      var rest;
      r, rest := Round(ss, patterns, similarity);
      if r.Err? {
        return;
      }
      ghost var p := FirstRound(ss, similarity).pattern;
      if |rest| > 1 {
        r := MatchingClusters(rest, patterns, similarity);
        AppendAssoc(old(patterns.items), [p], Clustering(rest, similarity).patterns);
      } else if |rest| == 1 {
        patterns.Append(rest[0]);
      }
    }
  }
}
