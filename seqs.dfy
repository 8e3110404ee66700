/** Generic facts about sequences that the Python code gets from its
    built-ins: de-duplication (`set`, `np.unique`), counting, flattening
    (`chain`, nested comprehensions), selection by a mask (`np.delete`,
    boolean indexing) and the subsequence order. */
module Seqs {

  /** Number of occurrences of `x` in `xs`. */
  function Count<T(==)>(xs: seq<T>, x: T): nat
  {
    multiset(xs)[x]
  }

  predicate NoDuplicates<T(==)>(xs: seq<T>)
  {
    forall i, j :: 0 <= i < j < |xs| ==> xs[i] != xs[j]
  }

  /** The distinct elements of `xs`, in order of first occurrence. */
  function Distinct<T(==,!new)>(xs: seq<T>): (r: seq<T>)
    ensures forall x :: x in r <==> x in xs
    ensures NoDuplicates(r)
    ensures |r| <= |xs|
  {
    if |xs| == 0 then []
    else
      var d := Distinct(xs[..|xs| - 1]);
      assert xs == xs[..|xs| - 1] + [xs[|xs| - 1]];
      if xs[|xs| - 1] in d then d else d + [xs[|xs| - 1]]
  }

  /** Appending one element extends the distinct elements exactly when the
      element is new. */
  lemma DistinctSnoc<T(!new)>(xs: seq<T>, x: T)
    ensures Distinct(xs + [x]) == if x in xs then Distinct(xs) else Distinct(xs) + [x]
  {
    assert (xs + [x])[..|xs + [x]| - 1] == xs;
  }

  /** The first element of a non-empty sequence comes first among its
      distinct elements. */
  lemma {:induction false} DistinctHead<T(!new)>(xs: seq<T>)
    requires |xs| > 0
    ensures |Distinct(xs)| > 0 && Distinct(xs)[0] == xs[0]
  {
    if |xs| > 1 {
      var init := xs[..|xs| - 1];
      DistinctHead(init);
      assert init[0] == xs[0];
    }
  }

  /** A sequence has exactly one distinct element exactly when it is
      non-empty and all its elements are equal. */
  lemma DistinctSingleton<T(!new)>(xs: seq<T>)
    ensures |Distinct(xs)| == 1 <==> |xs| > 0 && forall i :: 0 <= i < |xs| ==> xs[i] == xs[0]
  {
    var d := Distinct(xs);
    if |d| == 1 {
      assert forall i :: 0 <= i < |xs| ==> xs[i] in d;
    }
    if |xs| > 0 && forall i :: 0 <= i < |xs| ==> xs[i] == xs[0] {
      assert xs[0] in d;
      assert forall k :: 0 <= k < |d| ==> d[k] == xs[0];
    }
  }

  /** A duplicate-free sequence holds each value at most once. */
  lemma {:induction false} NoDuplicatesCount<T>(xs: seq<T>, x: T)
    requires NoDuplicates(xs)
    ensures Count(xs, x) <= 1
  {
    if |xs| > 0 {
      assert xs == [xs[0]] + xs[1..];
      assert NoDuplicates(xs[1..]);
      NoDuplicatesCount(xs[1..], x);
      if xs[0] == x {
        assert x !in xs[1..];
      }
    }
  }

  /** Concatenation of a sequence of sequences (Python's `chain(*xss)`). */
  function Flatten<T>(xss: seq<seq<T>>): seq<T>
  {
    if |xss| == 0 then [] else xss[0] + Flatten(xss[1..])
  }

  lemma FlattenCons<T>(x: seq<T>, xss: seq<seq<T>>)
    ensures Flatten([x] + xss) == x + Flatten(xss)
  {
    assert ([x] + xss)[1..] == xss;
  }

  lemma {:induction false} FlattenAppend<T>(a: seq<seq<T>>, b: seq<seq<T>>)
    ensures Flatten(a + b) == Flatten(a) + Flatten(b)
  {
    if |a| > 0 {
      assert (a + b)[1..] == a[1..] + b;
      FlattenAppend(a[1..], b);
    } else {
      assert a + b == b;
    }
  }

  /** A prefix one longer is the prefix and the next element. */
  lemma TakeSnoc<T>(xs: seq<T>, j: nat)
    requires j < |xs|
    ensures xs[..j + 1] == xs[..j] + [xs[j]]
  {
  }

  /** An element of the concatenation comes from one of the parts. */
  lemma {:induction false} FlattenMember<T>(xss: seq<seq<T>>, x: T)
    ensures x in Flatten(xss) <==> exists i :: 0 <= i < |xss| && x in xss[i]
  {
    if |xss| > 0 {
      FlattenMember(xss[1..], x);
      if x in Flatten(xss[1..]) {
        var i :| 0 <= i < |xss[1..]| && x in xss[1..][i];
        assert x in xss[i + 1];
      }
      if exists i :: 0 <= i < |xss| && x in xss[i] {
        var i :| 0 <= i < |xss| && x in xss[i];
        if i > 0 {
          assert x in xss[1..][i - 1];
        }
      }
    }
  }

  /** The elements of `xs` whose flag is set, in their original order. */
  function Select<T>(xs: seq<T>, keep: seq<bool>): (r: seq<T>)
    requires |keep| == |xs|
    ensures |r| <= |xs|
  {
    if |xs| == 0 then []
    else (if keep[0] then [xs[0]] else []) + Select(xs[1..], keep[1..])
  }

  function Negate(keep: seq<bool>): (r: seq<bool>)
    ensures |r| == |keep| && forall i :: 0 <= i < |keep| ==> r[i] == !keep[i]
  {
    seq(|keep|, i requires 0 <= i < |keep| => !keep[i])
  }

  /** An element is selected exactly when it sits at a flagged position. */
  lemma {:induction false} SelectMember<T>(xs: seq<T>, keep: seq<bool>, x: T)
    requires |keep| == |xs|
    ensures x in Select(xs, keep) <==> exists i :: 0 <= i < |xs| && keep[i] && xs[i] == x
  {
    if |xs| > 0 {
      SelectMember(xs[1..], keep[1..], x);
      if x in Select(xs[1..], keep[1..]) {
        var i :| 0 <= i < |xs| - 1 && keep[1..][i] && xs[1..][i] == x;
        assert keep[i + 1] && xs[i + 1] == x;
      }
      if exists i :: 0 <= i < |xs| && keep[i] && xs[i] == x {
        var i :| 0 <= i < |xs| && keep[i] && xs[i] == x;
        if i > 0 {
          assert keep[1..][i - 1] && xs[1..][i - 1] == x;
        }
      }
    }
  }

  /** Selecting with a mask and with its negation splits `xs` in two. */
  lemma SelectSplit<T>(xs: seq<T>, keep: seq<bool>)
    requires |keep| == |xs|
    ensures multiset(Select(xs, keep)) + multiset(Select(xs, Negate(keep))) == multiset(xs)
    ensures |Select(xs, keep)| + |Select(xs, Negate(keep))| == |xs|
  {
    SelectSplitMultiset(xs, keep, Negate(keep));
    assert |multiset(Select(xs, keep))| + |multiset(Select(xs, Negate(keep)))| == |multiset(xs)|;
  }

  lemma {:induction false} SelectSplitMultiset<T>(xs: seq<T>, keep: seq<bool>, neg: seq<bool>)
    requires |keep| == |xs| == |neg|
    requires forall i :: 0 <= i < |xs| ==> neg[i] == !keep[i]
    ensures multiset(Select(xs, keep)) + multiset(Select(xs, neg)) == multiset(xs)
  {
    if |xs| > 0 {
      SelectSplitMultiset(xs[1..], keep[1..], neg[1..]);
      SplitPrepend(Select(xs[1..], keep[1..]), Select(xs[1..], neg[1..]), xs[1..], [xs[0]], keep[0]);
      assert [xs[0]] + xs[1..] == xs;
    }
  }

  /** Putting `c` in front of one side of a split of `p` splits `c + p`. */
  lemma SplitPrepend<T>(a: seq<T>, b: seq<T>, p: seq<T>, c: seq<T>, toA: bool)
    requires multiset(a) + multiset(b) == multiset(p)
    ensures multiset((if toA then c else []) + a) + multiset((if toA then [] else c) + b) == multiset(c + p)
  {
    if toA {
      assert [] + b == b;
    } else {
      assert [] + a == a;
    }
  }

  lemma AppendAssoc<T>(a: seq<T>, b: seq<T>, c: seq<T>)
    ensures a + (b + c) == (a + b) + c
  {
  }

  /** Selection distributes over concatenation. */
  lemma {:induction false} SelectAppend<T>(a: seq<T>, b: seq<T>, ka: seq<bool>, kb: seq<bool>)
    requires |ka| == |a| && |kb| == |b|
    ensures Select(a + b, ka + kb) == Select(a, ka) + Select(b, kb)
  {
    if |a| == 0 {
      assert a + b == b && ka + kb == kb;
    } else {
      SelectAppend(a[1..], b, ka[1..], kb);
      var h := if ka[0] then [a[0]] else [];
      assert (a + b)[0] == a[0] && (ka + kb)[0] == ka[0];
      assert (a + b)[1..] == a[1..] + b && (ka + kb)[1..] == ka[1..] + kb;
      assert Select(a + b, ka + kb) == h + (Select(a[1..], ka[1..]) + Select(b, kb));
      AppendAssoc(h, Select(a[1..], ka[1..]), Select(b, kb));
    }
  }

  /** Selecting from one more element of a prefix adds that element when
      its flag is set. */
  lemma SelectSnoc<T>(xs: seq<T>, keep: seq<bool>, i: nat)
    requires |keep| == |xs| && i < |xs|
    ensures Select(xs[..i + 1], keep[..i + 1]) == Select(xs[..i], keep[..i]) + (if keep[i] then [xs[i]] else [])
  {
    assert xs[..i + 1] == xs[..i] + [xs[i]] && keep[..i + 1] == keep[..i] + [keep[i]];
    SelectAppend(xs[..i], [xs[i]], keep[..i], [keep[i]]);
  }

  /** Flags cleared from position `m` on select only from the first `m`
      elements. */
  lemma {:induction false} SelectFalseTail<T>(xs: seq<T>, keep: seq<bool>, m: nat)
    requires |keep| == |xs| && m <= |xs|
    requires forall k :: m <= k < |xs| ==> !keep[k]
    ensures Select(xs, keep) == Select(xs[..m], keep[..m])
  {
    if m == 0 {
      SelectNone(xs, keep);
    } else {
      SelectFalseTail(xs[1..], keep[1..], m - 1);
      assert xs[..m][1..] == xs[1..][..m - 1] && keep[..m][1..] == keep[1..][..m - 1];
    }
  }

  lemma {:induction false} SelectNone<T>(xs: seq<T>, keep: seq<bool>)
    requires |keep| == |xs| && forall k :: 0 <= k < |xs| ==> !keep[k]
    ensures Select(xs, keep) == []
  {
    if |xs| > 0 {
      SelectNone(xs[1..], keep[1..]);
    }
  }

  /** A mask with every flag set selects everything. */
  lemma {:induction false} SelectAll<T>(xs: seq<T>, keep: seq<bool>)
    requires |keep| == |xs| && forall i :: 0 <= i < |keep| ==> keep[i]
    ensures Select(xs, keep) == xs
  {
    if |xs| > 0 {
      SelectAll(xs[1..], keep[1..]);
      assert xs == [xs[0]] + xs[1..];
    }
  }

  /** `x` is a subsequence of `y`: `x` is `y` with some elements deleted. */
  predicate IsSubseq<T(==)>(x: seq<T>, y: seq<T>)
    decreases |y|
  {
    if |x| == 0 then true
    else if |y| == 0 then false
    else (x[0] == y[0] && IsSubseq(x[1..], y[1..])) || IsSubseq(x, y[1..])
  }

  lemma {:induction false} SubseqLength<T>(x: seq<T>, y: seq<T>)
    requires IsSubseq(x, y)
    ensures |x| <= |y|
    decreases |y|
  {
    if |x| > 0 {
      if x[0] == y[0] && IsSubseq(x[1..], y[1..]) {
        SubseqLength(x[1..], y[1..]);
      } else {
        SubseqLength(x, y[1..]);
      }
    }
  }

  lemma {:induction false} SubseqRefl<T>(x: seq<T>)
    ensures IsSubseq(x, x)
  {
    if |x| > 0 {
      SubseqRefl(x[1..]);
    }
  }

  lemma {:induction false} SubseqPrepend<T>(x: seq<T>, w: seq<T>, y: seq<T>)
    requires IsSubseq(x, y)
    ensures IsSubseq(x, w + y)
  {
    if |w| == 0 {
      assert w + y == y;
    } else if |x| > 0 {
      SubseqPrepend(x, w[1..], y);
      assert (w + y)[1..] == w[1..] + y;
    }
  }

  lemma {:induction false} SubseqConcat<T>(x1: seq<T>, y1: seq<T>, x2: seq<T>, y2: seq<T>)
    requires IsSubseq(x1, y1) && IsSubseq(x2, y2)
    ensures IsSubseq(x1 + x2, y1 + y2)
    decreases |y1|
  {
    if |x1| == 0 {
      assert x1 + x2 == x2;
      SubseqPrepend(x2, y1, y2);
    } else {
      assert (x1 + x2)[0] == x1[0] && (x1 + x2)[1..] == x1[1..] + x2;
      assert (y1 + y2)[0] == y1[0] && (y1 + y2)[1..] == y1[1..] + y2;
      if x1[0] == y1[0] && IsSubseq(x1[1..], y1[1..]) {
        SubseqConcat(x1[1..], y1[1..], x2, y2);
      } else {
        SubseqConcat(x1, y1[1..], x2, y2);
      }
    }
  }

  lemma {:induction false} SubseqTrans<T>(x: seq<T>, y: seq<T>, z: seq<T>)
    requires IsSubseq(x, y) && IsSubseq(y, z)
    ensures IsSubseq(x, z)
    decreases |z|
  {
    if |x| > 0 {
      SubseqLength(x, y);
      if y[0] == z[0] && IsSubseq(y[1..], z[1..]) {
        if x[0] == y[0] && IsSubseq(x[1..], y[1..]) {
          SubseqTrans(x[1..], y[1..], z[1..]);
        } else {
          SubseqTrans(x, y[1..], z[1..]);
        }
      } else {
        SubseqTrans(x, y, z[1..]);
      }
    }
  }

  /** A slice of `y` is a subsequence of `y` from the slice's start on. */
  lemma SubseqSlice<T>(y: seq<T>, lo: nat, i: nat, j: nat)
    requires lo <= i <= j <= |y|
    ensures IsSubseq(y[i..j], y[lo..])
  {
    SubseqRefl(y[i..j]);
    assert IsSubseq([], y[j..]);
    SubseqConcat(y[i..j], y[i..j], [], y[j..]);
    assert y[i..j] + [] == y[i..j];
    assert y[i..j] + y[j..] == y[i..];
    SubseqPrepend(y[i..j], y[lo..i], y[i..]);
    assert y[lo..i] + y[i..] == y[lo..];
  }
}
