/** `clusterlogs/similarity_clusterization.py`: `SClustering` splits a table
    of token sequences into clusters. The most frequent sequence is the
    pivot; every row whose normalised Levenshtein similarity to the pivot
    reaches `accuracy` joins its cluster; the cluster is recorded, its rows
    are dropped from the table and the rest is clustered again. */
module SimilarityClusterization {
  import opened Common
  import opened Seqs
  import EditDistance
  import SequenceMatching
  import Rng

  /** One row of the groups table: the token sequence, its tokenised
      pattern and the indices of the messages it stands for. */
  datatype Row = Row(sequence: Pattern, tokenizedPattern: Pattern, indices: seq<nat>)

  /** One record of the result: the patterns found for the cluster (`None`
      where `sequence_matcher` took its retry path), its message indices and
      their number. */
  datatype Record = Record(tokenizedPattern: Option<Pattern>, indices: seq<nat>, clusterSize: nat,
                           sequence: Option<Pattern>)

  /** What `levenshtein_similarity` returns: the scalar `1`, or one score
      per row. */
  datatype Similarity = Scalar | Scores(values: seq<real>)

  /** The `sequence` column. */
  function Sequences(rows: seq<Row>): (ss: seq<Pattern>)
    ensures |ss| == |rows| && forall k :: 0 <= k < |rows| ==> ss[k] == rows[k].sequence
  {
    seq(|rows|, k requires 0 <= k < |rows| => rows[k].sequence)
  }

  /** The `tokenized_pattern` column. */
  function TokenizedPatterns(rows: seq<Row>): (ps: seq<Pattern>)
    ensures |ps| == |rows| && forall k :: 0 <= k < |rows| ==> ps[k] == rows[k].tokenizedPattern
  {
    seq(|rows|, k requires 0 <= k < |rows| => rows[k].tokenizedPattern)
  }

  /** The indices of the rows, concatenated in row order. */
  function AllIndices(rows: seq<Row>): seq<nat>
  {
    if |rows| == 0 then [] else rows[0].indices + AllIndices(rows[1..])
  }

  /** The position of the first of the most frequent sequences among the
      first `n`. */
  function ModeIndex(ss: seq<Pattern>, n: nat): (j: nat)
    requires 0 < n <= |ss|
    ensures j < n
    ensures forall k :: 0 <= k < n ==> Count(ss, ss[k]) <= Count(ss, ss[j])
    ensures forall k :: 0 <= k < j ==> Count(ss, ss[k]) < Count(ss, ss[j])
  {
    if n == 1 then 0
    else
      var j := ModeIndex(ss, n - 1);
      if Count(ss, ss[n - 1]) > Count(ss, ss[j]) then n - 1 else j
  }

  /** `describe().top`: a most frequent sequence. */
  function Mode(ss: seq<Pattern>): (top: Pattern)
    requires |ss| > 0
    ensures top in ss
    ensures forall s :: s in ss ==> Count(ss, s) <= Count(ss, top)
  {
    ss[ModeIndex(ss, |ss|)]
  }

  /** The normalised similarity of a row to a non-empty pivot. */
  function Score(top: Pattern, row: Pattern): real
    requires |top| > 0
  {
    1.0 - EditDistance.Distance(top, row) as real / Max(|top|, |row|) as real
  }

  /** `levenshtein_similarity`: one score per row when there are at least
      two rows and the pivot is not empty, else the scalar `1`. */
  function LevenshteinSimilarity(top: Pattern, rows: seq<Pattern>): (s: Similarity)
    ensures s.Scores? <==> |rows| > 1 && |top| > 0
    ensures s.Scores? ==> |s.values| == |rows|
  {
    if |rows| > 1 && |top| > 0 then
      Scores(seq(|rows|, i requires 0 <= i < |rows| => Score(top, rows[i])))
    else Scalar
  }

  /** Every score lies in [0, 1]. */
  lemma ScoreBounds(top: Pattern, row: Pattern)
    requires |top| > 0
    ensures 0.0 <= Score(top, row) <= 1.0
  {
    EditDistance.DistanceUpper(top, row);
    Fraction(EditDistance.Distance(top, row) as real, Max(|top|, |row|) as real);
  }

  /** A row scores exactly 1 when it equals the pivot, and only then. */
  lemma ScoreOne(top: Pattern, row: Pattern)
    requires |top| > 0
    ensures Score(top, row) == 1.0 <==> row == top
  {
    EditDistance.DistanceZero(top, row);
    Fraction(EditDistance.Distance(top, row) as real, Max(|top|, |row|) as real);
  }

  /** The scores, in row order: each is one minus the edit distance to the
      pivot over the longer length, lies in [0, 1], and is 1 exactly for the
      rows equal to the pivot. */
  lemma SimilarityScores(top: Pattern, rows: seq<Pattern>)
    requires |rows| > 1 && |top| > 0
    ensures var s := LevenshteinSimilarity(top, rows);
      forall i :: 0 <= i < |rows| ==>
        && s.values[i] == 1.0 - EditDistance.Distance(top, rows[i]) as real / Max(|top|, |rows[i]|) as real
        && 0.0 <= s.values[i] <= 1.0
        && (s.values[i] == 1.0 <==> rows[i] == top)
  {
    forall i | 0 <= i < |rows|
      ensures 0.0 <= Score(top, rows[i]) <= 1.0 && (Score(top, rows[i]) == 1.0 <==> rows[i] == top)
    {
      ScoreBounds(top, rows[i]);
      ScoreOne(top, rows[i]);
    }
  }

  lemma Fraction(d: real, m: real)
    requires 0.0 <= d && 0.0 < m
    ensures 0.0 <= d / m
    ensures d <= m ==> d / m <= 1.0
    ensures d / m == 0.0 <==> d == 0.0
  {
    assert d / m * m == d;
  }

  /** The `ratio` column: the scores, or the scalar broadcast to every row. */
  function Ratios(rows: seq<Row>): (rs: seq<real>)
    requires |rows| > 0
    ensures |rs| == |rows|
  {
    var ss := Sequences(rows);
    match LevenshteinSimilarity(Mode(ss), ss)
    case Scalar => seq(|rows|, k => 1.0)
    case Scores(values) => values
  }

  /** `df['ratio'] >= accuracy`: the rows that join the pivot's cluster. */
  function Keep(rows: seq<Row>, accuracy: real): (keep: seq<bool>)
    ensures |keep| == |rows|
  {
    if |rows| == 0 then []
    else
      var rs := Ratios(rows);
      seq(|rows|, k requires 0 <= k < |rows| => rs[k] >= accuracy)
  }

  /** Every ratio lies in [0, 1], and the pivot's own row has ratio 1. */
  lemma RatioBounds(rows: seq<Row>)
    requires |rows| > 0
    ensures forall k :: 0 <= k < |rows| ==> 0.0 <= Ratios(rows)[k] <= 1.0
    ensures forall k :: 0 <= k < |rows| && rows[k].sequence == Mode(Sequences(rows)) ==> Ratios(rows)[k] == 1.0
  {
    var ss := Sequences(rows);
    var top := Mode(ss);
    if |rows| > 1 && |top| > 0 {
      forall k | 0 <= k < |rows|
        ensures 0.0 <= Ratios(rows)[k] <= 1.0
        ensures rows[k].sequence == top ==> Ratios(rows)[k] == 1.0
      {
        ScoreBounds(top, ss[k]);
        ScoreOne(top, ss[k]);
      }
    }
  }

  /** A non-empty table gives a non-empty cluster exactly when `accuracy`
      is at most 1: then the pivot's row is in it, so the table shrinks. */
  lemma PivotSelected(rows: seq<Row>, accuracy: real)
    requires |rows| > 0
    ensures (exists k :: 0 <= k < |rows| && Keep(rows, accuracy)[k]) <==> accuracy <= 1.0
    ensures accuracy <= 1.0 ==> exists k :: 0 <= k < |rows| && Keep(rows, accuracy)[k] && rows[k].sequence == Mode(Sequences(rows))
  {
    RatioBounds(rows);
    var ss := Sequences(rows);
    var k :| 0 <= k < |ss| && ss[k] == Mode(ss);
    assert rows[k].sequence == Mode(Sequences(rows));
    if accuracy <= 1.0 {
      assert Ratios(rows)[k] == 1.0;
      assert Keep(rows, accuracy)[k];
    }
    if exists i :: 0 <= i < |rows| && Keep(rows, accuracy)[i] {
      var i :| 0 <= i < |rows| && Keep(rows, accuracy)[i];
      assert Ratios(rows)[i] >= accuracy;
    }
  }

  /** With `accuracy` at most 0 every row joins the first cluster. */
  lemma AccuracyZeroCollapse(rows: seq<Row>, accuracy: real)
    requires |rows| > 0 && accuracy <= 0.0
    ensures forall k :: 0 <= k < |rows| ==> Keep(rows, accuracy)[k]
  {
    RatioBounds(rows);
  }

  /** With `accuracy` 1, at least two rows and a non-empty pivot, the
      cluster is exactly the rows equal to the pivot. */
  lemma AccuracyOneIdentical(rows: seq<Row>)
    requires |rows| > 1 && |Mode(Sequences(rows))| > 0
    ensures forall k :: 0 <= k < |rows| ==> (Keep(rows, 1.0)[k] <==> rows[k].sequence == Mode(Sequences(rows)))
  {
    var ss := Sequences(rows);
    var top := Mode(ss);
    forall k | 0 <= k < |rows|
      ensures Keep(rows, 1.0)[k] <==> rows[k].sequence == top
    {
      ScoreOne(top, ss[k]);
      ScoreBounds(top, ss[k]);
    }
  }

  /** An empty pivot yields the scalar 1, so every row joins its cluster
      whatever its tokens, when `accuracy` is at most 1. */
  lemma EmptyPivotJoinsAll(rows: seq<Row>, accuracy: real)
    requires |rows| > 0 && |Mode(Sequences(rows))| == 0 && accuracy <= 1.0
    ensures forall k :: 0 <= k < |rows| ==> Keep(rows, accuracy)[k]
  {
  }

  /** The clusters that `reclustering` carves out of `rows`, in order;
      the list stops where a cluster would be empty (a raised
      `IndexError`). */
  function Groups(rows: seq<Row>, accuracy: real): seq<seq<Row>>
    decreases |rows|
  {
    if |rows| == 0 then []
    else
      var keep := Keep(rows, accuracy);
      var filtered := Select(rows, keep);
      if |filtered| == 0 then []
      else
        SelectSplit(rows, keep);
        [filtered] + Groups(Select(rows, Negate(keep)), accuracy)
  }

  /** The cluster carved out of `rows`. */
  function Cluster(rows: seq<Row>, accuracy: real): seq<Row>
  {
    Select(rows, Keep(rows, accuracy))
  }

  /** The rows left after the cluster is dropped. */
  function Remaining(rows: seq<Row>, accuracy: real): seq<Row>
  {
    Select(rows, Negate(Keep(rows, accuracy)))
  }

  lemma RemainingShrinks(rows: seq<Row>, accuracy: real)
    requires |rows| > 0 && accuracy <= 1.0
    ensures |Remaining(rows, accuracy)| < |rows|
    ensures NonEmptyRows(rows) ==> NonEmptyRows(Remaining(rows, accuracy))
  {
    GroupsStep(rows, accuracy);
    ClusterEmpty(rows, accuracy);
  }

  lemma ClusterEmpty(rows: seq<Row>, accuracy: real)
    requires |rows| > 0
    ensures |Cluster(rows, accuracy)| == 0 <==> accuracy > 1.0
    ensures NonEmptyRows(rows) ==> NonEmptyRows(Cluster(rows, accuracy)) && NonEmptyRows(Remaining(rows, accuracy))
  {
    GroupsStep(rows, accuracy);
    if NonEmptyRows(rows) {
      SelectNonEmpty(rows, Keep(rows, accuracy));
      SelectNonEmpty(rows, Negate(Keep(rows, accuracy)));
    }
  }

  /** One round of `reclustering` on a non-empty table: the cluster is
      empty exactly when `accuracy` exceeds 1; otherwise the table shrinks
      and the cluster heads the list of clusters. */
  lemma GroupsStep(rows: seq<Row>, accuracy: real)
    requires |rows| > 0
    ensures |Cluster(rows, accuracy)| == 0 <==> accuracy > 1.0
    ensures accuracy <= 1.0 ==> |Remaining(rows, accuracy)| < |rows|
    ensures accuracy <= 1.0 ==> Groups(rows, accuracy) == [Cluster(rows, accuracy)] + Groups(Remaining(rows, accuracy), accuracy)
  {
    var keep := Keep(rows, accuracy);
    PivotSelected(rows, accuracy);
    SelectSplit(rows, keep);
    if accuracy > 1.0 {
      SelectNone(rows, keep);
    } else {
      var k :| 0 <= k < |rows| && keep[k];
      SelectMember(rows, keep, rows[k]);
    }
  }

  /** The indices of the clusters, concatenated in cluster order. */
  function GroupIndices(gs: seq<seq<Row>>): seq<nat>
  {
    if |gs| == 0 then [] else AllIndices(gs[0]) + GroupIndices(gs[1..])
  }

  lemma {:induction false} AllIndicesAppend(a: seq<Row>, b: seq<Row>)
    ensures AllIndices(a + b) == AllIndices(a) + AllIndices(b)
  {
    if |a| > 0 {
      assert (a + b)[1..] == a[1..] + b;
      AllIndicesAppend(a[1..], b);
      assert AllIndices(a + b) == a[0].indices + AllIndices(a[1..] + b);
    } else {
      assert a + b == b;
    }
  }

  /** Splitting the rows splits their indices. */
  lemma {:induction false} SelectIndices(rows: seq<Row>, keep: seq<bool>, neg: seq<bool>)
    requires |keep| == |rows| == |neg| && forall i :: 0 <= i < |rows| ==> neg[i] == !keep[i]
    ensures multiset(AllIndices(Select(rows, keep))) + multiset(AllIndices(Select(rows, neg))) == multiset(AllIndices(rows))
  {
    if |rows| > 0 {
      SelectIndices(rows[1..], keep[1..], neg[1..]);
      var head := [rows[0]];
      AllIndicesAppend(if keep[0] then head else [], Select(rows[1..], keep[1..]));
      AllIndicesAppend(if neg[0] then head else [], Select(rows[1..], neg[1..]));
      assert AllIndices(head) == rows[0].indices;
    }
  }

  /** When `accuracy` is at most 1 the clusters cover every index of the
      table exactly as often as the table holds it: the clusters partition
      the rows' indices. */
  lemma {:induction false} GroupsCover(rows: seq<Row>, accuracy: real)
    requires accuracy <= 1.0
    ensures multiset(GroupIndices(Groups(rows, accuracy))) == multiset(AllIndices(rows))
    decreases |rows|
  {
    if |rows| > 0 {
      var keep := Keep(rows, accuracy);
      PivotSelected(rows, accuracy);
      var k :| 0 <= k < |rows| && keep[k];
      SelectMember(rows, keep, rows[k]);
      SelectSplit(rows, keep);
      var rest := Select(rows, Negate(keep));
      GroupsCover(rest, accuracy);
      SelectIndices(rows, keep, Negate(keep));
      var gs := Groups(rows, accuracy);
      assert gs == [Select(rows, keep)] + Groups(rest, accuracy);
      assert gs[1..] == Groups(rest, accuracy);
    }
  }

  /** Every row has a non-empty sequence and a non-empty tokenized
      pattern. */
  ghost predicate NonEmptyRows(rows: seq<Row>)
  {
    forall k :: 0 <= k < |rows| ==> |rows[k].sequence| > 0 && |rows[k].tokenizedPattern| > 0
  }

  /** Selecting rows keeps them non-empty: so do the cluster and the rest. */
  lemma SelectNonEmpty(rows: seq<Row>, keep: seq<bool>)
    requires |keep| == |rows| && NonEmptyRows(rows)
    ensures NonEmptyRows(Select(rows, keep))
  {
    var sel := Select(rows, keep);
    forall k | 0 <= k < |sel|
      ensures |sel[k].sequence| > 0 && |sel[k].tokenizedPattern| > 0
    {
      SelectMember(rows, keep, sel[k]);
    }
  }

  /** Every pattern is placeholder-free. */
  ghost predicate AllFree(ps: seq<Pattern>)
  {
    forall k :: 0 <= k < |ps| ==> SequenceMatching.PlaceholderFree(ps[k])
  }

  /** What `sequence_matcher` promises of the pattern `o` it finds for
      `ps`: one distinct sequence is its own pattern; without placeholders
      a pattern is a subsequence of one of the sequences; with placeholders,
      over placeholder-free sequences, it is well formed and its literal
      tokens are a subsequence of one of the sequences. */
  ghost predicate PatternOf(o: Option<Pattern>, ps: seq<Pattern>, addPlaceholder: bool)
  {
    && (|Distinct(ps)| == 1 ==> o == Some(ps[0]))
    && (o.Some? && !addPlaceholder ==> exists k :: 0 <= k < |ps| && IsSubseq(o.value, ps[k]))
    && (o.Some? && addPlaceholder && AllFree(ps) ==>
          && SequenceMatching.WellFormed(o.value)
          && exists k :: 0 <= k < |ps| && IsSubseq(SequenceMatching.Strip(o.value), ps[k]))
  }

  /** The record of cluster `g`: its patterns, its indices and their number
      as its size. */
  ghost predicate Describes(rec: Record, g: seq<Row>, addPlaceholder: bool)
  {
    && rec.indices == AllIndices(g) && rec.clusterSize == |rec.indices|
    && PatternOf(rec.tokenizedPattern, TokenizedPatterns(g), addPlaceholder)
    && PatternOf(rec.sequence, Sequences(g), false)
  }

  /** `items` is `prefix` followed by one record per cluster of `gs`. */
  ghost predicate Recorded(items: seq<Record>, prefix: seq<Record>, gs: seq<seq<Row>>, addPlaceholder: bool)
  {
    && |items| == |prefix| + |gs|
    && items[..|prefix|] == prefix
    && forall k :: 0 <= k < |gs| ==> Describes(items[|prefix| + k], gs[k], addPlaceholder)
  }

  lemma RecordedCons(items: seq<Record>, prefix: seq<Record>, rec: Record, g: seq<Row>, gs: seq<seq<Row>>,
                     addPlaceholder: bool)
    requires Describes(rec, g, addPlaceholder)
    requires Recorded(items, prefix + [rec], gs, addPlaceholder)
    ensures Recorded(items, prefix, [g] + gs, addPlaceholder)
  {
    var n := |prefix|;
    assert items[..n + 1][..n] == items[..n];
    assert items[n] == items[..n + 1][n];
    forall k | 0 <= k < |gs| + 1
      ensures Describes(items[n + k], ([g] + gs)[k], addPlaceholder)
    {
      if k > 0 {
        assert ([g] + gs)[k] == gs[k - 1];
      }
    }
  }

  /** Recording a round's cluster in front of the records of the
      remaining rows records all the clusters of the table. */
  lemma RecordedRound(items: seq<Record>, before: seq<Record>, rec: Record, rows: seq<Row>, accuracy: real,
                      addPlaceholder: bool)
    requires |rows| > 0 && accuracy <= 1.0
    requires Describes(rec, Cluster(rows, accuracy), addPlaceholder)
    requires Recorded(items, before + [rec], Groups(Remaining(rows, accuracy), accuracy), addPlaceholder)
    ensures Recorded(items, before, Groups(rows, accuracy), addPlaceholder)
  {
    GroupsStep(rows, accuracy);
    RecordedCons(items, before, rec, Cluster(rows, accuracy), Groups(Remaining(rows, accuracy), accuracy),
                 addPlaceholder);
  }

  /** The indices of the records, concatenated in record order. */
  function RecordIndices(rs: seq<Record>): seq<nat>
  {
    if |rs| == 0 then [] else rs[0].indices + RecordIndices(rs[1..])
  }

  /** Recorded clusters carry the clusters' indices. */
  lemma {:induction false} RecordedIndices(items: seq<Record>, gs: seq<seq<Row>>, addPlaceholder: bool)
    requires Recorded(items, [], gs, addPlaceholder)
    ensures RecordIndices(items) == GroupIndices(gs)
    decreases |gs|
  {
    if |gs| > 0 {
      assert Describes(items[0], gs[0], addPlaceholder);
      forall k | 0 <= k < |gs| - 1
        ensures Describes(items[1..][k], gs[1..][k], addPlaceholder)
      {
        assert items[1..][k] == items[k + 1];
      }
      RecordedIndices(items[1..], gs[1..], addPlaceholder);
    }
  }

  /** Records sorted by decreasing `cluster_size`. */
  ghost predicate SortedBySize(rs: seq<Record>)
  {
    forall i, j :: 0 <= i < j < |rs| ==> rs[i].clusterSize >= rs[j].clusterSize
  }

  /** `r` put in front of the first record that is not larger. */
  function Insert(r: Record, rs: seq<Record>): seq<Record>
  {
    if |rs| == 0 || r.clusterSize >= rs[0].clusterSize then [r] + rs
    else [rs[0]] + Insert(r, rs[1..])
  }

  /** `sort_values(by=['cluster_size'], ascending=False)`. */
  function SortBySize(rs: seq<Record>): seq<Record>
  {
    if |rs| == 0 then [] else Insert(rs[0], SortBySize(rs[1..]))
  }

  /** No record is larger than `b`. */
  ghost predicate AtMost(rs: seq<Record>, b: nat)
  {
    forall j :: 0 <= j < |rs| ==> rs[j].clusterSize <= b
  }

  lemma {:induction false} InsertPermutes(r: Record, rs: seq<Record>)
    ensures multiset(Insert(r, rs)) == multiset{r} + multiset(rs)
  {
    if |rs| > 0 && r.clusterSize < rs[0].clusterSize {
      var tail := Insert(r, rs[1..]);
      calc {
        multiset(Insert(r, rs));
        multiset([rs[0]] + tail);
        multiset{rs[0]} + multiset(tail);
        { InsertPermutes(r, rs[1..]); }
        multiset{rs[0]} + (multiset{r} + multiset(rs[1..]));
        { assert rs == [rs[0]] + rs[1..]; }
        multiset{r} + multiset(rs);
      }
    }
  }

  lemma {:induction false} InsertIndices(r: Record, rs: seq<Record>)
    ensures multiset(RecordIndices(Insert(r, rs))) == multiset(r.indices) + multiset(RecordIndices(rs))
  {
    if |rs| > 0 && r.clusterSize < rs[0].clusterSize {
      InsertIndices(r, rs[1..]);
      var ins := Insert(r, rs);
      assert ins[0] == rs[0] && ins[1..] == Insert(r, rs[1..]);
    } else {
      var ins := [r] + rs;
      assert ins[0] == r && ins[1..] == rs;
    }
  }

  lemma {:induction false} InsertAtMost(r: Record, rs: seq<Record>, b: nat)
    requires r.clusterSize <= b && AtMost(rs, b)
    ensures AtMost(Insert(r, rs), b)
  {
    if |rs| > 0 && r.clusterSize < rs[0].clusterSize {
      InsertAtMost(r, rs[1..], b);
      var ins := Insert(r, rs);
      assert ins[1..] == Insert(r, rs[1..]);
      forall j | 0 < j < |ins|
        ensures ins[j].clusterSize <= b
      {
        assert ins[j] == ins[1..][j - 1];
      }
    }
  }

  /** A record no smaller than every record of a sorted list can head it. */
  lemma ConsSorted(r: Record, rs: seq<Record>)
    requires SortedBySize(rs) && AtMost(rs, r.clusterSize)
    ensures SortedBySize([r] + rs)
  {
    var xs := [r] + rs;
    forall i, j | 0 <= i < j < |xs|
      ensures xs[i].clusterSize >= xs[j].clusterSize
    {
      assert xs[j] == rs[j - 1];
      if i > 0 {
        assert xs[i] == rs[i - 1];
      }
    }
  }

  lemma SortedTail(rs: seq<Record>)
    requires |rs| > 0 && SortedBySize(rs)
    ensures SortedBySize(rs[1..]) && AtMost(rs[1..], rs[0].clusterSize) && AtMost(rs, rs[0].clusterSize)
  {
    forall j | 0 <= j < |rs| - 1
      ensures rs[1..][j].clusterSize <= rs[0].clusterSize
    {
      assert rs[1..][j] == rs[j + 1];
    }
  }

  lemma {:induction false} InsertSorted(r: Record, rs: seq<Record>)
    requires SortedBySize(rs)
    ensures SortedBySize(Insert(r, rs))
  {
    if |rs| == 0 {
      ConsSorted(r, rs);
    } else {
      SortedTail(rs);
      if r.clusterSize < rs[0].clusterSize {
        InsertSorted(r, rs[1..]);
        InsertAtMost(r, rs[1..], rs[0].clusterSize);
        ConsSorted(rs[0], Insert(r, rs[1..]));
      } else {
        ConsSorted(r, rs);
      }
    }
  }

  /** The sort keeps the records (a permutation), and so their indices, and
      orders them by decreasing size. */
  lemma {:induction false} SortBySizeCorrect(rs: seq<Record>)
    ensures SortedBySize(SortBySize(rs))
    ensures multiset(SortBySize(rs)) == multiset(rs)
    ensures multiset(RecordIndices(SortBySize(rs))) == multiset(RecordIndices(rs))
  {
    if |rs| > 0 {
      SortBySizeCorrect(rs[1..]);
      InsertSorted(rs[0], SortBySize(rs[1..]));
      InsertPermutes(rs[0], SortBySize(rs[1..]));
      InsertIndices(rs[0], SortBySize(rs[1..]));
      assert rs == [rs[0]] + rs[1..];
    }
  }

  /** The working table, whose rows `reclustering` drops in place. */
  class Frame {
    var rows: seq<Row>

    constructor (rows: seq<Row>)
      ensures this.rows == rows
    {
      this.rows := rows;
    }

    /** `df.drop(filtered.index, inplace=True)`: the flagged rows go. */
    method Drop(keep: seq<bool>)
      requires |keep| == |rows|
      modifies this
      ensures rows == Select(old(rows), Negate(keep))
    {
      rows := Select(rows, Negate(keep));
    }
  }

  /** The `result` list that `reclustering` appends to. */
  class RecordList {
    var items: seq<Record>

    constructor ()
      ensures items == []
    {
      items := [];
    }

    method Append(r: Record)
      modifies this
      ensures items == old(items) + [r]
    {
      items := items + [r];
    }
  }

  class SClustering {
    const groups: seq<Row>
    const accuracy: real
    const addPlaceholder: bool
    var result: seq<Record>

    constructor (groups: seq<Row>, accuracy: real, addPlaceholder: bool)
      ensures this.groups == groups && this.accuracy == accuracy && this.addPlaceholder == addPlaceholder
      ensures result == []
    {
      this.groups := groups;
      this.accuracy := accuracy;
      this.addPlaceholder := addPlaceholder;
      result := [];
    }

    /** `process`: the groups are clustered on a copy of the table, the
        records are kept in `result`, and returned sorted by decreasing
        cluster size. Together they cover the indices of the groups. On
        rows with non-empty sequences it succeeds whenever the table is not
        empty and `accuracy` is at most 1. */
    method Process(rng: Rng.Random) returns (r: Result<seq<Record>>)
      modifies this, rng
      ensures (|groups| == 0 || accuracy > 1.0) ==> r == Err(IndexError)
      ensures |groups| > 0 && accuracy <= 1.0 && NonEmptyRows(groups) ==> r.Ok?
      ensures r.Err? ==> result == old(result)
      ensures r.Ok? ==> Recorded(result, [], Groups(groups, accuracy), addPlaceholder)
      ensures r.Ok? ==> SortedBySize(r.value) && multiset(r.value) == multiset(result)
      ensures r.Ok? ==> multiset(RecordIndices(r.value)) == multiset(AllIndices(groups))
    {
      var df := new Frame(groups);
      var res := new RecordList();
      var x := Reclustering(df, res, rng);
      if x.Err? {
        return Err(x.error);
      }
      result := res.items;
      var sorted := SortBySize(result);
      SortBySizeCorrect(result);
      RecordedIndices(result, Groups(groups, accuracy), addPlaceholder);
      GroupsCover(groups, accuracy);
      r := Ok(sorted);
    }

    /** `reclustering`: one cluster is carved out around the pivot and
        recorded, its rows are dropped, and the call repeats while rows
        remain. An empty cluster makes `sequence_matcher` raise
        `IndexError`: this happens on an empty table (whose pivot is `NaN`)
        and whenever `accuracy` exceeds 1. */
    method Reclustering(df: Frame, result: RecordList, rng: Rng.Random) returns (r: Result<()>)
      modifies df, result, rng
      ensures (|old(df.rows)| == 0 || accuracy > 1.0) ==> r == Err(IndexError)
      ensures |old(df.rows)| > 0 && accuracy <= 1.0 && NonEmptyRows(old(df.rows)) ==> r.Ok?
      ensures r.Ok? ==> df.rows == [] && accuracy <= 1.0
      ensures r.Ok? ==> Recorded(result.items, old(result.items), Groups(old(df.rows), accuracy), addPlaceholder)
      decreases |df.rows|, 0
    {
      ghost var rows := df.rows;
      ghost var before := result.items;
      var record;
      r, record := Round(df, result, rng);
      if r.Err? {
        return;
      }
      RemainingShrinks(rows, accuracy);
      r := Repeat(df, result, rng);
      if r.Err? {
        return;
      }
      RecordedRound(result.items, before, record, rows, accuracy, addPlaceholder);
    }

    /** The loop that ends `reclustering`: while rows remain, the table is
        clustered again. */
    method Repeat(df: Frame, result: RecordList, rng: Rng.Random) returns (r: Result<()>)
      modifies df, result, rng
      ensures accuracy <= 1.0 && NonEmptyRows(old(df.rows)) ==> r.Ok?
      ensures r.Ok? ==> df.rows == []
      ensures r.Ok? ==> Recorded(result.items, old(result.items), Groups(old(df.rows), accuracy), addPlaceholder)
      decreases |df.rows|, 1
    {
      ghost var rest := df.rows;
      ghost var before := result.items;
      while |df.rows| > 0
        invariant |df.rows| > 0 ==> df.rows == rest && result.items == before
        invariant |df.rows| == 0 ==> Recorded(result.items, before, Groups(rest, accuracy), addPlaceholder)
        decreases |df.rows|
      {
        var again := Reclustering(df, result, rng);
        if again.Err? {
          return again;
        }
      }
      r := Ok(());
    }

    /** One round of `reclustering`, up to the drop: the rows that reach
        `accuracy` against the pivot form the cluster, the patterns of the
        cluster are searched, its record is appended and its rows leave
        the table. */
    method Round(df: Frame, result: RecordList, rng: Rng.Random) returns (r: Result<()>, record: Record)
      modifies df, result, rng
      ensures (|old(df.rows)| == 0 || accuracy > 1.0) ==> r == Err(IndexError)
      ensures |old(df.rows)| > 0 && accuracy <= 1.0 && NonEmptyRows(old(df.rows)) ==> r.Ok?
      ensures r.Ok? ==>
        && accuracy <= 1.0 && |old(df.rows)| > 0
        && df.rows == Remaining(old(df.rows), accuracy)
        && Describes(record, Cluster(old(df.rows), accuracy), addPlaceholder)
        && result.items == old(result.items) + [record]
    {
      record := Record(None, [], 0, None);
      if |df.rows| == 0 {
        return Err(IndexError), record;
      }
      var keep := Keep(df.rows, accuracy);
      ClusterEmpty(df.rows, accuracy);
      var described := ClusterRecord(Select(df.rows, keep), addPlaceholder, rng);
      if described.Err? {
        return Err(described.error), record;
      }
      record := described.value;
      result.Append(record);
      df.Drop(keep);
      r := Ok(());
    }
  }

  /** The record of a cluster: the patterns over its tokenized patterns
      (with the placeholder setting of the table) and over its raw
      sequences, and its indices. */
  method ClusterRecord(filtered: seq<Row>, addPlaceholder: bool, rng: Rng.Random) returns (r: Result<Record>)
    modifies rng
    ensures |filtered| == 0 ==> r == Err(IndexError)
    ensures |filtered| > 0 && NonEmptyRows(filtered) ==> r.Ok?
    ensures r.Ok? ==> Describes(r.value, filtered, addPlaceholder)
  {
    var tokenized := ClusterPattern(TokenizedPatterns(filtered), addPlaceholder, rng);
    if tokenized.Err? {
      return Err(tokenized.error);
    }
    var sequence := ClusterPattern(Sequences(filtered), false, rng);
    if sequence.Err? {
      return Err(sequence.error);
    }
    var indices := AllIndices(filtered);
    r := Ok(Record(tokenized.value, indices, |indices|, sequence.value));
  }

  /** The pattern `sequence_matcher` finds for the sequences of a cluster,
      with `match_threshhold` 0.5 and 3 attempts; an empty cluster raises
      `IndexError`. */
  method ClusterPattern(ps: seq<Pattern>, addPlaceholder: bool, rng: Rng.Random) returns (r: Result<Option<Pattern>>)
    modifies rng
    ensures |ps| == 0 ==> r == Err(IndexError)
    ensures |ps| > 0 && (forall k :: 0 <= k < |ps| ==> |ps[k]| > 0) ==> r.Ok?
    ensures r.Ok? ==> PatternOf(r.value, ps, addPlaceholder)
  {
    var m := new SequenceMatching.Match(ps, 0.5, 3);
    ghost var u := Distinct(ps);
    ghost var i := if |u| >= 2 then rng.source(rng.drawn) % |u| else 0;
    ghost var calls;
    r, calls := m.SequenceMatcher(addPlaceholder, rng);
    if r.Ok? {
      MatchedPattern(ps, u, i, addPlaceholder, r.value);
    }
  }

  /** The facts behind `PatternOf`: the result of `sequence_matcher` is the
      only distinct sequence, or the fold of the distinct sequences from
      the `i`-th of them. */
  lemma MatchedPattern(ps: seq<Pattern>, u: seq<Pattern>, i: nat, addPlaceholder: bool, o: Option<Pattern>)
    requires u == Distinct(ps)
    requires |u| == 1 ==> o == Some(u[0])
    requires |u| >= 2 ==> i < |u| && (o.Some? ==>
               var f := SequenceMatching.Fold(u[i], u, 0.5, addPlaceholder); f.Ok? && o.value == f.value)
    requires |u| > 0
    ensures PatternOf(o, ps, addPlaceholder)
  {
    if |u| == 1 {
      DistinctHead(ps);
    }
    if o.Some? {
      var p := o.value;
      var seed := if |u| >= 2 then u[i] else u[0];
      assert seed in ps;
      var k :| 0 <= k < |ps| && ps[k] == seed;
      if !addPlaceholder {
        if |u| >= 2 {
          SequenceMatching.FoldSubseq(seed, u, 0.5);
        } else {
          SubseqRefl(p);
        }
      } else if AllFree(ps) {
        forall j | 0 <= j < |u|
          ensures SequenceMatching.PlaceholderFree(u[j])
        {
          assert u[j] in ps;
        }
        SequenceMatching.FreeWellFormed(seed);
        SequenceMatching.StripFree(seed);
        if |u| >= 2 {
          SequenceMatching.FoldWellFormed(seed, u, 0.5);
          SequenceMatching.FoldLiterals(seed, u, 0.5);
        } else {
          SubseqRefl(p);
        }
      }
    }
  }
}
