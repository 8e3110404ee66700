/** `clusterlogs/tfidf.py`, the counting half of `TermsAnalysis`: frequency
    tables, term frequencies, document frequencies, the tf-idf tables and
    the mask that replaces the heaviest terms of a document. The logarithm
    of the idf and the `max - std` threshold are floating-point and are
    parameters of the model. */
module TfIdf {
  import opened Common
  import opened Seqs

  /** A Python dict: its keys in insertion order and the value of each. */
  datatype Dict<V> = Dict(keys: seq<Token>, vals: map<Token, V>)

  /** The keys are distinct and are exactly the keys of the map. */
  ghost predicate ValidDict<V>(d: Dict<V>)
  {
    && NoDuplicates(d.keys)
    && (forall k :: k in d.keys ==> k in d.vals)
    && (forall k :: k in d.vals ==> k in d.keys)
  }

  /** The token that `remove_unnecessary` puts in place of a heavy term. */
  const Mask: Token := "｟*｠"

  /** The sum of the values stored under `keys`. */
  function SumOver(keys: seq<Token>, vals: map<Token, nat>): nat
  {
    if |keys| == 0 then 0
    else
      var last := keys[|keys| - 1];
      SumOver(keys[..|keys| - 1], vals) + (if last in vals then vals[last] else 0)
  }

  lemma NoDuplicatesInit(keys: seq<Token>)
    requires |keys| > 0 && NoDuplicates(keys)
    ensures NoDuplicates(keys[..|keys| - 1]) && keys[|keys| - 1] !in keys[..|keys| - 1]
  {
  }

  /** Changing the value under one key changes the sum by the difference. */
  lemma {:induction false} SumOverUpdate(keys: seq<Token>, vals: map<Token, nat>, k: Token, v: nat)
    requires NoDuplicates(keys) && forall j :: j in keys ==> j in vals
    ensures SumOver(keys, vals[k := v]) == SumOver(keys, vals) + (if k in keys then v - vals[k] else 0)
    decreases |keys|
  {
    if |keys| > 0 {
      var init := keys[..|keys| - 1];
      NoDuplicatesInit(keys);
      SumOverUpdate(init, vals, k, v);
      assert keys == init + [keys[|keys| - 1]];
    }
  }

  /** A frequency table of `tokens`: its keys are the distinct tokens in
      order of first occurrence, and each value is the token's number of
      occurrences. */
  ghost predicate IsFrequencyTable(d: Dict<nat>, tokens: seq<Token>)
  {
    && ValidDict(d)
    && d.keys == Distinct(tokens)
    && forall k :: k in d.vals ==> d.vals[k] == Count(tokens, k)
  }

  /** The number of tables that hold `w`. */
  function DocCount<V>(tables: seq<Dict<V>>, w: Token): (n: nat)
    ensures n <= |tables|
  {
    if |tables| == 0 then 0
    else DocCount(tables[..|tables| - 1], w) + (if w in tables[|tables| - 1].vals then 1 else 0)
  }

  /** A word is counted by some table exactly when some table holds it. */
  lemma {:induction false} DocCountPositive<V>(tables: seq<Dict<V>>, w: Token)
    ensures DocCount(tables, w) > 0 <==> exists i :: 0 <= i < |tables| && w in tables[i].vals
  {
    if |tables| > 0 {
      var init := tables[..|tables| - 1];
      DocCountPositive(init, w);
      if exists i :: 0 <= i < |tables| && w in tables[i].vals {
        var i :| 0 <= i < |tables| && w in tables[i].vals;
        if i < |tables| - 1 {
          assert init[i] == tables[i];
        }
      }
      if exists i :: 0 <= i < |init| && w in init[i].vals {
        var i :| 0 <= i < |init| && w in init[i].vals;
        assert tables[i] == init[i];
      }
    }
  }

  /** The table of document frequencies of a list of tables: every word of
      some table, with the number of tables holding it. */
  ghost predicate IsDocumentsPerWords<V>(dpw: Dict<nat>, tables: seq<Dict<V>>)
  {
    && ValidDict(dpw)
    && (forall w :: w in dpw.vals <==> DocCount(tables, w) > 0)
    && (forall w :: w in dpw.vals ==> dpw.vals[w] == DocCount(tables, w))
  }

  /** Every document frequency lies between one and the number of
      documents. */
  lemma DocumentFrequencyBounds<V>(dpw: Dict<nat>, tables: seq<Dict<V>>, w: Token)
    requires IsDocumentsPerWords(dpw, tables)
    ensures w in dpw.vals <==> exists i :: 0 <= i < |tables| && w in tables[i].vals
    ensures w in dpw.vals ==> 1 <= dpw.vals[w] <= |tables|
  {
    DocCountPositive(tables, w);
  }

  /** Every word of every table has a non-zero entry in `dpw`: computing the
      idf raises neither `KeyError` nor `ZeroDivisionError`. */
  ghost predicate AllKnown<V>(tables: seq<Dict<V>>, dpw: Dict<nat>)
  {
    forall i :: 0 <= i < |tables| ==> Known(tables[i], dpw)
  }

  /** The document frequencies of the tables themselves know all their
      words. */
  lemma DocumentsPerWordsKnown<V>(tables: seq<Dict<V>>, dpw: Dict<nat>)
    requires forall i :: 0 <= i < |tables| ==> ValidDict(tables[i])
    requires IsDocumentsPerWords(dpw, tables)
    ensures AllKnown(tables, dpw)
  {
    forall i, k | 0 <= i < |tables| && k in tables[i].keys
      ensures k in dpw.vals && dpw.vals[k] != 0
    {
      DocumentFrequencyBounds(dpw, tables, k);
    }
    assert forall i :: 0 <= i < |tables| ==> Known(tables[i], dpw);
  }

  /** The products of the values of `tf` and `idf` paired by position, as
      far as the shorter table goes. */
  function Weights(tf: Dict<real>, idf: Dict<real>): (ws: seq<real>)
    requires ValidDict(tf) && ValidDict(idf)
    ensures |ws| == Min(|tf.keys|, |idf.keys|)
  {
    seq(Min(|tf.keys|, |idf.keys|), j requires 0 <= j < Min(|tf.keys|, |idf.keys|) =>
      tf.vals[tf.keys[j]] * idf.vals[idf.keys[j]])
  }

  /** What `create_tf_idf_matrix` builds from a tf table and an idf table:
      the i-th key of the tf table gets its value times the value of the
      i-th key of the idf table, as far as the shorter table goes. */
  ghost predicate IsTfIdfTable(t: Dict<real>, tf: Dict<real>, idf: Dict<real>)
  {
    && ValidDict(tf) && ValidDict(idf)
    && Paired(t, tf.keys, Weights(tf, idf), Min(|tf.keys|, |idf.keys|))
  }

  /** `t` holds the first `m` of `keys`, in order, the j-th with value
      `ws[j]`. */
  ghost predicate Paired(t: Dict<real>, keys: seq<Token>, ws: seq<real>, m: nat)
  {
    && ValidDict(t) && NoDuplicates(keys)
    && m <= |keys| && m <= |ws| && t.keys == keys[..m]
    && forall j :: 0 <= j < m ==> keys[j] in t.vals && t.vals[keys[j]] == ws[j]
  }

  /** Storing the next value extends the pairing by one entry. */
  lemma PairedStep(t: Dict<real>, keys: seq<Token>, ws: seq<real>, m: nat)
    requires Paired(t, keys, ws, m) && m < |keys| && m < |ws|
    ensures Paired(Set(t, keys[m], ws[m]), keys, ws, m + 1)
  {
    var w := keys[m];
    TakeSnoc(keys, m);
    assert w !in t.keys;
    SetValid(t, w, ws[m]);
    var t' := Set(t, w, ws[m]);
    assert t'.keys == t.keys + [w];
    forall j | 0 <= j < m + 1
      ensures keys[j] in t'.vals && t'.vals[keys[j]] == ws[j]
    {
      if j < m {
        assert keys[j] != w;
      }
    }
  }

  /** When both tables have the same keys in the same order, the pairing by
      position is the pairing by key. */
  lemma TfIdfByKey(t: Dict<real>, tf: Dict<real>, idf: Dict<real>)
    requires IsTfIdfTable(t, tf, idf) && idf.keys == tf.keys
    ensures t.keys == tf.keys
    ensures forall k :: k in t.vals ==> t.vals[k] == tf.vals[k] * idf.vals[k]
  {
    assert tf.keys[..|tf.keys|] == tf.keys;
    forall k | k in t.vals
      ensures t.vals[k] == tf.vals[k] * idf.vals[k]
    {
      TfIdfAt(t, tf, idf, k);
    }
  }

  lemma TfIdfAt(t: Dict<real>, tf: Dict<real>, idf: Dict<real>, k: Token)
    requires IsTfIdfTable(t, tf, idf) && idf.keys == tf.keys && k in t.vals
    ensures t.vals[k] == tf.vals[k] * idf.vals[k]
  {
    var j :| 0 <= j < |t.keys| && t.keys[j] == k;
    var w := Weights(tf, idf)[j];
    assert t.vals[k] == w;
    WeightByKey(tf, idf, j, k, w);
  }

  lemma WeightByKey(tf: Dict<real>, idf: Dict<real>, j: nat, k: Token, w: real)
    requires ValidDict(tf) && ValidDict(idf) && idf.keys == tf.keys && j < |tf.keys| && tf.keys[j] == k
    requires w == Weights(tf, idf)[j]
    ensures w == tf.vals[k] * idf.vals[k]
  {
  }

  /** The row `remove_unnecessary` makes of a table: each key in order, or
      the mask where its value reaches the threshold. */
  ghost predicate IsMaskedRow(x: seq<Token>, t: Dict<real>, threshold: real)
  {
    && |x| == |t.keys|
    && (forall j :: 0 <= j < |x| ==> t.keys[j] in t.vals)
    && forall j :: 0 <= j < |x| ==> x[j] == if t.vals[t.keys[j]] >= threshold then Mask else t.keys[j]
  }

  /** A row masked from a table keyed by a document's distinct tokens has one
      entry per distinct token, not one per occurrence, and keeps the
      document's order of first occurrence. */
  lemma MaskedRowOfDocument(x: seq<Token>, t: Dict<real>, threshold: real, doc: seq<Token>)
    requires IsMaskedRow(x, t, threshold) && t.keys == Distinct(doc)
    ensures |x| == |Distinct(doc)|
    ensures forall j :: 0 <= j < |x| ==> x[j] == Mask || (x[j] == Distinct(doc)[j] && x[j] in doc)
    ensures forall j :: 0 <= j < |x| ==>
      x[j] == if t.vals[t.keys[j]] >= threshold then Mask else Distinct(doc)[j]
  {
  }

  /** `d[k] = v`: a new key goes to the end, an existing one keeps its
      place. */
  function Set<V>(d: Dict<V>, k: Token, v: V): Dict<V>
  {
    Dict(if k in d.vals then d.keys else d.keys + [k], d.vals[k := v])
  }

  /** Assignment keeps a dict well formed. */
  lemma SetValid<V>(d: Dict<V>, k: Token, v: V)
    requires ValidDict(d)
    ensures ValidDict(Set(d, k, v))
    ensures k in Set(d, k, v).keys
  {
    var keys := Set(d, k, v).keys;
    if k !in d.vals {
      assert forall j :: 0 <= j < |d.keys| ==> keys[j] == d.keys[j];
      assert keys[|d.keys|] == k;
    }
  }

  /** Counting one more token keeps a frequency table and its total. */
  lemma FrequencyStep(d: Dict<nat>, tokens: seq<Token>, t: Token)
    requires IsFrequencyTable(d, tokens) && SumOver(d.keys, d.vals) == |tokens|
    ensures var d' := Set(d, t, if t in d.vals then d.vals[t] + 1 else 1);
      IsFrequencyTable(d', tokens + [t]) && SumOver(d'.keys, d'.vals) == |tokens| + 1
  {
    var v := if t in d.vals then d.vals[t] + 1 else 1;
    SetValid(d, t, v);
    FrequencyKeys(d, tokens, t, v);
    FrequencyCounts(d, tokens, t);
    FrequencySum(d, t, v);
  }

  /** One more occurrence of `t` counted: `freq_table[t] += 1`, or a new
      entry 1. */
  function Tally(d: Dict<nat>, t: Token): Dict<nat>
  {
    Set(d, t, if t in d.vals then d.vals[t] + 1 else 1)
  }

  /** `d` is the frequency table of `tokens`, and its counts add up to the
      number of tokens. */
  ghost predicate Counted(d: Dict<nat>, tokens: seq<Token>)
  {
    IsFrequencyTable(d, tokens) && SumOver(d.keys, d.vals) == |tokens|
  }

  /** The first `j` tokens are counted. */
  ghost predicate Tallied(d: Dict<nat>, tokens: seq<Token>, j: nat)
  {
    j <= |tokens| && Counted(d, tokens[..j])
  }

  lemma TallyStep(d: Dict<nat>, tokens: seq<Token>, j: nat)
    requires Tallied(d, tokens, j) && j < |tokens|
    ensures Tallied(Tally(d, tokens[j]), tokens, j + 1)
  {
    FrequencyStep(d, tokens[..j], tokens[j]);
    TakeSnoc(tokens, j);
  }

  lemma FrequencyKeys(d: Dict<nat>, tokens: seq<Token>, t: Token, v: nat)
    requires ValidDict(d) && d.keys == Distinct(tokens)
    ensures Set(d, t, v).keys == Distinct(tokens + [t])
  {
    DistinctSnoc(tokens, t);
    assert t in d.vals <==> t in tokens;
  }

  lemma FrequencyCounts(d: Dict<nat>, tokens: seq<Token>, t: Token)
    requires ValidDict(d) && d.keys == Distinct(tokens)
    requires forall k :: k in d.vals ==> d.vals[k] == Count(tokens, k)
    ensures var vals := d.vals[t := if t in d.vals then d.vals[t] + 1 else 1];
      forall k :: k in vals ==> vals[k] == Count(tokens + [t], k)
  {
    assert multiset(tokens + [t]) == multiset(tokens) + multiset{t};
    assert t in d.vals <==> t in tokens;
  }

  lemma FrequencySum(d: Dict<nat>, t: Token, v: nat)
    requires ValidDict(d)
    requires t in d.vals ==> v == d.vals[t] + 1
    requires t !in d.vals ==> v == 1
    ensures SumOver(Set(d, t, v).keys, Set(d, t, v).vals) == SumOver(d.keys, d.vals) + 1
  {
    SumOverUpdate(d.keys, d.vals, t, v);
    if t !in d.vals {
      var keys := d.keys + [t];
      assert keys[..|keys| - 1] == d.keys;
    }
  }

  /** `r` counts the tables of `before` and, once more, the first `m` of
      `keys`. */
  ghost predicate CountedUpTo(r: Dict<nat>, before: seq<Dict<nat>>, keys: seq<Token>, m: nat)
  {
    && ValidDict(r) && m <= |keys|
    && (forall w :: w in r.vals <==> DocCount(before, w) > 0 || w in keys[..m])
    && (forall w :: w in r.vals ==> r.vals[w] == DocCount(before, w) + (if w in keys[..m] then 1 else 0))
  }

  /** Counting the next key of a table. */
  lemma CountStep(r: Dict<nat>, before: seq<Dict<nat>>, keys: seq<Token>, m: nat)
    requires CountedUpTo(r, before, keys, m) && m < |keys| && NoDuplicates(keys)
    ensures CountedUpTo(Set(r, keys[m], if keys[m] in r.vals then r.vals[keys[m]] + 1 else 1), before, keys, m + 1)
  {
    var w := keys[m];
    TakeSnoc(keys, m);
    assert w !in keys[..m];
    SetValid(r, w, if w in r.vals then r.vals[w] + 1 else 1);
  }

  /** Once every key of `f` is counted, `r` counts `before + [f]`. */
  lemma CountedAll(r: Dict<nat>, before: seq<Dict<nat>>, f: Dict<nat>)
    requires ValidDict(f) && CountedUpTo(r, before, f.keys, |f.keys|)
    ensures IsDocumentsPerWords(r, before + [f])
  {
    var all := before + [f];
    assert all[..|before|] == before && all[|before|] == f;
    assert f.keys[..|f.keys|] == f.keys;
  }

  /** A tf table of a frequency table: the same keys, each count divided by
      the number of keys. */
  ghost predicate IsTfTable(t: Dict<real>, f: Dict<nat>)
  {
    && ValidDict(t) && t.keys == f.keys
    && forall k :: k in f.keys ==> k in f.vals && k in t.vals && t.vals[k] == f.vals[k] as real / |f.keys| as real
  }

  /** An idf table of a frequency table: the same keys, each with
      `log10(total / dpw[k])`. */
  ghost predicate IsIdfTable(t: Dict<real>, f: Dict<nat>, dpw: Dict<nat>, total: nat, log10: real -> real)
  {
    && ValidDict(t) && t.keys == f.keys
    && forall k :: k in f.keys ==>
         k in dpw.vals && dpw.vals[k] != 0 && k in t.vals && t.vals[k] == log10(total as real / dpw.vals[k] as real)
  }

  /** Every word of the table has a non-zero entry in `dpw`. */
  ghost predicate Known<V>(f: Dict<V>, dpw: Dict<nat>)
  {
    forall k :: k in f.keys ==> k in dpw.vals && dpw.vals[k] != 0
  }

  /** The values of a table in key order (`list(row.values())`). */
  function Values<V>(d: Dict<V>): (v: seq<V>)
    requires ValidDict(d)
    ensures |v| == |d.keys|
  {
    seq(|d.keys|, j requires 0 <= j < |d.keys| => d.vals[d.keys[j]])
  }

  /** The number of documents that hold `w`. */
  function DocFreq(docs: seq<seq<Token>>, w: Token): (n: nat)
    ensures n <= |docs|
  {
    if |docs| == 0 then 0
    else DocFreq(docs[..|docs| - 1], w) + (if w in docs[|docs| - 1] then 1 else 0)
  }

  /** A word of a document is held by at least one document. */
  lemma {:induction false} DocFreqPositive(docs: seq<seq<Token>>, i: nat, w: Token)
    requires i < |docs| && w in docs[i]
    ensures DocFreq(docs, w) > 0
  {
    var n := |docs| - 1;
    if i < n {
      assert docs[..n][i] == docs[i];
      DocFreqPositive(docs[..n], i, w);
    }
  }

  /** The term frequency of `w` in a document: its number of occurrences
      over the number of distinct words of the document. */
  function TermFrequency(doc: seq<Token>, w: Token): real
    requires w in doc
  {
    assert w in Distinct(doc);
    Count(doc, w) as real / |Distinct(doc)| as real
  }

  /** The inverse document frequency of `w`: `log10` of the number of
      documents over the number of documents holding `w`. */
  function InverseFrequency(docs: seq<seq<Token>>, w: Token, log10: real -> real): real
    requires DocFreq(docs, w) > 0
  {
    log10(|docs| as real / DocFreq(docs, w) as real)
  }

  /** The tf table of a document, computed from the document alone: its
      distinct words in order of first occurrence, each with its term
      frequency. */
  function TfOf(doc: seq<Token>): Dict<real>
  {
    var d := Distinct(doc);
    Dict(d, map k | k in d :: TermFrequency(doc, k))
  }

  /** The idf table of document `i`, computed from the documents alone: its
      distinct words, each with its inverse document frequency. */
  function IdfOf(docs: seq<seq<Token>>, i: nat, log10: real -> real): Dict<real>
    requires i < |docs|
  {
    var d := Distinct(docs[i]);
    Dict(d, map k | k in d :: DocFreqPositive(docs, i, k); InverseFrequency(docs, k, log10))
  }

  /** The tf-idf weights of the distinct words of document `i`, in order of
      first occurrence: each term frequency times the inverse document
      frequency. */
  function RowWeights(docs: seq<seq<Token>>, i: nat, log10: real -> real): (ws: seq<real>)
    requires i < |docs|
    ensures |ws| == |Distinct(docs[i])|
  {
    Weights(TfOf(docs[i]), IdfOf(docs, i, log10))
  }

  /** The row `process` makes of document `i`: its distinct words in order
      of first occurrence, each replaced by the mask where its weight
      reaches `stat` of the document's weights. */
  ghost predicate MaskedDocument(x: seq<Token>, docs: seq<seq<Token>>, i: nat, log10: real -> real,
                                 stat: seq<real> -> real)
    requires i < |docs|
  {
    var ws := RowWeights(docs, i, log10);
    && |x| == |ws|
    && forall j :: 0 <= j < |x| ==> x[j] == if ws[j] >= stat(ws) then Mask else Distinct(docs[i])[j]
  }

  class TermsAnalysis {
    const tokenized: seq<seq<Token>>

    constructor (tokenized: seq<seq<Token>>)
      ensures this.tokenized == tokenized
    {
      this.tokenized := tokenized;
    }

    /** The inner loop of `create_frequency_matrix`: one document's table,
        whose counts add up to the document's length. */
    static method FrequencyTable(tokens: seq<Token>) returns (d: Dict<nat>)
      ensures Counted(d, tokens)
    {
      d := Dict([], map[]);
      for j := 0 to |tokens|
        invariant Tallied(d, tokens, j)
      {
        TallyStep(d, tokens, j);
        d := Tally(d, tokens[j]);
      }
      assert tokens[..|tokens|] == tokens;
    }

    /** `create_frequency_matrix`: one frequency table per document. */
    static method FrequencyMatrix(tokenized: seq<seq<Token>>) returns (fm: seq<Dict<nat>>)
      ensures |fm| == |tokenized|
      ensures forall i :: 0 <= i < |fm| ==> Counted(fm[i], tokenized[i])
    {
      fm := [];
      for i := 0 to |tokenized|
        invariant |fm| == i
        invariant forall k :: 0 <= k < i ==> Counted(fm[k], tokenized[k])
      {
        var table := FrequencyTable(tokenized[i]);
        fm := fm + [table];
      }
    }

    /** The inner loop of `create_tf_matrix`. */
    static method TfTable(f: Dict<nat>) returns (t: Dict<real>)
      requires ValidDict(f)
      ensures IsTfTable(t, f)
    {
      var n := |f.keys|;
      t := Dict([], map[]);
      for m := 0 to n
        invariant ValidDict(t) && t.keys == f.keys[..m]
        invariant forall k :: k in t.keys ==> k in f.vals && t.vals[k] == f.vals[k] as real / n as real
      {
        var w := f.keys[m];
        assert f.keys[..m + 1] == f.keys[..m] + [w];
        assert w !in t.vals;
        SetValid(t, w, f.vals[w] as real / n as real);
        t := Set(t, w, f.vals[w] as real / n as real);
      }
      assert f.keys[..n] == f.keys;
    }

    /** `create_tf_matrix`: each count divided by the number of distinct
        words of its table (not by the document's length). */
    static method TfMatrix(fm: seq<Dict<nat>>) returns (tm: seq<Dict<real>>)
      requires forall i :: 0 <= i < |fm| ==> ValidDict(fm[i])
      ensures |tm| == |fm|
      ensures forall i :: 0 <= i < |fm| ==> IsTfTable(tm[i], fm[i])
    {
      tm := [];
      for i := 0 to |fm|
        invariant |tm| == i
        invariant forall j :: 0 <= j < i ==> IsTfTable(tm[j], fm[j])
      {
        var t := TfTable(fm[i]);
        tm := tm + [t];
      }
    }

    /** The inner loop of `create_documents_per_words`: the words of one
        more table are counted. */
    static method CountWords(dpw: Dict<nat>, f: Dict<nat>, ghost before: seq<Dict<nat>>) returns (r: Dict<nat>)
      requires ValidDict(f) && IsDocumentsPerWords(dpw, before)
      ensures IsDocumentsPerWords(r, before + [f])
    {
      r := dpw;
      assert f.keys[..0] == [];
      for m := 0 to |f.keys|
        invariant CountedUpTo(r, before, f.keys, m)
      {
        CountStep(r, before, f.keys, m);
        var w := f.keys[m];
        if w in r.vals {
          r := Set(r, w, r.vals[w] + 1);
        } else {
          r := Set(r, w, 1);
        }
      }
      CountedAll(r, before, f);
    }

    /** `create_documents_per_words`: for every word, the number of tables
        that hold it. */
    static method DocumentsPerWords(fm: seq<Dict<nat>>) returns (dpw: Dict<nat>)
      requires forall i :: 0 <= i < |fm| ==> ValidDict(fm[i])
      ensures IsDocumentsPerWords(dpw, fm)
    {
      dpw := Dict([], map[]);
      for i := 0 to |fm|
        invariant IsDocumentsPerWords(dpw, fm[..i])
      {
        dpw := CountWords(dpw, fm[i], fm[..i]);
        assert fm[..i] + [fm[i]] == fm[..i + 1];
      }
      assert fm[..|fm|] == fm;
    }

    /** The inner loop of `create_idf_matrix`: a word missing from `dpw`
        raises `KeyError`, a zero count `ZeroDivisionError`. */
    static method IdfTable(f: Dict<nat>, dpw: Dict<nat>, total: nat, log10: real -> real) returns (r: Result<Dict<real>>)
      requires ValidDict(f)
      ensures r.Ok? <==> Known(f, dpw)
      ensures r.Err? ==> r.error == KeyError || r.error == ZeroDivisionError
      ensures r.Ok? ==> IsIdfTable(r.value, f, dpw, total, log10)
    {
      var t := Dict([], map[]);
      for m := 0 to |f.keys|
        invariant ValidDict(t) && t.keys == f.keys[..m]
        invariant forall k :: k in t.keys ==>
          k in dpw.vals && dpw.vals[k] != 0 && k in t.vals && t.vals[k] == log10(total as real / dpw.vals[k] as real)
      {
        var w := f.keys[m];
        assert f.keys[..m + 1] == f.keys[..m] + [w];
        if w !in dpw.vals {
          return Err(KeyError);
        }
        if dpw.vals[w] == 0 {
          return Err(ZeroDivisionError);
        }
        assert w !in t.vals;
        SetValid(t, w, log10(total as real / dpw.vals[w] as real));
        t := Set(t, w, log10(total as real / dpw.vals[w] as real));
      }
      assert f.keys[..|f.keys|] == f.keys;
      r := Ok(t);
    }

    /** `create_idf_matrix`: for every word of every table,
        `log10(total / dpw[word])`. */
    static method IdfMatrix(fm: seq<Dict<nat>>, dpw: Dict<nat>, total: nat, log10: real -> real)
      returns (r: Result<seq<Dict<real>>>)
      requires forall i :: 0 <= i < |fm| ==> ValidDict(fm[i])
      ensures r.Ok? <==> AllKnown(fm, dpw)
      ensures r.Err? ==> r.error == KeyError || r.error == ZeroDivisionError
      ensures r.Ok? ==> |r.value| == |fm|
      ensures r.Ok? ==> forall i :: 0 <= i < |fm| ==> IsIdfTable(r.value[i], fm[i], dpw, total, log10)
    {
      var im := [];
      for i := 0 to |fm|
        invariant |im| == i
        invariant forall j :: 0 <= j < i ==> Known(fm[j], dpw)
        invariant forall j :: 0 <= j < i ==> IsIdfTable(im[j], fm[j], dpw, total, log10)
      {
        var t := IdfTable(fm[i], dpw, total, log10);
        if t.Err? {
          return Err(t.error);
        }
        im := im + [t.value];
      }
      r := Ok(im);
    }

    /** The inner loop of `create_tf_idf_matrix`. */
    static method TfIdfTable(tf: Dict<real>, idf: Dict<real>) returns (t: Dict<real>)
      requires ValidDict(tf) && ValidDict(idf)
      ensures IsTfIdfTable(t, tf, idf)
    {
      var ws := Weights(tf, idf);
      t := Dict([], map[]);
      for m := 0 to |ws|
        invariant Paired(t, tf.keys, ws, m)
      {
        PairedStep(t, tf.keys, ws, m);
        t := Set(t, tf.keys[m], ws[m]);
      }
    }

    /** `create_tf_idf_matrix`: the tables are paired by position, and so
        are their entries. */
    static method TfIdfMatrix(tm: seq<Dict<real>>, im: seq<Dict<real>>) returns (r: seq<Dict<real>>)
      requires forall i :: 0 <= i < |tm| ==> ValidDict(tm[i])
      requires forall i :: 0 <= i < |im| ==> ValidDict(im[i])
      ensures |r| == Min(|tm|, |im|)
      ensures forall i :: 0 <= i < |r| ==> IsTfIdfTable(r[i], tm[i], im[i])
    {
      r := [];
      for i := 0 to Min(|tm|, |im|)
        invariant |r| == i
        invariant forall j :: 0 <= j < i ==> IsTfIdfTable(r[j], tm[j], im[j])
      {
        var t := TfIdfTable(tm[i], im[i]);
        r := r + [t];
      }
    }

    /** The inner loop of `remove_unnecessary` for table `i`: the threshold
        `stats[i]` is looked up for every entry, so a non-empty table
        without one raises `IndexError`. */
    static method MaskRow(t: Dict<real>, stats: seq<real>, i: nat) returns (r: Result<seq<Token>>)
      requires ValidDict(t)
      ensures r.Err? <==> i >= |stats| && |t.keys| > 0
      ensures r.Err? ==> r.error == IndexError
      ensures r.Ok? && i < |stats| ==> IsMaskedRow(r.value, t, stats[i])
      ensures r.Ok? && i >= |stats| ==> r.value == []
    {
      var x := [];
      for m := 0 to |t.keys|
        invariant |x| == m
        invariant m > 0 ==> i < |stats|
        invariant forall j :: 0 <= j < m ==> x[j] == if t.vals[t.keys[j]] >= stats[i] then Mask else t.keys[j]
      {
        if i >= |stats| {
          return Err(IndexError);
        }
        var k := t.keys[m];
        if t.vals[k] >= stats[i] {
          x := x + [Mask];
        } else {
          x := x + [k];
        }
      }
      r := Ok(x);
    }

    /** `remove_unnecessary`: every table becomes the row of its keys, with
        the mask in place of each key whose value reaches the table's
        threshold. */
    static method RemoveUnnecessary(tfIdf: seq<Dict<real>>, stats: seq<real>) returns (r: Result<seq<seq<Token>>>)
      requires forall i :: 0 <= i < |tfIdf| ==> ValidDict(tfIdf[i])
      ensures r.Err? <==> exists i :: |stats| <= i < |tfIdf| && |tfIdf[i].keys| > 0
      ensures r.Err? ==> r.error == IndexError
      ensures r.Ok? ==> |r.value| == |tfIdf|
      ensures r.Ok? ==> forall i :: 0 <= i < |tfIdf| ==>
        if i < |stats| then IsMaskedRow(r.value[i], tfIdf[i], stats[i]) else r.value[i] == []
    {
      var rows := [];
      for i := 0 to |tfIdf|
        invariant |rows| == i
        invariant forall j :: |stats| <= j < i ==> |tfIdf[j].keys| == 0
        invariant forall j :: 0 <= j < i ==>
          if j < |stats| then IsMaskedRow(rows[j], tfIdf[j], stats[j]) else rows[j] == []
      {
        var x := MaskRow(tfIdf[i], stats, i);
        if x.Err? {
          return Err(x.error);
        }
        rows := rows + [x.value];
      }
      r := Ok(rows);
    }

    /** The per-document threshold `stat(vals)` over the values of each
        table, in key order; a table without values raises `ValueError`. */
    static method Stats(tfIdf: seq<Dict<real>>, stat: seq<real> -> real) returns (r: Result<seq<real>>)
      requires forall i :: 0 <= i < |tfIdf| ==> ValidDict(tfIdf[i])
      ensures r.Err? <==> exists i :: 0 <= i < |tfIdf| && |tfIdf[i].keys| == 0
      ensures r.Err? ==> r.error == ValueError
      ensures r.Ok? ==> |r.value| == |tfIdf|
      ensures r.Ok? ==> forall i :: 0 <= i < |tfIdf| ==> r.value[i] == stat(Values(tfIdf[i]))
    {
      var stats := [];
      for i := 0 to |tfIdf|
        invariant |stats| == i
        invariant forall j :: 0 <= j < i ==> |tfIdf[j].keys| > 0 && stats[j] == stat(Values(tfIdf[j]))
      {
        var vals := Values(tfIdf[i]);
        if |vals| == 0 {
          return Err(ValueError);
        }
        stats := stats + [stat(vals)];
      }
      r := Ok(stats);
    }

    /** `process`: each document becomes the row of its distinct tokens, in
        order of first occurrence, with its heaviest terms masked. `stat`
        stands for `np.max(vals) - np.std(vals)`; `np.max` of an empty
        document's values raises `ValueError`. */
    method Process(log10: real -> real, stat: seq<real> -> real) returns (r: Result<seq<seq<Token>>>)
      ensures r.Err? <==> exists i :: 0 <= i < |tokenized| && |tokenized[i]| == 0
      ensures r.Err? ==> r.error == ValueError
      ensures r.Ok? ==> |r.value| == |tokenized|
      ensures r.Ok? ==> forall i :: 0 <= i < |tokenized| ==> MaskedDocument(r.value[i], tokenized, i, log10, stat)
    {
      var fm := FrequencyMatrix(tokenized);
      var tm := TfMatrix(fm);
      var dpw := DocumentsPerWords(fm);
      DocumentsPerWordsKnown(fm, dpw);
      var idf := IdfMatrix(fm, dpw, |tokenized|, log10);
      var tfIdf := TfIdfMatrix(tm, idf.value);
      DocumentKeys(tokenized, fm, tm, idf.value, tfIdf, dpw, log10);
      var st := Stats(tfIdf, stat);
      if st.Err? {
        ghost var k :| 0 <= k < |tfIdf| && |tfIdf[k].keys| == 0;
        DistinctEmpty(tokenized[k]);
        return Err(ValueError);
      }
      var stats := st.value;
      forall i | 0 <= i < |tokenized|
        ensures |tokenized[i]| > 0
      {
        DistinctEmpty(tokenized[i]);
      }
      var masked := RemoveUnnecessary(tfIdf, stats);
      DocumentRows(tokenized, fm, tm, idf.value, tfIdf, dpw, log10, stats, stat, masked.value);
      r := masked;
    }
  }

  /** The tf-idf tables of the documents are keyed by each document's
      distinct tokens. */
  lemma DocumentKeys(tokenized: seq<seq<Token>>, fm: seq<Dict<nat>>, tm: seq<Dict<real>>, im: seq<Dict<real>>,
                     tfIdf: seq<Dict<real>>, dpw: Dict<nat>, log10: real -> real)
    requires |fm| == |tokenized| && |tm| == |fm| && |im| == |fm| && |tfIdf| == |fm|
    requires forall i :: 0 <= i < |fm| ==> IsFrequencyTable(fm[i], tokenized[i])
    requires forall i :: 0 <= i < |fm| ==> IsTfTable(tm[i], fm[i])
    requires forall i :: 0 <= i < |fm| ==> IsIdfTable(im[i], fm[i], dpw, |tokenized|, log10)
    requires forall i :: 0 <= i < |fm| ==> IsTfIdfTable(tfIdf[i], tm[i], im[i])
    ensures forall i :: 0 <= i < |fm| ==> ValidDict(tfIdf[i]) && tfIdf[i].keys == Distinct(tokenized[i])
  {
    forall i | 0 <= i < |fm|
      ensures tfIdf[i].keys == Distinct(tokenized[i])
    {
      TfIdfByKey(tfIdf[i], tm[i], im[i]);
    }
  }

  /** Counting the frequency tables that hold a word counts the documents
      that hold it. */
  lemma {:induction false} DocCountFreq(fm: seq<Dict<nat>>, docs: seq<seq<Token>>, w: Token)
    requires |fm| == |docs| && forall i :: 0 <= i < |fm| ==> IsFrequencyTable(fm[i], docs[i])
    ensures DocCount(fm, w) == DocFreq(docs, w)
  {
    if |fm| > 0 {
      var n := |fm| - 1;
      forall i | 0 <= i < n
        ensures IsFrequencyTable(fm[..n][i], docs[..n][i])
      {
        assert fm[..n][i] == fm[i] && docs[..n][i] == docs[i];
      }
      DocCountFreq(fm[..n], docs[..n], w);
      assert w in fm[n].vals <==> w in Distinct(docs[n]);
    }
  }

  /** The tf value of a word of a document is its term frequency. */
  lemma TfValue(doc: seq<Token>, f: Dict<nat>, tf: Dict<real>, k: Token)
    requires IsFrequencyTable(f, doc) && IsTfTable(tf, f) && k in doc
    ensures tf.vals[k] == TermFrequency(doc, k)
  {
    assert k in Distinct(doc);
  }

  /** The idf value of a word of a document is its inverse document
      frequency. */
  lemma IdfValue(docs: seq<seq<Token>>, i: nat, f: Dict<nat>, idf: Dict<real>, dpw: Dict<nat>,
                 log10: real -> real, k: Token)
    requires i < |docs| && k in docs[i]
    requires IsFrequencyTable(f, docs[i]) && IsIdfTable(idf, f, dpw, |docs|, log10)
    requires k in dpw.vals ==> dpw.vals[k] == DocFreq(docs, k)
    ensures DocFreq(docs, k) > 0 && idf.vals[k] == InverseFrequency(docs, k, log10)
  {
    assert k in Distinct(docs[i]);
    DocFreqPositive(docs, i, k);
  }

  /** The tf table `create_tf_matrix` makes of a document's frequency table
      is the document's tf table. */
  lemma TfTableOf(doc: seq<Token>, f: Dict<nat>, tf: Dict<real>)
    requires IsFrequencyTable(f, doc) && IsTfTable(tf, f)
    ensures tf == TfOf(doc)
  {
    var r := TfOf(doc);
    forall k | k in tf.vals
      ensures k in r.vals && tf.vals[k] == r.vals[k]
    {
      TfValue(doc, f, tf, k);
    }
    assert tf.vals == r.vals;
  }

  /** The idf table `create_idf_matrix` makes of the frequency table of
      document `i` is the document's idf table. */
  lemma IdfTableOf(docs: seq<seq<Token>>, i: nat, fm: seq<Dict<nat>>, idf: Dict<real>, dpw: Dict<nat>,
                   log10: real -> real)
    requires |fm| == |docs| && i < |fm|
    requires forall i :: 0 <= i < |fm| ==> IsFrequencyTable(fm[i], docs[i])
    requires IsDocumentsPerWords(dpw, fm) && IsIdfTable(idf, fm[i], dpw, |docs|, log10)
    ensures idf == IdfOf(docs, i, log10)
  {
    var r := IdfOf(docs, i, log10);
    forall k | k in idf.vals
      ensures k in r.vals && idf.vals[k] == r.vals[k]
    {
      assert k in Distinct(docs[i]);
      DocCountFreq(fm, docs, k);
      IdfValue(docs, i, fm[i], idf, dpw, log10, k);
    }
    assert idf.vals == r.vals;
  }

  /** A tf-idf table of two tables with the same keys has those keys. */
  lemma TfIdfKeys(t: Dict<real>, tf: Dict<real>, idf: Dict<real>)
    requires IsTfIdfTable(t, tf, idf) && idf.keys == tf.keys
    ensures ValidDict(t) && t.keys == tf.keys
  {
    assert tf.keys[..|tf.keys|] == tf.keys;
  }

  /** The values of the tf-idf table of document `i`, in key order, are the
      weights of the document's distinct words. */
  lemma TableWeights(tokenized: seq<seq<Token>>, fm: seq<Dict<nat>>, tf: Dict<real>, idf: Dict<real>,
                     t: Dict<real>, dpw: Dict<nat>, log10: real -> real, i: nat)
    requires |fm| == |tokenized| && i < |fm|
    requires forall i :: 0 <= i < |fm| ==> IsFrequencyTable(fm[i], tokenized[i])
    requires IsDocumentsPerWords(dpw, fm)
    requires IsTfTable(tf, fm[i]) && IsIdfTable(idf, fm[i], dpw, |tokenized|, log10)
    requires IsTfIdfTable(t, tf, idf)
    ensures ValidDict(t) && t.keys == Distinct(tokenized[i])
    ensures Values(t) == RowWeights(tokenized, i, log10)
  {
    TfIdfKeys(t, tf, idf);
    TfTableOf(tokenized[i], fm[i], tf);
    IdfTableOf(tokenized, i, fm, idf, dpw, log10);
    var ws := Weights(tf, idf);
    forall j | 0 <= j < |ws|
      ensures Values(t)[j] == ws[j]
    {
      assert tf.keys[j] in t.vals;
    }
  }

  /** The masked row of a tf-idf table whose values are the weights of
      document `i`, with the threshold `stat` of those weights, is the row
      `process` makes of the document. */
  lemma MaskedDocumentOf(x: seq<Token>, t: Dict<real>, threshold: real, docs: seq<seq<Token>>, i: nat,
                         log10: real -> real, stat: seq<real> -> real)
    requires i < |docs| && ValidDict(t) && t.keys == Distinct(docs[i])
    requires Values(t) == RowWeights(docs, i, log10) && threshold == stat(RowWeights(docs, i, log10))
    requires IsMaskedRow(x, t, threshold)
    ensures MaskedDocument(x, docs, i, log10, stat)
  {
    forall j | 0 <= j < |x|
      ensures t.vals[t.keys[j]] == RowWeights(docs, i, log10)[j]
    {
      assert t.vals[t.keys[j]] == Values(t)[j];
    }
  }

  /** The rows `remove_unnecessary` makes of the tf-idf tables are the rows
      `process` promises for the documents. */
  lemma DocumentRows(tokenized: seq<seq<Token>>, fm: seq<Dict<nat>>, tm: seq<Dict<real>>, im: seq<Dict<real>>,
                     tfIdf: seq<Dict<real>>, dpw: Dict<nat>, log10: real -> real, stats: seq<real>,
                     stat: seq<real> -> real, rows: seq<seq<Token>>)
    requires |fm| == |tokenized| && |tm| == |fm| && |im| == |fm| && |tfIdf| == |fm|
    requires |stats| == |fm| && |rows| == |fm|
    requires forall i :: 0 <= i < |fm| ==> Counted(fm[i], tokenized[i])
    requires IsDocumentsPerWords(dpw, fm)
    requires forall i :: 0 <= i < |fm| ==> IsTfTable(tm[i], fm[i])
    requires forall i :: 0 <= i < |fm| ==> IsIdfTable(im[i], fm[i], dpw, |tokenized|, log10)
    requires forall i :: 0 <= i < |fm| ==> IsTfIdfTable(tfIdf[i], tm[i], im[i])
    requires forall i :: 0 <= i < |fm| ==> ValidDict(tfIdf[i]) && stats[i] == stat(Values(tfIdf[i]))
    requires forall i :: 0 <= i < |fm| ==> IsMaskedRow(rows[i], tfIdf[i], stats[i])
    ensures forall i :: 0 <= i < |fm| ==> MaskedDocument(rows[i], tokenized, i, log10, stat)
  {
    assert forall i :: 0 <= i < |fm| ==> IsFrequencyTable(fm[i], tokenized[i]);
    forall i | 0 <= i < |fm|
      ensures MaskedDocument(rows[i], tokenized, i, log10, stat)
    {
      TableWeights(tokenized, fm, tm[i], im[i], tfIdf[i], dpw, log10, i);
      MaskedDocumentOf(rows[i], tfIdf[i], stats[i], tokenized, i, log10, stat);
    }
  }

  lemma DistinctEmpty(xs: seq<Token>)
    ensures |Distinct(xs)| == 0 <==> |xs| == 0
  {
    if |xs| > 0 {
      DistinctHead(xs);
    }
  }
}
