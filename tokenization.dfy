/** `clusterlogs/tokenization.py`: splitting messages into tokens with an
    external tokenizer, removing stop words and punctuation, and collecting
    the vocabulary. The tokenizer and Python's `str.lower` are parameters of
    the model; so is the stop list (English stop words, punctuation and the
    two quote tokens). */
module Tokenization {
  import opened Common
  import opened Seqs

  /** The row with every token whose lower-case form is a stop word removed,
      in the original order. */
  function Clean(row: seq<Token>, stop: seq<Token>, lower: Token -> Token): seq<Token>
  {
    if |row| == 0 then []
    else
      var last := row[|row| - 1];
      Clean(row[..|row| - 1], stop, lower) + (if lower(last) in stop then [] else [last])
  }

  /** A token occurs in the cleaned row exactly as often as in the row when
      it is not a stop word, and not at all when it is. */
  lemma {:induction false} CleanCount(row: seq<Token>, stop: seq<Token>, lower: Token -> Token, t: Token)
    ensures Count(Clean(row, stop, lower), t) == if lower(t) in stop then 0 else Count(row, t)
  {
    if |row| > 0 {
      var init := row[..|row| - 1];
      CleanCount(init, stop, lower, t);
      assert row == init + [row[|row| - 1]];
    }
  }

  /** No stop word is left, and every other token is kept. */
  lemma CleanMember(row: seq<Token>, stop: seq<Token>, lower: Token -> Token, t: Token)
    ensures t in Clean(row, stop, lower) <==> t in row && lower(t) !in stop
  {
    CleanCount(row, stop, lower, t);
    assert t in Clean(row, stop, lower) <==> Count(Clean(row, stop, lower), t) > 0;
    assert t in row <==> Count(row, t) > 0;
  }

  /** The cleaned row keeps the order of the row. */
  lemma {:induction false} CleanSubseq(row: seq<Token>, stop: seq<Token>, lower: Token -> Token)
    ensures IsSubseq(Clean(row, stop, lower), row)
  {
    if |row| > 0 {
      var init := row[..|row| - 1];
      var last := row[|row| - 1];
      CleanSubseq(init, stop, lower);
      var tail: seq<Token> := if lower(last) in stop then [] else [last];
      if lower(last) in stop {
        assert IsSubseq(tail, [last]);
      } else {
        SubseqRefl(tail);
      }
      SubseqConcat(Clean(init, stop, lower), init, tail, [last]);
      assert init + [last] == row;
    }
  }

  /** The vocabulary: every token that occurs in some row, once. */
  ghost predicate IsVocabulary(v: seq<Token>, rows: seq<seq<Token>>)
  {
    && NoDuplicates(v)
    && forall t :: t in v <==> exists i :: 0 <= i < |rows| && t in rows[i]
  }

  /** `get_vocabulary`: `list(set(flat_list))`. */
  function GetVocabulary(rows: seq<seq<Token>>): (v: seq<Token>)
    ensures IsVocabulary(v, rows)
  {
    var flat := Flatten(rows);
    forall t | true
      ensures t in Distinct(flat) <==> exists i :: 0 <= i < |rows| && t in rows[i]
    {
      FlattenMember(rows, t);
    }
    Distinct(flat)
  }

  /** The token lists that `pyonmttok` collects, one per message. */
  method Pyonmttok(tokenize: string -> seq<Token>, strings: seq<string>) returns (tokenized: seq<seq<Token>>)
    ensures |tokenized| == |strings|
    ensures forall i :: 0 <= i < |strings| ==> tokenized[i] == tokenize(strings[i])
  {
    tokenized := [];
    for i := 0 to |strings|
      invariant |tokenized| == i
      invariant forall k :: 0 <= k < i ==> tokenized[k] == tokenize(strings[k])
    {
      var tokens := tokenize(strings[i]);
      tokenized := tokenized + [tokens];
    }
  }

  /** `clean_tokens`: one row out per row in, each with its stop words
      removed. */
  method CleanTokens(tokenized: seq<seq<Token>>, stop: seq<Token>, lower: Token -> Token)
    returns (result: seq<seq<Token>>)
    ensures |result| == |tokenized|
    ensures forall i :: 0 <= i < |tokenized| ==> result[i] == Clean(tokenized[i], stop, lower)
  {
    result := [];
    for r := 0 to |tokenized|
      invariant |result| == r
      invariant forall k :: 0 <= k < r ==> result[k] == Clean(tokenized[k], stop, lower)
    {
      var row := tokenized[r];
      var kept := [];
      for j := 0 to |row|
        invariant kept == Clean(row[..j], stop, lower)
      {
        assert row[..j + 1][..j] == row[..j];
        if lower(row[j]) !in stop {
          kept := kept + [row[j]];
        }
      }
      assert row[..|row|] == row;
      result := result + [kept];
    }
  }

  /** A `Tokens` object: the messages and what `process` derives from them.
      `tokenizeDbscan` and `tokenizePattern` stand for the two `conservative`
      tokenizers (without and with spacer annotation). */
  class Tokens {
    const messages: seq<string>
    var tokenizedDbscan: seq<seq<Token>>
    var tokenizedPattern: seq<seq<Token>>
    var vocabularyDbscan: seq<Token>
    var vocabularyPattern: seq<Token>

    constructor (messages: seq<string>)
      ensures this.messages == messages
      ensures tokenizedDbscan == [] && tokenizedPattern == []
      ensures vocabularyDbscan == [] && vocabularyPattern == []
    {
      this.messages := messages;
      tokenizedDbscan := [];
      tokenizedPattern := [];
      vocabularyDbscan := [];
      vocabularyPattern := [];
    }

    /** `process`: the cleaned and the annotated token lists, one per
        message, and the vocabulary of each. */
    method Process(tokenizeDbscan: string -> seq<Token>, tokenizePattern: string -> seq<Token>,
                   stop: seq<Token>, lower: Token -> Token)
      modifies this
      ensures |tokenizedDbscan| == |messages| && |tokenizedPattern| == |messages|
      ensures forall i :: 0 <= i < |messages| ==>
        && tokenizedDbscan[i] == Clean(tokenizeDbscan(messages[i]), stop, lower)
        && tokenizedPattern[i] == tokenizePattern(messages[i])
      ensures IsVocabulary(vocabularyDbscan, tokenizedDbscan)
      ensures IsVocabulary(vocabularyPattern, tokenizedPattern)
    {
      var raw := Pyonmttok(tokenizeDbscan, messages);
      tokenizedDbscan := CleanTokens(raw, stop, lower);
      tokenizedPattern := Pyonmttok(tokenizePattern, messages);
      vocabularyDbscan := GetVocabulary(tokenizedDbscan);
      vocabularyPattern := GetVocabulary(tokenizedPattern);
    }
  }
}
