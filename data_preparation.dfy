/** `clusterlogs/data_preparation.py`: whitespace normalisation of messages
    (`" ".join(sentence.split())`) and the `Regex` cleaner that rewrites each
    message in place. The regular-expression substitution `re.sub(r, '*', s)`
    is a parameter of the model. */
module DataPreparation {
  import opened Seqs

  /** The characters that `str.split()` with no argument splits on: those
      for which `str.isspace()` holds. */
  predicate IsSpace(c: char)
  {
    || '\U{9}' <= c <= '\U{D}' || '\U{1C}' <= c <= '\U{20}' || c == '\U{85}' || c == '\U{A0}'
    || c == '\U{1680}' || '\U{2000}' <= c <= '\U{200A}' || c == '\U{2028}' || c == '\U{2029}'
    || c == '\U{202F}' || c == '\U{205F}' || c == '\U{3000}'
  }

  /** A word: a non-empty run of non-whitespace characters. */
  predicate IsWord(w: string)
  {
    |w| > 0 && forall i :: 0 <= i < |w| ==> !IsSpace(w[i])
  }

  predicate AllWords(ws: seq<string>)
  {
    forall k :: 0 <= k < |ws| ==> IsWord(ws[k])
  }

  /** Length of the run of non-whitespace characters that `s` starts with. */
  function WordLen(s: string): (k: nat)
    ensures k <= |s|
    ensures |s| > 0 && !IsSpace(s[0]) ==> k > 0
  {
    if |s| == 0 || IsSpace(s[0]) then 0 else 1 + WordLen(s[1..])
  }

  /** `s.split()`: the maximal runs of non-whitespace characters, in order. */
  function Split(s: string): seq<string>
    decreases |s|
  {
    if |s| == 0 then []
    else if IsSpace(s[0]) then Split(s[1..])
    else [s[..WordLen(s)]] + Split(s[WordLen(s)..])
  }

  /** `" ".join(ws)`. */
  function JoinWords(ws: seq<string>): string
  {
    if |ws| == 0 then ""
    else if |ws| == 1 then ws[0]
    else ws[0] + " " + JoinWords(ws[1..])
  }

  /** `remove_whitespaces`. */
  function RemoveWhitespaces(s: string): string
  {
    JoinWords(Split(s))
  }

  /** What `remove_whitespaces` promises of its output: no whitespace at
      either end, no whitespace but the plain space, and no two spaces in a
      row. */
  predicate Normalized(r: string)
  {
    && (|r| > 0 ==> !IsSpace(r[0]) && !IsSpace(r[|r| - 1]))
    && (forall i :: 0 <= i < |r| && IsSpace(r[i]) ==> r[i] == ' ')
    && (forall i :: 0 <= i < |r| - 1 ==> !(r[i] == ' ' && r[i + 1] == ' '))
  }

  /** The string with all its whitespace deleted. */
  function NonSpace(s: string): string
  {
    if |s| == 0 then "" else (if IsSpace(s[0]) then "" else [s[0]]) + NonSpace(s[1..])
  }

  lemma {:induction false} WordLenRun(s: string)
    ensures var k := WordLen(s);
      && (forall i :: 0 <= i < k ==> !IsSpace(s[i]))
      && (k < |s| ==> IsSpace(s[k]))
  {
    if |s| > 0 && !IsSpace(s[0]) {
      WordLenRun(s[1..]);
    }
  }

  /** The pieces of a split are words. */
  lemma {:induction false} SplitWords(s: string)
    ensures AllWords(Split(s))
    decreases |s|
  {
    if |s| > 0 {
      if IsSpace(s[0]) {
        SplitWords(s[1..]);
      } else {
        var k := WordLen(s);
        WordLenRun(s);
        SplitWords(s[k..]);
        var ws := Split(s);
        assert ws == [s[..k]] + Split(s[k..]);
        assert forall j :: 0 < j < |ws| ==> ws[j] == Split(s[k..])[j - 1];
      }
    }
  }

  /** Joining words: a word followed by a space and the rest. */
  lemma JoinCons(ws: seq<string>)
    requires |ws| >= 2
    ensures JoinWords(ws) == ws[0] + (" " + JoinWords(ws[1..]))
  {
  }

  lemma AllWordsTail(ws: seq<string>)
    requires |ws| > 0 && AllWords(ws)
    ensures IsWord(ws[0]) && AllWords(ws[1..])
  {
    assert forall k :: 0 <= k < |ws| - 1 ==> ws[1..][k] == ws[k + 1];
  }

  /** Joined words start and end with a word character. */
  lemma {:induction false} JoinEnds(ws: seq<string>)
    requires |ws| > 0 && AllWords(ws)
    ensures var r := JoinWords(ws);
      |r| > 0 && !IsSpace(r[0]) && !IsSpace(r[|r| - 1])
  {
    AllWordsTail(ws);
    if |ws| >= 2 {
      JoinEnds(ws[1..]);
      JoinCons(ws);
    }
  }

  /** Words joined by single spaces are normalised. */
  lemma {:induction false} JoinNormalized(ws: seq<string>)
    requires AllWords(ws)
    ensures Normalized(JoinWords(ws))
  {
    if |ws| == 1 {
      AllWordsTail(ws);
    } else if |ws| >= 2 {
      AllWordsTail(ws);
      JoinNormalized(ws[1..]);
      JoinEnds(ws);
      JoinEnds(ws[1..]);
      JoinCons(ws);
      var w := ws[0];
      var rest := JoinWords(ws[1..]);
      var r := JoinWords(ws);
      assert r == w + " " + rest;
      forall i | 0 <= i < |r| && IsSpace(r[i])
        ensures r[i] == ' '
      {
        if i > |w| {
          assert r[i] == rest[i - |w| - 1];
        }
      }
      forall i | 0 <= i < |r| - 1
        ensures !(r[i] == ' ' && r[i + 1] == ' ')
      {
        if i > |w| {
          assert r[i] == rest[i - |w| - 1] && r[i + 1] == rest[i - |w|];
        } else if i == |w| {
          assert r[i + 1] == rest[0];
        }
      }
    }
  }

  /** The output of `remove_whitespaces` is normalised. */
  lemma RemoveWhitespacesNormalized(s: string)
    ensures Normalized(RemoveWhitespaces(s))
  {
    SplitWords(s);
    JoinNormalized(Split(s));
  }

  lemma {:induction false} NonSpaceAppend(a: string, b: string)
    ensures NonSpace(a + b) == NonSpace(a) + NonSpace(b)
  {
    if |a| > 0 {
      NonSpaceAppend(a[1..], b);
      assert (a + b)[1..] == a[1..] + b;
    } else {
      assert a + b == b;
    }
  }

  lemma {:induction false} NonSpaceWord(w: string)
    requires forall i :: 0 <= i < |w| ==> !IsSpace(w[i])
    ensures NonSpace(w) == w
  {
    if |w| > 0 {
      NonSpaceWord(w[1..]);
      assert w == [w[0]] + w[1..];
    }
  }

  /** Splitting keeps the non-whitespace characters, in order. */
  lemma {:induction false} NonSpaceSplit(s: string)
    ensures Flatten(Split(s)) == NonSpace(s)
    decreases |s|
  {
    if |s| > 0 {
      if IsSpace(s[0]) {
        NonSpaceSplit(s[1..]);
      } else {
        var k := WordLen(s);
        WordLenRun(s);
        NonSpaceSplit(s[k..]);
        FlattenCons(s[..k], Split(s[k..]));
        NonSpaceWord(s[..k]);
        NonSpaceAppend(s[..k], s[k..]);
        assert s[..k] + s[k..] == s;
      }
    }
  }

  /** Joining words with spaces keeps their characters, in order. */
  lemma {:induction false} NonSpaceJoin(ws: seq<string>)
    requires AllWords(ws)
    ensures NonSpace(JoinWords(ws)) == Flatten(ws)
  {
    if |ws| > 0 {
      AllWordsTail(ws);
      NonSpaceWord(ws[0]);
      FlattenCons(ws[0], ws[1..]);
      assert ws == [ws[0]] + ws[1..];
      if |ws| == 1 {
        assert Flatten(ws[1..]) == [];
        assert ws[0] + [] == ws[0];
      } else {
        var rest := JoinWords(ws[1..]);
        calc {
          NonSpace(JoinWords(ws));
          { JoinCons(ws); }
          NonSpace(ws[0] + (" " + rest));
          { NonSpaceAppend(ws[0], " " + rest); NonSpaceAppend(" ", rest); assert NonSpace(" ") == ""; }
          ws[0] + NonSpace(rest);
          { NonSpaceJoin(ws[1..]); }
          ws[0] + Flatten(ws[1..]);
        }
      }
    }
  }

  /** Deleting the spaces from the output gives the input with all its
      whitespace deleted. */
  lemma RemoveWhitespacesKeepsText(s: string)
    ensures NonSpace(RemoveWhitespaces(s)) == NonSpace(s)
  {
    SplitWords(s);
    NonSpaceJoin(Split(s));
    NonSpaceSplit(s);
  }

  lemma {:induction false} WordLenWord(w: string, t: string)
    requires forall i :: 0 <= i < |w| ==> !IsSpace(w[i])
    requires |t| == 0 || IsSpace(t[0])
    ensures WordLen(w + t) == |w|
  {
    if |w| > 0 {
      assert (w + t)[1..] == w[1..] + t;
      WordLenWord(w[1..], t);
    } else {
      assert w + t == t;
    }
  }

  /** Splitting words joined by spaces gives the words back. */
  lemma {:induction false} SplitJoin(ws: seq<string>)
    requires AllWords(ws)
    ensures Split(JoinWords(ws)) == ws
  {
    if |ws| > 0 {
      AllWordsTail(ws);
      var w := ws[0];
      if |ws| == 1 {
        WordLenWord(w, "");
        assert w + "" == w;
        assert w[..|w|] == w && w[|w|..] == "";
      } else {
        SplitJoin(ws[1..]);
        JoinCons(ws);
        var tail := " " + JoinWords(ws[1..]);
        var r := w + tail;
        WordLenWord(w, tail);
        assert r[..|w|] == w && r[|w|..] == tail;
        assert tail[1..] == JoinWords(ws[1..]);
        assert Split(r) == [w] + Split(tail);
        assert ws == [w] + ws[1..];
      }
    }
  }

  /** Normalising twice is normalising once. */
  lemma RemoveWhitespacesIdempotent(s: string)
    ensures RemoveWhitespaces(RemoveWhitespaces(s)) == RemoveWhitespaces(s)
  {
    SplitWords(s);
    SplitJoin(Split(s));
  }

  lemma {:induction false} SplitEmpty(s: string)
    ensures Split(s) == [] <==> forall i :: 0 <= i < |s| ==> IsSpace(s[i])
  {
    if |s| > 0 {
      SplitEmpty(s[1..]);
      assert forall i :: 1 <= i < |s| ==> s[i] == s[1..][i - 1];
    }
  }

  /** The output is empty exactly when the input is empty or all
      whitespace. */
  lemma RemoveWhitespacesEmpty(s: string)
    ensures RemoveWhitespaces(s) == "" <==> forall i :: 0 <= i < |s| ==> IsSpace(s[i])
  {
    SplitEmpty(s);
    SplitWords(s);
    if Split(s) != [] {
      JoinEnds(Split(s));
    }
  }

  /** All the substitutions, in order: `for r in self.regex: item = re.sub(r, '*', item)`. */
  function SubstituteAll(regex: seq<string>, item: string, substitute: (string, string) -> string): string
  {
    if |regex| == 0 then item else SubstituteAll(regex[1..], substitute(regex[0], item), substitute)
  }

  /** A `Regex` cleaner over a list of messages. `substitute(r, s)` stands
      for `re.sub(r, '*', s)`. */
  class Regex {
    const messages: array<string>
    const regex: seq<string>

    constructor (messages: array<string>, regex: seq<string>)
      ensures this.messages == messages && this.regex == regex
    {
      this.messages := messages;
      this.regex := regex;
    }

    /** `process`: every message is rewritten in place by the substitutions
        and then normalised; the same list is returned. */
    method Process(substitute: (string, string) -> string) returns (r: array<string>)
      modifies messages
      ensures r == messages
      ensures forall i :: 0 <= i < messages.Length ==>
        messages[i] == RemoveWhitespaces(SubstituteAll(regex, old(messages[i]), substitute))
      ensures forall i :: 0 <= i < messages.Length ==> Normalized(messages[i])
    {
      for idx := 0 to messages.Length
        invariant forall i :: 0 <= i < idx ==>
          messages[i] == RemoveWhitespaces(SubstituteAll(regex, old(messages[i]), substitute))
          && Normalized(messages[i])
        invariant forall i :: idx <= i < messages.Length ==> messages[i] == old(messages[i])
      {
        var item := messages[idx];
        for j := 0 to |regex|
          invariant SubstituteAll(regex[j..], item, substitute)
                 == SubstituteAll(regex, old(messages[idx]), substitute)
        {
          assert regex[j..][0] == regex[j] && regex[j..][1..] == regex[j + 1..];
          item := substitute(regex[j], item);
        }
        assert regex[|regex|..] == [];
        RemoveWhitespacesNormalized(item);
        messages[idx] := RemoveWhitespaces(item);
      }
      r := messages;
    }
  }
}
