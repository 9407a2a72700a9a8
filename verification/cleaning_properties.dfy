/** Properties of the cleaned token list: the shape of every token, order
    preservation, the per-word keep rule, distribution over concatenation, and
    what a second cleaning pass does given that the stop-word test is
    case-sensitive and runs before lowercasing. */
module CleaningProperties {
  import opened AsciiText
  import opened TokenCleaning

  /** Every output token is non-empty, alphanumeric, lowercase and not all digits. */
  lemma {:induction false} CleanTokensAreClean(words: seq<string>, stop: set<string>)
    ensures forall k :: 0 <= k < |CleanTokens(words, stop)| ==> IsCleanToken(CleanTokens(words, stop)[k])
  {
    if |words| > 0 {
      var prefix := words[..|words| - 1];
      var last := words[|words| - 1];
      CleanTokensAreClean(prefix, stop);
      if Keep(last, stop) {
        ImageIsClean(last, stop);
      }
    }
  }

  /** A single raw word is kept exactly when its stripped form is non-empty,
      not a stop word and not all digits; when kept it contributes its
      stripped form in lower case, and nothing else. */
  lemma SingleWord(word: string, stop: set<string>)
    ensures |CleanTokens([word], stop)| <= 1
    ensures |CleanTokens([word], stop)| == 1
      <==> Strip(word) != "" && Strip(word) !in stop && !IsAllDigits(Strip(word))
    ensures |CleanTokens([word], stop)| == 1 ==> CleanTokens([word], stop)[0] == Lower(Strip(word))
    ensures Keep(word, stop) <==> |CleanTokens([word], stop)| == 1
  {
    assert [word][..0] == [];
  }

  /** The cleaning works word by word, so it distributes over concatenation. */
  lemma {:induction false} CleanTokensConcat(a: seq<string>, b: seq<string>, stop: set<string>)
    ensures CleanTokens(a + b, stop) == CleanTokens(a, stop) + CleanTokens(b, stop)
  {
    if |b| == 0 {
      assert a + b == a;
    } else {
      var b', last := b[..|b| - 1], b[|b| - 1];
      var ab := a + b;
      assert ab[..|ab| - 1] == a + b';
      assert ab[|ab| - 1] == last;
      calc {
        CleanTokens(a + b, stop);
        CleanTokens(a + b', stop) + Emit(last, stop);
        { CleanTokensConcat(a, b', stop); }
        CleanTokens(a, stop) + CleanTokens(b', stop) + Emit(last, stop);
        CleanTokens(a, stop) + CleanTokens(b, stop);
      }
    }
  }

  /** Appending one raw word appends its position to the kept positions
      exactly when the word is kept. */
  lemma KeptIndicesSnoc(words: seq<string>, word: string, stop: set<string>)
    ensures KeptIndices(words + [word], stop)
      == KeptIndices(words, stop) + (if Keep(word, stop) then [|words|] else [])
  {
    var flags := KeepFlags(words + [word], stop);
    assert flags[..|words|] == KeepFlags(words, stop);
  }

  /** The output is the sequence of images of the kept raw words, in their
      original order: its k-th token is the image of the k-th kept word. */
  lemma {:induction false} OrderPreserved(words: seq<string>, stop: set<string>)
    ensures |CleanTokens(words, stop)| == |KeptIndices(words, stop)|
    ensures forall k :: 0 <= k < |CleanTokens(words, stop)| ==>
      KeptIndices(words, stop)[k] < |words| &&
      CleanTokens(words, stop)[k] == Image(words[KeptIndices(words, stop)[k]])
  {
    if |words| > 0 {
      var n := |words| - 1;
      var prefix, last := words[..n], words[n];
      assert words == prefix + [last];
      OrderPreserved(prefix, stop);
      CleanTokensSnoc(prefix, last, stop);
      KeptIndicesSnoc(prefix, last, stop);
      var out, out' := CleanTokens(words, stop), CleanTokens(prefix, stop);
      var idx, idx' := KeptIndices(words, stop), KeptIndices(prefix, stop);
      if Keep(last, stop) {
        assert out == out' + [Image(last)] && idx == idx' + [n];
      } else {
        assert out == out' && idx == idx';
      }
      forall k | 0 <= k < |out|
        ensures idx[k] < |words| && out[k] == Image(words[idx[k]])
      {
        if k < |out'| {
          assert out[k] == out'[k] && idx[k] == idx'[k];
          assert prefix[idx'[k]] == words[idx[k]];
        }
      }
    }
  }

  /** A token occurs in the output exactly when some kept raw word has it as image. */
  lemma CleanTokensMembership(words: seq<string>, stop: set<string>, t: string)
    ensures t in CleanTokens(words, stop)
      <==> exists i :: 0 <= i < |words| && Keep(words[i], stop) && Image(words[i]) == t
  {
    var out := CleanTokens(words, stop);
    var idx := KeptIndices(words, stop);
    OrderPreserved(words, stop);
    if t in out {
      var k :| 0 <= k < |out| && out[k] == t;
      assert Keep(words[idx[k]], stop);
    }
    if exists i :: 0 <= i < |words| && Keep(words[i], stop) && Image(words[i]) == t {
      var i :| 0 <= i < |words| && Keep(words[i], stop) && Image(words[i]) == t;
      assert KeepFlags(words, stop)[i];
      var k :| 0 <= k < |idx| && idx[k] == i;
      assert out[k] == t;
    }
  }

  /** The tokens of `ts` that are not stop words, in order. */
  function DropStopWords(ts: seq<string>, stop: set<string>): (r: seq<string>)
    ensures |r| <= |ts|
    ensures forall t :: t in r <==> t in ts && t !in stop
    ensures r == ts <==> forall k :: 0 <= k < |ts| ==> ts[k] !in stop
  {
    if |ts| == 0 then []
    else
      var prefix := ts[..|ts| - 1];
      var last := ts[|ts| - 1];
      assert ts == prefix + [last];
      DropStopWords(prefix, stop) + (if last in stop then [] else [last])
  }

  /** A clean token passes the strip and lowercase steps unchanged, so the
      keep test reduces to the stop-word lookup. */
  lemma CleanTokenIsFixed(t: string, stop: set<string>)
    requires IsCleanToken(t)
    ensures Strip(t) == t && Lower(t) == t
    ensures Keep(t, stop) <==> t !in stop
  {
    LowerNormalises(t);
    StripFixedIff(t);
  }

  /** Cleaning a list of clean tokens only removes its stop words. */
  lemma {:induction false} CleaningCleanTokens(ts: seq<string>, stop: set<string>)
    requires forall k :: 0 <= k < |ts| ==> IsCleanToken(ts[k])
    ensures CleanTokens(ts, stop) == DropStopWords(ts, stop)
  {
    if |ts| > 0 {
      var prefix := ts[..|ts| - 1];
      var last := ts[|ts| - 1];
      CleaningCleanTokens(prefix, stop);
      CleanTokenIsFixed(last, stop);
    }
  }

  /** A second cleaning pass removes exactly those output tokens that are stop
      words: the lowercase form of a kept word can be a stop word even though
      the word itself was not one. */
  lemma SecondPass(words: seq<string>, stop: set<string>)
    ensures CleanTokens(CleanTokens(words, stop), stop) == DropStopWords(CleanTokens(words, stop), stop)
  {
    CleanTokensAreClean(words, stop);
    CleaningCleanTokens(CleanTokens(words, stop), stop);
  }

  /** Cleaning is idempotent on a word sequence exactly when none of its output
      tokens is a stop word. */
  lemma IdempotentIff(words: seq<string>, stop: set<string>)
    ensures var out := CleanTokens(words, stop);
      CleanTokens(out, stop) == out <==> forall k :: 0 <= k < |out| ==> out[k] !in stop
  {
    SecondPass(words, stop);
  }

  /** The stop-word test sees the word before lowercasing: with the lowercase
      stop word "the", the raw word "The" is kept and emitted as "the", which a
      second pass then drops. */
  lemma StopTestIsCaseSensitive()
    ensures CleanTokens(["The"], {"the"}) == ["the"]
    ensures CleanTokens(CleanTokens(["The"], {"the"}), {"the"}) == []
  {
    var w := "The";
    StripFixedIff(w);
    assert Strip(w) == w;
    assert Lower(w) == "the";
    assert Keep(w, {"the"});
    SingleWord(w, {"the"});
    IdempotentIff(["The"], {"the"});
    SingleWord("the", {"the"});
  }

  /** A stop set that contains every upper- and mixed-case spelling of each of
      its alphanumeric members. */
  ghost predicate CaseClosed(stop: set<string>) {
    forall w :: IsAlnumString(w) && Lower(w) in stop ==> w in stop
  }

  /** With a case-closed stop set, the image of a kept word is not a stop word:
      if it were, the stripped word, one of its spellings, would be one too. */
  lemma CaseClosedImage(word: string, stop: set<string>)
    requires CaseClosed(stop)
    requires Keep(word, stop)
    ensures Image(word) !in stop
  {
    StripIsAlnum(word);
  }

  /** With a case-closed stop set, no output token is a stop word. */
  lemma CaseClosedNoStopWords(words: seq<string>, stop: set<string>)
    requires CaseClosed(stop)
    ensures forall k :: 0 <= k < |CleanTokens(words, stop)| ==> CleanTokens(words, stop)[k] !in stop
  {
    var out := CleanTokens(words, stop);
    var idx := KeptIndices(words, stop);
    OrderPreserved(words, stop);
    forall k | 0 <= k < |out|
      ensures out[k] !in stop
    {
      CaseClosedImage(words[idx[k]], stop);
    }
  }

  /** With a case-closed stop set, cleaning is idempotent. */
  lemma CaseClosedIdempotent(words: seq<string>, stop: set<string>)
    requires CaseClosed(stop)
    ensures CleanTokens(CleanTokens(words, stop), stop) == CleanTokens(words, stop)
  {
    CaseClosedNoStopWords(words, stop);
    IdempotentIff(words, stop);
  }
}
