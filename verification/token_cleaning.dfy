/** The loop that builds the token list handed to the collocation finders:
    each raw word is stripped of everything outside [a-zA-Z0-9], dropped if the
    result is empty, a stop word or all digits, and otherwise appended in lower case.
    The raw word sequence and the stop-word set are parameters. */
module TokenCleaning {
  import opened AsciiText

  /** The keep test, applied to the stripped word. The stop-word lookup is
      case-sensitive and happens before lowercasing. */
  predicate Keep(word: string, stop: set<string>) {
    var w := Strip(word);
    !(w == "" || w in stop || IsAllDigits(w))
  }

  /** What a kept word contributes to the output. */
  function Image(word: string): string {
    Lower(Strip(word))
  }

  /** The shape of every output token: non-empty, ASCII letters and digits
      only, no upper-case letter, not made only of digits. */
  predicate IsCleanToken(t: string) {
    |t| > 0 && IsAlnumString(t) && HasNoUpper(t) && !IsAllDigits(t)
  }

  /** The contribution of one raw word: its image if kept, nothing otherwise. */
  function Emit(word: string, stop: set<string>): seq<string> {
    if Keep(word, stop) then [Image(word)] else []
  }

  lemma ImageIsClean(word: string, stop: set<string>)
    requires Keep(word, stop)
    ensures IsCleanToken(Image(word))
  {
    StripIsAlnum(word);
    LowerNormalises(Strip(word));
    LowerPreservesClasses(Strip(word));
  }

  /** The list of cleaned tokens, built by appending one raw word's
      contribution at a time, as the loop over the corpus does. */
  function CleanTokens(words: seq<string>, stop: set<string>): (out: seq<string>)
    ensures |out| <= |words|
  {
    if |words| == 0 then []
    else CleanTokens(words[..|words| - 1], stop) + Emit(words[|words| - 1], stop)
  }

  /** One flag per raw word: whether the keep test lets it through. */
  function KeepFlags(words: seq<string>, stop: set<string>): (flags: seq<bool>)
    ensures |flags| == |words|
    ensures forall i :: 0 <= i < |words| ==> flags[i] == Keep(words[i], stop)
  {
    seq(|words|, i requires 0 <= i < |words| => Keep(words[i], stop))
  }

  /** The positions of the set flags, in increasing order. */
  function TruePositions(flags: seq<bool>): (idx: seq<nat>)
    ensures forall k :: 0 <= k < |idx| ==> idx[k] < |flags| && flags[idx[k]]
    ensures forall k, l :: 0 <= k < l < |idx| ==> idx[k] < idx[l]
    ensures forall i :: 0 <= i < |flags| && flags[i] ==> i in idx
  {
    if |flags| == 0 then []
    else TruePositions(flags[..|flags| - 1]) + (if flags[|flags| - 1] then [|flags| - 1] else [])
  }

  /** The positions of the kept raw words, in increasing order. */
  function KeptIndices(words: seq<string>, stop: set<string>): seq<nat> {
    TruePositions(KeepFlags(words, stop))
  }

  /** Deletion of the non-alphanumeric characters by a left-to-right scan. */
  method StripLoop(s: string) returns (r: string)
    ensures r == Strip(s)
  {
    r := "";
    var i := 0;
    while i < |s|
      invariant 0 <= i <= |s|
      invariant r == Strip(s[..i])
    {
      StripConcat(s[..i], [s[i]]);
      assert s[..i + 1] == s[..i] + [s[i]];
      if IsAsciiAlnum(s[i]) {
        r := r + [s[i]];
      }
      i := i + 1;
    }
    assert s[..|s|] == s;
  }

  /** Appending one raw word appends exactly its contribution. */
  lemma CleanTokensSnoc(words: seq<string>, word: string, stop: set<string>)
    ensures CleanTokens(words + [word], stop) == CleanTokens(words, stop) + Emit(word, stop)
  {
    var next := words + [word];
    assert next[..|next| - 1] == words;
  }

  /** The keep test and the image, written in terms of the stripped word. */
  lemma EmitStripped(word: string, stripped: string, stop: set<string>)
    requires stripped == Strip(word)
    ensures Emit(word, stop) == if stripped == "" || stripped in stop || IsAllDigits(stripped) then [] else [Lower(stripped)]
  {
  }

  /** The filter/normalise loop over the corpus words. */
  method CleanTokensLoop(words: seq<string>, stop: set<string>) returns (allWords: seq<string>)
    ensures allWords == CleanTokens(words, stop)
  {
    allWords := [];
    var i := 0;
    assert words[..0] == [];
    while i < |words|
      invariant 0 <= i <= |words|
      invariant allWords == CleanTokens(words[..i], stop)
    {
      var word := StripLoop(words[i]);
      EmitStripped(words[i], word, stop);
      CleanTokensSnoc(words[..i], words[i], stop);
      if !(word == "" || word in stop || IsAllDigits(word)) {
        allWords := allWords + [Lower(word)];
      }
      assert words[..i + 1] == words[..i] + [words[i]];
      i := i + 1;
    }
    assert words[..|words|] == words;
  }
}
