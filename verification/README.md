# Token cleaning for the bigram/trigram collocation script

The script `compute_scores.py` reads a plain-text corpus and builds the list
`all_words`, which it then hands to the collocation finders that score bigrams
and trigrams. This project models how that list is built. Each raw corpus word
goes through three steps:

1. Every character outside the class `[a-zA-Z0-9]` is deleted (`Strip`).
2. The word is dropped if the stripped result is empty, is in the stop-word
   set, or is made only of digits (`Keep`, with `IsAllDigits` standing for
   `isdigit`).
3. Otherwise its lowercase form is appended to the output (`Lower`, `Image`).

The raw word sequence and the stop-word set are parameters. `CleanTokens` is
the functional definition. It appends one word's contribution at a time, as
the loop does. `CleanTokensLoop` is the imperative loop, proved equal to it.

The modules are:

- `AsciiText`: the character classes, `Strip`, `Lower` and `IsAllDigits`,
  with their lemmas.
- `TokenCleaning`: the keep test, `CleanTokens`, the loops and the
  kept-position witness `KeptIndices`.
- `CleaningProperties`: lemmas about the whole output.

One might expect `all_words` to hold no stop words. The code does not
guarantee this: the stop-word lookup at line 18 is case-sensitive and runs on
the stripped word before `lower()` at line 20. So a
capitalised stop word such as `The` passes a lowercase stop list and is
emitted as `the`. The model follows the code. `StopTestIsCaseSensitive`
exhibits this case. `SecondPass` and `IdempotentIff` state the consequence:
running the cleaning again removes exactly the output tokens that are stop
words, and cleaning is idempotent exactly when there are none.
`CaseClosedNoStopWords` gives a condition on the stop set under which the output
is free of stop words.

## Model

| member | source | states |
|---|---|---|
| AsciiText.LowerChar | code/nltk-bigram-scores/compute_scores.py:20 | lowercasing one character yields no upper-case letter; an upper-case letter becomes the same letter in lower case; every other character is unchanged; letter/digit class membership is preserved |
| AsciiText.Strip | code/nltk-bigram-scores/compute_scores.py:10-16 | the regex substitution never lengthens a word |
| AsciiText.StripIsAlnum | code/nltk-bigram-scores/compute_scores.py:10-16 | after the substitution only ASCII letters and digits remain |
| AsciiText.StripMembers | code/nltk-bigram-scores/compute_scores.py:10-16 | a character is in the stripped word if and only if it is in the raw word and matches `[a-zA-Z0-9]` |
| AsciiText.StripFixedIff | code/nltk-bigram-scores/compute_scores.py:10-16 | the substitution leaves a word unchanged if and only if the word already consists of letters and digits only |
| AsciiText.StripConcat | code/nltk-bigram-scores/compute_scores.py:10-16 | the substitution works character by character: stripping a concatenation concatenates the stripped parts |
| AsciiText.StripIdempotent | code/nltk-bigram-scores/compute_scores.py:10-16 | stripping a stripped word changes nothing |
| AsciiText.Lower | code/nltk-bigram-scores/compute_scores.py:20 | `lower()` keeps the length and lowercases each character in place |
| AsciiText.LowerNormalises | code/nltk-bigram-scores/compute_scores.py:20 | a lowered word has no upper-case letter, and lowering changes a word if and only if it has one |
| AsciiText.LowerIdempotent | code/nltk-bigram-scores/compute_scores.py:20 | lowering twice is lowering once |
| AsciiText.LowerPreservesClasses | code/nltk-bigram-scores/compute_scores.py:18-20 | with `IsAllDigits` modelling `isdigit` (non-empty, every character a digit): a word is alphanumeric, and all digits, exactly when its lowercase form is; so a word rejected by `isdigit` stays rejected after `lower()` |
| TokenCleaning.ImageIsClean | code/nltk-bigram-scores/compute_scores.py:16-20 | the appended form of a kept word is non-empty, alphanumeric, has no upper-case letter and is not all digits |
| TokenCleaning.CleanTokens | code/nltk-bigram-scores/compute_scores.py:13-20 | the output is never longer than the input |
| TokenCleaning.TruePositions | code/nltk-bigram-scores/compute_scores.py:14-18 | the positions returned are in range and flagged, strictly increasing, and include every flagged position; over the keep flag of each raw word (`KeepFlags`, the line-18 test per word) they are the kept words' positions in input order |
| TokenCleaning.StripLoop | code/nltk-bigram-scores/compute_scores.py:10-16 | a left-to-right scan deleting non-alphanumeric characters computes the stripped word |
| TokenCleaning.CleanTokensLoop | code/nltk-bigram-scores/compute_scores.py:13-20 | the strip/test/append loop computes exactly the cleaned token list |
| CleaningProperties.CleanTokensAreClean | code/nltk-bigram-scores/compute_scores.py:13-20 | every output token is non-empty, ASCII letters and digits only, lowercase, and not all digits |
| CleaningProperties.SingleWord | code/nltk-bigram-scores/compute_scores.py:16-20 | fixes the meaning of the line-18 test `Keep`, of `Emit` (the `continue`/`append` step) and of `Image` (`word.lower()` of the stripped word): a raw word yields at most one token; it yields one if and only if `Keep` holds, which is exactly when its stripped form is non-empty, not a stop word and not all digits; that token is the stripped form lowercased |
| CleaningProperties.CleanTokensConcat | code/nltk-bigram-scores/compute_scores.py:14-20 | cleaning distributes over concatenation of word sequences |
| CleaningProperties.OrderPreserved | code/nltk-bigram-scores/compute_scores.py:13-20 | the output has one token per kept raw word, and its k-th token is the image of the k-th kept word; with the ordering of `TruePositions`, order is preserved and nothing is added |
| CleaningProperties.CleanTokensMembership | code/nltk-bigram-scores/compute_scores.py:13-20 | a token is in the output if and only if some kept raw word has it as image |
| CleaningProperties.CleanTokenIsFixed | code/nltk-bigram-scores/compute_scores.py:16-20 | an output-shaped token passes strip and lower unchanged, and the test keeps it exactly when it is not a stop word |
| CleaningProperties.CleaningCleanTokens | code/nltk-bigram-scores/compute_scores.py:13-20 | cleaning a list of output-shaped tokens only removes its stop words, in order |
| CleaningProperties.SecondPass | code/nltk-bigram-scores/compute_scores.py:18-20 | a second cleaning pass removes exactly the output tokens that are stop words |
| CleaningProperties.IdempotentIff | code/nltk-bigram-scores/compute_scores.py:18-20 | cleaning is idempotent on a word sequence if and only if no output token is a stop word |
| CleaningProperties.StopTestIsCaseSensitive | code/nltk-bigram-scores/compute_scores.py:18-20 | with stop set {"the"}, the word "The" is kept and emitted as "the", and a second pass drops it |
| CleaningProperties.CaseClosedImage | code/nltk-bigram-scores/compute_scores.py:18-20 | if the stop set holds every spelling of its members, a kept word's image is not a stop word |
| CleaningProperties.CaseClosedNoStopWords | code/nltk-bigram-scores/compute_scores.py:13-20 | if the stop set holds every spelling of its members, no output token is a stop word |
| CleaningProperties.CaseClosedIdempotent | code/nltk-bigram-scores/compute_scores.py:13-20 | if the stop set holds every spelling of its members, cleaning the output again returns it unchanged |

## Left out

- Corpus loading and tokenisation by the corpus reader (lines 2, 5 and 14): file I/O and library code. The word sequence is a parameter.
- Loading the English stop-word list (line 7): library data. The stop set is a parameter.
- The bigram and trigram collocation finders, `nbest`, `score_ngrams`, and the PMI and chi-square measures (lines 23-37). They are calls into library code that is not part of this model, and they use floating-point logarithms and divisions.
- All `print` statements (lines 4-5, 27, 30, 32, 37): output only.
- AsciiText.IsAllDigits: models `isdigit` for ASCII digits only. Python also counts other Unicode digits (superscripts, other scripts), but the test only ever sees stripped words, which are ASCII.
- AsciiText.Lower: models ASCII lowercasing only. Python's `lower()` also maps non-ASCII letters, but it only ever sees stripped words, which are ASCII.
