# Language detection front end for CLD2, in Dafny

A model of `DetectLanguage`, the PHP class that sits in front of the CLD2 language detector. The
class has three parts:

- Construction. It refuses to be built when the CLD2 extension is not loaded and throws
  `ModuleCld2NotFound`.
- `normalizeText`. It cleans a text before detection: emails, links, symbols, digit words and
  repeated characters or punctuation become spaces, and the result is trimmed.
- `detect` and `detectOnlyMostProbably`:
  - `detect` returns nothing for a falsy text.
  - Otherwise it optionally normalises the text and asks the engine about it.
  - It turns an array answer into one `DetectionResult` and ranks the list with `usort`: higher
    probability first, and on equal probability a reliable result before an unreliable one.
  - `detectOnlyMostProbably` returns the head of that list, or `null`.

Modules:

- `Wrappers` holds `Option` (PHP `null`) and `Result` (a call that may throw).
- `Ranking` holds the `DetectionResult` record, the `usort` comparator, what "sorted" means for
  it, and an insertion sort `Rank` with its proofs. Two sorted permutations of one list agree,
  position by position, on probability and reliability. So the ranking is determined up to ties,
  whatever sort algorithm `usort` uses.
- `Normalization` models the six rewrites and `trim` over character sequences:
  - the email rule (line 122) and the ASCII digit-word rule (line 128) are generic token rewrites;
  - the repeated-character rule (line 130) and the repeated-punctuation rule (line 132) are
    generic run rewrites, each written both as the literal PCRE scan and as a run-by-run
    description, and proved equal;
  - `trim` uses PHP's default character set.
  - The link rule (line 124) and the symbol filter (line 126) are given functions, in a fixed
    place in the chain.
- `Detection` holds the class `DetectLanguage`. The engine is a function from the text to its
  answer. `Detect` also returns, as a ghost value, the text the engine was asked about (`None`
  when it was not asked), so the contracts can say what the engine saw.

Behaviour of `DetectLanguage` worth knowing:

- `normalizeText` is not idempotent: the space that line 130 puts in place of a run can extend
  a neighbouring run of spaces. `NormalizeTextIsNotIdempotent` shows one input: `"a   ----b"`
  normalises to `"a    b"`, and that normalises to `"a b"`. Line 130 leaves the three spaces
  alone, because the run is too short. It turns `----` into a fourth space, and a second pass then
  collapses the four spaces.
- Line 71 takes the probability as `language_probability / 100` with no clamping to [0, 1].
- Lines 66-72 map the engine's answer to at most one result, never to several.
- `usort` (line 75) is stable only from PHP 8.0 on, and the code does not rely on the order among
  tied results. The model therefore fixes only their keys (`SortedPermutationsAgree`).
- A truthy text that normalises to the empty string (for example `"   "`) is still sent to the
  engine: line 56 tests falsiness before line 63 normalises.

## Model

| member | source | states |
|---|---|---|
| Ranking.Compare | src/Cld2PhpLanguageDetection/DetectLanguage.php:77-95 | the comparator returns -1, 0 or 1. It returns -1 exactly when `a` has the higher probability, or the same probability and is the only reliable one, and 1 in the mirror case. It returns 0 exactly when both probability and reliability are equal |
| Ranking.CompareIsConsistent | src/Cld2PhpLanguageDetection/DetectLanguage.php:77-95 | the comparator is antisymmetric and transitive, including strict-then-weak chains |
| Ranking.SortedMeansMostProbableFirst | src/Cld2PhpLanguageDetection/DetectLanguage.php:75-96 | along a list sorted by the comparator, probability never increases, and among equal probabilities a reliable result never follows an unreliable one |
| Ranking.Insert | src/Cld2PhpLanguageDetection/DetectLanguage.php:75-96 | inserting into a sorted list gives a sorted list holding exactly the old elements plus the new one |
| Ranking.Rank | src/Cld2PhpLanguageDetection/DetectLanguage.php:75-96 | the `usort` call: the output is sorted by the comparator and is a permutation of the input |
| Ranking.ShortListPermutationIsItself | src/Cld2PhpLanguageDetection/DetectLanguage.php:60-96 | a list of at most one result, as `detect` builds, is left exactly as it is by ranking |
| Ranking.SortedPermutationsAgree | src/Cld2PhpLanguageDetection/DetectLanguage.php:75-96 | two sorted permutations of one list have the same length and, position by position, the same probability and reliability. So re-ranking a ranked list leaves every key in place |
| Normalization.TokenLength | src/Cld2PhpLanguageDetection/DetectLanguage.php:122-128 | the token at the front of a text is non-empty, fits in the text and is not followed by a token character. Tokens are whitespace-delimited for the email rule and word-character-delimited for the digit rule |
| Normalization.TokenLengthSpansToken | src/Cld2PhpLanguageDetection/DetectLanguage.php:122-128 | every character of the front token is a token character, so the token is the longest such prefix |
| Normalization.TokenLengthUnique | src/Cld2PhpLanguageDetection/DetectLanguage.php:122-128 | a prefix of token characters that no token character follows is the front token |
| Normalization.RewriteTokens | src/Cld2PhpLanguageDetection/DetectLanguage.php:122-128 | the token rewrite never lengthens the text and copies a leading separator unchanged |
| Normalization.RewriteTokensClears | src/Cld2PhpLanguageDetection/DetectLanguage.php:122-128 | after line 122 no email-shaped token is left (a non-space run with an `@` after its first character, then a `.` at least two characters later with at least one character after it), and after line 128 no letters-digits-letters word is left |
| Normalization.RewriteTokensKeepsClean | src/Cld2PhpLanguageDetection/DetectLanguage.php:122-128 | a text with no removable token passes the rule unchanged |
| Normalization.RewriteTokensFixpoint | src/Cld2PhpLanguageDetection/DetectLanguage.php:122-128 | a text is a fixpoint of a token rule exactly when it has no removable token, so each token rule is idempotent on its own |
| Normalization.SpaceSeparates | src/Cld2PhpLanguageDetection/DetectLanguage.php:122-128 | the replacement space belongs to no token, so a replacement cannot join two tokens |
| Normalization.RunLength | src/Cld2PhpLanguageDetection/DetectLanguage.php:130 | the run at the front of a text is the longest prefix of copies of its first character |
| Normalization.CollapseRuns | src/Cld2PhpLanguageDetection/DetectLanguage.php:130-132 | the PCRE scan of a run rule never lengthens the text |
| Normalization.CollapseMaximalRuns | src/Cld2PhpLanguageDetection/DetectLanguage.php:130-132 | the run-by-run reading of the rule: each output starts with a space or with the input's first character |
| Normalization.CollapseRunsCopiesShortRun | src/Cld2PhpLanguageDetection/DetectLanguage.php:130-132 | scanning a run too short to match, or of an ineligible character, copies the whole run and goes on after it |
| Normalization.CollapseRunsIsRunWise | src/Cld2PhpLanguageDetection/DetectLanguage.php:130-132 | the scan equals the run-by-run reading on every input. Every maximal run of at least 4 of one ASCII non-alphanumeric character (line 130), or of at least 2 of one character of `.,!?'"%[]{}();:\|\+=` (line 132), becomes one space, and everything else is kept |
| Normalization.CollapseRunsLeavesNoLongRun | src/Cld2PhpLanguageDetection/DetectLanguage.php:130-132 | after a run rule, no run of its minimum length of one eligible character remains, except runs of spaces |
| Normalization.NoRepeatedPunctuationLeft | src/Cld2PhpLanguageDetection/DetectLanguage.php:132 | after line 132, no two equal characters of its punctuation class stand side by side |
| Normalization.TrimLeft | src/Cld2PhpLanguageDetection/DetectLanguage.php:134 | stripping the front leaves a suffix. Every removed character is a trim space, and the result does not start with one |
| Normalization.TrimRight | src/Cld2PhpLanguageDetection/DetectLanguage.php:134 | stripping the back leaves a prefix. Every removed character is a trim space, and the result does not end with one |
| Normalization.Trim | src/Cld2PhpLanguageDetection/DetectLanguage.php:134 | `trim` with the set space, tab, newline, return, NUL and vertical tab: the result neither starts nor ends with one of them, and `trim` returns its input exactly when the input has none at either end |
| Normalization.TrimIsSlice | src/Cld2PhpLanguageDetection/DetectLanguage.php:134 | `trim` keeps one contiguous slice of its input |
| Normalization.TrimStripsOnlySpaces | src/Cld2PhpLanguageDetection/DetectLanguage.php:134 | every character `trim` strips before or after the kept slice is a trim space |
| Normalization.TrimIdempotent | src/Cld2PhpLanguageDetection/DetectLanguage.php:134 | trimming twice is trimming once |
| Normalization.NormalizeText | src/Cld2PhpLanguageDetection/DetectLanguage.php:119-135 | the normalised text neither starts nor ends with a trim space, and trimming it again changes nothing |
| Normalization.TrimKeepsNoAdjacentRepeatedPunctuation | src/Cld2PhpLanguageDetection/DetectLanguage.php:132-134 | `trim` cannot bring two equal punctuation characters together |
| Normalization.NormalizedHasNoRepeatedPunctuation | src/Cld2PhpLanguageDetection/DetectLanguage.php:119-135 | the normalised text has no two equal adjacent characters of line 132's punctuation class |
| Normalization.NoMarkNoRemovableToken | src/Cld2PhpLanguageDetection/DetectLanguage.php:122-128 | a text with no character that every removable token must contain has no removable token |
| Normalization.NoAtSignNoEmail | src/Cld2PhpLanguageDetection/DetectLanguage.php:122 | a text without `@` passes the email rule unchanged |
| Normalization.NoDigitNoDigitWord | src/Cld2PhpLanguageDetection/DetectLanguage.php:128 | a text without an ASCII digit passes the digit rule unchanged |
| Normalization.NoEligibleNoCollapse | src/Cld2PhpLanguageDetection/DetectLanguage.php:130-132 | a text without an eligible character passes a run rule unchanged |
| Normalization.NormalizeTextIsNotIdempotent | src/Cld2PhpLanguageDetection/DetectLanguage.php:119-135 | when the link and symbol stages leave the texts alone, `"a   ----b"` normalises to `"a    b"` and that normalises to `"a b"` |
| Normalization.ExampleFirstCollapse | src/Cld2PhpLanguageDetection/DetectLanguage.php:130 | line 130 turns `"a   ----b"` into `"a    b"` |
| Normalization.ExampleSecondCollapse | src/Cld2PhpLanguageDetection/DetectLanguage.php:130 | line 130 turns `"a    b"` into `"a b"` |
| Detection.DetectLanguage.Create | src/Cld2PhpLanguageDetection/DetectLanguage.php:20-28 | construction succeeds exactly when the extension is loaded, and then holds the given engine. Otherwise it fails with `ModuleCld2NotFound("CLD2 extension not installed.")` |
| Detection.DetectLanguage.PrepareText | src/Cld2PhpLanguageDetection/DetectLanguage.php:62-64 | the text is replaced by `normalizeText` of it exactly when the flag is set |
| Detection.DetectLanguage.AskAndRank | src/Cld2PhpLanguageDetection/DetectLanguage.php:60-98 | the result is the one-element list built from an array answer, or the empty list otherwise, and it is sorted |
| Detection.DetectLanguage.Detect | src/Cld2PhpLanguageDetection/DetectLanguage.php:54-99 | a falsy text (`null`, `""`, `"0"`) gives `[]` and the engine is not asked. Otherwise the engine sees the normalised text when the flag is set and the original text when it is not; the flag defaults to `true`. The result has at most one element, it is non-empty exactly when the answer is an array, its element copies code, name, reliability and percentage from the answer, and it is sorted |
| Detection.DetectLanguage.DetectOnlyMostProbably | src/Cld2PhpLanguageDetection/DetectLanguage.php:107-112 | returns element 0 of `detect`'s result for the same flag (default `true`), or `null` when that result is empty. It is non-null exactly when the engine was asked and answered with an array, and it is then the result built from that answer |

## Left out

- The CLD2 extension itself, `new CLD2Detector()` and `setEncodingHint(UTF8)`. The engine is a given
  function from the text to its answer.
- `class_exists('\CLD2Detector')` is the `extensionLoaded` flag of `Create`. A Dafny constructor
  cannot fail, so the throwing constructor is the static method `Create`, which returns a
  `Result`.
- The link rule (line 124) and the symbol filter (line 126) are given functions. Their meaning
  rests on PCRE internals: case-insensitive lazy matching with an alternation of terminators, and
  Unicode POSIX-class tables in `u` mode.
- Normalization.NormalizeText: the `null` that `preg_replace` returns when PCRE hits its
  backtrack or JIT-stack limit, on any of lines 122-132, is not modelled. The rest of the chain
  would read that `null` as `""`. Each rule is modelled as always completing.
- The `null` that `preg_replace` returns on invalid UTF-8 (line 126) is not modelled. The text is a
  sequence of valid characters, and the rules are read at character level. For valid UTF-8 this
  agrees with PCRE's byte-level matching for lines 122, 128, 130 and 132.
- The digit rule (line 128) is ASCII-only, as PCRE is without the `u` flag.
- Detection.DetectLanguage.Detect: the probability is kept as the integer percentage rather than
  PHP's float `percentage / 100`. Dividing every value by 100 keeps their order, so the ranking is
  the same.
- Detection.IsFalsy: only `null` and strings are modelled as `$text`. PHP's other falsy values
  (`0`, `0.0`, `false`, `[]`) are not.
- Detection.Response: an array answer is assumed to hold all four keys. A missing key, which PHP
  would read as `null` with a notice, is not modelled.
- `usort`'s order among tied results is not modelled, because PHP before 8.0 does not keep it
  stable. `Rank` is one sort that meets `usort`'s contract, and `SortedPermutationsAgree` shows
  that every such sort gives the same keys.
- The protected `$text` field, which the class declares and never uses.
- src/Cld2PhpLanguageDetection/Cld2/CLD2Detector.php is only an IDE stub with no behaviour.
  The command-line example `detecting-language.php` is glue that prints the result.
- `DetectionResult.php` is not part of this model. Its setters and getters are the fields of
  the `Ranking.DetectionResult` datatype.
