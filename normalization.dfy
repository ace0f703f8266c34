/** `DetectLanguage::normalizeText`: six `preg_replace` rewrites in a fixed order, then `trim`.
    Text is a sequence of Unicode characters. PCRE runs the patterns without the `u` flag on the
    UTF-8 bytes, except the symbol filter; for valid UTF-8 the byte-level and character-level
    readings agree, because every byte of a multi-byte character is at least 0x80, which PCRE's
    default tables count as neither space, word character nor alphanumeric, and no four identical
    such bytes can follow one another. */
module Normalization {

  // ---------------------------------------------------------------------------------------------
  // Character classes

  /** `\s` in PCRE's default tables: space, tab, line feed, vertical tab, form feed, return. */
  predicate IsPcreSpace(c: char)
  {
    c == ' ' || 9 <= c as int <= 13
  }

  predicate IsAsciiLetter(c: char)
  {
    'a' <= c <= 'z' || 'A' <= c <= 'Z'
  }

  predicate IsAsciiDigit(c: char)
  {
    '0' <= c <= '9'
  }

  /** `[:alnum:]` without the `u` flag. */
  predicate IsAsciiAlnum(c: char)
  {
    IsAsciiLetter(c) || IsAsciiDigit(c)
  }

  /** `\w` without the `u` flag; the boundary `\b` lies between a word and a non-word character. */
  predicate IsAsciiWord(c: char)
  {
    IsAsciiAlnum(c) || c == '_'
  }

  /** The class `[.,!?'"%\[\]{}();:|\\+=]` of the repeated-punctuation rule. */
  predicate IsRepeatablePunctuation(c: char)
  {
    || c == '.' || c == ',' || c == '!' || c == '?' || c == '\'' || c == '"' || c == '%'
    || c == '[' || c == ']' || c == '{' || c == '}' || c == '(' || c == ')'
    || c == ';' || c == ':' || c == '|' || c == '\\' || c == '+' || c == '='
  }

  /** The characters PHP's `trim` strips by default: space, `\t`, `\n`, `\r`, `\0` and `\x0B`. */
  predicate IsTrimSpace(c: char)
  {
    c == ' ' || c == '\t' || c == '\n' || c == '\r' || c == '\0' || c as int == 0x0B
  }

  // ---------------------------------------------------------------------------------------------
  // Token rules: the email rule and the digit rule

  /** `tok` has an `@` at `a` after at least one character, and a `.` at `d` with at least one
      character between them and at least one after it. */
  predicate AtThenDot(tok: string, a: int, d: int)
  {
    0 < a && a + 1 < d && d + 1 < |tok| && tok[a] == '@' && tok[d] == '.'
  }

  /** A token (no spaces) matches `\S+@\S+\.\S+` as a whole. */
  predicate EmailShaped(tok: string)
  {
    exists a, d | 0 < a < |tok| && 0 < d < |tok| :: AtThenDot(tok, a, d)
  }

  /** `tok` splits at `i` and `j` into letters, at least one digit, and letters. */
  predicate LettersDigitsLetters(tok: string, i: int, j: int)
  {
    && 0 <= i < j <= |tok|
    && (forall k | 0 <= k < i :: IsAsciiLetter(tok[k]))
    && (forall k | i <= k < j :: IsAsciiDigit(tok[k]))
    && (forall k | j <= k < |tok| :: IsAsciiLetter(tok[k]))
  }

  /** A word token matches `[a-zA-Z]*?[0-9]+[a-zA-Z]*?` as a whole. */
  predicate DigitShaped(tok: string)
  {
    exists i, j | 0 <= i < j <= |tok| :: LettersDigitsLetters(tok, i, j)
  }

  /** The two rewrites whose matches are whole tokens, each replaced by one space.

      Line 122, `/\S+@\S+\.\S+/`: a match cannot cross a space; started at the first character of a
      whitespace-delimited token, greedy backtracking succeeds exactly when the token is
      email-shaped and then ends at the token's end; started later in a token it can only succeed
      if it also succeeds from the token's start. So the matches are the email-shaped tokens.

      Line 128, `/\b[a-zA-Z]*?[0-9]+[a-zA-Z]*?\b/`: a match starts at a word boundary, holds only
      word characters and ends at a boundary, so it is a whole maximal run of word characters; the
      boundary at a token's end cannot start one (no digit follows it). So the matches are
      the word tokens of the shape letters, digits, letters. */
  datatype TokenRule = EmailRule | DigitRule
  {
    /** The characters tokens are made of; a space never is one. */
    predicate InToken(c: char)
    {
      match this
      case EmailRule => !IsPcreSpace(c)
      case DigitRule => IsAsciiWord(c)
    }

    /** The tokens the pattern matches. */
    predicate Removes(tok: string)
    {
      match this
      case EmailRule => EmailShaped(tok)
      case DigitRule => DigitShaped(tok)
    }
  }

  /** Length of the maximal token at the front of `s`. */
  function TokenLength(rule: TokenRule, s: string): (n: nat)
    requires s != [] && rule.InToken(s[0])
    ensures 1 <= n <= |s|
    ensures n < |s| ==> !rule.InToken(s[n])
  {
    if |s| == 1 || !rule.InToken(s[1]) then 1 else 1 + TokenLength(rule, s[1..])
  }

  /** Every character of the front token belongs to tokens. */
  lemma {:induction false} TokenLengthSpansToken(rule: TokenRule, s: string)
    requires s != [] && rule.InToken(s[0])
    ensures forall k :: 0 <= k < TokenLength(rule, s) ==> rule.InToken(s[k])
    decreases |s|
  {
    if |s| > 1 && rule.InToken(s[1]) {
      TokenLengthSpansToken(rule, s[1..]);
      forall k | 1 <= k < TokenLength(rule, s) ensures rule.InToken(s[k]) {
        assert s[k] == s[1..][k - 1];
      }
    }
  }

  /** `preg_replace(pattern, ' ', s)` for a token rule: each matching token becomes one space,
      everything else is copied. */
  function RewriteTokens(rule: TokenRule, s: string): (r: string)
    ensures |r| <= |s|
    ensures s != [] && !rule.InToken(s[0]) ==> r != [] && r[0] == s[0]
    decreases |s|
  {
    if s == [] then
      []
    else if !rule.InToken(s[0]) then
      [s[0]] + RewriteTokens(rule, s[1..])
    else
      var n := TokenLength(rule, s);
      (if rule.Removes(s[..n]) then " " else s[..n]) + RewriteTokens(rule, s[n..])
  }

  /** No whitespace- or boundary-delimited token of `s` is one the rule removes. */
  predicate NoRemovableToken(rule: TokenRule, s: string)
    decreases |s|
  {
    if s == [] then
      true
    else if !rule.InToken(s[0]) then
      NoRemovableToken(rule, s[1..])
    else
      var n := TokenLength(rule, s);
      !rule.Removes(s[..n]) && NoRemovableToken(rule, s[n..])
  }

  /** The front token is the only prefix made of token characters and not followed by one. */
  lemma {:induction false} TokenLengthUnique(rule: TokenRule, s: string, n: nat)
    requires 1 <= n <= |s|
    requires forall k :: 0 <= k < n ==> rule.InToken(s[k])
    requires n < |s| ==> !rule.InToken(s[n])
    ensures TokenLength(rule, s) == n
    decreases n
  {
    if n > 1 {
      var t := s[1..];
      assert forall k :: 0 <= k < n - 1 ==> t[k] == s[k + 1];
      TokenLengthUnique(rule, t, n - 1);
    }
  }

  /** A space is never part of a token, so the replacement cannot join two tokens. */
  lemma SpaceSeparates(rule: TokenRule)
    ensures !rule.InToken(' ')
  {
  }

  /** The rewrite leaves no token the rule would remove. */
  lemma {:induction false} RewriteTokensClears(rule: TokenRule, s: string)
    ensures NoRemovableToken(rule, RewriteTokens(rule, s))
    decreases |s|
  {
    if s == [] {
    } else if !rule.InToken(s[0]) {
      var out := RewriteTokens(rule, s);
      assert out == [s[0]] + RewriteTokens(rule, s[1..]);
      assert out[1..] == RewriteTokens(rule, s[1..]);
      RewriteTokensClears(rule, s[1..]);
    } else {
      var n := TokenLength(rule, s);
      var rest := RewriteTokens(rule, s[n..]);
      RewriteTokensClears(rule, s[n..]);
      var out := RewriteTokens(rule, s);
      if rule.Removes(s[..n]) {
        SpaceSeparates(rule);
        assert out == " " + rest;
        assert out[1..] == rest;
      } else {
        assert out == s[..n] + rest;
        assert rest == [] || !rule.InToken(rest[0]);
        TokenLengthSpansToken(rule, s);
        assert forall k :: 0 <= k < n ==> out[k] == s[k];
        TokenLengthUnique(rule, out, n);
        assert out[..n] == s[..n] && out[n..] == rest;
      }
    }
  }

  lemma {:induction false} RewriteTokensKeepsClean(rule: TokenRule, s: string)
    requires NoRemovableToken(rule, s)
    ensures RewriteTokens(rule, s) == s
    decreases |s|
  {
    if s == [] {
    } else if !rule.InToken(s[0]) {
      RewriteTokensKeepsClean(rule, s[1..]);
      RewriteTokensKeptSeparator(rule, s);
    } else {
      RewriteTokensKeepsClean(rule, s[TokenLength(rule, s)..]);
      RewriteTokensKeptToken(rule, s);
    }
  }

  /** One step of `RewriteTokens` over a separator, when the rest is left alone. */
  lemma RewriteTokensKeptSeparator(rule: TokenRule, s: string)
    requires s != [] && !rule.InToken(s[0]) && RewriteTokens(rule, s[1..]) == s[1..]
    ensures RewriteTokens(rule, s) == s
  {
    assert s == [s[0]] + s[1..];
  }

  /** One step of `RewriteTokens` over a token the rule keeps, when the rest is left alone. */
  lemma RewriteTokensKeptToken(rule: TokenRule, s: string)
    requires s != [] && rule.InToken(s[0]) && !rule.Removes(s[..TokenLength(rule, s)])
    requires RewriteTokens(rule, s[TokenLength(rule, s)..]) == s[TokenLength(rule, s)..]
    ensures RewriteTokens(rule, s) == s
  {
    var n := TokenLength(rule, s);
    assert s[..n] + s[n..] == s;
  }

  /** A text is left unchanged by a token rule exactly when it holds no token the rule removes;
      so applying the rule twice is the same as applying it once. */
  lemma RewriteTokensFixpoint(rule: TokenRule, s: string)
    ensures RewriteTokens(rule, s) == s <==> NoRemovableToken(rule, s)
    ensures RewriteTokens(rule, RewriteTokens(rule, s)) == RewriteTokens(rule, s)
  {
    RewriteTokensClears(rule, s);
    if NoRemovableToken(rule, s) {
      RewriteTokensKeepsClean(rule, s);
    }
    RewriteTokensKeepsClean(rule, RewriteTokens(rule, s));
  }

  // ---------------------------------------------------------------------------------------------
  // Run rules: the repeated-character rule and the repeated-punctuation rule

  /** The two rewrites that replace a run of one repeated character by one space.
      Line 130, `/([^[:alnum:]])\\1{3,}/`: a non-alphanumeric character followed by three or more
      copies of itself. Line 132: a character of the punctuation class followed by one or more
      copies. In both the greedy repetition takes the whole rest of the run. */
  datatype RunRule = RepeatedCharacter | RepeatedPunctuation
  {
    /** The characters whose runs the rule replaces. */
    predicate Eligible(c: char)
    {
      match this
      case RepeatedCharacter => c as int < 128 && !IsAsciiAlnum(c)
      case RepeatedPunctuation => IsRepeatablePunctuation(c)
    }

    /** The shortest run the pattern matches. */
    function MinRun(): nat
    {
      match this
      case RepeatedCharacter => 4
      case RepeatedPunctuation => 2
    }
  }

  /** The pattern of `rule` matches at the front of `s`. */
  predicate StartsRun(rule: RunRule, s: string)
    requires s != []
  {
    rule.Eligible(s[0]) && RunLength(s) >= rule.MinRun()
  }

  /** Length of the maximal run of `s[0]` at the front of `s`. */
  function RunLength(s: string): (n: nat)
    requires s != []
    ensures 1 <= n <= |s|
    ensures forall k :: 0 <= k < n ==> s[k] == s[0]
    ensures n < |s| ==> s[n] != s[0]
  {
    if |s| == 1 || s[1] != s[0] then 1 else 1 + RunLength(s[1..])
  }

  lemma RunLengthUnique(s: string, n: nat)
    requires 1 <= n <= |s|
    requires forall k :: 0 <= k < n ==> s[k] == s[0]
    requires n < |s| ==> s[n] != s[0]
    ensures RunLength(s) == n
  {
  }

  /** `preg_replace(pattern, ' ', s)` for a run rule, scanning as PCRE does: at each position the
      pattern is tried first; on a match the whole run becomes one space and the scan resumes after
      it, otherwise one character is copied and the scan moves on. */
  function CollapseRuns(rule: RunRule, s: string): (r: string)
    ensures |r| <= |s|
    decreases |s|
  {
    if s == [] then
      []
    else if StartsRun(rule, s) then
      " " + CollapseRuns(rule, s[RunLength(s)..])
    else
      [s[0]] + CollapseRuns(rule, s[1..])
  }

  /** The rule described run by run: every maximal run of an eligible character at least
      `MinRun()` long becomes one space, every other run is kept as it is. */
  function CollapseMaximalRuns(rule: RunRule, s: string): (r: string)
    ensures s != [] ==> r != [] && (r[0] == ' ' || r[0] == s[0])
    decreases |s|
  {
    if s == [] then
      []
    else
      var n := RunLength(s);
      (if StartsRun(rule, s) then " " else s[..n])
        + CollapseMaximalRuns(rule, s[n..])
  }

  /** A run longer than one character goes on in the rest of the text. */
  lemma RunLengthTail(s: string)
    requires s != [] && RunLength(s) > 1
    ensures |s| > 1 && s[1] == s[0] && RunLength(s[1..]) == RunLength(s) - 1
  {
  }

  /** Scanning a run too short to match copies it character by character. */
  lemma {:induction false} CollapseRunsCopiesShortRun(rule: RunRule, s: string)
    requires s != [] && !StartsRun(rule, s)
    ensures CollapseRuns(rule, s) == s[..RunLength(s)] + CollapseRuns(rule, s[RunLength(s)..])
    decreases |s|
  {
    var n := RunLength(s);
    var t := s[1..];
    assert CollapseRuns(rule, s) == [s[0]] + CollapseRuns(rule, t);
    if n > 1 {
      RunLengthTail(s);
      CollapseRunsCopiesShortRun(rule, t);
      assert t[n - 1..] == s[n..];
      assert [s[0]] + t[..n - 1] == s[..n];
    } else {
      assert s[..1] == [s[0]];
    }
  }

  /** The position-by-position scan and the run-by-run description agree on every input. */
  lemma {:induction false} CollapseRunsIsRunWise(rule: RunRule, s: string)
    ensures CollapseRuns(rule, s) == CollapseMaximalRuns(rule, s)
    decreases |s|
  {
    if s != [] {
      var n := RunLength(s);
      CollapseRunsIsRunWise(rule, s[n..]);
      if !StartsRun(rule, s) {
        CollapseRunsCopiesShortRun(rule, s);
      }
    }
  }

  /** `s` holds a run of `m` copies of `s[i]` starting at `i`. */
  predicate RunAt(s: string, i: int, m: nat)
  {
    0 <= i && i + m <= |s| && forall k | i <= k < i + m :: s[k] == s[i]
  }

  lemma RunAtShift(p: string, q: string, i: int, m: nat)
    requires RunAt(p + q, i, m) && i >= |p|
    ensures RunAt(q, i - |p|, m)
  {
    forall k | i - |p| <= k < i - |p| + m ensures q[k] == q[i - |p|] {
      assert q[k] == (p + q)[k + |p|];
    }
  }

  /** A kept run shorter than `m` cannot start a run of `m` equal characters unless the next piece
      begins with the same character. */
  lemma ShortRunCannotExtend(s: string, rest: string, i: int, m: nat)
    requires s != [] && RunLength(s) < m && 0 <= i < RunLength(s)
    requires RunAt(s[..RunLength(s)] + rest, i, m)
    ensures rest != [] && rest[0] == s[0]
  {
    var n := RunLength(s);
    var out := s[..n] + rest;
    assert out[i] == s[0];
    assert out[n] == out[i];
  }

  lemma {:induction false} MaximalRunsLeaveNoLongRun(rule: RunRule, s: string, i: int)
    requires rule.MinRun() >= 1
    requires RunAt(CollapseMaximalRuns(rule, s), i, rule.MinRun())
    ensures !rule.Eligible(CollapseMaximalRuns(rule, s)[i]) || CollapseMaximalRuns(rule, s)[i] == ' '
    decreases |s|
  {
    var n := RunLength(s);
    var piece := if StartsRun(rule, s) then " " else s[..n];
    var rest := CollapseMaximalRuns(rule, s[n..]);
    assert CollapseMaximalRuns(rule, s) == piece + rest;
    if i >= |piece| {
      RunAtShift(piece, rest, i, rule.MinRun());
      MaximalRunsLeaveNoLongRun(rule, s[n..], i - |piece|);
      assert (piece + rest)[i] == rest[i - |piece|];
    } else if piece != " " && rule.Eligible(s[0]) {
      // An eligible run was kept, so it is shorter than MinRun(); the run at `i` would have to
      // continue into `rest`, which starts with a space or with a different character.
      ShortRunCannotExtend(s, rest, i, rule.MinRun());
      assert (piece + rest)[i] == s[0];
    }
  }

  /** After a run rule no run of `MinRun()` copies of an eligible character is left, except runs of
      spaces: a space is itself eligible for line 130, and its replacement space can extend a run
      of spaces that was too short to match. */
  lemma CollapseRunsLeavesNoLongRun(rule: RunRule, s: string)
    ensures forall i :: RunAt(CollapseRuns(rule, s), i, rule.MinRun()) ==>
              !rule.Eligible(CollapseRuns(rule, s)[i]) || CollapseRuns(rule, s)[i] == ' '
  {
    CollapseRunsIsRunWise(rule, s);
    forall i | RunAt(CollapseRuns(rule, s), i, rule.MinRun())
      ensures !rule.Eligible(CollapseRuns(rule, s)[i]) || CollapseRuns(rule, s)[i] == ' '
    {
      MaximalRunsLeaveNoLongRun(rule, s, i);
    }
  }

  /** No two equal punctuation characters of line 132's class stand side by side. */
  predicate NoAdjacentRepeatedPunctuation(s: string)
  {
    forall i :: 0 <= i < |s| - 1 ==> (IsRepeatablePunctuation(s[i]) ==> s[i + 1] != s[i])
  }

  /** After line 132 no two equal punctuation characters of its class stand side by side. */
  lemma NoRepeatedPunctuationLeft(s: string)
    ensures NoAdjacentRepeatedPunctuation(CollapseRuns(RepeatedPunctuation, s))
  {
    CollapseRunsLeavesNoLongRun(RepeatedPunctuation, s);
  }

  // ---------------------------------------------------------------------------------------------
  // trim

  /** Strips trim-space characters from the front: what remains is a suffix. */
  function TrimLeft(s: string): (r: string)
    ensures |r| <= |s| && r == s[|s| - |r|..]
    ensures forall k :: 0 <= k < |s| - |r| ==> IsTrimSpace(s[k])
    ensures r == [] || !IsTrimSpace(r[0])
  {
    if s != [] && IsTrimSpace(s[0]) then TrimLeft(s[1..]) else s
  }

  /** Strips trim-space characters from the back: what remains is a prefix. */
  function TrimRight(s: string): (r: string)
    ensures |r| <= |s| && r == s[..|r|]
    ensures forall k :: |r| <= k < |s| ==> IsTrimSpace(s[k])
    ensures r == [] || !IsTrimSpace(r[|r| - 1])
  {
    if s != [] && IsTrimSpace(s[|s| - 1]) then TrimRight(s[..|s| - 1]) else s
  }

  /** PHP's `trim` with its default character set (line 134). */
  function Trim(s: string): (r: string)
    ensures r == [] || (!IsTrimSpace(r[0]) && !IsTrimSpace(r[|r| - 1]))
    ensures r == s <==> (s == [] || (!IsTrimSpace(s[0]) && !IsTrimSpace(s[|s| - 1])))
  {
    var t := TrimLeft(s);
    assert t != [] ==> TrimRight(t) == [] || TrimRight(t)[0] == t[0];
    TrimRight(t)
  }

  /** How many characters `trim` strips from the front. */
  function TrimOffset(s: string): (n: nat)
    ensures n <= |s|
  {
    |s| - |TrimLeft(s)|
  }

  /** `trim` keeps one contiguous piece of its input. */
  lemma TrimIsSlice(s: string)
    ensures TrimOffset(s) + |Trim(s)| <= |s|
    ensures Trim(s) == s[TrimOffset(s)..TrimOffset(s) + |Trim(s)|]
  {
    var t := TrimLeft(s);
    var i := |s| - |t|;
    var r := TrimRight(t);
    assert t == s[i..];
    assert r == t[..|r|];
  }

  /** Around the piece it keeps, `trim` strips only trim-space characters. */
  lemma TrimStripsOnlySpaces(s: string)
    ensures forall k :: 0 <= k < TrimOffset(s) ==> IsTrimSpace(s[k])
    ensures forall k :: TrimOffset(s) + |Trim(s)| <= k < |s| ==> IsTrimSpace(s[k])
  {
    var t := TrimLeft(s);
    var i := |s| - |t|;
    var r := TrimRight(t);
    assert t == s[i..];
    forall k | i + |r| <= k < |s| ensures IsTrimSpace(s[k]) {
      assert s[k] == t[k - i];
    }
  }

  /** Trimming twice is trimming once. */
  lemma TrimIdempotent(s: string)
    ensures Trim(Trim(s)) == Trim(s)
  {
  }

  // ---------------------------------------------------------------------------------------------
  // The pipeline

  /** The two rewrites modelled as given functions, because their meaning rests on PCRE's own
      machinery: the link pattern of line 124 (case-insensitive, lazy quantifiers, an alternation
      of terminators) and the symbol filter of line 126 (POSIX classes read through Unicode
      properties in `u` mode; on invalid UTF-8 `preg_replace` returns null, which the next call
      reads as the empty string). */
  datatype PcreStages = PcreStages(removeLinks: string -> string, removeSymbols: string -> string)

  /** `normalizeText` (lines 119-135): the six rewrites in their fixed order, then `trim`. */
  function NormalizeText(text: string, pcre: PcreStages): (r: string)
    ensures r == [] || (!IsTrimSpace(r[0]) && !IsTrimSpace(r[|r| - 1]))
    ensures Trim(r) == r
  {
    var noEmails := RewriteTokens(EmailRule, text);
    var noLinks := pcre.removeLinks(noEmails);
    var noSymbols := pcre.removeSymbols(noLinks);
    var noDigitWords := RewriteTokens(DigitRule, noSymbols);
    var noRepeats := CollapseRuns(RepeatedCharacter, noDigitWords);
    var noRepeatedPunctuation := CollapseRuns(RepeatedPunctuation, noRepeats);
    Trim(noRepeatedPunctuation)
  }

  /** A piece of a text cannot bring two of its characters together. */
  lemma SliceKeepsNoAdjacentRepeatedPunctuation(s: string, lo: int, hi: int)
    requires NoAdjacentRepeatedPunctuation(s) && 0 <= lo <= hi <= |s|
    ensures NoAdjacentRepeatedPunctuation(s[lo..hi])
  {
    var r := s[lo..hi];
    forall i | 0 <= i < |r| - 1 && IsRepeatablePunctuation(r[i]) ensures r[i + 1] != r[i] {
      assert r[i] == s[lo + i] && r[i + 1] == s[lo + i + 1];
    }
  }

  /** `trim` keeps a piece of its input, so it cannot bring two characters together. */
  lemma TrimKeepsNoAdjacentRepeatedPunctuation(s: string)
    requires NoAdjacentRepeatedPunctuation(s)
    ensures NoAdjacentRepeatedPunctuation(Trim(s))
  {
    TrimIsSlice(s);
    SliceKeepsNoAdjacentRepeatedPunctuation(s, TrimOffset(s), TrimOffset(s) + |Trim(s)|);
  }

  /** The last rewrite's guarantee survives `trim`: the normalised text never holds two equal
      punctuation characters of line 132's class side by side. */
  lemma NormalizedHasNoRepeatedPunctuation(text: string, pcre: PcreStages)
    ensures NoAdjacentRepeatedPunctuation(NormalizeText(text, pcre))
  {
    var noSymbols := pcre.removeSymbols(pcre.removeLinks(RewriteTokens(EmailRule, text)));
    var noRepeats := CollapseRuns(RepeatedCharacter, RewriteTokens(DigitRule, noSymbols));
    NoRepeatedPunctuationLeft(noRepeats);
    TrimKeepsNoAdjacentRepeatedPunctuation(CollapseRuns(RepeatedPunctuation, noRepeats));
  }

  // ---------------------------------------------------------------------------------------------
  // What passes a rule untouched

  /** `s` holds some character of `marks`. */
  predicate Mentions(s: string, marks: char -> bool)
  {
    exists k | 0 <= k < |s| :: marks(s[k])
  }

  /** If every token the rule removes holds one of `marks`, a text holding none of them has no
      token the rule removes. */
  lemma {:induction false} NoMarkNoRemovableToken(rule: TokenRule, s: string, marks: char -> bool)
    requires forall tok: string :: rule.Removes(tok) ==> Mentions(tok, marks)
    requires !Mentions(s, marks)
    ensures NoRemovableToken(rule, s)
    decreases |s|
  {
    if s != [] {
      if !rule.InToken(s[0]) {
        assert !Mentions(s[1..], marks) by {
          forall k | 0 <= k < |s[1..]| ensures !marks(s[1..][k]) {
            assert s[1..][k] == s[k + 1];
          }
        }
        NoMarkNoRemovableToken(rule, s[1..], marks);
      } else {
        var n := TokenLength(rule, s);
        assert !Mentions(s[..n], marks) by {
          forall k | 0 <= k < n ensures !marks(s[..n][k]) {
            assert s[..n][k] == s[k];
          }
        }
        assert !Mentions(s[n..], marks) by {
          forall k | 0 <= k < |s| - n ensures !marks(s[n..][k]) {
            assert s[n..][k] == s[n + k];
          }
        }
        NoMarkNoRemovableToken(rule, s[n..], marks);
      }
    }
  }

  /** Text without an `@` passes the email rule unchanged. */
  lemma NoAtSignNoEmail(s: string)
    requires '@' !in s
    ensures RewriteTokens(EmailRule, s) == s
  {
    var isAt := (c: char) => c == '@';
    forall tok: string | EmailRule.Removes(tok) ensures Mentions(tok, isAt) {
      var a, d :| 0 < a < |tok| && 0 < d < |tok| && AtThenDot(tok, a, d);
      assert isAt(tok[a]);
    }
    assert !Mentions(s, isAt) by {
      forall k | 0 <= k < |s| ensures !isAt(s[k]) {
        assert s[k] in s;
      }
    }
    NoMarkNoRemovableToken(EmailRule, s, isAt);
    RewriteTokensFixpoint(EmailRule, s);
  }

  /** Text without an ASCII digit passes the digit rule unchanged. */
  lemma NoDigitNoDigitWord(s: string)
    requires forall k :: 0 <= k < |s| ==> !IsAsciiDigit(s[k])
    ensures RewriteTokens(DigitRule, s) == s
  {
    var isDigit := (c: char) => IsAsciiDigit(c);
    forall tok: string | DigitRule.Removes(tok) ensures Mentions(tok, isDigit) {
      var i, j :| 0 <= i < j <= |tok| && LettersDigitsLetters(tok, i, j);
      assert isDigit(tok[i]);
    }
    NoMarkNoRemovableToken(DigitRule, s, isDigit);
    RewriteTokensFixpoint(DigitRule, s);
  }

  /** Text without an eligible character passes a run rule unchanged. */
  lemma {:induction false} NoEligibleNoCollapse(rule: RunRule, s: string)
    requires forall k :: 0 <= k < |s| ==> !rule.Eligible(s[k])
    ensures CollapseRuns(rule, s) == s
    decreases |s|
  {
    if s != [] {
      NoEligibleNoCollapse(rule, s[1..]);
      assert s == [s[0]] + s[1..];
    }
  }

  // ---------------------------------------------------------------------------------------------
  // Normalising twice

  /** `normalizeText` is not idempotent. Line 130 leaves three spaces alone (the run is too short)
      and turns the following `----` into a fourth space; a second pass then collapses the four
      spaces into one. The two given stages are taken to leave these texts alone, as the real
      patterns do: neither holds a link or a non-ASCII character. */
  lemma NormalizeTextIsNotIdempotent(pcre: PcreStages)
    requires pcre.removeLinks("a   ----b") == "a   ----b"
    requires pcre.removeSymbols("a   ----b") == "a   ----b"
    requires pcre.removeLinks("a    b") == "a    b"
    requires pcre.removeSymbols("a    b") == "a    b"
    ensures NormalizeText("a   ----b", pcre) == "a    b"
    ensures NormalizeText(NormalizeText("a   ----b", pcre), pcre) == "a b"
  {
    ExampleFirstPass(pcre);
    ExampleSecondPass(pcre);
  }

  lemma ExampleFirstPass(pcre: PcreStages)
    requires pcre.removeLinks("a   ----b") == "a   ----b"
    requires pcre.removeSymbols("a   ----b") == "a   ----b"
    ensures NormalizeText("a   ----b", pcre) == "a    b"
  {
    ExampleFirstTokens();
    ExampleFirstCollapse();
    ExampleFirstPunctuation();
  }

  lemma ExampleSecondPass(pcre: PcreStages)
    requires pcre.removeLinks("a    b") == "a    b"
    requires pcre.removeSymbols("a    b") == "a    b"
    ensures NormalizeText("a    b", pcre) == "a b"
  {
    ExampleSecondTokens();
    ExampleSecondCollapse();
    ExampleSecondPunctuation();
  }

  /** The three texts of the example, described character by character. */
  predicate IsFirstExample(s: string)
  {
    |s| == 9 && s[0] == 'a' && s[1] == ' ' && s[2] == ' ' && s[3] == ' ' &&
    s[4] == '-' && s[5] == '-' && s[6] == '-' && s[7] == '-' && s[8] == 'b'
  }

  predicate IsSecondExample(s: string)
  {
    |s| == 6 && s[0] == 'a' && s[1] == ' ' && s[2] == ' ' && s[3] == ' ' && s[4] == ' ' && s[5] == 'b'
  }

  predicate IsThirdExample(s: string)
  {
    |s| == 3 && s[0] == 'a' && s[1] == ' ' && s[2] == 'b'
  }

  lemma ExampleFirstTokens()
    ensures RewriteTokens(EmailRule, "a   ----b") == "a   ----b"
    ensures RewriteTokens(DigitRule, "a   ----b") == "a   ----b"
  {
    LettersAndMarksPassTokenRules("a   ----b");
  }

  lemma ExampleSecondTokens()
    ensures RewriteTokens(EmailRule, "a    b") == "a    b"
    ensures RewriteTokens(DigitRule, "a    b") == "a    b"
  {
    LettersAndMarksPassTokenRules("a    b");
  }

  lemma LettersAndMarksPassTokenRules(s: string)
    requires IsFirstExample(s) || IsSecondExample(s)
    ensures RewriteTokens(EmailRule, s) == s
    ensures RewriteTokens(DigitRule, s) == s
  {
    assert '@' !in s by {
      forall k | 0 <= k < |s| ensures s[k] != '@' {
      }
    }
    NoAtSignNoEmail(s);
    ExampleHasNoDigit(s);
  }

  lemma ExampleHasNoDigit(s: string)
    requires IsFirstExample(s) || IsSecondExample(s)
    ensures RewriteTokens(DigitRule, s) == s
  {
    NoDigitNoDigitWord(s);
  }

  lemma ExampleFirstPunctuation()
    ensures CollapseRuns(RepeatedPunctuation, "a    b") == "a    b"
    ensures Trim("a    b") == "a    b"
  {
    SpacedLettersAreFinal("a    b");
  }

  lemma ExampleSecondPunctuation()
    ensures CollapseRuns(RepeatedPunctuation, "a b") == "a b"
    ensures Trim("a b") == "a b"
  {
    SpacedLettersAreFinal("a b");
  }

  lemma SpacedLettersAreFinal(s: string)
    requires IsSecondExample(s) || IsThirdExample(s)
    ensures CollapseRuns(RepeatedPunctuation, s) == s
    ensures Trim(s) == s
  {
    NoEligibleNoCollapse(RepeatedPunctuation, s);
    SpacedLettersAreTrimmed(s);
  }

  lemma SpacedLettersAreTrimmed(s: string)
    requires IsSecondExample(s) || IsThirdExample(s)
    ensures Trim(s) == s
  {
    assert s[0] == 'a' && s[|s| - 1] == 'b';
  }

  /** A scan step that copies one character. */
  lemma CollapseRunsCopies(rule: RunRule, s: string)
    requires s != [] && !StartsRun(rule, s)
    ensures CollapseRuns(rule, s) == [s[0]] + CollapseRuns(rule, s[1..])
  {
  }

  /** A scan step that replaces a whole run. */
  lemma CollapseRunsReplaces(rule: RunRule, s: string)
    requires s != [] && StartsRun(rule, s)
    ensures CollapseRuns(rule, s) == " " + CollapseRuns(rule, s[RunLength(s)..])
  {
  }

  /** Line 130 on the first text: the scan copies `a` and the three spaces (too short a run),
      replaces `----` by a space and copies `b`. */
  lemma ExampleFirstCollapse()
    ensures CollapseRuns(RepeatedCharacter, "a   ----b") == "a    b"
  {
    FirstExampleCollapses("a   ----b", "a    b");
  }

  lemma FirstExampleCollapses(s: string, t: string)
    requires IsFirstExample(s) && IsSecondExample(t)
    ensures CollapseRuns(RepeatedCharacter, s) == t
  {
    var rc := RepeatedCharacter;
    var dashes := s[4..];
    assert dashes[1] == dashes[0] && dashes[2] == dashes[0] && dashes[3] == dashes[0];
    RunLengthUnique(dashes, 4);
    CollapseRunsReplaces(rc, dashes);
    assert dashes[4..] == [s[8]];
    CollapseRunsCopies(rc, [s[8]]);
    assert [s[8]][1..] == [];
    FirstExampleCopiesPrefix(s);
    assert t == s[..4] + " " + [s[8]];
  }

  /** The scan over the first text copies its first four characters one by one. */
  lemma FirstExampleCopiesPrefix(s: string)
    requires IsFirstExample(s)
    ensures CollapseRuns(RepeatedCharacter, s) == s[..4] + CollapseRuns(RepeatedCharacter, s[4..])
  {
    var rc := RepeatedCharacter;
    RunLengthUnique(s, 1);
    CollapseRunsCopies(rc, s);
    var spaces := s[1..];
    assert spaces[1] == spaces[0] && spaces[2] == spaces[0] && spaces[3] != spaces[0];
    RunLengthUnique(spaces, 3);
    CollapseRunsCopiesShortRun(rc, spaces);
    assert spaces[3..] == s[4..];
    assert [s[0]] + spaces[..3] == s[..4];
  }

  /** Line 130 on the second text: the four spaces now form a run long enough to match. */
  lemma ExampleSecondCollapse()
    ensures CollapseRuns(RepeatedCharacter, "a    b") == "a b"
  {
    SecondExampleCollapses("a    b", "a b");
  }

  lemma SecondExampleCollapses(s: string, t: string)
    requires IsSecondExample(s) && IsThirdExample(t)
    ensures CollapseRuns(RepeatedCharacter, s) == t
  {
    var rc := RepeatedCharacter;
    RunLengthUnique(s, 1);
    CollapseRunsCopies(rc, s);
    var spaces := s[1..];
    assert spaces[1] == spaces[0] && spaces[2] == spaces[0] && spaces[3] == spaces[0];
    RunLengthUnique(spaces, 4);
    CollapseRunsReplaces(rc, spaces);
    assert spaces[4..] == [s[5]];
    CollapseRunsCopies(rc, [s[5]]);
    assert [s[5]][1..] == [];
    assert t == [s[0]] + " " + [s[5]];
  }
}
