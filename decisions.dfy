/** What one step of the scanner does, decided from the characters at the
    cursor: an independent reading of the ordered rule table, proved equal
    to the first-match-wins step. */
module Decisions {
  import opened Tokens
  import opened Rules
  import opened Scanner

  /** The first character of a keyword is a letter, so the keyword rule
      needs a letter under the cursor. */
  lemma KeywordNeedsLetter(s: string, pos: nat)
    requires pos <= |s|
    ensures MatchKeyword(s, pos).Some? ==> pos < |s| && IsLetter(s[pos])
  {
    var n := Run(s, pos, Word);
    KeywordIsWholeWord(s, pos);
    if MatchKeyword(s, pos).Some? {
      var w := s[pos..pos + n];
      assert w in KeywordAlternatives;
      assert w[0] == s[pos];
    }
  }

  /** When each of the rules can match, in terms of the character under
      the cursor (and the next one for the two comment forms). */
  lemma RuleTriggers(s: string, pos: nat)
    requires pos <= |s|
    ensures MatchCommentMulti(s, pos).Some? ==> pos + 1 < |s| && s[pos] == '/' && s[pos + 1] == '*'
    ensures MatchComment(s, pos).Some? <==> pos + 1 < |s| && s[pos] == '/' && s[pos + 1] == '/'
    ensures MatchKeyword(s, pos).Some? ==> pos < |s| && IsLetter(s[pos])
    ensures MatchIdentifier(s, pos).Some? <==> pos < |s| && IsLetter(s[pos])
    ensures MatchNumber(s, pos).Some? <==> pos < |s| && IsDigit(s[pos])
    ensures MatchString(s, pos).Some? ==> pos < |s| && s[pos] == '"'
    ensures MatchOperator(s, pos).Some? <==> TwoCharOperatorAt(s, pos) || (pos < |s| && IsOperatorChar(s[pos]))
  {
    StartsWithChars(s, pos, "/*");
    StartsWithChars(s, pos, "//");
    CommentSpec(s, pos);
    KeywordNeedsLetter(s, pos);
    IdentifierSpec(s, pos);
    NumberSpec(s, pos);
    OperatorSpec(s, pos);
  }

  /** The step read off the characters at the cursor, case by case. */
  function Decide(s: string, pos: nat): (l: Lexeme)
    requires pos < |s|
    ensures l.start == pos && 1 <= l.len && pos + l.len <= |s|
  {
    var c := s[pos];
    if BlockCommentAt(s, pos) then
      // a block comment runs to the nearest closing star-slash
      Lexeme(CommentMulti, pos, FindClose(s, pos + 2).value + 2 - pos)
    else if LineCommentAt(s, pos) then
      // a line comment runs to the line feed, which it leaves
      Lexeme(Comment, pos, 2 + Run(s, pos + 2, Dot))
    else if IsLetter(c) then
      // the whole word: a keyword unless glued to a preceding word character
      Lexeme(WordKind(s, pos), pos, Run(s, pos, Word))
    else if IsDigit(c) then
      // the digits, then a fraction when a dot is directly followed by a digit
      var n := Run(s, pos, Digit);
      if pos + n + 1 < |s| && s[pos + n] == '.' && IsDigit(s[pos + n + 1])
      then Lexeme(Number, pos, n + 1 + Run(s, pos + n + 1, Digit))
      else Lexeme(Number, pos, n)
    else if c == '"' then
      // a literal to the closing quote on the same line; else a lone quote
      var e := pos + 1 + Run(s, pos + 1, StringBody);
      if e < |s| && s[e] == '"' then Lexeme(Str, pos, e + 1 - pos) else Lexeme(Error, pos, 1)
    else DecideSymbol(s, pos)
  }

  /** A word is a keyword when it is a reserved word not glued to a
      preceding word character; otherwise an identifier. */
  function WordKind(s: string, pos: nat): Kind
    requires pos <= |s|
  {
    var n := Run(s, pos, Word);
    if !WordAt(s, pos - 1) && s[pos..pos + n] in KeywordAlternatives then Keyword else Identifier
  }

  /** A slash-star with a star-slash somewhere after it. */
  predicate BlockCommentAt(s: string, pos: nat)
    requires pos < |s|
  {
    pos + 1 < |s| && s[pos] == '/' && s[pos + 1] == '*' && FindClose(s, pos + 2).Some?
  }

  predicate LineCommentAt(s: string, pos: nat)
    requires pos < |s|
  {
    pos + 1 < |s| && s[pos] == '/' && s[pos + 1] == '/'
  }

  /** The rest of the table, for characters that start no comment, word,
      number or string: the longest operator, a delimiter, a run of blanks,
      a line feed, or a one-character error. */
  function DecideSymbol(s: string, pos: nat): (l: Lexeme)
    requires pos < |s|
    ensures l.start == pos && 1 <= l.len && pos + l.len <= |s|
  {
    var c := s[pos];
    if TwoCharOperatorAt(s, pos) then Lexeme(Operator, pos, 2)
    else if IsOperatorChar(c) then Lexeme(Operator, pos, 1)
    else if IsDelimiter(c) then Lexeme(Delimiter, pos, 1)
    else if IsBlank(c) then Lexeme(Whitespace, pos, Run(s, pos, Blank))
    else if c == '\n' then Lexeme(Newline, pos, 1)
    else Lexeme(Error, pos, 1)
  }

  /** A rule that matches while every earlier rule fails is the step. */
  lemma Picks(s: string, pos: nat, k: Kind, n: nat)
    requires pos < |s| && Match(k, s, pos) == Some(n)
    requires forall k' :: Rank(k') < Rank(k) ==> Match(k', s, pos).None?
    ensures Step(s, pos) == Lexeme(k, pos, n)
  {
    forall j | 0 <= j < Rank(k) ensures Match(RuleOrder[j], s, pos).None? {
      assert Rank(RuleOrder[j]) == j;
    }
    StepIsFirstMatch(s, pos, k, n);
  }

  lemma StepBlockComment(s: string, pos: nat)
    requires pos < |s| && BlockCommentAt(s, pos)
    ensures Step(s, pos) == Decide(s, pos)
  {
    StartsWithChars(s, pos, "/*");
    Picks(s, pos, CommentMulti, FindClose(s, pos + 2).value + 2 - pos);
  }

  lemma StepLineComment(s: string, pos: nat)
    requires pos < |s| && !BlockCommentAt(s, pos) && LineCommentAt(s, pos)
    ensures Step(s, pos) == Decide(s, pos)
  {
    RuleTriggers(s, pos);
    Picks(s, pos, Comment, 2 + Run(s, pos + 2, Dot));
  }

  lemma StepWord(s: string, pos: nat)
    requires pos < |s| && IsLetter(s[pos])
    ensures Step(s, pos) == Lexeme(WordKind(s, pos), pos, Run(s, pos, Word))
  {
    WordKindIsKeywordRule(s, pos);
    if MatchKeyword(s, pos).Some? {
      StepKeyword(s, pos);
    } else {
      StepIdentifier(s, pos);
    }
  }

  /** `WordKind` says keyword exactly when the keyword rule matches, and
      then the match is the whole word. */
  lemma WordKindIsKeywordRule(s: string, pos: nat)
    requires pos <= |s|
    ensures WordKind(s, pos) == Keyword <==> MatchKeyword(s, pos).Some?
    ensures MatchKeyword(s, pos).Some? ==> MatchKeyword(s, pos).value == Run(s, pos, Word)
  {
    KeywordIsWholeWord(s, pos);
  }

  lemma StepKeyword(s: string, pos: nat)
    requires pos < |s| && MatchKeyword(s, pos).Some?
    ensures Step(s, pos) == Lexeme(Keyword, pos, MatchKeyword(s, pos).value)
  {
    RuleTriggers(s, pos);
    Picks(s, pos, Keyword, MatchKeyword(s, pos).value);
  }

  lemma StepIdentifier(s: string, pos: nat)
    requires pos < |s| && IsLetter(s[pos]) && MatchKeyword(s, pos).None?
    ensures Step(s, pos) == Lexeme(Identifier, pos, Run(s, pos, Word))
  {
    RuleTriggers(s, pos);
    IdentifierSpec(s, pos);
    Picks(s, pos, Identifier, Run(s, pos, Word));
  }

  lemma StepNumber(s: string, pos: nat)
    requires pos < |s| && IsDigit(s[pos])
    ensures Step(s, pos) == Decide(s, pos)
  {
    RuleTriggers(s, pos);
    Picks(s, pos, Number, Decide(s, pos).len);
  }

  lemma StepQuote(s: string, pos: nat)
    requires pos < |s| && s[pos] == '"'
    ensures Step(s, pos) == Decide(s, pos)
  {
    RuleTriggers(s, pos);
    StringSpec(s, pos);
    var e := pos + 1 + Run(s, pos + 1, StringBody);
    if e < |s| && s[e] == '"' {
      Picks(s, pos, Str, e + 1 - pos);
    } else {
      assert MatchString(s, pos).None? && MatchOperator(s, pos).None? && MatchDelimiter(s, pos).None?;
      assert MatchWhitespace(s, pos).None? && MatchNewline(s, pos).None?;
      Picks(s, pos, Error, 1);
    }
  }

  /** Where no comment, word, number or string starts, the block-comment
      rule fails too: a slash-star without a star-slash after it is two
      operators. */
  lemma NoCommentAtSymbol(s: string, pos: nat)
    requires pos < |s| && !BlockCommentAt(s, pos) && !LineCommentAt(s, pos)
    ensures MatchCommentMulti(s, pos).None? && MatchComment(s, pos).None?
  {
    RuleTriggers(s, pos);
    if pos + 1 < |s| && s[pos] == '/' && s[pos + 1] == '*' {
      StartsWithChars(s, pos, "/*");
    }
  }

  lemma StepOperator(s: string, pos: nat)
    requires pos < |s| && !BlockCommentAt(s, pos) && !LineCommentAt(s, pos)
    requires !IsLetter(s[pos]) && !IsDigit(s[pos]) && s[pos] != '"'
    requires TwoCharOperatorAt(s, pos) || IsOperatorChar(s[pos])
    ensures Step(s, pos) == Lexeme(Operator, pos, if TwoCharOperatorAt(s, pos) then 2 else 1)
  {
    NoCommentAtSymbol(s, pos);
    RuleTriggers(s, pos);
    OperatorSpec(s, pos);
    Picks(s, pos, Operator, if TwoCharOperatorAt(s, pos) then 2 else 1);
  }

  lemma StepOther(s: string, pos: nat)
    requires pos < |s| && !BlockCommentAt(s, pos) && !LineCommentAt(s, pos)
    requires !IsLetter(s[pos]) && !IsDigit(s[pos]) && s[pos] != '"'
    requires !TwoCharOperatorAt(s, pos) && !IsOperatorChar(s[pos])
    ensures Step(s, pos) == DecideSymbol(s, pos)
  {
    NoCommentAtSymbol(s, pos);
    RuleTriggers(s, pos);
    StepAfterOperators(s, pos);
  }

  /** The last four rules, once the first seven have failed. */
  lemma StepAfterOperators(s: string, pos: nat)
    requires pos < |s| && !TwoCharOperatorAt(s, pos) && !IsOperatorChar(s[pos])
    requires MatchCommentMulti(s, pos).None? && MatchComment(s, pos).None?
    requires MatchKeyword(s, pos).None? && MatchIdentifier(s, pos).None?
    requires MatchNumber(s, pos).None? && MatchString(s, pos).None? && MatchOperator(s, pos).None?
    ensures Step(s, pos) == DecideSymbol(s, pos)
  {
    if IsDelimiter(s[pos]) {
      Picks(s, pos, Delimiter, 1);
    } else {
      StepAfterDelimiters(s, pos);
    }
  }

  lemma StepAfterDelimiters(s: string, pos: nat)
    requires pos < |s| && !TwoCharOperatorAt(s, pos) && !IsOperatorChar(s[pos]) && !IsDelimiter(s[pos])
    requires MatchCommentMulti(s, pos).None? && MatchComment(s, pos).None?
    requires MatchKeyword(s, pos).None? && MatchIdentifier(s, pos).None?
    requires MatchNumber(s, pos).None? && MatchString(s, pos).None? && MatchOperator(s, pos).None?
    ensures Step(s, pos) == DecideSymbol(s, pos)
  {
    var c := s[pos];
    assert MatchDelimiter(s, pos).None?;
    if IsBlank(c) {
      Picks(s, pos, Whitespace, Run(s, pos, Blank));
    } else {
      assert MatchWhitespace(s, pos).None?;
      if c == '\n' {
        Picks(s, pos, Newline, 1);
      } else {
        Picks(s, pos, Error, 1);
      }
    }
  }

  /** The step is the one the character table prescribes. */
  lemma StepDecided(s: string, pos: nat)
    requires pos < |s|
    ensures Step(s, pos) == Decide(s, pos)
  {
    var c := s[pos];
    if BlockCommentAt(s, pos) {
      StepBlockComment(s, pos);
    } else if LineCommentAt(s, pos) {
      StepLineComment(s, pos);
    } else if IsLetter(c) {
      StepWord(s, pos);
    } else if IsDigit(c) {
      StepNumber(s, pos);
    } else if c == '"' {
      StepQuote(s, pos);
    } else if TwoCharOperatorAt(s, pos) || IsOperatorChar(c) {
      StepOperator(s, pos);
    } else {
      StepOther(s, pos);
    }
  }
}
