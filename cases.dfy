/** What the scanner makes of the inputs whose outcome the order of the
    rule table decides: keywords against identifiers, the longest operator,
    an unclosed comment or string, a lone `!`, a number with two dots, and
    the line counter across comments. */
module Cases {
  import opened Tokens
  import opened Rules
  import opened Scanner
  import opened Decisions

  /** `s` is the text `w`, character by character. */
  predicate Spells(s: string, w: string)
  {
    |s| == |w| && forall k :: 0 <= k < |w| ==> s[k] == w[k]
  }

  /** The scan after a step of an emitted kind `k` and length `n`: its
      token, then the scan from after it. */
  lemma Takes(s: string, pos: nat, line: nat, k: Kind, n: nat)
    requires pos < |s| && Step(s, pos) == Lexeme(k, pos, n) && IsEmitted(k)
    ensures pos + n <= |s|
    ensures Scan(s, pos, line) == [Token(k, s[pos..pos + n], line)] + Scan(s, pos + n, line)
  {
    ScanStep(s, pos, line);
  }

  /** The scan after a step of a silent kind `k` and length `n`: the scan
      from after it, one line further on after a line feed. */
  lemma Skips(s: string, pos: nat, line: nat, k: Kind, n: nat)
    requires pos < |s| && Step(s, pos) == Lexeme(k, pos, n) && !IsEmitted(k)
    ensures pos + n <= |s|
    ensures Scan(s, pos, line) == Scan(s, pos + n, if k == Newline then line + 1 else line)
  {
    ScanStep(s, pos, line);
  }

  lemma Pair<T>(a: T, b: T, rest: seq<T>)
    ensures [a] + ([b] + rest) == [a, b] + rest
  {
  }

  /** A reserved word standing alone is a keyword token of the whole
      word. */
  lemma KeywordToken(s: string, pos: nat, line: nat)
    requires pos < |s| && IsLetter(s[pos]) && !WordAt(s, pos - 1)
    requires s[pos..pos + Run(s, pos, Word)] in KeywordAlternatives
    ensures var n := Run(s, pos, Word);
            Scan(s, pos, line) == [Token(Keyword, s[pos..pos + n], line)] + Scan(s, pos + n, line)
  {
    StepWord(s, pos);
    Takes(s, pos, line, Keyword, Run(s, pos, Word));
  }

  /** Any other word, including a reserved word glued to a preceding digit
      or letter or followed by more word characters, is an identifier
      token of the whole word. */
  lemma IdentifierToken(s: string, pos: nat, line: nat)
    requires pos < |s| && IsLetter(s[pos])
    requires WordAt(s, pos - 1) || s[pos..pos + Run(s, pos, Word)] !in KeywordAlternatives
    ensures var n := Run(s, pos, Word);
            Scan(s, pos, line) == [Token(Identifier, s[pos..pos + n], line)] + Scan(s, pos + n, line)
  {
    StepWord(s, pos);
    Takes(s, pos, line, Identifier, Run(s, pos, Word));
  }

  /** `1int` is the number `1` and then the identifier `int`: the keyword
      rule's leading `\b` fails after a digit. */
  lemma DigitGluedKeyword(s: string, line: nat)
    requires Spells(s, "1int")
    ensures Scan(s, 0, line) == [Token(Number, "1", line), Token(Identifier, "int", line)]
  {
    var a, b := Token(Number, "1", line), Token(Identifier, "int", line);
    calc {
      Scan(s, 0, line);
      { assert s[0..1] == "1";
        RunExact(s, 0, Digit, 1);
        assert MatchNumber(s, 0) == Some(1);
        NumberToken(s, 0, line); }
      [a] + Scan(s, 1, line);
      { assert s[1..4] == "int" && WordAt(s, 0);
        RunExact(s, 1, Word, 3);
        IdentifierToken(s, 1, line);
        ScanAtEnd(s, line); }
      [a] + ([b] + []);
    }
  }

  /** A two-character operator is one token, never two. */
  lemma LongestOperator(s: string, pos: nat, line: nat)
    requires TwoCharOperatorAt(s, pos)
    ensures Scan(s, pos, line) == [Token(Operator, s[pos..pos + 2], line)] + Scan(s, pos + 2, line)
  {
    StepDecided(s, pos);
    Takes(s, pos, line, Operator, 2);
  }

  /** A `!` not followed by `=` matches no operator; it is an error token
      of its own. */
  lemma LoneBang(s: string, pos: nat, line: nat)
    requires pos < |s| && s[pos] == '!' && !(pos + 1 < |s| && s[pos + 1] == '=')
    ensures Scan(s, pos, line) == [Token(Error, "!", line)] + Scan(s, pos + 1, line)
  {
    StepDecided(s, pos);
    Takes(s, pos, line, Error, 1);
    assert s[pos..pos + 1] == "!";
  }

  /** A character that starts no other rule, such as `.` or `#`, is an
      error token of its own. */
  lemma StrayChar(s: string, pos: nat, line: nat)
    requires pos < |s| && !IsWord(s[pos]) && s[pos] != '"' && s[pos] != '!' && !IsOperatorChar(s[pos])
    requires !IsDelimiter(s[pos]) && !IsBlank(s[pos]) && s[pos] != '\n'
    ensures Scan(s, pos, line) == [Token(Error, [s[pos]], line)] + Scan(s, pos + 1, line)
  {
    assert s[pos..pos + 1] == [s[pos]];
    StepOther(s, pos);
    Takes(s, pos, line, Error, 1);
  }

  /** A slash-star with no star-slash after it is not a comment: the slash
      and the star are two operator tokens, and scanning goes on after
      them. */
  lemma UnclosedBlockComment(s: string, pos: nat, line: nat)
    requires pos + 1 < |s| && s[pos] == '/' && s[pos + 1] == '*' && FindClose(s, pos + 2).None?
    ensures Scan(s, pos, line)
            == [Token(Operator, "/", line), Token(Operator, "*", line)] + Scan(s, pos + 2, line)
  {
    assert s[pos..pos + 1] == "/" && s[pos + 1..pos + 2] == "*";
    StepOperator(s, pos);
    Takes(s, pos, line, Operator, 1);
    StepOperator(s, pos + 1);
    Takes(s, pos + 1, line, Operator, 1);
    Pair(Token(Operator, "/", line), Token(Operator, "*", line), Scan(s, pos + 2, line));
  }

  /** A block comment yields no token and leaves the line counter as it
      is, however many line feeds it holds; scanning resumes after the
      nearest star-slash. */
  lemma BlockCommentSilent(s: string, pos: nat, line: nat)
    requires pos < |s| && BlockCommentAt(s, pos)
    ensures FindClose(s, pos + 2).value + 2 <= |s|
    ensures Scan(s, pos, line) == Scan(s, FindClose(s, pos + 2).value + 2, line)
    ensures LinesAfter(s, pos, line) == LinesAfter(s, FindClose(s, pos + 2).value + 2, line)
  {
    var e := FindClose(s, pos + 2).value + 2;
    StepDecided(s, pos);
    Skips(s, pos, line, CommentMulti, e - pos);
    LinesAfterUnfold(s, pos, line, Step(s, pos), e, line);
  }

  /** A comment holding a line feed, a line feed, and `x`: the feed
      inside the comment is not counted, the one after it is. */
  lemma CommentLineFeedNotCounted(s: string)
    requires Spells(s, "/*\n*/\nx")
    ensures Scan(s, 0, 1) == [Token(Identifier, "x", 2)]
  {
    calc {
      Scan(s, 0, 1);
      { assert !CloseAt(s, 2) && CloseAt(s, 3) && FindClose(s, 2) == Some(3);
        BlockCommentSilent(s, 0, 1); }
      Scan(s, 5, 1);
      { LineFeed(s, 5, 1); }
      Scan(s, 6, 2);
      { assert s[6..7] == "x";
        RunExact(s, 6, Word, 1);
        KeywordAlternativesAreWords();
        IdentifierToken(s, 6, 2);
        ScanAtEnd(s, 2); }
      [Token(Identifier, "x", 2)] + [];
    }
  }

  /** A line comment yields no token and stops before the line feed, so
      the feed still counts. */
  lemma LineCommentSilent(s: string, pos: nat, line: nat)
    requires pos < |s| && !BlockCommentAt(s, pos) && LineCommentAt(s, pos)
    ensures var e := pos + 2 + Run(s, pos + 2, Dot);
            e <= |s| && (e == |s| || s[e] == '\n')
            && Scan(s, pos, line) == Scan(s, e, line)
  {
    var e := pos + 2 + Run(s, pos + 2, Dot);
    RunIsMaximal(s, pos + 2, Dot);
    StepDecided(s, pos);
    Skips(s, pos, line, Comment, e - pos);
  }

  /** A line feed yields no token and advances the line counter. */
  lemma LineFeed(s: string, pos: nat, line: nat)
    requires pos < |s| && s[pos] == '\n'
    ensures Scan(s, pos, line) == Scan(s, pos + 1, line + 1)
  {
    StepDecided(s, pos);
    Skips(s, pos, line, Newline, 1);
  }

  /** A quote with no closing quote before the end of its line is an
      error token of one character; scanning resumes right after it. */
  lemma UnclosedString(s: string, pos: nat, line: nat, e: nat)
    requires pos < e <= |s| && s[pos] == '"' && (e == |s| || s[e] == '\n')
    requires forall k :: pos < k < e ==> s[k] != '"' && s[k] != '\n'
    ensures Scan(s, pos, line) == [Token(Error, "\"", line)] + Scan(s, pos + 1, line)
  {
    RunExact(s, pos + 1, StringBody, e - pos - 1);
    StepQuote(s, pos);
    assert Step(s, pos) == Lexeme(Error, pos, 1) by {
      assert !BlockCommentAt(s, pos) && !LineCommentAt(s, pos);
      assert !IsLetter(s[pos]) && !IsDigit(s[pos]);
    }
    Takes(s, pos, line, Error, 1);
    assert s[pos..pos + 1] == "\"";
  }

  /** A number takes the digits and at most one fraction. */
  lemma NumberToken(s: string, pos: nat, line: nat)
    requires pos < |s| && IsDigit(s[pos])
    ensures MatchNumber(s, pos).Some?
    ensures var n := MatchNumber(s, pos).value;
            Scan(s, pos, line) == [Token(Number, s[pos..pos + n], line)] + Scan(s, pos + n, line)
  {
    NumberSpec(s, pos);
    StepNumber(s, pos);
    Takes(s, pos, line, Number, MatchNumber(s, pos).value);
  }

  /** A dot right after a number that already has its fraction starts no
      second fraction: it is an error token of its own. */
  lemma SecondDot(s: string, pos: nat, line: nat, n: nat)
    requires pos < |s| && IsDigit(s[pos]) && MatchNumber(s, pos) == Some(n)
    requires !AllDigits(s[pos..pos + n]) && pos + n < |s| && s[pos + n] == '.'
    ensures Scan(s, pos, line)
            == [Token(Number, s[pos..pos + n], line), Token(Error, ".", line)] + Scan(s, pos + n + 1, line)
  {
    var a, b := Token(Number, s[pos..pos + n], line), Token(Error, ".", line);
    NumberToken(s, pos, line);
    assert [s[pos + n]] == ".";
    StrayChar(s, pos + n, line);
    Pair(a, b, Scan(s, pos + n + 1, line));
  }

  /** `1.5.3` is the number `1.5`, an error token for the second dot, and
      the number `3`. */
  lemma TwoDots(s: string, line: nat)
    requires Spells(s, "1.5.3")
    ensures Scan(s, 0, line)
            == [Token(Number, "1.5", line), Token(Error, ".", line), Token(Number, "3", line)]
  {
    var a, b, c := Token(Number, "1.5", line), Token(Error, ".", line), Token(Number, "3", line);
    calc {
      Scan(s, 0, line);
      { assert s[0..3] == "1.5" && s[1] == '.';
        RunExact(s, 0, Digit, 1);
        RunExact(s, 2, Digit, 1);
        assert MatchNumber(s, 0) == Some(3);
        assert !AllDigits(s[0..3]);
        SecondDot(s, 0, line, 3); }
      [a, b] + Scan(s, 4, line);
      { assert s[4..5] == "3";
        RunExact(s, 4, Digit, 1);
        assert MatchNumber(s, 4) == Some(1);
        NumberToken(s, 4, line);
        ScanAtEnd(s, line); }
      [a, b] + ([c] + []);
    }
  }
}
