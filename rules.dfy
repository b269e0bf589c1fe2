/** One hand-written matcher per entry of the rule table. Each matcher
    answers what Python's `re.compile(patron).match(codigo, pos)` answers:
    `None` when the pattern does not match anchored at `pos`, otherwise
    `Some(n)` with `n` the length of the match Python's backtracking engine
    returns (which for the lazy patterns is the shortest, not the longest).
    The matchers themselves only promise that a match stays inside the
    input; what each one accepts is stated by the lemma next to it. */
module Rules {
  import opened Tokens

  // ASCII character classes; Python 3 would also accept non-ASCII letters
  // and digits for `\w` and `\d`.

  /** `[a-zA-Z_]` */
  predicate IsLetter(c: char) { 'a' <= c <= 'z' || 'A' <= c <= 'Z' || c == '_' }

  /** `\d` */
  predicate IsDigit(c: char) { '0' <= c <= '9' }

  /** `\w` and `[a-zA-Z0-9_]` */
  predicate IsWord(c: char) { IsLetter(c) || IsDigit(c) }

  /** `[ \t]` */
  predicate IsBlank(c: char) { c == ' ' || c == '\t' }

  /** `.` without DOTALL: everything but a line feed. */
  predicate IsDot(c: char) { c != '\n' }

  /** What the lazy `.*?` of a string literal may step over before it meets
      the closing quote. */
  predicate IsStringBody(c: char) { c != '"' && c != '\n' }

  /** The classes that a run of characters is measured in. */
  datatype Class = Word | Digit | Blank | Dot | StringBody

  predicate In(p: Class, c: char)
  {
    match p
    case Word => IsWord(c)
    case Digit => IsDigit(c)
    case Blank => IsBlank(c)
    case Dot => IsDot(c)
    case StringBody => IsStringBody(c)
  }

  /** Length of the run of characters of class `p` from `i` on. */
  function Run(s: string, i: nat, p: Class): (n: nat)
    requires i <= |s|
    ensures i + n <= |s|
    decreases |s| - i
  {
    if i < |s| && In(p, s[i]) then 1 + Run(s, i + 1, p) else 0
  }

  /** The run is the longest one: all its characters satisfy `p` and the
      next one, if any, does not. */
  lemma {:induction false} RunIsMaximal(s: string, i: nat, p: Class)
    requires i <= |s|
    ensures forall k :: i <= k < i + Run(s, i, p) ==> In(p, s[k])
    ensures i + Run(s, i, p) == |s| || !In(p, s[i + Run(s, i, p)])
    decreases |s| - i
  {
    if i < |s| && In(p, s[i]) {
      RunIsMaximal(s, i + 1, p);
    }
  }

  /** Any run that is maximal is the one `Run` measures. */
  lemma {:induction false} RunExact(s: string, i: nat, p: Class, m: nat)
    requires i + m <= |s|
    requires forall k :: i <= k < i + m ==> In(p, s[k])
    requires i + m == |s| || !In(p, s[i + m])
    ensures Run(s, i, p) == m
    decreases m
  {
    if m > 0 {
      RunExact(s, i + 1, p, m - 1);
    }
  }

  predicate StartsWith(s: string, pos: nat, w: string)
  {
    pos + |w| <= |s| && s[pos..pos + |w|] == w
  }

  predicate WordAt(s: string, q: int)
  {
    0 <= q < |s| && IsWord(s[q])
  }

  /** Python's `\b` at position `p`: a word character on exactly one side.
      The character before `pos` is consulted even when matching starts at
      `pos`, as `Pattern.match(string, pos)` does. */
  predicate Boundary(s: string, p: int)
  {
    WordAt(s, p - 1) != WordAt(s, p)
  }

  // ---------------------------------------------------------------- rule 1

  predicate CloseAt(s: string, k: int)
  {
    0 <= k && k + 1 < |s| && s[k] == '*' && s[k + 1] == '/'
  }

  // The first `*` `/` pair that begins at `i` or later.
  function FindClose(s: string, i: nat): (r: Option<nat>)
    requires i <= |s|
    ensures r.Some? ==> i <= r.value && r.value + 2 <= |s|
    decreases |s| - i
  {
    if i + 2 > |s| then None
    else if CloseAt(s, i) then Some(i)
    else FindClose(s, i + 1)
  }

  // `FindClose` finds the nearest closing pair, and reports none only when
  // there is none.
  lemma {:induction false} FindCloseIsNearest(s: string, i: nat)
    requires i <= |s|
    ensures var r := FindClose(s, i);
            (r.Some? ==> CloseAt(s, r.value) && forall k :: i <= k < r.value ==> !CloseAt(s, k))
            && (r.None? ==> forall k :: i <= k ==> !CloseAt(s, k))
    decreases |s| - i
  {
    if i + 2 <= |s| && !CloseAt(s, i) {
      FindCloseIsNearest(s, i + 1);
    }
  }

  // The pattern `/\*[\s\S]*?\*/`: the opening slash-star and everything up
  // to the nearest following star-slash; no match at all when none follows.
  function MatchCommentMulti(s: string, pos: nat): (r: Option<nat>)
    requires pos <= |s|
    ensures r.Some? ==> 4 <= r.value && pos + r.value <= |s|
  {
    if StartsWith(s, pos, "/*") then
      match FindClose(s, pos + 2)
      case Some(j) => Some(j + 2 - pos)
      case None => None
    else None
  }

  // The block-comment rule matches exactly when there is a slash-star at
  // `pos` and a star-slash after it (not overlapping it); the match then
  // ends with the first such star-slash, so the comment holds no
  // star-slash of its own.
  lemma CommentMultiSpec(s: string, pos: nat)
    requires pos <= |s|
    ensures MatchCommentMulti(s, pos).Some?
            <==> StartsWith(s, pos, "/*") && exists k :: pos + 2 <= k && CloseAt(s, k)
    ensures var r := MatchCommentMulti(s, pos);
            r.Some? ==> StartsWith(s, pos, "/*") && CloseAt(s, pos + r.value - 2)
                        && forall k :: pos + 2 <= k < pos + r.value - 2 ==> !CloseAt(s, k)
  {
    if StartsWith(s, pos, "/*") {
      FindCloseIsNearest(s, pos + 2);
    }
  }

  // ---------------------------------------------------------------- rule 2

  /** `//.*`: two slashes and the rest of the line, without its `\n`. */
  function MatchComment(s: string, pos: nat): (r: Option<nat>)
    requires pos <= |s|
    ensures r.Some? ==> 2 <= r.value && pos + r.value <= |s|
  {
    if StartsWith(s, pos, "//") then Some(2 + Run(s, pos + 2, Dot)) else None
  }

  /** The line comment starts with two slashes and runs up to, not
      including, the next line feed or the end of the input. */
  lemma CommentSpec(s: string, pos: nat)
    requires pos <= |s|
    ensures MatchComment(s, pos).Some? <==> StartsWith(s, pos, "//")
    ensures var r := MatchComment(s, pos);
            r.Some? ==> (forall k :: pos <= k < pos + r.value ==> s[k] != '\n')
                        && (pos + r.value == |s| || s[pos + r.value] == '\n')
  {
    if StartsWith(s, pos, "//") {
      RunIsMaximal(s, pos + 2, Dot);
      assert s[pos] == s[pos..pos + 2][0] && s[pos + 1] == s[pos..pos + 2][1];
    }
  }

  // ---------------------------------------------------------------- rule 3

  /** The alternatives of the keyword pattern, in the order written. */
  const KeywordAlternatives: seq<string> :=
    ["if", "else", "while", "for", "return", "int", "float", "char", "void", "main"]

  predicate IsWordText(w: string)
  {
    |w| >= 1 && forall k :: 0 <= k < |w| ==> IsWord(w[k])
  }

  /** The keyword alternatives are all made of word characters. */
  lemma KeywordAlternativesAreWords()
    ensures forall w :: w in KeywordAlternatives ==> IsWordText(w) && |w| >= 2
  {
  }

  /** The alternation `(w1|w2|...)\b` over `alts`, tried in order: the first
      alternative present at `pos` and followed by `\b`. */
  function FirstWholeAlternative(s: string, pos: nat, alts: seq<string>): (r: Option<nat>)
    requires pos <= |s|
    requires forall w :: w in alts ==> IsWordText(w)
    ensures r.Some? ==> 1 <= r.value && pos + r.value <= |s|
  {
    if alts == [] then None
    else if StartsWith(s, pos, alts[0]) && Boundary(s, pos + |alts[0]|) then
      assert alts[0] in alts && IsWordText(alts[0]);
      Some(|alts[0]|)
    else FirstWholeAlternative(s, pos, alts[1..])
  }

  /** `\b(if|else|while|for|return|int|float|char|void|main)\b` */
  function MatchKeyword(s: string, pos: nat): (r: Option<nat>)
    requires pos <= |s|
    ensures r.Some? ==> 1 <= r.value && pos + r.value <= |s|
  {
    KeywordAlternativesAreWords();
    if Boundary(s, pos) then FirstWholeAlternative(s, pos, KeywordAlternatives) else None
  }

  /** One alternative `w` matches (followed by `\b`) exactly when `w` is the
      whole maximal word that starts at `pos`. */
  lemma AlternativeIsWholeWord(s: string, pos: nat, w: string)
    requires pos <= |s| && IsWordText(w)
    ensures (StartsWith(s, pos, w) && Boundary(s, pos + |w|))
            <==> s[pos..pos + Run(s, pos, Word)] == w
  {
    var n := Run(s, pos, Word);
    RunIsMaximal(s, pos, Word);
    if StartsWith(s, pos, w) && Boundary(s, pos + |w|) {
      forall k | pos <= k < pos + |w| ensures IsWord(s[k]) {
        assert s[k] == s[pos..pos + |w|][k - pos];
      }
      assert WordAt(s, pos + |w| - 1);
      RunExact(s, pos, Word, |w|);
    }
    if s[pos..pos + n] == w {
      assert |w| == n && 1 <= n;
      assert WordAt(s, pos + n - 1) by {
        assert s[pos..pos + n][n - 1] == s[pos + n - 1];
        assert IsWord(w[n - 1]);
      }
    }
  }

  lemma {:induction false} FirstWholeAlternativeIsWholeWord(s: string, pos: nat, alts: seq<string>)
    requires pos <= |s|
    requires forall w :: w in alts ==> IsWordText(w)
    ensures FirstWholeAlternative(s, pos, alts)
            == var n := Run(s, pos, Word);
               if s[pos..pos + n] in alts then Some(n) else None
  {
    var n := Run(s, pos, Word);
    if alts != [] {
      AlternativeIsWholeWord(s, pos, alts[0]);
      FirstWholeAlternativeIsWholeWord(s, pos, alts[1..]);
      assert alts == [alts[0]] + alts[1..];
      if s[pos..pos + n] == alts[0] {
        assert |alts[0]| == n;
      }
    }
  }

  /** Because of the two `\b`, the keyword rule matches exactly when the
      maximal word at `pos` is a reserved word and is not preceded by a word
      character, and the order of the alternatives does not matter. */
  lemma KeywordIsWholeWord(s: string, pos: nat)
    requires pos <= |s|
    ensures MatchKeyword(s, pos)
            == var n := Run(s, pos, Word);
               if !WordAt(s, pos - 1) && s[pos..pos + n] in KeywordAlternatives then Some(n) else None
  {
    var n := Run(s, pos, Word);
    KeywordAlternativesAreWords();
    FirstWholeAlternativeIsWholeWord(s, pos, KeywordAlternatives);
    if s[pos..pos + n] in KeywordAlternatives {
      assert WordAt(s, pos) by {
        assert s[pos] == s[pos..pos + n][0];
      }
    }
  }

  // ---------------------------------------------------------------- rule 4

  /** `[a-zA-Z_][a-zA-Z0-9_]*` */
  function MatchIdentifier(s: string, pos: nat): (r: Option<nat>)
    requires pos <= |s|
    ensures r.Some? ==> 1 <= r.value && pos + r.value <= |s|
  {
    if pos < |s| && IsLetter(s[pos]) then Some(1 + Run(s, pos + 1, Word)) else None
  }

  /** An identifier starts with a letter or `_` and takes the whole word
      that follows. */
  lemma IdentifierSpec(s: string, pos: nat)
    requires pos <= |s|
    ensures MatchIdentifier(s, pos).Some? <==> pos < |s| && IsLetter(s[pos])
    ensures MatchIdentifier(s, pos).Some? ==> MatchIdentifier(s, pos).value == Run(s, pos, Word)
  {
  }

  // ---------------------------------------------------------------- rule 5

  predicate AllDigits(t: string)
  {
    |t| >= 1 && forall k :: 0 <= k < |t| ==> IsDigit(t[k])
  }

  /** Digits, or digits, one `.` and digits. */
  predicate NumberText(t: string)
  {
    AllDigits(t) || exists k :: 0 < k < |t| && t[k] == '.' && AllDigits(t[..k]) && AllDigits(t[k + 1..])
  }

  /** `\d+(\.\d+)?`: the greedy `\d+` takes every digit, then the optional
      fraction is taken when a `.` is directly followed by a digit. */
  function MatchNumber(s: string, pos: nat): (r: Option<nat>)
    requires pos <= |s|
    ensures r.Some? ==> 1 <= r.value && pos + r.value <= |s|
  {
    var n := Run(s, pos, Digit);
    if n == 0 then None
    else if pos + n + 1 < |s| && s[pos + n] == '.' && IsDigit(s[pos + n + 1]) then
      Some(n + 1 + Run(s, pos + n + 1, Digit))
    else Some(n)
  }

  /** A number starts at a digit; its text is digits with at most one
      fraction; no digit follows it; and it stops before a `.` that a digit
      follows only when it already has its fraction. */
  lemma NumberSpec(s: string, pos: nat)
    requires pos <= |s|
    ensures MatchNumber(s, pos).Some? <==> pos < |s| && IsDigit(s[pos])
    ensures var r := MatchNumber(s, pos);
            r.Some? ==> NumberText(s[pos..pos + r.value])
                        && (pos + r.value == |s| || !IsDigit(s[pos + r.value]))
    ensures var r := MatchNumber(s, pos);
            r.Some? && AllDigits(s[pos..pos + r.value]) ==>
              !(pos + r.value + 1 < |s| && s[pos + r.value] == '.' && IsDigit(s[pos + r.value + 1]))
  {
    var n := Run(s, pos, Digit);
    RunIsMaximal(s, pos, Digit);
    if n > 0 {
      if pos + n + 1 < |s| && s[pos + n] == '.' && IsDigit(s[pos + n + 1]) {
        NumberWithFraction(s, pos, n, Run(s, pos + n + 1, Digit));
      } else {
        NumberWithoutFraction(s, pos, n);
      }
    }
  }

  /** The integer part alone: all digits, and no digit after it. */
  lemma NumberWithoutFraction(s: string, pos: nat, n: nat)
    requires pos <= |s| && n == Run(s, pos, Digit) && n > 0
    ensures AllDigits(s[pos..pos + n]) && (pos + n == |s| || !IsDigit(s[pos + n]))
  {
    RunIsMaximal(s, pos, Digit);
    var d := s[pos..pos + n];
    assert forall k :: 0 <= k < n ==> d[k] == s[pos + k];
  }

  /** Integer part, `.` and fraction: a number text that is not all digits,
      and no digit after it. */
  lemma NumberWithFraction(s: string, pos: nat, n: nat, m: nat)
    requires pos <= |s| && n == Run(s, pos, Digit) && n > 0
    requires pos + n + 1 < |s| && s[pos + n] == '.' && IsDigit(s[pos + n + 1])
    requires m == Run(s, pos + n + 1, Digit)
    ensures NumberText(s[pos..pos + n + 1 + m]) && !AllDigits(s[pos..pos + n + 1 + m])
    ensures pos + n + 1 + m == |s| || !IsDigit(s[pos + n + 1 + m])
  {
    NumberWithoutFraction(s, pos, n);
    RunIsMaximal(s, pos + n + 1, Digit);
    var t := s[pos..pos + n + 1 + m];
    var f := t[n + 1..];
    assert t[..n] == s[pos..pos + n];
    assert forall k :: 0 <= k < m ==> f[k] == s[pos + n + 1 + k];
    assert AllDigits(f);
    assert t[n] == '.';
  }

  // ---------------------------------------------------------------- rule 6

  /** A quote, then no quote and no line feed, then a quote. */
  predicate StringText(t: string)
  {
    |t| >= 2 && t[0] == '"' && t[|t| - 1] == '"'
    && forall k :: 0 < k < |t| - 1 ==> IsStringBody(t[k])
  }

  /** `\".*?\"`: the lazy `.*?` grows one character at a time until the next
      character is a quote, and fails at a line feed or the end of input. */
  function MatchString(s: string, pos: nat): (r: Option<nat>)
    requires pos <= |s|
    ensures r.Some? ==> 2 <= r.value && pos + r.value <= |s|
  {
    if pos < |s| && s[pos] == '"' then
      var e := pos + 1 + Run(s, pos + 1, StringBody);
      if e < |s| && s[e] == '"' then Some(e + 1 - pos) else None
    else None
  }

  /** A string literal is a quoted text without line feed up to the first
      closing quote; an opening quote with no closing quote before the end
      of its line matches nothing. */
  lemma StringSpec(s: string, pos: nat)
    requires pos <= |s|
    ensures MatchString(s, pos).Some? ==> StringText(s[pos..pos + MatchString(s, pos).value])
    ensures pos < |s| && s[pos] == '"' ==>
              var e := pos + 1 + Run(s, pos + 1, StringBody);
              (MatchString(s, pos).None? <==> e == |s| || s[e] == '\n')
    ensures pos < |s| && s[pos] != '"' ==> MatchString(s, pos).None?
  {
    if pos < |s| && s[pos] == '"' {
      var e := pos + 1 + Run(s, pos + 1, StringBody);
      RunIsMaximal(s, pos + 1, StringBody);
      if e < |s| && s[e] == '"' {
        var t := s[pos..e + 1];
        assert forall k :: 0 < k < |t| - 1 ==> t[k] == s[pos + k];
      }
    }
  }

  // ---------------------------------------------------------------- rule 7

  /** The alternatives of the operator pattern, in the order written. */
  const OperatorAlternatives: seq<string> :=
    ["==", "!=", "<=", ">=", "+", "-", "*", "/", "=", "<", ">"]

  lemma OperatorAlternativesNonEmpty()
    ensures forall w :: w in OperatorAlternatives ==> 1 <= |w| <= 2
  {
  }

  /** The alternation `w1|w2|...` over `alts` from the `i`-th on, tried in
      order: the first alternative present at `pos`. */
  function FirstAlternative(s: string, pos: nat, alts: seq<string>, i: nat): (r: Option<nat>)
    requires pos <= |s| && i <= |alts|
    requires forall w :: w in alts ==> |w| >= 1
    ensures r.Some? ==> 1 <= r.value && pos + r.value <= |s|
    decreases |alts| - i
  {
    if i == |alts| then None
    else if StartsWith(s, pos, alts[i]) then Some(|alts[i]|)
    else FirstAlternative(s, pos, alts, i + 1)
  }

  /** The alternation picks the first alternative in the list that is present
      at `pos`, and fails only when none is. */
  lemma {:induction false} FirstAlternativeIsFirst(s: string, pos: nat, alts: seq<string>, i: nat)
    requires pos <= |s| && i <= |alts|
    requires forall w :: w in alts ==> |w| >= 1
    ensures var r := FirstAlternative(s, pos, alts, i);
            (r.Some? ==> exists j :: i <= j < |alts| && StartsWith(s, pos, alts[j]) && r.value == |alts[j]|
                                     && forall j' :: i <= j' < j ==> !StartsWith(s, pos, alts[j']))
            && (r.None? ==> forall j :: i <= j < |alts| ==> !StartsWith(s, pos, alts[j]))
    decreases |alts| - i
  {
    if i < |alts| && !StartsWith(s, pos, alts[i]) {
      FirstAlternativeIsFirst(s, pos, alts, i + 1);
    }
  }

  /** What the alternation matches is one of the alternatives. */
  lemma {:induction false} FirstAlternativeIsAlternative(s: string, pos: nat, alts: seq<string>, i: nat)
    requires pos <= |s| && i <= |alts|
    requires forall w :: w in alts ==> |w| >= 1
    ensures var r := FirstAlternative(s, pos, alts, i);
            r.Some? ==> s[pos..pos + r.value] in alts
    decreases |alts| - i
  {
    if i < |alts| {
      if StartsWith(s, pos, alts[i]) {
        assert s[pos..pos + |alts[i]|] == alts[i];
      } else {
        FirstAlternativeIsAlternative(s, pos, alts, i + 1);
      }
    }
  }

  lemma AlternationIsAlternative(s: string, pos: nat, alts: seq<string>, n: nat)
    requires pos <= |s| && forall w :: w in alts ==> |w| >= 1
    requires FirstAlternative(s, pos, alts, 0) == Some(n)
    ensures s[pos..pos + n] in alts
  {
    FirstAlternativeIsAlternative(s, pos, alts, 0);
  }

  /** `==|!=|<=|>=|\+|\-|\*|/|=|<|>` */
  function MatchOperator(s: string, pos: nat): (r: Option<nat>)
    requires pos <= |s|
    ensures r.Some? ==> 1 <= r.value && pos + r.value <= |s|
  {
    OperatorAlternativesNonEmpty();
    FirstAlternative(s, pos, OperatorAlternatives, 0)
  }

  /** A two-character alternative (`==`, `!=`, `<=`, `>=`) at `pos`. */
  predicate TwoCharOperatorAt(s: string, pos: nat)
  {
    pos + 1 < |s| && (s[pos] == '=' || s[pos] == '!' || s[pos] == '<' || s[pos] == '>') && s[pos + 1] == '='
  }

  /** The characters of the one-character alternatives. */
  predicate IsOperatorChar(c: char)
  {
    c == '+' || c == '-' || c == '*' || c == '/' || c == '=' || c == '<' || c == '>'
  }

  /** Because the two-character alternatives are listed first, the operator
      rule takes two characters whenever a two-character operator is
      present and one character only when it is not; a lone `!` is not an
      operator. */
  lemma OperatorSpec(s: string, pos: nat)
    requires pos <= |s|
    ensures MatchOperator(s, pos)
            == if TwoCharOperatorAt(s, pos) then Some(2)
               else if pos < |s| && IsOperatorChar(s[pos]) then Some(1)
               else None
  {
    var ops := OperatorAlternatives;
    OperatorAlternativesNonEmpty();
    StartsWithChars(s, pos, "==");
    StartsWithChars(s, pos, "!=");
    StartsWithChars(s, pos, "<=");
    StartsWithChars(s, pos, ">=");
    OneCharOperators(s, pos);
  }

  /** The one-character alternatives, tried after the two-character ones. */
  lemma OneCharOperators(s: string, pos: nat)
    requires pos <= |s|
    ensures FirstAlternative(s, pos, OperatorAlternatives, 4)
            == if pos < |s| && IsOperatorChar(s[pos]) then Some(1) else None
  {
    var ops := OperatorAlternatives;
    OperatorAlternativesNonEmpty();
    ComparisonCharOperators(s, pos);
    AlternativeStep(s, pos, ops, 7);
    AlternativeStep(s, pos, ops, 6);
    AlternativeStep(s, pos, ops, 5);
    AlternativeStep(s, pos, ops, 4);
  }

  /** The last three alternatives, `=`, `<` and `>`. */
  lemma ComparisonCharOperators(s: string, pos: nat)
    requires pos <= |s|
    ensures FirstAlternative(s, pos, OperatorAlternatives, 8)
            == if pos < |s| && (s[pos] == '=' || s[pos] == '<' || s[pos] == '>') then Some(1) else None
  {
    var ops := OperatorAlternatives;
    OperatorAlternativesNonEmpty();
    AlternativeStep(s, pos, ops, 10);
    AlternativeStep(s, pos, ops, 9);
    AlternativeStep(s, pos, ops, 8);
  }

  /** Trying one alternative of length one or two. */
  lemma AlternativeStep(s: string, pos: nat, alts: seq<string>, i: nat)
    requires pos <= |s| && i < |alts|
    requires forall w :: w in alts ==> |w| >= 1
    requires |alts[i]| <= 2
    ensures FirstAlternative(s, pos, alts, i)
            == if pos + |alts[i]| <= |s| && s[pos] == alts[i][0] && (|alts[i]| == 2 ==> s[pos + 1] == alts[i][1])
               then Some(|alts[i]|)
               else FirstAlternative(s, pos, alts, i + 1)
  {
    assert alts[i] in alts;
    StartsWithChars(s, pos, alts[i]);
  }

  /** A one- or two-character word is present when its characters are. */
  lemma StartsWithChars(s: string, pos: nat, w: string)
    requires 1 <= |w| <= 2
    ensures StartsWith(s, pos, w)
            <==> pos + |w| <= |s| && s[pos] == w[0] && (|w| == 2 ==> s[pos + 1] == w[1])
  {
    if pos + |w| <= |s| {
      assert s[pos..pos + |w|][0] == s[pos];
      if |w| == 2 {
        assert s[pos..pos + 2][1] == s[pos + 1];
      }
      if s[pos] == w[0] && (|w| == 2 ==> s[pos + 1] == w[1]) {
        assert s[pos..pos + |w|] == w;
      }
    }
  }

  // ---------------------------------------------------------------- rules 8-11

  /** The delimiter characters `;` `,` `(` `)` `{` `}`. */
  predicate IsDelimiter(c: char)
  {
    c == ';' || c == ',' || c == '(' || c == ')' || c == '{' || c == '}'
  }

  /** `[;,\(\)\{\}]` */
  function MatchDelimiter(s: string, pos: nat): (r: Option<nat>)
    requires pos <= |s|
    ensures r.Some? <==> pos < |s| && IsDelimiter(s[pos])
    ensures r.Some? ==> r.value == 1
  {
    if pos < |s| && IsDelimiter(s[pos]) then Some(1) else None
  }

  /** `[ \t]+` */
  function MatchWhitespace(s: string, pos: nat): (r: Option<nat>)
    requires pos <= |s|
    ensures r.Some? <==> pos < |s| && IsBlank(s[pos])
    ensures r.Some? ==> pos + r.value <= |s|
    ensures r.Some? ==> (forall k :: pos <= k < pos + r.value ==> IsBlank(s[k]))
                        && (pos + r.value == |s| || !IsBlank(s[pos + r.value]))
  {
    RunIsMaximal(s, pos, Blank);
    var n := Run(s, pos, Blank);
    if n > 0 then Some(n) else None
  }

  /** `\n` */
  function MatchNewline(s: string, pos: nat): (r: Option<nat>)
    requires pos <= |s|
    ensures r.Some? <==> pos < |s| && s[pos] == '\n'
    ensures r.Some? ==> r.value == 1
  {
    if pos < |s| && s[pos] == '\n' then Some(1) else None
  }

  /** `.`: any single character but a line feed. */
  function MatchError(s: string, pos: nat): (r: Option<nat>)
    requires pos <= |s|
    ensures r.Some? <==> pos < |s| && s[pos] != '\n'
    ensures r.Some? ==> r.value == 1
  {
    if pos < |s| && IsDot(s[pos]) then Some(1) else None
  }

  // ---------------------------------------------------------------- the table

  /** The rule table, in priority order. */
  const RuleOrder: seq<Kind> :=
    [CommentMulti, Comment, Keyword, Identifier, Number, Str, Operator, Delimiter, Whitespace, Newline, Error]

  /** The table holds eleven rules, each kind once (with `Rank`, which finds
      each kind in it). */
  lemma RuleOrderListsEachKindOnce()
    ensures |RuleOrder| == 11
    ensures forall i, j :: 0 <= i < j < |RuleOrder| ==> RuleOrder[i] != RuleOrder[j]
  {
  }

  /** The position of each kind in `RuleOrder`. */
  function Rank(k: Kind): (r: nat)
    ensures r < |RuleOrder| && RuleOrder[r] == k
  {
    match k
    case CommentMulti => 0
    case Comment => 1
    case Keyword => 2
    case Identifier => 3
    case Number => 4
    case Str => 5
    case Operator => 6
    case Delimiter => 7
    case Whitespace => 8
    case Newline => 9
    case Error => 10
  }

  /** The pattern of rule `k`, matched anchored at `pos`. No rule matches the
      empty string, so every match consumes at least one character. */
  function Match(k: Kind, s: string, pos: nat): (r: Option<nat>)
    requires pos <= |s|
    ensures r.Some? ==> 1 <= r.value && pos + r.value <= |s|
  {
    match k
    case CommentMulti => MatchCommentMulti(s, pos)
    case Comment => MatchComment(s, pos)
    case Keyword => MatchKeyword(s, pos)
    case Identifier => MatchIdentifier(s, pos)
    case Number => MatchNumber(s, pos)
    case Str => MatchString(s, pos)
    case Operator => MatchOperator(s, pos)
    case Delimiter => MatchDelimiter(s, pos)
    case Whitespace => MatchWhitespace(s, pos)
    case Newline => MatchNewline(s, pos)
    case Error => MatchError(s, pos)
  }

  /** Row `i` of the table, matched anchored at `pos`: the matcher of rule
      `RuleOrder[i]`, picked by position. */
  function MatchRule(i: nat, s: string, pos: nat): Option<nat>
    requires i < |RuleOrder| && pos <= |s|
  {
    if i == 0 then MatchCommentMulti(s, pos)
    else if i == 1 then MatchComment(s, pos)
    else if i == 2 then MatchKeyword(s, pos)
    else if i == 3 then MatchIdentifier(s, pos)
    else if i == 4 then MatchNumber(s, pos)
    else if i == 5 then MatchString(s, pos)
    else if i == 6 then MatchOperator(s, pos)
    else if i == 7 then MatchDelimiter(s, pos)
    else if i == 8 then MatchWhitespace(s, pos)
    else if i == 9 then MatchNewline(s, pos)
    else MatchError(s, pos)
  }

  /** Picking a row by position is matching its rule. */
  lemma MatchRuleIsMatch(i: nat, s: string, pos: nat)
    requires i < |RuleOrder| && pos <= |s|
    ensures MatchRule(i, s, pos) == Match(RuleOrder[i], s, pos)
  {
  }

  /** Before the end of the input, the last two rules between them match
      every character. */
  lemma FallbackMatches(s: string, pos: nat)
    requires pos < |s|
    ensures Match(Newline, s, pos).Some? || Match(Error, s, pos).Some?
  {
  }
}
