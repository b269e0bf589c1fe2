/** The scanning algorithm of `AnalizadorLexico.tokenizar` as functions:
    one step picks the first rule of the table that matches at the cursor,
    the steps partition the input into spans, and the token list keeps the
    spans of the emitted kinds together with the line counter of the time. */
module Scanner {
  import opened Tokens
  import opened Rules

  /** A matched span: which rule matched, where, and how many characters. */
  datatype Lexeme = Lexeme(kind: Kind, start: nat, len: nat)

  /** Rule `k` is the first rule of the table that matches at `pos`, and its
      match is `n` characters long. */
  predicate FirstMatch(s: string, pos: nat, k: Kind, n: nat)
    requires pos <= |s|
  {
    Match(k, s, pos) == Some(n)
    && forall j :: 0 <= j < Rank(k) ==> Match(RuleOrder[j], s, pos).None?
  }

  /** First-match-wins determines the rule and the length uniquely. */
  lemma FirstMatchUnique(s: string, pos: nat, k1: Kind, n1: nat, k2: Kind, n2: nat)
    requires pos <= |s|
    requires FirstMatch(s, pos, k1, n1) && FirstMatch(s, pos, k2, n2)
    ensures k1 == k2 && n1 == n2
  {
    if Rank(k1) < Rank(k2) {
      assert false;
    } else if Rank(k2) < Rank(k1) {
      assert false;
    }
  }

  /** The inner `for ... break` loop of `tokenizar`: the span of the first
      rule, from table position `i` on, that matches at `pos`. Before the end
      of the input some rule always matches, since `NEWLINE` and `ERROR`
      between them accept every character. */
  function FirstRule(s: string, pos: nat, i: nat): (r: Option<Lexeme>)
    requires pos <= |s| && i <= |RuleOrder|
    ensures r.Some? ==> r.value.start == pos && 1 <= r.value.len && pos + r.value.len <= |s|
    ensures pos < |s| && i < |RuleOrder| - 1 ==> r.Some?
    decreases |s| - pos, |RuleOrder| - i
  {
    if i == |RuleOrder| then None
    else match MatchRule(i, s, pos)
      case Some(n) => Some(Lexeme(RuleOrder[i], pos, n))
      case None =>
        if pos < |s| && i == |RuleOrder| - 2 then FallbackMatches(s, pos); FirstRule(s, pos, i + 1)
        else FirstRule(s, pos, i + 1)
  }

  /** The rule `FirstRule` picks is the first from `i` on that matches. */
  lemma {:induction false} FirstRuleIsFirstMatch(s: string, pos: nat, i: nat)
    requires pos <= |s| && i <= |RuleOrder|
    requires forall j :: 0 <= j < i ==> Match(RuleOrder[j], s, pos).None?
    ensures var r := FirstRule(s, pos, i);
            r.Some? ==> FirstMatch(s, pos, r.value.kind, r.value.len)
    decreases |RuleOrder| - i
  {
    if i < |RuleOrder| {
      MatchRuleIsMatch(i, s, pos);
      if Match(RuleOrder[i], s, pos).None? {
        FirstRuleIsFirstMatch(s, pos, i + 1);
      } else {
        assert Rank(RuleOrder[i]) == i;
      }
    }
  }

  /** One iteration of the outer loop, before the end of the input. */
  function Step(s: string, pos: nat): (l: Lexeme)
    requires pos < |s|
    ensures l.start == pos && 1 <= l.len && pos + l.len <= |s|
  {
    FirstRule(s, pos, 0).value
  }

  /** The step takes the first rule of the table that matches. */
  lemma StepIsFirst(s: string, pos: nat)
    requires pos < |s|
    ensures FirstMatch(s, pos, Step(s, pos).kind, Step(s, pos).len)
  {
    FirstRuleIsFirstMatch(s, pos, 0);
  }

  /** Any rule that is the first to match is what `Step` picks. */
  lemma StepIsFirstMatch(s: string, pos: nat, k: Kind, n: nat)
    requires pos < |s| && FirstMatch(s, pos, k, n)
    ensures Step(s, pos) == Lexeme(k, pos, n)
  {
    var l := Step(s, pos);
    StepIsFirst(s, pos);
    FirstMatchUnique(s, pos, k, n, l.kind, l.len);
  }

  /** `segs` are non-empty spans that follow one another without gap or
      overlap from `pos` to the end of `s`. */
  predicate Tiles(s: string, segs: seq<Lexeme>, pos: nat)
  {
    if segs == [] then pos == |s|
    else
      segs[0].start == pos && 1 <= segs[0].len && pos + segs[0].len <= |s|
      && Tiles(s, segs[1..], pos + segs[0].len)
  }

  /** The spans of all steps from `pos` to the end of the input, discarded
      ones included: at most one per character. */
  function Segment(s: string, pos: nat): (segs: seq<Lexeme>)
    requires pos <= |s|
    ensures pos + |segs| <= |s|
    decreases |s| - pos
  {
    if pos == |s| then []
    else
      var l := Step(s, pos);
      [l] + Segment(s, pos + l.len)
  }

  /** The spans of the partition are the steps taken one after the other. */
  lemma SegmentUnfold(s: string, pos: nat)
    requires pos < |s|
    ensures Segment(s, pos) == [Step(s, pos)] + Segment(s, pos + Step(s, pos).len)
    ensures Segment(s, pos) != [] && Segment(s, pos)[0] == Step(s, pos)
    ensures Segment(s, pos)[1..] == Segment(s, pos + Step(s, pos).len)
  {
    var rest := Segment(s, pos + Step(s, pos).len);
    assert ([Step(s, pos)] + rest)[1..] == rest;
  }

  /** The steps from `pos` tile the rest of the input. */
  lemma {:induction false} SegmentTiles(s: string, pos: nat)
    requires pos <= |s|
    ensures Tiles(s, Segment(s, pos), pos) && InBounds(s, Segment(s, pos))
    decreases |s| - pos
  {
    if pos < |s| {
      var l := Step(s, pos);
      SegmentUnfold(s, pos);
      SegmentTiles(s, pos + l.len);
      InBoundsCons(s, Segment(s, pos), l, Segment(s, pos + l.len));
    }
  }

  /** Every span lies within `s`. */
  predicate InBounds(s: string, segs: seq<Lexeme>)
  {
    forall i :: 0 <= i < |segs| ==> segs[i].start + segs[i].len <= |s|
  }

  lemma InBoundsCons(s: string, segs: seq<Lexeme>, l: Lexeme, rest: seq<Lexeme>)
    requires segs == [l] + rest && l.start + l.len <= |s| && InBounds(s, rest)
    ensures InBounds(s, segs)
  {
    forall i | 0 < i < |segs| ensures segs[i].start + segs[i].len <= |s| {
      assert segs[i] == rest[i - 1];
    }
  }

  lemma {:induction false} TilesStartAfter(s: string, segs: seq<Lexeme>, pos: nat, i: nat)
    requires Tiles(s, segs, pos) && i < |segs|
    ensures pos + i <= segs[i].start
  {
    if i > 0 {
      TilesStartAfter(s, segs[1..], pos + segs[0].len, i - 1);
    }
  }

  /** Later spans begin strictly later. */
  lemma {:induction false} TilesIncrease(s: string, segs: seq<Lexeme>, pos: nat, i: nat, i': nat)
    requires Tiles(s, segs, pos) && i < i' < |segs|
    ensures segs[i].start < segs[i'].start
  {
    if i == 0 {
      TilesStartAfter(s, segs[1..], pos + segs[0].len, i' - 1);
    } else {
      TilesIncrease(s, segs[1..], pos + segs[0].len, i - 1, i' - 1);
    }
  }

  /** Each span ends where the next begins. */
  lemma {:induction false} TilesAdjacent(s: string, segs: seq<Lexeme>, pos: nat, i: nat)
    requires Tiles(s, segs, pos) && i + 1 < |segs|
    ensures segs[i].start + segs[i].len == segs[i + 1].start
  {
    if i > 0 {
      TilesAdjacent(s, segs[1..], pos + segs[0].len, i - 1);
    }
  }

  function Text(s: string, l: Lexeme): string
    requires l.start + l.len <= |s|
  {
    s[l.start..l.start + l.len]
  }

  /** The texts of the spans, concatenated in order. */
  function Flatten(s: string, segs: seq<Lexeme>): string
    requires forall i :: 0 <= i < |segs| ==> segs[i].start + segs[i].len <= |s|
  {
    if segs == [] then [] else Text(s, segs[0]) + Flatten(s, segs[1..])
  }

  /** Spans that tile the input from `pos` reassemble it. */
  lemma {:induction false} FlattenTiles(s: string, segs: seq<Lexeme>, pos: nat)
    requires pos <= |s| && Tiles(s, segs, pos)
    requires forall i :: 0 <= i < |segs| ==> segs[i].start + segs[i].len <= |s|
    ensures Flatten(s, segs) == s[pos..]
  {
    if segs != [] {
      FlattenTiles(s, segs[1..], pos + segs[0].len);
      assert s[pos..] == s[pos..pos + segs[0].len] + s[pos + segs[0].len..];
    }
  }

  /** Coverage: the spans, discarded ones included, reassemble the input
      from `pos` on, with nothing skipped and nothing read twice. */
  lemma SegmentCoversInput(s: string, pos: nat)
    requires pos <= |s|
    ensures InBounds(s, Segment(s, pos))
    ensures Flatten(s, Segment(s, pos)) == s[pos..]
  {
    SegmentTiles(s, pos);
    FlattenTiles(s, Segment(s, pos), pos);
  }

  /** How many of the first `i` spans were matched by the `NEWLINE` rule. */
  function NewlinesBefore(segs: seq<Lexeme>, i: nat): nat
    requires i <= |segs|
  {
    if i == 0 then 0
    else NewlinesBefore(segs, i - 1) + (if segs[i - 1].kind == Newline then 1 else 0)
  }

  lemma {:induction false} NewlinesBeforeShift(segs: seq<Lexeme>, i: nat)
    requires 1 <= i <= |segs|
    ensures NewlinesBefore(segs, i)
            == (if segs[0].kind == Newline then 1 else 0) + NewlinesBefore(segs[1..], i - 1)
  {
    if i > 1 {
      NewlinesBeforeShift(segs, i - 1);
    }
  }

  /** How many of the first `i` spans become tokens. */
  function EmittedBefore(segs: seq<Lexeme>, i: nat): nat
    requires i <= |segs|
  {
    if i == 0 then 0
    else EmittedBefore(segs, i - 1) + (if IsEmitted(segs[i - 1].kind) then 1 else 0)
  }

  lemma {:induction false} EmittedBeforeShift(segs: seq<Lexeme>, i: nat)
    requires 1 <= i <= |segs|
    ensures EmittedBefore(segs, i)
            == (if IsEmitted(segs[0].kind) then 1 else 0) + EmittedBefore(segs[1..], i - 1)
  {
    if i > 1 {
      EmittedBeforeShift(segs, i - 1);
    }
  }

  /** An emitted span comes strictly before the emitted spans after it in
      the token numbering. */
  lemma {:induction false} EmittedBeforeIncrease(segs: seq<Lexeme>, i: nat, i': nat)
    requires i < i' <= |segs| && IsEmitted(segs[i].kind)
    ensures EmittedBefore(segs, i) < EmittedBefore(segs, i')
  {
    if i + 1 < i' {
      EmittedBeforeIncrease(segs, i, i' - 1);
    }
  }

  /** The text `v` has the shape of what rule `k` matches; false for the
      kinds that never become tokens. */
  predicate WellFormed(k: Kind, v: string)
  {
    match k
    case Keyword => v in KeywordAlternatives
    case Identifier => IsWordText(v) && IsLetter(v[0])
    case Number => NumberText(v)
    case Str => StringText(v)
    case Operator => v in OperatorAlternatives
    case Delimiter => |v| == 1 && IsDelimiter(v[0])
    case Error => |v| == 1 && v[0] != '\n'
    case _ => false
  }

  lemma KeywordShape(s: string, pos: nat, n: nat)
    requires pos <= |s| && MatchKeyword(s, pos) == Some(n)
    ensures WellFormed(Keyword, s[pos..pos + n])
  {
    KeywordIsWholeWord(s, pos);
  }

  lemma IdentifierShape(s: string, pos: nat, n: nat)
    requires pos <= |s| && MatchIdentifier(s, pos) == Some(n)
    ensures WellFormed(Identifier, s[pos..pos + n])
  {
    IdentifierSpec(s, pos);
    RunIsMaximal(s, pos, Word);
    var v := s[pos..pos + n];
    assert forall i :: 0 <= i < n ==> v[i] == s[pos + i];
  }

  lemma NumberShape(s: string, pos: nat, n: nat)
    requires pos <= |s| && MatchNumber(s, pos) == Some(n)
    ensures WellFormed(Number, s[pos..pos + n])
  {
    NumberSpec(s, pos);
  }

  lemma StringShape(s: string, pos: nat, n: nat)
    requires pos <= |s| && MatchString(s, pos) == Some(n)
    ensures WellFormed(Str, s[pos..pos + n])
  {
    StringSpec(s, pos);
  }

  lemma OperatorShape(s: string, pos: nat, n: nat)
    requires pos <= |s| && MatchOperator(s, pos) == Some(n)
    ensures WellFormed(Operator, s[pos..pos + n])
  {
    OperatorAlternativesNonEmpty();
    AlternationIsAlternative(s, pos, OperatorAlternatives, n);
  }

  lemma SingleShape(k: Kind, s: string, pos: nat, n: nat)
    requires k == Delimiter || k == Error
    requires pos <= |s| && Match(k, s, pos) == Some(n)
    ensures WellFormed(k, s[pos..pos + n])
  {
    assert s[pos..pos + n][0] == s[pos];
  }

  /** The text each emitted rule matches has that rule's shape. */
  lemma MatchShape(k: Kind, s: string, pos: nat, n: nat)
    requires pos <= |s| && Match(k, s, pos) == Some(n) && IsEmitted(k)
    ensures WellFormed(k, s[pos..pos + n])
  {
    match k
    case Keyword => KeywordShape(s, pos, n);
    case Identifier => IdentifierShape(s, pos, n);
    case Number => NumberShape(s, pos, n);
    case Str => StringShape(s, pos, n);
    case Operator => OperatorShape(s, pos, n);
    case Delimiter => SingleShape(k, s, pos, n);
    case Error => SingleShape(k, s, pos, n);
  }

  /** A span of an emitted kind has its rule's shape. */
  predicate SpanShaped(s: string, l: Lexeme)
    requires l.start + l.len <= |s|
  {
    IsEmitted(l.kind) ==> WellFormed(l.kind, Text(s, l))
  }

  /** Every span of the list has its rule's shape. */
  predicate AllShaped(s: string, segs: seq<Lexeme>)
    requires forall i :: 0 <= i < |segs| ==> segs[i].start + segs[i].len <= |s|
  {
    segs == [] || (SpanShaped(s, segs[0]) && AllShaped(s, segs[1..]))
  }

  lemma {:induction false} FirstRuleShaped(s: string, pos: nat, i: nat)
    requires pos <= |s| && i <= |RuleOrder|
    ensures var r := FirstRule(s, pos, i); r.Some? ==> SpanShaped(s, r.value)
    decreases |RuleOrder| - i
  {
    if i < |RuleOrder| {
      MatchRuleIsMatch(i, s, pos);
      match Match(RuleOrder[i], s, pos)
      case Some(n) =>
        if IsEmitted(RuleOrder[i]) {
          MatchShape(RuleOrder[i], s, pos, n);
        }
      case None => FirstRuleShaped(s, pos, i + 1);
    }
  }

  /** The span a step takes has its rule's shape. */
  lemma StepShape(s: string, pos: nat)
    requires pos < |s|
    ensures SpanShaped(s, Step(s, pos))
  {
    FirstRuleShaped(s, pos, 0);
  }

  /** Every span of the partition has its rule's shape. */
  lemma {:induction false} SegmentShaped(s: string, pos: nat)
    requires pos <= |s|
    ensures InBounds(s, Segment(s, pos))
    ensures AllShaped(s, Segment(s, pos))
    decreases |s| - pos
  {
    SegmentTiles(s, pos);
    if pos < |s| {
      var l := Step(s, pos);
      SegmentUnfold(s, pos);
      SegmentShaped(s, pos + l.len);
      StepShape(s, pos);
    }
  }

  /** At most one span per character. */
  lemma {:induction false} TilesLength(s: string, segs: seq<Lexeme>, pos: nat)
    requires Tiles(s, segs, pos)
    ensures pos + |segs| <= |s|
  {
    if segs != [] {
      TilesLength(s, segs[1..], pos + segs[0].len);
    }
  }

  /** The tokens that a list of spans yields: the spans of emitted kinds in
      order, each with the line counter as advanced by the `NEWLINE` spans
      before it. */
  function Emit(s: string, segs: seq<Lexeme>, line: nat): seq<Token>
    requires forall i :: 0 <= i < |segs| ==> segs[i].start + segs[i].len <= |s|
  {
    if segs == [] then []
    else
      var l := segs[0];
      var rest := Emit(s, segs[1..], if l.kind == Newline then line + 1 else line);
      if IsEmitted(l.kind) then [Token(l.kind, Text(s, l), line)] + rest else rest
  }

  /** Emitting a span list that starts with `l`: `l`'s token, if its kind
      is emitted, then the tokens of the rest with the counter advanced past
      a `NEWLINE` span. */
  lemma EmitCons(s: string, l: Lexeme, rest: seq<Lexeme>, line: nat)
    requires l.start + l.len <= |s|
    requires forall i :: 0 <= i < |rest| ==> rest[i].start + rest[i].len <= |s|
    ensures IsEmitted(l.kind) ==>
              Emit(s, [l] + rest, line) == [Token(l.kind, Text(s, l), line)] + Emit(s, rest, line)
    ensures !IsEmitted(l.kind) ==>
              Emit(s, [l] + rest, line) == Emit(s, rest, if l.kind == Newline then line + 1 else line)
  {
    assert ([l] + rest)[1..] == rest;
  }

  /** The tokens of the scan from `pos`, with `line` the counter at `pos`:
      the specification of the loop of `tokenizar`. At most one token per
      character. */
  function Scan(s: string, pos: nat, line: nat): (r: seq<Token>)
    requires pos <= |s|
    ensures |r| <= |s| - pos
  {
    SegmentTiles(s, pos);
    SegmentShaped(s, pos);
    EmitShape(s, Segment(s, pos), line);
    Emit(s, Segment(s, pos), line)
  }

  /** One iteration of the loop: the step's token, if its kind is emitted,
      followed by the scan after it; a `NEWLINE` step, which is not
      emitted, advances the line counter. */
  lemma ScanStep(s: string, pos: nat, line: nat)
    requires pos < |s|
    ensures var l := Step(s, pos);
            IsEmitted(l.kind) ==>
              Scan(s, pos, line) == [Token(l.kind, Text(s, l), line)] + Scan(s, pos + l.len, line)
    ensures var l := Step(s, pos);
            !IsEmitted(l.kind) ==>
              Scan(s, pos, line) == Scan(s, pos + l.len, if l.kind == Newline then line + 1 else line)
  {
    SegmentUnfold(s, pos);
    SegmentTiles(s, pos + Step(s, pos).len);
    EmitCons(s, Step(s, pos), Segment(s, pos + Step(s, pos).len), line);
  }

  /** The line counter once the scan from `pos` is done, starting from
      `line`: one more for each `NEWLINE` step, so never less than `line`. */
  function LinesAfter(s: string, pos: nat, line: nat): (r: nat)
    requires pos <= |s|
    ensures line <= r
    decreases |s| - pos
  {
    if pos == |s| then line
    else
      var l := Step(s, pos);
      LinesAfter(s, pos + l.len, After(l, line))
  }

  lemma LinesAfterUnfold(s: string, pos: nat, line: nat, l: Lexeme, pos': nat, line': nat)
    requires pos < |s| && l == Step(s, pos) && pos' == pos + l.len && line' == After(l, line)
    ensures LinesAfter(s, pos, line) == LinesAfter(s, pos', line')
  {
  }

  /** The final counter is the start counter plus the number of `NEWLINE`
      spans; a line feed inside a block comment or a string belongs to
      another span and is not counted. */
  lemma {:induction false} LinesAfterCounts(s: string, pos: nat, line: nat)
    requires pos <= |s|
    ensures var segs := Segment(s, pos);
            LinesAfter(s, pos, line) == line + NewlinesBefore(segs, |segs|)
    decreases |s| - pos
  {
    if pos < |s| {
      var l := Step(s, pos);
      LinesAfterUnfold(s, pos, line, l, pos + l.len, After(l, line));
      LinesAfterCounts(s, pos + l.len, After(l, line));
      SegmentNewlines(s, pos);
    }
  }

  /** The `NEWLINE` spans from `pos` are the step's, if it is one, and those
      after it. */
  lemma SegmentNewlines(s: string, pos: nat)
    requires pos < |s|
    ensures var l := Step(s, pos);
            var segs, rest := Segment(s, pos), Segment(s, pos + l.len);
            NewlinesBefore(segs, |segs|) == (if l.kind == Newline then 1 else 0) + NewlinesBefore(rest, |rest|)
  {
    SegmentUnfold(s, pos);
    NewlinesCons(Segment(s, pos), Step(s, pos), Segment(s, pos + Step(s, pos).len));
  }

  lemma NewlinesCons(segs: seq<Lexeme>, l: Lexeme, rest: seq<Lexeme>)
    requires segs != [] && segs[0] == l && segs[1..] == rest
    ensures NewlinesBefore(segs, |segs|) == (if l.kind == Newline then 1 else 0) + NewlinesBefore(rest, |rest|)
  {
    NewlinesBeforeShift(segs, |segs|);
  }

  /** The line counter after span `l`: one more after a `NEWLINE`. */
  function After(l: Lexeme, line: nat): nat
  {
    if l.kind == Newline then line + 1 else line
  }

  /** The token list after span `l`: its token appended when its kind is
      emitted, with the counter `line` in effect when it began. */
  function Gather(s: string, l: Lexeme, line: nat, acc: seq<Token>): seq<Token>
    requires l.start + l.len <= |s|
  {
    if IsEmitted(l.kind) then acc + [Token(l.kind, Text(s, l), line)] else acc
  }

  /** The scan as the loop of `tokenizar` performs it: `acc` holds the
      tokens gathered so far, and each step appends its token, if its kind
      is emitted, and counts its `NEWLINE`, if it is one. It yields the
      gathered tokens followed by the scan from the cursor. */
  function ScanInto(s: string, pos: nat, line: nat, acc: seq<Token>): (r: seq<Token>)
    requires pos <= |s|
    ensures r == acc + Scan(s, pos, line)
    decreases |s| - pos
  {
    if pos == |s| then
      ScanAtEnd(s, line);
      assert acc + [] == acc;
      acc
    else
      var l := Step(s, pos);
      ScanStep(s, pos, line);
      Gathers(s, pos, line, acc, l);
      ScanInto(s, pos + l.len, After(l, line), Gather(s, l, line, acc))
  }

  /** Gathering the step's token (or not) and then scanning from after it
      is appending the scan from before it. */
  lemma Gathers(s: string, pos: nat, line: nat, acc: seq<Token>, l: Lexeme)
    requires pos < |s| && l == Step(s, pos)
    ensures Gather(s, l, line, acc) + Scan(s, pos + l.len, After(l, line)) == acc + Scan(s, pos, line)
  {
    ScanStep(s, pos, line);
    var rest := Scan(s, pos + l.len, After(l, line));
    if IsEmitted(l.kind) {
      var t := [Token(l.kind, Text(s, l), line)];
      assert (acc + t) + rest == acc + (t + rest);
    }
  }

  lemma ScanIntoUnfold(s: string, pos: nat, line: nat, acc: seq<Token>,
                       l: Lexeme, pos': nat, line': nat, acc': seq<Token>)
    requires pos < |s| && l == Step(s, pos) && pos' == pos + l.len && line' == After(l, line)
    requires acc' == Gather(s, l, line, acc)
    ensures ScanInto(s, pos, line, acc) == ScanInto(s, pos', line', acc')
  {
    Gathers(s, pos, line, acc, l);
  }

  /** Started with nothing gathered, the accumulation is the scan. */
  lemma ScanIntoFromStart(s: string, pos: nat, line: nat)
    requires pos <= |s|
    ensures ScanInto(s, pos, line, []) == Scan(s, pos, line)
  {
    assert [] + Scan(s, pos, line) == Scan(s, pos, line);
  }

  /** One turn of the loop of `tokenizar`, once `RuleOrder[i]` is known to be
      the first rule to match at `pos`, with the match `v` of `n` characters:
      the accumulation and the line count go on from after the match, with
      `line'` and `acc'` updated as the loop body updates them. */
  lemma ScanIntoTakes(s: string, pos: nat, line: nat, acc: seq<Token>, i: nat, n: nat,
                      k: Kind, v: string, pos': nat, line': nat, acc': seq<Token>)
    requires pos < |s| && i < |RuleOrder|
    requires Match(RuleOrder[i], s, pos) == Some(n)
    requires forall j :: 0 <= j < i ==> Match(RuleOrder[j], s, pos).None?
    requires k == RuleOrder[i] && pos' == pos + n && pos' <= |s| && v == s[pos..pos']
    requires line' == if k == Newline then line + 1 else line
    requires IsEmitted(k) ==> acc' == acc + [Token(k, v, line)]
    requires !IsEmitted(k) ==> acc' == acc
    ensures ScanInto(s, pos, line, acc) == ScanInto(s, pos', line', acc')
    ensures LinesAfter(s, pos, line) == LinesAfter(s, pos', line')
  {
    assert Rank(k) == i;
    StepIsFirstMatch(s, pos, k, n);
    ScanIntoStepIs(s, pos, line, acc, k, n, v, pos', line', acc');
    LinesAfterStepIs(s, pos, line, k, n, pos', line');
  }

  lemma ScanIntoStepIs(s: string, pos: nat, line: nat, acc: seq<Token>,
                       k: Kind, n: nat, v: string, pos': nat, line': nat, acc': seq<Token>)
    requires pos < |s| && Step(s, pos) == Lexeme(k, pos, n)
    requires pos' == pos + n && v == s[pos..pos']
    requires line' == if k == Newline then line + 1 else line
    requires IsEmitted(k) ==> acc' == acc + [Token(k, v, line)]
    requires !IsEmitted(k) ==> acc' == acc
    ensures ScanInto(s, pos, line, acc) == ScanInto(s, pos', line', acc')
  {
    var l := Step(s, pos);
    assert Text(s, l) == v;
    ScanIntoUnfold(s, pos, line, acc, l, pos', line', acc');
  }

  lemma LinesAfterStepIs(s: string, pos: nat, line: nat, k: Kind, n: nat, pos': nat, line': nat)
    requires pos < |s| && Step(s, pos) == Lexeme(k, pos, n) && pos' == pos + n
    requires line' == if k == Newline then line + 1 else line
    ensures LinesAfter(s, pos, line) == LinesAfter(s, pos', line')
  {
    LinesAfterUnfold(s, pos, line, Lexeme(k, pos, n), pos', line');
  }

  /** Before the end of the input some rule of the table matches. */
  lemma SomeRuleMatches(s: string, pos: nat)
    requires pos < |s|
    ensures exists j :: 0 <= j < |RuleOrder| && Match(RuleOrder[j], s, pos).Some?
  {
    FallbackMatches(s, pos);
    if Match(Newline, s, pos).Some? {
      assert Match(RuleOrder[9], s, pos).Some?;
    } else {
      assert Match(RuleOrder[10], s, pos).Some?;
    }
  }

  /** The scan ends with no tokens at the end of the input. */
  lemma ScanAtEnd(s: string, line: nat)
    ensures Scan(s, |s|, line) == []
  {
  }

  /** Emitting spans of their rules' shapes: at most one token per span,
      each of an emitted kind, shaped, and on a line no earlier than the
      start line. */
  lemma {:induction false} EmitShape(s: string, segs: seq<Lexeme>, line: nat)
    requires forall i :: 0 <= i < |segs| ==> segs[i].start + segs[i].len <= |s|
    requires AllShaped(s, segs)
    ensures |Emit(s, segs, line)| <= |segs|
    ensures forall t :: t in Emit(s, segs, line) ==>
              IsEmitted(t.tipo) && line <= t.linea && WellFormed(t.tipo, t.valor)
  {
    if segs != [] {
      var l := segs[0];
      EmitShape(s, segs[1..], if l.kind == Newline then line + 1 else line);
    }
  }

  /** Every token is of an emitted kind, carries a line no earlier than the
      start line, and has its rule's shape. */
  lemma ScanShape(s: string, pos: nat, line: nat)
    requires pos <= |s|
    ensures forall t :: t in Scan(s, pos, line) ==>
              IsEmitted(t.tipo) && line <= t.linea && WellFormed(t.tipo, t.valor)
  {
    SegmentTiles(s, pos);
    SegmentShaped(s, pos);
    EmitShape(s, Segment(s, pos), line);
  }

  /** One token per span of an emitted kind. */
  lemma {:induction false} EmitLength(s: string, segs: seq<Lexeme>, line: nat)
    requires forall i :: 0 <= i < |segs| ==> segs[i].start + segs[i].len <= |s|
    ensures |Emit(s, segs, line)| == EmittedBefore(segs, |segs|)
  {
    if segs != [] {
      EmitLength(s, segs[1..], if segs[0].kind == Newline then line + 1 else line);
      EmittedBeforeShift(segs, |segs|);
    }
  }

  /** The token of an emitted span `i` is the one numbered by the emitted
      spans before it: its rule, its exact text, and as line the start line
      plus the `NEWLINE` spans before it. */
  lemma {:induction false} EmitAt(s: string, segs: seq<Lexeme>, line: nat, i: nat)
    requires forall k :: 0 <= k < |segs| ==> segs[k].start + segs[k].len <= |s|
    requires i < |segs| && IsEmitted(segs[i].kind)
    ensures EmittedBefore(segs, i) < |Emit(s, segs, line)|
    ensures Emit(s, segs, line)[EmittedBefore(segs, i)]
            == Token(segs[i].kind, Text(s, segs[i]), line + NewlinesBefore(segs, i))
  {
    if i > 0 {
      var line' := if segs[0].kind == Newline then line + 1 else line;
      EmitAt(s, segs[1..], line', i - 1);
      EmittedBeforeShift(segs, i);
      NewlinesBeforeShift(segs, i);
      assert segs[1..][i - 1] == segs[i];
    }
  }

  /** Every token comes from some emitted span. */
  lemma {:induction false} EmitFrom(s: string, segs: seq<Lexeme>, line: nat, j: nat)
    requires forall k :: 0 <= k < |segs| ==> segs[k].start + segs[k].len <= |s|
    requires j < |Emit(s, segs, line)|
    ensures exists i :: 0 <= i < |segs| && IsEmitted(segs[i].kind) && EmittedBefore(segs, i) == j
  {
    var line' := if segs[0].kind == Newline then line + 1 else line;
    if IsEmitted(segs[0].kind) && j == 0 {
      assert EmittedBefore(segs, 0) == 0;
    } else {
      var j' := if IsEmitted(segs[0].kind) then j - 1 else j;
      EmitFrom(s, segs[1..], line', j');
      var i' :| 0 <= i' < |segs[1..]| && IsEmitted(segs[1..][i'].kind) && EmittedBefore(segs[1..], i') == j';
      EmittedBeforeShift(segs, i' + 1);
      assert segs[i' + 1] == segs[1..][i'];
    }
  }

  /** Emission in closed form: one token per span of an emitted kind; the
      token numbered by the emitted spans before span `i` is span `i`'s,
      with its verbatim text and the line that the `NEWLINE` spans before it
      lead to. */
  predicate EmitsSpans(s: string, segs: seq<Lexeme>, line: nat, tokens: seq<Token>)
    requires forall k :: 0 <= k < |segs| ==> segs[k].start + segs[k].len <= |s|
  {
    |tokens| == EmittedBefore(segs, |segs|)
    && (forall i :: 0 <= i < |segs| && IsEmitted(segs[i].kind) ==>
          EmittedBefore(segs, i) < |tokens|
          && tokens[EmittedBefore(segs, i)]
             == Token(segs[i].kind, Text(s, segs[i]), line + NewlinesBefore(segs, i)))
  }

  lemma EmitIsEmitsSpans(s: string, segs: seq<Lexeme>, line: nat)
    requires forall k :: 0 <= k < |segs| ==> segs[k].start + segs[k].len <= |s|
    ensures EmitsSpans(s, segs, line, Emit(s, segs, line))
  {
    EmitLength(s, segs, line);
    forall i | 0 <= i < |segs| && IsEmitted(segs[i].kind)
      ensures EmittedBefore(segs, i) < |Emit(s, segs, line)|
      ensures Emit(s, segs, line)[EmittedBefore(segs, i)]
              == Token(segs[i].kind, Text(s, segs[i]), line + NewlinesBefore(segs, i))
    {
      EmitAt(s, segs, line, i);
    }
  }

  /** The scan from `pos` with counter `line`: its spans tile and reassemble
      the rest of the input, and its tokens are the emission of those spans. */
  lemma ScanSpans(s: string, pos: nat, line: nat)
    requires pos <= |s|
    ensures var segs := Segment(s, pos);
            Tiles(s, segs, pos) && InBounds(s, segs) && Flatten(s, segs) == s[pos..]
            && EmitsSpans(s, segs, line, Scan(s, pos, line))
  {
    SegmentTiles(s, pos);
    SegmentCoversInput(s, pos);
    EmitIsEmitsSpans(s, Segment(s, pos), line);
  }
}
