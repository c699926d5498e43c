/** Token recognition of section 2.3 of the shell command language of POSIX.1-2024:
    trivia between tokens, operators, newlines and words, and what a whole run of
    tokens says about the input. */
module Tokens {
  import opened Bytes
  import opened WordGrammar
  import WordTrees

  const TRIVIA_STEP_CAP: nat := 1024 * 1024 + 1

  // ----- operators -----

  datatype Kind =
    | Eof | Word | Newline | AndIf | OrIf | DoubleSemi | SemiAnd | DoubleLess | DoubleGreat | LessAnd | GreatAnd
    | LessGreat | DoubleLessDash | Clobber | Ampersand | Semi | Pipe | LeftParen | RightParen | Less | Great

  datatype Operator = Operator(text: Text, kind: Kind)

  /** The table, longest texts first. */
  const OPERATORS: seq<Operator> := [
    Operator([LESS, LESS, MINUS], DoubleLessDash),
    Operator([AMPERSAND, AMPERSAND], AndIf),
    Operator([PIPE, PIPE], OrIf),
    Operator([SEMICOLON, SEMICOLON], DoubleSemi),
    Operator([SEMICOLON, AMPERSAND], SemiAnd),
    Operator([LESS, LESS], DoubleLess),
    Operator([GREATER, GREATER], DoubleGreat),
    Operator([LESS, AMPERSAND], LessAnd),
    Operator([GREATER, AMPERSAND], GreatAnd),
    Operator([LESS, GREATER], LessGreat),
    Operator([GREATER, PIPE], Clobber),
    Operator([AMPERSAND], Ampersand),
    Operator([SEMICOLON], Semi),
    Operator([PIPE], Pipe),
    Operator([LEFT], LeftParen),
    Operator([RIGHT], RightParen),
    Operator([LESS], Less),
    Operator([GREATER], Great)
  ]

  predicate StartsWith(s: Text, p: nat, text: Text) {
    p + |text| <= |s| && s[p..p + |text|] == text
  }

  /** The first entry from `index` on that the text at `p` starts with. */
  function FirstFrom(s: Text, p: nat, index: nat): (found: Option<Operator>)
    ensures found.Some? ==> found.value in OPERATORS && StartsWith(s, p, found.value.text)
    decreases |OPERATORS| - index
  {
    if index >= |OPERATORS| then None
    else if StartsWith(s, p, OPERATORS[index].text) then Some(OPERATORS[index])
    else FirstFrom(s, p, index + 1)
  }

  /** `operator_at`. */
  function OperatorAt(s: Text, p: nat): Option<Operator> {
    FirstFrom(s, p, 0)
  }

  lemma TableIsSorted(i: nat, j: nat)
    requires i <= j < |OPERATORS|
    ensures |OPERATORS[i].text| >= |OPERATORS[j].text|
  {
  }

  lemma {:induction false} FirstIsLongest(s: Text, p: nat, index: nat, other: nat)
    requires index <= other < |OPERATORS| && StartsWith(s, p, OPERATORS[other].text)
    ensures FirstFrom(s, p, index).Some?
    ensures |FirstFrom(s, p, index).value.text| >= |OPERATORS[other].text|
    decreases |OPERATORS| - index
  {
    hide StartsWith, OPERATORS;
    TableIsSorted(index, other);
    if !StartsWith(s, p, OPERATORS[index].text) {
      FirstIsLongest(s, p, index + 1, other);
    }
  }

  /** The operator found is the longest one that is there, and one is found exactly at
      the operator bytes. */
  lemma OperatorsAreLongest(s: Text, p: nat)
    ensures OperatorAt(s, p).Some? ==> IsLongest(s, p, OperatorAt(s, p).value)
    ensures OperatorAt(s, p).Some? <==>
            p < |s| && s[p] in [AMPERSAND, SEMICOLON, PIPE, LEFT, RIGHT, LESS, GREATER]
  {
    hide FirstFrom, OPERATORS;
    forall other | other in OPERATORS && StartsWith(s, p, other.text)
      ensures OperatorAt(s, p).Some? && |other.text| <= |OperatorAt(s, p).value.text|
    {
      var i :| 0 <= i < |OPERATORS| && OPERATORS[i] == other;
      FirstIsLongest(s, p, 0, i);
    }
    if OperatorAt(s, p).Some? {
      OperatorBytes(OperatorAt(s, p).value);
      assert s[p] == s[p..p + |OperatorAt(s, p).value.text|][0];
    }
    if p < |s| && s[p] in [AMPERSAND, SEMICOLON, PIPE, LEFT, RIGHT, LESS, GREATER] {
      SingleOperator(s[p]);
      var i :| 0 <= i < |OPERATORS| && OPERATORS[i].text == [s[p]];
      assert StartsWith(s, p, OPERATORS[i].text);
    }
  }

  lemma OperatorBytes(o: Operator)
    requires o in OPERATORS
    ensures 1 <= |o.text| <= 3 && o.text[0] in [AMPERSAND, SEMICOLON, PIPE, LEFT, RIGHT, LESS, GREATER]
  {
  }

  lemma SingleOperator(b: Byte)
    requires b in [AMPERSAND, SEMICOLON, PIPE, LEFT, RIGHT, LESS, GREATER]
    ensures exists i :: 0 <= i < |OPERATORS| && OPERATORS[i].text == [b]
  {
    assert OPERATORS[11].text == [AMPERSAND] && OPERATORS[12].text == [SEMICOLON] && OPERATORS[13].text == [PIPE];
    assert OPERATORS[14].text == [LEFT] && OPERATORS[15].text == [RIGHT];
    assert OPERATORS[16].text == [LESS] && OPERATORS[17].text == [GREATER];
  }

  // ----- trivia -----

  function SkipBlanks(s: Text, p: nat): (q: nat)
    requires p <= |s|
    ensures p <= q <= |s| && (q < |s| ==> s[q] != SPACE && s[q] != TAB)
    decreases |s| - p
  {
    if p < |s| && (s[p] == SPACE || s[p] == TAB) then SkipBlanks(s, p + 1) else p
  }

  function CommentEnd(s: Text, p: nat): (q: nat)
    requires p <= |s|
    ensures p <= q <= |s| && (q < |s| ==> s[q] == NEWLINE)
    ensures forall k :: p <= k < q ==> s[k] != NEWLINE
    decreases |s| - p
  {
    if p < |s| && s[p] != NEWLINE then CommentEnd(s, p + 1) else p
  }

  predicate Continued(s: Text, p: nat) {
    At(s, p, BACKSLASH) && At(s, p + 1, NEWLINE)
  }

  datatype Skipped = Skipped(at: nat, steps: nat)

  /** The trivia loop of `gsh_lexer_next`, cut off after `cap` steps. */
  function Skip(s: Text, p: nat, cap: nat): (k: Skipped)
    requires p <= |s|
    ensures p <= k.at <= |s| && k.steps <= cap
    decreases cap
  {
    if cap == 0 then Skipped(p, 0)
    else
      var q := SkipBlanks(s, p);
      if Continued(s, q) then OneMore(Skip(s, q + 2, cap - 1))
      else if At(s, q, HASH) then OneMore(Skip(s, CommentEnd(s, q), cap - 1))
      else Skipped(q, 0)
  }

  function OneMore(k: Skipped): Skipped {
    Skipped(k.at, k.steps + 1)
  }

  /** Blanks, escaped newlines and whole comments, and nothing else. */
  ghost predicate Trivia(s: Text, p: nat, q: nat)
    requires p <= q <= |s|
    decreases q - p
  {
    p == q
    || ((s[p] == SPACE || s[p] == TAB) && Trivia(s, p + 1, q))
    || (Continued(s, p) && p + 2 <= q && Trivia(s, p + 2, q))
    || (s[p] == HASH && CommentEnd(s, p) <= q && Trivia(s, CommentEnd(s, p), q))
  }

  lemma {:induction false} BlanksAreTrivia(s: Text, p: nat, q: nat)
    requires p <= q <= |s| && SkipBlanks(s, p) <= q && Trivia(s, SkipBlanks(s, p), q)
    ensures Trivia(s, p, q)
    decreases |s| - p
  {
    if p < |s| && (s[p] == SPACE || s[p] == TAB) {
      BlanksAreTrivia(s, p + 1, q);
    }
  }

  predicate Stops(s: Text, p: nat) {
    !At(s, p, SPACE) && !At(s, p, TAB) && !At(s, p, HASH) && !Continued(s, p)
  }

  /** Only trivia is skipped, all of it unless the step limit cuts it off, and a step
      takes two bytes, but for the last comment. */
  lemma {:induction false} SkipIsTrivia(s: Text, p: nat, cap: nat)
    requires p <= |s|
    ensures Trivia(s, p, Skip(s, p, cap).at)
    ensures Skip(s, p, cap).steps < cap ==> Stops(s, Skip(s, p, cap).at)
    ensures 2 * Skip(s, p, cap).steps <= Skip(s, p, cap).at - p + 1
    decreases cap
  {
    hide SkipBlanks, CommentEnd;
    if cap > 0 {
      var q := SkipBlanks(s, p);
      if Continued(s, q) {
        SkipIsTrivia(s, q + 2, cap - 1);
        assert Trivia(s, q, Skip(s, q + 2, cap - 1).at);
      } else if At(s, q, HASH) {
        var e := CommentEnd(s, q);
        CommentMoves(s, q);
        BehindComment(s, e, cap - 1);
        assert Trivia(s, e, e);
        assert Trivia(s, q, e);
      }
      BlanksAreTrivia(s, p, Skip(s, p, cap).at);
    }
  }

  lemma CommentMoves(s: Text, q: nat)
    requires At(s, q, HASH)
    ensures q < CommentEnd(s, q)
  {
  }

  lemma BehindComment(s: Text, e: nat, cap: nat)
    requires e <= |s| && (e < |s| ==> s[e] == NEWLINE)
    ensures Skip(s, e, cap) == Skipped(e, 0)
  {
  }

  /** The trivia limit is out of reach for every input up to 2 MiB. */
  lemma TriviaLimitIsUnreachable(s: Text, p: nat)
    requires p <= |s| <= 2 * 1024 * 1024
    ensures Skip(s, p, TRIVIA_STEP_CAP).steps < TRIVIA_STEP_CAP
  {
    hide Skip, Trivia;
    SkipIsTrivia(s, p, TRIVIA_STEP_CAP);
  }

  // ----- one token -----

  datatype Status = Okay | Incomplete | Invalid | Limit

  datatype Token = Token(kind: Kind, begin: nat, end: nat)

  /** The part of a lexer that decides what comes next. */
  datatype State = State(offset: nat, status: Status, errorAt: nat)

  /** What a call returns, and the state it leaves. */
  datatype Step = Step(returned: Status, token: Option<Token>, state: State)

  function Failing(status: Status, at: nat): Step {
    Step(status, None, State(at, status, at))
  }

  function WordFailure(s: Text, end: End): Step
    requires !end.Finished?
  {
    match end
    case Unfinished => Failing(Incomplete, |s|)
    case Nul(at) => Failing(Invalid, at)
    case TooDeep(at) => Failing(Limit, at)
  }

  /** The token that begins at `p`, behind any trivia. */
  function TokenAt(s: Text, p: nat, errorAt: nat): (r: Step)
    requires p <= |s|
  {
    if p == |s| then Step(Okay, Some(Token(Eof, p, p)), State(p, Okay, errorAt))
    else if s[p] == NUL then Failing(Invalid, p)
    else if s[p] == NEWLINE then Step(Okay, Some(Token(Newline, p, p + 1)), State(p + 1, Okay, errorAt))
    else if OperatorAt(s, p).Some? then
      var o := OperatorAt(s, p).value;
      Step(Okay, Some(Token(o.kind, p, p + |o.text|)), State(p + |o.text|, Okay, errorAt))
    else
      var scanned := Scan(s, Config(p, [], None));
      if !scanned.end.Finished? then WordFailure(s, scanned.end)
      else
        var at := scanned.end.at;
        if at == p then Failing(Invalid, p)
        else Step(Okay, Some(Token(Word, p, at)),
                  if scanned.over.None? then State(at, Okay, errorAt) else State(at, Limit, scanned.over.value))
  }

  /** `gsh_lexer_next`. */
  function Next(s: Text, st: State): Step
    requires st.offset <= |s|
  {
    if st.status != Okay then Step(st.status, None, st)
    else
      var k := Skip(s, st.offset, TRIVIA_STEP_CAP);
      if k.steps == TRIVIA_STEP_CAP then Failing(Limit, k.at)
      else TokenAt(s, k.at, st.errorAt)
  }

  /** The error for an empty word is never the one that is given. */
  lemma WordsAreNotEmpty(s: Text, p: nat)
    requires p < |s| && s[p] != NUL && s[p] != NEWLINE && OperatorAt(s, p).None? && Stops(s, p)
    ensures Scan(s, Config(p, [], None)).end != Finished(p)
    ensures Scan(s, Config(p, [], None)).end.Finished? ==> p < Scan(s, Config(p, [], None)).end.at <= |s|
  {
    OperatorsAreLongest(s, p);
    hide OperatorAt, OPERATORS;
    assert !Separates(s[p]);
    FirstStepMoves(s, p);
  }

  lemma {:induction false} ScanMoves(s: Text, c: Config)
    requires c.at <= |s|
    ensures Scan(s, c).end.Finished? ==> c.at <= Scan(s, c).end.at <= |s|
    decreases |s| - c.at
  {
    hide Scan, Act;
    ScanStep(s, c);
    if Runs(s, c.at, Top(c.stack)) {
      var next := Perform(c, Act(s, c.at, Top(c.stack)));
      if next.Some? {
        ScanMoves(s, next.value);
      }
    }
  }

  lemma FirstStepMoves(s: Text, p: nat)
    requires p < |s| && s[p] != NUL && !Separates(s[p])
    ensures Scan(s, Config(p, [], None)).end.Finished? ==> p < Scan(s, Config(p, [], None)).end.at <= |s|
  {
    hide Scan, Act;
    var c := Config(p, [], None);
    ScanStep(s, c);
    var next := Perform(c, Act(s, p, None));
    if next.Some? {
      ScanMoves(s, next.value);
    }
  }

  /** What each kind of token is, said without the scanner. */
  ghost predicate IsToken(s: Text, t: Token)
  {
    && t.begin <= t.end <= |s|
    && match t.kind
       case Eof => t.begin == t.end == |s|
       case Newline => t.end == t.begin + 1 && s[t.begin] == NEWLINE
       case Word =>
         && t.begin < t.end && !Separates(s[t.begin]) && Stops(s, t.begin)
         && (exists depth: nat :: depth <= CONTEXT_CAP && WordTrees.IsWord(s, t.begin, t.end, depth))
       case _ => t.begin < t.end && IsLongest(s, t.begin, Operator(s[t.begin..t.end], t.kind))
  }

  /** An entry of the table that is there, and no longer one is. */
  ghost predicate IsLongest(s: Text, p: nat, o: Operator) {
    && o in OPERATORS && StartsWith(s, p, o.text)
    && forall other :: other in OPERATORS && StartsWith(s, p, other.text) ==> |other.text| <= |o.text|
  }

  /** A token returned by a lexer that stays usable is what its kind says, behind
      trivia only; and the lexer goes on from its end. */
  lemma NextIsToken(s: Text, st: State)
    requires st.offset <= |s| && st.status == Okay
    requires Next(s, st).returned == Okay && Next(s, st).state.status == Okay
    ensures Next(s, st).token.Some?
    ensures var t := Next(s, st).token.value;
      && IsToken(s, t) && st.offset <= t.begin && Trivia(s, st.offset, t.begin)
      && Next(s, st).state.offset == t.end && (!t.kind.Eof? ==> t.begin < t.end)
  {
    SkipIsTrivia(s, st.offset, TRIVIA_STEP_CAP);
    hide Skip, Trivia;
    var p := Skip(s, st.offset, TRIVIA_STEP_CAP).at;
    TokenIsOne(s, p, st.errorAt);
  }

  lemma TokenIsOne(s: Text, p: nat, errorAt: nat)
    requires p <= |s| && Stops(s, p)
    requires TokenAt(s, p, errorAt).returned == Okay && TokenAt(s, p, errorAt).state.status == Okay
    ensures TokenAt(s, p, errorAt).token.Some?
    ensures var t := TokenAt(s, p, errorAt).token.value;
      && IsToken(s, t) && t.begin == p && TokenAt(s, p, errorAt).state.offset == t.end
      && (!t.kind.Eof? ==> t.begin < t.end)
  {
    hide Scan, OperatorAt, IsLongest, OPERATORS, WordTrees.IsWord;
    OperatorsAreLongest(s, p);
    if p < |s| && s[p] != NEWLINE {
      if OperatorAt(s, p).Some? {
        LongestToken(s, p, OperatorAt(s, p).value);
      } else {
        WordsAreNotEmpty(s, p);
        WordTrees.ScannedWordsAreTrees(s, p, Scan(s, Config(p, [], None)).end.at);
      }
    }
  }

  lemma Started(s: Text, p: nat, text: Text)
    requires StartsWith(s, p, text)
    ensures p + |text| <= |s| && s[p..p + |text|] == text
  {
  }

  lemma LongestToken(s: Text, p: nat, o: Operator)
    requires IsLongest(s, p, o)
    ensures IsToken(s, Token(o.kind, p, p + |o.text|)) && 1 <= |o.text| && !o.kind.Eof?
  {
    hide OPERATORS, StartsWith;
    OperatorBytes(o);
    KindsOfOperators(o);
    Started(s, p, o.text);
    assert s[p..p + |o.text|] == o.text;
  }

  lemma KindsOfOperators(o: Operator)
    requires o in OPERATORS
    ensures !o.kind.Eof? && !o.kind.Newline? && !o.kind.Word?
  {
  }

  // ----- a whole run -----

  datatype Tokenized = Tokenized(tokens: seq<Token>, returned: Status)

  /** A call that returns a token consumes at least one byte. */
  lemma NextMoves(s: Text, st: State)
    requires st.offset <= |s| && Next(s, st).returned == Okay
    ensures Next(s, st).token.Some?
    ensures !Next(s, st).token.value.kind.Eof? ==> st.offset < Next(s, st).state.offset <= |s|
  {
    SkipIsTrivia(s, st.offset, TRIVIA_STEP_CAP);
    hide Scan, Skip, FirstFrom, Trivia, OPERATORS;
    var p := Skip(s, st.offset, TRIVIA_STEP_CAP).at;
    if p < |s| && s[p] != NUL && s[p] != NEWLINE {
      if OperatorAt(s, p).Some? {
        OperatorBytes(OperatorAt(s, p).value);
      } else {
        WordsAreNotEmpty(s, p);
      }
    }
  }

  /** Tokens up to the end of the input or the first call that fails. */
  function Tokenize(s: Text, st: State): Tokenized
    requires st.offset <= |s|
    decreases |s| - st.offset, if st.status == Okay then 1 else 0
  {
    var step := Next(s, st);
    if step.returned != Okay then Tokenized([], step.returned)
    else
      NextMoves(s, st);
      if step.token.value.kind.Eof? then Tokenized([step.token.value], Okay) else
      var more := Tokenize(s, step.state);
      Tokenized([step.token.value] + more.tokens, more.returned)
  }

  /** Tokens in order, nothing but trivia between them, up to the end of the input. */
  ghost predicate Covers(s: Text, p: nat, tokens: seq<Token>)
    requires p <= |s|
    decreases |tokens|
  {
    tokens != [] && IsToken(s, tokens[0]) && p <= tokens[0].begin && Trivia(s, p, tokens[0].begin) &&
    if tokens[0].kind.Eof? then |tokens| == 1 else Covers(s, tokens[0].end, tokens[1..])
  }

  /** A run that reaches the end of the input covers it without loss: its tokens are
      disjoint, ordered and each what its kind says. */
  lemma {:induction false} RunCovers(s: Text, st: State)
    requires st.offset <= |s| && st.status == Okay && Tokenize(s, st).returned == Okay
    ensures Covers(s, st.offset, Tokenize(s, st).tokens)
    decreases |s| - st.offset
  {
    hide Next, IsToken, Trivia;
    var step := Next(s, st);
    if step.state.status == Okay {
      NextIsToken(s, st);
      NextMoves(s, st);
      if !step.token.value.kind.Eof? {
        RunCovers(s, step.state);
        assert Tokenize(s, st).tokens[1..] == Tokenize(s, step.state).tokens;
      }
    } else {
      LateLimit(s, st);
    }
  }

  /** A call that returns a token from an overrun scan is never the last one: the
      next call fails, so such a run never reaches the end. */
  lemma LateLimit(s: Text, st: State)
    requires st.offset <= |s| && st.status == Okay
    requires Next(s, st).returned == Okay && Next(s, st).state.status != Okay
    ensures Next(s, st).token.Some? && Next(s, st).token.value.kind.Word?
    ensures Next(s, st).state.offset <= |s| && Next(s, Next(s, st).state).returned == Limit
  {
    NextMoves(s, st);
    hide Scan, Skip, FirstFrom;
  }

  // ----- the cover is the run -----

  /** Trivia in front of anything else is skipped entirely. */
  lemma {:induction false} TriviaIsSkipped(s: Text, p: nat, q: nat, cap: nat)
    requires p <= q <= |s| && Trivia(s, p, q) && Stops(s, q) && Skip(s, p, cap).steps < cap
    ensures Skip(s, p, cap).at == q
    decreases q - p
  {
    hide CommentEnd;
    if p < q {
      if s[p] == SPACE || s[p] == TAB {
        assert SkipBlanks(s, p) == SkipBlanks(s, p + 1);
        TriviaIsSkipped(s, p + 1, q, cap);
      } else if Continued(s, p) {
        TriviaIsSkipped(s, p + 2, q, cap - 1);
      } else {
        CommentMoves(s, p);
        TriviaIsSkipped(s, CommentEnd(s, p), q, cap - 1);
      }
    }
  }

  /** The longest operator at a place is one entry only. */
  lemma LongestIsOne(s: Text, p: nat, o: Operator, other: Operator)
    requires IsLongest(s, p, o) && IsLongest(s, p, other)
    ensures o == other
  {
    hide OPERATORS;
    TextNamesKind(o);
    TextNamesKind(other);
    assert o.text == s[p..p + |o.text|] && other.text == s[p..p + |other.text|];
  }

  function KindNamed(text: Text): Kind {
    if |text| == 0 || |text| > 2 then DoubleLessDash
    else if |text| == 2 then PairNamed(text[0], text[1])
    else if text[0] == AMPERSAND then Ampersand
    else if text[0] == SEMICOLON then Semi
    else if text[0] == PIPE then Pipe
    else if text[0] == LEFT then LeftParen
    else if text[0] == RIGHT then RightParen
    else if text[0] == LESS then Less
    else Great
  }

  function PairNamed(a: Byte, b: Byte): Kind {
    if a == PIPE then OrIf
    else if a == AMPERSAND then AndIf
    else if a == SEMICOLON then if b == SEMICOLON then DoubleSemi else SemiAnd
    else if a == LESS then if b == LESS then DoubleLess else if b == AMPERSAND then LessAnd else LessGreat
    else if b == GREATER then DoubleGreat
    else if b == AMPERSAND then GreatAnd
    else Clobber
  }

  lemma TextNamesKind(o: Operator)
    requires o in OPERATORS
    ensures o.kind == KindNamed(o.text)
  {
    hide KindNamed, OPERATORS;
    var i :| 0 <= i < |OPERATORS| && OPERATORS[i] == o;
    TableSize();
    if i < 6 {
      FirstTextsNameKinds(i);
    } else if i < 11 {
      MiddleTextsNameKinds(i);
    } else {
      LastTextsNameKinds(i);
    }
  }

  lemma TableSize()
    ensures |OPERATORS| == 18
  {
  }

  lemma FirstTextsNameKinds(i: nat)
    requires i < 6 && |OPERATORS| == 18
    ensures OPERATORS[i].kind == KindNamed(OPERATORS[i].text)
  {
  }

  lemma MiddleTextsNameKinds(i: nat)
    requires 6 <= i < 11 && |OPERATORS| == 18
    ensures OPERATORS[i].kind == KindNamed(OPERATORS[i].text)
  {
  }

  lemma LastTextsNameKinds(i: nat)
    requires 11 <= i < 18 && |OPERATORS| == 18
    ensures OPERATORS[i].kind == KindNamed(OPERATORS[i].text)
  {
  }

  /** A lexer at the start of an operator's text alone returns its kind. */
  lemma OperatorIsReturned(o: Operator)
    requires o in OPERATORS
    ensures Next(o.text, State(0, Okay, 0)).returned == Okay
    ensures Next(o.text, State(0, Okay, 0)).token == Some(Token(o.kind, 0, |o.text|))
  {
    hide OPERATORS, FirstFrom, StartsWith, Scan;
    OperatorBytes(o);
    var s := o.text;
    assert s[0..|s|] == s;
    StartsItself(s);
    OperatorsAreLongest(s, 0);
    WholeIsLongest(s, o);
    LongestIsOne(s, 0, o, OperatorAt(s, 0).value);
    assert SkipBlanks(s, 0) == 0;
  }

  lemma StartsItself(s: Text)
    ensures StartsWith(s, 0, s)
  {
    assert s[0..|s|] == s;
  }

  lemma WholeIsLongest(s: Text, o: Operator)
    requires o in OPERATORS && s == o.text && StartsWith(s, 0, s)
    ensures IsLongest(s, 0, o)
  {
    hide OPERATORS;
  }

  /** The operators of section 2.10 of XCU, POSIX.1-2024, each with the kind its text is
      returned as. */
  ghost predicate IsNamed(text: Text, kind: Kind) {
    match kind
    case AndIf => text == Spelled("&&")
    case OrIf => text == Spelled("||")
    case DoubleSemi => text == Spelled(";;")
    case SemiAnd => text == Spelled(";&")
    case DoubleLess => text == Spelled("<<")
    case DoubleGreat => text == Spelled(">>")
    case LessAnd => text == Spelled("<&")
    case GreatAnd => text == Spelled(">&")
    case LessGreat => text == Spelled("<>")
    case DoubleLessDash => text == Spelled("<<-")
    case Clobber => text == Spelled(">|")
    case Ampersand => text == Spelled("&")
    case Semi => text == Spelled(";")
    case Pipe => text == Spelled("|")
    case LeftParen => text == Spelled("(")
    case RightParen => text == Spelled(")")
    case Less => text == Spelled("<")
    case Great => text == Spelled(">")
    case _ => false
  }

  lemma NamedIsInTable(text: Text, kind: Kind)
    requires IsNamed(text, kind)
    ensures Operator(text, kind) in OPERATORS
  {
    var i := match kind
      case DoubleLessDash => 0
      case AndIf => 1
      case OrIf => 2
      case DoubleSemi => 3
      case SemiAnd => 4
      case DoubleLess => 5
      case DoubleGreat => 6
      case LessAnd => 7
      case GreatAnd => 8
      case LessGreat => 9
      case Clobber => 10
      case Ampersand => 11
      case Semi => 12
      case Pipe => 13
      case LeftParen => 14
      case RightParen => 15
      case Less => 16
      case _ => 17;
    assert OPERATORS[i] == Operator(text, kind);
  }

  lemma TableIsNamed(o: Operator)
    requires o in OPERATORS
    ensures IsNamed(o.text, o.kind)
  {
    hide IsNamed, OPERATORS;
    var i :| 0 <= i < |OPERATORS| && OPERATORS[i] == o;
    TableSize();
    if i < 9 {
      FirstAreNamed(i);
    } else {
      LastAreNamed(i);
    }
  }

  lemma FirstAreNamed(i: nat)
    requires i < 9 && |OPERATORS| == 18
    ensures IsNamed(OPERATORS[i].text, OPERATORS[i].kind)
  {
  }

  lemma LastAreNamed(i: nat)
    requires 9 <= i < 18 && |OPERATORS| == 18
    ensures IsNamed(OPERATORS[i].text, OPERATORS[i].kind)
  {
  }

  /** Exactly these texts are operators, and a lexer at the start of one of them alone
      returns its kind. */
  lemma KindsAreNamed(text: Text, kind: Kind)
    ensures IsNamed(text, kind) <==> Operator(text, kind) in OPERATORS
    ensures IsNamed(text, kind) ==>
      && Next(text, State(0, Okay, 0)).returned == Okay
      && Next(text, State(0, Okay, 0)).token == Some(Token(kind, 0, |text|))
  {
    hide IsNamed, OPERATORS, Next;
    if IsNamed(text, kind) {
      NamedIsInTable(text, kind);
      OperatorIsReturned(Operator(text, kind));
    }
    if Operator(text, kind) in OPERATORS {
      TableIsNamed(Operator(text, kind));
    }
  }

  /** What kind a token has, and where it ends, follows from where it begins. */
  lemma TokenIsFound(s: Text, t: Token, errorAt: nat)
    requires IsToken(s, t)
    ensures t.begin <= t.end <= |s| && Stops(s, t.begin)
    ensures TokenAt(s, t.begin, errorAt) == Step(Okay, Some(t), State(t.end, Okay, errorAt))
  {
    hide Scan, OperatorAt, IsLongest, OPERATORS, WordTrees.IsWord;
    var p := t.begin;
    OperatorsAreLongest(s, p);
    if t.kind.Word? {
      WordTrees.ScannedWordsAreTrees(s, p, t.end);
      NotBroken(s, p, t.end);
    } else if !t.kind.Eof? && !t.kind.Newline? {
      var o := Operator(s[p..t.end], t.kind);
      LongestStarts(s, p, o);
      LongestIsOne(s, p, o, OperatorAt(s, p).value);
    }
  }

  lemma LongestStarts(s: Text, p: nat, o: Operator)
    requires IsLongest(s, p, o)
    ensures OperatorAt(s, p).Some? && p < |s| && s[p] in [AMPERSAND, SEMICOLON, PIPE, LEFT, RIGHT, LESS, GREATER]
  {
    hide OPERATORS, FirstFrom;
    OperatorBytes(o);
    assert s[p] == s[p..p + |o.text|][0];
    OperatorsAreLongest(s, p);
  }

  lemma NotBroken(s: Text, p: nat, end: nat)
    requires p < |s| && Scan(s, Config(p, [], None)).end == Finished(end)
    ensures s[p] != NUL
  {
  }

  /** The reference determines the lexer: a cover of the input is what the run returns. */
  lemma {:induction false} CoverIsRun(s: Text, st: State, tokens: seq<Token>)
    requires st.offset <= |s| <= 2 * 1024 * 1024 && st.status == Okay && Covers(s, st.offset, tokens)
    ensures Tokenize(s, st) == Tokenized(tokens, Okay)
    decreases |tokens|
  {
    hide Trivia, IsToken, TokenAt, Skip;
    TriviaLimitIsUnreachable(s, st.offset);
    var t := tokens[0];
    TokenIsFound(s, t, st.errorAt);
    TriviaIsSkipped(s, st.offset, t.begin, TRIVIA_STEP_CAP);
    if t.kind.Eof? {
      assert tokens == [t];
    } else {
      CoverIsRun(s, State(t.end, Okay, st.errorAt), tokens[1..]);
      assert tokens == [t] + tokens[1..];
    }
  }

  /** For every input up to 2 MiB the lexer reaches the end with given tokens exactly
      when they are a cover of the input by longest operators, newlines and words that are
      texts of trees, with nothing but trivia between them. */
  lemma LexerIsReference(s: Text, tokens: seq<Token>)
    requires |s| <= 2 * 1024 * 1024
    ensures Tokenize(s, State(0, Okay, 0)) == Tokenized(tokens, Okay) <==> Covers(s, 0, tokens)
  {
    hide Tokenize, Covers;
    if Tokenize(s, State(0, Okay, 0)) == Tokenized(tokens, Okay) {
      RunCovers(s, State(0, Okay, 0));
    }
    if Covers(s, 0, tokens) {
      CoverIsRun(s, State(0, Okay, 0), tokens);
    }
  }

  // ----- why a call fails -----

  lemma {:induction false} NoNulIsNotBroken(s: Text, p: nat, top: Option<Context>)
    requires p <= |s| && NUL !in s
    ensures !Items(s, p, top).Broken?
    decreases |s| - p
  {
    hide Act, Items, Separates;
    ItemsStep(s, p, top);
    if Runs(s, p, top) {
      var a := Act(s, p, top);
      if a.Take? {
        NoNulIsNotBroken(s, p + a.n, top);
      } else if a.Open? {
        NoNulIsNotBroken(s, p + a.n, Some(a.context));
        var inside := Items(s, p + a.n, Some(a.context));
        if inside.Ended? {
          NoNulIsNotBroken(s, inside.at, top);
        }
      }
    }
  }

  /** Where no newline and no operator begins, and nesting is at most 128 deep, the call
      returns the word there, asks for more input if a construct is left open, and refuses a
      NUL at its place. */
  lemma WordStatusIsExact(s: Text, p: nat, errorAt: nat)
    requires p < |s| && s[p] != NEWLINE && OperatorAt(s, p).None? && Stops(s, p)
    requires Items(s, p, None).depth <= CONTEXT_CAP
    ensures var n, step := Items(s, p, None), TokenAt(s, p, errorAt);
      && (n.Ended? ==> step == Step(Okay, Some(Token(Word, p, n.at)), State(n.at, Okay, errorAt)))
      && (n.Unended? ==> step == Step(Incomplete, None, State(|s|, Incomplete, |s|)))
      && (n.Broken? ==> step == Step(Invalid, None, State(n.at, Invalid, n.at)))
  {
    hide Scan, Items, OperatorAt;
    ItemsStep(s, p, None);
    if s[p] != NUL {
      WordsAreNotEmpty(s, p);
      ScanFits(s, Config(p, [], None));
    }
  }

  /** In an input without NULs that nests at most 128 deep where the next token begins, a
      call fails only for want of more input, and exactly when what stands behind the
      trivia is no token: there is more, but no newline, operator or word begins there. */
  lemma FailsExactlyWhenOpen(s: Text, st: State)
    requires st.offset <= |s| <= 2 * 1024 * 1024 && st.status == Okay && NUL !in s
    requires Items(s, Skip(s, st.offset, TRIVIA_STEP_CAP).at, None).depth <= CONTEXT_CAP
    ensures var p := Skip(s, st.offset, TRIVIA_STEP_CAP).at;
      && Trivia(s, st.offset, p) && Next(s, st).returned in {Okay, Incomplete}
      && (Next(s, st).returned == Okay <==> exists t :: IsToken(s, t) && t.begin == p)
  {
    SkipIsTrivia(s, st.offset, TRIVIA_STEP_CAP);
    TriviaLimitIsUnreachable(s, st.offset);
    var p := Skip(s, st.offset, TRIVIA_STEP_CAP).at;
    NoNulIsNotBroken(s, p, None);
    hide Scan, Skip, Items, OperatorAt, Trivia, IsToken, IsLongest, OPERATORS;
    if p < |s| && s[p] != NEWLINE && OperatorAt(s, p).None? {
      assert s[p] in s;
      WordStatusIsExact(s, p, st.errorAt);
    }
    if Next(s, st).returned == Okay {
      TokenIsOne(s, p, st.errorAt);
      assert IsToken(s, TokenAt(s, p, st.errorAt).token.value);
    }
    if t :| IsToken(s, t) && t.begin == p {
      TokenIsFound(s, t, st.errorAt);
    }
  }

  // ----- line and column -----

  /** Lines begun by the first `n` bytes. */
  function LineOf(s: Text, n: nat): nat
    requires n <= |s|
  {
    if n == 0 then 1 else LineOf(s, n - 1) + (if s[n - 1] == NEWLINE then 1 else 0)
  }

  /** Where the line of byte `n` begins. */
  function LineStart(s: Text, n: nat): (start: nat)
    requires n <= |s|
    ensures start <= n && NEWLINE !in s[start..n] && (start > 0 ==> s[start - 1] == NEWLINE)
  {
    if n == 0 || s[n - 1] == NEWLINE then n else LineStart(s, n - 1)
  }

  function ColumnOf(s: Text, n: nat): nat
    requires n <= |s|
  {
    n - LineStart(s, n) + 1
  }

  /** The line number counts the newlines in front. */
  lemma {:induction false} LineCountsNewlines(s: Text, n: nat)
    requires n <= |s|
    ensures LineOf(s, n) == 1 + |(set k | 0 <= k < n && s[k] == NEWLINE)|
  {
    if n > 0 {
      LineCountsNewlines(s, n - 1);
      var before, all := set k | 0 <= k < n - 1 && s[k] == NEWLINE, set k | 0 <= k < n && s[k] == NEWLINE;
      if s[n - 1] == NEWLINE {
        assert all == before + {n - 1};
      } else {
        assert all == before;
      }
    }
  }
}
