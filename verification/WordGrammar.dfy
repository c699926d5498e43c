/** Shell words: the nesting of quotes and substitutions as a recursive grammar, and
    the scanner with an explicit context stack that follows it. */
module WordGrammar {
  import opened Bytes

  const CONTEXT_CAP: nat := 128

  const TAB: Byte := 9
  const SPACE: Byte := 32
  const DOUBLE_QUOTE: Byte := 34
  const HASH: Byte := 35
  const DOLLAR: Byte := 36
  const AMPERSAND: Byte := 38
  const SINGLE_QUOTE: Byte := 39
  const LEFT: Byte := 40
  const RIGHT: Byte := 41
  const MINUS: Byte := 45
  const SEMICOLON: Byte := 59
  const LESS: Byte := 60
  const GREATER: Byte := 62
  const GRAVE: Byte := 96
  const OPEN_BRACE: Byte := 123
  const PIPE: Byte := 124
  const CLOSE_BRACE: Byte := 125

  datatype Context = Single | Double | DollarSingle | Backquote | Parameter | Command | Arithmetic | Parenthesis

  /** What the scanner does with the bytes at one position. */
  datatype Action = Take(n: nat) | Open(context: Context, n: nat, substitution: bool) | Close(n: nat)

  predicate At(s: Text, p: nat, b: Byte) {
    p < |s| && s[p] == b
  }

  /** Bytes that end a word outside quotes. */
  predicate Separates(b: Byte) {
    b in [SPACE, TAB, NEWLINE, AMPERSAND, SEMICOLON, PIPE, LEFT, RIGHT, LESS, GREATER]
  }

  // ----- one position -----

  function Escape(s: Text, p: nat): Action {
    Take(if p + 1 < |s| then 2 else 1)
  }

  /** `begin_substitution`. */
  function Substitution(s: Text, p: nat): (a: Option<Action>)
    ensures a.Some? ==> a.value.Open? && a.value.substitution && 2 <= a.value.n && p + a.value.n <= |s|
  {
    if !At(s, p, DOLLAR) then None
    else if At(s, p + 1, LEFT) && At(s, p + 2, LEFT) then Some(Open(Arithmetic, 3, true))
    else if At(s, p + 1, LEFT) then Some(Open(Command, 2, true))
    else if At(s, p + 1, OPEN_BRACE) then Some(Open(Parameter, 2, true))
    else if At(s, p + 1, SINGLE_QUOTE) then Some(Open(DollarSingle, 2, true))
    else None
  }

  /** `scan_plain_word_byte`, and the part the nested contexts share with it. */
  function ActPlain(s: Text, p: nat): Action
    requires p < |s|
  {
    if s[p] == BACKSLASH then Escape(s, p)
    else if s[p] == SINGLE_QUOTE then Open(Single, 1, false)
    else if s[p] == DOUBLE_QUOTE then Open(Double, 1, false)
    else if s[p] == GRAVE then Open(Backquote, 1, false)
    else if Substitution(s, p).Some? then Substitution(s, p).value
    else Take(1)
  }

  /** `scan_quoted_word_byte`. */
  function ActQuoted(s: Text, p: nat, context: Context): Action
    requires p < |s|
  {
    match context
    case Single => if s[p] == SINGLE_QUOTE then Close(1) else Take(1)
    case DollarSingle =>
      if s[p] == BACKSLASH then Escape(s, p) else if s[p] == SINGLE_QUOTE then Close(1) else Take(1)
    case Backquote =>
      if s[p] == BACKSLASH then Escape(s, p) else if s[p] == GRAVE then Close(1) else Take(1)
    case _ =>
      if s[p] == DOUBLE_QUOTE then Close(1)
      else if s[p] == BACKSLASH then Escape(s, p)
      else if s[p] == GRAVE then Open(Backquote, 1, false)
      else if Substitution(s, p).Some? then Substitution(s, p).value
      else Take(1)
  }

  /** `scan_nested_word_byte`. */
  function ActNested(s: Text, p: nat, context: Context): Action
    requires p < |s|
  {
    if ActPlain(s, p) != Take(1) || s[p] == BACKSLASH then ActPlain(s, p)
    else if context == Parameter then if s[p] == CLOSE_BRACE then Close(1) else Take(1)
    else if s[p] == LEFT then Open(Parenthesis, 1, false)
    else if context == Arithmetic then if s[p] == RIGHT && At(s, p + 1, RIGHT) then Close(2) else Take(1)
    else if s[p] == RIGHT then Close(1)
    else Take(1)
  }

  predicate IsQuote(context: Context) {
    context in [Single, Double, DollarSingle, Backquote]
  }

  function Act(s: Text, p: nat, top: Option<Context>): (a: Action)
    requires p < |s|
    ensures 0 < a.n && p + a.n <= |s| && (a.Close? ==> top.Some?)
  {
    if top.None? then ActPlain(s, p)
    else if IsQuote(top.value) then ActQuoted(s, p, top.value)
    else ActNested(s, p, top.value)
  }

  // ----- the grammar: nesting by recursion, of any depth -----

  /** How a stretch of items ends, and how deep it nests before that. */
  datatype Nest =
    | Ended(at: nat, depth: nat)
    | Unended(depth: nat)
    | Broken(at: nat, depth: nat)

  function Deeper(n: Nest, least: nat): (m: Nest)
    ensures m.depth == (if n.depth < least then least else n.depth)
    ensures m == n.(depth := m.depth)
  {
    n.(depth := if n.depth < least then least else n.depth)
  }

  /** Where the construct `top` that position `p` is inside of ends; with no construct,
      where the word ends. */
  function Items(s: Text, p: nat, top: Option<Context>): (n: Nest)
    requires p <= |s|
    ensures n.Ended? ==> p <= n.at <= |s| && (top.Some? ==> p < n.at)
    decreases |s| - p
  {
    if p == |s| then if top.None? then Ended(p, 0) else Unended(0)
    else if s[p] == NUL then Broken(p, 0)
    else if top.None? && Separates(s[p]) then Ended(p, 0)
    else
      match Act(s, p, top)
      case Take(n) => Items(s, p + n, top)
      case Close(n) => Ended(p + n, 0)
      case Open(context, n, _) =>
        var inside := Items(s, p + n, Some(context));
        if inside.Ended? then Deeper(Items(s, inside.at, top), inside.depth + 1)
        else Deeper(inside, inside.depth + 1)
  }

  // ----- the scanner: nesting by a stack, of bounded depth -----

  /** The offset, the stack, and where a substitution last failed to be pushed. */
  datatype Config = Config(at: nat, stack: seq<Context>, over: Option<nat>)

  datatype End = Finished(at: nat) | Unfinished | Nul(at: nat) | TooDeep(at: nat)
  datatype Scanned = Scanned(end: End, over: Option<nat>)

  function Top(stack: seq<Context>): Option<Context> {
    if stack == [] then None else Some(stack[|stack| - 1])
  }

  /** Carry out an action. A quote that finds the stack full fails; a substitution
      records the failure, and its dollar sign is taken as a plain byte. */
  function Perform(c: Config, a: Action): Option<Config>
    requires a.Close? ==> c.stack != []
  {
    match a
    case Take(n) => Some(c.(at := c.at + n))
    case Close(n) => Some(Config(c.at + n, c.stack[..|c.stack| - 1], c.over))
    case Open(context, n, substitution) =>
      if |c.stack| < CONTEXT_CAP then Some(Config(c.at + n, c.stack + [context], c.over))
      else if substitution then Some(Config(c.at + 1, c.stack, Some(c.at)))
      else None
  }

  /** `scan_word`. */
  function Scan(s: Text, c: Config): Scanned
    requires c.at <= |s|
    decreases |s| - c.at
  {
    if c.at == |s| then Scanned(if c.stack == [] then Finished(c.at) else Unfinished, c.over)
    else if s[c.at] == NUL then Scanned(Nul(c.at), c.over)
    else if c.stack == [] && Separates(s[c.at]) then Scanned(Finished(c.at), c.over)
    else
      var next := Perform(c, Act(s, c.at, Top(c.stack)));
      if next.None? then Scanned(TooDeep(c.at), c.over) else Scan(s, next.value)
  }

  // ----- the scanner follows the grammar -----

  /** What the scanner does once the grammar's stretch is over. */
  function Outcome(s: Text, c: Config, n: Nest): Scanned
    requires n.Ended? ==> n.at <= |s|
  {
    match n
    case Unended(_) => Scanned(Unfinished, c.over)
    case Broken(at, _) => Scanned(Nul(at), c.over)
    case Ended(at, _) =>
      if c.stack == [] then Scanned(Finished(at), c.over)
      else Scan(s, Config(at, c.stack[..|c.stack| - 1], c.over))
  }

  /** Neither the end, nor a NUL, nor the separator behind a word. */
  predicate Runs(s: Text, p: nat, top: Option<Context>) {
    p < |s| && s[p] != NUL && !(top.None? && Separates(s[p]))
  }

  /** The configuration behind an opening that still fits. */
  function Pushed(c: Config, a: Action): (inner: Config)
    requires a.Open?
    ensures Top(inner.stack) == Some(a.context) && inner.stack[..|inner.stack| - 1] == c.stack
    ensures |inner.stack| == |c.stack| + 1 && inner.at == c.at + a.n && inner.over == c.over
    ensures |c.stack| < CONTEXT_CAP ==> Perform(c, a) == Some(inner)
  {
    Config(c.at + a.n, c.stack + [a.context], c.over)
  }

  lemma ItemsStep(s: Text, p: nat, top: Option<Context>)
    requires p <= |s|
    ensures Items(s, p, top) ==
      if !Runs(s, p, top) then
        if p < |s| && s[p] == NUL then Broken(p, 0) else if top.None? then Ended(p, 0) else Unended(0)
      else
        match Act(s, p, top)
        case Take(n) => Items(s, p + n, top)
        case Close(n) => Ended(p + n, 0)
        case Open(context, n, _) =>
          var inside := Items(s, p + n, Some(context));
          if inside.Ended? then Deeper(Items(s, inside.at, top), inside.depth + 1)
          else Deeper(inside, inside.depth + 1)
  {
    hide Act;
  }

  lemma ScanStep(s: Text, c: Config)
    requires c.at <= |s|
    ensures Scan(s, c) ==
      if !Runs(s, c.at, Top(c.stack)) then
        if c.at < |s| && s[c.at] == NUL then Scanned(Nul(c.at), c.over)
        else Scanned(if c.stack == [] then Finished(c.at) else Unfinished, c.over)
      else
        var next := Perform(c, Act(s, c.at, Top(c.stack)));
        if next.None? then Scanned(TooDeep(c.at), c.over) else Scan(s, next.value)
  {
    hide Act;
  }

  /** Unless the nesting passes the stack's capacity, the scanner goes where the
      grammar says. */
  lemma {:induction false} ScanFits(s: Text, c: Config)
    requires c.at <= |s| && |c.stack| + Items(s, c.at, Top(c.stack)).depth <= CONTEXT_CAP
    ensures Scan(s, c) == Outcome(s, c, Items(s, c.at, Top(c.stack)))
    decreases |s| - c.at
  {
    hide Act, Items, Scan, Pushed, Separates;
    ItemsStep(s, c.at, Top(c.stack));
    ScanStep(s, c);
    if Runs(s, c.at, Top(c.stack)) {
      var top := Top(c.stack);
      var a := Act(s, c.at, top);
      if a.Take? {
        ScanFits(s, c.(at := c.at + a.n));
      } else if a.Open? {
        var inner := Pushed(c, a);
        var inside := Items(s, inner.at, Some(a.context));
        ScanFits(s, inner);
        if inside.Ended? {
          ScanFits(s, c.(at := inside.at));
        }
      }
    }
  }

  lemma {:induction false} OverStays(s: Text, c: Config)
    requires c.at <= |s| && c.over.Some?
    ensures Scan(s, c).over.Some?
    decreases |s| - c.at
  {
    hide Act;
    if c.at < |s| && s[c.at] != NUL && !(c.stack == [] && Separates(s[c.at])) {
      var next := Perform(c, Act(s, c.at, Top(c.stack)));
      if next.Some? {
        OverStays(s, next.value);
      }
    }
  }

  predicate Overran(r: Scanned) {
    r.over.Some? || r.end.TooDeep?
  }

  /** When it does pass it, the scanner has noticed by the time it stops. */
  lemma {:induction false} ScanOverruns(s: Text, c: Config)
    requires c.at <= |s| && |c.stack| <= CONTEXT_CAP
    requires |c.stack| + Items(s, c.at, Top(c.stack)).depth > CONTEXT_CAP
    ensures Overran(Scan(s, c))
    decreases |s| - c.at
  {
    hide Act, Items, Scan, Pushed, Separates;
    ItemsStep(s, c.at, Top(c.stack));
    ScanStep(s, c);
    assert Runs(s, c.at, Top(c.stack));
    var top := Top(c.stack);
    var a := Act(s, c.at, top);
    if a.Take? {
      ScanOverruns(s, c.(at := c.at + a.n));
    } else if a.Open? {
      if |c.stack| == CONTEXT_CAP {
        if a.substitution {
          OverStays(s, Config(c.at + 1, c.stack, Some(c.at)));
        }
      } else {
        var inner := Pushed(c, a);
        var inside := Items(s, inner.at, Some(a.context));
        if |inner.stack| + inside.depth > CONTEXT_CAP {
          ScanOverruns(s, inner);
        } else {
          ScanFits(s, inner);
          ScanOverruns(s, c.(at := inside.at));
        }
      }
    }
  }

  /** The scanner finds a word, and has not overrun, exactly when the grammar finds
      the same word with at most 128 levels of nesting. */
  lemma ScanIsGrammar(s: Text, p: nat, end: nat)
    requires p <= |s|
    ensures Scan(s, Config(p, [], None)) == Scanned(Finished(end), None) <==>
            var n := Items(s, p, None); n.Ended? && n.at == end && n.depth <= CONTEXT_CAP
  {
    hide Items, Scan;
    var c := Config(p, [], None);
    if Items(s, p, None).depth <= CONTEXT_CAP {
      ScanFits(s, c);
    } else {
      ScanOverruns(s, c);
    }
  }

  // ----- what a word is -----

  /** The positions of a word that are outside every quote and substitution. */
  function Outside(s: Text, p: nat): (tops: seq<nat>)
    requires p <= |s|
    decreases |s| - p
  {
    if p == |s| || s[p] == NUL || Separates(s[p]) then []
    else
      var a := Act(s, p, None);
      if a.Take? then [p] + Outside(s, p + a.n)
      else
        var inside := Items(s, p + a.n, Some(a.context));
        [p] + (if inside.Ended? then Outside(s, inside.at) else [])
  }

  /** No word holds an unquoted separator, and every word is as long as it can be. */
  lemma {:induction false} WordsAreMaximal(s: Text, p: nat)
    requires p <= |s| && Items(s, p, None).Ended?
    ensures forall i :: 0 <= i < |Outside(s, p)| ==>
              p <= Outside(s, p)[i] < Items(s, p, None).at && !Separates(s[Outside(s, p)[i]])
    ensures Items(s, p, None).at < |s| ==> Separates(s[Items(s, p, None).at])
    ensures p < |s| && !Separates(s[p]) ==> p < Items(s, p, None).at
    decreases |s| - p
  {
    hide Act;
    if p < |s| && s[p] != NUL && !Separates(s[p]) {
      var a := Act(s, p, None);
      if a.Take? {
        WordsAreMaximal(s, p + a.n);
      } else {
        WordsAreMaximal(s, Items(s, p + a.n, Some(a.context)).at);
      }
    }
  }

  /** Single quotes keep every byte: they end at the next quote, whatever is between. */
  lemma {:induction false} SingleQuotesEndAtNext(s: Text, p: nat, q: nat)
    requires p <= q < |s| && s[q] == SINGLE_QUOTE
    requires forall k :: p <= k < q ==> s[k] != SINGLE_QUOTE && s[k] != NUL
    ensures Items(s, p, Some(Single)) == Ended(q + 1, 0)
    decreases q - p
  {
    if p < q {
      SingleQuotesEndAtNext(s, p + 1, q);
    }
  }

  // ----- the limit that is noticed late -----

  function Braces(n: nat): Text {
    seq(2 * n, i requires 0 <= i < 2 * n => if i % 2 == 0 then DOLLAR else OPEN_BRACE)
  }

  /** 129 nested parameter expansions of which only 128 are closed. */
  function TooManyBraces(): Text {
    Braces(129) + seq(128, i requires 0 <= i < 128 => CLOSE_BRACE)
  }

  lemma {:induction false} BracesOpen(s: Text, i: nat)
    requires s == TooManyBraces() && i <= 128
    ensures Scan(s, Config(0, [], None)) == Scan(s, Config(2 * i, seq(i, _ => Parameter), None))
  {
    hide Scan;
    if i > 0 {
      BracesOpen(s, i - 1);
      var c := Config(2 * i - 2, seq(i - 1, _ => Parameter), None);
      assert s[2 * i - 2] == DOLLAR && s[2 * i - 1] == OPEN_BRACE;
      OpensBrace(s, c);
      assert c.stack + [Parameter] == seq(i, _ => Parameter);
    } else {
      assert seq(0, _ => Parameter) == [];
    }
  }

  lemma OpensBrace(s: Text, c: Config)
    requires c.at + 1 < |s| && s[c.at] == DOLLAR && s[c.at + 1] == OPEN_BRACE
    requires |c.stack| < CONTEXT_CAP && (c.stack != [] ==> c.stack[|c.stack| - 1] == Parameter)
    ensures Scan(s, c) == Scan(s, Config(c.at + 2, c.stack + [Parameter], c.over))
  {
    assert Act(s, c.at, Top(c.stack)) == Open(Parameter, 2, true);
  }

  lemma {:induction false} BracesClose(s: Text, i: nat)
    requires s == TooManyBraces() && i <= 128
    ensures Scan(s, Config(386 - i, seq(i, _ => Parameter), Some(256))) == Scanned(Finished(386), Some(256))
  {
    var c := Config(386 - i, seq(i, _ => Parameter), Some(256));
    if i > 0 {
      assert s[c.at] == CLOSE_BRACE;
      assert Act(s, c.at, Top(c.stack)) == Close(1);
      assert c.stack[..i - 1] == seq(i - 1, _ => Parameter);
      BracesClose(s, i - 1);
    }
  }

  /** A substitution that overflows the stack does not stop the scan: this text is
      scanned as a word to its end although its nesting never ends. Only the recorded
      offset tells, and the lexer looks at it on its next call. */
  lemma OverflowIsNoticedLate()
    ensures var s := TooManyBraces();
      && Scan(s, Config(0, [], None)) == Scanned(Finished(|s|), Some(256))
      && Items(s, 0, None).depth > CONTEXT_CAP
  {
    var s := TooManyBraces();
    BracesOpen(s, 128);
    var full := seq(128, _ => Parameter);
    var c := Config(256, full, None);
    assert s[256] == DOLLAR && s[257] == OPEN_BRACE;
    assert Act(s, 256, Top(full)) == Open(Parameter, 2, true);
    var d := Config(257, full, Some(256));
    assert Perform(c, Act(s, 256, Top(full))) == Some(d);
    assert Act(s, 257, Top(full)) == Take(1);
    BracesClose(s, 128);
    assert Scan(s, c) == Scan(s, d) == Scanned(Finished(386), Some(256));
    if Items(s, 0, None).depth <= CONTEXT_CAP {
      ScanFits(s, Config(0, [], None));
    }
  }
}
