/** Words as trees: quotes, escapes and substitutions nested in each other.  What the
    scanner takes for a word is exactly the text of such a tree. */
module WordTrees {
  import opened Bytes
  import opened WordGrammar

  /** What may stand between the two ends of a construct, or in a word.  `LastSlash` is
      a backslash at the end of the input, `Dollar` a dollar sign that opens nothing, and
      `Right` a parenthesis inside an arithmetic expansion that closes nothing. */
  datatype Tree =
    | Done
    | LastSlash
    | Plain(byte: Byte, next: Tree)
    | Escaped(byte: Byte, next: Tree)
    | Dollar(next: Tree)
    | Right(next: Tree)
    | Nested(kind: Context, inside: Tree, next: Tree)

  function Opening(kind: Context): (text: Text)
    ensures text != []
  {
    match kind
    case Single => [SINGLE_QUOTE]
    case Double => [DOUBLE_QUOTE]
    case DollarSingle => [DOLLAR, SINGLE_QUOTE]
    case Backquote => [GRAVE]
    case Parameter => [DOLLAR, OPEN_BRACE]
    case Command => [DOLLAR, LEFT]
    case Arithmetic => [DOLLAR, LEFT, LEFT]
    case Parenthesis => [LEFT]
  }

  function Closing(kind: Context): (text: Text)
    ensures text != []
  {
    match kind
    case Single => [SINGLE_QUOTE]
    case Double => [DOUBLE_QUOTE]
    case DollarSingle => [SINGLE_QUOTE]
    case Backquote => [GRAVE]
    case Parameter => [CLOSE_BRACE]
    case Command => [RIGHT]
    case Arithmetic => [RIGHT, RIGHT]
    case Parenthesis => [RIGHT]
  }

  /** Bytes without a meaning of their own inside a construct, or in a word. */
  predicate IsPlain(top: Option<Context>, b: Byte) {
    b != NUL &&
    match top
    case None => !Separates(b) && b !in [BACKSLASH, SINGLE_QUOTE, DOUBLE_QUOTE, GRAVE, DOLLAR]
    case Some(kind) =>
      if kind == Single then b != SINGLE_QUOTE
      else if kind == DollarSingle then b != SINGLE_QUOTE && b != BACKSLASH
      else if kind == Backquote then b != GRAVE && b != BACKSLASH
      else if kind == Double then b !in [BACKSLASH, DOUBLE_QUOTE, GRAVE, DOLLAR]
      else
        && b !in [BACKSLASH, SINGLE_QUOTE, DOUBLE_QUOTE, GRAVE, DOLLAR]
        && (if kind == Parameter then b != CLOSE_BRACE else b != LEFT && b != RIGHT)
  }

  /** Which constructs may stand in which. */
  predicate MayHold(top: Option<Context>, kind: Context) {
    match top
    case None => kind != Parenthesis
    case Some(outer) =>
      if outer == Double then kind in [DollarSingle, Backquote, Parameter, Command, Arithmetic]
      else if outer == Parameter then kind != Parenthesis
      else outer in [Command, Arithmetic, Parenthesis]
  }

  /** Bytes that make a dollar sign in front of them open something. */
  predicate Opens(b: Byte) {
    b in [LEFT, OPEN_BRACE, SINGLE_QUOTE]
  }

  predicate IsTree(t: Tree, top: Option<Context>) {
    match t
    case Done => true
    case LastSlash => top.None?
    case Plain(byte, next) => IsPlain(top, byte) && IsTree(next, top)
    case Escaped(_, next) => top != Some(Single) && IsTree(next, top)
    case Dollar(next) =>
      && top !in [Some(Single), Some(DollarSingle), Some(Backquote)] && IsTree(next, top)
      && (PrintTree(next) != [] ==> !Opens(PrintTree(next)[0]))
    case Right(next) =>
      top == Some(Arithmetic) && IsTree(next, top) && PrintTree(next) != [] && PrintTree(next)[0] != RIGHT
    case Nested(kind, inside, next) =>
      && MayHold(top, kind) && IsTree(inside, Some(kind)) && IsTree(next, top)
      && (kind == Command ==> !(inside.Nested? && inside.kind == Parenthesis))
  }

  function PrintTree(t: Tree): Text {
    match t
    case Done => []
    case LastSlash => [BACKSLASH]
    case Plain(byte, next) => [byte] + PrintTree(next)
    case Escaped(byte, next) => [BACKSLASH, byte] + PrintTree(next)
    case Dollar(next) => [DOLLAR] + PrintTree(next)
    case Right(next) => [RIGHT] + PrintTree(next)
    case Nested(kind, inside, next) => Opening(kind) + (PrintTree(inside) + (Closing(kind) + PrintTree(next)))
  }

  function Depth(t: Tree): nat {
    match t
    case Done => 0
    case LastSlash => 0
    case Plain(_, next) => Depth(next)
    case Escaped(_, next) => Depth(next)
    case Dollar(next) => Depth(next)
    case Right(next) => Depth(next)
    case Nested(_, inside, next) => if Depth(next) < Depth(inside) + 1 then Depth(inside) + 1 else Depth(next)
  }

  predicate EndsInDollar(t: Tree) {
    match t
    case Done => false
    case LastSlash => false
    case Plain(_, next) => EndsInDollar(next)
    case Escaped(_, next) => EndsInDollar(next)
    case Dollar(next) => next.Done? || EndsInDollar(next)
    case Right(next) => EndsInDollar(next)
    case Nested(_, _, next) => EndsInDollar(next)
  }

  predicate EndsInSlash(t: Tree) {
    match t
    case Done => false
    case LastSlash => true
    case Plain(_, next) => EndsInSlash(next)
    case Escaped(_, next) => EndsInSlash(next)
    case Dollar(next) => EndsInSlash(next)
    case Right(next) => EndsInSlash(next)
    case Nested(_, _, next) => EndsInSlash(next)
  }

  /** What stands behind a tree's text does not change how its end is read. */
  predicate Follows(s: Text, q: nat, t: Tree) {
    && (EndsInDollar(t) && q < |s| ==> !Opens(s[q]))
    && (EndsInSlash(t) ==> q >= |s|)
  }

  predicate Holds(s: Text, p: nat, text: Text) {
    p + |text| <= |s| && s[p..p + |text|] == text
  }

  lemma HoldsParts(s: Text, p: nat, a: Text, b: Text)
    requires Holds(s, p, a + b)
    ensures Holds(s, p, a) && Holds(s, p + |a|, b)
  {
    assert s[p..p + |a|] == s[p..p + |a + b|][..|a|];
    assert s[p + |a|..p + |a| + |b|] == s[p..p + |a + b|][|a|..];
  }

  lemma HoldsByte(s: Text, p: nat, text: Text, i: nat)
    requires Holds(s, p, text) && i < |text|
    ensures p + i < |s| && s[p + i] == text[i]
  {
    assert s[p..p + |text|][i] == s[p + i];
  }

  // ----- one position -----

  lemma PlainIsTaken(s: Text, p: nat, top: Option<Context>)
    requires p < |s| && IsPlain(top, s[p])
    ensures Runs(s, p, top) && Act(s, p, top) == Take(1)
  {
  }

  lemma EscapeIsTaken(s: Text, p: nat, top: Option<Context>)
    requires p < |s| && s[p] == BACKSLASH && top != Some(Single)
    ensures Runs(s, p, top) && Act(s, p, top) == Take(if p + 1 < |s| then 2 else 1)
  {
  }

  lemma DollarIsTaken(s: Text, p: nat, top: Option<Context>)
    requires At(s, p, DOLLAR) && (p + 1 < |s| ==> !Opens(s[p + 1]))
    requires top !in [Some(Single), Some(DollarSingle), Some(Backquote)]
    ensures Runs(s, p, top) && Act(s, p, top) == Take(1)
  {
  }

  lemma RightIsTaken(s: Text, p: nat)
    requires At(s, p, RIGHT) && !At(s, p + 1, RIGHT)
    ensures Runs(s, p, Some(Arithmetic)) && Act(s, p, Some(Arithmetic)) == Take(1)
  {
  }

  lemma OpeningOpens(s: Text, p: nat, top: Option<Context>, kind: Context)
    requires Holds(s, p, Opening(kind)) && MayHold(top, kind)
    requires kind == Command ==> !At(s, p + 2, LEFT)
    ensures Runs(s, p, top) && Act(s, p, top).Open?
    ensures Act(s, p, top).context == kind && Act(s, p, top).n == |Opening(kind)|
  {
    HoldsByte(s, p, Opening(kind), 0);
    if |Opening(kind)| > 1 {
      HoldsByte(s, p, Opening(kind), 1);
    }
    if |Opening(kind)| > 2 {
      HoldsByte(s, p, Opening(kind), 2);
    }
    if kind in [Single, Double, Backquote] {
      QuoteOpens(s, p, top, kind);
    } else if kind == Parenthesis {
      ParenthesisOpens(s, p, top);
    } else {
      SubstitutionOpens(s, p, top, kind);
    }
  }

  lemma QuoteOpens(s: Text, p: nat, top: Option<Context>, kind: Context)
    requires p < |s| && MayHold(top, kind) && kind in [Single, Double, Backquote] && s[p] == Opening(kind)[0]
    ensures Runs(s, p, top) && Act(s, p, top) == Open(kind, 1, false)
  {
  }

  lemma ParenthesisOpens(s: Text, p: nat, top: Option<Context>)
    requires At(s, p, LEFT) && MayHold(top, Parenthesis)
    ensures Runs(s, p, top) && Act(s, p, top) == Open(Parenthesis, 1, false)
  {
  }

  lemma SubstitutionOpens(s: Text, p: nat, top: Option<Context>, kind: Context)
    requires MayHold(top, kind) && kind in [DollarSingle, Parameter, Command, Arithmetic]
    requires At(s, p, DOLLAR) && p + |Opening(kind)| <= |s|
    requires forall k :: 0 <= k < |Opening(kind)| ==> s[p + k] == Opening(kind)[k]
    requires kind == Command ==> !At(s, p + 2, LEFT)
    ensures Runs(s, p, top) && Act(s, p, top) == Open(kind, |Opening(kind)|, true)
  {
    assert s[p + 1] == Opening(kind)[1];
    if kind == Arithmetic {
      assert s[p + 2] == Opening(kind)[2];
    }
    assert Substitution(s, p) == Some(Open(kind, |Opening(kind)|, true));
    hide Substitution;
  }

  lemma ClosingCloses(s: Text, p: nat, kind: Context)
    requires Holds(s, p, Closing(kind))
    ensures Runs(s, p, Some(kind)) && Act(s, p, Some(kind)) == Close(|Closing(kind)|)
  {
    HoldsByte(s, p, Closing(kind), 0);
    if kind == Arithmetic {
      HoldsByte(s, p, Closing(kind), 1);
    }
  }

  /** The text of a command's inside never turns its opening into an arithmetic one. */
  lemma NoSecondParenthesis(inside: Tree, behind: Text)
    requires IsTree(inside, Some(Command)) && !(inside.Nested? && inside.kind == Parenthesis)
    requires behind != [] && behind[0] != LEFT
    ensures (PrintTree(inside) + behind)[0] != LEFT
  {
  }

  /** No construct closes with a byte that changes how a dollar sign in it is read, and
      no backslash ends the input inside one. */
  lemma {:induction false} InsideFollows(t: Tree, kind: Context)
    requires IsTree(t, Some(kind))
    ensures !EndsInSlash(t) && (EndsInDollar(t) ==> !Opens(Closing(kind)[0]))
    decreases t
  {
    hide IsPlain, MayHold, PrintTree;
    match t
    case Done =>
    case LastSlash =>
    case Plain(_, next) => InsideFollows(next, kind);
    case Escaped(_, next) => InsideFollows(next, kind);
    case Dollar(next) => InsideFollows(next, kind);
    case Right(next) => InsideFollows(next, kind);
    case Nested(_, _, next) => InsideFollows(next, kind);
  }

  // ----- a tree's text is scanned as the tree -----

  /** Scanning the text of a tree leads to its end and nests as deep as it does. */
  lemma {:induction false} TreeIsScanned(s: Text, p: nat, t: Tree, top: Option<Context>)
    requires IsTree(t, top) && Holds(s, p, PrintTree(t)) && Follows(s, p + |PrintTree(t)|, t)
    ensures p + |PrintTree(t)| <= |s|
    ensures Items(s, p, top) == Deeper(Items(s, p + |PrintTree(t)|, top), Depth(t))
    decreases t, 1
  {
    hide Items, Act, IsPlain, MayHold, Runs, Holds, Opening, Closing, Opens;
    PrintFits(s, p, t);
    if t.Nested? {
      var q := NestedIsScanned(s, p, t, top);
      TreeIsScanned(s, q, t.next, top);
    } else if !t.Done? {
      var n := OneIsTaken(s, p, t, top);
      ItemsStep(s, p, top);
      if !t.LastSlash? {
        TreeIsScanned(s, p + n, t.next, top);
      }
    }
  }

  lemma PrintFits(s: Text, p: nat, t: Tree)
    requires Holds(s, p, PrintTree(t))
    ensures p + |PrintTree(t)| <= |s|
  {
  }

  /** What a tree other than a construct begins with is taken on its own. */
  lemma OneIsTaken(s: Text, p: nat, t: Tree, top: Option<Context>) returns (n: nat)
    requires !t.Done? && !t.Nested? && IsTree(t, top)
    requires Holds(s, p, PrintTree(t)) && Follows(s, p + |PrintTree(t)|, t)
    ensures p < |s| && Runs(s, p, top) && Act(s, p, top) == Take(n)
    ensures if t.LastSlash? then n == 1 == |PrintTree(t)| else Holds(s, p + n, PrintTree(t.next))
    ensures !t.LastSlash? ==> |PrintTree(t)| == n + |PrintTree(t.next)| && Follows(s, p + |PrintTree(t)|, t.next)
  {
    hide Act, IsPlain, Runs, Opening, Closing, Holds;
    n := if t.Escaped? then 2 else 1;
    HoldsByte(s, p, PrintTree(t), 0);
    if t.LastSlash? {
      EscapeIsTaken(s, p, top);
    } else {
      HoldsParts(s, p, PrintTree(t)[..n], PrintTree(t.next));
      if t.Escaped? {
        HoldsByte(s, p, PrintTree(t), 1);
        EscapeIsTaken(s, p, top);
      } else if t.Plain? {
        PlainIsTaken(s, p, top);
      } else {
        SecondByte(s, p, t);
        if t.Dollar? {
          DollarIsTaken(s, p, top);
        } else {
          RightIsTaken(s, p);
        }
      }
    }
  }

  /** The byte behind a dollar sign or a parenthesis that is taken on its own. */
  lemma SecondByte(s: Text, p: nat, t: Tree)
    requires t.Dollar? || t.Right?
    requires Holds(s, p + 1, PrintTree(t.next)) && Follows(s, p + |PrintTree(t)|, t)
    ensures PrintTree(t.next) != [] ==> p + 1 < |s| && s[p + 1] == PrintTree(t.next)[0]
    ensures t.Dollar? && PrintTree(t.next) == [] && p + 1 < |s| ==> !Opens(s[p + 1])
  {
    hide Opens;
    if PrintTree(t.next) != [] {
      HoldsByte(s, p + 1, PrintTree(t.next), 0);
    }
  }

  /** The four parts of a construct, one behind the other. */
  lemma NestedParts(s: Text, p: nat, t: Tree) returns (first: nat, last: nat, q: nat)
    requires t.Nested? && Holds(s, p, PrintTree(t))
    ensures first == p + |Opening(t.kind)| && last == first + |PrintTree(t.inside)| && q == last + |Closing(t.kind)|
    ensures q + |PrintTree(t.next)| == p + |PrintTree(t)| <= |s|
    ensures Holds(s, p, Opening(t.kind)) && Holds(s, first, PrintTree(t.inside))
    ensures Holds(s, last, Closing(t.kind)) && Holds(s, q, PrintTree(t.next))
    ensures Holds(s, first, PrintTree(t.inside) + (Closing(t.kind) + PrintTree(t.next)))
  {
    hide Holds, Opening, Closing;
    PrintFits(s, p, t);
    var inside, close := PrintTree(t.inside), Closing(t.kind) + PrintTree(t.next);
    first := p + |Opening(t.kind)|;
    HoldsParts(s, p, Opening(t.kind), inside + close);
    last := first + |inside|;
    HoldsParts(s, first, inside, close);
    q := last + |Closing(t.kind)|;
    HoldsParts(s, last, Closing(t.kind), PrintTree(t.next));
  }

  /** One construct: its end, and the depth it adds. */
  lemma {:induction false} NestedIsScanned(s: Text, p: nat, t: Tree, top: Option<Context>) returns (q: nat)
    requires t.Nested? && IsTree(t, top) && Holds(s, p, PrintTree(t))
    ensures q + |PrintTree(t.next)| == p + |PrintTree(t)| && q <= |s|
    ensures Holds(s, q, PrintTree(t.next))
    ensures Items(s, p, top) == Deeper(Items(s, q, top), Depth(t.inside) + 1)
    decreases t, 0
  {
    hide Items, Act, IsPlain, MayHold, Runs, Holds, Opening, Closing, PrintTree, Opens;
    var first, last;
    first, last, q := NestedParts(s, p, t);
    NestedOpens(s, p, t, top);
    InsideIsFollowed(s, last, t);
    TreeIsScanned(s, first, t.inside, Some(t.kind));
    InsideCloses(s, last, t.kind);
    ItemsStep(s, p, top);
  }

  lemma NestedOpens(s: Text, p: nat, t: Tree, top: Option<Context>)
    requires t.Nested? && IsTree(t, top) && Holds(s, p, Opening(t.kind))
    requires Holds(s, p + |Opening(t.kind)|, PrintTree(t.inside) + (Closing(t.kind) + PrintTree(t.next)))
    ensures Runs(s, p, top) && Act(s, p, top).Open?
    ensures Act(s, p, top).context == t.kind && Act(s, p, top).n == |Opening(t.kind)|
  {
    hide Act, Runs, Holds, IsPlain, MayHold, PrintTree;
    if t.kind == Command {
      CommandOpening(s, p, t);
    }
    OpeningOpens(s, p, top, t.kind);
  }

  lemma InsideIsFollowed(s: Text, last: nat, t: Tree)
    requires t.Nested? && IsTree(t.inside, Some(t.kind)) && Holds(s, last, Closing(t.kind))
    ensures Follows(s, last, t.inside)
  {
    hide IsTree, Opens;
    InsideFollows(t.inside, t.kind);
    HoldsByte(s, last, Closing(t.kind), 0);
  }

  lemma InsideCloses(s: Text, last: nat, kind: Context)
    requires Holds(s, last, Closing(kind))
    ensures last + |Closing(kind)| <= |s| && Items(s, last, Some(kind)) == Ended(last + |Closing(kind)|, 0)
  {
    hide Items, Act, Runs;
    ClosingCloses(s, last, kind);
    ItemsStep(s, last, Some(kind));
  }

  lemma CommandOpening(s: Text, p: nat, t: Tree)
    requires t.Nested? && t.kind == Command && IsTree(t.inside, Some(Command))
    requires !(t.inside.Nested? && t.inside.kind == Parenthesis)
    requires Holds(s, p + |Opening(Command)|, PrintTree(t.inside) + (Closing(Command) + PrintTree(t.next)))
    ensures !At(s, p + 2, LEFT)
  {
    hide IsPlain, MayHold, IsTree;
    var behind := Closing(Command) + PrintTree(t.next);
    NoSecondParenthesis(t.inside, behind);
    HoldsByte(s, p + 2, PrintTree(t.inside) + behind, 0);
  }

  // ----- and nothing else is -----

  /** A byte that is taken on its own is plain, escaped, or one of the three that open
      and close nothing. */
  lemma TakenIs(s: Text, p: nat, top: Option<Context>)
    requires p < |s| && Runs(s, p, top) && Act(s, p, top).Take?
    ensures var n := Act(s, p, top).n;
      || (n == 1 && IsPlain(top, s[p]))
      || (n == 2 && s[p] == BACKSLASH && top != Some(Single))
      || (n == 1 && s[p] == BACKSLASH && p + 1 == |s| && top != Some(Single))
      || (n == 1 && s[p] == DOLLAR && top !in [Some(Single), Some(DollarSingle), Some(Backquote)]
          && (p + 1 < |s| ==> !Opens(s[p + 1])))
      || (n == 1 && s[p] == RIGHT && top == Some(Arithmetic) && !At(s, p + 1, RIGHT))
  {
  }

  lemma ClosedIs(s: Text, p: nat, kind: Context)
    requires p < |s| && Act(s, p, Some(kind)).Close?
    ensures Act(s, p, Some(kind)).n == |Closing(kind)| && s[p..p + |Closing(kind)|] == Closing(kind)
  {
  }

  lemma OpenedIs(s: Text, p: nat, top: Option<Context>)
    requires p < |s| && Act(s, p, top).Open? && Runs(s, p, top)
    ensures var kind := Act(s, p, top).context;
      && Act(s, p, top).n == |Opening(kind)| && s[p..p + |Opening(kind)|] == Opening(kind)
      && MayHold(top, kind) && (kind == Command ==> !At(s, p + 2, LEFT))
  {
  }

  /** The text of a stretch of items, with the end of the construct it is inside of. */
  predicate IsText(s: Text, p: nat, at: nat, t: Tree, top: Option<Context>)
    requires p <= at <= |s|
  {
    && IsTree(t, top) && s[p..at] == PrintTree(t) + (if top.Some? then Closing(top.value) else [])
    && (top.None? ==> Follows(s, at, t))
  }

  /** Where the grammar finds an end, what it has passed is the text of a tree as deep
      as it says. */
  lemma {:induction false} ItemsAreTree(s: Text, p: nat, top: Option<Context>) returns (t: Tree)
    requires p <= |s| && Items(s, p, top).Ended?
    ensures IsText(s, p, Items(s, p, top).at, t, top) && Depth(t) == Items(s, p, top).depth
    decreases |s| - p
  {
    hide Items, Act, Runs, IsText;
    ItemsStep(s, p, top);
    if !Runs(s, p, top) {
      t := Done;
      NothingIsText(s, p);
    } else {
      var a := Act(s, p, top);
      if a.Take? {
        var more := ItemsAreTree(s, p + a.n, top);
        t := TakenText(s, p, Items(s, p, top).at, more, top);
      } else if a.Close? {
        t := Done;
        ClosedText(s, p, top.value);
      } else {
        var inside := Items(s, p + a.n, Some(a.context));
        var first := ItemsAreTree(s, p + a.n, Some(a.context));
        var more := ItemsAreTree(s, inside.at, top);
        t := Nested(a.context, first, more);
        OpenedText(s, p, inside.at, Items(s, p, top).at, first, more, top);
      }
    }
  }

  lemma NothingIsText(s: Text, p: nat)
    requires p <= |s|
    ensures IsText(s, p, p, Done, None)
  {
  }

  lemma ClosedText(s: Text, p: nat, kind: Context)
    requires p < |s| && Act(s, p, Some(kind)).Close?
    ensures p + Act(s, p, Some(kind)).n <= |s| && IsText(s, p, p + Act(s, p, Some(kind)).n, Done, Some(kind))
  {
    ClosedIs(s, p, kind);
    hide Act;
  }

  lemma TakenText(s: Text, p: nat, at: nat, more: Tree, top: Option<Context>) returns (t: Tree)
    requires p < |s| && Runs(s, p, top) && Act(s, p, top).Take?
    requires p + Act(s, p, top).n <= at <= |s| && IsText(s, p + Act(s, p, top).n, at, more, top)
    ensures IsText(s, p, at, t, top) && Depth(t) == Depth(more)
  {
    TakenIs(s, p, top);
    hide Act, Runs, IsPlain, MayHold, Opens, IsText;
    var n := Act(s, p, top).n;
    if IsPlain(top, s[p]) && n == 1 {
      t := Plain(s[p], more);
      PlainText(s, p, at, more, top);
    } else if n == 2 {
      t := Escaped(s[p + 1], more);
      EscapedText(s, p, at, more, top);
    } else if s[p] == BACKSLASH {
      t := LastSlash;
      SlashText(s, p, at, more, top);
    } else if s[p] == DOLLAR {
      t := Dollar(more);
      DollarText(s, p, at, more, top);
    } else {
      t := Right(more);
      RightText(s, p, at, more);
    }
  }

  /** More text in front. */
  lemma TextBehind(s: Text, p: nat, n: nat, at: nat, more: Tree, top: Option<Context>)
    requires p + n <= at <= |s| && IsText(s, p + n, at, more, top)
    ensures IsTree(more, top) && (top.None? ==> Follows(s, at, more))
    ensures s[p..at] == s[p..p + n] + PrintTree(more) + (if top.Some? then Closing(top.value) else [])
  {
    hide IsTree, PrintTree, Closing, Follows;
    var close: Text := if top.Some? then Closing(top.value) else [];
    assert s[p..at] == s[p..p + n] + s[p + n..at];
    Regroup(s[p..p + n], PrintTree(more), close);
  }

  lemma PlainText(s: Text, p: nat, at: nat, more: Tree, top: Option<Context>)
    requires p < |s| && IsPlain(top, s[p]) && p + 1 <= at <= |s| && IsText(s, p + 1, at, more, top)
    ensures IsText(s, p, at, Plain(s[p], more), top)
  {
    TextBehind(s, p, 1, at, more, top);
    hide IsPlain, Closing;
    assert s[p..p + 1] == [s[p]];
  }

  lemma EscapedText(s: Text, p: nat, at: nat, more: Tree, top: Option<Context>)
    requires p + 2 <= at <= |s| && s[p] == BACKSLASH && top != Some(Single) && IsText(s, p + 2, at, more, top)
    ensures IsText(s, p, at, Escaped(s[p + 1], more), top)
  {
    TextBehind(s, p, 2, at, more, top);
    hide IsPlain, Closing;
    assert s[p..p + 2] == [BACKSLASH, s[p + 1]];
  }

  lemma SlashText(s: Text, p: nat, at: nat, more: Tree, top: Option<Context>)
    requires p + 1 == |s| == at && s[p] == BACKSLASH && IsText(s, p + 1, at, more, top)
    ensures IsText(s, p, at, LastSlash, top) && more.Done?
  {
    AtTheEnd(s, at, more, top);
    assert s[p..at] == [BACKSLASH] + [];
  }

  lemma DollarText(s: Text, p: nat, at: nat, more: Tree, top: Option<Context>)
    requires At(s, p, DOLLAR) && (p + 1 < |s| ==> !Opens(s[p + 1]))
    requires top !in [Some(Single), Some(DollarSingle), Some(Backquote)]
    requires p + 1 <= at <= |s| && IsText(s, p + 1, at, more, top)
    ensures IsText(s, p, at, Dollar(more), top)
  {
    TextBehind(s, p, 1, at, more, top);
    FirstByte(s, p + 1, at, more, top);
    hide IsPlain, Closing, Opens;
    assert s[p..p + 1] == [DOLLAR];
  }

  lemma RightText(s: Text, p: nat, at: nat, more: Tree)
    requires At(s, p, RIGHT) && !At(s, p + 1, RIGHT)
    requires p + 1 <= at <= |s| && IsText(s, p + 1, at, more, Some(Arithmetic))
    ensures IsText(s, p, at, Right(more), Some(Arithmetic))
  {
    TextBehind(s, p, 1, at, more, Some(Arithmetic));
    FirstByte(s, p + 1, at, more, Some(Arithmetic));
    assert Closing(Arithmetic)[0] == RIGHT;
    hide IsPlain, Closing;
    assert s[p..p + 1] == [RIGHT];
  }

  /** What is left at the end of the input is nothing, and that outside constructs. */
  lemma AtTheEnd(s: Text, at: nat, more: Tree, top: Option<Context>)
    requires at == |s| && IsText(s, |s|, at, more, top)
    ensures top.None? && more.Done?
  {
    assert s[|s|..at] == [];
    PrintsNothing(more);
  }

  lemma PrintsNothing(t: Tree)
    ensures PrintTree(t) == [] <==> t.Done?
  {
  }

  lemma FirstByte(s: Text, p: nat, at: nat, t: Tree, top: Option<Context>)
    requires p <= at <= |s| && IsText(s, p, at, t, top)
    ensures PrintTree(t) != [] ==> p < |s| && PrintTree(t)[0] == s[p]
    ensures PrintTree(t) == [] && top.Some? ==> p < |s| && s[p] == Closing(top.value)[0]
    ensures PrintTree(t) == [] && top.None? ==> at == p
    ensures PrintTree(t) == [] <==> t.Done?
  {
    PrintsNothing(t);
    hide PrintTree, IsTree;
    if p < at {
      assert s[p..at][0] == s[p];
    }
  }

  lemma OpenedText(s: Text, p: nat, middle: nat, at: nat, first: Tree, more: Tree, top: Option<Context>)
    requires p < |s| && Runs(s, p, top) && Act(s, p, top).Open?
    requires p + Act(s, p, top).n <= middle <= at <= |s|
    requires IsText(s, p + Act(s, p, top).n, middle, first, Some(Act(s, p, top).context))
    requires IsText(s, middle, at, more, top)
    ensures IsText(s, p, at, Nested(Act(s, p, top).context, first, more), top)
  {
    OpenedIs(s, p, top);
    hide Act, Runs, MayHold, Opening, IsText;
    var kind := Act(s, p, top).context;
    if kind == Command {
      NoParenthesisFirst(s, p, middle, first);
    }
    NestedText(s, p, middle, at, kind, first, more, top);
  }

  lemma NestedText(s: Text, p: nat, middle: nat, at: nat, kind: Context, first: Tree, more: Tree, top: Option<Context>)
    requires p + |Opening(kind)| <= middle <= at <= |s| && s[p..p + |Opening(kind)|] == Opening(kind)
    requires MayHold(top, kind) && (kind == Command ==> !(first.Nested? && first.kind == Parenthesis))
    requires IsText(s, p + |Opening(kind)|, middle, first, Some(kind)) && IsText(s, middle, at, more, top)
    ensures IsText(s, p, at, Nested(kind, first, more), top)
  {
    hide IsPlain, MayHold, Opening, Opens, Closing, PrintTree, Follows;
    var n := |Opening(kind)|;
    assert s[p..at] == s[p..p + n] + (s[p + n..middle] + s[middle..at]);
    NestedPrints(kind, first, more, if top.Some? then Closing(top.value) else []);
    SameEnd(s, at, kind, first, more);
  }

  lemma SameEnd(s: Text, at: nat, kind: Context, first: Tree, more: Tree)
    ensures Follows(s, at, Nested(kind, first, more)) == Follows(s, at, more)
  {
  }

  lemma NestedPrints(kind: Context, first: Tree, more: Tree, close: Text)
    ensures PrintTree(Nested(kind, first, more)) + close ==
            Opening(kind) + ((PrintTree(first) + Closing(kind)) + (PrintTree(more) + close))
  {
    FiveParts(Opening(kind), PrintTree(first), Closing(kind), PrintTree(more), close);
  }

  lemma FiveParts(a: Text, b: Text, c: Text, d: Text, e: Text)
    ensures (a + (b + (c + d))) + e == a + ((b + c) + (d + e))
  {
    Regroup(a, b + (c + d), e);
    Regroup(b, c + d, e);
    Regroup(c, d, e);
    Regroup(b, c, d + e);
  }

  /** A dollar sign and two parentheses open an arithmetic expansion, never a command
      that begins with a parenthesis. */
  lemma NoParenthesisFirst(s: Text, p: nat, middle: nat, first: Tree)
    requires p + 2 <= middle <= |s| && !At(s, p + 2, LEFT)
    requires |Opening(Command)| == 2 ==> IsText(s, p + 2, middle, first, Some(Command))
    ensures !(first.Nested? && first.kind == Parenthesis)
  {
    CommandOpens();
    FirstByte(s, p + 2, middle, first, Some(Command));
    hide IsText, IsTree;
    if first.Nested? && first.kind == Parenthesis {
      ParenthesisFirst(first);
      assert false;
    }
  }

  lemma CommandOpens()
    ensures |Opening(Command)| == 2
  {
  }

  lemma ParenthesisFirst(t: Tree)
    requires t.Nested? && t.kind == Parenthesis
    ensures PrintTree(t) != [] && PrintTree(t)[0] == LEFT && |Opening(Command)| == 2
  {
  }

  // ----- words -----

  /** A word ends at the end of the input or in front of a separator. */
  predicate WordEnds(s: Text, at: nat, word: Tree) {
    at <= |s| && (at == |s| || Separates(s[at])) && Follows(s, at, word)
  }

  ghost predicate IsWord(s: Text, p: nat, at: nat, depth: nat) {
    exists word ::
      && IsTree(word, None) && Depth(word) == depth
      && Holds(s, p, PrintTree(word)) && at == p + |PrintTree(word)| && WordEnds(s, at, word)
  }

  lemma TreeIsWord(s: Text, p: nat, at: nat, word: Tree)
    requires IsTree(word, None) && Holds(s, p, PrintTree(word)) && at == p + |PrintTree(word)| && WordEnds(s, at, word)
    ensures p <= |s| && Items(s, p, None) == Ended(at, Depth(word))
  {
    hide Items, Act, Separates, IsTree, PrintTree, Holds;
    TreeIsScanned(s, p, word, None);
    ItemsStep(s, at, None);
    SeparatorsAreNoNul(s, at);
  }

  lemma SeparatorsAreNoNul(s: Text, at: nat)
    ensures at < |s| && Separates(s[at]) ==> s[at] != NUL
  {
  }

  /** The grammar's words are exactly the texts of trees: from any place in any text it
      ends where a tree of that depth does, in front of a separator or the end. */
  lemma WordsAreTrees(s: Text, p: nat, at: nat, depth: nat)
    requires p <= |s|
    ensures Items(s, p, None) == Ended(at, depth) <==> IsWord(s, p, at, depth)
  {
    hide Items, IsTree, PrintTree, Separates;
    if Items(s, p, None) == Ended(at, depth) {
      var word := ItemsAreTree(s, p, None);
      WordsAreMaximal(s, p);
      assert PrintTree(word) + [] == PrintTree(word);
      assert WordEnds(s, at, word);
    }
    if IsWord(s, p, at, depth) {
      var word :|
        && IsTree(word, None) && Depth(word) == depth
        && Holds(s, p, PrintTree(word)) && at == p + |PrintTree(word)| && WordEnds(s, at, word);
      TreeIsWord(s, p, at, word);
    }
  }

  /** So the scanner with its stack finds a word without overflow exactly when the text
      there is a tree's that nests at most 128 deep. */
  lemma ScannedWordsAreTrees(s: Text, p: nat, at: nat)
    requires p <= |s|
    ensures Scan(s, Config(p, [], None)) == Scanned(Finished(at), None) <==>
            exists depth: nat :: depth <= CONTEXT_CAP && IsWord(s, p, at, depth)
  {
    hide Items, Scan, IsWord;
    ScanIsGrammar(s, p, at);
    var n := Items(s, p, None);
    if n.Ended? {
      WordsAreTrees(s, p, n.at, n.depth);
    }
    forall depth: nat | IsWord(s, p, at, depth) ensures n == Ended(at, depth) {
      WordsAreTrees(s, p, at, depth);
    }
  }
}
