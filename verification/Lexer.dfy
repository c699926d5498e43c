/** The imperative lexer: an offset with its line and column, and a fixed stack of
    contexts while a word is scanned. */
module Lexer {
  import opened Bytes
  import opened WordGrammar
  import opened Tokens

  class ContextStack {
    const items: array<Context>
    var length: nat

    ghost predicate Valid()
      reads this
    {
      items.Length == CONTEXT_CAP && length <= CONTEXT_CAP
    }

    ghost function Contents(): (stack: seq<Context>)
      reads this, items
      requires Valid()
      ensures |stack| == length
    {
      items[..length]
    }

    constructor ()
      ensures Valid() && Contents() == [] && fresh(items)
    {
      items := new Context[CONTEXT_CAP](_ => Single);
      length := 0;
    }

    method Push(context: Context) returns (ok: bool)
      requires Valid()
      modifies this, items
      ensures Valid() && ok == (|old(Contents())| < CONTEXT_CAP)
      ensures Contents() == old(Contents()) + (if ok then [context] else [])
    {
      if length == CONTEXT_CAP {
        return false;
      }
      items[length] := context;
      length := length + 1;
      return true;
    }

    /** `pop_context`. */
    method Pop()
      requires Valid() && Contents() != []
      modifies this
      ensures Valid() && Contents() == old(Contents())[..|old(Contents())| - 1]
    {
      length := length - 1;
    }
  }

  class PosixLexer {
    const input: Text
    var offset: nat
    var line: nat
    var column: nat
    var status: Status
    var errorOffset: nat

    /** The line and the column count exactly the bytes consumed. */
    ghost predicate Valid()
      reads this
    {
      offset <= |input| && line == LineOf(input, offset) && column == ColumnOf(input, offset)
    }

    ghost function View(): State
      reads this
    {
      State(offset, status, errorOffset)
    }

    /** The scanner's configuration while a word is scanned. */
    ghost function Scanning(stack: ContextStack): Config
      reads this, stack, stack.items
      requires stack.Valid()
    {
      Config(offset, stack.Contents(), if status == Okay then None else Some(errorOffset))
    }

    ghost predicate Ready(stack: ContextStack)
      reads this, stack
    {
      Valid() && stack.Valid() && (status == Okay || status == Limit)
    }

    /** `gsh_lexer_init`. */
    constructor (input: Text)
      ensures Valid() && this.input == input && View() == State(0, Okay, 0)
    {
      this.input := input;
      offset, line, column, status, errorOffset := 0, 1, 1, Okay, 0;
    }

    /** `advance_one`. */
    method AdvanceOne()
      requires Valid() && offset < |input|
      modifies this`offset, this`line, this`column
      ensures Valid() && offset == old(offset) + 1
    {
      if input[offset] == NEWLINE {
        line, column := line + 1, 1;
      } else {
        column := column + 1;
      }
      offset := offset + 1;
    }

    /** `advance_count`. */
    method AdvanceCount(count: nat)
      requires Valid() && offset + count <= |input|
      modifies this`offset, this`line, this`column
      ensures Valid() && offset == old(offset) + count
    {
      for k := 0 to count
        invariant Valid() && offset == old(offset) + k
      {
        AdvanceOne();
      }
    }

    /** `push_context`. */
    method PushContext(stack: ContextStack, context: Context) returns (ok: bool)
      requires Ready(stack)
      modifies this`status, this`errorOffset, stack, stack.items
      ensures Ready(stack) && ok == (|old(stack.Contents())| < CONTEXT_CAP)
      ensures ok ==> stack.Contents() == old(stack.Contents()) + [context] && View() == old(View())
      ensures !ok ==> stack.Contents() == old(stack.Contents()) && View() == State(offset, Limit, offset)
    {
      ok := stack.Push(context);
      if !ok {
        status, errorOffset := Limit, offset;
      }
    }

    /** `operator_at`. */
    method FindOperator() returns (found: Option<Operator>)
      requires Valid()
      ensures found == OperatorAt(input, offset)
    {
      hide FirstFrom, OPERATORS;
      var index := 0;
      while index < |OPERATORS|
        invariant index <= |OPERATORS| && OperatorAt(input, offset) == FirstFrom(input, offset, index)
      {
        FirstFromStep(input, offset, index);
        if StartsWith(input, offset, OPERATORS[index].text) {
          return Some(OPERATORS[index]);
        }
        index := index + 1;
      }
      FirstFromStep(input, offset, index);
      return None;
    }

    /** A quote or a parenthesis: push, and step over it. */
    method Enter(stack: ContextStack, context: Context) returns (ok: bool)
      requires Ready(stack) && offset < |input|
      modifies this, stack, stack.items
      ensures Performed(stack, old(Scanning(stack)), Open(context, 1, false), ok)
      ensures status == Okay ==> errorOffset == old(errorOffset)
    {
      ok := PushContext(stack, context);
      if ok {
        AdvanceOne();
      }
    }

    /** The action was carried out, or the stack was full and the lexer says where. */
    ghost predicate Performed(stack: ContextStack, was: Config, a: Action, ok: bool)
      reads this, stack, stack.items
      requires a.Close? ==> was.stack != []
    {
      && Ready(stack) && ok == Perform(was, a).Some?
      && (ok ==> Scanning(stack) == Perform(was, a).value)
      && (!ok ==> View() == State(was.at, Limit, was.at))
    }

    /** `begin_substitution`; when the stack is full it only leaves a mark. */
    method BeginSubstitution(stack: ContextStack) returns (begun: bool)
      requires Ready(stack) && At(input, offset, DOLLAR)
      modifies this, stack, stack.items
      ensures Ready(stack)
      ensures var a := Substitution(input, old(offset)); var was := old(Scanning(stack));
        if a.Some? && |was.stack| < CONTEXT_CAP then begun && Scanning(stack) == Perform(was, a.value).value
        else !begun && Scanning(stack) == (if a.Some? then was.(over := Some(was.at)) else was)
      ensures status == Okay ==> errorOffset == old(errorOffset)
    {
      var a := Substitution(input, offset);
      if a.None? {
        return false;
      }
      begun := PushContext(stack, a.value.context);
      if begun {
        AdvanceCount(a.value.n);
      }
    }

    /** `consume_escape`. */
    method ConsumeEscape(stack: ContextStack)
      requires Ready(stack) && offset < |input|
      modifies this`offset, this`line, this`column
      ensures Performed(stack, old(Scanning(stack)), Escape(input, old(offset)), true)
    {
      AdvanceOne();
      if offset < |input| {
        AdvanceOne();
      }
    }

    /** A dollar sign: a substitution, or a plain byte. */
    method Dollar(stack: ContextStack)
      requires Ready(stack) && At(input, offset, DOLLAR)
      modifies this, stack, stack.items
      ensures var a := Substitution(input, old(offset));
        Performed(stack, old(Scanning(stack)), if a.Some? then a.value else Take(1), true)
      ensures status == Okay ==> errorOffset == old(errorOffset)
    {
      var begun := BeginSubstitution(stack);
      if !begun {
        AdvanceOne();
      }
    }

    /** One plain byte, or the end of the construct that it closes. */
    method Leave(stack: ContextStack, count: nat, closes: bool)
      requires Ready(stack) && stack.Contents() != [] && 0 < count && offset + count <= |input|
      modifies this, stack
      ensures Performed(stack, old(Scanning(stack)), if closes then Close(count) else Take(count), true)
      ensures status == Okay ==> errorOffset == old(errorOffset)
    {
      AdvanceCount(count);
      if closes {
        stack.Pop();
      }
    }

    /** `scan_plain_word_byte`. */
    method ScanPlain(stack: ContextStack) returns (ok: bool)
      requires Ready(stack) && offset < |input|
      modifies this, stack, stack.items
      ensures Performed(stack, old(Scanning(stack)), ActPlain(input, old(offset)), ok)
      ensures status == Okay ==> errorOffset == old(errorOffset)
    {
      hide Valid, Substitution;
      var byte := input[offset];
      ok := true;
      if byte == BACKSLASH {
        ConsumeEscape(stack);
      } else if byte == SINGLE_QUOTE {
        ok := Enter(stack, Single);
      } else if byte == DOUBLE_QUOTE {
        ok := Enter(stack, Double);
      } else if byte == GRAVE {
        ok := Enter(stack, Backquote);
      } else if byte == DOLLAR {
        Dollar(stack);
      } else {
        NoSubstitution(input, offset);
        AdvanceOne();
      }
    }

    /** `scan_quoted_word_byte`. */
    method ScanQuoted(stack: ContextStack, context: Context) returns (ok: bool)
      requires Ready(stack) && offset < |input| && Top(stack.Contents()) == Some(context) && IsQuote(context)
      modifies this, stack, stack.items
      ensures Performed(stack, old(Scanning(stack)), ActQuoted(input, old(offset), context), ok)
      ensures status == Okay ==> errorOffset == old(errorOffset)
    {
      hide Valid, Substitution, Performed;
      var byte := input[offset];
      ok := true;
      if context == Single {
        Leave(stack, 1, byte == SINGLE_QUOTE);
      } else if byte == BACKSLASH {
        ConsumeEscape(stack);
      } else if context == DollarSingle {
        Leave(stack, 1, byte == SINGLE_QUOTE);
      } else if context == Backquote {
        Leave(stack, 1, byte == GRAVE);
      } else if byte == DOUBLE_QUOTE {
        Leave(stack, 1, true);
      } else if byte == GRAVE {
        ok := Enter(stack, Backquote);
      } else if byte == DOLLAR {
        Dollar(stack);
      } else {
        NoSubstitution(input, offset);
        Leave(stack, 1, false);
      }
    }

    /** `scan_nested_word_byte`. */
    method ScanNested(stack: ContextStack, context: Context) returns (ok: bool)
      requires Ready(stack) && offset < |input| && Top(stack.Contents()) == Some(context) && !IsQuote(context)
      modifies this, stack, stack.items
      ensures Performed(stack, old(Scanning(stack)), ActNested(input, old(offset), context), ok)
      ensures status == Okay ==> errorOffset == old(errorOffset)
    {
      hide Valid, Substitution, Performed;
      var byte := input[offset];
      ok := true;
      if byte == BACKSLASH || byte == SINGLE_QUOTE || byte == DOUBLE_QUOTE || byte == GRAVE || byte == DOLLAR {
        NestedIsPlain(input, offset, context);
        ok := ScanPlain(stack);
        return;
      }
      NoSubstitution(input, offset);
      if context == Parameter && byte == CLOSE_BRACE {
        Leave(stack, 1, true);
      } else if (context == Command || context == Parenthesis) && byte == LEFT {
        ok := Enter(stack, Parenthesis);
      } else if (context == Parenthesis || context == Command) && byte == RIGHT {
        Leave(stack, 1, true);
      } else if context == Arithmetic && byte == RIGHT && At(input, offset + 1, RIGHT) {
        Leave(stack, 2, true);
      } else if context == Arithmetic && byte == LEFT {
        ok := Enter(stack, Parenthesis);
      } else {
        Leave(stack, 1, false);
      }
    }

    /** `scan_word`. */
    method ScanWord() returns (ok: bool)
      requires Valid() && status == Okay
      modifies this
      ensures Valid()
      ensures var r := Scan(input, Config(old(offset), [], None));
        if r.end.Finished? then
          ok && View() == if r.over.None? then State(r.end.at, Okay, old(errorOffset)) else State(r.end.at, Limit, r.over.value)
        else !ok && View() == WordFailure(input, r.end).state
    {
      hide Scan, Act, LineOf, ColumnOf;
      var stack := new ContextStack();
      var at := offset;
      while offset < |input|
        invariant fresh(stack) && fresh(stack.items) && Ready(stack)
        invariant at <= offset && (status == Okay ==> errorOffset == old(errorOffset))
        invariant Scan(input, Config(at, [], None)) == Scan(input, Scanning(stack))
        decreases |input| - offset
      {
        ScanStep(input, Scanning(stack));
        var byte := input[offset];
        if byte == NUL {
          status, errorOffset := Invalid, offset;
          return false;
        }
        var top := if stack.length == 0 then None else Some(stack.items[stack.length - 1]);
        assert top == Top(stack.Contents());
        if top.None? {
          SeparatorsEndWords(input, offset);
          var operator := FindOperator();
          if byte == SPACE || byte == TAB || byte == NEWLINE || operator.Some? {
            return true;
          }
        }
        ok := ScanByte(stack, top);
        if !ok {
          return false;
        }
      }
      ScanStep(input, Scanning(stack));
      if stack.length != 0 {
        status, errorOffset := Incomplete, offset;
        return false;
      }
      return true;
    }

    /** One turn of `scan_word`, by the kind of the innermost context. */
    method ScanByte(stack: ContextStack, top: Option<Context>) returns (ok: bool)
      requires Ready(stack) && offset < |input| && Top(stack.Contents()) == top
      modifies this, stack, stack.items
      ensures Performed(stack, old(Scanning(stack)), Act(input, old(offset), top), ok)
      ensures ok ==> old(offset) < offset
      ensures status == Okay ==> errorOffset == old(errorOffset)
    {
      hide Valid;
      if top.None? {
        ok := ScanPlain(stack);
      } else if IsQuote(top.value) {
        ok := ScanQuoted(stack, top.value);
      } else {
        ok := ScanNested(stack, top.value);
      }
    }

    /** The trivia loop of `gsh_lexer_next`. */
    method SkipTrivia() returns (steps: nat)
      requires Valid()
      modifies this`offset, this`line, this`column
      ensures Valid() && Skipped(offset, steps) == Skip(input, old(offset), TRIVIA_STEP_CAP)
    {
      hide Skip, SkipBlanks, CommentEnd, LineOf, ColumnOf;
      steps := 0;
      while steps < TRIVIA_STEP_CAP
        invariant Valid() && steps <= TRIVIA_STEP_CAP
        invariant Skip(input, old(offset), TRIVIA_STEP_CAP) == Later(Skip(input, offset, TRIVIA_STEP_CAP - steps), steps)
      {
        SkipStep(input, offset, TRIVIA_STEP_CAP - steps);
        AdvanceBlanks();
        if Continued(input, offset) {
          AdvanceCount(2);
        } else if At(input, offset, HASH) {
          AdvanceComment();
        } else {
          return;
        }
        steps := steps + 1;
      }
      SkipStep(input, offset, 0);
    }

    method AdvanceBlanks()
      requires Valid()
      modifies this`offset, this`line, this`column
      ensures Valid() && offset == SkipBlanks(input, old(offset))
    {
      hide LineOf, ColumnOf;
      while offset < |input| && (input[offset] == SPACE || input[offset] == TAB)
        invariant Valid() && SkipBlanks(input, old(offset)) == SkipBlanks(input, offset)
        decreases |input| - offset
      {
        AdvanceOne();
      }
    }

    method AdvanceComment()
      requires Valid()
      modifies this`offset, this`line, this`column
      ensures Valid() && offset == CommentEnd(input, old(offset))
    {
      hide LineOf, ColumnOf;
      while offset < |input| && input[offset] != NEWLINE
        invariant Valid() && CommentEnd(input, old(offset)) == CommentEnd(input, offset)
        decreases |input| - offset
      {
        AdvanceOne();
      }
    }

    /** `gsh_lexer_next`; a token carries the line and column where it begins. */
    method NextToken() returns (returned: Status, token: Option<Token>, tokenLine: nat, tokenColumn: nat)
      requires Valid()
      modifies this
      ensures Valid()
      ensures var step := Next(input, old(View()));
        returned == step.returned && token == step.token && View() == step.state
      ensures token.Some? ==> token.value.begin <= |input|
      ensures token.Some? ==> tokenLine == LineOf(input, token.value.begin)
      ensures token.Some? ==> tokenColumn == ColumnOf(input, token.value.begin)
    {
      hide Scan, Skip, LineOf, ColumnOf, OperatorAt, OPERATORS;
      if status != Okay {
        return status, None, 0, 0;
      }
      var steps := SkipTrivia();
      if steps == TRIVIA_STEP_CAP {
        status, errorOffset := Limit, offset;
        return Limit, None, 0, 0;
      }
      var begin := offset;
      tokenLine, tokenColumn := line, column;
      if begin == |input| {
        return Okay, Some(Token(Eof, begin, begin)), tokenLine, tokenColumn;
      }
      if input[begin] == NUL {
        status, errorOffset := Invalid, begin;
        return Invalid, None, 0, 0;
      }
      if input[begin] == NEWLINE {
        AdvanceOne();
        return Okay, Some(Token(Newline, begin, offset)), tokenLine, tokenColumn;
      }
      var operator := FindOperator();
      if operator.Some? {
        OperatorFits(input, begin);
        AdvanceCount(|operator.value.text|);
        return Okay, Some(Token(operator.value.kind, begin, offset)), tokenLine, tokenColumn;
      }
      var ok := ScanWord();
      if !ok {
        return status, None, 0, 0;
      }
      if offset == begin {
        status, errorOffset := Invalid, offset;
        return Invalid, None, 0, 0;
      }
      return Okay, Some(Token(Word, begin, offset)), tokenLine, tokenColumn;
    }
  }

  lemma FirstFromStep(s: Text, p: nat, index: nat)
    ensures FirstFrom(s, p, index) ==
            if index >= |OPERATORS| then None
            else if StartsWith(s, p, OPERATORS[index].text) then Some(OPERATORS[index])
            else FirstFrom(s, p, index + 1)
  {
    hide OPERATORS;
  }

  lemma OperatorFits(s: Text, p: nat)
    requires OperatorAt(s, p).Some?
    ensures p + |OperatorAt(s, p).value.text| <= |s|
  {
    hide OPERATORS;
  }

  lemma NoSubstitution(s: Text, p: nat)
    requires p < |s| && s[p] != DOLLAR
    ensures Substitution(s, p) == None
  {
  }

  lemma NestedIsPlain(s: Text, p: nat, context: Context)
    requires p < |s| && !IsQuote(context)
    requires s[p] in [BACKSLASH, SINGLE_QUOTE, DOUBLE_QUOTE, GRAVE, DOLLAR]
    ensures ActNested(s, p, context) == ActPlain(s, p)
  {
  }

  lemma SeparatorsEndWords(s: Text, p: nat)
    requires p < |s|
    ensures Separates(s[p]) <==> s[p] == SPACE || s[p] == TAB || s[p] == NEWLINE || OperatorAt(s, p).Some?
  {
    hide OperatorAt, OPERATORS;
    OperatorsAreLongest(s, p);
  }

  lemma SkipStep(s: Text, p: nat, cap: nat)
    requires p <= |s|
    ensures Skip(s, p, cap) ==
      if cap == 0 then Skipped(p, 0)
      else
        var q := SkipBlanks(s, p);
        if Continued(s, q) then OneMore(Skip(s, q + 2, cap - 1))
        else if At(s, q, HASH) then OneMore(Skip(s, CommentEnd(s, q), cap - 1))
        else Skipped(q, 0)
  {
    hide SkipBlanks, CommentEnd;
  }

  function Later(k: Skipped, steps: nat): Skipped {
    Skipped(k.at, k.steps + steps)
  }
}
