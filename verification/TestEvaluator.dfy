/** The `test` utility on four or more operands: a two-stack operator-precedence
    evaluator, measured against the recursive grammar it stands for. */
module TestEvaluator {
  import opened Bytes

  const ARGUMENT_CAP: nat := 128

  /** What a three-operand and a two-operand primary evaluate to.  File tests
      and integer comparisons live behind these two functions. */
  datatype BinaryResult = NotBinary | BadOperand | BinaryValue(value: bool)
  datatype Primaries = Primaries(binary: (string, string, string) -> BinaryResult, unary: (string, string) -> Option<bool>)

  datatype PrimaryResult = Invalid | Valued(next: nat, value: bool)

  /** `test_primary`: three operands if the middle one is a binary operator, else
      two if the first is a unary operator, else one non-empty string. */
  function Primary(t: seq<string>, p: Primaries, offset: nat): (r: PrimaryResult)
    requires offset < |t|
    ensures r.Valued? ==> offset < r.next <= |t| && r.next <= offset + 3
  {
    var binary := if offset + 2 < |t| then p.binary(t[offset], t[offset + 1], t[offset + 2]) else NotBinary;
    if binary == BadOperand then Invalid
    else if binary.BinaryValue? then Valued(offset + 3, binary.value)
    else
      var unary := if offset + 1 < |t| then p.unary(t[offset], t[offset + 1]) else None;
      if unary.Some? then Valued(offset + 2, unary.value)
      else Valued(offset + 1, t[offset] != "")
  }

  /** The operands from `lo` up to `hi` are a primary of this value: three around a binary
      operator, else two behind a unary one, else a lone string, true when not empty. */
  ghost predicate IsPrimary(t: seq<string>, p: Primaries, lo: nat, hi: nat, value: bool) {
    var binary := if lo + 2 < |t| then p.binary(t[lo], t[lo + 1], t[lo + 2]) else NotBinary;
    var unary := if lo + 1 < |t| then p.unary(t[lo], t[lo + 1]) else None;
    || (hi == lo + 3 && binary == BinaryValue(value))
    || (hi == lo + 2 && binary == NotBinary && unary == Some(value))
    || (hi == lo + 1 <= |t| && binary == NotBinary && unary == None && (value <==> |t[lo]| > 0))
  }

  /** What is read as a primary is one, and operands that are none are only those around a
      binary operator with a bad operand. */
  lemma PrimaryIsRead(t: seq<string>, p: Primaries, lo: nat)
    requires lo < |t|
    ensures forall hi, value :: Primary(t, p, lo) == Valued(hi, value) <==> IsPrimary(t, p, lo, hi, value)
    ensures Primary(t, p, lo) == Invalid <==> lo + 2 < |t| && p.binary(t[lo], t[lo + 1], t[lo + 2]) == BadOperand
  {
  }

  // ----- the grammar -----

  datatype Expr =
    | Leaf(value: bool)
    | Not(e: Expr)
    | Group(e: Expr)
    | And(l: Expr, at: nat, r: Expr)
    | Or(l: Expr, at: nat, r: Expr)

  function Value(e: Expr): bool {
    match e
    case Leaf(value) => value
    case Not(e) => !Value(e)
    case Group(e) => Value(e)
    case And(l, _, r) => Value(l) && Value(r)
    case Or(l, _, r) => Value(l) || Value(r)
  }

  predicate At(t: seq<string>, k: nat, s: string) {
    k < |t| && t[k] == s
  }

  /** factor: primary | '!' factor | '(' disjunction ')' */
  ghost predicate IsFactor(t: seq<string>, p: Primaries, e: Expr, lo: nat, hi: nat)
    decreases e, 0
  {
    match e
    case Leaf(value) =>
      lo < |t| && t[lo] != "!" && t[lo] != "(" && IsPrimary(t, p, lo, hi, value)
    case Not(e) => At(t, lo, "!") && IsFactor(t, p, e, lo + 1, hi)
    case Group(e) => At(t, lo, "(") && lo + 1 < hi && At(t, hi - 1, ")") && IsDisjunction(t, p, e, lo + 1, hi - 1)
    case _ => false
  }

  /** conjunction: factor | conjunction '-a' factor */
  ghost predicate IsConjunction(t: seq<string>, p: Primaries, e: Expr, lo: nat, hi: nat)
    decreases e, 1
  {
    match e
    case And(l, at, r) => IsConjunction(t, p, l, lo, at) && At(t, at, "-a") && IsFactor(t, p, r, at + 1, hi)
    case _ => IsFactor(t, p, e, lo, hi)
  }

  /** disjunction: conjunction | disjunction '-o' conjunction */
  ghost predicate IsDisjunction(t: seq<string>, p: Primaries, e: Expr, lo: nat, hi: nat)
    decreases e, 2
  {
    match e
    case Or(l, at, r) => IsDisjunction(t, p, l, lo, at) && At(t, at, "-o") && IsConjunction(t, p, r, at + 1, hi)
    case _ => IsConjunction(t, p, e, lo, hi)
  }

  // ----- recursive descent: the grammar is deterministic -----

  type Parsed = Option<(Expr, nat)>

  function ParseFactor(t: seq<string>, p: Primaries, lo: nat): (r: Parsed)
    requires lo <= |t|
    ensures r.Some? ==> lo < r.value.1 <= |t|
    decreases |t| - lo, 0
  {
    if lo == |t| then None
    else if t[lo] == "!" then
      var r := ParseFactor(t, p, lo + 1);
      if r.None? then None else Some((Not(r.value.0), r.value.1))
    else if t[lo] == "(" then
      var r := ParseDisjunction(t, p, lo + 1);
      if r.None? || !At(t, r.value.1, ")") then None else Some((Group(r.value.0), r.value.1 + 1))
    else match Primary(t, p, lo)
      case Invalid => None
      case Valued(next, value) => Some((Leaf(value), next))
  }

  function ParseConjunction(t: seq<string>, p: Primaries, lo: nat): (r: Parsed)
    requires lo <= |t|
    ensures r.Some? ==> lo < r.value.1 <= |t| && !At(t, r.value.1, "-a")
    decreases |t| - lo, 1
  {
    var r := ParseFactor(t, p, lo);
    if r.None? then None else MoreFactors(t, p, r.value.0, r.value.1)
  }

  function MoreFactors(t: seq<string>, p: Primaries, e: Expr, at: nat): (r: Parsed)
    requires at <= |t|
    ensures r.Some? ==> at <= r.value.1 <= |t| && !At(t, r.value.1, "-a")
    decreases |t| - at, 0
  {
    if !At(t, at, "-a") then Some((e, at))
    else
      var r := ParseFactor(t, p, at + 1);
      if r.None? then None else MoreFactors(t, p, And(e, at, r.value.0), r.value.1)
  }

  function ParseDisjunction(t: seq<string>, p: Primaries, lo: nat): (r: Parsed)
    requires lo <= |t|
    ensures r.Some? ==> lo < r.value.1 <= |t| && !At(t, r.value.1, "-a") && !At(t, r.value.1, "-o")
    decreases |t| - lo, 2
  {
    var r := ParseConjunction(t, p, lo);
    if r.None? then None else MoreConjunctions(t, p, r.value.0, r.value.1)
  }

  function MoreConjunctions(t: seq<string>, p: Primaries, e: Expr, at: nat): (r: Parsed)
    requires at <= |t| && !At(t, at, "-a")
    ensures r.Some? ==> at <= r.value.1 <= |t| && !At(t, r.value.1, "-a") && !At(t, r.value.1, "-o")
    decreases |t| - at, 0
  {
    if !At(t, at, "-o") then Some((e, at))
    else
      var r := ParseConjunction(t, p, at + 1);
      if r.None? then None else MoreConjunctions(t, p, Or(e, at, r.value.0), r.value.1)
  }

  // ----- recursive descent finds exactly the grammar's trees -----

  lemma {:induction false} FactorSound(t: seq<string>, p: Primaries, lo: nat)
    requires lo <= |t|
    ensures var r := ParseFactor(t, p, lo); r.Some? ==> IsFactor(t, p, r.value.0, lo, r.value.1)
    decreases |t| - lo, 0
  {
    if lo < |t| && t[lo] == "!" {
      FactorSound(t, p, lo + 1);
    } else if lo < |t| && t[lo] == "(" {
      DisjunctionSound(t, p, lo + 1);
    } else if lo < |t| {
      PrimaryIsRead(t, p, lo);
    }
  }

  lemma {:induction false} ConjunctionSound(t: seq<string>, p: Primaries, lo: nat)
    requires lo <= |t|
    ensures var r := ParseConjunction(t, p, lo); r.Some? ==> IsConjunction(t, p, r.value.0, lo, r.value.1)
    decreases |t| - lo, 1
  {
    FactorSound(t, p, lo);
    var r := ParseFactor(t, p, lo);
    if r.Some? {
      FactorsSound(t, p, r.value.0, lo, r.value.1);
    }
  }

  lemma {:induction false} FactorsSound(t: seq<string>, p: Primaries, e: Expr, lo: nat, at: nat)
    requires lo < at <= |t| && IsConjunction(t, p, e, lo, at)
    ensures var r := MoreFactors(t, p, e, at); r.Some? ==> IsConjunction(t, p, r.value.0, lo, r.value.1)
    decreases |t| - at, 0
  {
    if At(t, at, "-a") {
      FactorSound(t, p, at + 1);
      var r := ParseFactor(t, p, at + 1);
      if r.Some? {
        FactorsSound(t, p, And(e, at, r.value.0), lo, r.value.1);
      }
    }
  }

  lemma {:induction false} DisjunctionSound(t: seq<string>, p: Primaries, lo: nat)
    requires lo <= |t|
    ensures var r := ParseDisjunction(t, p, lo); r.Some? ==> IsDisjunction(t, p, r.value.0, lo, r.value.1)
    decreases |t| - lo, 2
  {
    ConjunctionSound(t, p, lo);
    var r := ParseConjunction(t, p, lo);
    if r.Some? {
      ConjunctionsSound(t, p, r.value.0, lo, r.value.1);
    }
  }

  lemma {:induction false} ConjunctionsSound(t: seq<string>, p: Primaries, e: Expr, lo: nat, at: nat)
    requires lo < at <= |t| && !At(t, at, "-a") && IsDisjunction(t, p, e, lo, at)
    ensures var r := MoreConjunctions(t, p, e, at); r.Some? ==> IsDisjunction(t, p, r.value.0, lo, r.value.1)
    decreases |t| - at, 0
  {
    if At(t, at, "-o") {
      ConjunctionSound(t, p, at + 1);
      var r := ParseConjunction(t, p, at + 1);
      if r.Some? {
        ConjunctionsSound(t, p, Or(e, at, r.value.0), lo, r.value.1);
      }
    }
  }

  lemma {:induction false} FactorComplete(t: seq<string>, p: Primaries, e: Expr, lo: nat, hi: nat)
    requires IsFactor(t, p, e, lo, hi)
    ensures lo < hi <= |t| && ParseFactor(t, p, lo) == Some((e, hi))
    decreases e, 0
  {
    match e
    case Leaf(_) =>
      PrimaryIsRead(t, p, lo);
    case Not(f) =>
      FactorComplete(t, p, f, lo + 1, hi);
    case Group(f) =>
      DisjunctionComplete(t, p, f, lo + 1, hi - 1);
      assert !At(t, hi - 1, "-a") && !At(t, hi - 1, "-o");
    case _ =>
  }

  /** A conjunction is where the loop over factors gets to. */
  lemma {:induction false} ConjunctionComplete(t: seq<string>, p: Primaries, e: Expr, lo: nat, hi: nat)
    requires IsConjunction(t, p, e, lo, hi)
    ensures lo < hi <= |t| && ParseConjunction(t, p, lo) == MoreFactors(t, p, e, hi)
    decreases e, 1
  {
    if e.And? {
      ConjunctionComplete(t, p, e.l, lo, e.at);
      FactorComplete(t, p, e.r, e.at + 1, hi);
    } else {
      FactorComplete(t, p, e, lo, hi);
    }
  }

  /** A disjunction followed by no '-a' is where the loop over conjunctions gets to. */
  lemma {:induction false} DisjunctionComplete(t: seq<string>, p: Primaries, e: Expr, lo: nat, hi: nat)
    requires IsDisjunction(t, p, e, lo, hi) && !At(t, hi, "-a")
    ensures lo < hi <= |t| && ParseDisjunction(t, p, lo) == MoreConjunctions(t, p, e, hi)
    decreases e, 2
  {
    if e.Or? {
      DisjunctionComplete(t, p, e.l, lo, e.at);
      ConjunctionComplete(t, p, e.r, e.at + 1, hi);
    } else {
      ConjunctionComplete(t, p, e, lo, hi);
    }
  }

  /** The operand list has one tree under the grammar, or none. */
  lemma ParseIsGrammar(t: seq<string>, p: Primaries, e: Expr)
    ensures ParseDisjunction(t, p, 0) == Some((e, |t|)) <==> IsDisjunction(t, p, e, 0, |t|)
  {
    DisjunctionSound(t, p, 0);
    if IsDisjunction(t, p, e, 0, |t|) {
      DisjunctionComplete(t, p, e, 0, |t|);
    }
  }

  // ----- the two-stack machine -----

  datatype Operator = LEFT | NOT | AND | OR

  function Precedence(op: Operator): nat {
    match op
    case NOT => 3
    case AND => 2
    case OR => 1
    case LEFT => 0
  }

  datatype Stacks = Stacks(values: seq<bool>, operators: seq<Operator>)

  /** `apply_test_operator` on the value stack. */
  function Apply(values: seq<bool>, op: Operator): Option<seq<bool>> {
    var n := |values|;
    match op
    case NOT => if n >= 1 then Some(values[..n - 1] + [!values[n - 1]]) else None
    case AND => if n >= 2 then Some(values[..n - 2] + [values[n - 2] && values[n - 1]]) else None
    case OR => if n >= 2 then Some(values[..n - 2] + [values[n - 2] || values[n - 1]]) else None
    case LEFT => None
  }

  predicate Reducible(operators: seq<Operator>, precedence: nat) {
    operators != [] && operators[|operators| - 1] != LEFT && Precedence(operators[|operators| - 1]) >= precedence
  }

  /** `reduce_test_operators`: apply from the top while the precedence allows. */
  function Reduce(s: Stacks, precedence: nat): (r: Option<Stacks>)
    ensures r.Some? ==> |r.value.operators| <= |s.operators| && |r.value.values| <= |s.values|
    decreases |s.operators|
  {
    if !Reducible(s.operators, precedence) then Some(s)
    else
      var top := |s.operators| - 1;
      var values := Apply(s.values, s.operators[top]);
      if values.None? then None else Reduce(Stacks(values.value, s.operators[..top]), precedence)
  }

  function Push(s: Stacks, op: Operator): Stacks {
    s.(operators := s.operators + [op])
  }

  function PushValue(s: Stacks, v: bool): Stacks {
    s.(values := s.values + [v])
  }

  /** The main loop of `test_large_expression` from one operand on. */
  function Run(t: seq<string>, p: Primaries, cap: nat, offset: nat, expecting: bool, s: Stacks): Option<bool>
    requires offset <= |t|
    decreases |t| - offset
  {
    if offset < |t| && offset < cap then
      if expecting then
        if t[offset] == "!" then Run(t, p, cap, offset + 1, true, Push(s, NOT))
        else if t[offset] == "(" then Run(t, p, cap, offset + 1, true, Push(s, LEFT))
        else match Primary(t, p, offset)
          case Invalid => None
          case Valued(next, value) =>
            var r := Reduce(PushValue(s, value), 3);
            if r.None? then None else Run(t, p, cap, next, false, r.value)
      else if t[offset] == ")" then
        var r := Reduce(s, 0);
        if r.None? || r.value.operators == [] then None
        else Run(t, p, cap, offset + 1, false, r.value.(operators := r.value.operators[..|r.value.operators| - 1]))
      else if t[offset] == "-a" || t[offset] == "-o" then
        var op := if t[offset] == "-a" then AND else OR;
        var r := Reduce(s, Precedence(op));
        if r.None? then None else Run(t, p, cap, offset + 1, true, Push(r.value, op))
      else None
    else if expecting || offset != |t| then None
    else
      var r := Reduce(s, 0);
      if r.None? || r.value.operators != [] || |r.value.values| != 1 then None
      else Some(r.value.values[0])
  }

  const EMPTY := Stacks([], [])

  /** `test_large_expression`. */
  function Evaluate(t: seq<string>, p: Primaries): Option<bool> {
    Run(t, p, ARGUMENT_CAP, 0, true, EMPTY)
  }

  // ----- machine against parser -----

  /** Reducing far first and less far later is reducing less far at once. */
  lemma {:induction false} ReduceTwice(s: Stacks, high: nat, low: nat)
    requires low <= high
    ensures var r := Reduce(s, high);
            Reduce(s, low) == if r.None? then None else Reduce(r.value, low)
    decreases |s.operators|
  {
    if Reducible(s.operators, high) {
      var top := |s.operators| - 1;
      var values := Apply(s.values, s.operators[top]);
      if values.Some? {
        ReduceTwice(Stacks(values.value, s.operators[..top]), high, low);
      }
    }
  }

  /** Between operands only the reduced stacks matter. */
  lemma SameContinuation(t: seq<string>, p: Primaries, cap: nat, at: nat, a: Stacks, b: Stacks, precedence: nat)
    requires at <= |t|
    requires precedence == 2 || (precedence == 1 && !At(t, at, "-a"))
    requires Reduce(a, precedence) == Reduce(b, precedence)
    ensures Run(t, p, cap, at, false, a) == Run(t, p, cap, at, false, b)
  {
    hide Reduce;
    ReduceTwice(a, precedence, 0);
    ReduceTwice(b, precedence, 0);
    ReduceTwice(a, precedence, 1);
    ReduceTwice(b, precedence, 1);
  }

  /** What the machine makes of a parse: fail with it, or continue behind it. */
  function After(t: seq<string>, p: Primaries, cap: nat, r: Parsed, s: Stacks): Option<bool>
    requires r.Some? ==> r.value.1 <= |t|
  {
    if r.None? then None else Run(t, p, cap, r.value.1, false, PushValue(s, Value(r.value.0)))
  }

  lemma NothingToReduce(s: Stacks, precedence: nat)
    requires !Reducible(s.operators, precedence)
    ensures Reduce(s, precedence) == Some(s)
  {
  }

  lemma ReduceStep(s: Stacks, precedence: nat)
    requires Reducible(s.operators, precedence)
    ensures var top := |s.operators| - 1;
            var values := Apply(s.values, s.operators[top]);
            Reduce(s, precedence) ==
            if values.None? then None else Reduce(Stacks(values.value, s.operators[..top]), precedence)
  {
  }

  /** One step of reducing: a pushed operator on top of what it applies to. */
  lemma ReducePushed(s: Stacks, op: Operator, values: seq<bool>, precedence: nat)
    requires op != LEFT && precedence <= Precedence(op)
    requires Apply(values, op).Some?
    ensures Reduce(Stacks(values, s.operators + [op]), precedence) ==
            Reduce(Stacks(Apply(values, op).value, s.operators), precedence)
  {
    assert (s.operators + [op])[..|s.operators|] == s.operators;
  }

  lemma ApplyPushed(values: seq<bool>, v: bool, w: bool)
    ensures Apply(values + [v], NOT) == Some(values + [!v])
    ensures Apply(values + [v] + [w], AND) == Some(values + [v && w])
    ensures Apply(values + [v] + [w], OR) == Some(values + [v || w])
  {
    assert (values + [v])[..|values|] == values;
    assert (values + [v] + [w])[..|values|] == values;
  }

  lemma {:induction false} FactorRuns(t: seq<string>, p: Primaries, cap: nat, lo: nat, s: Stacks)
    requires lo <= |t| <= cap
    ensures Run(t, p, cap, lo, true, s) == After(t, p, cap, ParseFactor(t, p, lo), s)
    decreases |t| - lo, 0
  {
    hide Reduce, Apply;
    if lo < |t| {
      if t[lo] == "!" {
        FactorRuns(t, p, cap, lo + 1, Push(s, NOT));
        var r := ParseFactor(t, p, lo + 1);
        if r.Some? {
          var v := Value(r.value.0);
          ApplyPushed(s.values, v, v);
          ReducePushed(s, NOT, s.values + [v], 2);
          assert PushValue(Push(s, NOT), v) == Push(PushValue(s, v), NOT);
          SameContinuation(t, p, cap, r.value.1, PushValue(Push(s, NOT), v), PushValue(s, !v), 2);
        }
      } else if t[lo] == "(" {
        DisjunctionRuns(t, p, cap, lo + 1, Push(s, LEFT));
        var r := ParseDisjunction(t, p, lo + 1);
        if r.Some? {
          GroupCloses(t, p, cap, r.value.1, s, Value(r.value.0));
        }
      } else {
        var r := Primary(t, p, lo);
        if r.Valued? {
          var pushed := PushValue(s, r.value);
          ReduceTwice(pushed, 3, 2);
          if Reduce(pushed, 3).None? {
            NoContinuation(t, p, cap, r.next, pushed);
          } else {
            SameContinuation(t, p, cap, r.next, Reduce(pushed, 3).value, pushed, 2);
          }
        }
      }
    }
  }

  lemma NoContinuation(t: seq<string>, p: Primaries, cap: nat, at: nat, s: Stacks)
    requires at <= |t| && Reduce(s, 3) == None
    ensures Run(t, p, cap, at, false, s) == None
  {
    hide Reduce;
    ReduceTwice(s, 3, 2);
    ReduceTwice(s, 3, 1);
    ReduceTwice(s, 3, 0);
  }

  /** Behind a complete disjunction inside parentheses: the closing parenthesis
      restores the outer stacks, anything else fails. */
  lemma GroupCloses(t: seq<string>, p: Primaries, cap: nat, at: nat, s: Stacks, v: bool)
    requires at <= |t| <= cap && !At(t, at, "-a") && !At(t, at, "-o")
    ensures Run(t, p, cap, at, false, PushValue(Push(s, LEFT), v)) ==
            if At(t, at, ")") then Run(t, p, cap, at + 1, false, PushValue(s, v)) else None
  {
    var inside := PushValue(Push(s, LEFT), v);
    assert Reduce(inside, 0) == Some(inside);
    assert inside.operators[..|inside.operators| - 1] == s.operators;
  }

  lemma {:induction false} FactorsRun(t: seq<string>, p: Primaries, cap: nat, e: Expr, at: nat, s: Stacks)
    requires at <= |t| <= cap && !Reducible(s.operators, 2)
    ensures Run(t, p, cap, at, false, PushValue(s, Value(e))) == After(t, p, cap, MoreFactors(t, p, e, at), s)
    decreases |t| - at, 0
  {
    hide Reduce, Apply;
    if At(t, at, "-a") {
      var before := PushValue(s, Value(e));
      NothingToReduce(before, 2);
      FactorRuns(t, p, cap, at + 1, Push(before, AND));
      var r := ParseFactor(t, p, at + 1);
      if r.Some? {
        var w := Value(r.value.0);
        ApplyPushed(s.values, Value(e), w);
        ReducePushed(s, AND, s.values + [Value(e)] + [w], 2);
        SameContinuation(t, p, cap, r.value.1, PushValue(Push(before, AND), w), PushValue(s, Value(e) && w), 2);
        FactorsRun(t, p, cap, And(e, at, r.value.0), r.value.1, s);
      }
    }
  }

  lemma {:induction false} ConjunctionRuns(t: seq<string>, p: Primaries, cap: nat, lo: nat, s: Stacks)
    requires lo <= |t| <= cap && !Reducible(s.operators, 2)
    ensures Run(t, p, cap, lo, true, s) == After(t, p, cap, ParseConjunction(t, p, lo), s)
    decreases |t| - lo, 1
  {
    hide Reduce;
    FactorRuns(t, p, cap, lo, s);
    var r := ParseFactor(t, p, lo);
    if r.Some? {
      FactorsRun(t, p, cap, r.value.0, r.value.1, s);
    }
  }

  lemma {:induction false} ConjunctionsRun(t: seq<string>, p: Primaries, cap: nat, e: Expr, at: nat, s: Stacks)
    requires at <= |t| <= cap && !At(t, at, "-a") && !Reducible(s.operators, 1)
    ensures Run(t, p, cap, at, false, PushValue(s, Value(e))) == After(t, p, cap, MoreConjunctions(t, p, e, at), s)
    decreases |t| - at, 0
  {
    hide Reduce, Apply;
    if At(t, at, "-o") {
      var before := PushValue(s, Value(e));
      NothingToReduce(before, 1);
      ConjunctionRuns(t, p, cap, at + 1, Push(before, OR));
      var r := ParseConjunction(t, p, at + 1);
      if r.Some? {
        var w := Value(r.value.0);
        ApplyPushed(s.values, Value(e), w);
        ReducePushed(s, OR, s.values + [Value(e)] + [w], 1);
        SameContinuation(t, p, cap, r.value.1, PushValue(Push(before, OR), w), PushValue(s, Value(e) || w), 1);
        ConjunctionsRun(t, p, cap, Or(e, at, r.value.0), r.value.1, s);
      }
    }
  }

  lemma {:induction false} DisjunctionRuns(t: seq<string>, p: Primaries, cap: nat, lo: nat, s: Stacks)
    requires lo <= |t| <= cap && !Reducible(s.operators, 1)
    ensures Run(t, p, cap, lo, true, s) == After(t, p, cap, ParseDisjunction(t, p, lo), s)
    decreases |t| - lo, 2
  {
    hide Reduce;
    ConjunctionRuns(t, p, cap, lo, s);
    var r := ParseConjunction(t, p, lo);
    if r.Some? {
      ConjunctionsRun(t, p, cap, r.value.0, r.value.1, s);
    }
  }

  lemma EvaluateIsParse(t: seq<string>, p: Primaries, cap: nat)
    requires |t| <= cap
    ensures var r := ParseDisjunction(t, p, 0);
            Run(t, p, cap, 0, true, EMPTY) == if r.Some? && r.value.1 == |t| then Some(Value(r.value.0)) else None
  {
    DisjunctionRuns(t, p, cap, 0, EMPTY);
    var r := ParseDisjunction(t, p, 0);
    if r.Some? {
      var s := PushValue(EMPTY, Value(r.value.0));
      assert Reduce(s, 0) == Some(s);
    }
  }

  /** The operand the last turn of the loop starts at, when no limit stops it; it
      depends on the operands alone. */
  function LastTurn(t: seq<string>, p: Primaries, offset: nat, expecting: bool): (last: nat)
    requires offset < |t|
    ensures offset <= last < |t| <= last + 3
    decreases |t| - offset
  {
    var opens := t[offset] == "!" || t[offset] == "(";
    var next := if !expecting || opens then offset + 1
                else if Primary(t, p, offset).Valued? then Primary(t, p, offset).next else offset + 1;
    if next >= |t| then offset
    else LastTurn(t, p, next, if expecting then opens else t[offset] != ")")
  }

  /** The operand limit only turns answers into failures, and it does so exactly when
      the last turn would start behind it. */
  lemma {:induction false} LimitIsExact(t: seq<string>, p: Primaries, cap: nat, offset: nat, expecting: bool, s: Stacks)
    requires offset < |t|
    ensures Run(t, p, cap, offset, expecting, s) ==
            if LastTurn(t, p, offset, expecting) < cap then Run(t, p, |t|, offset, expecting, s) else None
    decreases |t| - offset
  {
    hide Reduce;
    if offset < cap {
      if expecting {
        if t[offset] == "!" {
          BehindTurn(t, p, cap, offset, offset + 1, true, Push(s, NOT));
        } else if t[offset] == "(" {
          BehindTurn(t, p, cap, offset, offset + 1, true, Push(s, LEFT));
        } else if Primary(t, p, offset).Valued? {
          var r := Reduce(PushValue(s, Primary(t, p, offset).value), 3);
          if r.Some? {
            BehindTurn(t, p, cap, offset, Primary(t, p, offset).next, false, r.value);
          }
        }
      } else if t[offset] == ")" {
        var r := Reduce(s, 0);
        if r.Some? && r.value.operators != [] {
          BehindTurn(t, p, cap, offset, offset + 1, false, r.value.(operators := r.value.operators[..|r.value.operators| - 1]));
        }
      } else if t[offset] == "-a" || t[offset] == "-o" {
        var op := if t[offset] == "-a" then AND else OR;
        var r := Reduce(s, Precedence(op));
        if r.Some? {
          BehindTurn(t, p, cap, offset, offset + 1, true, Push(r.value, op));
        }
      }
    }
  }

  lemma BehindTurn(t: seq<string>, p: Primaries, cap: nat, offset: nat, next: nat, expecting: bool, s: Stacks)
    requires offset < next <= |t| && offset < cap
    ensures Run(t, p, cap, next, expecting, s) ==
            if next == |t| || LastTurn(t, p, next, expecting) < cap then Run(t, p, |t|, next, expecting, s) else None
    decreases |t| - offset, 0
  {
    hide Reduce;
    if next < |t| {
      LimitIsExact(t, p, cap, next, expecting, s);
    }
  }

  /** The evaluator answers `v` exactly when the whole operand list has a tree of value
      `v` and its last operator, parenthesis or primary starts among the first 128
      operands. */
  lemma EvaluatorIsGrammar(t: seq<string>, p: Primaries, v: bool)
    ensures Evaluate(t, p) == Some(v) <==>
      && (exists e :: IsDisjunction(t, p, e, 0, |t|) && Value(e) == v)
      && (t == [] || LastTurn(t, p, 0, true) < ARGUMENT_CAP)
  {
    hide Run, LastTurn;
    EvaluateIsParse(t, p, |t|);
    if t != [] {
      LimitIsExact(t, p, ARGUMENT_CAP, 0, true, EMPTY);
    } else {
      EvaluateIsParse(t, p, ARGUMENT_CAP);
    }
    if Run(t, p, |t|, 0, true, EMPTY) == Some(v) {
      ParseIsGrammar(t, p, ParseDisjunction(t, p, 0).value.0);
    }
    if e :| IsDisjunction(t, p, e, 0, |t|) && Value(e) == v {
      ParseIsGrammar(t, p, e);
    }
  }

  /** Up to 128 operands the limit plays no part; beyond 130 it always rejects. */
  lemma LimitByLength(t: seq<string>, p: Primaries, v: bool)
    ensures |t| <= ARGUMENT_CAP ==>
      (Evaluate(t, p) == Some(v) <==> exists e :: IsDisjunction(t, p, e, 0, |t|) && Value(e) == v)
    ensures |t| > ARGUMENT_CAP + 2 ==> Evaluate(t, p) == None
  {
    hide Evaluate;
    EvaluatorIsGrammar(t, p, v);
    if Evaluate(t, p).Some? {
      EvaluatorIsGrammar(t, p, Evaluate(t, p).value);
    }
  }

  // ----- what the operators mean -----

  /** A word behind some negations. */
  datatype Literal = Literal(negations: nat, word: string)

  predicate Holds(l: Literal) {
    if l.negations % 2 == 0 then l.word != "" else l.word == ""
  }

  function LiteralText(l: Literal): seq<string> {
    seq(l.negations, _ => "!") + [l.word]
  }

  /** Literals joined by `-a`, and such terms joined by `-o`. */
  function TermText(term: seq<Literal>): seq<string>
    requires |term| > 0
  {
    var last := |term| - 1;
    (if last == 0 then [] else TermText(term[..last]) + ["-a"]) + LiteralText(term[last])
  }

  predicate NonEmpty(terms: seq<seq<Literal>>) {
    |terms| > 0 && forall i :: 0 <= i < |terms| ==> |terms[i]| > 0
  }

  function FormulaText(terms: seq<seq<Literal>>): seq<string>
    requires NonEmpty(terms)
  {
    var last := |terms| - 1;
    (if last == 0 then [] else FormulaText(terms[..last]) + ["-o"]) + TermText(terms[last])
  }

  /** No two or three operands in a row are a primary, and no word is one of `!` and `(`. */
  ghost predicate OnlyWords(t: seq<string>, p: Primaries) {
    && (forall k :: 0 <= k < |t| - 2 ==> p.binary(t[k], t[k + 1], t[k + 2]) == NotBinary)
    && (forall k :: 0 <= k < |t| - 1 ==> p.unary(t[k], t[k + 1]) == None)
  }

  predicate IsWord(word: string) {
    word != "!" && word != "("
  }

  predicate TermOfWords(term: seq<Literal>) {
    forall j :: 0 <= j < |term| ==> IsWord(term[j].word)
  }

  predicate AllWords(terms: seq<seq<Literal>>) {
    forall i :: 0 <= i < |terms| ==> TermOfWords(terms[i])
  }

  /** `text` stands at `lo`. */
  predicate Stands(t: seq<string>, lo: nat, text: seq<string>) {
    lo + |text| <= |t| && t[lo..lo + |text|] == text
  }

  lemma StandsParts(t: seq<string>, lo: nat, a: seq<string>, b: seq<string>)
    requires Stands(t, lo, a + b)
    ensures Stands(t, lo, a) && Stands(t, lo + |a|, b)
  {
    assert (a + b)[..|a|] == a && (a + b)[|a|..] == b;
    SliceOfSlice(t, lo, lo + |a + b|, 0, |a|);
    SliceOfSlice(t, lo, lo + |a + b|, |a|, |a + b|);
  }

  lemma StandsWhole(t: seq<string>)
    ensures Stands(t, 0, t)
  {
    assert t[0..|t|] == t;
  }

  lemma StandsOne(t: seq<string>, lo: nat, s: string)
    requires Stands(t, lo, [s])
    ensures At(t, lo, s)
  {
    assert t[lo] == t[lo..lo + 1][0];
  }

  lemma {:induction false} LiteralIsFactor(t: seq<string>, p: Primaries, lo: nat, l: Literal) returns (e: Expr)
    requires OnlyWords(t, p) && IsWord(l.word) && Stands(t, lo, LiteralText(l))
    ensures IsFactor(t, p, e, lo, lo + |LiteralText(l)|) && Value(e) == Holds(l)
    decreases l.negations
  {
    if l.negations == 0 {
      assert LiteralText(l) == [l.word];
      StandsOne(t, lo, l.word);
      e := Leaf(l.word != "");
    } else {
      var less := l.(negations := l.negations - 1);
      assert LiteralText(l) == ["!"] + LiteralText(less);
      StandsParts(t, lo, ["!"], LiteralText(less));
      StandsOne(t, lo, "!");
      var f := LiteralIsFactor(t, p, lo + 1, less);
      e := Not(f);
    }
  }

  ghost predicate TermHolds(term: seq<Literal>) {
    forall j :: 0 <= j < |term| ==> Holds(term[j])
  }

  lemma {:induction false} TermIsConjunction(t: seq<string>, p: Primaries, lo: nat, term: seq<Literal>) returns (e: Expr)
    requires |term| > 0 && OnlyWords(t, p) && TermOfWords(term)
    requires Stands(t, lo, TermText(term))
    ensures IsConjunction(t, p, e, lo, lo + |TermText(term)|)
    ensures Value(e) <==> TermHolds(term)
    decreases |term|
  {
    hide OnlyWords, IsWord, Holds, LiteralText, IsFactor, Stands;
    var last := |term| - 1;
    if last == 0 {
      assert TermText(term) == LiteralText(term[0]);
      e := LiteralIsFactor(t, p, lo, term[0]);
      FactorIsConjunction(t, p, e, lo, lo + |TermText(term)|);
    } else {
      var front, text := TermText(term[..last]), LiteralText(term[last]);
      StandsParts(t, lo, front + ["-a"], text);
      StandsParts(t, lo, front, ["-a"]);
      StandsOne(t, lo + |front|, "-a");
      var l := TermIsConjunction(t, p, lo, term[..last]);
      var r := LiteralIsFactor(t, p, lo + |front| + 1, term[last]);
      e := And(l, lo + |front|, r);
    }
  }

  lemma FactorIsConjunction(t: seq<string>, p: Primaries, e: Expr, lo: nat, hi: nat)
    requires IsFactor(t, p, e, lo, hi)
    ensures IsConjunction(t, p, e, lo, hi)
  {
  }

  lemma ConjunctionIsDisjunction(t: seq<string>, p: Primaries, e: Expr, lo: nat, hi: nat)
    requires IsConjunction(t, p, e, lo, hi)
    ensures IsDisjunction(t, p, e, lo, hi)
  {
  }

  ghost predicate SomeTermHolds(terms: seq<seq<Literal>>) {
    exists i :: 0 <= i < |terms| && TermHolds(terms[i])
  }

  /** All but the last term, and the last. */
  lemma FormulaSplit(terms: seq<seq<Literal>>)
    requires NonEmpty(terms) && AllWords(terms)
    ensures var last := |terms| - 1; var before := terms[..last];
      && last >= 0 && |terms[last]| > 0 && TermOfWords(terms[last])
      && (last == 0 ==> FormulaText(terms) == TermText(terms[0]) && (SomeTermHolds(terms) <==> TermHolds(terms[0])))
      && (last > 0 ==>
            && NonEmpty(before) && AllWords(before)
            && FormulaText(terms) == FormulaText(before) + ["-o"] + TermText(terms[last])
            && (SomeTermHolds(terms) <==> SomeTermHolds(before) || TermHolds(terms[last])))
  {
    hide TermOfWords, TermText, TermHolds;
    var last := |terms| - 1;
    var before := terms[..last];
    if i :| 0 <= i < |before| && TermHolds(before[i]) {
      assert TermHolds(terms[i]);
    }
    if i :| 0 <= i < |terms| && TermHolds(terms[i]) {
      assert i < last ==> TermHolds(before[i]);
    }
  }

  lemma {:induction false} FormulaIsDisjunction(t: seq<string>, p: Primaries, lo: nat, terms: seq<seq<Literal>>) returns (e: Expr)
    requires NonEmpty(terms)
    requires OnlyWords(t, p) && AllWords(terms)
    requires Stands(t, lo, FormulaText(terms))
    ensures IsDisjunction(t, p, e, lo, lo + |FormulaText(terms)|)
    ensures Value(e) <==> SomeTermHolds(terms)
    decreases |terms|
  {
    hide OnlyWords, TermOfWords, TermText, IsConjunction, Stands, TermHolds, FormulaText, NonEmpty, AllWords, SomeTermHolds;
    FormulaSplit(terms);
    var last := |terms| - 1;
    if last == 0 {
      e := TermIsConjunction(t, p, lo, terms[0]);
      ConjunctionIsDisjunction(t, p, e, lo, lo + |FormulaText(terms)|);
    } else {
      var front, text := FormulaText(terms[..last]), TermText(terms[last]);
      StandsParts(t, lo, front + ["-o"], text);
      StandsParts(t, lo, front, ["-o"]);
      StandsOne(t, lo + |front|, "-o");
      var l := FormulaIsDisjunction(t, p, lo, terms[..last]);
      var r := TermIsConjunction(t, p, lo + |front| + 1, terms[last]);
      e := Or(l, lo + |front|, r);
    }
  }

  /** Words with negations, joined by `-a` and `-o`, are true exactly when in one of the
      terms every word behind an even number of negations is not empty and every other one
      is; so `-a` binds tighter than `-o`, and `!` tighter than both. */
  lemma WordsMeanWhatTheySay(terms: seq<seq<Literal>>, p: Primaries)
    requires NonEmpty(terms)
    requires AllWords(terms) && OnlyWords(FormulaText(terms), p) && |FormulaText(terms)| <= ARGUMENT_CAP
    ensures Evaluate(FormulaText(terms), p) == Some(SomeTermHolds(terms))
  {
    hide FormulaText, Evaluate, IsDisjunction, SomeTermHolds, OnlyWords, AllWords, NonEmpty, Stands, Value;
    var t := FormulaText(terms);
    StandsWhole(t);
    var e := FormulaIsDisjunction(t, p, 0, terms);
    TreeIsAnswered(t, p, e);
  }

  lemma TreeIsAnswered(t: seq<string>, p: Primaries, e: Expr)
    requires |t| <= ARGUMENT_CAP && IsDisjunction(t, p, e, 0, |t|)
    ensures Evaluate(t, p) == Some(Value(e))
  {
    hide IsDisjunction, Evaluate;
    LimitByLength(t, p, Value(e));
  }

  // ----- an answer beyond the limit -----

  /** 127 negations of `-n x`. */
  function Negations(): (t: seq<string>)
    ensures |t| == 129 && t[127] == "-n" && t[128] == "x"
    ensures forall k :: 0 <= k < 127 ==> t[k] == "!"
  {
    seq(127, _ => "!") + ["-n", "x"]
  }

  function Negated(value: bool, n: nat): Expr {
    if n == 0 then Leaf(value) else Not(Negated(value, n - 1))
  }

  lemma {:induction false} NegationsParse(p: Primaries, value: bool, k: nat)
    requires k <= 127 && p.unary("-n", "x") == Some(value)
    ensures var t := Negations();
      && IsFactor(t, p, Negated(value, 127 - k), k, 129)
      && Value(Negated(value, 127 - k)) == (if (127 - k) % 2 == 0 then value else !value)
      && LastTurn(t, p, k, true) == 127
    decreases 127 - k
  {
    hide Negations;
    var t := Negations();
    if k < 127 {
      NegationsParse(p, value, k + 1);
    }
  }

  /** 129 operands are answered when the last primary starts at the 128th. */
  lemma AnswersBeyondLimit(p: Primaries, value: bool)
    requires p.unary("-n", "x") == Some(value)
    ensures |Negations()| > ARGUMENT_CAP && Evaluate(Negations(), p) == Some(!value)
  {
    hide Evaluate, Negations, LastTurn, IsFactor;
    NegationsParse(p, value, 0);
    var e := Negated(value, 127);
    assert IsDisjunction(Negations(), p, e, 0, 129);
    EvaluatorIsGrammar(Negations(), p, !value);
  }

  // ----- the imperative evaluator -----

  /** The two fixed arrays and their counts. */
  class Machine {
    const values: array<bool>
    const operators: array<Operator>
    var valueCount: nat
    var operatorCount: nat

    ghost predicate Valid()
      reads this
    {
      && values.Length == ARGUMENT_CAP && operators.Length == ARGUMENT_CAP
      && valueCount <= ARGUMENT_CAP && operatorCount <= ARGUMENT_CAP
    }

    ghost function View(): Stacks
      reads this, values, operators
      requires Valid()
    {
      Stacks(values[..valueCount], operators[..operatorCount])
    }

    constructor ()
      ensures Valid() && View() == EMPTY && valueCount == 0 && operatorCount == 0
      ensures fresh(values) && fresh(operators)
    {
      values := new bool[ARGUMENT_CAP](_ => false);
      operators := new Operator[ARGUMENT_CAP](_ => LEFT);
      valueCount, operatorCount := 0, 0;
    }

    method PushOperator(op: Operator)
      requires Valid() && operatorCount < ARGUMENT_CAP
      modifies this`operatorCount, operators
      ensures Valid() && View() == Push(old(View()), op) && operatorCount == old(operatorCount) + 1
    {
      operators[operatorCount] := op;
      operatorCount := operatorCount + 1;
    }

    /** `apply_test_operator`, on an operator already popped. */
    method ApplyOperator(op: Operator) returns (ok: bool)
      requires Valid()
      modifies this`valueCount, values
      ensures Valid() && ok == Apply(old(View().values), op).Some?
      ensures ok ==> View().values == Apply(old(View().values), op).value
      ensures valueCount <= old(valueCount)
    {
      if op == NOT && valueCount >= 1 {
        values[valueCount - 1] := !values[valueCount - 1];
        return true;
      }
      if (op == AND || op == OR) && valueCount >= 2 {
        valueCount := valueCount - 1;
        var right, left := values[valueCount], values[valueCount - 1];
        values[valueCount - 1] := if op == AND then left && right else left || right;
        return true;
      }
      return false;
    }

    /** `reduce_test_operators`. */
    method ReduceOperators(precedence: nat) returns (ok: bool)
      requires Valid()
      modifies this, values
      ensures Valid() && ok == Reduce(old(View()), precedence).Some?
      ensures ok ==> View() == Reduce(old(View()), precedence).value
      ensures valueCount <= old(valueCount) && operatorCount <= old(operatorCount)
    {
      hide Apply, Reduce;
      ghost var goal := Reduce(View(), precedence);
      while operatorCount > 0 && operators[operatorCount - 1] != LEFT &&
            Precedence(operators[operatorCount - 1]) >= precedence
        invariant Valid() && valueCount <= old(valueCount) && operatorCount <= old(operatorCount)
        invariant goal == Reduce(View(), precedence)
        decreases operatorCount
      {
        ghost var before := View();
        ReduceStep(before, precedence);
        operatorCount := operatorCount - 1;
        assert operators[..operatorCount] == before.operators[..operatorCount];
        assert values[..valueCount] == before.values;
        ok := ApplyOperator(operators[operatorCount]);
        if !ok {
          return false;
        }
      }
      NothingToReduce(View(), precedence);
      return true;
    }

    /** `test_large_expression`.  The stacks never overrun: each push consumes an
        operand below the limit. */
    method Expression(t: seq<string>, p: Primaries) returns (result: Option<bool>)
      requires Valid() && valueCount == 0 && operatorCount == 0
      modifies this, values, operators
      ensures Valid() && result == Evaluate(t, p)
    {
      hide Reduce, Primary, Run;
      var offset, expecting := 0, true;
      assert View() == EMPTY;
      while offset < |t| && offset < ARGUMENT_CAP
        invariant Valid() && offset <= |t| && valueCount <= offset && operatorCount <= offset
        invariant Evaluate(t, p) == Run(t, p, ARGUMENT_CAP, offset, expecting, View())
        decreases |t| - offset
      {
        RunStep(t, p, offset, expecting, View());
        var token := t[offset];
        if expecting && token == "!" {
          PushOperator(NOT);
          offset := offset + 1;
        } else if expecting && token == "(" {
          PushOperator(LEFT);
          offset := offset + 1;
        } else if !expecting && token == ")" {
          var ok := ReduceOperators(0);
          if !ok || operatorCount == 0 {
            return None;
          }
          operatorCount := operatorCount - 1;
          assert operators[..operatorCount] == operators[..operatorCount + 1][..operatorCount];
          offset := offset + 1;
        } else if !expecting && (token == "-a" || token == "-o") {
          var op := if token == "-a" then AND else OR;
          var ok := ReduceOperators(Precedence(op));
          if !ok {
            return None;
          }
          PushOperator(op);
          offset, expecting := offset + 1, true;
        } else if expecting {
          PrimaryAdvances(t, p, offset);
          var primary := Primary(t, p, offset);
          if primary.Invalid? {
            return None;
          }
          ghost var before := View();
          values[valueCount] := primary.value;
          valueCount := valueCount + 1;
          assert View() == PushValue(before, primary.value);
          var ok := ReduceOperators(3);
          if !ok {
            return None;
          }
          offset, expecting := primary.next, false;
        } else {
          return None;
        }
      }
      RunEnd(t, p, offset, expecting, View());
      if expecting || offset != |t| {
        return None;
      }
      var ok := ReduceOperators(0);
      if !ok || operatorCount != 0 || valueCount != 1 {
        return None;
      }
      return Some(values[0]);
    }
  }

  lemma PrimaryAdvances(t: seq<string>, p: Primaries, offset: nat)
    requires offset < |t|
    ensures var r := Primary(t, p, offset); r.Valued? ==> offset < r.next <= |t|
  {
  }

  /** One turn of the loop. */
  lemma RunStep(t: seq<string>, p: Primaries, offset: nat, expecting: bool, s: Stacks)
    requires offset < |t| && offset < ARGUMENT_CAP
    ensures var run := Run(t, p, ARGUMENT_CAP, offset, expecting, s);
      if expecting && t[offset] == "!" then run == Run(t, p, ARGUMENT_CAP, offset + 1, true, Push(s, NOT))
      else if expecting && t[offset] == "(" then run == Run(t, p, ARGUMENT_CAP, offset + 1, true, Push(s, LEFT))
      else if !expecting && t[offset] == ")" then
        var r := Reduce(s, 0);
        run == if r.None? || r.value.operators == [] then None
               else Run(t, p, ARGUMENT_CAP, offset + 1, false,
                        r.value.(operators := r.value.operators[..|r.value.operators| - 1]))
      else if !expecting && (t[offset] == "-a" || t[offset] == "-o") then
        var op := if t[offset] == "-a" then AND else OR;
        var r := Reduce(s, Precedence(op));
        run == if r.None? then None else Run(t, p, ARGUMENT_CAP, offset + 1, true, Push(r.value, op))
      else if expecting then
        var primary := Primary(t, p, offset);
        primary.Invalid? ==> run == None
      else run == None
    ensures expecting && t[offset] != "!" && t[offset] != "(" && Primary(t, p, offset).Valued? ==>
      var primary := Primary(t, p, offset);
      var r := Reduce(PushValue(s, primary.value), 3);
      Run(t, p, ARGUMENT_CAP, offset, expecting, s) ==
      if r.None? then None else Run(t, p, ARGUMENT_CAP, primary.next, false, r.value)
  {
    hide Reduce, Primary;
  }

  lemma RunEnd(t: seq<string>, p: Primaries, offset: nat, expecting: bool, s: Stacks)
    requires offset <= |t| && (offset == |t| || offset >= ARGUMENT_CAP)
    ensures Run(t, p, ARGUMENT_CAP, offset, expecting, s) ==
      if expecting || offset != |t| then None
      else
        var r := Reduce(s, 0);
        if r.None? || r.value.operators != [] || |r.value.values| != 1 then None else Some(r.value.values[0])
  {
  }
}
