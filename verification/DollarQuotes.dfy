/** The one place where the scanner reads quotes otherwise than section 2.2.3 of XCU,
    POSIX.1-2024: it lets `$'` open inside double quotes. */
module DollarQuotes {
  import opened Bytes
  import opened WordGrammar

  /** A dollar sign in front of a single quote directly inside double quotes. */
  predicate Disputed(s: Text, p: nat, top: Option<Context>) {
    top == Some(Double) && At(s, p, DOLLAR) && At(s, p + 1, SINGLE_QUOTE)
  }

  /** The standard's reading takes that dollar sign for itself. */
  function StandardAct(s: Text, p: nat, top: Option<Context>): (a: Action)
    requires p < |s|
    ensures 0 < a.n && p + a.n <= |s| && (a.Close? ==> top.Some?)
  {
    if Disputed(s, p, top) then Take(1) else Act(s, p, top)
  }

  /** The grammar of words under the standard's reading. */
  function Standard(s: Text, p: nat, top: Option<Context>): (n: Nest)
    requires p <= |s|
    ensures n.Ended? ==> p <= n.at <= |s| && (top.Some? ==> p < n.at)
    decreases |s| - p
  {
    if !Runs(s, p, top) then
      if p < |s| && s[p] == NUL then Broken(p, 0) else if top.None? then Ended(p, 0) else Unended(0)
    else
      match StandardAct(s, p, top)
      case Take(n) => Standard(s, p + n, top)
      case Close(n) => Ended(p + n, 0)
      case Open(context, n, _) =>
        var inside := Standard(s, p + n, Some(context));
        if inside.Ended? then Deeper(Standard(s, inside.at, top), inside.depth + 1)
        else Deeper(inside, inside.depth + 1)
  }

  /** The scanner comes to a disputed dollar sign. */
  predicate Meets(s: Text, p: nat, top: Option<Context>)
    requires p <= |s|
    decreases |s| - p
  {
    Runs(s, p, top) &&
    (Disputed(s, p, top) ||
     match Act(s, p, top)
     case Take(n) => Meets(s, p + n, top)
     case Close(_) => false
     case Open(context, n, _) =>
       var inside := Items(s, p + n, Some(context));
       Meets(s, p + n, Some(context)) || (inside.Ended? && Meets(s, inside.at, top)))
  }

  /** Unless it does, the two readings agree on where everything ends and how deep it
      nests. */
  lemma {:induction false} ReadingsAgree(s: Text, p: nat, top: Option<Context>)
    requires p <= |s| && !Meets(s, p, top)
    ensures Standard(s, p, top) == Items(s, p, top)
    decreases |s| - p
  {
    hide Act, Items, Runs;
    ItemsStep(s, p, top);
    if Runs(s, p, top) {
      var a := Act(s, p, top);
      if a.Take? {
        ReadingsAgree(s, p + a.n, top);
      } else if a.Open? {
        ReadingsAgree(s, p + a.n, Some(a.context));
        var inside := Items(s, p + a.n, Some(a.context));
        if inside.Ended? {
          ReadingsAgree(s, inside.at, top);
        }
      }
    }
  }

  /** In particular they agree on every text without a dollar sign in front of a single
      quote. */
  lemma {:induction false} NothingDisputed(s: Text, p: nat, top: Option<Context>)
    requires p <= |s| && forall k :: 0 <= k < |s| - 1 ==> s[k] != DOLLAR || s[k + 1] != SINGLE_QUOTE
    ensures !Meets(s, p, top) && Standard(s, p, top) == Items(s, p, top)
    decreases |s| - p
  {
    hide Act, Items, Standard;
    if Runs(s, p, top) {
      var a := Act(s, p, top);
      if a.Take? {
        NothingDisputed(s, p + a.n, top);
      } else if a.Open? {
        NothingDisputed(s, p + a.n, Some(a.context));
        var inside := Items(s, p + a.n, Some(a.context));
        if inside.Ended? {
          NothingDisputed(s, inside.at, top);
        }
      }
    }
    ReadingsAgree(s, p, top);
  }

  /** They differ on `"$'"`: a whole word under the standard's reading, an open quote
      under the scanner's. */
  lemma ReadingsDiffer()
    ensures var s := [DOUBLE_QUOTE, DOLLAR, SINGLE_QUOTE, DOUBLE_QUOTE];
      && Meets(s, 0, None) && Standard(s, 0, None) == Ended(4, 1) && Items(s, 0, None) == Unended(2)
  {
    var s: Text := [DOUBLE_QUOTE, DOLLAR, SINGLE_QUOTE, DOUBLE_QUOTE];
    assert Act(s, 0, None) == Open(Double, 1, false);
    assert Act(s, 1, Some(Double)) == Open(DollarSingle, 2, true);
    assert Act(s, 3, Some(DollarSingle)) == Take(1);
    assert Act(s, 2, Some(Double)) == Take(1) && Act(s, 3, Some(Double)) == Close(1);
    assert Items(s, 4, Some(DollarSingle)) == Unended(0);
    assert Items(s, 3, Some(DollarSingle)) == Unended(0);
    assert Items(s, 1, Some(Double)) == Unended(1);
    assert Standard(s, 3, Some(Double)) == Ended(4, 0);
    assert Standard(s, 2, Some(Double)) == Ended(4, 0);
    assert Standard(s, 1, Some(Double)) == Ended(4, 0);
    assert Standard(s, 4, None) == Ended(4, 0);
  }
}
