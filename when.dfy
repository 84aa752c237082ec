/** The When combinator: what a When rule decides, in terms of the
    orchestrator over the branch its condition selects. */
module When {
  import opened Values
  import opened ErrorModel
  import opened Rules

  /** A true condition runs the rules, a false one the else rules, each as an
      ordinary rule list under the same context; Validate uses TODO. */
  lemma ChoosesBranch(c: bool, rs: seq<Rule>, es: seq<Rule>, ctx: Context, v: Value)
    ensures When(c, rs).Else(es).ValidateWithContext(ctx, v) == ValidateRules(ctx, v, if c then rs else es)
    ensures When(c, rs).Else(es).Validate(v) == ValidateRules(TODO, v, if c then rs else es)
  {
  }

  /** Without Else a false condition accepts everything. */
  lemma FalseWithoutElseAccepts(rs: seq<Rule>, ctx: Context, v: Value)
    ensures When(false, rs).ValidateWithContext(ctx, v) == Pass
  {
  }

  /** The branch that is not taken has no influence on the result. */
  lemma UntakenBranchIrrelevant(rs: seq<Rule>, rs': seq<Rule>, es: seq<Rule>, es': seq<Rule>, ctx: Context, v: Value)
    ensures When(true, rs).Else(es).ValidateWithContext(ctx, v) == When(true, rs).Else(es').ValidateWithContext(ctx, v)
    ensures When(false, rs).Else(es).ValidateWithContext(ctx, v) == When(false, rs').Else(es).ValidateWithContext(ctx, v)
  {
  }

  /** Else replaces the else rules: the last call wins, and the condition and
      the rules stay as they were. */
  lemma ElseLastCallWins(w: WhenRule, es1: seq<Rule>, es2: seq<Rule>)
    ensures w.Else(es1).Else(es2) == w.Else(es2)
    ensures w.Else(es1).condition == w.condition && w.Else(es1).rules == w.rules
  {
  }

  /** Within the chosen branch the first failing rule decides the error:
      the When rule fails with `e` iff some rule of that branch fails with `e`
      and all rules before it pass. */
  lemma {:induction false} FirstFailureInBranch(w: WhenRule, ctx: Context, v: Value, e: ValidationError)
    ensures var branch := if w.condition then w.rules else w.elseRules;
      w.ValidateWithContext(ctx, v) == Fail(e) <==>
      exists i :: 0 <= i < |branch| && branch[i].ValidateWithContext(ctx, v) == Fail(e) &&
                  forall j :: 0 <= j < i ==> branch[j].ValidateWithContext(ctx, v) == Pass
  {
    ValidateRulesFirstFailure(ctx, v, if w.condition then w.rules else w.elseRules, e);
  }

  /** The context reaches the rule unchanged whichever branch runs: a When
      whose two branches hold the same context-reading rule answers exactly
      as that rule does under the caller's context. */
  lemma ContextReachesBranch(c: bool, check: (Context, Value) -> Outcome, ctx: Context, v: Value)
    ensures When(c, [Leaf(check)]).Else([Leaf(check)]).ValidateWithContext(ctx, v) == check(ctx, v)
  {
    var rs := [Leaf(check)];
    assert When(c, rs).Else(rs).ValidateWithContext(ctx, v) == ValidateRules(ctx, v, rs);
    assert rs[0].ValidateWithContext(ctx, v) == check(ctx, v);
    assert ValidateRules(ctx, v, rs[1..]) == Pass by { assert rs[1..] == []; }
  }

  /** Two rules that fail differently: the one listed first is reported. */
  lemma FirstListedRuleReported(c: bool, e1: ValidationError, e2: ValidationError, ctx: Context, v: Value)
    ensures var r1 := Leaf((cx: Context, x: Value) => Fail(e1));
            var r2 := Leaf((cx: Context, x: Value) => Fail(e2));
            When(c, [r1, r2]).Else([r2, r1]).ValidateWithContext(ctx, v) == Fail(if c then e1 else e2)
  {
    var r1 := Leaf((cx: Context, x: Value) => Fail(e1));
    var r2 := Leaf((cx: Context, x: Value) => Fail(e2));
    assert r1.ValidateWithContext(ctx, v) == Fail(e1);
    assert r2.ValidateWithContext(ctx, v) == Fail(e2);
    assert ValidateRules(ctx, v, [r1, r2]) == Fail(e1);
    assert ValidateRules(ctx, v, [r2, r1]) == Fail(e2);
  }
}
