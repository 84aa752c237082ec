/** Threshold rules: Min/Max over an ordered type and MinTime/MaxTime over
    instants. The ordered type is the integers, whose zero value is 0; an
    instant is an integer count from the zero time, which is 0. */
module MinMax {
  import opened ErrorModel

  const ErrMinGreaterEqualThanRequired: RuleError :=
    NewError("validation_min_greater_equal_than_required", "must be no less than {{.threshold}}")
  const ErrMaxLessEqualThanRequired: RuleError :=
    NewError("validation_max_less_equal_than_required", "must be no greater than {{.threshold}}")
  const ErrMinGreaterThanRequired: RuleError :=
    NewError("validation_min_greater_than_required", "must be greater than {{.threshold}}")
  const ErrMaxLessThanRequired: RuleError :=
    NewError("validation_max_less_than_required", "must be less than {{.threshold}}")

  /** The four comparison operators a threshold rule can carry. */
  datatype Operator = GreaterThan | GreaterEqualThan | LessThan | LessEqualThan
  {
    /** The operators that exclude the boundary value. */
    predicate Strict() {
      this == GreaterThan || this == LessThan
    }
  }

  /** The parameters a threshold rule binds its error to. */
  function ThresholdParams(t: int): map<string, int> {
    map["threshold" := t]
  }

  /** `value` satisfies `op` against `threshold` on the integers. */
  predicate Satisfies(op: Operator, value: int, threshold: int) {
    match op
    case GreaterThan => value > threshold
    case GreaterEqualThan => value >= threshold
    case LessThan => value < threshold
    case LessEqualThan => value <= threshold
  }

  datatype ThresholdRule = ThresholdRule(threshold: int, operator: Operator, err: RuleError, params: map<string, int>)
  {
    /** Turns an inclusive comparison into the strict one, with the matching
        default error; a strict rule is returned as it is. */
    function Exclusive(): (r: ThresholdRule)
      ensures r.threshold == threshold && r.params == params
      ensures r.operator.Strict()
      ensures operator == GreaterEqualThan ==> r.operator == GreaterThan && r.err == ErrMinGreaterThanRequired
      ensures operator == LessEqualThan ==> r.operator == LessThan && r.err == ErrMaxLessThanRequired
      ensures operator.Strict() ==> r == this
    {
      if operator == GreaterEqualThan then this.(operator := GreaterThan, err := ErrMinGreaterThanRequired)
      else if operator == LessEqualThan then this.(operator := LessThan, err := ErrMaxLessThanRequired)
      else this
    }

    /** nil for the zero value and for a value that satisfies the operator;
        otherwise the rule's current error bound to its parameters. */
    function Validate(value: int): (o: Outcome)
      ensures value == 0 ==> o == Pass
      ensures o == Pass <==> value == 0 || Satisfies(operator, value, threshold)
      ensures o != Pass ==> o == Fail(Coded(SetParams(err, params)))
    {
      if value == 0 then Pass
      else
        match operator
        case GreaterThan => if value > threshold then Pass else Fail(Coded(SetParams(err, params)))
        case GreaterEqualThan => if value >= threshold then Pass else Fail(Coded(SetParams(err, params)))
        case LessThan => if value < threshold then Pass else Fail(Coded(SetParams(err, params)))
        case LessEqualThan => if value <= threshold then Pass else Fail(Coded(SetParams(err, params)))
    }

    /** Replaces the message of the current error; nothing else changes. */
    function Error(message: string): (r: ThresholdRule)
      ensures r.err.message == message
      ensures r.err.code == err.code && r.err.params == err.params
      ensures r.threshold == threshold && r.operator == operator && r.params == params
    {
      this.(err := SetMessage(err, message))
    }

    /** Replaces the whole error; nothing else changes. */
    function ErrorObject(e: RuleError): (r: ThresholdRule)
      ensures r.err == e
      ensures r.threshold == threshold && r.operator == operator && r.params == params
    {
      this.(err := e)
    }
  }

  /** A rule that accepts values no less than `min`. */
  function Min(min: int): (r: ThresholdRule)
    ensures r.threshold == min && r.params == ThresholdParams(min) && r.err == ErrMinGreaterEqualThanRequired
    ensures forall v :: r.Validate(v) == Pass <==> v == 0 || v >= min
  {
    ThresholdRule(min, GreaterEqualThan, ErrMinGreaterEqualThanRequired, ThresholdParams(min))
  }

  /** A rule that accepts values no greater than `max`. */
  function Max(max: int): (r: ThresholdRule)
    ensures r.threshold == max && r.params == ThresholdParams(max) && r.err == ErrMaxLessEqualThanRequired
    ensures forall v :: r.Validate(v) == Pass <==> v == 0 || v <= max
  {
    ThresholdRule(max, LessEqualThan, ErrMaxLessEqualThanRequired, ThresholdParams(max))
  }

  // ----- Instants -----

  /** An instant, counted from the zero time 0; earlier instants are negative. */
  type Time = int

  predicate IsZero(t: Time) { t == 0 }
  predicate After(a: Time, b: Time) { a > b }
  predicate Before(a: Time, b: Time) { a < b }
  predicate Equal(a: Time, b: Time) { a == b }

  datatype TimeThresholdRule = TimeThresholdRule(threshold: Time, operator: Operator, err: RuleError, params: map<string, int>)
  {
    function Exclusive(): (r: TimeThresholdRule)
      ensures r.threshold == threshold && r.params == params
      ensures r.operator.Strict()
      ensures operator == GreaterEqualThan ==> r.operator == GreaterThan && r.err == ErrMinGreaterThanRequired
      ensures operator == LessEqualThan ==> r.operator == LessThan && r.err == ErrMaxLessThanRequired
      ensures operator.Strict() ==> r == this
    {
      if operator == GreaterEqualThan then this.(operator := GreaterThan, err := ErrMinGreaterThanRequired)
      else if operator == LessEqualThan then this.(operator := LessThan, err := ErrMaxLessThanRequired)
      else this
    }

    /** nil for the zero time and for an instant after / after-or-equal /
        before / before-or-equal the threshold, as the operator says. */
    function Validate(value: Time): (o: Outcome)
      ensures IsZero(value) ==> o == Pass
      ensures o != Pass ==> o == Fail(Coded(SetParams(err, params)))
    {
      if IsZero(value) then Pass
      else
        match operator
        case GreaterThan =>
          if After(value, threshold) then Pass else Fail(Coded(SetParams(err, params)))
        case GreaterEqualThan =>
          if After(value, threshold) || Equal(value, threshold) then Pass else Fail(Coded(SetParams(err, params)))
        case LessThan =>
          if Before(value, threshold) then Pass else Fail(Coded(SetParams(err, params)))
        case LessEqualThan =>
          if Before(value, threshold) || Equal(value, threshold) then Pass else Fail(Coded(SetParams(err, params)))
    }

    function Error(message: string): (r: TimeThresholdRule)
      ensures r.err.message == message
      ensures r.err.code == err.code && r.err.params == err.params
      ensures r.threshold == threshold && r.operator == operator && r.params == params
    {
      this.(err := SetMessage(err, message))
    }

    function ErrorObject(e: RuleError): (r: TimeThresholdRule)
      ensures r.err == e
      ensures r.threshold == threshold && r.operator == operator && r.params == params
    {
      this.(err := e)
    }

    /** The integer rule with the same configuration. */
    function AsOrdered(): ThresholdRule {
      ThresholdRule(threshold, operator, err, params)
    }
  }

  /** A rule that accepts the zero time and instants at or after `min`. */
  function MinTime(min: Time): (r: TimeThresholdRule)
    ensures r.threshold == min && r.params == ThresholdParams(min) && r.err == ErrMinGreaterEqualThanRequired
    ensures forall v :: r.Validate(v) == Pass <==> IsZero(v) || After(v, min) || Equal(v, min)
  {
    TimeThresholdRule(min, GreaterEqualThan, ErrMinGreaterEqualThanRequired, ThresholdParams(min))
  }

  /** A rule that accepts the zero time and instants at or before `max`. */
  function MaxTime(max: Time): (r: TimeThresholdRule)
    ensures r.threshold == max && r.params == ThresholdParams(max) && r.err == ErrMaxLessEqualThanRequired
    ensures forall v :: r.Validate(v) == Pass <==> IsZero(v) || Before(v, max) || Equal(v, max)
  {
    TimeThresholdRule(max, LessEqualThan, ErrMaxLessEqualThanRequired, ThresholdParams(max))
  }

  // ----- Properties -----

  /** Min(t) accepts exactly the zero value and the values no less than t;
      a rejection carries the "no less than" error bound to t. */
  lemma MinAccepts(t: int, v: int)
    ensures Min(t).Validate(v) == Pass <==> v == 0 || v >= t
    ensures Min(t).Validate(v) != Pass ==>
      Min(t).Validate(v) == Fail(Coded(RuleError(ErrMinGreaterEqualThanRequired.code,
                                                  "must be no less than {{.threshold}}", map["threshold" := t])))
  {
  }

  /** Max(t) accepts exactly the zero value and the values no greater than t. */
  lemma MaxAccepts(t: int, v: int)
    ensures Max(t).Validate(v) == Pass <==> v == 0 || v <= t
    ensures Max(t).Validate(v) != Pass ==>
      Max(t).Validate(v) == Fail(Coded(RuleError(ErrMaxLessEqualThanRequired.code,
                                                  "must be no greater than {{.threshold}}", map["threshold" := t])))
  {
  }

  /** The exclusive forms accept exactly zero and the values strictly beyond t. */
  lemma ExclusiveAccepts(t: int, v: int)
    ensures Min(t).Exclusive().Validate(v) == Pass <==> v == 0 || v > t
    ensures Max(t).Exclusive().Validate(v) == Pass <==> v == 0 || v < t
  {
  }

  /** An exclusive rule rejects its own (non-zero) threshold with the strict
      error bound to that threshold. */
  lemma ExclusiveRejectsThreshold(t: int)
    requires t != 0
    ensures Min(t).Exclusive().Validate(t) == Fail(Coded(SetParams(ErrMinGreaterThanRequired, ThresholdParams(t))))
    ensures Max(t).Exclusive().Validate(t) == Fail(Coded(SetParams(ErrMaxLessThanRequired, ThresholdParams(t))))
    ensures ErrMinGreaterThanRequired.message == "must be greater than {{.threshold}}"
    ensures ErrMaxLessThanRequired.message == "must be less than {{.threshold}}"
  {
  }

  /** The zero value passes every rule, with every operator and threshold,
      whatever builders were applied. */
  lemma ZeroAlwaysAccepted(r: ThresholdRule, m: string, e: RuleError)
    ensures r.Validate(0) == Pass && r.Exclusive().Validate(0) == Pass
    ensures r.Error(m).Validate(0) == Pass && r.ErrorObject(e).Validate(0) == Pass
  {
  }

  lemma ExclusiveIdempotent(r: ThresholdRule)
    ensures r.Exclusive().Exclusive() == r.Exclusive()
  {
  }

  /** Error and ErrorObject: the last call decides the error. */
  lemma ErrorLastCallWins(r: ThresholdRule, m1: string, m2: string, e1: RuleError, e2: RuleError)
    ensures r.Error(m1).Error(m2) == r.Error(m2)
    ensures r.ErrorObject(e1).ErrorObject(e2) == r.ErrorObject(e2)
    ensures r.Error(m1).ErrorObject(e2) == r.ErrorObject(e2)
  {
  }

  /** Exclusive on an inclusive rule installs the strict default error, so a
      custom message set before it is dropped, and one set after it is kept. */
  lemma ExclusiveResetsError(t: int, m: string)
    ensures Min(t).Error(m).Exclusive().err == ErrMinGreaterThanRequired
    ensures Min(t).Exclusive().Error(m).err == SetMessage(ErrMinGreaterThanRequired, m)
    ensures Max(t).Error(m).Exclusive().err == ErrMaxLessThanRequired
  {
  }

  /** A rejection renders the current error: after Error(m) it carries the message m. */
  lemma CustomMessageUsed(t: int, v: int, m: string)
    requires v != 0 && v < t
    ensures Min(t).Error(m).Validate(v) == Fail(Coded(RuleError(ErrMinGreaterEqualThanRequired.code, m, ThresholdParams(t))))
  {
  }

  /** The instant rules are the ordered rules read through the instant order:
      after is greater, before is less, and the zero time is the zero value. */
  lemma TimeRuleIsOrderedRule(r: TimeThresholdRule, v: Time)
    ensures r.Validate(v) == r.AsOrdered().Validate(v)
    ensures r.Exclusive().AsOrdered() == r.AsOrdered().Exclusive()
  {
  }

  /** MinTime accepts the zero time and instants after or equal to the
      threshold; MaxTime the zero time and instants before or equal to it. */
  lemma TimeAccepts(t: Time, v: Time)
    ensures MinTime(t).Validate(v) == Pass <==> IsZero(v) || After(v, t) || Equal(v, t)
    ensures MaxTime(t).Validate(v) == Pass <==> IsZero(v) || Before(v, t) || Equal(v, t)
    ensures MinTime(t).Exclusive().Validate(v) == Pass <==> IsZero(v) || After(v, t)
    ensures MaxTime(t).Exclusive().Validate(v) == Pass <==> IsZero(v) || Before(v, t)
  {
  }

  /** A MinTime at the zero time accepts every instant after it. */
  lemma MinTimeZeroThreshold(v: Time)
    requires After(v, 0)
    ensures MinTime(0).Validate(v) == Pass
  {
  }
}
