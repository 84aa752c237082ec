/** Presence rules: NilRule wants a nil pointer, EmptyRule a nil pointer or a
    pointer to the zero value. Both are generic over the pointed-to type T;
    `zero` stands for T's zero value. */
module Absent {
  import opened ErrorModel
  import opened Values

  const ErrNil: RuleError := NewError("validation_nil", "must be blank")
  const ErrEmpty: RuleError := NewError("validation_empty", "must be blank")

  /** A pointer to a T: nil, or the address of a value. */
  datatype Pointer<T> = Null | To(target: T)

  /** The custom error if one is set, otherwise the given default. */
  function GetError(custom: Option<RuleError>, defaultErr: RuleError): (e: RuleError)
    ensures custom.Some? ==> e == custom.value
    ensures custom.None? ==> e == defaultErr
  {
    match custom
    case Some(c) => c
    case None => defaultErr
  }

  /** The error after a message override: the custom error, or the default
      one when none is set, with the new message. */
  function WithMessage(custom: Option<RuleError>, defaultErr: RuleError, message: string): (e: RuleError)
    ensures e.message == message
    ensures e.code == GetError(custom, defaultErr).code
    ensures e.params == GetError(custom, defaultErr).params
  {
    SetMessage(if custom.None? then defaultErr else custom.value, message)
  }

  /** `condition` set means: skip the check. `err` None means: no custom error. */
  datatype NilRule = NilRule(condition: bool, err: Option<RuleError>)
  {
    /** nil iff the check is skipped or the pointer is nil; a pointer to any
        value, the zero value included, fails. */
    function Validate<T>(value: Pointer<T>): (o: Outcome)
      ensures o == Pass <==> condition || value.Null?
      ensures o != Pass ==> o == Fail(Coded(GetError(err, ErrNil)))
    {
      if condition then Pass
      else if value.Null? then Pass
      else Fail(Coded(GetError(err, ErrNil)))
    }

    /** When(c) performs the check only if c holds: it stores the negation. */
    function When(c: bool): (r: NilRule)
      ensures r.condition == !c && r.err == err
    {
      this.(condition := !c)
    }

    function Error(message: string): (r: NilRule)
      ensures r.err == Some(WithMessage(err, ErrNil, message))
      ensures r.condition == condition
    {
      this.(err := Some(WithMessage(err, ErrNil, message)))
    }

    /** Replaces the error; None resets it to "not set". */
    function ErrorObject(e: Option<RuleError>): (r: NilRule)
      ensures r.err == e && r.condition == condition
    {
      this.(err := e)
    }
  }

  datatype EmptyRule = EmptyRule(condition: bool, err: Option<RuleError>)
  {
    /** nil iff the check is skipped, the pointer is nil, or it points to the
        zero value. */
    function Validate<T(==)>(value: Pointer<T>, zero: T): (o: Outcome)
      ensures o == Pass <==> condition || value.Null? || value.target == zero
      ensures o != Pass ==> o == Fail(Coded(GetError(err, ErrEmpty)))
    {
      if condition then Pass
      else if value.Null? then Pass
      else if value.target == zero then Pass
      else Fail(Coded(GetError(err, ErrEmpty)))
    }

    function When(c: bool): (r: EmptyRule)
      ensures r.condition == !c && r.err == err
    {
      this.(condition := !c)
    }

    function Error(message: string): (r: EmptyRule)
      ensures r.err == Some(WithMessage(err, ErrEmpty, message))
      ensures r.condition == condition
    {
      this.(err := Some(WithMessage(err, ErrEmpty, message)))
    }

    function ErrorObject(e: Option<RuleError>): (r: EmptyRule)
      ensures r.err == e && r.condition == condition
    {
      this.(err := e)
    }
  }

  /** The zero values `NilRule[T]{}` and `EmptyRule[T]{}`. */
  const NilRuleZero: NilRule := NilRule(false, None)
  const EmptyRuleZero: EmptyRule := EmptyRule(false, None)

  // ----- Properties -----

  /** Under one configuration, whatever NilRule accepts EmptyRule accepts too. */
  lemma NilAcceptsImpliesEmptyAccepts<T>(condition: bool, e1: Option<RuleError>, e2: Option<RuleError>,
                                             p: Pointer<T>, zero: T)
    requires NilRule(condition, e1).Validate(p) == Pass
    ensures EmptyRule(condition, e2).Validate(p, zero) == Pass
  {
  }

  /** A pointer to the zero value fails NilRule but passes EmptyRule; both
      unconfigured rules render "must be blank". */
  lemma PointerToZero<T>(zero: T)
    ensures NilRuleZero.Validate(To(zero)) == Fail(Coded(ErrNil))
    ensures EmptyRuleZero.Validate(To(zero), zero) == Pass
    ensures ErrNil.message == "must be blank" && ErrEmpty.message == "must be blank"
    ensures ErrNil.code != ErrEmpty.code
  {
  }

  /** When(false) makes the rules always valid; When(true) checks normally. */
  lemma WhenToggles<T>(r: NilRule, s: EmptyRule, p: Pointer<T>, zero: T)
    ensures r.When(false).Validate(p) == Pass
    ensures s.When(false).Validate(p, zero) == Pass
    ensures r.When(true).Validate(p) == NilRule(false, r.err).Validate(p)
    ensures s.When(true).Validate(p, zero) == EmptyRule(false, s.err).Validate(p, zero)
    ensures NilRuleZero.When(true).Validate(To(zero)) == Fail(Coded(ErrNil))
  {
  }

  /** Repeated When calls: the last one decides. */
  lemma WhenLastCallWins(r: NilRule, s: EmptyRule, c1: bool, c2: bool)
    ensures r.When(c1).When(c2) == r.When(c2)
    ensures s.When(c1).When(c2) == s.When(c2)
  {
  }

  /** An unconfigured rule reports the default error; a configured one its own. */
  lemma DefaultErrorFallback<T>(e: RuleError, x: T, zero: T)
    requires x != zero
    ensures NilRuleZero.Validate(To(x)) == Fail(Coded(ErrNil))
    ensures EmptyRuleZero.Validate(To(x), zero) == Fail(Coded(ErrEmpty))
    ensures NilRuleZero.ErrorObject(Some(e)).Validate(To(x)) == Fail(Coded(e))
    ensures EmptyRuleZero.ErrorObject(Some(e)).Validate(To(x), zero) == Fail(Coded(e))
  {
  }

  /** Error(m) on an unconfigured rule starts from the default error and only
      changes its message; the rule it was called on still reports the
      default "must be blank". */
  lemma ErrorStartsFromDefault<T>(m: string, x: T)
    ensures NilRuleZero.Error(m).err == Some(RuleError(ErrNil.code, m, ErrNil.params))
    ensures EmptyRuleZero.Error(m).err == Some(RuleError(ErrEmpty.code, m, ErrEmpty.params))
    ensures NilRuleZero.Error(m).Validate(To(x)) == Fail(Coded(RuleError("validation_nil", m, map[])))
    ensures NilRuleZero.Validate(To(x)) == Fail(Coded(RuleError("validation_nil", "must be blank", map[])))
  {
  }

  /** Error keeps the code of a custom error set before it, and the last message wins. */
  lemma ErrorKeepsCode(r: NilRule, e: RuleError, m1: string, m2: string)
    ensures r.ErrorObject(Some(e)).Error(m1).err == Some(e.(message := m1))
    ensures r.Error(m1).Error(m2) == r.Error(m2)
  {
  }

  /** ErrorObject sets the error it is given; a fresh rule has none. */
  lemma ErrorObjectSets(r: NilRule, e: RuleError)
    ensures r.ErrorObject(Some(e)).err == Some(e)
    ensures NilRuleZero.err == None
  {
  }
}
