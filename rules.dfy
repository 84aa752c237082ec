/** The composable rules and the orchestrator that runs a rule list.
    A rule is either a leaf check (any rule whose own logic is not modelled
    here, which may read the context) or one of the two combinators, When and
    Each, which feed their own rule lists back into the orchestrator. The
    combinators and the orchestrator are therefore one mutually recursive
    family, ordered by the structure of the rules. */
module Rules {
  import opened Values
  import opened ErrorModel
  import opened Decimal

  datatype Rule =
    | Leaf(check: (Context, Value) -> Outcome)
    | WhenR(when: WhenRule)
    | EachR(each: EachRule)
  {
    /** The rule's verdict on `value` under `ctx`. */
    function ValidateWithContext(ctx: Context, value: Value): Outcome
      decreases this, 0
    {
      match this
      case Leaf(check) => check(ctx, value)
      case WhenR(w) => w.ValidateWithContext(ctx, value)
      case EachR(e) => e.ValidateWithContext(ctx, value)
    }
  }

  /** Runs `rules` when `condition` holds and `elseRules` otherwise. */
  datatype WhenRule = WhenRule(condition: bool, rules: seq<Rule>, elseRules: seq<Rule>)
  {
    /** The context-free entry point: the rules run under TODO. */
    function Validate(value: Value): (o: Outcome)
      decreases this, 1
      ensures o == ValidateWithContext(TODO, value)
    {
      ValidateWithContext(TODO, value)
    }

    /** The branch the condition selects runs, each of its rules seeing `ctx`;
        what that decides is stated by the lemmas of module When. */
    function ValidateWithContext(ctx: Context, value: Value): Outcome
      decreases this, 0
    {
      if condition then ValidateRules(ctx, value, rules)
      else ValidateRules(ctx, value, elseRules)
    }

    /** Replaces the rules run when the condition is false. */
    function Else(rules': seq<Rule>): (r: WhenRule)
      ensures r.elseRules == rules'
      ensures r.condition == condition && r.rules == rules
    {
      this.(elseRules := rules')
    }
  }

  /** A When rule with no else rules. */
  function When(condition: bool, rules: seq<Rule>): (r: WhenRule)
    ensures r.condition == condition && r.rules == rules && r.elseRules == []
  {
    WhenRule(condition, rules, [])
  }

  const NotIterableMessage: string := "must be an iterable (map, slice or array)"

  /** How Each turns a map key into a key of its error aggregate.
      Reflected is reflect.Value.String, which the repository uses;
      Printed writes the key as it prints (decimal for integers). */
  datatype KeyStyle = Printed | Reflected

  function KeyString(style: KeyStyle, k: Key): string {
    match style
    case Printed => GetString(k)
    case Reflected => GetStringAsWritten(k)
  }

  /** Runs its rules over every element of a slice or array and every value
      of a map, keying the failures by index or by the key's string. */
  datatype EachRule = EachRule(rules: seq<Rule>, style: KeyStyle)
  {
    /** The context-free entry point: the rules run under TODO. */
    function Validate(value: Value): (o: Outcome)
      decreases this, 1
      ensures o == ValidateWithContext(TODO, value)
      ensures !value.Slice? && !value.MapVal? ==> o == Fail(Plain(NotIterableMessage))
      ensures value == Slice([]) || value == MapVal([]) ==> o == Pass
    {
      ValidateWithContext(TODO, value)
    }

    /** Anything but a slice, array or map gets one fixed error; an empty one
        is valid; a failing collection is reported as a non-empty keyed
        aggregate. */
    function ValidateWithContext(ctx: Context, value: Value): (o: Outcome)
      decreases this, 0
      ensures !value.Slice? && !value.MapVal? ==> o == Fail(Plain(NotIterableMessage))
      ensures value == Slice([]) || value == MapVal([]) ==> o == Pass
      ensures (value.Slice? || value.MapVal?) && o.Fail? ==> o.error.Errors? && o.error.entries != map[]
    {
      match value
      case MapVal(entries) => Collect(MapErrors(ctx, rules, entries, |entries|, style))
      case Slice(elems) => Collect(SliceErrors(ctx, rules, elems, |elems|))
      case _ => Fail(Plain(NotIterableMessage))
    }
  }

  /** Each with map keys written as they print. An empty iterable is valid. */
  function Each(rules: seq<Rule>): (r: EachRule)
    ensures r.rules == rules && r.style == Printed
    ensures forall ctx :: r.ValidateWithContext(ctx, Slice([])) == Pass && r.ValidateWithContext(ctx, MapVal([])) == Pass
  {
    EachRule(rules, Printed)
  }

  /** Each with the repository's own key rendering, reflect.Value.String. */
  function EachAsWritten(rules: seq<Rule>): (r: EachRule)
    ensures r.rules == rules && r.style == Reflected
    ensures forall ctx :: r.ValidateWithContext(ctx, Slice([])) == Pass && r.ValidateWithContext(ctx, MapVal([])) == Pass
  {
    EachRule(rules, Reflected)
  }

  /** The orchestrator: the first non-nil result of the rules, in order;
      nil when every rule passes. */
  function ValidateRules(ctx: Context, value: Value, rules: seq<Rule>): Outcome
    decreases rules, 0
  {
    if rules == [] then Pass
    else
      var o := rules[0].ValidateWithContext(ctx, value);
      if o.Fail? then o else ValidateRules(ctx, value, rules[1..])
  }

  /** What the rules say of one element, once it is unwrapped. */
  function ElemOutcome(ctx: Context, rules: seq<Rule>, v: Value): Outcome
    decreases rules, 1
  {
    ValidateRules(ctx, GetInterface(v), rules)
  }

  /** The errors of the first `n` elements of a slice, keyed by decimal index;
      elements that pass leave no entry. */
  function SliceErrors(ctx: Context, rules: seq<Rule>, elems: seq<Value>, n: nat): map<string, ValidationError>
    requires n <= |elems|
    decreases rules, n + 1
  {
    if n == 0 then map[]
    else
      var errs := SliceErrors(ctx, rules, elems, n - 1);
      match ElemOutcome(ctx, rules, elems[n - 1])
      case Pass => errs
      case Fail(e) => errs[NatStr(n - 1) := e]
  }

  /** The errors of the first `n` entries of a map in iteration order, keyed
      by the key's string in `style`; a later entry with an equal key string
      overwrites an earlier one. */
  function MapErrors(ctx: Context, rules: seq<Rule>, entries: seq<(Key, Value)>, n: nat,
                     style: KeyStyle): map<string, ValidationError>
    requires n <= |entries|
    decreases rules, n + 1
  {
    if n == 0 then map[]
    else
      var errs := MapErrors(ctx, rules, entries, n - 1, style);
      match ElemOutcome(ctx, rules, entries[n - 1].1)
      case Pass => errs
      case Fail(e) => errs[KeyString(style, entries[n - 1].0) := e]
  }

  /** An aggregate that holds no error is no error. */
  function Collect(errs: map<string, ValidationError>): (o: Outcome)
    ensures o == Pass <==> errs == map[]
    ensures o != Pass ==> o == Fail(Errors(errs))
  {
    if |errs| > 0 then Fail(Errors(errs)) else Pass
  }

  /** The element handed to the rules: a pointer or interface slot is opened
      once, and a nil one becomes the untyped nil. */
  function GetInterface(v: Value): (r: Value)
    ensures v.NilPtr? || v.Nil? ==> r == Nil
    ensures v.Ptr? && !v.target.Iface? ==> r == v.target
    ensures v.Ptr? && v.target.Iface? ==> r == v.target.inner
    ensures v.Iface? ==> r == v.inner
    ensures !v.NilPtr? && !v.Ptr? && !v.Iface? ==> r == v
  {
    match v
    case NilPtr => Nil
    case Ptr(t) => if t.Iface? then t.inner else t
    case Iface(inner) => inner
    case _ => v
  }

  /** The string form of a scalar, as it prints. */
  function ScalarString(s: Scalar): string {
    match s
    case StrVal(t) => t
    case IntVal(i) => IntStr(i)
    case BoolVal(b) => if b then "true" else "false"
  }

  /** The key string with keys written as they print: a nil key gives "",
      a pointer key is opened once, a string is itself and an integer is in
      decimal. */
  function GetString(k: Key): (s: string)
    ensures k.NilKey? ==> s == ""
    ensures k.PlainKey? && k.scalar.StrVal? ==> s == k.scalar.s
    ensures k.PtrKey? && k.target.StrVal? ==> s == k.target.s
    ensures k.PlainKey? && k.scalar.IntVal? ==> s == IntStr(k.scalar.i)
  {
    match k
    case NilKey => ""
    case PlainKey(s) => ScalarString(s)
    case PtrKey(_, s) => ScalarString(s)
  }

  /** The key string as the repository computes it, with reflect.Value.String:
      nil and string keys as GetString gives them, and "<T Value>" for every
      other kind T. */
  function GetStringAsWritten(k: Key): (s: string)
    ensures k.NilKey? ==> s == ""
    ensures k.PlainKey? && k.scalar.StrVal? ==> s == k.scalar.s
    ensures k.PtrKey? && k.target.StrVal? ==> s == k.target.s
    ensures k.PlainKey? && k.scalar.IntVal? ==> s == "<int Value>"
    ensures k.PlainKey? && k.scalar.BoolVal? ==> s == "<bool Value>"
  {
    match k
    case NilKey => ""
    case PlainKey(s) => ReflectString(s)
    case PtrKey(_, s) => ReflectString(s)
  }

  function ReflectString(s: Scalar): string {
    match s
    case StrVal(t) => t
    case IntVal(_) => "<int Value>"
    case BoolVal(_) => "<bool Value>"
  }

  // ----- The orchestrator -----

  /** The list passes iff every rule passes. */
  lemma {:induction false} ValidateRulesPass(ctx: Context, value: Value, rules: seq<Rule>)
    ensures ValidateRules(ctx, value, rules) == Pass <==>
            forall i :: 0 <= i < |rules| ==> rules[i].ValidateWithContext(ctx, value) == Pass
  {
    if rules != [] {
      ValidateRulesPass(ctx, value, rules[1..]);
      assert forall i :: 1 <= i < |rules| ==> rules[i] == rules[1..][i - 1];
    }
  }

  /** The first failing rule decides the error: the list fails with `e` iff
      some rule fails with `e` and every rule before it passes. */
  lemma {:induction false} ValidateRulesFirstFailure(ctx: Context, value: Value, rules: seq<Rule>, e: ValidationError)
    ensures ValidateRules(ctx, value, rules) == Fail(e) <==>
            exists i :: 0 <= i < |rules| && rules[i].ValidateWithContext(ctx, value) == Fail(e) &&
                        forall j :: 0 <= j < i ==> rules[j].ValidateWithContext(ctx, value) == Pass
  {
    if rules != [] {
      ValidateRulesFirstFailure(ctx, value, rules[1..], e);
      var o := rules[0].ValidateWithContext(ctx, value);
      if o.Fail? {
        if o == Fail(e) {
          assert rules[0].ValidateWithContext(ctx, value) == Fail(e);
        } else {
          forall i | 0 <= i < |rules| && rules[i].ValidateWithContext(ctx, value) == Fail(e)
            ensures exists j :: 0 <= j < i && rules[j].ValidateWithContext(ctx, value) != Pass
          {
            assert i != 0;
            assert rules[0].ValidateWithContext(ctx, value) != Pass;
          }
        }
      } else {
        var tail := rules[1..];
        if ValidateRules(ctx, value, rules) == Fail(e) {
          var k :| 0 <= k < |tail| && tail[k].ValidateWithContext(ctx, value) == Fail(e) &&
                   forall j :: 0 <= j < k ==> tail[j].ValidateWithContext(ctx, value) == Pass;
          assert rules[k + 1] == tail[k];
          forall j | 0 <= j < k + 1 ensures rules[j].ValidateWithContext(ctx, value) == Pass {
            if j > 0 { assert rules[j] == tail[j - 1]; }
          }
        }
        if exists i :: 0 <= i < |rules| && rules[i].ValidateWithContext(ctx, value) == Fail(e) &&
                       forall j :: 0 <= j < i ==> rules[j].ValidateWithContext(ctx, value) == Pass {
          var i :| 0 <= i < |rules| && rules[i].ValidateWithContext(ctx, value) == Fail(e) &&
                   forall j :: 0 <= j < i ==> rules[j].ValidateWithContext(ctx, value) == Pass;
          assert i > 0;
          assert tail[i - 1] == rules[i];
          forall j | 0 <= j < i - 1 ensures tail[j].ValidateWithContext(ctx, value) == Pass {
            assert tail[j] == rules[j + 1];
          }
        }
      }
    }
  }

  /** Running two lists one after the other is running their concatenation. */
  lemma {:induction false} ValidateRulesConcat(ctx: Context, value: Value, a: seq<Rule>, b: seq<Rule>)
    ensures ValidateRules(ctx, value, a + b) ==
            if ValidateRules(ctx, value, a).Fail? then ValidateRules(ctx, value, a) else ValidateRules(ctx, value, b)
  {
    if a != [] {
      assert (a + b)[0] == a[0];
      assert (a + b)[1..] == a[1..] + b;
      ValidateRulesConcat(ctx, value, a[1..], b);
    } else {
      assert a + b == b;
    }
  }
}
