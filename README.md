# kv validation rules — a Dafny model

This project models four rules of the Go validation library kv:

- **Min / Max / MinTime / MaxTime** (`minmax.go`). A threshold rule compares a value against a threshold with one of four operators. The zero value always passes. `Exclusive` turns an inclusive comparison into a strict one and installs the matching default error. `Error` and `ErrorObject` replace the message or the whole error.
- **Nil / Empty** (`absent.go`). `NilRule` wants a nil pointer. `EmptyRule` wants a nil pointer or a pointer to the zero value. Both can be switched off with `When(false)` and both carry an optional custom error.
- **When** (`when.go`). This combinator runs one rule list when its condition holds and the `Else` list otherwise. It passes the context through unchanged.
- **Each** (`each.go`). This combinator runs its rules over every element of a slice or array and every value of a map. It builds a keyed error aggregate: slice failures go under the decimal index, map failures under the string form of the key. An empty aggregate is no error. Anything that cannot be iterated fails with one fixed error.

Rules are immutable values. Every builder returns a modified copy, so each exported value-receiver method becomes a member function of a datatype, and a builder returns the updated datatype value. The unexported helpers `getError` (absent.go:63, 105), `getInterface` and `getString` (each.go:75, 87) read no rule field except the error. They are the free functions `Absent.GetError`, `Rules.GetInterface` and `Rules.GetString`.

When and Each hand their rule lists back to the library's orchestrator, `ValidateWithContext(ctx, value, rules...)`. The orchestrator returns the first non-nil error of the rules, in order. It is modelled as `Rules.ValidateRules`, in one mutually recursive family with the rule kinds. What the orchestrator and the When rule decide is stated by lemmas, not by contracts inside that family: a contract there is instantiated wherever a rule is evaluated, which makes every proof about Each too costly.

- `Rules.Rule` is a leaf check that may read the context, a When rule, or an Each rule.
- An Each rule carries its key style: `Reflected` is the repository's `reflect.Value.String` rendering (`Rules.EachAsWritten`), and `Printed` is the corrected rendering (`Rules.Each`). Either kind can be nested in the other or in a When rule.
- The family's termination measure is the structure of the rules.

The Each loop is also written as an imperative method, `Each.ValidateWithContext`. Its loop invariants tie the partially built map to the functional definition.

Files:
- `values.dfy`: the dynamic values a rule can receive (atoms, nil, pointers, interface slots, slices, maps), map keys and contexts.
- `errors.dfy`: rule errors (code, message template, parameters), plain errors, the keyed aggregate, and outcomes.
- `decimal.dfy`: the decimal rendering of integers, as `strconv.Itoa` gives it, and its injectivity.
- `minmax.dfy`, `absent.dfy`: the leaf rules.
- `rules.dfy`: the rule family, the orchestrator, and When and Each as functions.
- `when.dfy`, `each.dfy`: the properties of the two combinators, and the Each loop as a method.

A Go map is given as its entry sequence, in the order `MapKeys()` returns it. That order is random in Go, so the model proves which results do not depend on it.

## Model

| member | source | states |
|---|---|---|
| MinMax.ThresholdRule.Exclusive | minmax.go:87-96 | threshold and params kept; the result is strict; `>=` becomes `>` with the strict "must be greater than" error, `<=` becomes `<` with "must be less than"; an already strict rule is returned unchanged |
| MinMax.ThresholdRule.Validate | minmax.go:111-137 | the zero value passes; the result is nil iff the value is zero or satisfies the operator against the threshold; a failure is the current error bound to the rule's params |
| MinMax.ThresholdRule.Error | minmax.go:168-171 | only the message of the error changes; its code and params, and the threshold, operator and params of the rule, are kept |
| MinMax.ThresholdRule.ErrorObject | minmax.go:180-183 | the error becomes the given one; nothing else changes |
| MinMax.TimeThresholdRule.Exclusive | minmax.go:99-108 | as for ordered values: `>=` becomes strictly after, `<=` strictly before, with the strict default errors; a strict rule is unchanged |
| MinMax.TimeThresholdRule.Validate | minmax.go:140-165 | the zero time passes; a failure is the current error bound to the params |
| MinMax.TimeThresholdRule.Error | minmax.go:174-177 | only the message changes |
| MinMax.TimeThresholdRule.ErrorObject | minmax.go:186-189 | only the error changes |
| MinMax.Min | minmax.go:44-51 | threshold min, the "no less than" default error bound to {threshold: min}; the rule passes exactly zero and values >= min |
| MinMax.Max | minmax.go:66-73 | threshold max, the "no greater than" default error bound to {threshold: max}; the rule passes exactly zero and values <= max |
| MinMax.MinTime | minmax.go:55-62 | threshold min, the "no less than" default error; the rule passes exactly the zero time and instants after or equal to min |
| MinMax.MaxTime | minmax.go:77-84 | threshold max, the "no greater than" default error; the rule passes exactly the zero time and instants before or equal to max |
| MinMax.MinAccepts | minmax.go:44-51 | Min(t) passes exactly zero and values >= t; a rejection is code validation_min_greater_equal_than_required, message "must be no less than {{.threshold}}", params {threshold: t} |
| MinMax.MaxAccepts | minmax.go:66-73 | Max(t) passes exactly zero and values <= t, else the "no greater than" error bound to t |
| MinMax.ExclusiveAccepts | minmax.go:87-96 | Min(t).Exclusive() passes exactly zero and values > t; Max(t).Exclusive() zero and values < t |
| MinMax.ExclusiveRejectsThreshold | minmax_test.go:22-26 | a non-zero threshold is rejected by the exclusive rule with the strict error bound to it; the strict messages are the ones in minmax.go |
| MinMax.ZeroAlwaysAccepted | minmax.go:112-114 | zero passes every threshold rule, whatever the operator, threshold or builders applied |
| MinMax.ExclusiveIdempotent | minmax.go:87-96 | Exclusive applied twice is Exclusive once |
| MinMax.ErrorLastCallWins | minmax.go:168-183 | of several Error/ErrorObject calls the last one decides the error |
| MinMax.ExclusiveResetsError | minmax.go:87-96 | Exclusive after Error drops the custom message, installing the strict default; Error after Exclusive keeps it |
| MinMax.CustomMessageUsed | minmax_test.go:120-126 | after Error(m) a rejection carries message m with the default code and the threshold params |
| MinMax.TimeRuleIsOrderedRule | minmax.go:140-165 | the instant rule decides exactly as the integer rule with the same configuration; Exclusive commutes with that correspondence |
| MinMax.TimeAccepts | minmax.go:55-84 | MinTime(t) passes the zero time and instants after or equal to t, MaxTime before or equal; the exclusive forms drop "equal" |
| MinMax.MinTimeZeroThreshold | minmax_test.go:102-107 | MinTime at the zero time accepts every instant after it |
| Absent.GetError | absent.go:63-68 | the custom error when one is set, the default otherwise |
| Absent.WithMessage | absent.go:48-54 | the message becomes the given one; code and params come from the custom error, or from the default when none is set |
| Absent.NilRule.Validate | absent.go:71-81 | nil iff the rule is switched off or the pointer is nil; otherwise the custom or default "validation_nil" error |
| Absent.NilRule.When | absent.go:84-87 | stores the negated condition; the error is kept |
| Absent.NilRule.Error | absent.go:90-96 | the error becomes the current one (custom or default) with the new message; the condition is kept |
| Absent.NilRule.ErrorObject | absent.go:99-102 | the error becomes the given one (nil resets it); the condition is kept |
| Absent.EmptyRule.Validate | absent.go:25-39 | nil iff the rule is switched off, the pointer is nil, or it points to the zero value; otherwise the custom or default "validation_empty" error |
| Absent.EmptyRule.When | absent.go:42-45 | stores the negated condition; the error is kept |
| Absent.EmptyRule.Error | absent.go:48-54 | as for NilRule, from the "validation_empty" default |
| Absent.EmptyRule.ErrorObject | absent.go:57-60 | the error becomes the given one; the condition is kept |
| Absent.NilAcceptsImpliesEmptyAccepts | absent.go:25-39 | under one condition, every pointer NilRule accepts is accepted by EmptyRule |
| Absent.PointerToZero | absent_test.go:18-20 | a pointer to the zero value fails Nil with "validation_nil" and passes Empty; both defaults say "must be blank" with different codes |
| Absent.WhenToggles | absent_test.go:88-97 | When(false) accepts everything; When(true) checks as an unconditioned rule |
| Absent.WhenLastCallWins | absent.go:84-87 | of two When calls the last decides |
| Absent.DefaultErrorFallback | absent.go:105-110 | an unconfigured rule reports the default error; one given ErrorObject(e) reports e |
| Absent.ErrorStartsFromDefault | absent_test.go:99-105 | Error(m) on an unconfigured rule is the default code with message m; the rule it was called on still reports "must be blank" |
| Absent.ErrorKeepsCode | absent.go:90-96 | Error keeps the code of a custom error set before it; the last message wins |
| Absent.ErrorObjectSets | absent.go:99-102 | ErrorObject sets the given error; a fresh rule has none |
| Rules.WhenRule.Else | when.go:42-45 | the else rules become the given ones; condition and rules are kept |
| Rules.When | when.go:6-12 | a When rule with the given condition and rules and no else rules |
| Rules.WhenRule.Validate | when.go:22-24 | the context-free entry point is the context-aware one under context.TODO |
| Rules.EachRule.Validate | each.go:29-31 | the context-free entry point is the context-aware one under context.TODO: the fixed error for a non-iterable, nil for an empty collection |
| Rules.EachRule.ValidateWithContext | each.go:34-73 | anything but a slice, array or map fails with "must be an iterable (map, slice or array)"; an empty slice or map passes; a failing slice or map is reported as a non-empty keyed aggregate (the full verdict: Each.SliceResult, Each.MapResult) |
| Rules.Each | each.go:14-21 | an Each rule over the given rules, keys written as they print; an empty iterable is valid under every context |
| Rules.EachAsWritten | each.go:14-21 | the same rule with the repository's reflect.Value.String key rendering; an empty iterable is valid under every context |
| Rules.GetInterface | each.go:75-85 | a nil pointer or nil gives the untyped nil; a non-nil pointer or interface slot gives what it holds, and a pointer to an interface slot gives the value inside the slot; any other value is itself |
| Rules.GetString | each.go:87-97 | corrected key string: "" for a nil key; a string key, or a pointer to one, gives the string; an int key gives its decimal form |
| Rules.GetStringAsWritten | each.go:87-97 | key string as written: "" for a nil key; a string key, or a pointer to one, gives the string; an int key gives "&lt;int Value&gt;", a bool key "&lt;bool Value&gt;" |
| Rules.Collect | each.go:69-72 | nil exactly when the aggregate is empty, otherwise the aggregate itself |
| Rules.ValidateRulesPass | when_test.go:31-51 | Rules.ValidateRules, the orchestrator, passes a rule list iff every rule in it passes |
| Rules.ValidateRulesFirstFailure | when_test.go:39-40 | a rule list fails with e iff some rule fails with e and every rule before it passes |
| Rules.ValidateRulesConcat | when.go:27-39 | running a + b is running a, then b only if a passed |
| When.ChoosesBranch | when.go:22-39 | Rules.WhenRule.ValidateWithContext: a When rule runs the rules when the condition is true and the else rules otherwise; Validate uses context.TODO |
| When.FalseWithoutElseAccepts | when.go:6-12 | without Else a false condition accepts every value |
| When.UntakenBranchIrrelevant | when.go:27-39 | the branch not taken has no influence on the result |
| When.ElseLastCallWins | when.go:42-45 | of two Else calls the last decides; condition and rules untouched |
| When.FirstFailureInBranch | when.go:27-39 | the When rule fails with e iff some rule of the chosen branch fails with e and all before it pass |
| When.ContextReachesBranch | when_test.go:66-100 | the caller's context reaches a context-reading rule unchanged in either branch |
| When.FirstListedRuleReported | when_test.go:39-40 | of two failing rules the one listed first in the chosen branch is reported |
| Decimal.Digit | each.go:62 | the character for digit d lies between '0' and '9' and stands for d |
| Decimal.NatStr | each.go:62 | the decimal form is a non-empty string of digits that parses back to n, most significant digit first, with no leading zero unless n is 0 |
| Decimal.IntStr | each.go:62 | non-empty; starts with '-' exactly for negative numbers; a non-negative number's form, and a negative number's form after the sign, are digit strings that parse back to the number's magnitude |
| Decimal.NatStrInjective | each.go:62 | different indices give different decimal keys, through the parse round trip |
| Decimal.IntStrInjective | each.go:62 | different integers give different signed decimal forms |
| Each.ValidateWithContext | each.go:34-73 | the loop over map entries or slice elements, with the rule's key style, returns exactly the functional Each verdict (loop invariant: the map built so far is the fold over the elements seen) |
| Each.SliceErrorsAt | each.go:52-64 | after n elements, key i is present iff element i fails, and holds its error |
| Each.SliceErrorsWitness | each.go:52-64 | every key of the index aggregate is the decimal form of a visited index |
| Each.SliceResult | each.go:52-72 | over a slice: nil iff every element passes; otherwise the aggregate has exactly a key per failing index, holding that element's error |
| Each.ElementsUnwrappedOnce | each.go:75-85 | nil pointer and nil interface elements are validated as nil; others are unwrapped once, a pointer to an interface slot down to the value in the slot; an element fails iff its index is in the aggregate |
| Each.MapErrorsAt | each.go:39-51 | a failing entry leaves its rendered key in the aggregate, holding its own error when keys render unambiguously |
| Each.MapErrorsWitness | each.go:39-51 | every aggregate key is the rendered key of a failing entry and holds that entry's error |
| Each.MapErrorsTransfer | each.go:39-51 | a key found in one iteration order is found, with the same error, in any order with unambiguous keys |
| Each.MapErrorsOrderIndependent | each.go:40 | with unambiguous keys the aggregate does not depend on the iteration order |
| Each.GetStringInjective | each.go:87-97 | with decimal rendering, distinct keys of one kind give distinct strings |
| Each.HomogeneousUnambiguous | each.go:87-97 | the keys of a map with distinct keys of one kind render unambiguously |
| Each.MapErrorsCharacterized | each.go:39-51 | with unambiguous keys, entry i's key is present iff entry i fails, holds its error, and no other key appears |
| Each.MapResult | each.go:39-72 | with keys written as they print, over a map of one key kind: nil iff every value passes; otherwise exactly one entry per failing key, holding that value's error |
| Each.MapResultOrderIndependent | each.go:40 | for such a map the verdict is the same in every iteration order; a reordering of a well-formed map is itself well formed |
| Each.AsWrittenIntKeysCollide | each.go:95 | with reflect.Value.String key rendering, two failing int keys collapse into "&lt;int Value&gt;" and the surviving error depends on the iteration order |
| Each.MapErrorsStylesAgree | each.go:49 | wherever the two renderings give every key the same string, both key styles build the same aggregate |
| Each.AsWrittenAgreesOnStringKeys | each.go:87-97 | on maps with string keys, the repository's rendering gives the same verdict as keys written as they print |
| Each.AsWrittenNestedCollide | each.go:49 | with the repository's rendering, an Each over a slice of int-keyed maps, checked by an inner Each, reports one "&lt;int Value&gt;" entry under index "0" |
| Each.CorrectedIntKeysKept | each.go:87-97 | with decimal key rendering both failures are kept under "1" and "2", in either order |

## Left out

- The orchestrator `ValidateWithContext(ctx, value, rules...)` and the `Validatable` self-validation it may perform are not part of this model. It is modelled as "first non-nil rule result, in order", which is what the When tests rely on.
- The `ctx == nil` branches of When and Each call the context-free `Validate(value, rules...)`. They are not modelled, because a context here is never nil.
- The repository's other leaf rules (Length, In, NotIn, Required and the rest) are not modelled one by one. A When or Each rule list reaches a leaf rule only through `Rules.Leaf`, an arbitrary context-reading check; Min/Max and Nil/Empty are modelled on their own (`MinMax`, `Absent`) and enter a rule list through such a leaf too.
- Template rendering of error messages and the internals of the `Error` type are not modelled. An error is a code, a message template and integer parameters.
- Min/Max over `Ordered` types are modelled on integers only. Floats, strings and the other integer widths are left out, because their comparison and zero value follow the same branch structure.
- `time.Time` is an integer instant with the zero time at 0; monotonic readings and locations are left out.
- The zero value `ThresholdRule{}` has a nil error. In the repository, calling `Error` on it, or a failing `Validate`, calls a method on a nil interface. That path is not modelled, because every constructor sets an error.
- MinMax.ThresholdRule.ErrorObject: takes a rule error, never nil, as every caller shown passes one.
- Absent.EmptyRule.Validate: the Go zero value of T is an explicit `zero` parameter, because Dafny has no zero value for a type parameter.
- Map keys are plain scalars, nil, or a pointer to a scalar. Interface-typed keys holding other values, and pointers to pointers, whose rendering is "<*T Value>", are left out.
- Arrays are modelled as slices (`reflect.Array` and `reflect.Slice` take the same branch).
- MinMax.TimeThresholdRule.Validate: its own contract is weaker than the integer rule's; the full verdict is stated through `MinMax.TimeRuleIsOrderedRule` and `MinMax.TimeAccepts`.

## Findings

| source | as written | input that shows it | evidently intended | confidence | as-written member | corrected member |
|---|---|---|---|---|---|---|
| each.go:87-97 | map keys are rendered with `reflect.Value.String`, which gives "&lt;int Value&gt;" for every int key (and "&lt;bool Value&gt;" for bools) | `Each(rule failing every value)` on `map[int]string{1: "x", 2: "y"}`: both failures land under one key, and which message survives depends on the random iteration order | one aggregate entry per failing key, under the key's printed form ("1", "2"), as slices use decimal indices | high; not executed | Each.AsWrittenIntKeysCollide | Each.MapResult |

The corrected rendering `Rules.GetString` prints integer keys in decimal and booleans as true/false. `Rules.Each` uses it, and the map properties above are stated about it. The repository-accurate Each is `Rules.EachAsWritten`. It nests like any other rule, and `Each.AsWrittenNestedCollide` shows the collision one level down. On string keys the two agree (`Each.AsWrittenAgreesOnStringKeys`). `Each.GetStringInjective` and `Each.MapResultOrderIndependent` prove that the rendering no longer loses failures and no longer depends on the iteration order. The repository's own rendering is `Rules.GetStringAsWritten`.
