/** The Each combinator: the loop that validates every element of a slice or
    every value of a map, and what its result says about the elements. */
module Each {
  import opened Values
  import opened ErrorModel
  import opened Decimal
  import opened Rules

  /** Builds the keyed error map in place, one element at a time, in the
      order the collection presents its elements. */
  method ValidateWithContext(r: EachRule, ctx: Context, value: Value) returns (o: Outcome)
    ensures o == r.ValidateWithContext(ctx, value)
  {
    var errs: map<string, ValidationError> := map[];
    match value {
      case MapVal(entries) =>
        var i := 0;
        while i < |entries|
          invariant 0 <= i <= |entries|
          invariant errs == MapErrors(ctx, r.rules, entries, i, r.style)
        {
          var (k, v) := entries[i];
          var err := ValidateRules(ctx, GetInterface(v), r.rules);
          if err.Fail? {
            errs := errs[KeyString(r.style, k) := err.error];
          }
          i := i + 1;
        }
      case Slice(elems) =>
        var i := 0;
        while i < |elems|
          invariant 0 <= i <= |elems|
          invariant errs == SliceErrors(ctx, r.rules, elems, i)
        {
          var err := ValidateRules(ctx, GetInterface(elems[i]), r.rules);
          if err.Fail? {
            errs := errs[NatStr(i) := err.error];
          }
          i := i + 1;
        }
      case _ =>
        return Fail(Plain(NotIterableMessage));
    }
    if |errs| > 0 {
      o := Fail(Errors(errs));
    } else {
      o := Pass;
    }
  }

  // ----- Slices -----

  /** Key NatStr(i) is present exactly when element i fails, and then holds
      that element's error. */
  lemma {:induction false} SliceErrorsAt(ctx: Context, rules: seq<Rule>, elems: seq<Value>, n: nat, i: nat)
    requires i < n <= |elems|
    ensures NatStr(i) in SliceErrors(ctx, rules, elems, n) <==> ElemOutcome(ctx, rules, elems[i]).Fail?
    ensures ElemOutcome(ctx, rules, elems[i]).Fail? ==>
      SliceErrors(ctx, rules, elems, n)[NatStr(i)] == ElemOutcome(ctx, rules, elems[i]).error
  {
    if i < n - 1 {
      SliceErrorsAt(ctx, rules, elems, n - 1, i);
      assert NatStr(i) != NatStr(n - 1) by { assert ParseDigits(NatStr(i)) == i; }
    } else if NatStr(i) in SliceErrors(ctx, rules, elems, n - 1) {
      SliceErrorsWitness(ctx, rules, elems, n - 1, NatStr(i));
    }
  }

  /** Every key of the index errors is the decimal form of an index. */
  lemma {:induction false} SliceErrorsWitness(ctx: Context, rules: seq<Rule>, elems: seq<Value>, n: nat, s: string)
    requires n <= |elems|
    requires s in SliceErrors(ctx, rules, elems, n)
    ensures exists i :: 0 <= i < n && s == NatStr(i)
    ensures IsDigits(s) && ParseDigits(s) < n
  {
    if s != NatStr(n - 1) {
      SliceErrorsWitness(ctx, rules, elems, n - 1, s);
    }
  }

  /** Each over a slice: nil iff every element passes; otherwise the aggregate
      holds, under each failing index in decimal, that element's error, and
      nothing else. Every element sees the same context. */
  lemma SliceResult(r: EachRule, ctx: Context, elems: seq<Value>)
    ensures r.ValidateWithContext(ctx, Slice(elems)) == Pass <==>
            forall i :: 0 <= i < |elems| ==> ElemOutcome(ctx, r.rules, elems[i]) == Pass
    ensures r.ValidateWithContext(ctx, Slice(elems)) != Pass ==>
      var o := r.ValidateWithContext(ctx, Slice(elems));
      && o.error.Errors?
      && (forall i :: 0 <= i < |elems| ==>
            (NatStr(i) in o.error.entries <==> ElemOutcome(ctx, r.rules, elems[i]).Fail?))
      && (forall i :: 0 <= i < |elems| && ElemOutcome(ctx, r.rules, elems[i]).Fail? ==>
            o.error.entries[NatStr(i)] == ElemOutcome(ctx, r.rules, elems[i]).error)
      && (forall s :: s in o.error.entries ==> exists i :: 0 <= i < |elems| && s == NatStr(i))
  {
    var errs := SliceErrors(ctx, r.rules, elems, |elems|);
    assert r.ValidateWithContext(ctx, Slice(elems)) == Collect(errs);
    forall i | 0 <= i < |elems|
      ensures NatStr(i) in errs <==> ElemOutcome(ctx, r.rules, elems[i]).Fail?
      ensures ElemOutcome(ctx, r.rules, elems[i]).Fail? ==> errs[NatStr(i)] == ElemOutcome(ctx, r.rules, elems[i]).error
    {
      SliceErrorsAt(ctx, r.rules, elems, |elems|, i);
    }
    forall s | s in errs ensures exists i :: 0 <= i < |elems| && s == NatStr(i) {
      SliceErrorsWitness(ctx, r.rules, elems, |elems|, s);
    }
    if errs != map[] {
      var s :| s in errs;
      var i :| 0 <= i < |elems| && s == NatStr(i);
      assert ElemOutcome(ctx, r.rules, elems[i]) != Pass;
    }
  }

  /** A nil pointer or nil interface element is validated as nil, not skipped;
      a non-nil pointer or interface element is opened once, and a pointer to
      an interface slot also opens the slot, as `Interface()` on it does. */
  lemma ElementsUnwrappedOnce(r: EachRule, ctx: Context, elems: seq<Value>, i: nat)
    requires i < |elems|
    ensures elems[i] == NilPtr || elems[i] == Nil ==>
      ElemOutcome(ctx, r.rules, elems[i]) == ValidateRules(ctx, Nil, r.rules)
    ensures elems[i].Ptr? && !elems[i].target.Iface? ==>
      ElemOutcome(ctx, r.rules, elems[i]) == ValidateRules(ctx, elems[i].target, r.rules)
    ensures elems[i].Ptr? && elems[i].target.Iface? ==>
      ElemOutcome(ctx, r.rules, elems[i]) == ValidateRules(ctx, elems[i].target.inner, r.rules)
    ensures elems[i].Iface? ==> ElemOutcome(ctx, r.rules, elems[i]) == ValidateRules(ctx, elems[i].inner, r.rules)
    ensures ValidateRules(ctx, GetInterface(elems[i]), r.rules).Fail? <==>
      (var o := r.ValidateWithContext(ctx, Slice(elems)); o.Fail? && o.error.Errors? && NatStr(i) in o.error.entries)
  {
    SliceResult(r, ctx, elems);
  }

  // ----- Maps -----

  /** `style` gives different key strings to different entries. */
  predicate Unambiguous(style: KeyStyle, entries: seq<(Key, Value)>) {
    forall i, j :: 0 <= i < |entries| && 0 <= j < |entries| && KeyString(style, entries[i].0) == KeyString(style, entries[j].0) ==> i == j
  }

  /** Every failing entry leaves its rendered key in the map errors, and with
      unambiguous keys that key holds the entry's own error. */
  lemma {:induction false} MapErrorsAt(ctx: Context, rules: seq<Rule>, entries: seq<(Key, Value)>, n: nat,
                                      style: KeyStyle, i: nat)
    requires i < n <= |entries|
    requires ElemOutcome(ctx, rules, entries[i].1).Fail?
    ensures KeyString(style, entries[i].0) in MapErrors(ctx, rules, entries, n, style)
    ensures Unambiguous(style, entries) ==>
      MapErrors(ctx, rules, entries, n, style)[KeyString(style, entries[i].0)] == ElemOutcome(ctx, rules, entries[i].1).error
  {
    var prev := MapErrors(ctx, rules, entries, n - 1, style);
    var last := ElemOutcome(ctx, rules, entries[n - 1].1);
    var k := KeyString(style, entries[i].0);
    if i < n - 1 {
      MapErrorsAt(ctx, rules, entries, n - 1, style, i);
      if last.Fail? {
        assert MapErrors(ctx, rules, entries, n, style) == prev[KeyString(style, entries[n - 1].0) := last.error];
        if Unambiguous(style, entries) {
          assert KeyString(style, entries[n - 1].0) != k;
        }
      } else {
        assert MapErrors(ctx, rules, entries, n, style) == prev;
      }
    } else {
      assert MapErrors(ctx, rules, entries, n, style) == prev[k := last.error];
    }
  }

  /** Every key of the map errors is the rendered key of a failing entry, and
      holds the error of such an entry. */
  lemma {:induction false} MapErrorsWitness(ctx: Context, rules: seq<Rule>, entries: seq<(Key, Value)>, n: nat,
                                           style: KeyStyle, s: string)
    requires n <= |entries|
    requires s in MapErrors(ctx, rules, entries, n, style)
    ensures exists i :: 0 <= i < n && KeyString(style, entries[i].0) == s &&
                        ElemOutcome(ctx, rules, entries[i].1) == Fail(MapErrors(ctx, rules, entries, n, style)[s])
  {
    var prev := MapErrors(ctx, rules, entries, n - 1, style);
    var o := ElemOutcome(ctx, rules, entries[n - 1].1);
    if o.Fail? && KeyString(style, entries[n - 1].0) == s {
      assert MapErrors(ctx, rules, entries, n, style)[s] == o.error;
    } else {
      assert MapErrors(ctx, rules, entries, n, style)[s] == prev[s];
      MapErrorsWitness(ctx, rules, entries, n - 1, style, s);
    }
  }

  /** An error found under key `s` in one iteration order is found under the
      same key in any other order whose keys are unambiguous. */
  lemma MapErrorsTransfer(ctx: Context, rules: seq<Rule>, e1: seq<(Key, Value)>, e2: seq<(Key, Value)>,
                          style: KeyStyle, s: string)
    requires multiset(e1) <= multiset(e2)
    requires Unambiguous(style, e2)
    requires s in MapErrors(ctx, rules, e1, |e1|, style)
    ensures s in MapErrors(ctx, rules, e2, |e2|, style)
    ensures MapErrors(ctx, rules, e2, |e2|, style)[s] == MapErrors(ctx, rules, e1, |e1|, style)[s]
  {
    var m1 := MapErrors(ctx, rules, e1, |e1|, style);
    MapErrorsWitness(ctx, rules, e1, |e1|, style, s);
    var i :| 0 <= i < |e1| && KeyString(style, e1[i].0) == s && ElemOutcome(ctx, rules, e1[i].1) == Fail(m1[s]);
    assert e1[i] in multiset(e1);
    assert e1[i] in multiset(e2);
    var j :| 0 <= j < |e2| && e2[j] == e1[i];
    MapErrorsAt(ctx, rules, e2, |e2|, style, j);
  }

  /** With unambiguous keys the result does not depend on the iteration order. */
  lemma MapErrorsOrderIndependent(ctx: Context, rules: seq<Rule>, e1: seq<(Key, Value)>, e2: seq<(Key, Value)>,
                                  style: KeyStyle)
    requires multiset(e1) == multiset(e2)
    requires Unambiguous(style, e1) && Unambiguous(style, e2)
    ensures MapErrors(ctx, rules, e1, |e1|, style) == MapErrors(ctx, rules, e2, |e2|, style)
  {
    var m1 := MapErrors(ctx, rules, e1, |e1|, style);
    var m2 := MapErrors(ctx, rules, e2, |e2|, style);
    forall s | s in m1 ensures s in m2 && m2[s] == m1[s] {
      MapErrorsTransfer(ctx, rules, e1, e2, style, s);
    }
    forall s | s in m2 ensures s in m1 {
      MapErrorsTransfer(ctx, rules, e2, e1, style, s);
    }
    SameEntries(m1, m2);
  }

  lemma SameEntries<K, V>(m1: map<K, V>, m2: map<K, V>)
    requires forall k :: k in m1 ==> k in m2 && m2[k] == m1[k]
    requires forall k :: k in m2 ==> k in m1
    ensures m1 == m2
  {
  }

  // ----- Key rendering -----

  /** Two plain keys of the same scalar kind, as every key of one map type is. */
  predicate SameKind(k1: Key, k2: Key) {
    match (k1, k2)
    case (PlainKey(IntVal(_)), PlainKey(IntVal(_))) => true
    case (PlainKey(StrVal(_)), PlainKey(StrVal(_))) => true
    case (PlainKey(BoolVal(_)), PlainKey(BoolVal(_))) => true
    case _ => false
  }

  /** Keys of one kind style differently when they differ. */
  lemma GetStringInjective(k1: Key, k2: Key)
    requires SameKind(k1, k2) && GetString(k1) == GetString(k2)
    ensures k1 == k2
  {
    if k1.scalar.IntVal? {
      IntStrInjective(k1.scalar.i, k2.scalar.i);
    } else if k1.scalar.BoolVal? {
      assert ("true" == "false") == false by { assert "true"[0] != "false"[0]; }
    }
  }

  /** A map whose keys are distinct plain scalars of one kind. */
  predicate Homogeneous(entries: seq<(Key, Value)>) {
    && DistinctKeys(entries)
    && forall i :: 0 <= i < |entries| ==> SameKind(entries[i].0, entries[0].0)
  }

  lemma HomogeneousUnambiguous(entries: seq<(Key, Value)>)
    requires Homogeneous(entries)
    ensures Unambiguous(Printed, entries)
  {
    forall i, j | 0 <= i < |entries| && 0 <= j < |entries| && GetString(entries[i].0) == GetString(entries[j].0)
      ensures i == j
    {
      var k0 := entries[0].0;
      assert SameKind(entries[i].0, k0) && SameKind(entries[j].0, k0);
      assert SameKind(entries[i].0, entries[j].0);
      GetStringInjective(entries[i].0, entries[j].0);
    }
  }

  /** With unambiguous keys: the rendered key of entry i is present exactly
      when entry i fails, it holds that entry's error, and there are no other keys. */
  lemma MapErrorsCharacterized(ctx: Context, rules: seq<Rule>, entries: seq<(Key, Value)>, style: KeyStyle)
    requires Unambiguous(style, entries)
    ensures forall i :: 0 <= i < |entries| ==>
      (KeyString(style, entries[i].0) in MapErrors(ctx, rules, entries, |entries|, style) <==>
       ElemOutcome(ctx, rules, entries[i].1).Fail?)
    ensures forall i :: 0 <= i < |entries| && ElemOutcome(ctx, rules, entries[i].1).Fail? ==>
      MapErrors(ctx, rules, entries, |entries|, style)[KeyString(style, entries[i].0)] == ElemOutcome(ctx, rules, entries[i].1).error
    ensures forall s :: s in MapErrors(ctx, rules, entries, |entries|, style) ==>
      exists i :: 0 <= i < |entries| && s == KeyString(style, entries[i].0)
  {
    var errs := MapErrors(ctx, rules, entries, |entries|, style);
    forall i | 0 <= i < |entries| && ElemOutcome(ctx, rules, entries[i].1).Fail?
      ensures KeyString(style, entries[i].0) in errs
      ensures errs[KeyString(style, entries[i].0)] == ElemOutcome(ctx, rules, entries[i].1).error
    {
      MapErrorsAt(ctx, rules, entries, |entries|, style, i);
    }
    forall i | 0 <= i < |entries| && KeyString(style, entries[i].0) in errs
      ensures ElemOutcome(ctx, rules, entries[i].1).Fail?
    {
      MapErrorsWitness(ctx, rules, entries, |entries|, style, KeyString(style, entries[i].0));
      var j :| 0 <= j < |entries| && KeyString(style, entries[j].0) == KeyString(style, entries[i].0) &&
               ElemOutcome(ctx, rules, entries[j].1) == Fail(errs[KeyString(style, entries[i].0)]);
      assert i == j;
    }
    forall s | s in errs ensures exists i :: 0 <= i < |entries| && s == KeyString(style, entries[i].0) {
      MapErrorsWitness(ctx, rules, entries, |entries|, style, s);
    }
  }

  /** Each over a map whose keys are distinct and of one kind: nil iff every
      value passes; otherwise the aggregate holds, under the string of each
      failing key, that value's error, and nothing else. */
  lemma MapResult(r: EachRule, ctx: Context, entries: seq<(Key, Value)>)
    requires r.style == Printed && Homogeneous(entries)
    ensures r.ValidateWithContext(ctx, MapVal(entries)) == Pass <==>
            forall i :: 0 <= i < |entries| ==> ElemOutcome(ctx, r.rules, entries[i].1) == Pass
    ensures r.ValidateWithContext(ctx, MapVal(entries)) != Pass ==>
      var o := r.ValidateWithContext(ctx, MapVal(entries));
      && o.error.Errors?
      && (forall i :: 0 <= i < |entries| ==>
            (GetString(entries[i].0) in o.error.entries <==> ElemOutcome(ctx, r.rules, entries[i].1).Fail?))
      && (forall i :: 0 <= i < |entries| && ElemOutcome(ctx, r.rules, entries[i].1).Fail? ==>
            o.error.entries[GetString(entries[i].0)] == ElemOutcome(ctx, r.rules, entries[i].1).error)
      && (forall s :: s in o.error.entries ==> exists i :: 0 <= i < |entries| && s == GetString(entries[i].0))
  {
    var errs := MapErrors(ctx, r.rules, entries, |entries|, Printed);
    assert r.ValidateWithContext(ctx, MapVal(entries)) == Collect(errs);
    HomogeneousUnambiguous(entries);
    MapErrorsCharacterized(ctx, r.rules, entries, Printed);
    if errs == map[] {
      forall i | 0 <= i < |entries| ensures ElemOutcome(ctx, r.rules, entries[i].1) == Pass {
        assert GetString(entries[i].0) !in errs;
      }
    } else {
      var s :| s in errs;
      var i :| 0 <= i < |entries| && s == GetString(entries[i].0);
      assert ElemOutcome(ctx, r.rules, entries[i].1) != Pass;
    }
  }

  /** A map listed in another order has the same entries, so it is still
      well formed and of one key kind. */
  lemma ReorderedHomogeneous(entries: seq<(Key, Value)>, reordered: seq<(Key, Value)>)
    requires Homogeneous(entries) && multiset(reordered) == multiset(entries)
    ensures Homogeneous(reordered)
  {
    forall i | 0 <= i < |reordered| ensures SameKind(reordered[i].0, reordered[0].0) {
      assert reordered[i] in multiset(entries) && reordered[0] in multiset(entries);
      var p :| 0 <= p < |entries| && entries[p] == reordered[i];
      var q :| 0 <= q < |entries| && entries[q] == reordered[0];
      assert SameKind(entries[p].0, entries[0].0) && SameKind(entries[q].0, entries[0].0);
    }
    forall i, j | 0 <= i < j < |reordered| ensures reordered[i].0 != reordered[j].0 {
      assert reordered[i] in multiset(entries) && reordered[j] in multiset(entries);
      var p :| 0 <= p < |entries| && entries[p] == reordered[i];
      var q :| 0 <= q < |entries| && entries[q] == reordered[j];
      if p == q {
        TwiceListed(reordered, i, j);
        AtMostOnce(entries, reordered[i]);
      }
    }
  }

  /** An entry listed at two positions occurs twice. */
  lemma TwiceListed(s: seq<(Key, Value)>, i: nat, j: nat)
    requires i < j < |s| && s[i] == s[j]
    ensures multiset(s)[s[i]] >= 2
  {
    assert s == s[..j] + s[j..];
    assert s[i] in multiset(s[..j]);
    assert s[j..][0] == s[j];
    assert s[j] in multiset(s[j..]);
  }

  /** In a well-formed map every entry occurs once. */
  lemma {:induction false} AtMostOnce(s: seq<(Key, Value)>, x: (Key, Value))
    requires DistinctKeys(s)
    ensures multiset(s)[x] <= 1
  {
    if s != [] {
      var p := s[..|s| - 1];
      assert s == p + [s[|s| - 1]];
      assert DistinctKeys(p);
      AtMostOnce(p, x);
      if s[|s| - 1] == x {
        assert x !in p;
      }
    }
  }

  /** For such a map the verdict is the same for every iteration order. */
  lemma MapResultOrderIndependent(r: EachRule, ctx: Context, entries: seq<(Key, Value)>, reordered: seq<(Key, Value)>)
    requires r.style == Printed && Homogeneous(entries)
    requires multiset(reordered) == multiset(entries)
    ensures r.ValidateWithContext(ctx, MapVal(reordered)) == r.ValidateWithContext(ctx, MapVal(entries))
  {
    ReorderedHomogeneous(entries, reordered);
    HomogeneousUnambiguous(entries);
    HomogeneousUnambiguous(reordered);
    MapErrorsOrderIndependent(ctx, r.rules, entries, reordered, Printed);
  }

  // ----- The key rendering as written -----

  /** A rule that fails every value and reports the string it was given. */
  function Echo(): Rule {
    Leaf((c: Context, v: Value) => Fail(Plain(if v.Atom? && v.scalar.StrVal? then v.scalar.s else "")))
  }

  const One: Key := PlainKey(IntVal(1))
  const Two: Key := PlainKey(IntVal(2))

  /** With reflect.Value.String as the key rendering, the two failures of an
      int-keyed map collapse into the one key "<int Value>", and which error
      survives depends on the iteration order. */
  lemma AsWrittenIntKeysCollide(ctx: Context)
    ensures EachAsWritten([Echo()]).ValidateWithContext(ctx, MapVal([(One, Atom(StrVal("x"))), (Two, Atom(StrVal("y")))]))
            == Fail(Errors(map["<int Value>" := Plain("y")]))
    ensures EachAsWritten([Echo()]).ValidateWithContext(ctx, MapVal([(Two, Atom(StrVal("y"))), (One, Atom(StrVal("x")))]))
            == Fail(Errors(map["<int Value>" := Plain("x")]))
  {
    var rs := [Echo()];
    var e1 := [(One, Atom(StrVal("x"))), (Two, Atom(StrVal("y")))];
    var e2 := [(Two, Atom(StrVal("y"))), (One, Atom(StrVal("x")))];
    assert ValidateRules(ctx, Atom(StrVal("x")), rs) == Fail(Plain("x"));
    assert ValidateRules(ctx, Atom(StrVal("y")), rs) == Fail(Plain("y"));
    assert MapErrors(ctx, rs, e1, 2, Reflected) == map["<int Value>" := Plain("y")];
    assert MapErrors(ctx, rs, e2, 2, Reflected) == map["<int Value>" := Plain("x")];
  }

  /** With decimal key rendering the same map keeps both failures, each under
      its own key, in either order. */
  lemma CorrectedIntKeysKept(ctx: Context)
    ensures Each([Echo()]).ValidateWithContext(ctx, MapVal([(One, Atom(StrVal("x"))), (Two, Atom(StrVal("y")))]))
            == Fail(Errors(map["1" := Plain("x"), "2" := Plain("y")]))
    ensures Each([Echo()]).ValidateWithContext(ctx, MapVal([(Two, Atom(StrVal("y"))), (One, Atom(StrVal("x")))]))
            == Fail(Errors(map["1" := Plain("x"), "2" := Plain("y")]))
  {
    var rs := [Echo()];
    var e1 := [(One, Atom(StrVal("x"))), (Two, Atom(StrVal("y")))];
    var e2 := [(Two, Atom(StrVal("y"))), (One, Atom(StrVal("x")))];
    assert ValidateRules(ctx, Atom(StrVal("x")), rs) == Fail(Plain("x"));
    assert ValidateRules(ctx, Atom(StrVal("y")), rs) == Fail(Plain("y"));
    assert GetString(One) == "1" && GetString(Two) == "2";
    assert MapErrors(ctx, rs, e1, 2, Printed) == map["1" := Plain("x"), "2" := Plain("y")];
    assert MapErrors(ctx, rs, e2, 2, Printed) == map["1" := Plain("x"), "2" := Plain("y")];
  }

  /** Where the two renderings give every key the same string, the two
      styles build the same aggregate. */
  lemma {:induction false} MapErrorsStylesAgree(ctx: Context, rules: seq<Rule>, entries: seq<(Key, Value)>, n: nat)
    requires n <= |entries|
    requires forall i :: 0 <= i < n ==> GetStringAsWritten(entries[i].0) == GetString(entries[i].0)
    ensures MapErrors(ctx, rules, entries, n, Reflected) == MapErrors(ctx, rules, entries, n, Printed)
  {
    if n > 0 {
      MapErrorsStylesAgree(ctx, rules, entries, n - 1);
      assert KeyString(Reflected, entries[n - 1].0) == KeyString(Printed, entries[n - 1].0);
    }
  }

  /** On maps with string keys, the case the repository's own rendering
      handles, it gives the same verdict as keys written as they print. */
  lemma AsWrittenAgreesOnStringKeys(rules: seq<Rule>, ctx: Context, entries: seq<(Key, Value)>)
    requires forall i :: 0 <= i < |entries| ==> entries[i].0.PlainKey? && entries[i].0.scalar.StrVal?
    ensures EachAsWritten(rules).ValidateWithContext(ctx, MapVal(entries)) == Each(rules).ValidateWithContext(ctx, MapVal(entries))
  {
    MapErrorsStylesAgree(ctx, rules, entries, |entries|);
  }

  /** The collision also happens one level down: an Each over a slice of
      int-keyed maps, each checked by an inner Each, reports under index "0"
      a single "<int Value>" entry. */
  lemma AsWrittenNestedCollide(ctx: Context)
    ensures EachAsWritten([EachR(EachAsWritten([Echo()]))]).ValidateWithContext(
              ctx, Slice([MapVal([(One, Atom(StrVal("x"))), (Two, Atom(StrVal("y")))])]))
            == Fail(Errors(map["0" := Errors(map["<int Value>" := Plain("y")])]))
  {
    var inner := EachR(EachAsWritten([Echo()]));
    var m := MapVal([(One, Atom(StrVal("x"))), (Two, Atom(StrVal("y")))]);
    AsWrittenIntKeysCollide(ctx);
    assert inner.ValidateWithContext(ctx, m) == Fail(Errors(map["<int Value>" := Plain("y")]));
    assert ValidateRules(ctx, m, [inner]) == Fail(Errors(map["<int Value>" := Plain("y")]));
    assert NatStr(0) == "0";
    assert SliceErrors(ctx, [inner], [m], 1) == map["0" := Errors(map["<int Value>" := Plain("y")])];
  }
}
