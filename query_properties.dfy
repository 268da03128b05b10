/** What the query validator promises: structural validation keeps exactly
    the valid entries, the required/permitted policy, the warnings, the
    nothing-permitted error, and fail-closed behaviour on every error. */
module QueryProperties {
  import opened Wrappers
  import opened RubyHash
  import opened Json
  import opened JsDataRails
  import opened Clause
  import ClauseProperties
  import opened Query

  // ---------------------------------------------------------------------------
  // Structural validation

  /** The valid entries of `h`, in order, each operation as the Hash it
      decodes to: a reference definition of `validate_input_clause`'s result
      that never overwrites. */
  function KeepValid(h: Hash<Value>): FilterClause {
    if h == [] then []
    else
      (if ValidOperation(h[0].1) then [(h[0].0, FromPairs(h[0].1.members))] else []) + KeepValid(h[1..])
  }

  lemma {:induction false} KeepValidSnoc(h: Hash<Value>, e: (string, Value))
    ensures KeepValid(h + [e]) == KeepValid(h) + (if ValidOperation(e.1) then [(e.0, FromPairs(e.1.members))] else [])
    decreases |h|
  {
    if h == [] {
      assert h + [e] == [e];
      assert [e][1..] == [];
    } else {
      assert (h + [e])[1..] == h[1..] + [e];
      KeepValidSnoc(h[1..], e);
      var first := if ValidOperation(h[0].1) then [(h[0].0, FromPairs(h[0].1.members))] else [];
      var last := if ValidOperation(e.1) then [(e.0, FromPairs(e.1.members))] else [];
      AppendAssociative(first, KeepValid(h[1..]), last);
    }
  }

  /** Validation introduces no key the input did not have. */
  lemma {:induction false} ValidateKeys(h: Hash<Value>)
    ensures forall x :: x in Keys(Validate(h)) ==> x in Keys(h)
    decreases |h|
  {
    if h != [] {
      var init := h[..|h| - 1];
      ValidateKeys(init);
      assert h == init + [h[|h| - 1]];
      KeysSnoc(init, h[|h| - 1]);
      var e := h[|h| - 1];
      if ValidOperation(e.1) {
        PutKeys(Validate(init), e.0, FromPairs(e.1.members));
      }
    }
  }

  /** On a decoded Hash (no repeated key) the validated clause is exactly its
      valid entries, in input order. */
  lemma {:induction false} ValidateIsFilter(h: Hash<Value>)
    requires Distinct(h)
    ensures Validate(h) == KeepValid(h)
    decreases |h|
  {
    if h != [] {
      var init := h[..|h| - 1];
      var e := h[|h| - 1];
      DistinctPrefix(h, |h| - 1);
      ValidateIsFilter(init);
      LastKeyIsNew(h);
      ValidateKeys(init);
      assert h == init + [e];
      KeepValidSnoc(init, e);
      if ValidOperation(e.1) {
        PutNew(Validate(init), e.0, FromPairs(e.1.members));
      }
    }
  }

  /** What the validated clause binds `k` to: the decoded operation when the
      input's operation for `k` is valid, nothing otherwise. */
  function ValidatedAt(h: Hash<Value>, k: string): Option<FilterOperation> {
    match Get(h, k)
    case Some(operation) => if ValidOperation(operation) then Some(FromPairs(operation.members)) else None
    case None => None
  }

  /** A property is kept iff its operation is valid, with that operation. */
  lemma {:induction false} ValidateGet(h: Hash<Value>, k: string)
    requires Distinct(h)
    ensures Get(Validate(h), k) == ValidatedAt(h, k)
    decreases |h|
  {
    if h != [] {
      DistinctPrefix(h, |h| - 1);
      ValidateGet(h[..|h| - 1], k);
      LastKeyIsNew(h);
      GetLast(h, k);
      ValidateGetStep(h, k);
    }
  }

  lemma ValidateGetStep(h: Hash<Value>, k: string)
    requires h != []
    requires h[|h| - 1].0 !in Keys(h[..|h| - 1])
    requires Get(Validate(h[..|h| - 1]), k) == ValidatedAt(h[..|h| - 1], k)
    requires var init := h[..|h| - 1];
      Get(h, k) == if k in Keys(init) then Get(init, k) else if k == h[|h| - 1].0 then Some(h[|h| - 1].1) else None
    ensures Get(Validate(h), k) == ValidatedAt(h, k)
  {
    var init := h[..|h| - 1];
    var e := h[|h| - 1];
    if ValidOperation(e.1) {
      PutGet(Validate(init), e.0, FromPairs(e.1.members));
    }
    if k == e.0 {
      assert Get(init, k).None?;
    }
  }

  /** Every entry is either kept or reported, never both, never neither. */
  lemma {:induction false} ValidationPartition(h: Hash<Value>, render: Value -> string)
    requires Distinct(h)
    ensures |Validate(h)| + |ValidationErrors(h, render)| == |h|
    decreases |h|
  {
    if h != [] {
      var init := h[..|h| - 1];
      var e := h[|h| - 1];
      DistinctPrefix(h, |h| - 1);
      ValidationPartition(init, render);
      LastKeyIsNew(h);
      ValidateKeys(init);
      if ValidOperation(e.1) {
        PutNew(Validate(init), e.0, FromPairs(e.1.members));
      }
    }
  }

  /** Each invalid entry is reported with its rendered operation and property. */
  lemma {:induction false} InvalidEntryReported(h: Hash<Value>, render: Value -> string, i: nat)
    requires i < |h| && !ValidOperation(h[i].1)
    ensures InvalidOperationError(render(h[i].1), h[i].0) in ValidationErrors(h, render)
    decreases |h|
  {
    var init := h[..|h| - 1];
    assert h == init + [h[|h| - 1]];
    ValidateSnoc(init, h[|h| - 1], render);
    if i < |h| - 1 {
      assert init[i] == h[i];
      InvalidEntryReported(init, render, i);
    }
  }

  /** Every validation error names an invalid operation (so none of them is
      the nothing-permitted error). */
  lemma {:induction false} ValidationErrorsAreStructural(h: Hash<Value>, render: Value -> string)
    ensures forall x :: x in ValidationErrors(h, render) ==> |x| > 0 && x[0] == 'F'
    decreases |h|
  {
    if h != [] {
      var init := h[..|h| - 1];
      ValidationErrorsAreStructural(init, render);
      var e := h[|h| - 1];
      var m := InvalidOperationError(render(e.1), e.0);
      assert m[0] == 'F';
    }
  }

  // ---------------------------------------------------------------------------
  // Required and permitted properties

  /** After `permit(*names)` the keys are the old ones plus every name the
      validated clause has; permitting an absent name changes nothing. */
  lemma {:induction false} PermitAllKeys(v: FilterClause, p: FilterClause, names: seq<string>)
    ensures forall k :: k in Keys(PermitAll(v, p, names)) <==> k in Keys(p) || (k in names && k in Keys(v))
    decreases |names|
  {
    if names != [] {
      var init := names[..|names| - 1];
      var name := names[|names| - 1];
      PermitAllKeys(v, p, init);
      assert names == init + [name];
      var op := Get(v, name);
      if op.Some? {
        PutKeys(PermitAll(v, p, init), name, op.value);
      }
      forall k ensures k in names <==> k in init || k == name {
      }
    }
  }

  /** `require(*rs)` followed by `permit(*ps)` is `permit` over both lists. */
  lemma {:induction false} RequireThenPermit(v: FilterClause, p: FilterClause, rs: seq<string>, ps: seq<string>)
    ensures PermitAll(v, PermitAll(v, p, rs), ps) == PermitAll(v, p, rs + ps)
    decreases |ps|
  {
    if ps == [] {
      assert rs + ps == rs;
    } else {
      var init := ps[..|ps| - 1];
      RequireThenPermit(v, p, rs, init);
      assert (rs + ps)[..|rs + ps| - 1] == rs + init;
      assert (rs + ps)[|rs + ps| - 1] == ps[|ps| - 1];
    }
  }

  /** The constructor's `@properties`: no key twice, each value the validated
      clause's, and the keys exactly the required or permitted names the
      validated clause has. A name both required and permitted appears once. */
  lemma PropertiesContents(v: FilterClause, rs: seq<string>, ps: seq<string>)
    ensures var properties := PermitAll(v, PermitAll(v, [], rs), ps);
      && SubHash(properties, v)
      && (forall k :: k in Keys(properties) <==> (k in rs || k in ps) && k in Keys(v))
  {
    RequireThenPermit(v, [], rs, ps);
    PermitAllKeys(v, [], rs + ps);
    PermitAllKeepsSubHash(v, [], rs + ps);
  }

  /** Nothing is missing iff every required name is a validated property; each
      missing one is reported by name, and there is at most one error per
      listed entry (a name listed twice is reported twice). */
  lemma {:induction false} MissingRequiredIff(v: FilterClause, names: seq<string>)
    ensures MissingRequired(v, names) == [] <==> forall n :: n in names ==> n in Keys(v)
    ensures forall n :: n in names && n !in Keys(v) ==> MissingRequiredError(n) in MissingRequired(v, names)
    ensures |MissingRequired(v, names)| <= |names|
    decreases |names|
  {
    if names != [] {
      var init := names[..|names| - 1];
      var name := names[|names| - 1];
      MissingRequiredIff(v, init);
      assert names == init + [name];
      forall n ensures n in names <==> n in init || n == name {
      }
    }
  }

  /** On an empty validated clause every required name is missing. */
  lemma {:induction false} AllMissing(names: seq<string>)
    ensures |MissingRequired([], names)| == |names|
    ensures forall i :: 0 <= i < |names| ==> MissingRequired([], names)[i] == MissingRequiredError(names[i])
    decreases |names|
  {
    if names != [] {
      AllMissing(names[..|names| - 1]);
    }
  }

  /** Nothing can be permitted from an empty validated clause. */
  lemma {:induction false} PermitNothing(p: FilterClause, names: seq<string>)
    ensures PermitAll([], p, names) == p
    decreases |names|
  {
    if names != [] {
      PermitNothing(p, names[..|names| - 1]);
    }
  }

  /** Every missing-required error starts as such (so none of them is the
      nothing-permitted error). */
  lemma {:induction false} MissingRequiredErrorsStartWithM(v: FilterClause, names: seq<string>)
    ensures forall x :: x in MissingRequired(v, names) ==> |x| > 0 && x[0] == 'M'
    decreases |names|
  {
    if names != [] {
      MissingRequiredErrorsStartWithM(v, names[..|names| - 1]);
      var m := MissingRequiredError(names[|names| - 1]);
      assert m[0] == 'M';
    }
  }

  // ---------------------------------------------------------------------------
  // Warnings

  lemma NotPermittedWarningInjective(a: string, b: string)
    requires NotPermittedWarning(a) == NotPermittedWarning(b)
    ensures a == b
  {
    var w := NotPermittedWarning(a);
    assert |a| == |b|;
    assert w[10..10 + |a|] == a;
    assert NotPermittedWarning(b)[10..10 + |b|] == b;
  }

  /** A warning is issued for `k` iff `k` was validated but not permitted. */
  lemma {:induction false} WarningsIff(v: FilterClause, p: FilterClause, k: string)
    ensures NotPermittedWarning(k) in WarningsFor(v, p) <==> k in Keys(v) && k !in Keys(p)
    decreases |v|
  {
    if v != [] {
      var init := v[..|v| - 1];
      var e := v[|v| - 1];
      WarningsIff(init, p, k);
      assert v == init + [e];
      KeysSnoc(init, e);
      if NotPermittedWarning(k) == NotPermittedWarning(e.0) {
        NotPermittedWarningInjective(k, e.0);
      }
    }
  }

  /** No warning when every validated property is permitted. */
  lemma {:induction false} FullyPermittedNoWarnings(v: FilterClause, p: FilterClause)
    requires forall i :: 0 <= i < |v| ==> v[i].0 in Keys(p)
    ensures WarningsFor(v, p) == []
    decreases |v|
  {
    if v != [] {
      FullyPermittedNoWarnings(v[..|v| - 1], p);
    }
  }

  // ---------------------------------------------------------------------------
  // The constructed validator

  /** "Nothing has been permitted" is reported iff `@properties` is empty,
      including when nothing was required or permitted at all. */
  lemma NothingPermittedIff(where: Option<string>, parse: string -> Option<Value>, render: Value -> string,
                            rs: seq<string>, ps: seq<string>)
    ensures var s := Construct(where, parse, render, rs, ps);
      NOTHING_PERMITTED in s.errors <==> s.properties == []
    ensures var s := Construct(where, parse, render, rs, ps);
      rs == [] && ps == [] ==> NOTHING_PERMITTED in s.errors
  {
    var text := WhereText(where);
    var parsed := ParsedClause(parse(text));
    var h := parsed.GetOr([]);
    var v := Validate(h);
    var s := Construct(where, parse, render, rs, ps);
    EarlierErrors(text, parsed, render, rs);
    var earlier := DecodeErrors(text, parsed) + ValidationErrors(h, render) + MissingRequired(v, rs);
    assert s.errors == earlier + (if s.properties == [] then [NOTHING_PERMITTED] else []);
    NothingPermittedLast(earlier, s.properties == []);
  }

  /** None of the errors reported before the nothing-permitted check starts
      with the letter that message starts with. */
  lemma EarlierErrors(text: string, parsed: Option<Hash<Value>>, render: Value -> string, rs: seq<string>)
    ensures var h := parsed.GetOr([]);
      forall x :: x in DecodeErrors(text, parsed) + ValidationErrors(h, render) + MissingRequired(Validate(h), rs) ==>
        |x| > 0 && x[0] != 'N'
  {
    var h := parsed.GetOr([]);
    ValidationErrorsAreStructural(h, render);
    MissingRequiredErrorsStartWithM(Validate(h), rs);
    if parsed.None? {
      assert DecodeError(text)[0] == '\'';
    }
  }

  lemma NothingPermittedLast(earlier: seq<string>, nothing: bool)
    requires forall x :: x in earlier ==> |x| > 0 && x[0] != 'N'
    ensures NOTHING_PERMITTED in earlier + (if nothing then [NOTHING_PERMITTED] else []) <==> nothing
  {
    assert NOTHING_PERMITTED[0] == 'N';
    assert NOTHING_PERMITTED !in earlier;
  }

  /** A filter that does not decode: exactly one decode error, then every
      required name is missing and nothing is permitted; no property, no
      warning, an empty validated clause. */
  lemma DecodeFailureFailsClosed(where: Option<string>, parse: string -> Option<Value>, render: Value -> string,
                                 rs: seq<string>, ps: seq<string>)
    requires ParsedClause(parse(WhereText(where))).None?
    ensures var s := Construct(where, parse, render, rs, ps);
      && s.clause == [] && s.properties == [] && s.warnings == []
      && s.errors == [DecodeError(WhereText(where))] + MissingRequired([], rs) + [NOTHING_PERMITTED]
  {
    PermitNothing([], rs);
    PermitNothing([], ps);
    var d := DecodeErrors(WhereText(where), None);
    assert d + ValidationErrors([], render) == d;
  }

  /** An empty filter object: one error per required name, in order, then
      "Nothing has been permitted". */
  lemma EmptyFilterFailsClosed(where: Option<string>, parse: string -> Option<Value>, render: Value -> string,
                               rs: seq<string>, ps: seq<string>)
    requires parse(WhereText(where)) == Some(Object([]))
    ensures var s := Construct(where, parse, render, rs, ps);
      && s.properties == [] && s.warnings == []
      && |s.errors| == |rs| + 1 && s.errors[|rs|] == NOTHING_PERMITTED
      && forall i :: 0 <= i < |rs| ==> s.errors[i] == MissingRequiredError(rs[i])
  {
    var h: Hash<Value> := [];
    assert ParsedClause(parse(WhereText(where))) == Some(h);
    ConstructDecoded(where, parse, render, rs, ps, h);
    assert Validate(h) == [] && ValidationErrors(h, render) == [];
    PermitNothing([], rs);
    PermitNothing([], ps);
    AllMissing(rs);
  }

  /** One invalid operation is reported, its property is dropped, and the
      errors make the whole query select nothing. */
  lemma StructuralErrorFailsClosed(where: Option<string>, parse: string -> Option<Value>, render: Value -> string,
                                   rs: seq<string>, ps: seq<string>, members: seq<(string, Value)>, i: nat)
    requires parse(WhereText(where)) == Some(Object(members))
    requires i < |FromPairs(members)| && !ValidOperation(FromPairs(members)[i].1)
    ensures var s := Construct(where, parse, render, rs, ps);
      var e := FromPairs(members)[i];
      && InvalidOperationError(render(e.1), e.0) in s.errors
      && e.0 !in Keys(s.clause)
  {
    var h := FromPairs(members);
    var e := h[i];
    InvalidEntryReported(h, render, i);
    ValidateGet(h, e.0);
    assert Get(h, e.0) == Some(e.1);
  }

  /** No error: something is permitted, every permitted operation is a
      supported one taken from the validated clause, and the compiled
      statement has one fragment and one value per property, never the
      select-nothing fallback. */
  lemma SuccessPath(where: Option<string>, parse: string -> Option<Value>, render: Value -> string,
                    rs: seq<string>, ps: seq<string>)
    ensures var s := Construct(where, parse, render, rs, ps);
      s.errors == [] ==>
        && s.properties != []
        && SubHash(s.properties, s.clause)
        && (forall i :: 0 <= i < |s.properties| ==> IsSupported(s.properties[i].1))
        && Compiled(Some(s.properties)) == Parameterised(JoinAnd(Fragments(s.properties)), Values(s.properties))
        && |Fragments(s.properties)| == |Values(s.properties)| == |s.properties|
  {
    var s := Construct(where, parse, render, rs, ps);
    PermitAllKeepsSubHash(s.clause, [], rs);
    PermitAllKeepsSubHash(s.clause, PermitAll(s.clause, [], rs), ps);
    SupportedPart(s.properties, s.clause);
    if s.errors == [] {
      SupportedCompiles(s.properties);
    }
  }

  /** The constructed state for a filter that decoded to the Hash `h`. */
  lemma ConstructDecoded(where: Option<string>, parse: string -> Option<Value>, render: Value -> string,
                         rs: seq<string>, ps: seq<string>, h: Hash<Value>)
    requires ParsedClause(parse(WhereText(where))) == Some(h)
    ensures var v := Validate(h);
      var properties := PermitAll(v, PermitAll(v, [], rs), ps);
      Construct(where, parse, render, rs, ps) == QueryState(
        ValidationErrors(h, render) + MissingRequired(v, rs) + (if properties == [] then [NOTHING_PERMITTED] else []),
        WarningsFor(v, properties), properties, v)
  {
    var e := ValidationErrors(h, render);
    assert DecodeErrors(WhereText(where), Some(h)) + e == e;
  }

  // ---------------------------------------------------------------------------
  // Worked cases

  /** `{"<p>":{"==":x}}` with `p` required: no error, no warning, `p` is
      permitted with its operation, and the store gets `"<p> = ?"` and `x`. */
  lemma RequiredEqualsScenario(where: Option<string>, parse: string -> Option<Value>, render: Value -> string,
                               p: string, x: Value)
    requires parse(WhereText(where)) == Some(Object([(p, Object([("==", x)]))]))
    ensures var s := Construct(where, parse, render, [p], []);
      && s.errors == [] && s.warnings == []
      && s.properties == [(p, [("==", x)])]
      && Compiled(Some(s.properties)) == Parameterised(p + " = ?", [x])
  {
    var op := [("==", x)];
    var h := [(p, Object(op))];
    var v := [(p, op)];
    assert ParsedClause(parse(WhereText(where))) == Some(h) by {
      FromPairsOfDistinct(h);
    }
    assert ValidOperation(Object(op)) by {
      FromPairsOfDistinct(op);
    }
    assert Validate(h) == v by {
      ValidateIsFilter(h);
      FromPairsOfDistinct(op);
      assert h[1..] == [];
    }
    assert ValidationErrors(h, render) == [] by {
      assert h[..0] == [];
    }
    assert PermitAll(v, PermitAll(v, [], [p]), []) == v by {
      assert [p][..0] == [];
    }
    assert MissingRequired(v, [p]) == [] by {
      assert [p][..0] == [];
    }
    assert WarningsFor(v, v) == [] by {
      FullyPermittedNoWarnings(v, v);
    }
    ClauseProperties.EqualsOperatorExample(p, x);
  }

  /** `{"<b>":{"==":y},"<a>":{"==":x}}` with nothing required and only `a`
      permitted: no error, one warning for `b`, and the store gets `"<a> = ?"`
      and `x` alone. */
  lemma UnpermittedPropertyScenario(where: Option<string>, parse: string -> Option<Value>, render: Value -> string,
                                    a: string, b: string, x: Value, y: Value)
    requires a != b
    requires parse(WhereText(where)) == Some(Object([(b, Object([("==", y)])), (a, Object([("==", x)]))]))
    ensures var s := Construct(where, parse, render, [], [a]);
      && s.errors == [] && s.warnings == [NotPermittedWarning(b)]
      && s.properties == [(a, [("==", x)])]
      && Compiled(Some(s.properties)) == Parameterised(a + " = ?", [x])
  {
    var opA := [("==", x)];
    var opB := [("==", y)];
    var h := [(b, Object(opB)), (a, Object(opA))];
    FromPairsOfDistinct(h);
    ConstructDecoded(where, parse, render, [], [a], h);
    TwoEqualsValidated(b, a, y, x, render);
    OnlySecondPermitted(b, a, opB, opA);
    ClauseProperties.EqualsOperatorExample(a, x);
  }

  lemma TwoEqualsValidated(a: string, b: string, x: Value, y: Value, render: Value -> string)
    requires a != b
    ensures var h := [(a, Object([("==", x)])), (b, Object([("==", y)]))];
      Validate(h) == [(a, [("==", x)]), (b, [("==", y)])] && ValidationErrors(h, render) == []
  {
    var h0, h1 := (a, Object([("==", x)])), (b, Object([("==", y)]));
    EqualsIsValid(x);
    EqualsIsValid(y);
    ValidateOne(h0, render);
    ValidateSnoc([h0], h1, render);
    var v0: FilterClause := [(a, [("==", x)])];
    assert b !in Keys(v0);
    PutNew(v0, b, [("==", y)]);
    assert [h0, h1] == [h0] + [h1];
  }

  lemma EqualsIsValid(x: Value)
    ensures ValidOperation(Object([("==", x)])) && FromPairs([("==", x)]) == [("==", x)]
  {
    FromPairsOfDistinct([("==", x)]);
  }

  lemma ValidateOne(e: (string, Value), render: Value -> string)
    requires ValidOperation(e.1)
    ensures Validate([e]) == [(e.0, FromPairs(e.1.members))] && ValidationErrors([e], render) == []
  {
    assert [e] == [] + [e];
    ValidateSnoc([], e, render);
  }

  lemma OnlySecondPermitted(b: string, a: string, opB: FilterOperation, opA: FilterOperation)
    requires a != b
    ensures var v := [(b, opB), (a, opA)];
      && PermitAll(v, PermitAll(v, [], []), [a]) == [(a, opA)]
      && MissingRequired(v, []) == []
      && WarningsFor(v, [(a, opA)]) == [NotPermittedWarning(b)]
  {
    var v := [(b, opB), (a, opA)];
    assert [a][..0] == [];
    assert v[..1] == [(b, opB)];
    assert Get(v, a) == Some(opA);
    assert WarningsFor(v[..1], [(a, opA)]) == [NotPermittedWarning(b)] by {
      assert v[..1][..0] == [];
    }
  }
}
