/** The query validator (lib/js_data_rails/query.rb): decodes the client's
    `where` text, keeps the well-formed filter operations, applies the
    required/permitted policy while collecting errors and warnings, and hands
    the store either the compiled predicate or the select-nothing condition. */
module Query {
  import opened Wrappers
  import opened RubyHash
  import opened Json
  import opened JsDataRails
  import opened Clause
  import ClauseProperties

  // The diagnostics, word for word.

  function DecodeError(text: string): string {
    "'" + text + "' must be valid js-data JSON"
  }

  function InvalidOperationError(operation: string, property: string): string {
    "Filter operation '" + operation + "' for '" + property + "' is not valid or not yet supported"
  }

  function MissingRequiredError(property: string): string {
    "Missing required property '" + property + "'"
  }

  function NotPermittedWarning(property: string): string {
    "Property '" + property + "' is not permitted"
  }

  /** The decode error, present exactly when the filter did not decode to a Hash. */
  function DecodeErrors(text: string, parsed: Option<Hash<Value>>): seq<string> {
    if parsed.None? then [DecodeError(text)] else []
  }

  const NOTHING_PERMITTED: string := "Nothing has been permitted"

  /** `params["where"] || "{}"`: an absent filter reads as the empty object. */
  function WhereText(where: Option<string>): (text: string)
    ensures where.None? ==> text == "{}"
    ensures where.Some? ==> text == where.value
  {
    where.GetOr("{}")
  }

  /** `JSON.parse(text).deep_symbolize_keys`, from what the parser returned
      (None where it raised): only an object yields a Hash; anything else
      makes `deep_symbolize_keys` raise, which the constructor rescues. */
  function ParsedClause(parsed: Option<Value>): (r: Option<Hash<Value>>)
    ensures r.Some? <==> parsed.Some? && parsed.value.Object?
    ensures r.Some? ==> Distinct(r.value)
  {
    match parsed
    case Some(Object(members)) => Some(FromPairs(members))
    case _ => None
  }

  /** A filter operation with exactly one key, and that key `==` or `in`. */
  predicate IsSupported(operation: FilterOperation) {
    |operation| == 1 && operation[0].0 in SUPPORTED_OPERATORS
  }

  /** `valid_operation?`: a Hash whose only key is a supported operator. A
      valid operation is a non-empty object whose operator compiles for any
      property. */
  predicate ValidOperation(operation: Value)
    ensures ValidOperation(operation) ==> operation.Object? && operation.members != []
    ensures ValidOperation(operation) ==>
      forall property :: ClauseFor(property, FirstKey(FromPairs(operation.members))).Some?
  {
    operation.Object? && IsSupported(FromPairs(operation.members))
  }

  /** `validate_input_clause`'s result: the fold that stores each valid
      operation under its property with `validated[property] = ...`. */
  function Validate(h: Hash<Value>): (v: FilterClause)
    ensures Distinct(v)
    ensures forall i :: 0 <= i < |v| ==> IsSupported(v[i].1)
    decreases |h|
  {
    if h == [] then []
    else
      var init := Validate(h[..|h| - 1]);
      var property := h[|h| - 1].0;
      var operation := h[|h| - 1].1;
      if ValidOperation(operation) then
        PutDistinct(init, property, FromPairs(operation.members));
        PutEntries(init, property, FromPairs(operation.members));
        Put(init, property, FromPairs(operation.members))
      else init
  }

  /** The errors `validate_input_clause` appends: one per invalid operation,
      in input order. `render` is Ruby's string form of the operation. */
  function ValidationErrors(h: Hash<Value>, render: Value -> string): (errors: seq<string>)
    ensures |errors| <= |h|
    decreases |h|
  {
    if h == [] then []
    else
      var property := h[|h| - 1].0;
      var operation := h[|h| - 1].1;
      ValidationErrors(h[..|h| - 1], render)
        + (if ValidOperation(operation) then [] else [InvalidOperationError(render(operation), property)])
  }

  /** `permit(property)` for one name: copy its operation from the validated
      clause, unless it is nil there. */
  function PermitOne(v: FilterClause, properties: FilterClause, name: string): (r: FilterClause)
    ensures name in Keys(v) ==> name in Keys(r)
    ensures |properties| <= |r| <= |properties| + 1
  {
    match Get(v, name)
    case Some(operation) =>
      PutKeys(properties, name, operation);
      Put(properties, name, operation)
    case None => properties
  }

  /** `permit(*names)`: `PermitOne` for each name in turn. */
  function PermitAll(v: FilterClause, properties: FilterClause, names: seq<string>): (r: FilterClause)
    ensures |properties| <= |r| <= |properties| + |names|
    decreases |names|
  {
    if names == [] then properties
    else PermitOne(v, PermitAll(v, properties, names[..|names| - 1]), names[|names| - 1])
  }

  /** The errors `require(*names)` appends: one per name that is not a key of
      the validated clause, in declared order. */
  function MissingRequired(v: FilterClause, names: seq<string>): (errors: seq<string>)
    ensures |errors| <= |names|
    decreases |names|
  {
    if names == [] then []
    else
      var name := names[|names| - 1];
      MissingRequired(v, names[..|names| - 1]) + (if name in Keys(v) then [] else [MissingRequiredError(name)])
  }

  /** The warnings the constructor appends: one per validated property that
      did not make it into `properties`, in the validated clause's order. */
  function WarningsFor(v: FilterClause, properties: FilterClause): (warnings: seq<string>)
    ensures |warnings| <= |v|
    decreases |v|
  {
    if v == [] then []
    else
      var property := v[|v| - 1].0;
      WarningsFor(v[..|v| - 1], properties) + (if property in Keys(properties) then [] else [NotPermittedWarning(property)])
  }

  lemma ValidateSnoc(h: Hash<Value>, e: (string, Value), render: Value -> string)
    ensures Validate(h + [e]) == if ValidOperation(e.1) then Put(Validate(h), e.0, FromPairs(e.1.members)) else Validate(h)
    ensures ValidationErrors(h + [e], render)
      == ValidationErrors(h, render) + (if ValidOperation(e.1) then [] else [InvalidOperationError(render(e.1), e.0)])
  {
    assert (h + [e])[..|h|] == h;
  }

  lemma AppendAssociative<T>(a: seq<T>, b: seq<T>, c: seq<T>)
    ensures a + b + c == a + (b + c)
  {
  }

  /** `ValidateSnoc` for the first `i + 1` entries of `h`. */
  lemma ValidateStep(h: Hash<Value>, i: nat, render: Value -> string)
    requires i < |h|
    ensures Validate(h[..i + 1]) ==
      if ValidOperation(h[i].1) then Put(Validate(h[..i]), h[i].0, FromPairs(h[i].1.members)) else Validate(h[..i])
    ensures ValidationErrors(h[..i + 1], render)
      == ValidationErrors(h[..i], render) + (if ValidOperation(h[i].1) then [] else [InvalidOperationError(render(h[i].1), h[i].0)])
  {
    assert h[..i + 1][..i] == h[..i];
  }

  /** One more name given to `require`/`permit`. */
  lemma PermitAllStep(v: FilterClause, p: FilterClause, names: seq<string>, i: nat)
    requires i < |names|
    ensures PermitAll(v, p, names[..i + 1]) == PermitOne(v, PermitAll(v, p, names[..i]), names[i])
    ensures MissingRequired(v, names[..i + 1])
      == MissingRequired(v, names[..i]) + (if names[i] in Keys(v) then [] else [MissingRequiredError(names[i])])
  {
    assert names[..i + 1][..i] == names[..i];
  }

  /** `permit` with the single name `name`. */
  lemma PermitSingle(v: FilterClause, p: FilterClause, name: string)
    ensures PermitAll(v, p, [name]) == PermitOne(v, p, name)
  {
    assert [name][..0] == [];
  }

  /** One more validated property checked for a warning. */
  lemma WarningsForStep(v: FilterClause, i: nat, p: FilterClause)
    requires i < |v|
    ensures WarningsFor(v[..i + 1], p) == WarningsFor(v[..i], p) + (if v[i].0 in Keys(p) then [] else [NotPermittedWarning(v[i].0)])
  {
    assert v[..i + 1][..i] == v[..i];
  }

  /** `p` holds no key twice and binds each key to what `v` binds it to. */
  ghost predicate SubHash(p: FilterClause, v: FilterClause) {
    Distinct(p) && forall i :: 0 <= i < |p| ==> Get(v, p[i].0) == Some(p[i].1)
  }

  lemma PermitOneKeepsSubHash(v: FilterClause, p: FilterClause, name: string)
    requires SubHash(p, v)
    ensures SubHash(PermitOne(v, p, name), v)
    ensures |PermitOne(v, p, name)| >= |p|
  {
    var op := Get(v, name);
    if op.Some? {
      PutDistinct(p, name, op.value);
      PutEntries(p, name, op.value);
      var r := Put(p, name, op.value);
      forall i | 0 <= i < |r| ensures Get(v, r[i].0) == Some(r[i].1) {
        if r[i] != (name, op.value) {
          var j :| 0 <= j < |p| && p[j] == r[i];
        }
      }
    }
  }

  lemma {:induction false} PermitAllKeepsSubHash(v: FilterClause, p: FilterClause, names: seq<string>)
    requires SubHash(p, v)
    ensures SubHash(PermitAll(v, p, names), v)
    ensures |PermitAll(v, p, names)| >= |p|
    decreases |names|
  {
    if names != [] {
      PermitAllKeepsSubHash(v, p, names[..|names| - 1]);
      PermitOneKeepsSubHash(v, PermitAll(v, p, names[..|names| - 1]), names[|names| - 1]);
    }
  }

  /** Every state the validator can be in after construction. */
  datatype QueryState = QueryState(errors: seq<string>, warnings: seq<string>, properties: FilterClause, clause: FilterClause)

  /** What `Query.new` leaves behind, step by step: decode, validate,
      require, permit, warn, check that something was permitted. */
  function Construct(where: Option<string>, parse: string -> Option<Value>, render: Value -> string,
                     required: seq<string>, permitted: seq<string>): (s: QueryState)
    ensures s.errors == [] ==> s.properties != []
    ensures Distinct(s.clause) && SubHash(s.properties, s.clause)
    ensures |s.warnings| <= |s.clause|
  {
    var text := WhereText(where);
    var parsed := ParsedClause(parse(text));
    var h := parsed.GetOr([]);
    var v := Validate(h);
    PermitAllKeepsSubHash(v, [], required);
    PermitAllKeepsSubHash(v, PermitAll(v, [], required), permitted);
    var properties := PermitAll(v, PermitAll(v, [], required), permitted);
    QueryState(
      DecodeErrors(text, parsed)
        + ValidationErrors(h, render)
        + MissingRequired(v, required)
        + (if properties == [] then [NOTHING_PERMITTED] else []),
      WarningsFor(v, properties),
      properties,
      v)
  }

  /** `JsDataRails::Query`. The store (`scope:`) is not held: `Scope` returns
      the argument the source passes to its `where`. */
  class Query {
    var errors: seq<string>
    var warnings: seq<string>
    /** `@properties`, as built by `require` and `permit`. */
    var properties: FilterClause
    /** `@js_data_clause`: the validated clause. */
    var jsDataClause: FilterClause

    /** The validated clause holds only supported operations, and
        `@properties` is a part of it. */
    ghost predicate Consistent()
      reads this`jsDataClause, this`properties
    {
      && Distinct(jsDataClause)
      && (forall i :: 0 <= i < |jsDataClause| ==> IsSupported(jsDataClause[i].1))
      && SubHash(properties, jsDataClause)
    }

    /** Consistent, and no error-free state has empty `@properties`. */
    ghost predicate Valid()
      reads this`jsDataClause, this`properties, this`errors
    {
      Consistent() && (errors == [] ==> properties != [])
    }

    /** `initialize`: everything happens here, eagerly. `parse` is the JSON
        parser and `render` Ruby's string form of a decoded value. */
    constructor (where: Option<string>, parse: string -> Option<Value>, render: Value -> string,
                 required: seq<string>, permitted: seq<string>)
      ensures Valid()
      ensures var s := Construct(where, parse, render, required, permitted);
        errors == s.errors && warnings == s.warnings && properties == s.properties && jsDataClause == s.clause
    {
      errors := [];
      warnings := [];
      properties := [];
      jsDataClause := [];
      new;
      Decode(WhereText(where), parse, render);
      ApplyPolicy(required, permitted);
    }

    /** The constructor's first half: decode the filter (a failure is an
        error and leaves an empty Hash) and validate it. */
    method Decode(text: string, parse: string -> Option<Value>, render: Value -> string)
      requires errors == []
      modifies this`errors, this`jsDataClause
      ensures var parsed := ParsedClause(parse(text));
        && errors == DecodeErrors(text, parsed) + ValidationErrors(parsed.GetOr([]), render)
        && jsDataClause == Validate(parsed.GetOr([]))
    {
      var parsed := ParsedClause(parse(text));
      if parsed.None? {
        errors := errors + [DecodeError(text)];
      }
      jsDataClause := ValidateInputClause(parsed.GetOr([]), render);
    }

    /** The constructor's second half: `require`, `permit`, the warnings and
        the nothing-permitted check. */
    method ApplyPolicy(required: seq<string>, permitted: seq<string>)
      requires Consistent() && properties == [] && warnings == []
      modifies this`errors, this`properties, this`warnings
      ensures Valid()
      ensures var p := PermitAll(jsDataClause, PermitAll(jsDataClause, [], required), permitted);
        && properties == p
        && errors == old(errors) + MissingRequired(jsDataClause, required) + (if p == [] then [NOTHING_PERMITTED] else [])
        && warnings == WarningsFor(jsDataClause, p)
    {
      Require(required);
      ghost var requireErrors := errors;
      Permit(permitted);
      WarnUnpermitted();
      assert Consistent() && warnings == WarningsFor(jsDataClause, properties);
      if NothingPermitted() {
        errors := errors + [NOTHING_PERMITTED];
      }
      assert errors == requireErrors + (if properties == [] then [NOTHING_PERMITTED] else []);
    }

    /** The constructor's warning loop: one warning per validated property
        missing from `@properties`. */
    method WarnUnpermitted()
      modifies this`warnings
      ensures warnings == old(warnings) + WarningsFor(jsDataClause, properties)
    {
      for i := 0 to |jsDataClause|
        invariant warnings == old(warnings) + WarningsFor(jsDataClause[..i], properties)
      {
        var property := jsDataClause[i].0;
        WarningsForStep(jsDataClause, i, properties);
        if property !in Keys(properties) {
          warnings := warnings + [NotPermittedWarning(property)];
          AppendAssociative(old(warnings), WarningsFor(jsDataClause[..i], properties), [NotPermittedWarning(property)]);
        }
      }
      assert jsDataClause[..|jsDataClause|] == jsDataClause;
    }

    /** `validate_input_clause`: keeps each valid operation, appends one error
        per invalid one. */
    method ValidateInputClause(parsed: Hash<Value>, render: Value -> string) returns (validated: FilterClause)
      modifies this`errors
      ensures validated == Validate(parsed)
      ensures errors == old(errors) + ValidationErrors(parsed, render)
    {
      validated := [];
      for i := 0 to |parsed|
        invariant validated == Validate(parsed[..i])
        invariant errors == old(errors) + ValidationErrors(parsed[..i], render)
      {
        var property := parsed[i].0;
        var operation := parsed[i].1;
        ValidateStep(parsed, i, render);
        if ValidOperation(operation) {
          validated := Put(validated, property, FromPairs(operation.members));
        } else {
          errors := errors + [InvalidOperationError(render(operation), property)];
          AppendAssociative(old(errors), ValidationErrors(parsed[..i], render), [InvalidOperationError(render(operation), property)]);
        }
      }
      assert parsed[..|parsed|] == parsed;
    }

    /** `require(*names)`: a name present in the validated clause is
        permitted, a missing one is an error. */
    method Require(names: seq<string>)
      requires Consistent()
      modifies this`errors, this`properties
      ensures Consistent()
      ensures old(Valid()) ==> Valid()
      ensures errors == old(errors) + MissingRequired(jsDataClause, names)
      ensures properties == PermitAll(jsDataClause, old(properties), names)
    {
      for i := 0 to |names|
        invariant Consistent()
        invariant |properties| >= |old(properties)|
        invariant errors == old(errors) + MissingRequired(jsDataClause, names[..i])
        invariant properties == PermitAll(jsDataClause, old(properties), names[..i])
      {
        PermitAllStep(jsDataClause, old(properties), names, i);
        ghost var missing := if names[i] in Keys(jsDataClause) then [] else [MissingRequiredError(names[i])];
        RequireOne(names[i]);
        AppendAssociative(old(errors), MissingRequired(jsDataClause, names[..i]), missing);
      }
      assert names[..|names|] == names;
    }

    /** One pass of `require`'s loop: permit a name present in the validated
        clause, report a missing one. */
    method RequireOne(property: string)
      requires Consistent()
      modifies this`errors, this`properties
      ensures Consistent()
      ensures |properties| >= |old(properties)|
      ensures errors == old(errors) + (if property in Keys(jsDataClause) then [] else [MissingRequiredError(property)])
      ensures properties == PermitOne(jsDataClause, old(properties), property)
    {
      if property in Keys(jsDataClause) {
        PermitSingle(jsDataClause, properties, property);
        Permit([property]);
      } else {
        errors := errors + [MissingRequiredError(property)];
      }
    }

    /** `permit(*names)`: each name present in the validated clause is copied
        into `@properties`. */
    method Permit(names: seq<string>)
      requires Consistent()
      modifies this`properties
      ensures Consistent()
      ensures |properties| >= |old(properties)|
      ensures properties == PermitAll(jsDataClause, old(properties), names)
    {
      for i := 0 to |names|
        invariant Consistent()
        invariant |properties| >= |old(properties)|
        invariant properties == PermitAll(jsDataClause, old(properties), names[..i])
      {
        var property := names[i];
        PermitAllStep(jsDataClause, old(properties), names, i);
        PermitOneKeepsSubHash(jsDataClause, properties, property);
        var operation := Get(jsDataClause, property);
        if operation.Some? {
          properties := Put(properties, property, operation.value);
        }
      }
      assert names[..|names|] == names;
    }

    /** `nothing_permitted?`. In a consistent state something is permitted
        only when the filter validated something. */
    predicate NothingPermitted()
      reads this
      ensures Consistent() && !NothingPermitted() ==> jsDataClause != []
    {
      assert Consistent() && properties != [] ==> Get(jsDataClause, properties[0].0).Some?;
      properties == []
    }

    /** `properties`: empty whenever there is an error (fail closed);
        otherwise a non-empty part of the validated clause whose every
        operation is supported. */
    function Properties(): (p: FilterClause)
      reads this
      requires Valid()
      ensures errors != [] ==> p == []
      ensures errors == [] ==> p == properties && p != [] && SubHash(p, jsDataClause)
      ensures forall i :: 0 <= i < |p| ==> IsSupported(p[i].1)
    {
      if errors != [] then []
      else
        SupportedPart(properties, jsDataClause);
        properties
    }

    /** `where_clause`: the compiler run over `properties`. */
    method WhereClause() returns (w: WhereArgument)
      requires Valid()
      ensures w == Compiled(Some(Properties()))
    {
      w := ActiveRecordWhereClause(Some(Properties()));
    }

    /** `scope`: the argument given to the store's `where`. Any error selects
        nothing; otherwise one comparison per permitted property, in
        `@properties` order, never the fallback. */
    method Scope() returns (w: WhereArgument)
      requires Valid()
      ensures errors != [] ==> w == SELECT_NOTHING
      ensures errors == [] ==> w == Parameterised(JoinAnd(Fragments(properties)), Values(properties))
      ensures errors == [] ==> |Fragments(properties)| == |Values(properties)| == |properties| > 0
    {
      if errors != [] {
        return SELECT_NOTHING;
      }
      w := WhereClause();
      SupportedCompiles(Properties());
    }
  }

  /** A part of a clause of supported operations holds only supported operations. */
  lemma SupportedPart(p: FilterClause, v: FilterClause)
    requires SubHash(p, v)
    requires forall i :: 0 <= i < |v| ==> IsSupported(v[i].1)
    ensures forall i :: 0 <= i < |p| ==> IsSupported(p[i].1)
  {
    forall i | 0 <= i < |p| ensures IsSupported(p[i].1) {
      assert (p[i].0, p[i].1) in v;
    }
  }

  /** A non-empty clause of supported operations compiles property by
      property: one fragment and one value each. */
  lemma SupportedCompiles(p: FilterClause)
    requires p != []
    requires forall i :: 0 <= i < |p| ==> IsSupported(p[i].1)
    ensures Compiled(Some(p)) == Parameterised(JoinAnd(Fragments(p)), Values(p))
    ensures |Fragments(p)| == |Values(p)| == |p|
  {
    forall i | 0 <= i < |p| ensures ClauseProperties.Compiles(p, i) {
      ClauseProperties.SupportedOperatorCompiles(p[i].0, p[i].1);
    }
    ClauseProperties.CompiledWhenEveryPropertyKnown(p);
  }
}
