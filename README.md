# js_data_rails filter validation and compilation, in Dafny

This project models the two components at the core of the `js_data_rails` gem.

- **The clause compiler** (`JsDataRails::Clause`). It turns an ordered Hash
  `property -> {operator => value}` into the argument of the store's `where`:
  - either the select-nothing condition `"1 = 0"`,
  - or a statement such as `"foo = ? AND bar in (?)"` followed by the bound values.

  Rules:
  - Only `==` and `in` compile.
  - A property with any other first key is skipped.
  - A nil or empty clause, or one where every property was skipped, selects nothing.
- **The query validator** (`JsDataRails::Query`). At construction it does all of these steps eagerly:
  - decodes the client's `where` text;
  - keeps the well-formed filter operations (a Hash with exactly one key, `==` or `in`) and reports the others;
  - enforces the required properties;
  - copies the required and permitted properties into `@properties`;
  - warns about validated properties that were not permitted;
  - reports "Nothing has been permitted" when `@properties` is empty.

  Errors and warnings accumulate and nothing is raised. Any error makes `properties` empty and `scope` select nothing.

Modules, one file each:

- `wrappers.dfy` (`Wrappers`): `Option`.
- `json.dfy` (`Json`): the decoded JSON value.
- `js_data_rails.dfy` (`JsDataRails`): `SUPPORTED_OPERATORS`.
- `ruby_hash.dfy` (`RubyHash`): Ruby's insertion-ordered Hash.
  - A Hash is a sequence of pairs.
  - `h[k] = v` keeps an existing key in place and appends a new one.
  - `h[k]` is nil (None) for a missing key.
- `clause.dfy` (`Clause`): the compiler.
  - `ActiveRecordWhereClause` is the source's loop, as a method.
  - The loop is proved against the function `Compiled`, which is built from `Fragments`, `Values` and `JoinAnd`.
- `clause_properties.dfy` (`ClauseProperties`): what the compiler promises, proved about `Compiled`.
- `query.dfy` (`Query`): the validator.
  - The class `Query` has the fields `errors`, `warnings`, `properties` and `jsDataClause`. Its methods update them in place, as the Ruby object does.
  - Each method's contract ties the new state to specification functions: `Validate`, `ValidationErrors`, `PermitAll`, `MissingRequired` and `WarningsFor`.
  - The constructor's contract gives the whole state as `Construct(...)`.
- `query_properties.dfy` (`QueryProperties`): what the validator promises, proved about those functions and about `Construct`.

Calls into code outside the core are parameters:

- `parse: string -> Option<Value>` stands for `JSON.parse`. None means the parser raised.
- `render: Value -> string` stands for Ruby's string form of a decoded operation inside the structural error message.
- The store is not called. `Scope` returns the argument the gem passes to `where`.

Three behaviours of the code worth knowing:

- An `in` operation's list is bound as one parameter, not flattened into the parameter list.
- A filter that does not decode, or that decodes to `{}`, does not produce only its own error. Each required property then also gets a "Missing required property" error, and "Nothing has been permitted" follows, because `@properties` is empty. `DecodeFailureFailsClosed` and `EmptyFilterFailsClosed` state the exact error lists.
- `permit` of a name that is already in `@properties` stores the same operation again. The key keeps its place and its value (`PutKeys`, `PropertiesContents`), so the name still appears once.

## Model

| member | source | states |
|---|---|---|
| Clause.FirstKey | lib/js_data_rails/clause.rb:46 | the operator is nil exactly when the filter operation is an empty Hash |
| Clause.ClauseFor | lib/js_data_rails/clause.rb:73-85 | a comparison is produced exactly when the operator is one of `SUPPORTED_OPERATORS` (`==`, `in`); otherwise the source raises UnknownOperator (None); the comparison is longer than the property name |
| Clause.ClauseForShape | lib/js_data_rails/clause.rb:75-78 | each comparison starts with the property name and adds exactly one `?` placeholder |
| Clause.AppendClauseTo | lib/js_data_rails/clause.rb:68-71 | the statement is extended exactly when the operator is known |
| Clause.JsDataClauseEmpty | lib/js_data_rails/clause.rb:87-89 | nil and the empty Hash are one case, and neither has a comparison to compile |
| Clause.Fragments | lib/js_data_rails/clause.rb:45-55 | at most one comparison per property, none of them empty |
| Clause.ValuesMatchFragments | lib/js_data_rails/clause.rb:48-54 | a value is bound exactly when a comparison is appended: as many values as comparisons |
| Clause.JoinAndSnoc | lib/js_data_rails/clause.rb:70 | appending a comparison adds it bare to an empty statement and `" AND "`-prefixed otherwise |
| Clause.Compiled | lib/js_data_rails/clause.rb:57-63 | the result is either exactly `"1 = 0"`, or a non-empty statement with a non-empty value list |
| Clause.ActiveRecordWhereClause | lib/js_data_rails/clause.rb:38-64 | the loop computes `Compiled` of its input; a nil or empty clause gives `"1 = 0"` |
| ClauseProperties.NoFragmentsIff | lib/js_data_rails/clause.rb:45-61 | no comparison is emitted exactly when no property has a known first operator |
| ClauseProperties.SelectNothingIff | lib/js_data_rails/clause.rb:38-64 | the compiler selects nothing exactly when the clause is nil, or no property compiles (the empty clause included) |
| ClauseProperties.FragmentsAppend | lib/js_data_rails/clause.rb:45-55 | compiling a concatenation emits the comparisons of each part, in order |
| ClauseProperties.ValuesAppend | lib/js_data_rails/clause.rb:45-55 | the values of a concatenation are those of each part, in order |
| ClauseProperties.SkipUnknownOperator | lib/js_data_rails/clause.rb:48-54 | a property with an unknown operator adds neither comparison nor value; the rest compiles as if it were absent |
| ClauseProperties.EveryPropertyCompiled | lib/js_data_rails/clause.rb:45-55 | when every operator is known, the i-th comparison and the i-th value come from the i-th property |
| ClauseProperties.CompiledWhenEveryPropertyKnown | lib/js_data_rails/clause.rb:57-63 | a non-empty clause of known operators compiles to the joined comparisons with one value per property, never the fallback |
| ClauseProperties.SupportedOperatorCompiles | lib/js_data_rails/clause.rb:73-78 | an operation whose first key is `==` or `in` compiles |
| ClauseProperties.OnlyFirstKeyConsulted | lib/js_data_rails/clause.rb:46 | clauses that agree on each property's first operator/value pair compile identically |
| ClauseProperties.PlaceholdersMatchValues | lib/js_data_rails/clause.rb:49-50 | when no property name contains `?`, the statement has exactly one placeholder per bound value |
| ClauseProperties.EqualsOperatorExample | spec/lib/clause_spec.rb:14-20 | `{p: {"==": v}}` compiles to `["p = ?", v]` |
| ClauseProperties.InOperatorExample | spec/lib/clause_spec.rb:22-28 | `{p: {in: list}}` compiles to `["p in (?)", list]`, the list one parameter |
| ClauseProperties.UnknownOperatorOnlyExample | spec/lib/clause_spec.rb:31-37 | `{foo: {not_an_operator: "bar"}}` selects nothing |
| ClauseProperties.UnknownOperatorDiscardedExample | spec/lib/clause_spec.rb:39-50 | the unknown operator is discarded and `bar in (?)` with `[4,5,6]` remains |
| ClauseProperties.MultipleClausesExample | spec/lib/clause_spec.rb:53-72 | four properties compile to `p1 = ? AND p2 = ? AND p3 in (?) AND p4 in (?)` with their four values in order |
| RubyHash.Get | lib/js_data_rails/query.rb:52 | `h[k]` is nil exactly when `k` is not a key; otherwise it is a value bound to `k` in `h`, the one at `k`'s position when keys are distinct |
| RubyHash.Put | lib/js_data_rails/query.rb:52 | `h[k] = v` adds at most one entry |
| RubyHash.PutKeys | lib/js_data_rails/query.rb:52 | `h[k] = v` leaves the keys unchanged and in place when `k` is present, and otherwise adds exactly `k` |
| RubyHash.PutNew | lib/js_data_rails/query.rb:83 | a new key is appended at the end |
| RubyHash.PutGet | lib/js_data_rails/query.rb:52 | after `h[k] = v`, `h[k]` is `v` and every other key reads as before |
| RubyHash.PutDistinct | lib/js_data_rails/query.rb:52 | `h[k] = v` never duplicates a key |
| RubyHash.FromPairs | lib/js_data_rails/query.rb:19 | the Hash an object decodes to holds no key twice |
| RubyHash.FromPairsOfDistinct | lib/js_data_rails/query.rb:19 | an object without repeated keys decodes to exactly its members, in order |
| RubyHash.GetSnoc | lib/js_data_rails/query.rb:52 | looking a key up after appending a pair: an earlier binding wins, otherwise the new pair, otherwise nil |
| Query.WhereText | lib/js_data_rails/query.rb:16 | an absent `where` reads as the text `{}`; a present one is used as given |
| Query.ParsedClause | lib/js_data_rails/query.rb:18-23 | the filter decodes to a Hash exactly when the parser returned an object, and that Hash has distinct keys |
| Query.ValidOperation | lib/js_data_rails/query.rb:92-99 | a valid operation is a non-empty object whose only operator compiles for any property |
| Query.Validate | lib/js_data_rails/query.rb:80-90 | the validated clause has distinct keys and only single-key `==`/`in` operations |
| Query.ValidationErrors | lib/js_data_rails/query.rb:81-89 | at most one structural error per decoded entry |
| Query.PermitOne | lib/js_data_rails/query.rb:51-53 | permitting a name the validated clause has makes it a key of `@properties`; at most one entry is added |
| Query.PermitAll | lib/js_data_rails/query.rb:50-54 | `permit(*names)` adds at most one entry per name and removes none |
| Query.MissingRequired | lib/js_data_rails/query.rb:40-48 | at most one missing-required error per listed name |
| Query.WarningsFor | lib/js_data_rails/query.rb:32-35 | at most one warning per validated property |
| Query.Construct | lib/js_data_rails/query.rb:7-38 | an error-free object has permitted something; the validated clause has distinct keys and `@properties` is a part of it; no more warnings than validated properties |
| Query.Query.NothingPermitted | lib/js_data_rails/query.rb:76-78 | in a consistent object, something is permitted only when the filter validated something |
| Query.Query.constructor | lib/js_data_rails/query.rb:7-38 | the new object's errors, warnings, properties and validated clause are those of `Construct`; the object is consistent, and an error-free object has permitted something |
| Query.Query.Decode | lib/js_data_rails/query.rb:16-27 | one decode error when the text is not a JSON object; then the validation errors and the validated clause of the decoded Hash (empty on failure) |
| Query.Query.ApplyPolicy | lib/js_data_rails/query.rb:29-37 | require, then permit, then the warnings, then "Nothing has been permitted" exactly when `@properties` is empty |
| Query.Query.WarnUnpermitted | lib/js_data_rails/query.rb:32-35 | appends one warning per validated property not in `@properties`, in validated order |
| Query.Query.ValidateInputClause | lib/js_data_rails/query.rb:80-90 | the loop returns `Validate` of its input and appends its `ValidationErrors` |
| Query.Query.Require | lib/js_data_rails/query.rb:40-48 | appends one "Missing required property" error per absent name, in order; permits each present name; keeps the object consistent and valid |
| Query.Query.RequireOne | lib/js_data_rails/query.rb:41-47 | one name: permitted when present in the validated clause, reported as missing otherwise |
| Query.Query.Permit | lib/js_data_rails/query.rb:50-54 | copies each present name's operation into `@properties`; absent names change nothing; `@properties` stays part of the validated clause |
| Query.Query.Properties | lib/js_data_rails/query.rb:56-58 | empty whenever there is an error; otherwise `@properties`, non-empty, part of the validated clause, every operation supported |
| Query.Query.WhereClause | lib/js_data_rails/query.rb:72-74 | the compiler's result over `properties` |
| Query.Query.Scope | lib/js_data_rails/query.rb:60-64 | `"1 = 0"` whenever there is an error; otherwise one comparison and one value per permitted property, never the fallback |
| Query.SupportedPart | lib/js_data_rails/query.rb:92-99 | a part of a clause of supported operations holds only supported operations |
| Query.SupportedCompiles | lib/js_data_rails/query.rb:60-63 | a non-empty clause of supported operations compiles to one comparison and one value per property |
| Query.PermitOneKeepsSubHash | lib/js_data_rails/query.rb:52 | permitting one name keeps `@properties` a part of the validated clause and never shrinks it |
| QueryProperties.ValidateIsFilter | lib/js_data_rails/query.rb:80-90 | on a decoded Hash the validated clause is exactly its valid entries, in input order |
| QueryProperties.ValidateKeys | lib/js_data_rails/query.rb:80-90 | validation introduces no property the input did not have |
| QueryProperties.ValidateGet | lib/js_data_rails/query.rb:81-89 | a property is kept exactly when its operation is valid, bound to that operation |
| QueryProperties.ValidationPartition | lib/js_data_rails/query.rb:81-89 | every entry is either kept or reported, never both and never neither |
| QueryProperties.InvalidEntryReported | lib/js_data_rails/query.rb:84-86 | each invalid entry is reported with its rendered operation and its property |
| QueryProperties.ValidationErrorsAreStructural | lib/js_data_rails/query.rb:85 | every validation error is non-empty and begins with `F`, as "Filter operation ..." does, so none of them is "Nothing has been permitted" |
| QueryProperties.PermitAllKeys | lib/js_data_rails/query.rb:50-54 | after `permit`, the keys are the old ones plus every given name that the validated clause has |
| QueryProperties.RequireThenPermit | lib/js_data_rails/query.rb:29-30 | `require(*rs)` then `permit(*ps)` builds the same `@properties` as permitting `rs + ps` |
| QueryProperties.PropertiesContents | lib/js_data_rails/query.rb:40-54 | `@properties` has no key twice, binds each key to its validated operation, and its keys are exactly the required or permitted names present in the validated clause |
| QueryProperties.MissingRequiredIff | lib/js_data_rails/query.rb:40-48 | no missing-required error exactly when every required name is validated; each missing one is reported by name |
| QueryProperties.AllMissing | lib/js_data_rails/query.rb:41-46 | on an empty validated clause, the i-th error names the i-th required property |
| QueryProperties.PermitNothing | lib/js_data_rails/query.rb:50-54 | nothing can be permitted from an empty validated clause |
| QueryProperties.MissingRequiredErrorsStartWithM | lib/js_data_rails/query.rb:45 | every missing-required error is non-empty and begins with `M`, so none of them is "Nothing has been permitted" |
| QueryProperties.NotPermittedWarningInjective | lib/js_data_rails/query.rb:34 | distinct properties get distinct warnings |
| QueryProperties.WarningsIff | lib/js_data_rails/query.rb:32-35 | a warning is issued for a property exactly when it was validated but not permitted |
| QueryProperties.FullyPermittedNoWarnings | lib/js_data_rails/query.rb:32-35 | no warning when every validated property is permitted |
| QueryProperties.NothingPermittedIff | lib/js_data_rails/query.rb:37 | "Nothing has been permitted" is reported exactly when `@properties` is empty, and always when nothing is required or permitted |
| QueryProperties.DecodeFailureFailsClosed | lib/js_data_rails/query.rb:18-23 | undecodable text: exactly the decode error, then one error per required name, then "Nothing has been permitted"; no property, no warning |
| QueryProperties.EmptyFilterFailsClosed | lib/js_data_rails/query.rb:16-37 | the filter `{}`: one missing-required error per required name, in order, then "Nothing has been permitted" |
| QueryProperties.StructuralErrorFailsClosed | lib/js_data_rails/query.rb:80-90 | an invalid operation is reported and its property dropped from the validated clause |
| QueryProperties.SuccessPath | lib/js_data_rails/query.rb:56-64 | with no error, `@properties` is non-empty and part of the validated clause, holds only supported operations, and compiles to one comparison and value per property |
| QueryProperties.RequiredEqualsScenario | spec/lib/query_spec.rb:88-101 | `{p: {"==": x}}` with `p` required: no error or warning, properties `{p: {"==": x}}`, store argument `["p = ?", x]` |
| QueryProperties.UnpermittedPropertyScenario | spec/lib/query_spec.rb:103-119 | `{b: {"==": y}, a: {"==": x}}` with only `a` permitted: no error, one warning for `b`, properties `{a: ...}`, store argument `["a = ?", x]` |

## Left out

- `params.require("where")` and its ActionController::ParameterMissing (lib/js_data_rails/query.rb:15). The `where` parameter is an `Option<string>`.
- `JSON.parse` (lib/js_data_rails/query.rb:19) is the `parse` parameter.
  - `deep_symbolize_keys` raising on a value that is not a Hash is modelled by `Query.ParsedClause`, which gives None for any value that is not an object.
  - The symbolizing of keys is not modelled: symbol keys are strings.
  - A JSON number is an `int`; floats are not modelled.
  - Objects nested inside bound values keep their member list as written.
- Ruby's string form of a Hash in the structural error message (lib/js_data_rails/query.rb:85) is the `render` parameter.
- The store object `@scope` and its `where` (lib/js_data_rails/query.rb:60-64). `Scope` returns the argument the gem would pass.
- `Enumerable`/`each` (lib/js_data_rails/query.rb:3, 66-68) only delegates to the store.
- The `UnknownOperator` exception (lib/js_data_rails.rb:8, lib/js_data_rails/clause.rb:48-54, 83) is modelled as `None`. Its message is not modelled.
- The typing excludes a filter operation in the compiler that is not a Hash, which would raise NoMethodError in Ruby. The validator never passes one.
- The loading of the gem's files (lib/js_data_rails.rb:1-5) is not modelled.
- QueryProperties.PropertiesContents: characterises `@properties` by its keys and values, not by their order. The order (each name where it is first required or permitted) is fixed by `PermitAll` and `RubyHash.Put`, but no lemma states it separately.
- QueryProperties.ValidationErrorsAreStructural, QueryProperties.MissingRequiredErrorsStartWithM: state only the first letter of each message. That is what separating them from "Nothing has been permitted" needs; the messages themselves are the functions `InvalidOperationError` and `MissingRequiredError`.
