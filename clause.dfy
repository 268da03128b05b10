/** The clause compiler (lib/js_data_rails/clause.rb): turns a Hash
    `property -> {operator => value}` into the argument of the store's
    `where`, either the select-nothing condition "1 = 0" or a parameterised
    statement `[statement, v1, v2, ...]`. */
module Clause {
  import opened Wrappers
  import opened RubyHash
  import opened Json
  import opened JsDataRails

  /** A filter operation as the compiler receives it: the Hash `{operator => value}`. */
  type FilterOperation = Hash<Value>

  /** `property -> filter operation`, in the Hash's iteration order. */
  type FilterClause = Hash<FilterOperation>

  /** What is handed to the store's `where`: a bare SQL string, or a statement
      with `?` placeholders followed by the values bound to them, in order. */
  datatype WhereArgument =
    | Sql(text: string)
    | Parameterised(statement: string, values: seq<Value>)

  /** `select_nothing_clause`: a condition no row satisfies. */
  const SELECT_NOTHING: WhereArgument := Sql("1 = 0")

  /** Number of occurrences of `c` in `s`. */
  function Occurrences(c: char, s: string): nat {
    if s == [] then 0 else (if s[0] == c then 1 else 0) + Occurrences(c, s[1..])
  }

  lemma {:induction false} OccurrencesAppend(c: char, a: string, b: string)
    ensures Occurrences(c, a + b) == Occurrences(c, a) + Occurrences(c, b)
  {
    if a != [] {
      assert (a + b)[1..] == a[1..] + b;
      OccurrencesAppend(c, a[1..], b);
    } else {
      assert a + b == b;
    }
  }

  /** `filter_operation.keys.first`: nil (None) for an empty Hash. */
  function FirstKey(operation: FilterOperation): (r: Option<string>)
    ensures r.Some? <==> operation != []
  {
    if operation == [] then None else Some(operation[0].0)
  }

  /** `active_record_clause_for`: the comparison for one property, with one
      `?` placeholder; None where the source raises UnknownOperator. */
  function ClauseFor(property: string, operator: Option<string>): (r: Option<string>)
    ensures r.Some? <==> operator.Some? && operator.value in SUPPORTED_OPERATORS
    ensures r.Some? ==> |r.value| > |property|
  {
    if operator == Some("==") then Some(property + " = ?")
    else if operator == Some("in") then Some(property + " in (?)")
    else None
  }

  /** Each comparison starts with the property name and carries exactly one
      placeholder beyond any in that name. */
  lemma ClauseForShape(property: string, operator: Option<string>)
    requires ClauseFor(property, operator).Some?
    ensures ClauseFor(property, operator).value[..|property|] == property
    ensures Occurrences('?', ClauseFor(property, operator).value) == Occurrences('?', property) + 1
  {
    var suffix := if operator == Some("==") then " = ?" else " in (?)";
    assert ClauseFor(property, operator).value == property + suffix;
    assert Occurrences('?', suffix) == 1 by {
      if operator == Some("==") {
        OneEqualsPlaceholder();
      } else {
        OneInPlaceholder();
      }
    }
    SuffixShape(property, suffix);
  }

  lemma OneEqualsPlaceholder()
    ensures Occurrences('?', " = ?") == 1
  {
  }

  lemma OneInPlaceholder()
    ensures Occurrences('?', " in (?)") == 1
  {
  }

  lemma SuffixShape(property: string, suffix: string)
    ensures (property + suffix)[..|property|] == property
    ensures Occurrences('?', property + suffix) == Occurrences('?', property) + Occurrences('?', suffix)
  {
    OccurrencesAppend('?', property, suffix);
  }

  /** `append_active_record_clause_to`: the statement extended by the
      property's comparison, prefixed " AND " unless the statement is still
      empty; None where the operator is unknown. */
  function AppendClauseTo(statement: string, property: string, operator: Option<string>): (r: Option<string>)
    ensures r.Some? <==> ClauseFor(property, operator).Some?
  {
    match ClauseFor(property, operator)
    case Some(clause) => Some(if statement == "" then clause else statement + " AND " + clause)
    case None => None
  }

  /** `js_data_clause_empty?`: nil or an empty Hash. Nil and `{}` are one
      case, and neither has anything to compile. */
  predicate JsDataClauseEmpty(jsDataClause: Option<FilterClause>)
    ensures JsDataClauseEmpty(jsDataClause) <==> |jsDataClause.GetOr([])| == 0
    ensures JsDataClauseEmpty(jsDataClause) ==> Fragments(jsDataClause.GetOr([])) == []
  {
    jsDataClause.None? || jsDataClause.value == []
  }

  /** The comparisons the compiler emits for `c`, one per property whose
      first key is a known operator, in iteration order. */
  function Fragments(c: FilterClause): (fs: seq<string>)
    ensures |fs| <= |c|
    ensures forall i :: 0 <= i < |fs| ==> fs[i] != ""
    decreases |c|
  {
    if c == [] then []
    else
      var init := Fragments(c[..|c| - 1]);
      match ClauseFor(c[|c| - 1].0, FirstKey(c[|c| - 1].1))
      case Some(f) => init + [f]
      case None => init
  }

  /** The values bound to the placeholders of `Fragments(c)`: for each
      compiled property, the value of its operation's first key. */
  function Values(c: FilterClause): (vs: seq<Value>)
    ensures |vs| <= |c|
    decreases |c|
  {
    if c == [] then []
    else
      var init := Values(c[..|c| - 1]);
      var operation := c[|c| - 1].1;
      if ClauseFor(c[|c| - 1].0, FirstKey(operation)).Some? then init + [operation[0].1]
      else init
  }

  /** One value per compiled fragment. */
  lemma {:induction false} ValuesMatchFragments(c: FilterClause)
    ensures |Values(c)| == |Fragments(c)|
    decreases |c|
  {
    if c != [] {
      ValuesMatchFragments(c[..|c| - 1]);
    }
  }

  /** Strings joined by " AND ": the first bare, each later one prefixed. */
  function JoinAnd(fs: seq<string>): (s: string)
    ensures fs != [] ==> |s| >= |fs[0]|
  {
    if fs == [] then ""
    else if |fs| == 1 then fs[0]
    else fs[0] + " AND " + JoinAnd(fs[1..])
  }

  lemma {:induction false} JoinAndSnoc(fs: seq<string>, f: string)
    ensures JoinAnd(fs + [f]) == if fs == [] then f else JoinAnd(fs) + " AND " + f
  {
    if |fs| > 1 {
      assert (fs + [f])[1..] == fs[1..] + [f];
      JoinAndSnoc(fs[1..], f);
    }
  }

  /** The result of `active_record_where_clause`, as a function of its input. */
  function Compiled(jsDataClause: Option<FilterClause>): (r: WhereArgument)
    ensures r.Sql? ==> r == SELECT_NOTHING
    ensures r.Parameterised? ==> r.statement != "" && r.values != []
  {
    if JsDataClauseEmpty(jsDataClause) || Fragments(jsDataClause.value) == [] then SELECT_NOTHING
    else
      ValuesMatchFragments(jsDataClause.value);
      Parameterised(JoinAnd(Fragments(jsDataClause.value)), Values(jsDataClause.value))
  }

  /** `active_record_where_clause`: walks the clause once, growing the
      statement and the value list; a property with an unknown operator is
      skipped; nothing compiled means select nothing. */
  method ActiveRecordWhereClause(jsDataClause: Option<FilterClause>) returns (r: WhereArgument)
    ensures r == Compiled(jsDataClause)
    ensures JsDataClauseEmpty(jsDataClause) ==> r == SELECT_NOTHING
  {
    if JsDataClauseEmpty(jsDataClause) {
      return SELECT_NOTHING;
    }
    var clause := jsDataClause.value;
    var statement := "";
    var values: seq<Value> := [];
    for i := 0 to |clause|
      invariant statement == JoinAnd(Fragments(clause[..i]))
      invariant values == Values(clause[..i])
    {
      var property := clause[i].0;
      var operation := clause[i].1;
      var operator := FirstKey(operation);
      var appended := AppendClauseTo(statement, property, operator);
      assert clause[..i + 1][..i] == clause[..i];
      if appended.Some? {
        JoinAndSnoc(Fragments(clause[..i]), ClauseFor(property, operator).value);
        statement := appended.value;
        values := values + [operation[0].1];
      }
    }
    assert clause[..|clause|] == clause;
    ValuesMatchFragments(clause);
    if statement == "" || values == [] {
      r := SELECT_NOTHING;
    } else {
      r := Parameterised(statement, values);
    }
  }
}
