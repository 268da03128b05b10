/** What the clause compiler promises, proved about `Clause.Compiled` and the
    functions it is built from. */
module ClauseProperties {
  import opened Wrappers
  import opened RubyHash
  import opened Json
  import opened JsDataRails
  import opened Clause

  /** The property at `c[i]` compiles: its operation's first key is a known operator. */
  predicate Compiles(c: FilterClause, i: int)
    requires 0 <= i < |c|
  {
    ClauseFor(c[i].0, FirstKey(c[i].1)).Some?
  }

  /** What one property adds to the fragments: its comparison, or nothing. */
  function FragmentOf(e: (string, FilterOperation)): seq<string> {
    match ClauseFor(e.0, FirstKey(e.1))
    case Some(f) => [f]
    case None => []
  }

  /** What one property adds to the values: its first value, or nothing. */
  function ValueOf(e: (string, FilterOperation)): seq<Value> {
    if ClauseFor(e.0, FirstKey(e.1)).Some? then [e.1[0].1] else []
  }

  lemma FragmentsSnoc(c: FilterClause, e: (string, FilterOperation))
    ensures Fragments(c + [e]) == Fragments(c) + FragmentOf(e)
    ensures Values(c + [e]) == Values(c) + ValueOf(e)
  {
    assert (c + [e])[..|c|] == c;
  }

  lemma SameCompilationSnoc(c: FilterClause, d: FilterClause, e: (string, FilterOperation))
    requires Fragments(c) == Fragments(d) && Values(c) == Values(d)
    ensures Fragments(c + [e]) == Fragments(d + [e]) && Values(c + [e]) == Values(d + [e])
  {
    FragmentsSnoc(c, e);
    FragmentsSnoc(d, e);
  }

  /** No compiled fragment for `c` when no property has a known operator, and
      conversely. */
  lemma NoFragmentsIff(c: FilterClause)
    ensures Fragments(c) == [] <==> forall i :: 0 <= i < |c| ==> !Compiles(c, i)
  {
    if j :| 0 <= j < |c| && Compiles(c, j) {
      SomeFragment(c, j);
    } else {
      NoFragment(c);
    }
  }

  lemma {:induction false} SomeFragment(c: FilterClause, j: nat)
    requires j < |c| && Compiles(c, j)
    ensures Fragments(c) != []
    decreases |c|
  {
    FragmentsLast(c);
    if j < |c| - 1 {
      assert c[..|c| - 1][j] == c[j];
      SomeFragment(c[..|c| - 1], j);
    }
  }

  lemma {:induction false} NoFragment(c: FilterClause)
    requires forall i :: 0 <= i < |c| ==> !Compiles(c, i)
    ensures Fragments(c) == []
    decreases |c|
  {
    if c != [] {
      var init := c[..|c| - 1];
      forall i | 0 <= i < |init| ensures !Compiles(init, i) {
        assert init[i] == c[i] && !Compiles(c, i);
      }
      NoFragment(init);
      FragmentsLast(c);
      assert !Compiles(c, |c| - 1);
    }
  }

  /** The compiler selects nothing exactly when the clause is nil, empty, or
      none of its properties uses a known operator. */
  lemma SelectNothingIff(jsDataClause: Option<FilterClause>)
    ensures Compiled(jsDataClause) == SELECT_NOTHING <==>
      jsDataClause.None? || forall i :: 0 <= i < |jsDataClause.value| ==> !Compiles(jsDataClause.value, i)
  {
    if jsDataClause.Some? {
      NoFragmentsIff(jsDataClause.value);
    }
  }

  /** `Fragments` unfolded once, on the last property. */
  lemma FragmentsLast(c: FilterClause)
    requires c != []
    ensures Fragments(c) == Fragments(c[..|c| - 1]) + FragmentOf(c[|c| - 1])
  {
  }

  /** `Values` unfolded once, on the last property. */
  lemma ValuesLast(c: FilterClause)
    requires c != []
    ensures Values(c) == Values(c[..|c| - 1]) + ValueOf(c[|c| - 1])
  {
  }

  /** Compiling a concatenation compiles each part in turn. */
  lemma {:induction false} FragmentsAppend(a: FilterClause, b: FilterClause)
    ensures Fragments(a + b) == Fragments(a) + Fragments(b)
    decreases |b|
  {
    if b == [] {
      assert a + b == a;
    } else {
      var init := b[..|b| - 1];
      FragmentsAppend(a, init);
      assert (a + b)[..|a + b| - 1] == a + init;
      assert (a + b)[|a + b| - 1] == b[|b| - 1];
      FragmentsLast(a + b);
      FragmentsLast(b);
    }
  }

  /** The values of a concatenation are those of each part in turn. */
  lemma {:induction false} ValuesAppend(a: FilterClause, b: FilterClause)
    ensures Values(a + b) == Values(a) + Values(b)
    decreases |b|
  {
    if b == [] {
      assert a + b == a;
    } else {
      var init := b[..|b| - 1];
      ValuesAppend(a, init);
      assert (a + b)[..|a + b| - 1] == a + init;
      assert (a + b)[|a + b| - 1] == b[|b| - 1];
      ValuesLast(a + b);
      ValuesLast(b);
    }
  }

  /** A property with an unknown operator adds neither a fragment nor a value:
      the rest of the clause compiles as if it were absent. */
  lemma SkipUnknownOperator(a: FilterClause, e: (string, FilterOperation), b: FilterClause)
    requires ClauseFor(e.0, FirstKey(e.1)).None?
    ensures Fragments(a + [e] + b) == Fragments(a + b)
    ensures Values(a + [e] + b) == Values(a + b)
  {
    FragmentsAppend(a + [e], b);
    FragmentsAppend(a, b);
    ValuesAppend(a + [e], b);
    ValuesAppend(a, b);
    FragmentsSnoc(a, e);
  }

  /** When every property uses a known operator, each contributes exactly one
      fragment and one value, at its own position. */
  lemma {:induction false} EveryPropertyCompiled(c: FilterClause)
    requires forall i :: 0 <= i < |c| ==> Compiles(c, i)
    ensures |Fragments(c)| == |c| && |Values(c)| == |c|
    ensures forall i :: 0 <= i < |c| ==> [Fragments(c)[i]] == FragmentOf(c[i]) && [Values(c)[i]] == ValueOf(c[i])
    decreases |c|
  {
    if c != [] {
      var init := c[..|c| - 1];
      assert forall i :: 0 <= i < |init| ==> Compiles(c, i) && init[i] == c[i];
      EveryPropertyCompiled(init);
      var last := c[|c| - 1];
      FragmentsLast(c);
      ValuesLast(c);
      assert Compiles(c, |c| - 1);
      assert |FragmentOf(last)| == 1 && |ValueOf(last)| == 1;
    }
  }

  /** Fragments of a clause compiled entirely, joined: the whole clause is
      `f1 AND f2 AND ... AND fn` with one value per property, never the
      fallback. */
  lemma CompiledWhenEveryPropertyKnown(c: FilterClause)
    requires c != []
    requires forall i :: 0 <= i < |c| ==> Compiles(c, i)
    ensures Compiled(Some(c)) == Parameterised(JoinAnd(Fragments(c)), Values(c))
    ensures |Fragments(c)| == |Values(c)| == |c|
  {
    EveryPropertyCompiled(c);
  }

  /** A filter operation whose first key is `==` or `in` compiles. */
  lemma SupportedOperatorCompiles(property: string, operation: FilterOperation)
    requires operation != [] && operation[0].0 in SUPPORTED_OPERATORS
    ensures ClauseFor(property, FirstKey(operation)).Some?
  {
  }

  /** Clauses over the same properties whose operations agree on their first
      operator/value pair (both empty, or the same first pair). */
  predicate SameFirstEntries(c: FilterClause, d: FilterClause) {
    && |c| == |d|
    && forall i :: 0 <= i < |c| ==>
         && c[i].0 == d[i].0
         && (c[i].1 == [] <==> d[i].1 == [])
         && (c[i].1 != [] ==> c[i].1[0] == d[i].1[0])
  }

  /** Only the first key of each filter operation is consulted: clauses that
      agree on every property's first operator/value pair compile alike. */
  lemma {:induction false} OnlyFirstKeyConsulted(c: FilterClause, d: FilterClause)
    requires SameFirstEntries(c, d)
    ensures Fragments(c) == Fragments(d) && Values(c) == Values(d)
    ensures Compiled(Some(c)) == Compiled(Some(d))
    decreases |c|
  {
    if c != [] {
      var n := |c| - 1;
      assert SameFirstEntries(c[..n], d[..n]);
      OnlyFirstKeyConsulted(c[..n], d[..n]);
      SameFirstEntryLast(c, d);
    }
  }

  lemma SameFirstEntryLast(c: FilterClause, d: FilterClause)
    requires c != [] && |c| == |d|
    requires Fragments(c[..|c| - 1]) == Fragments(d[..|d| - 1]) && Values(c[..|c| - 1]) == Values(d[..|d| - 1])
    requires var e, f := c[|c| - 1], d[|d| - 1];
      e.0 == f.0 && (e.1 == [] <==> f.1 == []) && (e.1 != [] ==> e.1[0] == f.1[0])
    ensures Fragments(c) == Fragments(d) && Values(c) == Values(d)
  {
    FragmentsLast(c);
    FragmentsLast(d);
    ValuesLast(c);
    ValuesLast(d);
    SameFirstEntry(c[|c| - 1], d[|d| - 1]);
  }

  lemma SameFirstEntry(e: (string, FilterOperation), f: (string, FilterOperation))
    requires e.0 == f.0 && (e.1 == [] <==> f.1 == []) && (e.1 != [] ==> e.1[0] == f.1[0])
    ensures FragmentOf(e) == FragmentOf(f) && ValueOf(e) == ValueOf(f)
  {
    assert FirstKey(e.1) == FirstKey(f.1);
  }

  /** When no property name contains `?`, the statement has exactly one
      placeholder per bound value. */
  lemma {:induction false} PlaceholdersMatchValues(c: FilterClause)
    requires forall i :: 0 <= i < |c| ==> '?' !in c[i].0
    ensures Occurrences('?', JoinAnd(Fragments(c))) == |Values(c)|
    decreases |c|
  {
    if c != [] {
      var n := |c| - 1;
      var init := c[..n];
      assert forall i :: 0 <= i < |init| ==> init[i] == c[i];
      PlaceholdersMatchValues(init);
      var f := ClauseFor(c[n].0, FirstKey(c[n].1));
      FragmentsLast(c);
      ValuesLast(c);
      if f.Some? {
        JoinAndSnoc(Fragments(init), f.value);
        NoPlaceholder(c[n].0);
        ClauseForShape(c[n].0, FirstKey(c[n].1));
        if Fragments(init) != [] {
          OccurrencesAppend('?', JoinAnd(Fragments(init)) + " AND ", f.value);
          OccurrencesAppend('?', JoinAnd(Fragments(init)), " AND ");
        }
      }
    }
  }

  lemma {:induction false} NoPlaceholder(s: string)
    requires '?' !in s
    ensures Occurrences('?', s) == 0
  {
    if s != [] {
      assert '?' !in s[1..];
      NoPlaceholder(s[1..]);
    }
  }

  // Worked cases of the compiler's own examples.

  /** `{foo: {"==": "bar"}}` compiles to `["foo = ?", "bar"]`. */
  lemma EqualsOperatorExample(property: string, v: Value)
    ensures Compiled(Some([(property, [("==", v)])])) == Parameterised(property + " = ?", [v])
  {
    var c := [(property, [("==", v)])];
    assert c[..0] == [];
  }

  /** `{foo: {in: [1,2,3]}}` compiles to `["foo in (?)", [1,2,3]]`: the list is
      one parameter, not flattened. */
  lemma InOperatorExample(property: string, items: seq<Value>)
    ensures Compiled(Some([(property, [("in", Array(items))])])) == Parameterised(property + " in (?)", [Array(items)])
  {
    var c := [(property, [("in", Array(items))])];
    assert c[..0] == [];
  }

  /** A lone unknown operator selects nothing. */
  lemma UnknownOperatorOnlyExample()
    ensures Compiled(Some([("foo", [("not_an_operator", Str("bar"))])])) == SELECT_NOTHING
  {
    var c := [("foo", [("not_an_operator", Str("bar"))])];
    assert c[..0] == [];
  }

  /** An unknown operator beside a known one is discarded. */
  lemma UnknownOperatorDiscardedExample()
    ensures Compiled(Some([("foo", [("not_an_operator", Array([Number(1), Number(2), Number(3)]))]),
                           ("bar", [("in", Array([Number(4), Number(5), Number(6)]))])]))
         == Parameterised("bar in (?)", [Array([Number(4), Number(5), Number(6)])])
  {
    var foo := ("foo", [("not_an_operator", Array([Number(1), Number(2), Number(3)]))]);
    var bar := ("bar", [("in", Array([Number(4), Number(5), Number(6)]))]);
    SkipUnknownOperator([], foo, [bar]);
    assert [] + [foo] + [bar] == [foo, bar];
    assert [] + [bar] == [bar];
    InOperatorExample("bar", [Number(4), Number(5), Number(6)]);
  }

  /** Four properties compile, in order, to one statement joined by " AND "
      and four parameters (`foo = ? AND baz = ? AND blah in (?) AND boogie in (?)`). */
  lemma MultipleClausesExample(p1: string, p2: string, p3: string, p4: string, v1: Value, v2: Value, v3: Value, v4: Value)
    ensures Compiled(Some([(p1, [("==", v1)]), (p2, [("==", v2)]), (p3, [("in", v3)]), (p4, [("in", v4)])]))
         == Parameterised(p1 + " = ?" + " AND " + p2 + " = ?" + " AND " + p3 + " in (?)" + " AND " + p4 + " in (?)",
                          [v1, v2, v3, v4])
  {
    FourEntries(p1, p2, p3, p4, v1, v2, v3, v4);
    JoinAndExample(p1 + " = ?", p2 + " = ?", p3 + " in (?)", p4 + " in (?)");
  }

  lemma FourEntries(p1: string, p2: string, p3: string, p4: string, v1: Value, v2: Value, v3: Value, v4: Value)
    ensures var c := [(p1, [("==", v1)]), (p2, [("==", v2)]), (p3, [("in", v3)]), (p4, [("in", v4)])];
      Fragments(c) == [p1 + " = ?", p2 + " = ?", p3 + " in (?)", p4 + " in (?)"] && Values(c) == [v1, v2, v3, v4]
  {
    var c := [(p1, [("==", v1)]), (p2, [("==", v2)]), (p3, [("in", v3)]), (p4, [("in", v4)])];
    EqualsEntry(p1, v1);
    EqualsEntry(p2, v2);
    InEntry(p3, v3);
    InEntry(p4, v4);
    assert forall i :: 0 <= i < |c| ==> Compiles(c, i);
    EveryPropertyCompiled(c);
    var fs := Fragments(c);
    assert [fs[0]] == FragmentOf(c[0]) && [fs[1]] == FragmentOf(c[1]);
    assert [fs[2]] == FragmentOf(c[2]) && [fs[3]] == FragmentOf(c[3]);
    var vs := Values(c);
    assert [vs[0]] == ValueOf(c[0]) && [vs[1]] == ValueOf(c[1]);
    assert [vs[2]] == ValueOf(c[2]) && [vs[3]] == ValueOf(c[3]);
  }

  lemma EqualsEntry(p: string, v: Value)
    ensures FragmentOf((p, [("==", v)])) == [p + " = ?"] && ValueOf((p, [("==", v)])) == [v]
  {
  }

  lemma InEntry(p: string, v: Value)
    ensures FragmentOf((p, [("in", v)])) == [p + " in (?)"] && ValueOf((p, [("in", v)])) == [v]
  {
  }

  lemma JoinAndExample(a: string, b: string, c: string, d: string)
    ensures JoinAnd([a, b, c, d]) == a + " AND " + b + " AND " + c + " AND " + d
  {
    assert [a, b, c, d][1..] == [b, c, d];
    assert [b, c, d][1..] == [c, d];
    assert [c, d][1..] == [d];
    assert JoinAnd([c, d]) == c + " AND " + d;
    assert JoinAnd([b, c, d]) == b + " AND " + (c + " AND " + d);
    assert JoinAnd([a, b, c, d]) == a + " AND " + (b + " AND " + (c + " AND " + d));
  }
}
