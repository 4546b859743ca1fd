/**
 * RequestCriteria::apply: the request parameters compiled, in a fixed order,
 * into builder calls: the grouped search condition, the order calls, the
 * projection, the eager loads and the eager counts.
 */
module RequestCriteria {
  import opened Results
  import opened PhpStrings
  import opened PhpArrays
  import opened QueryOps
  import opened SearchTerms
  import opened FieldResolver
  import opened PredicateAssembler
  import opened OrderCompiler

  /** The request parameters `apply` reads (lines 42-49); None is a parameter the
      request does not carry. */
  datatype RequestParams = RequestParams(
    search: Option<string>,
    searchFields: Option<string>,
    filter: Option<string>,
    orderBy: Option<string>,
    sortedBy: Option<string>,
    with: Option<string>,
    withCount: Option<string>,
    searchJoin: Option<string>)

  /** The repository and configuration inputs: the model's table, the searchable
      fields, the accepted conditions, the relations the model defines and the
      inflector's singular. */
  datatype Repository = Repository(
    table: string,
    fieldsSearchable: Fields,
    accepted: seq<string>,
    relations: set<string>,
    singular: string -> string)

  /** A parameter that is present and not empty in PHP's sense. */
  predicate Given(param: Option<string>)
  {
    param.Some? && Truthy(param.value)
  }

  /** Lines 46 and 50: a missing or empty `sortedBy` is "asc". */
  function EffectiveSortedBy(params: RequestParams): (d: string)
    ensures Given(params.sortedBy) ==> d == params.sortedBy.value
    ensures !Given(params.sortedBy) ==> d == "asc"
  {
    if Given(params.sortedBy) then params.sortedBy.value else "asc"
  }

  /** Line 54: a `searchFields` string is exploded on `;`. */
  function SearchFieldTokens(params: RequestParams): Option<seq<string>>
  {
    if params.searchFields.Some? then Some(Split(params.searchFields.value, ';')) else None
  }

  /** The search is compiled only when it is given and the repository declares
      searchable fields (line 52). */
  predicate Searches(repo: Repository, params: RequestParams)
  {
    Given(params.search) && |repo.fieldsSearchable| > 0
  }

  /** What the closure sees for a given search. */
  function ContextFor(repo: Repository, params: RequestParams): SearchContext
    requires params.search.Some?
  {
    SearchContext(repo.table, SearchData(params.search.value), SearchValue(params.search.value), params.searchJoin, repo.relations)
  }

  /** The calls after the search group (lines 252-281). */
  function TailOps(repo: Repository, params: RequestParams): seq<Op>
  {
    (if Given(params.orderBy) then OrderOps(repo.table, params.orderBy.value, EffectiveSortedBy(params), repo.singular) else [])
    + (if Given(params.filter) then [Select(Split(params.filter.value, ';'))] else [])
    + (if Given(params.with) then [With(Split(params.with.value, ';'))] else [])
    + (if Given(params.withCount) then [WithCount(Split(params.withCount.value, ';'))] else [])
  }

  /** Lines 52-250: the grouped search condition, or none, or the resolver's failure. */
  function SearchOps(repo: Repository, params: RequestParams): Result<seq<Op>, seq<string>>
  {
    if Searches(repo, params) then
      match FieldsSearch(repo.fieldsSearchable, SearchFieldTokens(params), repo.accepted)
      case Err(rejected) => Err(rejected)
      case Ok(fields) =>
        var ctx := ContextFor(repo, params);
        Ok([Nested(Emitted(Plans(fields, ctx), ctx))])
    else Ok([])
  }

  /** apply (lines 39-284). It fails, with the normalised `searchFields`, exactly
      when the field resolver finds no field to search. */
  function ApplySpec(repo: Repository, params: RequestParams): Result<seq<Op>, seq<string>>
  {
    match SearchOps(repo, params)
    case Err(rejected) => Err(rejected)
    case Ok(group) => Ok(group + TailOps(repo, params))
  }

  /** The search part of apply, step by step as lines 52-250 run it; SearchOps
      is the same computation as one expression. */
  method CompileSearch(repo: Repository, params: RequestParams) returns (r: Result<seq<Op>, seq<string>>)
    ensures r == SearchOps(repo, params)
  {
    if Given(params.search) && |repo.fieldsSearchable| > 0 {
      var searchFields := SearchFieldTokens(params);
      var resolved := ResolveSearchFields(repo.fieldsSearchable, searchFields, repo.accepted);
      if resolved.Err? {
        return Err(resolved.error);
      }
      var searchData := ParseSearchData(params.search.value);
      var search := SearchValue(params.search.value);
      var ctx := SearchContext(repo.table, searchData, search, params.searchJoin, repo.relations);
      var group := AssembleSearch(resolved.value, ctx);
      return Ok([Nested(group)]);
    }
    return Ok([]);
  }

  /** The part of apply after the search, step by step as lines 252-281 rebind
      `$model`; TailOps is the same computation as one expression. */
  method CompileTail(repo: Repository, params: RequestParams) returns (ops: seq<Op>)
    ensures ops == TailOps(repo, params)
  {
    ops := [];
    if Given(params.orderBy) {
      ops := CompileOrder(repo.table, params.orderBy.value, EffectiveSortedBy(params), repo.singular);
    }
    if Given(params.filter) {
      ops := ops + [Select(Split(params.filter.value, ';'))];
    }
    if Given(params.with) {
      ops := ops + [With(Split(params.with.value, ';'))];
    }
    if Given(params.withCount) {
      ops := ops + [WithCount(Split(params.withCount.value, ';'))];
    }
  }

  /** apply, step by step: the search group, then everything else. ApplySpec is
      the same computation as one expression, and the lemmas below are about it. */
  method Apply(repo: Repository, params: RequestParams) returns (r: Result<seq<Op>, seq<string>>)
    ensures r == ApplySpec(repo, params)
  {
    var search := CompileSearch(repo, params);
    if search.Err? {
      return Err(search.error);
    }
    var tail := CompileTail(repo, params);
    return Ok(search.value + tail);
  }

  /** Only the field resolver can make apply fail. */
  lemma ApplyFails(repo: Repository, params: RequestParams)
    ensures ApplySpec(repo, params).Err? <==>
      Searches(repo, params) && FieldsSearch(repo.fieldsSearchable, SearchFieldTokens(params), repo.accepted).Err?
  {
  }

  /** The search group comes first, and only when a search is compiled: the calls
      after it never hold a group. */
  lemma SearchGroupFirst(repo: Repository, params: RequestParams)
    requires ApplySpec(repo, params).Ok?
    ensures var ops := ApplySpec(repo, params).value;
      (Searches(repo, params) <==> |ops| > 0 && ops[0].Nested?)
      && forall i :: 0 < i < |ops| ==> !ops[i].Nested?
  {
    var tail := TailOps(repo, params);
    forall i | 0 <= i < |tail| ensures !tail[i].Nested? {
      TailOpsShape(repo, params, i);
    }
  }

  /** Every call after the group is an order call (join, orderBy or addSelect),
      a select, a with or a withCount. */
  lemma TailOpsShape(repo: Repository, params: RequestParams, i: int)
    requires 0 <= i < |TailOps(repo, params)|
    ensures var op := TailOps(repo, params)[i];
      op.LeftJoin? || op.OrderBy? || op.AddSelect? || op.Select? || op.With? || op.WithCount?
  {
    var order := if Given(params.orderBy) then OrderOps(repo.table, params.orderBy.value, EffectiveSortedBy(params), repo.singular) else [];
    if i < |order| {
      OrderOpsShape(repo.table, params.orderBy.value, EffectiveSortedBy(params), repo.singular, i);
    }
  }

  /** Order calls are joins, orderBys and re-selections. */
  lemma OrderOpsShape(base: string, orderBy: string, sortedBy: string, singular: string -> string, i: int)
    requires 0 <= i < |OrderOps(base, orderBy, sortedBy, singular)|
    ensures var op := OrderOps(base, orderBy, sortedBy, singular)[i];
      op.LeftJoin? || op.OrderBy? || op.AddSelect?
  {
    var tokens := Split(orderBy, ';');
    if |tokens| > 1 {
      TokensOpsShape(base, tokens, Split(sortedBy, ';'), singular, i);
    }
  }

  lemma {:induction false} TokensOpsShape(base: string, tokens: seq<string>, directions: seq<string>, singular: string -> string, i: int)
    requires |directions| >= 1
    requires 0 <= i < |TokensOps(base, tokens, directions, singular)|
    ensures var op := TokensOps(base, tokens, directions, singular)[i];
      op.LeftJoin? || op.OrderBy? || op.AddSelect?
    decreases |tokens|
  {
    var n := |tokens| - 1;
    var before := TokensOps(base, tokens[..n], directions, singular);
    if i < |before| {
      TokensOpsShape(base, tokens[..n], directions, singular, i);
    }
  }

  /** `filter`, `with` and `withCount` are handed over as their `;` pieces, which
      glue back to the parameter. */
  lemma ProjectionRoundTrip(repo: Repository, params: RequestParams)
    requires Given(params.filter)
    ensures exists i :: 0 <= i < |TailOps(repo, params)| && TailOps(repo, params)[i].Select? && Join(TailOps(repo, params)[i].columns, ';') == params.filter.value
  {
    var order := if Given(params.orderBy) then OrderOps(repo.table, params.orderBy.value, EffectiveSortedBy(params), repo.singular) else [];
    var tail := TailOps(repo, params);
    assert tail[|order|] == Select(Split(params.filter.value, ';'));
    JoinSplit(params.filter.value, ';');
  }

  /** The eager loads glue back to `with` and `withCount`. */
  lemma EagerLoadRoundTrip(repo: Repository, params: RequestParams)
    ensures Given(params.with) ==>
      exists i :: 0 <= i < |TailOps(repo, params)| && TailOps(repo, params)[i].With? && Join(TailOps(repo, params)[i].relations, ';') == params.with.value
    ensures Given(params.withCount) ==>
      exists i :: 0 <= i < |TailOps(repo, params)| && TailOps(repo, params)[i].WithCount? && Join(TailOps(repo, params)[i].relations, ';') == params.withCount.value
  {
    var tail := TailOps(repo, params);
    if Given(params.with) {
      JoinSplit(params.with.value, ';');
      var k := |tail| - 1 - (if Given(params.withCount) then 1 else 0);
      assert tail[k] == With(Split(params.with.value, ';'));
    }
    if Given(params.withCount) {
      JoinSplit(params.withCount.value, ';');
      assert tail[|tail| - 1] == WithCount(Split(params.withCount.value, ';'));
    }
  }

  /** A two-field request (searchable `f => like` and `g => =`, search
      `f:v;b`, nothing else): the first field is searched for `%v%`, the second
      for the default value `b`, and since no `searchJoin` is given the second
      condition is a plain `where`: the two are AND-joined. */
  lemma TermThenDefault(table: string, f: string, v: string, g: string, b: string,
                        accepted: seq<string>, relations: set<string>, singular: string -> string)
    requires |f| > 0 && f[0] != ':' && ':' !in f && ';' !in f && '.' !in f
    requires '.' !in g && f != g
    requires ':' !in v && ';' !in v && ':' !in b && ';' !in b
    ensures ApplySpec(
        Repository(table, [(StrKey(f), "like"), (StrKey(g), "=")], accepted, relations, singular),
        RequestParams(Some(f + ":" + v + ";" + b), None, None, None, None, None, None, None))
      == Ok([Nested([Where(false, table + "." + f, "like", Str("%" + v + "%")), Where(false, table + "." + g, "=", Str(b))])])
  {
    var fields := [(StrKey(f), "like"), (StrKey(g), "=")];
    var repo := Repository(table, fields, accepted, relations, singular);
    var search := f + ":" + v + ";" + b;
    var params := RequestParams(Some(search), None, None, None, None, None, None, None);
    var group := [Nested([Where(false, table + "." + f, "like", Str("%" + v + "%")), Where(false, table + "." + g, "=", Str(b))])];
    ScenarioSearchOps(repo, params, f, v, g, b);
    assert TailOps(repo, params) == [];
    assert ApplySpec(repo, params) == Ok(group + []);
    assert group + [] == group;
  }

  /** The two-field request's search group. */
  lemma ScenarioSearchOps(repo: Repository, params: RequestParams, f: string, v: string, g: string, b: string)
    requires |f| > 0 && f[0] != ':' && ':' !in f && ';' !in f && '.' !in f
    requires '.' !in g && f != g
    requires ':' !in v && ';' !in v && ':' !in b && ';' !in b
    requires repo.fieldsSearchable == [(StrKey(f), "like"), (StrKey(g), "=")]
    requires params.search == Some(f + ":" + v + ";" + b) && params.searchFields.None? && params.searchJoin.None?
    ensures SearchOps(repo, params) ==
      Ok([Nested([Where(false, repo.table + "." + f, "like", Str("%" + v + "%")), Where(false, repo.table + "." + g, "=", Str(b))])])
  {
    var fields := repo.fieldsSearchable;
    var search := f + ":" + v + ";" + b;
    ScenarioSearch(f, v, b);
    assert Truthy(search) by {
      assert search[|f|] == ':';
    }
    var ctx := ContextFor(repo, params);
    assert ctx == SearchContext(repo.table, [(f, Str(v))], Some(b), None, repo.relations);
    ScenarioPlans(fields, f, v, g, b, ctx);
    ScenarioEmitted(repo.table, f, v, g, b, repo.relations);
    assert FieldsSearch(fields, None, repo.accepted) == Ok(fields);
  }

  /** The two-field request's tokens. */
  lemma ScenarioTokens(f: string, v: string, b: string)
    requires ':' !in f && ';' !in f && ':' !in v && ';' !in v && ':' !in b && ';' !in b
    ensures Split(f + ":" + v + ";" + b, ';') == [f + ":" + v, b]
    ensures TermOf(f + ":" + v) == Some((f, Str(v)))
    ensures TermOf(b) == None
  {
    var term := f + ":" + v;
    assert ';' !in term;
    assert f + ":" + v + ";" + b == term + ";" + b;
    SplitConcat(term, ';', b);
    SplitNoSep(b, ';');
    SplitConcat(f, ':', v);
    SplitNoSep(v, ':');
    SplitNoSep(b, ':');
  }

  /** The two-field request's terms and default value. */
  lemma ScenarioSearch(f: string, v: string, b: string)
    requires |f| > 0 && f[0] != ':' && ':' !in f && ';' !in f && ':' !in v && ';' !in v && ':' !in b && ';' !in b
    ensures SearchData(f + ":" + v + ";" + b) == [(f, Str(v))]
    ensures SearchValue(f + ":" + v + ";" + b) == Some(b)
  {
    var search := f + ":" + v + ";" + b;
    ScenarioTokens(f, v, b);
    var tokens := [f + ":" + v, b];
    assert tokens[..1] == [f + ":" + v] && [f + ":" + v][..0] == [];
    assert Terms(tokens[..1]) == Put(Terms([]), f, Str(v));
    assert Put([], f, Str(v)) == [(f, Str(v))];
    assert Terms(tokens) == Terms(tokens[..1]);
    assert search[|f|] == ':';
    assert FoundAfterStart(search, ':');
    assert search[|f| + 1 + |v|] == ';';
    assert (f + ":" + v)[|f|] == ':';
    assert FirstBareIndex(tokens) == 1;
  }

  /** The two-field request's field plans. */
  lemma ScenarioPlans(fields: Fields, f: string, v: string, g: string, b: string, ctx: SearchContext)
    requires '.' !in f && '.' !in g && f != g
    requires fields == [(StrKey(f), "like"), (StrKey(g), "=")]
    requires ctx.data == [(f, Str(v))] && ctx.search == Some(b)
    ensures Plans(fields, ctx) == [FieldPlan(None, f, "like", Some(Str("%" + v + "%"))), FieldPlan(None, g, "=", Some(Str(b)))]
  {
    PlansOfTwo(fields[0], fields[1], ctx);
    ScenarioTermPlan(f, v, b, ctx);
    ScenarioDefaultPlan(f, v, g, b, ctx);
  }

  /** The plans of two fields. */
  lemma PlansOfTwo(first: (Key, string), second: (Key, string), ctx: SearchContext)
    ensures Plans([first, second], ctx) == [PlanField(first, ctx), PlanField(second, ctx)]
  {
  }

  /** The field with a term of its own: searched for `%v%`. */
  lemma ScenarioTermPlan(f: string, v: string, b: string, ctx: SearchContext)
    requires '.' !in f && ctx.data == [(f, Str(v))] && ctx.search == Some(b)
    ensures PlanField((StrKey(f), "like"), ctx) == FieldPlan(None, f, "like", Some(Str("%" + v + "%")))
  {
    PlainPlan(f, "like", ctx);
    assert Get(ctx.data, f) == Some(Str(v));
    ScenarioValues(v, b);
  }

  /** The field without a term: searched for the default value. */
  lemma ScenarioDefaultPlan(f: string, v: string, g: string, b: string, ctx: SearchContext)
    requires '.' !in g && f != g && ctx.data == [(f, Str(v))] && ctx.search == Some(b)
    ensures PlanField((StrKey(g), "="), ctx) == FieldPlan(None, g, "=", Some(Str(b)))
  {
    PlainPlan(g, "=", ctx);
    assert Get(ctx.data, g) == None;
    ScenarioValues(v, b);
  }

  /** The two-field request's values. */
  lemma ScenarioValues(v: string, b: string)
    ensures RawValue(Some(Str(v)), "like", Some(b)) == Some(Str("%" + v + "%"))
    ensures RawValue(None, "=", Some(b)) == Some(Str(b))
  {
    assert IsLike("like");
    assert !IsLike("=") && "=" != "in" && "=" != "between";
  }

  /** A plain (dot-free) field under a condition other than `in` / `between`,
      written in lower case without blanks, is planned as its raw value. */
  lemma PlainPlan(name: string, cond: string, ctx: SearchContext)
    requires '.' !in name && cond != "in" && cond != "between"
    requires forall i :: 0 <= i < |cond| ==> !('A' <= cond[i] <= 'Z') && !IsTrimChar(cond[i])
    ensures PlanField((StrKey(name), cond), ctx) == FieldPlan(None, name, cond, RawValue(Get(ctx.data, name), cond, ctx.search))
  {
    ToLowerIdentity(cond);
    TrimIdentity(cond);
    assert EntryName((StrKey(name), cond)) == name;
    assert EntryCondition((StrKey(name), cond)) == cond;
    SplitNoRelation(name);
  }

  /** A name without a dot names no relation. */
  lemma SplitNoRelation(name: string)
    requires '.' !in name
    ensures SplitRelation(name) == (None, name)
  {
  }

  /** The two-field request's calls: both plain `where`. */
  lemma ScenarioEmitted(table: string, f: string, v: string, g: string, b: string, relations: set<string>)
    ensures var ctx := SearchContext(table, [(f, Str(v))], Some(b), None, relations);
      Emitted([FieldPlan(None, f, "like", Some(Str("%" + v + "%"))), FieldPlan(None, g, "=", Some(Str(b)))], ctx)
        == [Where(false, table + "." + f, "like", Str("%" + v + "%")), Where(false, table + "." + g, "=", Str(b))]
  {
    var ctx := SearchContext(table, [(f, Str(v))], Some(b), None, relations);
    var plans := [FieldPlan(None, f, "like", Some(Str("%" + v + "%"))), FieldPlan(None, g, "=", Some(Str(b)))];
    assert JoinWord(ctx) == "";
    assert !OrMode(ctx) && !ForceAnd(ctx);
    assert plans[..1][..0] == [];
    assert NoneLive(plans[..1][..0]);
    assert "like" != "in" && "like" != "between";
    assert Emitted(plans[..1], ctx) == [] + FieldOps(plans[0], true, ctx);
    assert FieldOps(plans[0], true, ctx) == [Where(false, table + "." + f, "like", Str("%" + v + "%"))];
    assert !NoneLive(plans[..1]);
    assert "=" != "in" && "=" != "between";
    assert FieldOps(plans[1], false, ctx) == [Where(false, table + "." + g, "=", Str(b))];
    assert plans[..2] == plans;
  }
}
