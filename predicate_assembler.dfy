/**
 * The search closure of `apply`: for every resolved field, the value it is
 * searched for (from the field's own term or the default value), the
 * relation its name selects, and the where / orWhere / whereHas / orWhereHas
 * calls it emits into the grouped search condition.
 */
module PredicateAssembler {
  import opened Results
  import opened PhpStrings
  import opened PhpArrays
  import opened QueryOps
  import opened FieldResolver

  /** What the closure sees: the model's table, the parsed terms, the default
      value, the raw `searchJoin` parameter and the relations the model
      defines (whereHas throws on any other name, and the source catches it). */
  datatype SearchContext = SearchContext(
    table: string,
    data: seq<(string, Value)>,
    search: Option<string>,
    searchJoin: Option<string>,
    relations: set<string>)

  /** strtolower($searchJoin); strtolower(null) is "". */
  function JoinWord(ctx: SearchContext): string
  {
    ToLower(if ctx.searchJoin.Some? then ctx.searchJoin.value else "")
  }

  /** `strtolower($searchJoin) === 'or'`: the or… variants inside a field's calls. */
  predicate OrMode(ctx: SearchContext)
  {
    JoinWord(ctx) == "or"
  }

  /** `$modelForceAndWhere` (line 59). */
  predicate ForceAnd(ctx: SearchContext)
  {
    JoinWord(ctx) == "and"
  }

  predicate IsLike(cond: string)
  {
    cond == "like" || cond == "ilike"
  }

  function Wrap(s: string): string
  {
    "%" + s + "%"
  }

  /** The value a field is searched for before the in / between step (lines 71-87).
      Quirk (line 78): for a list term every element is the WHOLE list, and under
      like / ilike the list interpolates as "Array", so each is "%Array%". */
  function RawValue(found: Option<Value>, cond: string, search: Option<string>): (r: Option<Value>)
    ensures r.Some? && r.value.Arr? ==> |r.value.items| > 0
  {
    match found
    case Some(Arr(items)) =>
      if |items| == 0 then None
      else Some(Arr(seq(|items|, _ => if IsLike(cond) then Str(Wrap("Array")) else Arr(items))))
    case Some(Str(s)) => Some(Str(if IsLike(cond) then Wrap(s) else s))
    case None =>
      if search.Some? && cond != "in" && cond != "between" then
        Some(Str(if IsLike(cond) then Wrap(search.value) else search.value))
      else None
  }

  /** Lines 89-94: a name with a `.` after its first character is
      `relation.column`, the relation being every segment but the last. */
  function SplitRelation(name: string): (Option<string>, string)
  {
    if FoundAfterStart(name, '.') then
      var parts := Split(name, '.');
      (Some(Join(parts[..|parts| - 1], '.')), parts[|parts| - 1])
    else (None, name)
  }

  /** `explode(',', $value)`: null explodes like "", and an array is not a
      string (PHP 7 warns and yields null, here None). */
  function ExplodeOperand(v: Option<Value>): Option<seq<string>>
  {
    match v
    case None => Some([""])
    case Some(Str(s)) => Some(Split(s, ','))
    case Some(Arr(_)) => None
  }

  /** Lines 95-106: `in` and `between` turn the value into its comma pieces, and
      drop it when the first piece is blank or is the column's own name (`in`)
      or when there are fewer than two pieces (`between`). */
  function ShapeValue(cond: string, column: string, raw: Option<Value>): (r: Option<Value>)
    ensures (raw.Some? && raw.value.Arr? ==> |raw.value.items| > 0) ==> (r.Some? && r.value.Arr? ==> |r.value.items| > 0)
  {
    if cond == "in" then
      var pieces := ExplodeOperand(raw);
      if pieces.None? || Trim(pieces.value[0]) == "" || column == pieces.value[0] then None
      else Some(Arr(Strs(pieces.value)))
    else if cond == "between" then
      var pieces := ExplodeOperand(raw);
      if pieces.None? || |pieces.value| < 2 then None
      else Some(Arr(Strs(pieces.value)))
    else raw
  }

  /** One field of the loop after lines 64-106. */
  datatype FieldPlan = FieldPlan(relation: Option<string>, column: string, condition: string, value: Option<Value>)

  /** The value is looked up under the full name, before the relation is split off. */
  function PlanField(entry: (Key, string), ctx: SearchContext): (p: FieldPlan)
    ensures p.value.Some? && p.value.value.Arr? ==> |p.value.value.items| > 0
  {
    var name := EntryName(entry);
    var cond := Trim(ToLower(EntryCondition(entry)));
    var raw := RawValue(Get(ctx.data, name), cond, ctx.search);
    var (relation, column) := SplitRelation(name);
    FieldPlan(relation, column, cond, ShapeValue(cond, column, raw))
  }

  /** The calls for one condition in the where / whereHas branch and in the
      closure handed to whereHas and orWhereHas (lines 113-134, 140-151, 157-175). */
  function ConditionOps(column: string, cond: string, v: Value, orMode: bool): seq<Op>
  {
    if cond == "in" then [WhereIn(orMode, column, v)]
    else if cond == "between" then [WhereBetween(orMode, column, v)]
    else match v
      case Arr(items) => [Nested(seq(|items|, i requires 0 <= i < |items| => Where(orMode, column, cond, items[i])))]
      case Str(_) => [Where(false, column, cond, v)]
  }

  /** The calls for a plain column outside the first-field branch (lines 227-244).
      Quirk (line 238): each element of a list emits a condition on the whole list. */
  function LaterOps(column: string, cond: string, v: Value, orMode: bool): seq<Op>
  {
    if cond == "in" then [WhereIn(orMode, column, v)]
    else if cond == "between" then [WhereBetween(orMode, column, v)]
    else match v
      case Arr(items) => seq(|items|, _ => Where(orMode, column, cond, v))
      case Str(_) => [Where(orMode, column, cond, v)]
  }

  /** What one field emits; `andBranch` is `$isFirstField || $modelForceAndWhere`.
      A relation the model lacks falls back to the dotted column (the catch blocks). */
  function FieldOps(p: FieldPlan, andBranch: bool, ctx: SearchContext): seq<Op>
  {
    if p.value.None? then []
    else if p.relation.Some? then
      if p.relation.value in ctx.relations then
        [WhereHas(!andBranch, p.relation.value, ConditionOps(p.column, p.condition, p.value.value, OrMode(ctx)))]
      else ConditionOps(p.relation.value + "." + p.column, p.condition, p.value.value, OrMode(ctx))
    else if andBranch then ConditionOps(ctx.table + "." + p.column, p.condition, p.value.value, OrMode(ctx))
    else LaterOps(ctx.table + "." + p.column, p.condition, p.value.value, OrMode(ctx))
  }

  /** Every field's plan, in order. */
  function Plans(fields: Fields, ctx: SearchContext): (ps: seq<FieldPlan>)
    ensures |ps| == |fields|
    ensures forall i :: 0 <= i < |fields| ==> ps[i] == PlanField(fields[i], ctx)
  {
    var ps := seq(|fields|, i requires 0 <= i < |fields| => PlanField(fields[i], ctx));
    assert forall i :: 0 <= i < |fields| ==> ps[i] == PlanField(fields[i], ctx);
    ps
  }

  /** No field has a value, so `$isFirstField` is still set. */
  predicate NoneLive(plans: seq<FieldPlan>)
  {
    forall i :: 0 <= i < |plans| ==> plans[i].value.None?
  }

  /** The values are the ones PlanField produces: a list value is never empty. */
  predicate WellShaped(plans: seq<FieldPlan>)
  {
    forall i :: 0 <= i < |plans| ==> plans[i].value.Some? && plans[i].value.value.Arr? ==> |plans[i].value.value.items| > 0
  }

  /** The calls the closure makes for the planned fields, in order. */
  function Emitted(plans: seq<FieldPlan>, ctx: SearchContext): seq<Op>
  {
    if |plans| == 0 then []
    else
      var init := plans[..|plans| - 1];
      Emitted(init, ctx) + FieldOps(plans[|plans| - 1], NoneLive(init) || ForceAnd(ctx), ctx)
  }

  /** One more field: its calls follow the ones before it, and it clears the flag when it has a value. */
  lemma EmittedStep(plans: seq<FieldPlan>, i: int, ctx: SearchContext)
    requires 0 <= i < |plans|
    ensures Emitted(plans[..i + 1], ctx) == Emitted(plans[..i], ctx) + FieldOps(plans[i], NoneLive(plans[..i]) || ForceAnd(ctx), ctx)
    ensures NoneLive(plans[..i + 1]) == (NoneLive(plans[..i]) && plans[i].value.None?)
  {
    assert plans[..i + 1][..i] == plans[..i];
    assert plans[..i + 1][i] == plans[i];
  }

  /** The body of the loop for one field with a value (lines 108-246): which
      builder calls it makes, given the flag. */
  method EmitField(plan: FieldPlan, isFirstField: bool, ctx: SearchContext) returns (calls: seq<Op>)
    requires plan.value.Some?
    ensures calls == FieldOps(plan, isFirstField || ForceAnd(ctx), ctx)
  {
    var forceAnd := ForceAnd(ctx);
    var orMode := OrMode(ctx);
    var value := plan.value.value;
    if plan.relation.Some? {
      var relation := plan.relation.value;
      if relation in ctx.relations {
        var inner := ConditionOps(plan.column, plan.condition, value, orMode);
        calls := [WhereHas(!(isFirstField || forceAnd), relation, inner)];
      } else {
        calls := ConditionOps(relation + "." + plan.column, plan.condition, value, orMode);
      }
    } else if isFirstField || forceAnd {
      calls := ConditionOps(ctx.table + "." + plan.column, plan.condition, value, orMode);
    } else {
      calls := LaterOps(ctx.table + "." + plan.column, plan.condition, value, orMode);
    }
  }

  /** The closure of lines 61-249, over its `$query` trace and `$isFirstField` flag. */
  method AssembleSearch(fields: Fields, ctx: SearchContext) returns (ops: seq<Op>)
    ensures ops == Emitted(Plans(fields, ctx), ctx)
  {
    var plans := Plans(fields, ctx);
    var isFirstField := true;
    ops := [];
    var i := 0;
    while i < |fields|
      invariant 0 <= i <= |fields|
      invariant ops == Emitted(plans[..i], ctx)
      invariant isFirstField == NoneLive(plans[..i])
    {
      EmittedStep(plans, i, ctx);
      if plans[i].value.Some? {
        var calls := EmitField(plans[i], isFirstField, ctx);
        ops := ops + calls;
        isFirstField := false;
      }
      i := i + 1;
    }
    assert plans[..i] == plans;
  }

  // ---------------------------------------------------------------------------
  // Value shaping

  /** Under like / ilike a scalar term, or the default value, is searched as `%v%`;
      under any other condition it is searched as it is. */
  lemma ScalarValue(s: string, cond: string, search: Option<string>)
    ensures RawValue(Some(Str(s)), cond, search) == Some(Str(if IsLike(cond) then "%" + s + "%" else s))
    ensures search.Some? && cond != "in" && cond != "between" ==>
      RawValue(None, cond, search) == Some(Str(if IsLike(cond) then "%" + search.value + "%" else search.value))
  {
  }

  /** The default value never reaches an `in` or `between` field: without a term of
      its own such a field is dropped. */
  lemma InBetweenNeedTerm(entry: (Key, string), ctx: SearchContext)
    requires PlanField(entry, ctx).condition in {"in", "between"}
    requires EntryName(entry) !in Keys(ctx.data)
    ensures PlanField(entry, ctx).value.None?
  {
    var cond := PlanField(entry, ctx).condition;
    var raw := RawValue(Get(ctx.data, EntryName(entry)), cond, ctx.search);
    assert raw.None?;
    assert Split("", ',') == [""];
    assert Trim("") == "";
  }

  /** Quirk (line 78): a list term yields one element per item, every one of them
      the whole list, or "%Array%" under like / ilike. */
  lemma ListTermValue(items: seq<Value>, cond: string, search: Option<string>)
    requires |items| > 0
    ensures var r := RawValue(Some(Arr(items)), cond, search);
      && r.Some? && r.value.Arr? && |r.value.items| == |items|
      && forall i :: 0 <= i < |items| ==> r.value.items[i] == if IsLike(cond) then Str("%Array%") else Arr(items)
  {
  }

  /** An `in` value is kept exactly when its first comma piece is not blank and is
      not the column's name; the pieces glue back to the value. */
  lemma InGuard(column: string, s: string)
    ensures var first := Split(s, ',')[0];
      ShapeValue("in", column, Some(Str(s))).Some? <==> Trim(first) != "" && column != first
    ensures ShapeValue("in", column, Some(Str(s))).Some? ==>
      ShapeValue("in", column, Some(Str(s))) == Some(Arr(Strs(Split(s, ',')))) && Join(Split(s, ','), ',') == s
  {
    JoinSplit(s, ',');
  }

  /** A `between` value is kept exactly when it holds a comma. */
  lemma BetweenGuard(column: string, s: string)
    ensures ShapeValue("between", column, Some(Str(s))).Some? <==> ',' in s
    ensures ShapeValue("between", column, Some(Str(s))).Some? ==>
      ShapeValue("between", column, Some(Str(s))) == Some(Arr(Strs(Split(s, ',')))) && |Split(s, ',')| >= 2
  {
    if ',' in s {
      SplitHasSep(s, ',');
    } else {
      SplitNoSep(s, ',');
    }
  }

  /** A list term (or a missing value) never survives `in` or `between`. */
  lemma ListDroppedByInBetween(column: string, cond: string, items: seq<Value>)
    requires cond == "in" || cond == "between"
    ensures ShapeValue(cond, column, Some(Arr(items))).None?
    ensures ShapeValue(cond, column, None).None?
  {
    assert Split("", ',') == [""];
    assert Trim("") == "";
  }

  // ---------------------------------------------------------------------------
  // Relations and columns

  /** The relation split undoes itself: relation + "." + column is the name, the
      column holds no dot, and the relation is never empty. Without a dot after
      the first character the name is a plain column. */
  lemma SplitRelationParts(name: string)
    ensures var (relation, column) := SplitRelation(name);
      && (relation.Some? <==> FoundAfterStart(name, '.'))
      && (relation.Some? ==> relation.value + "." + column == name && '.' !in column && relation.value != "")
      && (relation.None? ==> column == name)
  {
    if FoundAfterStart(name, '.') {
      var parts := Split(name, '.');
      SplitHasSep(name, '.');
      JoinSnoc(parts, '.');
      JoinSplit(name, '.');
      var init := parts[..|parts| - 1];
      assert init[0] == parts[0];
      SplitFirstNonEmpty(name, '.');
      JoinFirst(init, '.');
    }
  }

  /** A non-empty `s` that does not start with `c` has a non-empty first piece under explode($c, $s). */
  lemma SplitFirstNonEmpty(s: string, c: char)
    requires |s| > 0 && s[0] != c
    ensures Split(s, c)[0] != ""
  {
  }

  /** implode starts with its first piece. */
  lemma {:induction false} JoinFirst(parts: seq<string>, c: char)
    requires |parts| >= 1
    ensures |Join(parts, c)| >= |parts[0]| && Join(parts, c)[..|parts[0]|] == parts[0]
  {
    if |parts| >= 2 {
      assert Join(parts, c) == parts[0] + ([c] + Join(parts[1..], c));
    }
  }

  /** Where each field's calls point: a plain column is qualified with the
      model's table; a relation the model has gets one whereHas (or orWhereHas
      outside the first-field branch) on the bare column; any other relation
      falls back to the dotted column. Every live field emits something. */
  lemma FieldColumns(p: FieldPlan, andBranch: bool, ctx: SearchContext)
    requires p.value.Some? && p.value.value.Arr? ==> |p.value.value.items| > 0
    ensures var ops := FieldOps(p, andBranch, ctx);
      && (p.value.Some? <==> |ops| > 0)
      && (p.relation.None? ==> forall i :: 0 <= i < |ops| ==> TargetsColumn(ops[i], ctx.table + "." + p.column))
      && (p.relation.Some? && p.relation.value !in ctx.relations ==>
            forall i :: 0 <= i < |ops| ==> TargetsColumn(ops[i], p.relation.value + "." + p.column))
      && (p.relation.Some? && p.relation.value in ctx.relations && p.value.Some? ==>
            |ops| == 1 && ops[0].WhereHas? && ops[0].relation == p.relation.value && ops[0].orJoin == !andBranch
            && forall i :: 0 <= i < |ops[0].ops| ==> TargetsColumn(ops[0].ops[i], p.column))
  {
  }

  // ---------------------------------------------------------------------------
  // The first-field flag and searchJoin

  /** Every plan PlanField makes is well shaped. */
  lemma PlansWellShaped(fields: Fields, ctx: SearchContext)
    ensures WellShaped(Plans(fields, ctx))
  {
  }

  /** How one field's calls are joined: under `searchJoin=and` (where the
      where / whereHas branch is taken) all are AND-joined; under any word but
      "or" only an orWhereHas is OR-joined. */
  lemma FieldJoins(p: FieldPlan, andBranch: bool, ctx: SearchContext)
    ensures ForceAnd(ctx) && andBranch ==> forall i :: 0 <= i < |FieldOps(p, andBranch, ctx)| ==> AndJoined(FieldOps(p, andBranch, ctx)[i])
    ensures !OrMode(ctx) ==> forall i :: 0 <= i < |FieldOps(p, andBranch, ctx)| ==>
      AndJoined(FieldOps(p, andBranch, ctx)[i]) || FieldOps(p, andBranch, ctx)[i].WhereHas?
  {
  }

  /** Fields without a value emit nothing, and a field with one emits something. */
  lemma {:induction false} DeadFieldsEmitNothing(plans: seq<FieldPlan>, ctx: SearchContext)
    requires WellShaped(plans)
    ensures Emitted(plans, ctx) == [] <==> NoneLive(plans)
    decreases |plans|
  {
    if |plans| > 0 {
      var init := plans[..|plans| - 1];
      assert forall i :: 0 <= i < |init| ==> init[i] == plans[i];
      DeadFieldsEmitNothing(init, ctx);
      FieldColumns(plans[|plans| - 1], NoneLive(init) || ForceAnd(ctx), ctx);
    }
  }

  /** The first field with a value goes through the where / whereHas branch, and
      everything the closure emits up to it is that field's calls. */
  lemma FirstLiveField(plans: seq<FieldPlan>, ctx: SearchContext, k: int)
    requires 0 <= k < |plans| && WellShaped(plans)
    requires NoneLive(plans[..k]) && plans[k].value.Some?
    ensures Emitted(plans[..k + 1], ctx) == FieldOps(plans[k], true, ctx)
  {
    assert plans[..k + 1][..k] == plans[..k];
    assert WellShaped(plans[..k]);
    DeadFieldsEmitNothing(plans[..k], ctx);
  }

  /** With `searchJoin=and` every call the closure makes is AND-joined. */
  lemma {:induction false} ForceAndAllAnd(plans: seq<FieldPlan>, ctx: SearchContext)
    requires ForceAnd(ctx)
    ensures forall i :: 0 <= i < |Emitted(plans, ctx)| ==> AndJoined(Emitted(plans, ctx)[i])
    decreases |plans|
  {
    if |plans| > 0 {
      var init := plans[..|plans| - 1];
      ForceAndAllAnd(init, ctx);
      FieldJoins(plans[|plans| - 1], true, ctx);
    }
  }

  /** Without `searchJoin` (or with any word but "or" / "and") the only OR-joined
      calls are orWhereHas calls of relation fields after the first one: later
      plain columns are AND-joined too. */
  lemma {:induction false} DefaultJoinOnlyRelationsOr(plans: seq<FieldPlan>, ctx: SearchContext)
    requires !OrMode(ctx)
    ensures forall i :: 0 <= i < |Emitted(plans, ctx)| ==>
      AndJoined(Emitted(plans, ctx)[i]) || Emitted(plans, ctx)[i].WhereHas?
    decreases |plans|
  {
    if |plans| > 0 {
      var init := plans[..|plans| - 1];
      DefaultJoinOnlyRelationsOr(init, ctx);
      FieldJoins(plans[|plans| - 1], NoneLive(init) || ForceAnd(ctx), ctx);
    }
  }

  /** With `searchJoin=or` a plain column after the first field is OR-joined in
      every call it makes. */
  lemma LaterPlainFieldOrJoined(p: FieldPlan, ctx: SearchContext)
    requires OrMode(ctx)
    requires p.relation.None?
    ensures forall i :: 0 <= i < |FieldOps(p, false, ctx)| ==> !AndJoined(FieldOps(p, false, ctx)[i])
  {
  }

  /** Quirk (line 238): a list value on a plain column after the first field,
      under a condition other than `in` / `between`, emits one clause per item,
      each bound to the WHOLE list, not to the item. */
  lemma LaterListBindsWholeList(p: FieldPlan, ctx: SearchContext)
    requires p.relation.None? && p.condition != "in" && p.condition != "between"
    requires p.value.Some? && p.value.value.Arr?
    ensures var ops := FieldOps(p, false, ctx);
      && |ops| == |p.value.value.items|
      && forall i :: 0 <= i < |ops| ==> ops[i] == Where(OrMode(ctx), ctx.table + "." + p.column, p.condition, p.value.value)
  {
  }
}
