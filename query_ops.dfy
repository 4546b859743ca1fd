/**
 * The query builder as an emitted trace: every builder call the criteria
 * makes becomes one `Op`, and a closure handed to the builder becomes the
 * list of calls it makes on its own (nested) query.
 */
module QueryOps {

  /** A value bound into a condition, as PHP holds it: a string or an array. */
  datatype Value = Str(s: string) | Arr(items: seq<Value>)

  /** The strings of an exploded list, as an array value. */
  function Strs(parts: seq<string>): (r: seq<Value>)
    ensures |r| == |parts|
    ensures forall i :: 0 <= i < |parts| ==> r[i] == Str(parts[i])
  {
    seq(|parts|, i requires 0 <= i < |parts| => Str(parts[i]))
  }

  /** One builder call. `orJoin` tells the `or…` variant (orWhere, orWhereIn,
      orWhereBetween, orWhereHas) from the plain one. */
  datatype Op =
    | Where(orJoin: bool, column: string, operator: string, operand: Value)
    | WhereIn(orJoin: bool, column: string, operand: Value)
    | WhereBetween(orJoin: bool, column: string, operand: Value)
      /** `$query->where(function ($query) { … })`: a parenthesised AND group */
    | Nested(ops: seq<Op>)
      /** `whereHas` / `orWhereHas($relation, function ($query) { … })` */
    | WhereHas(orJoin: bool, relation: string, ops: seq<Op>)
    | LeftJoin(table: string, first: string, operator: string, second: string)
    | OrderBy(column: string, direction: string)
    | AddSelect(column: string)
    | Select(columns: seq<string>)
    | With(relations: seq<string>)
    | WithCount(relations: seq<string>)

  /** The call joins its condition to the ones before it with AND. */
  predicate AndJoined(op: Op)
  {
    match op
    case Where(orJoin, _, _, _) => !orJoin
    case WhereIn(orJoin, _, _) => !orJoin
    case WhereBetween(orJoin, _, _) => !orJoin
    case WhereHas(orJoin, _, _) => !orJoin
    case _ => true
  }

  /** The call is a condition on `column` (a nested group: all of its conditions are). */
  predicate TargetsColumn(op: Op, column: string)
  {
    match op
    case Where(_, c, _, _) => c == column
    case WhereIn(_, c, _) => c == column
    case WhereBetween(_, c, _) => c == column
    case Nested(ops) => forall i :: 0 <= i < |ops| ==> TargetsColumn(ops[i], column)
    case _ => false
  }
}
