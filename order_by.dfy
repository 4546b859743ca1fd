/**
 * The `orderBy` / `sortedBy` parameters: each `;`-separated order token is
 * a column, or `table|column` (ordering by a column of a left-joined table,
 * with the join keys spelled `table:key|column` or `table:local,remote|column`),
 * paired with its sort direction.
 */
module OrderCompiler {
  import opened PhpStrings
  import opened QueryOps

  /** parserFieldsOrderBy (lines 292-338). `singular` stands for Str::singular. Only
      the first two `|` pieces, the first two `:` pieces and the first two `,`
      pieces are read. */
  function OrderByOps(base: string, token: string, direction: string, singular: string -> string): seq<Op>
  {
    var split := Split(token, '|');
    if |split| > 1 then
      var sortTable := split[0];
      var sortColumn := split[1];
      var tableParts := Split(sortTable, ':');
      var joinTable := if |tableParts| > 1 then tableParts[0] else sortTable;
      var commaExp := if |tableParts| > 1 then Split(tableParts[1], ',') else [];
      var keyName :=
        if |tableParts| <= 1 then base + "." + singular(sortTable) + "_id"
        else if |commaExp| > 1 then base + "." + commaExp[0]
        else base + "." + tableParts[1];
      var localKey := if |commaExp| > 1 then "." + commaExp[1] else ".id";
      [LeftJoin(joinTable, keyName, "=", joinTable + localKey), OrderBy(sortColumn, direction), AddSelect(base + ".*")]
    else [OrderBy(token, direction)]
  }

  /** A token without `|` orders by itself. */
  lemma PlainOrder(base: string, token: string, direction: string, singular: string -> string)
    requires '|' !in token
    ensures OrderByOps(base, token, direction, singular) == [OrderBy(token, direction)]
  {
    SplitNoSep(token, '|');
  }

  /** `table|column` joins `base.<singular of table>_id = table.id`, orders by the
      column as written (not qualified by the joined table) and re-selects `base.*`. */
  lemma JoinByConvention(base: string, table: string, column: string, direction: string, singular: string -> string)
    requires '|' !in table && ':' !in table && '|' !in column
    ensures OrderByOps(base, table + "|" + column, direction, singular) ==
      [LeftJoin(table, base + "." + singular(table) + "_id", "=", table + ".id"), OrderBy(column, direction), AddSelect(base + ".*")]
  {
    SplitConcat(table, '|', column);
    SplitNoSep(column, '|');
    SplitNoSep(table, ':');
  }

  /** `table:key|column` joins `base.key = table.id`: the key names a column of the
      BASE table, and the joined side stays `id`. */
  lemma JoinByLocalKey(base: string, table: string, key: string, column: string, direction: string, singular: string -> string)
    requires '|' !in table && ':' !in table && '|' !in key && ':' !in key && ',' !in key && '|' !in column
    ensures OrderByOps(base, table + ":" + key + "|" + column, direction, singular) ==
      [LeftJoin(table, base + "." + key, "=", table + ".id"), OrderBy(column, direction), AddSelect(base + ".*")]
  {
    var sortTable := table + ":" + key;
    assert '|' !in sortTable;
    assert table + ":" + key + "|" + column == sortTable + "|" + column;
    SplitConcat(sortTable, '|', column);
    SplitNoSep(column, '|');
    SplitConcat(table, ':', key);
    SplitNoSep(key, ':');
    SplitNoSep(key, ',');
  }

  /** `table:local,remote|column` joins `base.local = table.remote`. */
  lemma JoinByKeyPair(base: string, table: string, local: string, remote: string, column: string, direction: string, singular: string -> string)
    requires '|' !in table && ':' !in table && '|' !in column
    requires '|' !in local && ':' !in local && ',' !in local
    requires '|' !in remote && ':' !in remote && ',' !in remote
    ensures OrderByOps(base, table + ":" + local + "," + remote + "|" + column, direction, singular) ==
      [LeftJoin(table, base + "." + local, "=", table + "." + remote), OrderBy(column, direction), AddSelect(base + ".*")]
  {
    var keys := local + "," + remote;
    var sortTable := table + ":" + keys;
    assert '|' !in keys && ':' !in keys;
    assert '|' !in sortTable;
    assert table + ":" + local + "," + remote + "|" + column == sortTable + "|" + column;
    SplitConcat(sortTable, '|', column);
    SplitNoSep(column, '|');
    assert Split(sortTable + "|" + column, '|') == [sortTable, column];
    SplitConcat(table, ':', keys);
    SplitNoSep(keys, ':');
    assert Split(sortTable, ':') == [table, keys];
    SplitConcat(local, ',', remote);
    SplitNoSep(remote, ',');
    assert Split(keys, ',') == [local, remote];
    assert table + ("." + remote) == table + "." + remote;
  }

  /** Line 257: token k takes direction segment k, or segment 0 when there is no segment k. */
  function PairedDirection(directions: seq<string>, k: nat): string
    requires |directions| >= 1
  {
    if k < |directions| then directions[k] else directions[0]
  }

  /** The calls for the order tokens, each with its paired direction. */
  function TokensOps(base: string, tokens: seq<string>, directions: seq<string>, singular: string -> string): seq<Op>
    requires |directions| >= 1
  {
    if |tokens| == 0 then []
    else
      TokensOps(base, tokens[..|tokens| - 1], directions, singular)
        + OrderByOps(base, tokens[|tokens| - 1], PairedDirection(directions, |tokens| - 1), singular)
  }

  /** Lines 252-262 once `orderBy` is known to be non-empty: several tokens pair
      with the `;`-segments of `sortedBy`; a single token takes `sortedBy` whole. */
  function OrderOps(base: string, orderBy: string, sortedBy: string, singular: string -> string): seq<Op>
  {
    var tokens := Split(orderBy, ';');
    if |tokens| > 1 then TokensOps(base, tokens, Split(sortedBy, ';'), singular)
    else OrderByOps(base, tokens[0], sortedBy, singular)
  }

  /** The order loop of lines 252-262, rebinding the builder once per token. */
  method CompileOrder(base: string, orderBy: string, sortedBy: string, singular: string -> string) returns (ops: seq<Op>)
    ensures ops == OrderOps(base, orderBy, sortedBy, singular)
  {
    var orderBySplit := Split(orderBy, ';');
    if |orderBySplit| > 1 {
      var sortedBySplit := Split(sortedBy, ';');
      ops := [];
      var k := 0;
      while k < |orderBySplit|
        invariant 0 <= k <= |orderBySplit|
        invariant ops == TokensOps(base, orderBySplit[..k], sortedBySplit, singular)
      {
        var direction := if k < |sortedBySplit| then sortedBySplit[k] else sortedBySplit[0];
        ops := ops + OrderByOps(base, orderBySplit[k], direction, singular);
        TokensOpsSnoc(base, orderBySplit, k, sortedBySplit, singular);
        k := k + 1;
      }
      assert orderBySplit[..k] == orderBySplit;
    } else {
      ops := OrderByOps(base, orderBySplit[0], sortedBy, singular);
    }
  }

  /** The calls for the first k + 1 tokens extend those for the first k. */
  lemma TokensOpsSnoc(base: string, tokens: seq<string>, k: nat, directions: seq<string>, singular: string -> string)
    requires |directions| >= 1 && k < |tokens|
    ensures TokensOps(base, tokens[..k + 1], directions, singular) ==
      TokensOps(base, tokens[..k], directions, singular) + OrderByOps(base, tokens[k], PairedDirection(directions, k), singular)
  {
    assert tokens[..k + 1][..k] == tokens[..k];
  }

  /** Tokens without `|` compile to one orderBy each, in order, token k with
      direction segment k (or segment 0). */
  lemma {:induction false} PlainTokensOps(base: string, tokens: seq<string>, directions: seq<string>, singular: string -> string)
    requires |directions| >= 1
    requires forall k :: 0 <= k < |tokens| ==> '|' !in tokens[k]
    ensures |TokensOps(base, tokens, directions, singular)| == |tokens|
    ensures forall k :: 0 <= k < |tokens| ==>
      TokensOps(base, tokens, directions, singular)[k] == OrderBy(tokens[k], PairedDirection(directions, k))
    decreases |tokens|
  {
    if |tokens| > 0 {
      var n := |tokens| - 1;
      PlainTokensOps(base, tokens[..n], directions, singular);
      PlainOrder(base, tokens[n], PairedDirection(directions, n), singular);
    }
  }

  /** With several tokens, a `sortedBy` without `;` gives every token that one
      direction; segments beyond the first are used only by the tokens at
      their own positions. */
  lemma SharedDirection(sortedBy: string, k: nat)
    requires ';' !in sortedBy
    ensures PairedDirection(Split(sortedBy, ';'), k) == sortedBy
  {
    SplitNoSep(sortedBy, ';');
  }

  /** Quirk (line 257): when `sortedBy` has fewer segments than there are tokens,
      the extra tokens take the FIRST segment, not the last. */
  lemma FallbackIsFirstSegment(first: string, last: string, k: nat)
    requires ';' !in first && ';' !in last && k >= 2
    ensures PairedDirection(Split(first + ";" + last, ';'), k) == first
  {
    SplitConcat(first, ';', last);
    SplitNoSep(last, ';');
  }

  /** A single order token takes `sortedBy` whole, `;`s included. */
  lemma SingleTokenWholeDirection(base: string, orderBy: string, sortedBy: string, singular: string -> string)
    requires ';' !in orderBy
    ensures OrderOps(base, orderBy, sortedBy, singular) == OrderByOps(base, orderBy, sortedBy, singular)
  {
    SplitNoSep(orderBy, ';');
  }
}
