# RequestCriteria of l5-repository, in Dafny

This project models `RequestCriteria::apply` from the Prettus l5-repository
package. `apply` reads an HTTP request's query parameters and turns them into
query-builder calls on an Eloquent model:

- `search`, e.g. `name:john;status:active;bare`;
- `searchFields`, e.g. `name:like;email`;
- `searchJoin`, `orderBy`, `sortedBy`, `filter`, `with` and `withCount`.

The builder is modelled as a trace. Every builder call becomes one `Op`, and
a closure handed to `where`, `whereHas` or `orWhereHas` becomes the nested
list of calls it makes. The modules follow the source's own functions:

- `PhpStrings`, `PhpArrays`: the PHP primitives the code relies on.
  - `explode` and `implode`.
  - `stripos` used as a truth value. A match at index 0 is falsy.
  - String truthiness, `strtolower` and `trim`.
  - Ordered arrays with overwrite-in-place, append, `unset` and `array_search`.
- `SearchTerms`: `parserSearchData` and `parserSearchValue`.
- `FieldResolver`: `parserFieldsSearch`. Its two loops are methods proved against fold functions.
- `PredicateAssembler`: the search closure. It covers:
  - each field's value, its relation split and the `in` / `between` shaping;
  - the `$isFirstField` / `searchJoin` branches, including the whereHas fallback.
  The closure's loop is a method proved against `Emitted`.
- `OrderCompiler`: the order loop and `parserFieldsOrderBy`.
- `RequestCriteria`: `apply`, which runs the search group, then the order
  calls, then `select`, then `with`, then `withCount`.

The model follows the code as written, including these behaviours of it:

- Search join:
  - A later plain field is AND-joined unless `searchJoin=or` (line 241).
  - So with searchable `f => like` and `g => =` and search `f:v;b`, the
    result is `where(f like %v%)` AND `where(g = b)` (`TermThenDefault`).
  - Only `searchJoin=or` makes later plain fields `orWhere` (`LaterPlainFieldOrJoined`).
- Sort directions: extra order tokens take the FIRST direction segment, not
  the last (line 257, `FallbackIsFirstSegment`).
- `table|column` ordering orders by the bare `column`, not `table.column` (line 332, `JoinByConvention`).
- `table:key|column` joins `base.key = table.id` (`JoinByLocalKey`).
- `between` keeps any value with two or more comma pieces, not only exactly two (line 103, `BetweenGuard`).
- A list value under an operator other than `in` / `between`, on a later
  plain field, binds the WHOLE list on every clause (line 238, `LaterListBindsWholeList`).
- A list term stores the whole list once per element (line 78). Under
  `like` / `ilike` it interpolates as `Array` (`ListTermValue`).
- An accepted override `field:op` for a field the repository does not
  declare searchable admits that field (lines 424-428, `UndeclaredFieldAdmitted`).
- A token `field:op` whose `op` is not accepted stays `field:op` in
  `$searchFields`. That token does not request `field`, because line 438
  compares `field:op`. So `field` is searched only if another token names it.
  When the token is the only one, the call fails (lines 422-445, `RejectedOverrideNotSearched`).
- When `array_search` finds nothing it returns false, and `unset($originalFields[false])`
  removes the entry at index 0 (line 424). Examples:
  - `IndexZeroDropped`.
  - With the mixed declaration `'name' => 'like', 'email'`, an override of
    `name` drops `email` (`MixedDeclarationDropsIndexZero`).

## Model

| member | source | states |
|---|---|---|
| PhpStrings.Split | src/Prettus/Repository/Criteria/RequestCriteria.php:350-355 | explode never returns an empty array, and no piece holds the separator |
| PhpStrings.TrimStart | src/Prettus/Repository/Criteria/RequestCriteria.php:73 | trim's left half drops exactly a prefix of trim characters and stops at a non-trim character |
| PhpStrings.TrimEnd | src/Prettus/Repository/Criteria/RequestCriteria.php:73 | trim's right half drops exactly a suffix of trim characters and stops at a non-trim character |
| PhpStrings.ToLower | src/Prettus/Repository/Criteria/RequestCriteria.php:73 | strtolower keeps the length and lowers each ASCII upper-case letter, leaving every other character as it is |
| PhpStrings.JoinSplit | src/Prettus/Repository/Criteria/RequestCriteria.php:274-275 | implode undoes explode: the `;` pieces handed to the builder glue back to the parameter |
| PhpStrings.SplitJoin | src/Prettus/Repository/Criteria/RequestCriteria.php:350 | explode undoes implode when no piece holds the separator |
| PhpStrings.SplitNoSep | src/Prettus/Repository/Criteria/RequestCriteria.php:396 | a string without the separator explodes to itself alone (count is 1) |
| PhpStrings.SplitHasSep | src/Prettus/Repository/Criteria/RequestCriteria.php:396 | a string holding the separator explodes to two pieces or more |
| PhpStrings.SplitConcat | src/Prettus/Repository/Criteria/RequestCriteria.php:294-307 | exploding `a.sep.b` gives `a` followed by the pieces of `b` |
| PhpStrings.TrimBlank | src/Prettus/Repository/Criteria/RequestCriteria.php:97 | trim gives "" exactly when every character is one trim strips |
| PhpStrings.ToLowerIdentity | src/Prettus/Repository/Criteria/RequestCriteria.php:73 | a condition without upper-case letters is its own strtolower |
| PhpStrings.JoinSnoc | src/Prettus/Repository/Criteria/RequestCriteria.php:91-93 | implode of all pieces is implode of all but the last, the separator, then the last |
| PhpArrays.Get | src/Prettus/Repository/Criteria/RequestCriteria.php:75 | `isset($a[$k])` holds exactly when the key is present, and the value read is that key's entry |
| PhpArrays.Put | src/Prettus/Repository/Criteria/RequestCriteria.php:427 | after `$a[$k] = $v`, k maps to v, every other key keeps its value, and the keys gain k |
| PhpArrays.PutInPlace | src/Prettus/Repository/Criteria/RequestCriteria.php:427 | assigning an existing key keeps every key at its position |
| PhpArrays.PutAppends | src/Prettus/Repository/Criteria/RequestCriteria.php:427 | assigning a new key appends the entry at the end |
| PhpArrays.PutDistinct | src/Prettus/Repository/Criteria/RequestCriteria.php:427 | assignment keeps the keys distinct |
| PhpArrays.Unset | src/Prettus/Repository/Criteria/RequestCriteria.php:424 | after `unset($a[$k])`, k is absent, every other key keeps its value, and the keys lose k |
| PhpArrays.UnsetAbsent | src/Prettus/Repository/Criteria/RequestCriteria.php:424 | unsetting an absent key changes nothing |
| PhpArrays.UnsetAt | src/Prettus/Repository/Criteria/RequestCriteria.php:424 | unsetting the key at position i removes exactly that entry and keeps the others in order |
| PhpArrays.UnsetDistinct | src/Prettus/Repository/Criteria/RequestCriteria.php:424 | unset keeps the keys distinct |
| PhpArrays.ArraySearch | src/Prettus/Repository/Criteria/RequestCriteria.php:420 | `array_search` gives false exactly when no entry has the value, else the key of the FIRST entry holding it |
| PhpArrays.GetSnoc | src/Prettus/Repository/Criteria/RequestCriteria.php:439 | a lookup after appending an entry finds the appended entry for its key and the old value for any other |
| SearchTerms.ParseSearchData | src/Prettus/Repository/Criteria/RequestCriteria.php:345-381 | the loop builds exactly SearchData: nothing unless `:` follows position 0, else each token's term in turn |
| SearchTerms.ParseToken | src/Prettus/Repository/Criteria/RequestCriteria.php:355-374 | one token adds its term: `f:v` gives a string, `f:v1:…:vn` a list, a bare token nothing |
| SearchTerms.TermsLookup | src/Prettus/Repository/Criteria/RequestCriteria.php:352-378 | a field's value is the one of the LAST token naming it, and a field no token names is absent |
| SearchTerms.SearchDataLookup | src/Prettus/Repository/Criteria/RequestCriteria.php:349-381 | the value of each field, and none at all when the `stripos` test fails |
| SearchTerms.SearchDataOfTokens | src/Prettus/Repository/Criteria/RequestCriteria.php:349-381 | for a search written as `;`-joined tokens, each field gets its last token's value |
| SearchTerms.TermOfPair | src/Prettus/Repository/Criteria/RequestCriteria.php:362-365 | `f:v` binds f to the string v |
| SearchTerms.TermOfList | src/Prettus/Repository/Criteria/RequestCriteria.php:358-361 | `f:v1:…:vn` with n of 2 or more binds f to the list of values |
| SearchTerms.TermOfBare | src/Prettus/Repository/Criteria/RequestCriteria.php:364-377 | a token without `:` binds nothing (the offset error is caught) |
| SearchTerms.FirstBareIndex | src/Prettus/Repository/Criteria/RequestCriteria.php:394-399 | the index found is that of the first token with no `:`, and every earlier token holds one |
| SearchTerms.FirstBare | src/Prettus/Repository/Criteria/RequestCriteria.php:394-401 | null exactly when every token holds `:`, else the first token without one |
| SearchTerms.SearchValue | src/Prettus/Repository/Criteria/RequestCriteria.php:404 | without `;` or `:` after position 0 the default value is the whole search string |
| SearchTerms.SearchValueCases | src/Prettus/Repository/Criteria/RequestCriteria.php:389-405 | both branches of parserSearchValue: the whole string, or the first bare token, or null |
| FieldResolver.Normalised | src/Prettus/Repository/Criteria/RequestCriteria.php:418-431 | `$searchFields` after the first loop: same length, each token normalised |
| FieldResolver.ApplyOverrides | src/Prettus/Repository/Criteria/RequestCriteria.php:418-431 | the first loop yields the override fold and the normalised tokens |
| FieldResolver.OverrideToken | src/Prettus/Repository/Criteria/RequestCriteria.php:419-430 | one token's effect on `$originalFields` and on its own slot of `$searchFields` |
| FieldResolver.KeepRequested | src/Prettus/Repository/Criteria/RequestCriteria.php:433-441 | the second loop yields the requested entries, keyed by field name |
| FieldResolver.ResolveSearchFields | src/Prettus/Repository/Criteria/RequestCriteria.php:408-450 | parserFieldsSearch: the fields unchanged without `searchFields`, else the requested ones, or failure when none survive |
| FieldResolver.KeptLookup | src/Prettus/Repository/Criteria/RequestCriteria.php:433-441 | a field is kept exactly when requested, with the condition of the last entry naming it, and no integer key survives |
| FieldResolver.KeptEmpty | src/Prettus/Repository/Criteria/RequestCriteria.php:433-445 | the second loop yields nothing exactly when no entry names a requested field |
| FieldResolver.ResolvedFieldsRequested | src/Prettus/Repository/Criteria/RequestCriteria.php:408-450 | every returned field is requested, the result is never empty, and the call fails, with the normalised request, exactly when no field survives |
| FieldResolver.NormaliseOverride | src/Prettus/Repository/Criteria/RequestCriteria.php:422-429 | `field:op` is rewritten to `field` exactly when op is accepted |
| FieldResolver.NormaliseBare | src/Prettus/Repository/Criteria/RequestCriteria.php:422 | a bare token stays as it is |
| FieldResolver.RejectedOverrideNotSearched | src/Prettus/Repository/Criteria/RequestCriteria.php:422-445 | a lone override with an unaccepted operator stays `field:op`, so it requests no field and the call fails listing that token |
| FieldResolver.OverridesLookup | src/Prettus/Repository/Criteria/RequestCriteria.php:418-431 | on plain input each field carries its last accepted override, else its declared operator, and the keys stay distinct |
| FieldResolver.PlainStep | src/Prettus/Repository/Criteria/RequestCriteria.php:419-430 | on plain input one override unsets nothing and assigns the field its operator |
| FieldResolver.LastConditionPlain | src/Prettus/Repository/Criteria/RequestCriteria.php:433-441 | over distinct string keys the second loop reads the array itself |
| FieldResolver.ResolveOverrides | src/Prettus/Repository/Criteria/RequestCriteria.php:408-450 | on string-keyed declarations whose operators no token names (PlainRequest): a field is returned exactly when requested, with its last accepted override or its declared operator, and such a field makes the call succeed |
| FieldResolver.UndeclaredFieldAdmitted | src/Prettus/Repository/Criteria/RequestCriteria.php:420-428 | an accepted override for an undeclared field makes that field searched |
| FieldResolver.IndexZeroDropped | src/Prettus/Repository/Criteria/RequestCriteria.php:420-424 | an override whose field array_search cannot find drops the entry at index 0 |
| FieldResolver.MixedDeclarationDropsIndexZero | src/Prettus/Repository/Criteria/RequestCriteria.php:420-441 | with `name => cond` and index-0 `other`, an accepted override of `name` drops `other` although it is requested |
| PredicateAssembler.RawValue | src/Prettus/Repository/Criteria/RequestCriteria.php:71-87 | a list value produced for a field is never empty |
| PredicateAssembler.ShapeValue | src/Prettus/Repository/Criteria/RequestCriteria.php:95-106 | in/between shaping never produces an empty list from a well-shaped value |
| PredicateAssembler.PlanField | src/Prettus/Repository/Criteria/RequestCriteria.php:64-106 | a field's planned list value is never empty |
| PredicateAssembler.Plans | src/Prettus/Repository/Criteria/RequestCriteria.php:64 | one plan per resolved field, in order |
| PredicateAssembler.EmittedStep | src/Prettus/Repository/Criteria/RequestCriteria.php:108-179 | one more field appends its calls, and clears `$isFirstField` exactly when it has a value |
| PredicateAssembler.EmitField | src/Prettus/Repository/Criteria/RequestCriteria.php:108-246 | one live field's calls, given `$isFirstField` and `searchJoin` |
| PredicateAssembler.AssembleSearch | src/Prettus/Repository/Criteria/RequestCriteria.php:61-249 | the closure's calls are Emitted over the field plans, with the flag tracked by NoneLive |
| PredicateAssembler.ScalarValue | src/Prettus/Repository/Criteria/RequestCriteria.php:81-86 | a scalar term, or the default value, is wrapped in `%…%` exactly under like / ilike |
| PredicateAssembler.InBetweenNeedTerm | src/Prettus/Repository/Criteria/RequestCriteria.php:84-106 | an in / between field without its own term is dropped |
| PredicateAssembler.ListTermValue | src/Prettus/Repository/Criteria/RequestCriteria.php:76-79 | a list term gives one element per item, each the whole list, or `%Array%` under like / ilike |
| PredicateAssembler.InGuard | src/Prettus/Repository/Criteria/RequestCriteria.php:95-100 | an `in` value survives exactly when its first piece is not blank and is not the column name, and its pieces glue back to it |
| PredicateAssembler.BetweenGuard | src/Prettus/Repository/Criteria/RequestCriteria.php:101-106 | a `between` value survives exactly when it holds a comma, as its two or more pieces |
| PredicateAssembler.ListDroppedByInBetween | src/Prettus/Repository/Criteria/RequestCriteria.php:95-106 | a list or missing value never survives in / between |
| PredicateAssembler.LaterListBindsWholeList | src/Prettus/Repository/Criteria/RequestCriteria.php:235-239 | a list value on a later plain field emits one clause per item, each bound to the whole list |
| PredicateAssembler.SplitRelationParts | src/Prettus/Repository/Criteria/RequestCriteria.php:89-94 | a relation exists exactly when `.` follows position 0; it is non-empty, the column has no dot, and relation.column is the name |
| PredicateAssembler.FieldColumns | src/Prettus/Repository/Criteria/RequestCriteria.php:108-246 | calls target `table.column`, the dotted fallback, or one whereHas / orWhereHas on the bare column; a field emits exactly when it has a value |
| PredicateAssembler.PlansWellShaped | src/Prettus/Repository/Criteria/RequestCriteria.php:64-106 | no planned list value is empty |
| PredicateAssembler.FieldJoins | src/Prettus/Repository/Criteria/RequestCriteria.php:108-246 | under `searchJoin=and` a field's calls are AND-joined; unless `or`, only orWhereHas is OR-joined |
| PredicateAssembler.DeadFieldsEmitNothing | src/Prettus/Repository/Criteria/RequestCriteria.php:108-109 | the closure emits nothing exactly when no field has a value |
| PredicateAssembler.FirstLiveField | src/Prettus/Repository/Criteria/RequestCriteria.php:108-178 | the first field with a value takes the where / whereHas branch, and nothing is emitted before it |
| PredicateAssembler.ForceAndAllAnd | src/Prettus/Repository/Criteria/RequestCriteria.php:59-108 | with `searchJoin=and` every call is AND-joined |
| PredicateAssembler.DefaultJoinOnlyRelationsOr | src/Prettus/Repository/Criteria/RequestCriteria.php:180-244 | without `searchJoin=or` only orWhereHas calls are OR-joined |
| PredicateAssembler.LaterPlainFieldOrJoined | src/Prettus/Repository/Criteria/RequestCriteria.php:227-243 | with `searchJoin=or` a later plain field's calls are all OR-joined |
| OrderCompiler.PlainOrder | src/Prettus/Repository/Criteria/RequestCriteria.php:334-336 | a token without `|` orders by itself |
| OrderCompiler.JoinByConvention | src/Prettus/Repository/Criteria/RequestCriteria.php:318-333 | `table|column` left-joins `base.<singular>_id = table.id`, orders by the column and re-selects `base.*` |
| OrderCompiler.JoinByLocalKey | src/Prettus/Repository/Criteria/RequestCriteria.php:307-313 | `table:key|column` joins `base.key = table.id` |
| OrderCompiler.JoinByKeyPair | src/Prettus/Repository/Criteria/RequestCriteria.php:312-317 | `table:local,remote|column` joins `base.local = table.remote` |
| OrderCompiler.CompileOrder | src/Prettus/Repository/Criteria/RequestCriteria.php:252-263 | the order loop's calls are OrderOps: token by token with paired directions, or one token with `sortedBy` whole |
| OrderCompiler.TokensOpsSnoc | src/Prettus/Repository/Criteria/RequestCriteria.php:256-259 | each token appends its calls after the earlier tokens' |
| OrderCompiler.PlainTokensOps | src/Prettus/Repository/Criteria/RequestCriteria.php:256-259 | plain tokens give one orderBy each, in order, token k with direction k or segment 0 |
| OrderCompiler.SharedDirection | src/Prettus/Repository/Criteria/RequestCriteria.php:255-257 | a `sortedBy` without `;` gives every token that direction |
| OrderCompiler.FallbackIsFirstSegment | src/Prettus/Repository/Criteria/RequestCriteria.php:257 | tokens past the last direction take the first segment |
| OrderCompiler.SingleTokenWholeDirection | src/Prettus/Repository/Criteria/RequestCriteria.php:260-261 | a single token takes `sortedBy` whole |
| RequestCriteria.EffectiveSortedBy | src/Prettus/Repository/Criteria/RequestCriteria.php:46-50 | a missing or empty `sortedBy` is "asc" |
| RequestCriteria.CompileSearch | src/Prettus/Repository/Criteria/RequestCriteria.php:52-250 | the search part of apply is SearchOps |
| RequestCriteria.CompileTail | src/Prettus/Repository/Criteria/RequestCriteria.php:252-281 | the calls after the search are TailOps |
| RequestCriteria.Apply | src/Prettus/Repository/Criteria/RequestCriteria.php:39-284 | apply's result is ApplySpec |
| RequestCriteria.ApplyFails | src/Prettus/Repository/Criteria/RequestCriteria.php:52-55 | apply fails exactly when a search is compiled and the field resolver finds no field |
| RequestCriteria.SearchGroupFirst | src/Prettus/Repository/Criteria/RequestCriteria.php:52-281 | the grouped search comes first exactly when a search is compiled, and no later call is a group |
| RequestCriteria.TailOpsShape | src/Prettus/Repository/Criteria/RequestCriteria.php:252-281 | the later calls are joins, orderBys, re-selections, select, with and withCount |
| RequestCriteria.OrderOpsShape | src/Prettus/Repository/Criteria/RequestCriteria.php:252-263 | order calls are joins, orderBys and re-selections |
| RequestCriteria.TokensOpsShape | src/Prettus/Repository/Criteria/RequestCriteria.php:256-259 | the same, for several order tokens |
| RequestCriteria.ProjectionRoundTrip | src/Prettus/Repository/Criteria/RequestCriteria.php:265-271 | a given `filter` reaches select as pieces that glue back to it |
| RequestCriteria.EagerLoadRoundTrip | src/Prettus/Repository/Criteria/RequestCriteria.php:273-281 | a given `with` / `withCount` reaches the builder as pieces that glue back to it |
| RequestCriteria.TermThenDefault | src/Prettus/Repository/Criteria/RequestCriteria.php:52-249 | a two-field request (`f => like`, `g => =`, search `f:v;b`) gives `%v%` on the first field and the default value on the second, AND-joined |
| RequestCriteria.ScenarioSearchOps | src/Prettus/Repository/Criteria/RequestCriteria.php:52-249 | that two-field request's search group is exactly the two plain `where` calls |

## Left out

- The request object, `config(...)` and `trans(...)`: the parameters arrive
  already read (`RequestParams`), the accepted conditions are an input, and a
  failed field resolution returns the normalised `searchFields` instead of
  throwing with a translated message.
- Executing the query: Eloquent and the database are not modelled. The result
  is the trace of builder calls.
- `json_decode` of search values (line 367): values stay strings, so a value such as `123` or `true` is not turned into a number or a boolean.
- `Str::singular` is an input function (`singular`), since the inflector is not part of this model.
- The `try`/`catch` around `whereHas` / `orWhereHas`: Eloquent throws for a
  relation the model does not define. The set `relations` stands for the
  relations the model does define, and any other name takes the catch branch.
- PHP loose comparison (`==`, `in_array`, `array_search`) is modelled as string equality.
- The conversion of numeric-string array keys to integers: keys are `IntKey` or `StrKey` as given.
- Array-valued request parameters (`searchFields[]=…`, `filter[]=…`): every parameter is a string or absent.
- PHP 8 TypeErrors, and Laravel's conversion of warnings into exceptions
  outside parserSearchData. An array value under `in` / `between` follows PHP 7
  and is dropped. A list term under like / ilike interpolates as `Array`.
- An empty nested group: Laravel adds no SQL for it. The trace still records the `where(closure)` call.
- Sort directions are not validated: the model, like the code, passes `sortedBy` through as written.
