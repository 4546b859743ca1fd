/**
 * parserFieldsSearch: which of the repository's searchable fields a request
 * searches, and with which operator. The caller's `searchFields` tokens
 * (`field` or `field:operator`) pick the fields; an operator overrides the
 * repository's only when it is one of the accepted conditions.
 */
module FieldResolver {
  import opened Results
  import opened PhpStrings
  import opened PhpArrays

  /** The searchable fields: `'name' => 'like'` (a string key and its operator)
      or `'email'` (an integer index and the field name). */
  type Fields = seq<(Key, string)>

  /** The field an entry names: an `is_numeric` key names its value (lines 434-437). */
  function EntryName(e: (Key, string)): string
  {
    if e.0.IntKey? then e.1 else e.0.name
  }

  /** The condition an entry carries: "=" for an `is_numeric` key (lines 434-437). */
  function EntryCondition(e: (Key, string)): string
  {
    if e.0.IntKey? then "=" else e.1
  }

  /** `$searchFields[$index] = $field` (line 428): a token `field:op` is rewritten
      to `field` when it has exactly two parts and `op` is accepted. */
  function NormaliseToken(token: string, accepted: seq<string>): string
  {
    var parts := Split(token, ':');
    if |parts| == 2 && parts[1] in accepted then parts[0] else token
  }

  /** The `$searchFields` list after the first loop. */
  function Normalised(tokens: seq<string>, accepted: seq<string>): (r: seq<string>)
    ensures |r| == |tokens|
    ensures forall i :: 0 <= i < |tokens| ==> r[i] == NormaliseToken(tokens[i], accepted)
  {
    seq(|tokens|, i requires 0 <= i < |tokens| => NormaliseToken(tokens[i], accepted))
  }

  /** What one token does to `$originalFields` (lines 419-430). Quirk: when
      array_search finds nothing it returns false, and `unset($originalFields[false])`
      removes the entry at index 0. */
  function OverrideStep(orig: Fields, token: string, accepted: seq<string>): Fields
  {
    var parts := Split(token, ':');
    var temporaryIndex := ArraySearch(orig, parts[0]);
    if |parts| == 2 && parts[1] in accepted then
      var unsetKey := if temporaryIndex.Some? then temporaryIndex.value else IntKey(0);
      Put(Unset(orig, unsetKey), StrKey(parts[0]), parts[1])
    else orig
  }

  /** `$originalFields` after the first loop has seen every token. */
  function Overrides(orig: Fields, tokens: seq<string>, accepted: seq<string>): Fields
  {
    if |tokens| == 0 then orig
    else OverrideStep(Overrides(orig, tokens[..|tokens| - 1], accepted), tokens[|tokens| - 1], accepted)
  }

  /** `$fields` after the second loop (lines 433-441): every entry whose field is
      requested, under its field name, with "=" for integer-keyed entries. */
  function Kept(orig: Fields, requested: seq<string>): Fields
  {
    if |orig| == 0 then []
    else
      var before := Kept(orig[..|orig| - 1], requested);
      var e := orig[|orig| - 1];
      if EntryName(e) in requested then Put(before, StrKey(EntryName(e)), EntryCondition(e)) else before
  }

  /** parserFieldsSearch (lines 408-450). The error carries the normalised
      `$searchFields`, which the source's exception message lists. */
  function FieldsSearch(fields: Fields, searchFields: Option<seq<string>>, accepted: seq<string>): Result<Fields, seq<string>>
  {
    if searchFields.None? || |searchFields.value| == 0 then Ok(fields)
    else
      var requested := Normalised(searchFields.value, accepted);
      var kept := Kept(Overrides(fields, searchFields.value, accepted), requested);
      if |kept| == 0 then Err(requested) else Ok(kept)
  }

  /** The first loop of parserFieldsSearch (lines 418-431): overrides applied to
      `$originalFields`, and the overriding tokens normalised in `$searchFields`. */
  method ApplyOverrides(fields: Fields, tokens: seq<string>, accepted: seq<string>)
    returns (originalFields: Fields, searchFields: seq<string>)
    ensures originalFields == Overrides(fields, tokens, accepted)
    ensures searchFields == Normalised(tokens, accepted)
  {
    searchFields := tokens;
    originalFields := fields;
    var index := 0;
    while index < |tokens|
      invariant 0 <= index <= |tokens|
      invariant originalFields == Overrides(fields, tokens[..index], accepted)
      invariant |searchFields| == |tokens|
      invariant forall j :: 0 <= j < index ==> searchFields[j] == NormaliseToken(tokens[j], accepted)
      invariant forall j :: index <= j < |tokens| ==> searchFields[j] == tokens[j]
    {
      assert tokens[..index + 1][..index] == tokens[..index];
      var field;
      originalFields, field := OverrideToken(originalFields, tokens[index], accepted);
      searchFields := searchFields[index := field];
      index := index + 1;
    }
    assert tokens[..index] == tokens;
  }

  /** The body of the first loop (lines 419-430) for one token: the new
      `$originalFields`, and the token as it then stands in `$searchFields`. */
  method OverrideToken(originalFields: Fields, token: string, accepted: seq<string>)
    returns (next: Fields, field: string)
    ensures next == OverrideStep(originalFields, token, accepted)
    ensures field == NormaliseToken(token, accepted)
  {
    next, field := originalFields, token;
    var fieldParts := Split(token, ':');
    var temporaryIndex := ArraySearch(originalFields, fieldParts[0]);
    if |fieldParts| == 2 && fieldParts[1] in accepted {
      next := Unset(originalFields, if temporaryIndex.Some? then temporaryIndex.value else IntKey(0));
      next := Put(next, StrKey(fieldParts[0]), fieldParts[1]);
      field := fieldParts[0];
    }
  }

  /** The second loop of parserFieldsSearch (lines 433-441). */
  method KeepRequested(originalFields: Fields, requested: seq<string>) returns (result: Fields)
    ensures result == Kept(originalFields, requested)
  {
    result := [];
    var j := 0;
    while j < |originalFields|
      invariant 0 <= j <= |originalFields|
      invariant result == Kept(originalFields[..j], requested)
    {
      assert originalFields[..j + 1][..j] == originalFields[..j];
      var entry := originalFields[j];
      var field, condition := entry.1, "=";
      if !entry.0.IntKey? {
        field, condition := entry.0.name, entry.1;
      }
      if field in requested {
        result := Put(result, StrKey(field), condition);
      }
      j := j + 1;
    }
    assert originalFields[..j] == originalFields;
  }

  /** parserFieldsSearch. */
  method ResolveSearchFields(fields: Fields, searchFields: Option<seq<string>>, accepted: seq<string>)
    returns (r: Result<Fields, seq<string>>)
    ensures r == FieldsSearch(fields, searchFields, accepted)
  {
    if searchFields.None? || |searchFields.value| == 0 {
      return Ok(fields);
    }
    var originalFields, requested := ApplyOverrides(fields, searchFields.value, accepted);
    var result := KeepRequested(originalFields, requested);
    if |result| == 0 {
      return Err(requested);
    }
    return Ok(result);
  }

  /** Reference reading of the second loop: the condition of the LAST entry that names `field`. */
  function LastCondition(orig: Fields, field: string): Option<string>
  {
    if |orig| == 0 then None
    else if EntryName(orig[|orig| - 1]) == field then Some(EntryCondition(orig[|orig| - 1]))
    else LastCondition(orig[..|orig| - 1], field)
  }

  /** The second loop keeps a field exactly when it is requested, with the
      condition of the last entry naming it, and never keeps an integer key. */
  lemma {:induction false} KeptLookup(orig: Fields, requested: seq<string>, field: string, n: int)
    ensures Get(Kept(orig, requested), StrKey(field)) == if field in requested then LastCondition(orig, field) else None
    ensures Get(Kept(orig, requested), IntKey(n)) == None
    decreases |orig|
  {
    if |orig| > 0 {
      KeptLookup(orig[..|orig| - 1], requested, field, n);
    }
  }

  /** The second loop yields nothing exactly when no entry names a requested field. */
  lemma {:induction false} KeptEmpty(orig: Fields, requested: seq<string>)
    ensures Kept(orig, requested) == [] <==> forall i :: 0 <= i < |orig| ==> EntryName(orig[i]) !in requested
    decreases |orig|
  {
    if |orig| > 0 {
      var init := orig[..|orig| - 1];
      KeptEmpty(init, requested);
      assert forall i :: 0 <= i < |init| ==> init[i] == orig[i];
    }
  }

  /** Without `searchFields` the searchable fields come back unchanged; with them,
      every field returned is one the (normalised) request names, the result is
      never empty, and the call fails, listing the normalised request, exactly
      when no field survives. */
  lemma ResolvedFieldsRequested(fields: Fields, searchFields: Option<seq<string>>, accepted: seq<string>)
    ensures searchFields.None? || searchFields.value == [] ==> FieldsSearch(fields, searchFields, accepted) == Ok(fields)
    ensures searchFields.Some? && searchFields.value != [] ==>
      var requested := Normalised(searchFields.value, accepted);
      var r := FieldsSearch(fields, searchFields, accepted);
      && (r.Err? <==> forall i :: 0 <= i < |Overrides(fields, searchFields.value, accepted)| ==>
                        EntryName(Overrides(fields, searchFields.value, accepted)[i]) !in requested)
      && (r.Err? ==> r.error == requested)
      && (r.Ok? ==> r.value != [] && forall i :: 0 <= i < |r.value| ==> r.value[i].0.StrKey? && r.value[i].0.name in requested)
  {
    if searchFields.Some? && searchFields.value != [] {
      var requested := Normalised(searchFields.value, accepted);
      var orig := Overrides(fields, searchFields.value, accepted);
      var kept := Kept(orig, requested);
      KeptEmpty(orig, requested);
      forall i | 0 <= i < |kept| ensures kept[i].0.StrKey? && kept[i].0.name in requested {
        var k := kept[i].0;
        assert k in Keys(kept);
        match k
        case IntKey(n) =>
          KeptLookup(orig, requested, "", n);
        case StrKey(name) =>
          KeptLookup(orig, requested, name, 0);
      }
    }
  }

  /** A token `field:op` (no further `:`) is rewritten to `field` exactly when `op` is accepted. */
  lemma NormaliseOverride(field: string, op: string, accepted: seq<string>)
    requires ':' !in field && ':' !in op
    ensures NormaliseToken(field + ":" + op, accepted) == if op in accepted then field else field + ":" + op
  {
    SplitConcat(field, ':', op);
    SplitNoSep(op, ':');
  }

  /** A bare token stays as it is. */
  lemma NormaliseBare(field: string, accepted: seq<string>)
    requires ':' !in field
    ensures NormaliseToken(field, accepted) == field
  {
    SplitNoSep(field, ':');
  }

  /** Quirk (lines 422-428): a token `field:op` whose `op` is not accepted stays
      `field:op` in `$searchFields`, so that token does not request `field`
      (line 438 compares `field:op`); when it is the only token, no field is
      searched and the call fails listing it. */
  lemma RejectedOverrideNotSearched(fields: Fields, field: string, op: string, accepted: seq<string>)
    requires ':' !in field && ':' !in op && op !in accepted
    requires forall i :: 0 <= i < |fields| ==> EntryName(fields[i]) != field + ":" + op
    ensures FieldsSearch(fields, Some([field + ":" + op]), accepted) == Err([field + ":" + op])
  {
    var token := field + ":" + op;
    NormaliseOverride(field, op, accepted);
    SplitConcat(field, ':', op);
    SplitNoSep(op, ':');
    assert [token][..0] == [];
    assert Overrides(fields, [token], accepted) == OverrideStep(fields, token, accepted);
    assert Overrides(fields, [token], accepted) == fields;
    assert Normalised([token], accepted) == [token];
    KeptEmpty(fields, [token]);
  }

  /** The operator of the last accepted override `field:op` among the tokens. */
  function LastAcceptedOp(tokens: seq<string>, accepted: seq<string>, field: string): Option<string>
  {
    if |tokens| == 0 then None
    else
      var parts := Split(tokens[|tokens| - 1], ':');
      if |parts| == 2 && parts[1] in accepted && parts[0] == field then Some(parts[1])
      else LastAcceptedOp(tokens[..|tokens| - 1], accepted, field)
  }

  /** The inputs for which parserFieldsSearch reads as intended: string keys only,
      and no token names a field that equals a condition in play (so array_search
      never finds a value and never removes an entry). */
  predicate PlainRequest(fields: Fields, tokens: seq<string>, accepted: seq<string>)
  {
    && (forall k :: k in Keys(fields) ==> k.StrKey?)
    && DistinctKeys(fields)
    && (forall j :: 0 <= j < |tokens| ==> Split(tokens[j], ':')[0] !in Values(fields))
    && (forall j :: 0 <= j < |tokens| ==> Split(tokens[j], ':')[0] !in accepted)
  }

  /** On plain input the first loop sets each overridden field to the operator
      of its last accepted override and leaves every other field as declared. */
  lemma {:induction false} OverridesLookup(fields: Fields, tokens: seq<string>, accepted: seq<string>, field: string)
    requires PlainRequest(fields, tokens, accepted)
    ensures var orig := Overrides(fields, tokens, accepted);
      && (forall k :: k in Keys(orig) ==> k.StrKey?)
      && DistinctKeys(orig)
      && (forall v :: v in Values(orig) ==> v in Values(fields) || v in accepted)
      && Get(orig, StrKey(field)) ==
           if LastAcceptedOp(tokens, accepted, field).Some? then LastAcceptedOp(tokens, accepted, field)
           else Get(fields, StrKey(field))
    decreases |tokens|
  {
    if |tokens| > 0 {
      var init := tokens[..|tokens| - 1];
      assert PlainRequest(fields, init, accepted) by {
        assert forall j :: 0 <= j < |init| ==> init[j] == tokens[j];
      }
      OverridesLookup(fields, init, accepted, field);
      var before := Overrides(fields, init, accepted);
      var token := tokens[|tokens| - 1];
      assert Split(token, ':')[0] !in Values(fields) && Split(token, ':')[0] !in accepted;
      PlainStep(fields, before, token, accepted, field);
      assert Overrides(fields, tokens, accepted) == OverrideStep(before, token, accepted);
    }
  }

  /** One plain override step: it cannot find the field among the values, so it
      unsets nothing and puts the field with its operator; the lookup facts of
      OverridesLookup carry over. */
  lemma PlainStep(fields: Fields, before: Fields, token: string, accepted: seq<string>, field: string)
    requires forall k :: k in Keys(before) ==> k.StrKey?
    requires DistinctKeys(before)
    requires forall v :: v in Values(before) ==> v in Values(fields) || v in accepted
    requires Split(token, ':')[0] !in Values(fields) && Split(token, ':')[0] !in accepted
    ensures var parts := Split(token, ':');
      OverrideStep(before, token, accepted) ==
        if |parts| == 2 && parts[1] in accepted then Put(before, StrKey(parts[0]), parts[1]) else before
    ensures var after := OverrideStep(before, token, accepted);
      && DistinctKeys(after)
      && (forall k :: k in Keys(after) ==> k.StrKey?)
      && (forall v :: v in Values(after) ==> v in Values(fields) || v in accepted)
    ensures var parts := Split(token, ':');
      Get(OverrideStep(before, token, accepted), StrKey(field)) ==
        if |parts| == 2 && parts[1] in accepted && parts[0] == field then Some(parts[1]) else Get(before, StrKey(field))
  {
    var parts := Split(token, ':');
    if |parts| == 2 && parts[1] in accepted {
      assert parts[0] !in Values(before);
      assert ArraySearch(before, parts[0]).None?;
      assert IntKey(0) !in Keys(before);
      UnsetAbsent(before, IntKey(0));
      PutDistinct(before, StrKey(parts[0]), parts[1]);
    }
  }

  /** The second loop over string-keyed, distinct entries reads the array itself. */
  lemma {:induction false} LastConditionPlain(orig: Fields, field: string)
    requires forall k :: k in Keys(orig) ==> k.StrKey?
    requires DistinctKeys(orig)
    ensures LastCondition(orig, field) == Get(orig, StrKey(field))
    decreases |orig|
  {
    if |orig| > 0 {
      var init := orig[..|orig| - 1];
      var last := orig[|orig| - 1];
      assert orig == init + [last];
      assert Keys(init) <= Keys(orig);
      assert DistinctKeys(init);
      LastConditionPlain(init, field);
      GetSnoc(init, last, StrKey(field));
      assert last.0 in Keys(orig);
      if last.0 == StrKey(field) {
        assert StrKey(field) !in Keys(init);
      }
    }
  }

  /** parserFieldsSearch on plain input: a field is returned exactly when the
      normalised request names it, with the operator of its last accepted
      override, or else its declared operator. A field the repository does not
      declare is returned too when an accepted override names it (a quirk of
      lines 424-428: the override inserts it into `$originalFields`). */
  lemma ResolveOverrides(fields: Fields, tokens: seq<string>, accepted: seq<string>, field: string)
    requires |tokens| > 0
    requires PlainRequest(fields, tokens, accepted)
    ensures var requested := Normalised(tokens, accepted);
      var r := FieldsSearch(fields, Some(tokens), accepted);
      var expected := if LastAcceptedOp(tokens, accepted, field).Some? then LastAcceptedOp(tokens, accepted, field)
                      else Get(fields, StrKey(field));
      r.Ok? ==> Get(r.value, StrKey(field)) == if field in requested then expected else None
    ensures var requested := Normalised(tokens, accepted);
      var r := FieldsSearch(fields, Some(tokens), accepted);
      var expected := if LastAcceptedOp(tokens, accepted, field).Some? then LastAcceptedOp(tokens, accepted, field)
                      else Get(fields, StrKey(field));
      field in requested && expected.Some? ==> r.Ok?
  {
    var requested := Normalised(tokens, accepted);
    var orig := Overrides(fields, tokens, accepted);
    OverridesLookup(fields, tokens, accepted, field);
    LastConditionPlain(orig, field);
    KeptLookup(orig, requested, field, 0);
  }

  /** Quirk (lines 420-428): an accepted override for a field the repository does
      not declare searchable is not rejected; the field is searched. */
  lemma UndeclaredFieldAdmitted(fields: Fields, field: string, op: string, accepted: seq<string>)
    requires ':' !in field && ':' !in op && op in accepted
    requires forall i :: 0 <= i < |fields| ==> fields[i].0.StrKey? && fields[i].0.name != field && fields[i].1 != field
    ensures FieldsSearch(fields, Some([field + ":" + op]), accepted) == Ok([(StrKey(field), op)])
  {
    var token := field + ":" + op;
    SplitConcat(field, ':', op);
    SplitNoSep(op, ':');
    assert Split(token, ':') == [field, op];
    assert [token][..0] == [];
    assert Overrides(fields, [token], accepted) == OverrideStep(fields, token, accepted);
    assert field !in Values(fields);
    assert IntKey(0) !in Keys(fields);
    UnsetAbsent(fields, IntKey(0));
    assert StrKey(field) !in Keys(fields);
    PutAppends(fields, StrKey(field), op);
    var orig := fields + [(StrKey(field), op)];
    assert Overrides(fields, [token], accepted) == orig;
    assert Normalised([token], accepted) == [field];
    assert orig[..|orig| - 1] == fields;
    KeptEmpty(fields, [field]);
  }

  /** Quirk (line 424): an accepted override for a field array_search does not
      find unsets index 0, so a requested field declared at index 0 is dropped. */
  lemma IndexZeroDropped(first: string, field: string, op: string, accepted: seq<string>)
    requires ':' !in first && ':' !in field && ':' !in op && op in accepted
    requires first != field
    ensures FieldsSearch([(IntKey(0), first)], Some([first, field + ":" + op]), accepted) == Ok([(StrKey(field), op)])
  {
    var fields := [(IntKey(0), first)];
    var token := field + ":" + op;
    var tokens := [first, token];
    SplitConcat(field, ':', op);
    SplitNoSep(op, ':');
    SplitNoSep(first, ':');
    assert Split(token, ':') == [field, op];
    assert tokens[..1] == [first] && [first][..0] == [];
    var afterFirst := Overrides(fields, [first], accepted);
    assert Overrides(fields, [], accepted) == fields;
    assert afterFirst == OverrideStep(Overrides(fields, [], accepted), first, accepted);
    assert afterFirst == fields;
    assert ArraySearch(fields, field) == None;
    var unset := Unset(fields, IntKey(0));
    assert fields[1..] == [];
    assert unset == Unset(fields[1..], IntKey(0));
    assert unset == [];
    assert Put(unset, StrKey(field), op) == [(StrKey(field), op)];
    assert Overrides(fields, tokens, accepted) == OverrideStep(afterFirst, token, accepted);
    var requested := Normalised(tokens, accepted);
    assert requested == [first, field];
    var orig := [(StrKey(field), op)];
    assert orig[..0] == [];
    assert Kept(orig, requested) == Put(Kept([], requested), StrKey(field), op);
  }

  /** Quirk (lines 420-427) for the package's mixed declaration style
      (`'name' => 'like', 'email'`): an accepted override of `name` finds no
      entry whose value is `name`, so it unsets index 0, which is `email`;
      `email` is then not searched although it is requested. */
  lemma MixedDeclarationDropsIndexZero(name: string, cond: string, other: string, op: string, accepted: seq<string>)
    requires ':' !in name && ':' !in op && ':' !in other && op in accepted
    requires name != cond && name != other
    ensures FieldsSearch([(StrKey(name), cond), (IntKey(0), other)], Some([name + ":" + op, other]), accepted)
      == Ok([(StrKey(name), op)])
  {
    var fields := [(StrKey(name), cond), (IntKey(0), other)];
    var token := name + ":" + op;
    var tokens := [token, other];
    SplitConcat(name, ':', op);
    SplitNoSep(op, ':');
    SplitNoSep(other, ':');
    assert Split(token, ':') == [name, op];
    assert tokens[..1] == [token] && [token][..0] == [];
    assert Overrides(fields, [], accepted) == fields;
    var afterFirst := Overrides(fields, [token], accepted);
    assert afterFirst == OverrideStep(fields, token, accepted);
    assert ArraySearch(fields, name) == None;
    var unset := Unset(fields, IntKey(0));
    assert fields[1..] == [(IntKey(0), other)];
    assert Unset(fields[1..], IntKey(0)) == Unset(fields[1..][1..], IntKey(0));
    assert fields[1..][1..] == [];
    assert unset == [(StrKey(name), cond)];
    assert Put(unset, StrKey(name), op) == [(StrKey(name), op)];
    assert afterFirst == [(StrKey(name), op)];
    assert Overrides(fields, tokens, accepted) == OverrideStep(afterFirst, other, accepted);
    assert Overrides(fields, tokens, accepted) == afterFirst;
    var requested := Normalised(tokens, accepted);
    assert requested == [name, other];
    var orig := [(StrKey(name), op)];
    assert orig[..0] == [];
    assert Kept(orig, requested) == Put(Kept([], requested), StrKey(name), op);
  }
}
