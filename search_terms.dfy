/**
 * The search-string grammar: `field:value;field:v1:v2;bare`.
 * parserSearchData turns it into a field => value array, parserSearchValue
 * picks the default (bare) value.
 */
module SearchTerms {
  import opened Results
  import opened PhpStrings
  import opened PhpArrays
  import opened QueryOps

  /** What one `;`-token contributes (RequestCriteria.php lines 355-364):
      `f:v` gives f => "v", `f:v1:…:vn` gives f => ["v1", …, "vn"], and a token
      without `:` gives nothing (list() reads a missing offset; the error is
      caught at line 375 and the token skipped). */
  function TermOf(token: string): Option<(string, Value)>
  {
    var parts := Split(token, ':');
    if |parts| > 2 then Some((parts[0], Arr(Strs(parts[1..]))))
    else if |parts| == 2 then Some((parts[0], Str(parts[1])))
    else None
  }

  /** The array parserSearchData builds from the tokens, `$searchData[$field] = $value` one token at a time. */
  function Terms(tokens: seq<string>): seq<(string, Value)>
  {
    if |tokens| == 0 then []
    else
      AddTerm(Terms(tokens[..|tokens| - 1]), tokens[|tokens| - 1])
  }

  /** One token's `$searchData[$field] = $value`, or nothing for a token without `:`. */
  function AddTerm(data: seq<(string, Value)>, token: string): seq<(string, Value)>
  {
    match TermOf(token)
    case Some((field, value)) => Put(data, field, value)
    case None => data
  }

  /** Reference reading: the value of `field` is the one given by the LAST token naming it. */
  function LastTerm(tokens: seq<string>, field: string): Option<Value>
  {
    if |tokens| == 0 then None
    else
      match TermOf(tokens[|tokens| - 1])
      case Some((f, value)) => if f == field then Some(value) else LastTerm(tokens[..|tokens| - 1], field)
      case None => LastTerm(tokens[..|tokens| - 1], field)
  }

  /** parserSearchData's result: nothing unless `:` is found after position 0 (line 349). */
  function SearchData(search: string): seq<(string, Value)>
  {
    if FoundAfterStart(search, ':') then Terms(Split(search, ';')) else []
  }

  /** A later token for a field overwrites an earlier one; fields no token names are absent. */
  lemma {:induction false} TermsLookup(tokens: seq<string>, field: string)
    ensures Get(Terms(tokens), field) == LastTerm(tokens, field)
    decreases |tokens|
  {
    if |tokens| > 0 {
      TermsLookup(tokens[..|tokens| - 1], field);
    }
  }

  /** parserSearchData (lines 345-382). */
  method ParseSearchData(search: string) returns (data: seq<(string, Value)>)
    ensures data == SearchData(search)
  {
    data := [];
    if FoundAfterStart(search, ':') {
      var rows := Split(search, ';');
      var i := 0;
      while i < |rows|
        invariant 0 <= i <= |rows|
        invariant data == Terms(rows[..i])
      {
        assert rows[..i + 1][..i] == rows[..i] && rows[..i + 1][i] == rows[i];
        data := ParseToken(data, rows[i]);
        i := i + 1;
      }
      assert rows[..|rows|] == rows;
    }
  }

  /** The body of parserSearchData's loop (lines 355-364) for one token. */
  method ParseToken(data: seq<(string, Value)>, row: string) returns (next: seq<(string, Value)>)
    ensures next == AddTerm(data, row)
  {
    next := data;
    var fieldAndValues := Split(row, ':');
    if |fieldAndValues| > 2 {
      next := Put(data, fieldAndValues[0], Arr(Strs(fieldAndValues[1..])));
    } else if |fieldAndValues| == 2 {
      next := Put(data, fieldAndValues[0], Str(fieldAndValues[1]));
    }
  }

  /** The value parserSearchData gives a field is the one of the last token
      naming it, and there is none unless `:` follows position 0. */
  lemma SearchDataLookup(search: string, tokens: seq<string>, field: string)
    requires tokens == Split(search, ';')
    ensures Get(SearchData(search), field) == if FoundAfterStart(search, ':') then LastTerm(tokens, field) else None
  {
    TermsLookup(tokens, field);
  }

  /** A two-part token `f:v` binds f to the string v. */
  lemma TermOfPair(field: string, value: string)
    requires ':' !in field && ':' !in value
    ensures TermOf(field + ":" + value) == Some((field, Str(value)))
  {
    SplitConcat(field, ':', value);
    SplitNoSep(value, ':');
  }

  /** A token `f:v1:…:vn` with n >= 2 binds f to the list [v1, …, vn]. */
  lemma TermOfList(field: string, values: seq<string>)
    requires ':' !in field && |values| >= 2
    requires forall i :: 0 <= i < |values| ==> ':' !in values[i]
    ensures TermOf(field + ":" + Join(values, ':')) == Some((field, Arr(Strs(values))))
  {
    SplitConcat(field, ':', Join(values, ':'));
    SplitJoin(values, ':');
    assert ([field] + values)[1..] == values;
  }

  /** A token without `:` binds nothing. */
  lemma TermOfBare(token: string)
    requires ':' !in token
    ensures TermOf(token) == None
  {
    SplitNoSep(token, ':');
  }

  /** For a search string written as `;`-joined tokens, each field gets the value
      of the last token naming it — provided a `:` follows position 0. */
  lemma SearchDataOfTokens(tokens: seq<string>, field: string)
    requires |tokens| >= 1
    requires forall i :: 0 <= i < |tokens| ==> ';' !in tokens[i]
    requires FoundAfterStart(Join(tokens, ';'), ':')
    ensures Get(SearchData(Join(tokens, ';')), field) == LastTerm(tokens, field)
  {
    SplitJoin(tokens, ';');
    TermsLookup(tokens, field);
  }

  /** The index of the first token holding no `:` (|tokens| when there is none).
      `count(explode(':', $v)) == 1` is `':' !in v` (PhpStrings.SplitNoSep, SplitHasSep). */
  function FirstBareIndex(tokens: seq<string>): (k: nat)
    ensures k <= |tokens|
    ensures forall j :: 0 <= j < k ==> ':' in tokens[j]
    ensures k < |tokens| ==> ':' !in tokens[k]
  {
    if |tokens| == 0 then 0
    else if ':' !in tokens[0] then 0
    else 1 + FirstBareIndex(tokens[1..])
  }

  /** The first token holding no `:`, or null when every token holds one. */
  function FirstBare(tokens: seq<string>): (r: Option<string>)
    ensures r.None? <==> forall j :: 0 <= j < |tokens| ==> ':' in tokens[j]
    ensures r.Some? ==> exists k :: 0 <= k < |tokens| && tokens[k] == r.value && ':' !in tokens[k]
                                   && forall j :: 0 <= j < k ==> ':' in tokens[j]
  {
    var k := FirstBareIndex(tokens);
    if k < |tokens| then Some(tokens[k]) else None
  }

  /** parserSearchValue (lines 389-405): the default search value. */
  function SearchValue(search: string): (r: Option<string>)
    ensures !(FoundAfterStart(search, ';') || FoundAfterStart(search, ':')) ==> r == Some(search)
  {
    if FoundAfterStart(search, ';') || FoundAfterStart(search, ':') then FirstBare(Split(search, ';'))
    else Some(search)
  }

  /** When `;` or `:` follows position 0, the default value is the first `;`-token
      without `:`, or null when there is none; otherwise it is the whole search string. */
  lemma SearchValueCases(search: string, tokens: seq<string>)
    requires tokens == Split(search, ';')
    ensures !(FoundAfterStart(search, ';') || FoundAfterStart(search, ':')) ==> SearchValue(search) == Some(search)
    ensures FoundAfterStart(search, ';') || FoundAfterStart(search, ':') ==>
      (SearchValue(search).None? <==> forall j :: 0 <= j < |tokens| ==> ':' in tokens[j])
    ensures FoundAfterStart(search, ';') || FoundAfterStart(search, ':') ==>
      var r := SearchValue(search);
      r.Some? ==> exists k :: 0 <= k < |tokens| && tokens[k] == r.value && ':' !in tokens[k]
                              && forall j :: 0 <= j < k ==> ':' in tokens[j]
  {
  }
}
