/**
 * The PHP string primitives the criteria compiler is built from:
 * explode / implode with a one-character separator, the truthiness of a
 * `stripos` result, PHP's truthiness of a string, strtolower and trim.
 */
module PhpStrings {

  /** explode($sep, $s): the pieces of `s` between occurrences of `sep`.
      PHP never returns an empty array here: explode(';', "") is [""]. */
  function Split(s: string, sep: char): (r: seq<string>)
    ensures |r| >= 1
    ensures forall i :: 0 <= i < |r| ==> sep !in r[i]
    decreases |s|
  {
    if |s| == 0 then [""]
    else
      var rest := Split(s[1..], sep);
      if s[0] == sep then [""] + rest
      else [[s[0]] + rest[0]] + rest[1..]
  }

  /** implode($sep, $parts). */
  function Join(parts: seq<string>, sep: char): string
  {
    if |parts| == 0 then ""
    else if |parts| == 1 then parts[0]
    else parts[0] + [sep] + Join(parts[1..], sep)
  }

  /** `if (stripos($s, $c))`: stripos gives the index of the FIRST occurrence,
      and an index of 0 is as falsy as "not found". So the test holds exactly
      when `c` occurs and `s` does not start with it. */
  predicate FoundAfterStart(s: string, c: char)
  {
    |s| > 0 && s[0] != c && c in s
  }

  /** PHP's truthiness of a string: "" and "0" are false, every other string is true. */
  predicate Truthy(s: string)
  {
    s != "" && s != "0"
  }

  function LowerChar(c: char): char
  {
    if 'A' <= c <= 'Z' then (c as int + 32) as char else c
  }

  /** strtolower (ASCII letters only). */
  function ToLower(s: string): (r: string)
    ensures |r| == |s|
    ensures forall i :: 0 <= i < |s| ==> r[i] == LowerChar(s[i])
  {
    if |s| == 0 then "" else [LowerChar(s[0])] + ToLower(s[1..])
  }

  /** The characters PHP's trim() strips by default: " \t\n\r\0\x0B". */
  predicate IsTrimChar(c: char)
  {
    c == ' ' || c == '\t' || c == '\n' || c == '\r' || c == '\0' || c == '\U{000B}'
  }

  function TrimStart(s: string): (r: string)
    ensures |r| <= |s| && r == s[|s| - |r|..]
    ensures forall i :: 0 <= i < |s| - |r| ==> IsTrimChar(s[i])
    ensures |r| > 0 ==> !IsTrimChar(r[0])
  {
    if |s| > 0 && IsTrimChar(s[0]) then TrimStart(s[1..]) else s
  }

  function TrimEnd(s: string): (r: string)
    ensures |r| <= |s| && r == s[..|r|]
    ensures forall i :: |r| <= i < |s| ==> IsTrimChar(s[i])
    ensures |r| > 0 ==> !IsTrimChar(r[|r| - 1])
  {
    if |s| > 0 && IsTrimChar(s[|s| - 1]) then TrimEnd(s[..|s| - 1]) else s
  }

  /** trim($s). */
  function Trim(s: string): string
  {
    TrimEnd(TrimStart(s))
  }

  /** trim($s) === "" exactly when every character of `s` is one trim() strips. */
  lemma TrimBlank(s: string)
    ensures Trim(s) == "" <==> forall i :: 0 <= i < |s| ==> IsTrimChar(s[i])
  {
    var t := TrimStart(s);
    if !forall i :: 0 <= i < |s| ==> IsTrimChar(s[i]) {
      var i :| 0 <= i < |s| && !IsTrimChar(s[i]);
      assert |t| > 0 && !IsTrimChar(t[0]);
    }
  }

  /** A string with no upper-case ASCII letter is its own strtolower. */
  lemma {:induction false} ToLowerIdentity(s: string)
    requires forall i :: 0 <= i < |s| ==> !('A' <= s[i] <= 'Z')
    ensures ToLower(s) == s
  {
    if |s| > 0 {
      ToLowerIdentity(s[1..]);
      assert s == [s[0]] + s[1..];
    }
  }

  /** A string that neither starts nor ends with a trim() character is its own trim(). */
  lemma TrimIdentity(s: string)
    requires |s| > 0 ==> !IsTrimChar(s[0]) && !IsTrimChar(s[|s| - 1])
    ensures Trim(s) == s
  {
  }

  /** The pieces explode() returns glue back to the original string (implode
      undoes explode). */
  lemma {:induction false} JoinSplit(s: string, c: char)
    ensures Join(Split(s, c), c) == s
    decreases |s|
  {
    if |s| > 0 {
      var rest := Split(s[1..], c);
      JoinSplit(s[1..], c);
      if s[0] == c {
        assert ([""] + rest)[1..] == rest;
        assert s == [c] + s[1..];
      } else {
        var r := [[s[0]] + rest[0]] + rest[1..];
        if |rest| == 1 {
          assert s == [s[0]] + s[1..];
        } else {
          assert r[1..] == rest[1..];
          assert Join(rest, c) == rest[0] + [c] + Join(rest[1..], c);
          assert s == [s[0]] + s[1..];
        }
      }
    }
  }

  /** A string without the separator explodes to itself alone. */
  lemma {:induction false} SplitNoSep(s: string, c: char)
    requires c !in s
    ensures Split(s, c) == [s]
    decreases |s|
  {
    if |s| > 0 {
      SplitNoSep(s[1..], c);
      assert s == [s[0]] + s[1..];
    }
  }

  /** A string holding the separator explodes to at least two pieces; together
      with SplitNoSep: count(explode($c, $s)) == 1 exactly when $c is not in $s. */
  lemma {:induction false} SplitHasSep(s: string, c: char)
    requires c in s
    ensures |Split(s, c)| >= 2
    decreases |s|
  {
    if s[0] != c {
      SplitHasSep(s[1..], c);
    }
  }

  /** explode on `a . sep . b` yields `a` followed by the pieces of `b`, when
      `a` has no separator. */
  lemma {:induction false} SplitConcat(a: string, c: char, b: string)
    requires c !in a
    ensures Split(a + [c] + b, c) == [a] + Split(b, c)
    decreases |a|
  {
    var s := a + [c] + b;
    if |a| == 0 {
      assert s == [c] + b;
      assert s[1..] == b;
    } else {
      SplitConcat(a[1..], c, b);
      assert s[1..] == a[1..] + [c] + b;
      assert s[0] == a[0];
      assert [a[0]] + a[1..] == a;
    }
  }

  /** explode undoes implode when no piece holds the separator. */
  lemma {:induction false} SplitJoin(parts: seq<string>, c: char)
    requires |parts| >= 1
    requires forall i :: 0 <= i < |parts| ==> c !in parts[i]
    ensures Split(Join(parts, c), c) == parts
    decreases |parts|
  {
    if |parts| == 1 {
      SplitNoSep(parts[0], c);
    } else {
      SplitJoin(parts[1..], c);
      SplitConcat(parts[0], c, Join(parts[1..], c));
      assert [parts[0]] + parts[1..] == parts;
    }
  }

  /** implode of all pieces is implode of all but the last, the separator and the last. */
  lemma {:induction false} JoinSnoc(parts: seq<string>, c: char)
    requires |parts| >= 2
    ensures Join(parts, c) == Join(parts[..|parts| - 1], c) + [c] + parts[|parts| - 1]
    decreases |parts|
  {
    if |parts| > 2 {
      JoinSnoc(parts[1..], c);
      assert parts[1..][..|parts| - 2] == parts[..|parts| - 1][1..];
    }
  }
}
