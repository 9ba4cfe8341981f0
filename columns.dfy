/** `detect_column` (rdv_generator.py:19-24): the first column whose
    normalised name contains the normalised keyword. */
module Columns {
  import opened Wrappers
  import opened Text

  /** `keyword_norm in normalize(col)`, for an already normalised keyword. */
  predicate MatchesNormalized(column: string, keywordNorm: string)
  {
    Contains(Normalize(column), keywordNorm)
  }

  /** `normalize(keyword) in normalize(col)`. */
  predicate Matches(column: string, keyword: string)
  {
    MatchesNormalized(column, Normalize(keyword))
  }

  /** The first column that contains `keywordNorm` once normalised, if any. */
  function FirstMatchNormalized(columns: seq<string>, keywordNorm: string): (r: Option<string>)
    ensures r.None? <==> forall i :: 0 <= i < |columns| ==> !MatchesNormalized(columns[i], keywordNorm)
    ensures r.Some? ==>
              exists i :: 0 <= i < |columns| && columns[i] == r.value && MatchesNormalized(r.value, keywordNorm)
                          && forall j :: 0 <= j < i ==> !MatchesNormalized(columns[j], keywordNorm)
  {
    if columns == [] then None
    else if MatchesNormalized(columns[0], keywordNorm) then Some(columns[0])
    else
      var r := FirstMatchNormalized(columns[1..], keywordNorm);
      assert forall i :: 1 <= i < |columns| ==> columns[i] == columns[1..][i - 1];
      r
  }

  /** The specification of `detect_column`: `None` exactly when no column
      matches, otherwise the first matching column. */
  function FirstMatch(columns: seq<string>, keyword: string): (r: Option<string>)
    ensures r.None? <==> forall i :: 0 <= i < |columns| ==> !Matches(columns[i], keyword)
    ensures r.Some? ==>
              exists i :: 0 <= i < |columns| && columns[i] == r.value && Matches(r.value, keyword)
                          && forall j :: 0 <= j < i ==> !Matches(columns[j], keyword)
  {
    FirstMatchNormalized(columns, Normalize(keyword))
  }

  /** The loop of `detect_column`, with its early return. */
  method DetectColumn(columns: seq<string>, keyword: string) returns (r: Option<string>)
    ensures r == FirstMatch(columns, keyword)
  {
    var keywordNorm := Normalize(keyword);
    for i := 0 to |columns|
      invariant FirstMatchNormalized(columns[i..], keywordNorm) == FirstMatch(columns, keyword)
    {
      if Contains(Normalize(columns[i]), keywordNorm) {
        return Some(columns[i]);
      }
      assert columns[i..][1..] == columns[i + 1..];
    }
    return None;
  }

  /** A keyword that normalises to a non-empty text never selects a column
      whose name normalises to the empty text, so the truth test
      `all([col_annee, ...])` (rdv_generator.py:33) is the same as asking
      that every column was found. */
  lemma FoundColumnIsTruthy(columns: seq<string>, keyword: string)
    requires Normalize(keyword) != []
    ensures FirstMatch(columns, keyword).Some? ==> FirstMatch(columns, keyword).value != ""
  {
  }
}
