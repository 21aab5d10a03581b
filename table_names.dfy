/**
 * `validate_table_name`, which each of the four scripts defines with the
 * same body: a table name is interpolated into SQL text, so it must match
 * `^[A-Za-z_][A-Za-z0-9_]*$` in full, and is otherwise refused with a
 * `ValueError`.
 */
module TableNames {

  import opened Results

  const TableNameError: string :=
    "Table name must be alphanumeric/underscore and start with a letter or _."

  predicate IsLetterOrUnderscore(c: char) {
    ('A' <= c <= 'Z') || ('a' <= c <= 'z') || c == '_'
  }

  predicate IsWordChar(c: char) {
    IsLetterOrUnderscore(c) || ('0' <= c <= '9')
  }

  /** An ASCII identifier: the language of the pattern above. */
  predicate IsIdentifier(s: string) {
    s != [] && IsLetterOrUnderscore(s[0]) && forall i :: 1 <= i < |s| ==> IsWordChar(s[i])
  }

  /** `[A-Za-z0-9_]*` matches `s[from..]` to its end. */
  function WordCharsFrom(s: string, from: nat): (b: bool)
    requires from <= |s|
    ensures b <==> forall i :: from <= i < |s| ==> IsWordChar(s[i])
    decreases |s| - from
  {
    from == |s| || (IsWordChar(s[from]) && WordCharsFrom(s, from + 1))
  }

  /** The table-name check of all four scripts: the name back unchanged, or the error. */
  function ValidateTableName(table: string): (r: Result<string>)
    ensures r.Ok? <==> IsIdentifier(table)
    ensures r.Ok? ==> r.value == table
    ensures r.Err? ==> r.message == TableNameError
  {
    if |table| > 0 && IsLetterOrUnderscore(table[0]) && WordCharsFrom(table, 1) then Ok(table)
    else Err(TableNameError)
  }

  /** An accepted name cannot close or extend the SQL text it is pasted into:
      it holds no whitespace, quote, bracket, comma, dot or semicolon. */
  lemma AcceptedNameIsInert(table: string, i: int)
    requires ValidateTableName(table).Ok?
    requires 0 <= i < |table|
    ensures table[i] !in {' ', '\t', '\n', '"', '\'', '`', '(', ')', '[', ']', ',', '.', ';', '-'}
  {
    assert IsWordChar(table[i]);
  }
}
