/** `clean_csv_value` (etl.py): how one field is written into a PostgreSQL `COPY` text stream. */
module CsvValue {

  /** A field as the source holds it: Python's `None`, or any other value, represented by
      its `str()` form. */
  datatype Value = Null | Text(s: string)

  /** How many times `c` occurs in `s`. */
  function Count(s: string, c: char): nat
    decreases |s|
  {
    if s == "" then 0 else (if s[0] == c then 1 else 0) + Count(s[1..], c)
  }

  /** `s.replace('\n', '\\n')`: every newline becomes a backslash followed by `n`. */
  function EscapeNewlines(s: string): (r: string)
    ensures '\n' !in r
    ensures |r| == |s| + Count(s, '\n')
    ensures '\n' !in s ==> r == s
    ensures forall c :: c != '\n' && c != '\\' && c != 'n' ==> (c in r <==> c in s)
    decreases |s|
  {
    if s == "" then ""
    else
      var rest := EscapeNewlines(s[1..]);
      assert s == [s[0]] + s[1..];
      (if s[0] == '\n' then "\\n" else [s[0]]) + rest
  }

  /** The inverse reading: every backslash followed by `n` becomes a newline again. */
  function UnescapeNewlines(r: string): string
    decreases |r|
  {
    if r == "" then ""
    else if |r| >= 2 && r[0] == '\\' && r[1] == 'n' then "\n" + UnescapeNewlines(r[2..])
    else [r[0]] + UnescapeNewlines(r[1..])
  }

  /** Escaping is undone by unescaping as long as the original text has no backslash of its
      own; a backslash in the text is not escaped, so `\n` written literally cannot be told
      apart from an escaped newline. */
  lemma {:induction false} UnescapeEscape(s: string)
    requires '\\' !in s
    ensures UnescapeNewlines(EscapeNewlines(s)) == s
    decreases |s|
  {
    if s != "" {
      assert '\\' !in s[1..] by { assert forall i :: 0 <= i < |s[1..]| ==> s[1..][i] == s[i + 1]; }
      UnescapeEscape(s[1..]);
      var rest := EscapeNewlines(s[1..]);
      if s[0] == '\n' {
        assert EscapeNewlines(s) == "\\n" + rest;
        assert ("\\n" + rest)[2..] == rest;
      } else {
        assert EscapeNewlines(s) == [s[0]] + rest;
        assert ([s[0]] + rest)[1..] == rest;
      }
      assert s == [s[0]] + s[1..];
    }
  }

  /** `clean_csv_value(value)`: `None` is written `\N`, anything else as its text with
      newlines escaped, so a field never breaks a line. */
  function CleanCsvValue(v: Value): (r: string)
    ensures '\n' !in r
    ensures v.Null? ==> r == "\\N"
    ensures v.Text? ==> |r| == |v.s| + Count(v.s, '\n') && ('|' in r <==> '|' in v.s)
  {
    match v
    case Null => "\\N"
    case Text(s) => EscapeNewlines(s)
  }

  /** A non-null field without backslashes can be read back from what is written. */
  lemma CleanCsvValueRecoverable(v: Value)
    requires v.Text? && '\\' !in v.s
    ensures UnescapeNewlines(CleanCsvValue(v)) == v.s
  {
    UnescapeEscape(v.s);
  }

  /** The text `\N` is written exactly like `None`: the encoding does not escape backslashes,
      so a reader of the stream cannot tell the two apart. */
  lemma NullCollision()
    ensures CleanCsvValue(Text("\\N")) == CleanCsvValue(Null)
  {
  }
}
