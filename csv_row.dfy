/** A parsed record: an immutable map from lower-cased, trimmed header name to
    trimmed value, set once at construction. */
module CsvRows {
  import opened Wrappers
  import opened JavaStrings

  datatype CsvRow = CsvRow(values: map<string, string>) {

    /** getValue: looks the lower-cased name up; absent exactly when that key is missing. */
    function GetValue(headerName: string): (r: Option<string>)
      ensures r.Some? <==> ToLower(headerName) in values
      ensures r.Some? ==> r.value == values[ToLower(headerName)]
    {
      var key := ToLower(headerName);
      if key in values then Some(values[key]) else None
    }
  }

  /** Two names that lower-case alike find the same value. */
  lemma CaseInsensitive(row: CsvRow, h1: string, h2: string)
    requires ToLower(h1) == ToLower(h2)
    ensures row.GetValue(h1) == row.GetValue(h2)
  {
  }

  /** Lower-casing the argument first changes nothing. */
  lemma LowerCasedArgument(row: CsvRow, h: string)
    ensures row.GetValue(ToLower(h)) == row.GetValue(h)
  {
    ToLowerIdempotent(h);
  }

  /** The argument is not trimmed: " a" does not find the key "a". */
  lemma ArgumentNotTrimmed(v: string)
    ensures CsvRow(map["a" := v]).GetValue(" a") == None
    ensures CsvRow(map["a" := v]).GetValue("A") == Some(v)
  {
    assert ToLower(" a") == " a";
    assert ToLower("A") == "a";
  }
}
