/** CsvParser: parseLine scans one line with a cursor and builds a record;
    parse reads the header line and then every data line in turn. */
module CsvParser {
  import opened Wrappers
  import opened JavaStrings
  import opened CsvErrors
  import opened CsvRows
  import opened CsvSyntax

  /** What the scan of part of a field gives: the characters it appends to the
      entry and the cursor after it, or the kind of error it throws. */
  datatype FieldScan = Read(entry: string, next: nat) | Unterminated(kind: ErrorKind)

  /** The header list: the header line lower-cased, split on commas. */
  function Headers(headerLine: string): (hs: seq<string>)
    ensures forall i :: 0 <= i < |hs| ==> Comma !in hs[i] && IsLower(hs[i])
  {
    ToLowerFixes(headerLine);
    SplitKeepsLower(ToLower(headerLine), Comma);
    Split(ToLower(headerLine), Comma)
  }

  /** The record map, filled left to right from trimmed header to trimmed value. */
  function RecordOf(headers: seq<string>, values: seq<string>): map<string, string>
    requires |headers| == |values|
  {
    if values == [] then map[]
    else
      var n := |values| - 1;
      RecordOf(headers[..n], values[..n])[Trim(headers[n]) := Trim(values[n])]
  }

  /** The record's keys are exactly the trimmed headers. */
  lemma {:induction false} RecordKeys(headers: seq<string>, values: seq<string>, k: string)
    requires |headers| == |values|
    ensures k in RecordOf(headers, values) <==> exists i :: 0 <= i < |headers| && Trim(headers[i]) == k
  {
    if values != [] {
      var n := |values| - 1;
      var prefix := headers[..n];
      RecordKeys(prefix, values[..n], k);
      if k in RecordOf(headers, values) && k != Trim(headers[n]) {
        var i :| 0 <= i < n && Trim(prefix[i]) == k;
        assert Trim(headers[i]) == k;
      }
      if exists i :: 0 <= i < |headers| && Trim(headers[i]) == k {
        var i :| 0 <= i < |headers| && Trim(headers[i]) == k;
        if i < n {
          assert Trim(prefix[i]) == k;
        }
      }
    }
  }

  /** A header with no duplicate after it maps to its own trimmed value, so
      of duplicate headers the last one wins. */
  lemma {:induction false} RecordLastWins(headers: seq<string>, values: seq<string>, i: nat)
    requires |headers| == |values| && i < |headers|
    requires forall j :: i < j < |headers| ==> Trim(headers[j]) != Trim(headers[i])
    ensures Trim(headers[i]) in RecordOf(headers, values)
    ensures RecordOf(headers, values)[Trim(headers[i])] == Trim(values[i])
  {
    var n := |values| - 1;
    if i < n {
      var prefix := headers[..n];
      assert forall j :: i < j < n ==> prefix[j] == headers[j];
      RecordLastWins(prefix, values[..n], i);
      assert Trim(headers[n]) != Trim(headers[i]);
      assert prefix[i] == headers[i] && values[..n][i] == values[i];
    }
  }

  /** What parseLine returns or throws for one line. */
  function ParseLineSpec(line: string, lineNum: int, headers: seq<string>): (r: Result<CsvRow, CsvParsingException>)
    ensures r.Success? <==> Fields(line).Success? && |Fields(line).value| == |headers|
    ensures r.Failure? ==> r.error.line == line && r.error.lineNum == lineNum && r.error.kind != FailedToRead
  {
    match Fields(line)
    case Failure(k) => Failure(CsvParsingException(k, line, lineNum))
    case Success(vs) =>
      if |vs| != |headers| then Failure(CsvParsingException(CountMismatch(|vs|, |headers|), line, lineNum))
      else Success(CsvRow(RecordOf(headers, vs)))
  }

  /** On a parsed line, getValue finds a value exactly when the lower-cased
      name is one of the trimmed headers. */
  lemma LookupFound(line: string, lineNum: int, headers: seq<string>, name: string)
    requires ParseLineSpec(line, lineNum, headers).Success?
    ensures ParseLineSpec(line, lineNum, headers).value.GetValue(name).Some?
        <==> exists i :: 0 <= i < |headers| && Trim(headers[i]) == ToLower(name)
  {
    RecordKeys(headers, Fields(line).value, ToLower(name));
  }

  /** The value found is the trimmed field under the last header of that name. */
  lemma LookupValue(line: string, lineNum: int, headers: seq<string>, name: string, i: nat)
    requires ParseLineSpec(line, lineNum, headers).Success?
    requires i < |headers| && Trim(headers[i]) == ToLower(name)
    requires forall j :: i < j < |headers| ==> Trim(headers[j]) != Trim(headers[i])
    ensures Fields(line).Success? && |Fields(line).value| == |headers|
    ensures ParseLineSpec(line, lineNum, headers).value.GetValue(name) == Some(Trim(Fields(line).value[i]))
  {
    RecordLastWins(headers, Fields(line).value, i);
  }

  /** Under a header line every key of a parsed row is already lower-case, so
      getValue reaches every column by its key. */
  lemma KeysReachable(headerLine: string, line: string, lineNum: int, k: string)
    requires ParseLineSpec(line, lineNum, Headers(headerLine)).Success?
    requires k in ParseLineSpec(line, lineNum, Headers(headerLine)).value.values
    ensures var row := ParseLineSpec(line, lineNum, Headers(headerLine)).value;
      row.GetValue(k) == Some(row.values[k])
  {
    var headers := Headers(headerLine);
    RecordKeys(headers, Fields(line).value, k);
    var i :| 0 <= i < |headers| && Trim(headers[i]) == k;
    TrimKeepsLower(headers[i]);
    ToLowerFixes(k);
  }

  // Steps of the specification at a cursor position, used by the loops below.

  lemma PrefixedScanAppend(a: string, b: string, x: Result<Scanned, ErrorKind>)
    ensures PrefixedScan(a, PrefixedScan(b, x)) == PrefixedScan(a + b, x)
    ensures PrefixedScan([], x) == x
  {
    if x.Success? {
      assert a + (b + x.value.value) == (a + b) + x.value.value;
      assert [] + x.value.value == x.value.value;
    }
  }

  lemma PrefixedFieldsAppend(a: seq<string>, b: seq<string>, x: Result<seq<string>, ErrorKind>)
    ensures PrefixedFields(a, PrefixedFields(b, x)) == PrefixedFields(a + b, x)
    ensures PrefixedFields([], x) == x
  {
    if x.Success? {
      assert a + (b + x.value) == (a + b) + x.value;
      assert [] + x.value == x.value;
    }
  }

  lemma UnquotedStep(line: string, pos: nat)
    requires pos < |line| && line[pos] != Comma
    ensures UnquotedLen(line[pos..]) == 1 + UnquotedLen(line[pos + 1..])
  {
    assert line[pos..][1..] == line[pos + 1..];
  }

  lemma EmbeddedStep(line: string, pos: nat)
    requires pos + 2 <= |line| && !PairAt(line, pos)
    ensures EmbeddedLen(line[pos..]) == 1 + EmbeddedLen(line[pos + 1..])
  {
    assert line[pos..][1..] == line[pos + 1..];
  }

  lemma EmbeddedStop(line: string, pos: nat)
    requires pos <= |line|
    requires !(pos + 2 <= |line|) || PairAt(line, pos)
    ensures EmbeddedLen(line[pos..]) == 0
  {
  }

  lemma QuotedCharStep(line: string, pos: nat)
    requires pos < |line| && line[pos] != Quote
    ensures QuotedBody(line[pos..]) == PrefixedScan([line[pos]], QuotedBody(line[pos + 1..]))
  {
    assert line[pos..][1..] == line[pos + 1..];
  }

  lemma QuotedCloseStep(line: string, pos: nat)
    requires pos < |line| && line[pos] == Quote && !PairAt(line, pos)
    ensures QuotedBody(line[pos..]) == Success(Scanned([], line[pos + 1..]))
  {
    assert line[pos..][1..] == line[pos + 1..];
  }

  lemma QuotedPairStep(line: string, pos: nat, end: nat)
    requires PairAt(line, pos)
    requires end == pos + 2 + EmbeddedLen(line[pos + 2..])
    ensures end + 2 > |line| ==> QuotedBody(line[pos..]) == Failure(UnterminatedEmbedded)
    ensures end + 2 <= |line| ==>
      QuotedBody(line[pos..]) == PrefixedScan([Quote] + line[pos + 2..end] + [Quote], QuotedBody(line[end + 2..]))
  {
    var r := line[pos..];
    assert r[2..] == line[pos + 2..];
    assert PairAt(r, 0);
    assert QuotedBody(r) == EmbeddedBody(r);
    var q := end - pos - 2;
    if end + 2 <= |line| {
      assert r[2..][..q] == line[pos + 2..end];
      assert r[2..][q + 2..] == line[end + 2..];
    }
  }

  lemma SliceExtend(line: string, from: nat, stop: nat)
    requires from <= stop < |line|
    ensures line[from..stop + 1] == line[from..stop] + [line[stop]]
  {
  }

  lemma FieldsFailStep(r: string)
    requires r != [] && Field(r).Failure?
    ensures Fields(r) == Failure(Field(r).error)
  {
  }

  lemma RecordOfStep(headers: seq<string>, values: seq<string>, i: nat)
    requires |headers| == |values| && i < |values|
    ensures RecordOf(headers[..i + 1], values[..i + 1])
         == RecordOf(headers[..i], values[..i])[Trim(headers[i]) := Trim(values[i])]
  {
    assert headers[..i + 1][..i] == headers[..i];
    assert values[..i + 1][..i] == values[..i];
  }

  /** The verbatim run after an embedded "": copies characters until a "" or
      until fewer than two characters remain. */
  method ScanEmbedded(line: string, from: nat) returns (run: string, stop: nat)
    requires from <= |line|
    ensures stop == from + EmbeddedLen(line[from..])
    ensures stop <= |line| && run == line[from..stop]
  {
    run, stop := [], from;
    while stop + 2 <= |line| && !(line[stop] == Quote && line[stop + 1] == Quote)
      invariant from <= stop <= |line|
      invariant run == line[from..stop]
      invariant EmbeddedLen(line[from..]) == (stop - from) + EmbeddedLen(line[stop..])
      decreases |line| - stop
    {
      EmbeddedStep(line, stop);
      SliceExtend(line, from, stop);
      run := run + [line[stop]];
      stop := stop + 1;
    }
    EmbeddedStop(line, stop);
  }

  /** An embedded "" at pos: the verbatim run after it must end in another "",
      and both pairs add one quote each to the entry. */
  method ScanPair(line: string, pos: nat) returns (r: FieldScan)
    requires PairAt(line, pos)
    ensures r.Read? ==> pos < r.next <= |line|
    ensures r.Read? ==> QuotedBody(line[pos..]) == PrefixedScan(r.entry, QuotedBody(line[r.next..]))
    ensures r.Unterminated? ==> QuotedBody(line[pos..]) == Failure(r.kind)
  {
    var run, stop := ScanEmbedded(line, pos + 2);
    QuotedPairStep(line, pos, stop);
    if !(stop + 2 <= |line|) {
      r := Unterminated(UnterminatedEmbedded);
    } else {
      var piece := [Quote] + run + [Quote];
      assert QuotedBody(line[pos..]) == PrefixedScan(piece, QuotedBody(line[stop + 2..]));
      r := Read(piece, stop + 2);
    }
  }

  /** The body of a quoted field, from just after the opening quote to just
      after the closing quote. */
  method ScanQuoted(line: string, open: nat) returns (r: FieldScan)
    requires open <= |line|
    ensures r.Read? ==> r.next <= |line| && QuotedBody(line[open..]) == Success(Scanned(r.entry, line[r.next..]))
    ensures r.Unterminated? ==> QuotedBody(line[open..]) == Failure(r.kind)
  {
    var entry: string := [];
    var pos := open;
    PrefixedScanAppend([], [], QuotedBody(line[open..]));
    while pos < |line|
      invariant open <= pos <= |line|
      invariant QuotedBody(line[open..]) == PrefixedScan(entry, QuotedBody(line[pos..]))
      decreases |line| - pos
    {
      if line[pos] == Quote {
        if pos + 2 <= |line| && line[pos + 1] == Quote {
          var pair := ScanPair(line, pos);
          if pair.Unterminated? {
            r := pair;
            return;
          }
          PrefixedScanAppend(entry, pair.entry, QuotedBody(line[pair.next..]));
          entry, pos := entry + pair.entry, pair.next;
          continue;
        }
        QuotedCloseStep(line, pos);
        assert entry + [] == entry;
        r := Read(entry, pos + 1);
        return;
      }
      QuotedCharStep(line, pos);
      PrefixedScanAppend(entry, [line[pos]], QuotedBody(line[pos + 1..]));
      entry := entry + [line[pos]];
      pos := pos + 1;
    }
    assert line[pos..] == [];
    r := Unterminated(UnterminatedQuoted);
  }

  /** An unquoted field: copies characters up to a comma or the end of line. */
  method ScanUnquoted(line: string, start: nat) returns (entry: string, stop: nat)
    requires start <= |line|
    ensures stop == start + UnquotedLen(line[start..])
    ensures stop <= |line| && entry == line[start..stop]
  {
    entry, stop := [], start;
    while stop < |line| && line[stop] != Comma
      invariant start <= stop <= |line|
      invariant entry == line[start..stop]
      invariant UnquotedLen(line[start..]) == (stop - start) + UnquotedLen(line[stop..])
      decreases |line| - stop
    {
      UnquotedStep(line, stop);
      SliceExtend(line, start, stop);
      entry := entry + [line[stop]];
      stop := stop + 1;
    }
  }

  /** Fills the record map left to right from trimmed header to trimmed value. */
  method FillRecord(headers: seq<string>, values: seq<string>) returns (record: map<string, string>)
    requires |headers| == |values|
    ensures record == RecordOf(headers, values)
  {
    record := map[];
    for i := 0 to |values|
      invariant record == RecordOf(headers[..i], values[..i])
    {
      RecordOfStep(headers, values, i);
      record := record[Trim(headers[i]) := Trim(values[i])];
    }
    assert headers[..|values|] == headers && values[..|values|] == values;
  }

  lemma FieldAt(line: string, start: nat)
    requires start < |line|
    ensures line[start] == Quote ==> Field(line[start..]) == QuotedBody(line[start + 1..])
    ensures line[start] != Quote ==>
      var n := UnquotedLen(line[start..]);
      Field(line[start..]) == Success(Scanned(line[start..start + n], line[start + n..]))
  {
    assert line[start..][1..] == line[start + 1..];
    var n := UnquotedLen(line[start..]);
    assert line[start..][..n] == line[start..start + n];
    assert line[start..][n..] == line[start + n..];
  }

  /** After a field that ends at stop, the delimiter there is consumed; when
      that empties the line an empty field is added. */
  lemma FieldsAfterField(line: string, start: nat, before: seq<string>, entry: string, stop: nat,
                         values: seq<string>, pos: nat)
    requires start < |line| && stop <= |line|
    requires Fields(line) == PrefixedFields(before, Fields(line[start..]))
    requires Field(line[start..]) == Success(Scanned(entry, line[stop..]))
    requires stop == |line| ==> values == before + [entry] && pos == stop
    requires stop + 1 == |line| ==> values == before + [entry] + [[]] && pos == stop + 1
    requires stop + 1 < |line| ==> values == before + [entry] && pos == stop + 1
    ensures pos <= |line|
    ensures Fields(line) == PrefixedFields(values, Fields(line[pos..]))
  {
    var rest := line[stop..];
    FieldsStep(line[start..], entry, rest);
    if stop == |line| {
      LineEndsAfterField(line, before, entry, pos);
    } else if stop + 1 == |line| {
      LineEndsAfterDelimiter(line, before, entry, pos);
    } else {
      assert rest[1..] == line[pos..];
      PrefixedFieldsAppend(before, [entry], Fields(line[pos..]));
    }
  }

  lemma LineEndsAfterField(line: string, before: seq<string>, entry: string, pos: nat)
    requires pos == |line|
    ensures PrefixedFields(before, Success([entry])) == PrefixedFields(before + [entry], Fields(line[pos..]))
  {
    assert line[pos..] == [];
    assert before + [entry] + [] == before + [entry];
  }

  lemma LineEndsAfterDelimiter(line: string, before: seq<string>, entry: string, pos: nat)
    requires pos == |line|
    ensures PrefixedFields(before, Success([entry, []])) == PrefixedFields(before + [entry] + [[]], Fields(line[pos..]))
  {
    assert line[pos..] == [];
    assert before + [entry] + [[]] + [] == before + [entry, []];
  }

  /** One field at the cursor: quoted when it starts with a quote, otherwise
      the run up to the next comma. */
  method ScanField(line: string, start: nat) returns (r: FieldScan)
    requires start < |line|
    ensures r.Read? ==> r.next <= |line| && Field(line[start..]) == Success(Scanned(r.entry, line[r.next..]))
    ensures r.Unterminated? ==> Field(line[start..]) == Failure(r.kind)
  {
    FieldAt(line, start);
    if line[start] == Quote {
      r := ScanQuoted(line, start + 1);
    } else {
      var entry, stop := ScanUnquoted(line, start);
      r := Read(entry, stop);
    }
  }

  /** parseLine: scans the line field by field, consuming one delimiter after
      each field, then checks the field count and builds the record. */
  method ParseLine(line: string, lineNum: int, headers: seq<string>) returns (r: Result<CsvRow, CsvParsingException>)
    ensures r == ParseLineSpec(line, lineNum, headers)
  {
    var values: seq<string> := [];
    var pos: nat := 0;
    assert line[pos..] == line;
    PrefixedFieldsAppend([], [], Fields(line));
    while pos < |line|
      invariant pos <= |line|
      invariant Fields(line) == PrefixedFields(values, Fields(line[pos..]))
      decreases |line| - pos
    {
      var start := pos;
      var scanned := ScanField(line, start);
      if scanned.Unterminated? {
        FieldsFailStep(line[start..]);
        r := Failure(CsvParsingException(scanned.kind, line, lineNum));
        return;
      }
      ghost var before := values;
      var entry;
      entry, pos := scanned.entry, scanned.next;
      ghost var stop := pos;
      values := values + [entry];
      if pos < |line| {
        pos := pos + 1;
        if pos >= |line| {
          values := values + [[]];
        }
      }
      FieldsAfterField(line, start, before, entry, stop, values, pos);
    }
    assert line[pos..] == [];
    assert values + [] == values;
    if |values| != |headers| {
      r := Failure(CsvParsingException(CountMismatch(|values|, |headers|), line, lineNum));
      return;
    }
    var record := FillRecord(headers, values);
    r := Success(CsvRow(record));
  }

  /** parse: reads the header line (a missing one is dereferenced and throws a
      NullPointerException), lower-cases and splits it, then parses every
      remaining line in order, numbering them from 2; the first exception
      ends the parse. */
  method Parse(headerLine: Option<string>, lines: seq<string>) returns (r: Result<seq<CsvRow>, Thrown>)
    ensures headerLine.None? ==> r == Failure(NullPointer)
    ensures headerLine.Some? && r.Success? ==>
      |r.value| == |lines| &&
      forall k :: 0 <= k < |lines| ==> ParseLineSpec(lines[k], k + 2, Headers(headerLine.value)) == Success(r.value[k])
    ensures headerLine.Some? && r.Failure? ==>
      exists k :: 0 <= k < |lines| && FirstFailure(lines, Headers(headerLine.value), k) &&
        r.error == Parsing(ParseLineSpec(lines[k], k + 2, Headers(headerLine.value)).error)
    ensures r.Failure? && r.error.Parsing? ==> r.error.exception.kind != FailedToRead
  {
    if headerLine.None? {
      return Failure(NullPointer);
    }
    var headers := Split(ToLower(headerLine.value), Comma);
    var rows: seq<CsvRow> := [];
    var lineCount := 1;
    var i := 0;
    while i < |lines|
      invariant 0 <= i <= |lines| && lineCount == i + 1 && |rows| == i
      invariant forall k :: 0 <= k < i ==> ParseLineSpec(lines[k], k + 2, headers) == Success(rows[k])
    {
      lineCount := lineCount + 1;
      var row := ParseLine(lines[i], lineCount, headers);
      if row.Failure? {
        assert FirstFailure(lines, headers, i);
        return Failure(Parsing(row.error));
      }
      rows := rows + [row.value];
      i := i + 1;
    }
    r := Success(rows);
  }

  /** Line k is the first line of the document that parseLine rejects. */
  ghost predicate FirstFailure(lines: seq<string>, headers: seq<string>, k: nat)
    requires k < |lines|
  {
    && ParseLineSpec(lines[k], k + 2, headers).Failure?
    && forall j :: 0 <= j < k ==> ParseLineSpec(lines[j], j + 2, headers).Success?
  }
}
