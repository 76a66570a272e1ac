/** How parseLine splits one line into field values, stated as functions of
    the part of the line that the cursor has not yet consumed. */
module CsvSyntax {
  import opened Wrappers
  import opened JavaStrings
  import opened CsvErrors

  const Quote: char := '"'
  const Comma: char := ','

  /** A scanned field: its value and the input left after it. */
  datatype Scanned = Scanned(value: string, rest: string)

  /** Prepends acc to the value of a successful scan. */
  function PrefixedScan(acc: string, r: Result<Scanned, ErrorKind>): Result<Scanned, ErrorKind>
  {
    match r
    case Failure(k) => Failure(k)
    case Success(sc) => Success(Scanned(acc + sc.value, sc.rest))
  }

  /** Prepends vs to a successful list of fields. */
  function PrefixedFields(vs: seq<string>, r: Result<seq<string>, ErrorKind>): Result<seq<string>, ErrorKind>
  {
    match r
    case Failure(k) => Failure(k)
    case Success(fs) => Success(vs + fs)
  }

  /** Length of an unquoted field: the longest run of non-commas at the front. */
  function UnquotedLen(r: string): (n: nat)
    ensures n <= |r|
    ensures forall i :: 0 <= i < n ==> r[i] != Comma
    ensures n < |r| ==> r[n] == Comma
  {
    if r == [] || r[0] == Comma then 0 else 1 + UnquotedLen(r[1..])
  }

  /** A doubled quote starts at index i. */
  predicate PairAt(r: string, i: int)
  {
    0 <= i && i + 2 <= |r| && r[i] == Quote && r[i + 1] == Quote
  }

  /** Where the verbatim run after an embedded "" stops: at the first "" if
      there is one, otherwise where fewer than two characters remain. */
  function EmbeddedLen(r: string): (q: nat)
    ensures q <= |r|
    ensures forall i :: 0 <= i < q ==> !PairAt(r, i)
    ensures q + 2 <= |r| ==> PairAt(r, q)
    ensures q + 2 > |r| ==> forall i :: !PairAt(r, i)
  {
    if |r| < 2 || PairAt(r, 0) then 0
    else
      var q := EmbeddedLen(r[1..]);
      assert forall i :: 1 <= i ==> (PairAt(r, i) <==> PairAt(r[1..], i - 1));
      1 + q
  }

  /** The body of a quoted field; r starts just after the opening quote. The
      result's rest starts just after the closing quote. */
  function QuotedBody(r: string): (res: Result<Scanned, ErrorKind>)
    ensures res.Success? ==> |res.value.rest| < |r|
    ensures res.Failure? ==> res.error == UnterminatedQuoted || res.error == UnterminatedEmbedded
    decreases |r|, 1
  {
    if r == [] then Failure(UnterminatedQuoted)
    else if r[0] == Quote then
      if PairAt(r, 0) then EmbeddedBody(r)
      else Success(Scanned([], r[1..]))
    else PrefixedScan([r[0]], QuotedBody(r[1..]))
  }

  /** The rest of a quoted body that starts with an embedded "": a quote, the
      verbatim run up to the next "", a quote, then the rest of the body. */
  function EmbeddedBody(r: string): (res: Result<Scanned, ErrorKind>)
    requires PairAt(r, 0)
    ensures res.Success? ==> |res.value.rest| < |r|
    ensures res.Failure? ==> res.error == UnterminatedQuoted || res.error == UnterminatedEmbedded
    decreases |r|, 0
  {
    var t := r[2..];
    var q := EmbeddedLen(t);
    if q + 2 > |t| then Failure(UnterminatedEmbedded)
    else PrefixedScan([Quote] + t[..q] + [Quote], QuotedBody(t[q + 2..]))
  }

  /** One field from a non-empty remainder; its rest starts at the delimiter
      position (which is not checked to hold a comma). */
  function Field(r: string): (res: Result<Scanned, ErrorKind>)
    requires r != []
    ensures res.Success? ==> |res.value.rest| <= |r|
    ensures res.Failure? ==> res.error == UnterminatedQuoted || res.error == UnterminatedEmbedded
  {
    if r[0] == Quote then QuotedBody(r[1..])
    else
      var n := UnquotedLen(r);
      Success(Scanned(r[..n], r[n..]))
  }

  /** All fields of the remainder: after each field one character is consumed
      as the delimiter, and consuming the last character adds an empty field. */
  function Fields(r: string): (res: Result<seq<string>, ErrorKind>)
    ensures res.Failure? ==> res.error == UnterminatedQuoted || res.error == UnterminatedEmbedded
    decreases |r|
  {
    if r == [] then Success([])
    else
      match Field(r)
      case Failure(k) => Failure(k)
      case Success(sc) =>
        if sc.rest == [] then Success([sc.value])
        else if |sc.rest| == 1 then Success([sc.value, []])
        else PrefixedFields([sc.value], Fields(sc.rest[1..]))
  }

  /** An empty line has no fields; any other line that parses has at least one. */
  lemma FieldsCount(r: string)
    ensures r == [] ==> Fields(r) == Success([])
    ensures r != [] && Fields(r).Success? ==> |Fields(r).value| >= 1
  {
  }

  /** An unquoted field is the maximal run of non-commas, copied verbatim. */
  lemma UnquotedField(r: string)
    requires r != [] && r[0] != Quote
    ensures Field(r).Success?
    ensures var v := Field(r).value.value;
      |v| <= |r| && v == r[..|v|] && Comma !in v && (|v| < |r| ==> r[|v|] == Comma)
    ensures Field(r).value.rest == r[|Field(r).value.value|..]
  {
  }

  /** A quoted body without quotes ends at the first quote not followed by
      another quote, which is consumed; commas are kept. */
  lemma {:induction false} QuotedPlain(r: string, e: nat)
    requires e < |r| && r[e] == Quote
    requires Quote !in r[..e]
    requires e + 1 == |r| || r[e + 1] != Quote
    ensures QuotedBody(r) == Success(Scanned(r[..e], r[e + 1..]))
  {
    if e > 0 {
      assert r[0] == r[..e][0];
      assert r[1..][..e - 1] == r[..e][1..];
      QuotedPlain(r[1..], e - 1);
      assert [r[0]] + r[1..][..e - 1] == r[..e];
      assert r[1..][e..] == r[e + 1..];
    }
  }

  /** A quoted body without any quote never closes. */
  lemma {:induction false} QuotedUnterminated(r: string)
    requires Quote !in r
    ensures QuotedBody(r) == Failure(UnterminatedQuoted)
  {
    if r != [] {
      assert forall c :: c in r[1..] ==> c in r;
      QuotedUnterminated(r[1..]);
    }
  }

  /** A quote wrapped around s. */
  function Quoted(s: string): (r: string)
  {
    [Quote] + s + [Quote]
  }

  /** A quoted field without quotes inside, followed by end of line or by any
      character but a quote, scans back to its content. */
  lemma QuotedField(f: string, tail: string)
    requires Quote !in f
    requires tail == [] || tail[0] != Quote
    ensures Field(Quoted(f) + tail) == Success(Scanned(f, tail))
  {
    var body := f + [Quote] + tail;
    assert body[..|f|] == f;
    assert body[|f| + 1..] == tail;
    QuotedPlain(body, |f|);
    assert (Quoted(f) + tail)[1..] == body;
  }

  /** Fields without quotes, each quoted and joined by commas, read back as the
      same fields: quoting protects commas and empty fields. */
  lemma {:induction false} QuotedJoinRoundTrip(fs: seq<string>)
    requires forall i :: 0 <= i < |fs| ==> Quote !in fs[i]
    ensures Fields(Join(QuotedAll(fs), Comma)) == Success(fs)
  {
    if fs != [] {
      var f := fs[0];
      var line := Join(QuotedAll(fs), Comma);
      if |fs| == 1 {
        assert line == Quoted(f) + [];
        QuotedField(f, []);
        FieldsStep(line, f, []);
        assert fs == [f];
      } else {
        var others := Join(QuotedAll(fs[1..]), Comma);
        var tail := [Comma] + others;
        assert QuotedAll(fs)[1..] == QuotedAll(fs[1..]);
        JoinStep(QuotedAll(fs));
        QuotedField(f, tail);
        FieldsStep(line, f, tail);
        QuotedJoinLength(fs[1..]);
        assert tail[1..] == others;
        QuotedJoinRoundTrip(fs[1..]);
        assert fs == [f] + fs[1..];
      }
    }
  }

  /** Each field quoted. */
  function QuotedAll(fs: seq<string>): (r: seq<string>)
    ensures |r| == |fs|
    ensures forall i :: 0 <= i < |fs| ==> r[i] == Quoted(fs[i])
  {
    if fs == [] then [] else [Quoted(fs[0])] + QuotedAll(fs[1..])
  }

  lemma QuotedJoinLength(fs: seq<string>)
    requires fs != []
    ensures |Join(QuotedAll(fs), Comma)| >= 2
  {
  }

  /** An unquoted field without commas, followed by end of line or a comma,
      scans back to itself. */
  lemma PlainField(f: string, tail: string)
    requires Comma !in f && (f == [] || f[0] != Quote)
    requires tail == [] || tail[0] == Comma
    requires f + tail != []
    ensures Field(f + tail) == Success(Scanned(f, tail))
  {
    var line := f + tail;
    var n := UnquotedLen(line);
    assert forall i :: 0 <= i < |f| ==> line[i] == f[i] && line[i] != Comma;
    assert |f| < |line| ==> line[|f|] == Comma;
    assert n == |f|;
    assert line[..n] == f && line[n..] == tail;
  }

  /** One step of Fields: a field followed by a delimiter and more input. */
  lemma FieldsStep(line: string, f: string, tail: string)
    requires line != [] && Field(line) == Success(Scanned(f, tail))
    ensures tail == [] ==> Fields(line) == Success([f])
    ensures |tail| == 1 ==> Fields(line) == Success([f, []])
    ensures |tail| >= 2 ==> Fields(line) == PrefixedFields([f], Fields(tail[1..]))
  {
  }

  /** Join of two or more parts. */
  lemma JoinStep(fs: seq<string>)
    requires |fs| >= 2
    ensures Join(fs, Comma) == fs[0] + ([Comma] + Join(fs[1..], Comma))
  {
  }

  /** Fields that hold no comma and do not start with a quote read back from
      their comma join, except a lone empty field (an empty line has none). */
  lemma {:induction false} PlainJoinRoundTrip(fs: seq<string>)
    requires forall i :: 0 <= i < |fs| ==> Comma !in fs[i] && (fs[i] == [] || fs[i][0] != Quote)
    requires fs != [[]]
    ensures Fields(Join(fs, Comma)) == Success(fs)
  {
    if fs != [] {
      var f := fs[0];
      var line := Join(fs, Comma);
      if |fs| == 1 {
        assert line == f + [];
        PlainField(f, []);
        FieldsStep(line, f, []);
        assert fs == [f];
      } else {
        var others := Join(fs[1..], Comma);
        var tail := [Comma] + others;
        JoinStep(fs);
        PlainField(f, tail);
        FieldsStep(line, f, tail);
        assert tail[1..] == others;
        assert fs == [f] + fs[1..];
        if fs[1..] == [[]] {
          assert fs == [f, []];
        } else {
          PlainJoinRoundTrip(fs[1..]);
        }
      }
    }
  }
}
