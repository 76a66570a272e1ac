/** Consequences of the tokenizer's rules for particular shapes of line. */
module CsvLineShapes {
  import opened Wrappers
  import opened JavaStrings
  import opened CsvErrors
  import opened CsvSyntax

  /** A comma at the very end of the line adds an empty last field. */
  lemma TrailingComma(f: string)
    requires Comma !in f && (f == [] || f[0] != Quote)
    ensures Fields(f + [Comma]) == Success([f, []])
  {
    PlainField(f, [Comma]);
    FieldsStep(f + [Comma], f, [Comma]);
  }

  /** An opening quote that never closes. */
  lemma QuoteNeverCloses(r: string)
    requires Quote !in r
    ensures Fields([Quote] + r) == Failure(UnterminatedQuoted)
  {
    QuotedUnterminated(r);
    assert ([Quote] + r)[1..] == r;
  }

  /** The character after a closing quote is consumed as the delimiter,
      whatever it is, and scanning goes on after it. */
  lemma DelimiterNotChecked(f: string, tail: string)
    requires Quote !in f && |tail| >= 2 && tail[0] != Quote
    ensures Fields(Quoted(f) + tail) == PrefixedFields([f], Fields(tail[1..]))
  {
    QuotedField(f, tail);
    FieldsStep(Quoted(f) + tail, f, tail);
  }

  /** After an embedded "" the field goes on verbatim to the next "", so a
      quoted field with no "" after its first one is rejected, whatever
      follows its closing quote. */
  lemma EmbeddedUnterminated(a: string, t: string)
    requires Quote !in a
    requires forall i :: !PairAt(t, i)
    ensures Fields([Quote] + a + [Quote, Quote] + t) == Failure(UnterminatedEmbedded)
  {
    var line := [Quote] + a + [Quote, Quote] + t;
    var r := [Quote, Quote] + t;
    assert r[2..] == t;
    assert EmbeddedBody(r) == Failure(UnterminatedEmbedded);
    assert line[1..] == a + r;
    QuotedPrefix(a, r);
  }

  /** The line "a""b",c: a doubled quote followed by a single closing quote and
      more fields is an unterminated embedded quote. */
  lemma SingleEmbeddedPair()
    ensures Fields("\"a\"\"b\",c") == Failure(UnterminatedEmbedded)
  {
    var t := "b\",c";
    assert !PairAt(t, 0) && !PairAt(t, 1) && !PairAt(t, 2);
    assert forall i :: !PairAt(t, i);
    EmbeddedUnterminated("a", t);
    assert [Quote] + "a" + [Quote, Quote] + t == "\"a\"\"b\",c";
  }

  /** A quoted body that starts with a run without quotes: the run is copied
      and scanning continues after it. */
  lemma {:induction false} QuotedPrefix(a: string, r: string)
    requires Quote !in a
    ensures QuotedBody(a + r) == PrefixedScan(a, QuotedBody(r))
  {
    if a == [] {
      assert a + r == r;
      assert PrefixedScan(a, QuotedBody(r)) == QuotedBody(r) by {
        if QuotedBody(r).Success? {
          assert [] + QuotedBody(r).value.value == QuotedBody(r).value.value;
        }
      }
    } else {
      assert (a + r)[1..] == a[1..] + r;
      assert a[0] in a;
      QuotedPrefix(a[1..], r);
      if QuotedBody(r).Success? {
        assert [a[0]] + (a[1..] + QuotedBody(r).value.value) == a + QuotedBody(r).value.value;
      }
    }
  }

  /** Two embedded "" pairs bracket a verbatim run, and each pair adds one
      quote to the value. */
  lemma EmbeddedRun(a: string, b: string, c: string, tail: string)
    requires Quote !in a && Quote !in b && Quote !in c
    requires tail == [] || tail[0] != Quote
    ensures Field([Quote] + a + [Quote, Quote] + b + [Quote, Quote] + c + [Quote] + tail)
         == Success(Scanned(a + [Quote] + b + [Quote] + c, tail))
  {
    var line := [Quote] + a + [Quote, Quote] + b + [Quote, Quote] + c + [Quote] + tail;
    var last := c + [Quote] + tail;
    var r := [Quote, Quote] + b + [Quote, Quote] + last;
    assert QuotedBody(last) == Success(Scanned(c, tail)) by {
      assert last[..|c|] == c && last[|c| + 1..] == tail;
      QuotedPlain(last, |c|);
    }
    EmbeddedPair(b, last);
    RunShape(a, b, c, tail);
    QuotedPrefix(a, r);
  }

  lemma RunShape(a: string, b: string, c: string, tail: string)
    ensures ([Quote] + a + [Quote, Quote] + b + [Quote, Quote] + c + [Quote] + tail)[1..]
         == a + ([Quote, Quote] + b + [Quote, Quote] + (c + [Quote] + tail))
    ensures a + ([Quote] + b + [Quote] + c) == a + [Quote] + b + [Quote] + c
  {
    var line := [Quote] + a + [Quote, Quote] + b + [Quote, Quote] + c + [Quote] + tail;
    var r := [Quote, Quote] + b + [Quote, Quote] + (c + [Quote] + tail);
    assert line == [Quote] + (a + r) by {
      forall i | 0 <= i < |line|
        ensures line[i] == ([Quote] + (a + r))[i]
      {
      }
    }
  }

  /** An embedded "" opens a run without quotes that the next "" closes: the
      value gets a quote, the run and a quote, and the body goes on after it. */
  lemma EmbeddedPair(b: string, last: string)
    requires Quote !in b
    ensures PairAt([Quote, Quote] + b + [Quote, Quote] + last, 0)
    ensures EmbeddedBody([Quote, Quote] + b + [Quote, Quote] + last)
         == PrefixedScan([Quote] + b + [Quote], QuotedBody(last))
  {
    var t := b + [Quote, Quote] + last;
    var r := [Quote, Quote] + t;
    assert r == [Quote, Quote] + b + [Quote, Quote] + last;
    assert r[2..] == t;
    assert PairAt(t, |b|);
    assert EmbeddedLen(t) == |b|;
    assert t[..|b|] == b && t[|b| + 2..] == last;
  }

  /** String.split: a lone comma splits into nothing. */
  lemma SplitLoneDelimiter(d: char)
    ensures Split([d], d) == []
  {
    assert [d][1..] == [];
    assert SplitAll([d], d) == [[], []];
  }
}
