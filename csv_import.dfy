/** Bulk import of tenants from CSV-like text (`uploadCSV` in src/App.jsx): the text
    is split into lines, the first line is dropped, blank lines are skipped, and every
    other line is split on commas into name, water, electricity and rent. The numeric
    conversion `Number(...)` is the parameter `toNumber`, and the store's batch insert
    is the parameter `insert`. */
module CsvImport {
  import opened Results
  import opened JsStrings
  import opened JsArrays
  import opened Tenants

  /** The destructured variables that can be `undefined`: `split` always yields at
      least one piece, so `name` never is. */
  datatype Field = Water | Electricity | Rent

  /** Calling `trim` on an `undefined` field throws a TypeError; the model records
      which field it was. */
  datatype CsvError = TrimOfUndefined(field: Field)

  /** Why `uploadCSV` rejects: the parse threw, or the store refused the batch
      (with the message the store gave). */
  datatype UploadError = ParseFailed(cause: CsvError) | StoreFailed(message: string)

  function CommaCount(line: string): nat {
    Occurrences(line, ',')
  }

  /** The first `undefined` field of a line with fewer than three commas. */
  function FirstMissingField(commas: nat): Field
    requires commas < 3
  {
    if commas == 0 then Water else if commas == 1 then Electricity else Rent
  }

  /** `content.split('\n').slice(1)`: every line but the first. */
  function DataLines(content: string): (r: seq<string>)
    ensures |r| == Occurrences(content, '\n')
  {
    SplitPieceCount(content, '\n');
    Split(content, '\n')[1..]
  }

  /** The filter callback `row => row.trim()`: the trimmed line is truthy exactly
      when it is not the empty string. */
  function HasText(line: string): (b: bool)
    ensures b <==> !AllWhitespace(line)
  {
    TrimEmptyIffAllWhitespace(line);
    Trim(line) != []
  }

  /** The lines that produce a record: every line but the first that has text. */
  function KeptLines(content: string): (r: seq<string>)
    ensures forall i :: 0 <= i < |r| ==> r[i] in DataLines(content) && HasText(r[i])
    ensures forall i :: 0 <= i < |DataLines(content)| && HasText(DataLines(content)[i]) ==>
      DataLines(content)[i] in r
  {
    Filter(DataLines(content), HasText)
  }

  /** The map callback: the record built for one kept line, or the TypeError its
      destructuring raises. */
  function ParseLine<N>(line: string, toNumber: string -> N): (r: Result<Tenant<N>, CsvError>)
    ensures r.Success? <==> CommaCount(line) >= 3
    ensures r.Failure? ==> r.error == TrimOfUndefined(FirstMissingField(CommaCount(line)))
  {
    SplitPieceCount(line, ',');
    var f := Split(line, ',');
    if |f| < 4 then Failure(TrimOfUndefined(FirstMissingField(|f| - 1)))
    else Success(Tenant(Trim(f[0]), toNumber(Trim(f[1])), toNumber(Trim(f[2])), toNumber(Trim(f[3]))))
  }

  function LineParser<N>(toNumber: string -> N): string -> Result<Tenant<N>, CsvError> {
    (line: string) => ParseLine(line, toNumber)
  }

  /** The pure part of `uploadCSV`: the records handed to the store, one per kept
      line, or the error of the first malformed line. */
  function ParseCsv<N>(content: string, toNumber: string -> N): (r: Result<seq<Tenant<N>>, CsvError>)
    ensures r.Success? <==> forall i :: 0 <= i < |KeptLines(content)| ==> CommaCount(KeptLines(content)[i]) >= 3
    ensures r.Success? ==> |r.value| == |KeptLines(content)|
  {
    MapOrFail(KeptLines(content), LineParser(toNumber))
  }

  /** `uploadCSV` with the store's batch insert as a parameter: `insert` returns the
      store's error message, if any. The records go to the store only when the parse
      did not throw, and the count reported is the number of records inserted. */
  function UploadCsv<N>(content: string, toNumber: string -> N,
                        insert: seq<Tenant<N>> -> Option<string>): (r: Result<nat, UploadError>)
    ensures r.Success? ==> r.value == |KeptLines(content)|
    ensures ParseCsv(content, toNumber).Failure? ==>
      r == Failure(ParseFailed(ParseCsv(content, toNumber).error))
    ensures ParseCsv(content, toNumber).Success? ==>
      (r.Failure? <==> insert(ParseCsv(content, toNumber).value).Some?)
    ensures ParseCsv(content, toNumber).Success? && r.Failure? ==>
      r.error == StoreFailed(insert(ParseCsv(content, toNumber).value).value)
  {
    match ParseCsv(content, toNumber)
    case Failure(e) => Failure(ParseFailed(e))
    case Success(records) =>
      match insert(records)
      case Some(message) => Failure(StoreFailed(message))
      case None => Success(|records|)
  }

  // ---------------------------------------------------------------------------
  // One line

  /** The four positional fields: everything up to the first comma is the name,
      and so on; whatever follows a fourth comma is ignored. Each field is trimmed
      and each amount is the conversion of its trimmed text. */
  lemma ParseLineFields<N>(name: string, water: string, electricity: string, rent: string,
                           rest: string, toNumber: string -> N)
    requires ',' !in name && ',' !in water && ',' !in electricity && ',' !in rent
    requires rest == [] || rest[0] == ','
    ensures ParseLine(name + "," + water + "," + electricity + "," + rent + rest, toNumber)
      == Success(Tenant(Trim(name), toNumber(Trim(water)), toNumber(Trim(electricity)), toNumber(Trim(rent))))
  {
    var r3 := rent + rest;
    var r2 := electricity + [','] + r3;
    var r1 := water + [','] + r2;
    var line := name + [','] + r1;
    assert name + "," + water + "," + electricity + "," + rent + rest == line;
    var tail := if rest == [] then [] else Split(rest[1..], ',');
    assert Split(r3, ',') == [rent] + tail by {
      if rest == [] {
        assert r3 == rent;
        SplitWithoutSeparator(rent, ',');
      } else {
        assert r3 == rent + [','] + rest[1..];
        SplitFirstPiece(rent, rest[1..], ',');
      }
    }
    calc {
      Split(line, ',');
      { SplitFirstPiece(name, r1, ','); }
      [name] + Split(r1, ',');
      { SplitFirstPiece(water, r2, ','); }
      [name] + ([water] + Split(r2, ','));
      { SplitFirstPiece(electricity, r3, ','); }
      [name] + ([water] + ([electricity] + ([rent] + tail)));
      [name, water, electricity, rent] + tail;
    }
  }

  /** Fields after the fourth are ignored: appending one changes nothing. */
  lemma ExtraFieldsIgnored<N>(line: string, extra: string, toNumber: string -> N)
    requires CommaCount(line) >= 3
    ensures ParseLine(line + "," + extra, toNumber) == ParseLine(line, toNumber)
  {
    SplitAtSeparator(line, extra, ',');
    SplitPieceCount(line, ',');
    var p := Split(line, ',');
    var q := Split(line + "," + extra, ',');
    assert q == p + Split(extra, ',');
    assert q[0] == p[0] && q[1] == p[1] && q[2] == p[2] && q[3] == p[3];
  }

  /** A `'\r'` left at the end of a line by a CRLF line ending changes nothing: it
      lands in the last field, which is either trimmed or ignored. */
  lemma ParseLineIgnoresCarriageReturn<N>(line: string, toNumber: string -> N)
    ensures ParseLine(line + "\r", toNumber) == ParseLine(line, toNumber)
  {
    SplitAppendChar(line, '\r', ',');
    SplitPieceCount(line, ',');
    SplitPieceCount(line + "\r", ',');
    var p := Split(line, ',');
    var q := Split(line + "\r", ',');
    assert |q| == |p|;
    if |p| == 4 {
      assert q[0] == p[0] && q[1] == p[1] && q[2] == p[2] && q[3] == p[3] + ['\r'];
      TrimIgnoresTrailingWhitespace(p[3], '\r');
    } else if |p| > 4 {
      assert q[0] == p[0] && q[1] == p[1] && q[2] == p[2] && q[3] == p[3];
    }
  }

  /** Commas are never quoted: a quoted name containing a comma is torn apart and
      every later field shifts one place to the right. */
  lemma QuotedCommaSplitsField<N>(toNumber: string -> N)
    ensures ParseLine("\"Doe, J\",1,2,3", toNumber)
      == Success(Tenant("\"Doe", toNumber("J\""), toNumber("1"), toNumber("2")))
  {
    var line := "\"Doe" + "," + " J\"" + "," + "1" + "," + "2" + ",3";
    QuotedCommaPiecesTrimmed();
    calc {
      ParseLine("\"Doe, J\",1,2,3", toNumber);
      { assert "\"Doe, J\",1,2,3" == line; }
      ParseLine(line, toNumber);
      { ParseLineFields("\"Doe", " J\"", "1", "2", ",3", toNumber); }
      Success(Tenant(Trim("\"Doe"), toNumber(Trim(" J\"")), toNumber(Trim("1")), toNumber(Trim("2"))));
      Success(Tenant("\"Doe", toNumber("J\""), toNumber("1"), toNumber("2")));
    }
  }

  lemma QuotedCommaPiecesTrimmed()
    ensures Trim("\"Doe") == "\"Doe" && Trim(" J\"") == "J\"" && Trim("1") == "1" && Trim("2") == "2"
  {
    TrimOfTrimmed("\"Doe");
    assert " J\"" == " " + "J\"";
    TrimDropsLeadingSpace("J\"");
    TrimOfTrimmed("1");
    TrimOfTrimmed("2");
  }

  /** No numeric validation within a line: the record is the one with the amounts
      kept as trimmed text, converted afterwards. */
  lemma ParseLineConvertsText<N>(line: string, toNumber: string -> N)
    ensures ParseLine(line, toNumber) == MapValue(ParseLine(line, KeepText), Converter(toNumber))
  {
  }

  /** The conversion that keeps an amount as its trimmed text. */
  function KeepText(s: string): string {
    s
  }

  function Converter<N>(toNumber: string -> N): Tenant<string> -> Tenant<N> {
    (t: Tenant<string>) => ConvertAmounts(t, toNumber)
  }

  // ---------------------------------------------------------------------------
  // The whole text

  /** On success there is one record per kept line, in file order: the i-th record
      is the one built from the i-th kept line. */
  lemma RecordPerKeptLine<N>(content: string, toNumber: string -> N)
    requires ParseCsv(content, toNumber).Success?
    ensures |ParseCsv(content, toNumber).value| == |KeptLines(content)|
    ensures forall i :: 0 <= i < |KeptLines(content)| ==>
      ParseLine(KeptLines(content)[i], toNumber) == Success(ParseCsv(content, toNumber).value[i])
  {
    MapOrFailAt(KeptLines(content), LineParser(toNumber));
  }

  /** A kept line with fewer than three commas makes the whole import fail, and the
      error is the one raised by the first such line. */
  lemma FirstMalformedLineFailsImport<N>(content: string, toNumber: string -> N, j: nat)
    requires j < |KeptLines(content)| && CommaCount(KeptLines(content)[j]) < 3
    requires forall i :: 0 <= i < j ==> CommaCount(KeptLines(content)[i]) >= 3
    ensures ParseCsv(content, toNumber)
      == Failure(TrimOfUndefined(FirstMissingField(CommaCount(KeptLines(content)[j]))))
  {
    MapOrFailFirstFailure(KeptLines(content), LineParser(toNumber), j);
  }

  /** No numeric validation: importing with a conversion is importing with the
      amounts kept as trimmed text and converting them afterwards, so whether the
      import succeeds never depends on what the conversion makes of an amount. */
  lemma ImportConvertsTrimmedText<N>(content: string, toNumber: string -> N)
    ensures ParseCsv(content, toNumber) == MapEach(ParseCsv(content, KeepText), Converter(toNumber))
  {
    var lines := KeptLines(content);
    forall i | 0 <= i < |lines|
      ensures LineParser(toNumber)(lines[i]) == MapValue(LineParser(KeepText)(lines[i]), Converter(toNumber))
    {
      ParseLineConvertsText(lines[i], toNumber);
    }
    MapOrFailThenConvert(lines, LineParser(toNumber), LineParser(KeepText), Converter(toNumber));
  }

  /** The first line is dropped whatever it holds; the data lines are the lines of
      what follows it. */
  lemma FirstLineDropped(first: string, body: string)
    requires '\n' !in first
    ensures DataLines(first + "\n" + body) == Split(body, '\n')
  {
    SplitAtSeparator(first, body, '\n');
    SplitWithoutSeparator(first, '\n');
  }

  /** What the first line says has no effect on the result. */
  lemma FirstLineIsIgnored<N>(first1: string, first2: string, body: string, toNumber: string -> N)
    requires '\n' !in first1 && '\n' !in first2
    ensures ParseCsv(first1 + "\n" + body, toNumber) == ParseCsv(first2 + "\n" + body, toNumber)
  {
    FirstLineDropped(first1, body);
    FirstLineDropped(first2, body);
  }

  /** Text with zero or one line (no newline at all) yields no records. */
  lemma SingleLineYieldsNoRecords<N>(content: string, toNumber: string -> N)
    requires '\n' !in content
    ensures ParseCsv(content, toNumber) == Success([])
  {
    SplitWithoutSeparator(content, '\n');
  }

  /** A trailing newline adds an empty last line, which has no text and is skipped. */
  lemma TrailingNewlineAddsNothing<N>(content: string, toNumber: string -> N)
    ensures ParseCsv(content + "\n", toNumber) == ParseCsv(content, toNumber)
  {
    SplitAtSeparator(content, [], '\n');
    assert content + "\n" == content + ['\n'] + [];
    var p := Split(content, '\n');
    assert Split([], '\n') == [[]];
    assert Split(content + "\n", '\n') == p + [[]];
    assert (p + [[]])[1..] == p[1..] + [[]];
    assert DataLines(content + "\n") == p[1..] + [[]];
    FilterAppend(p[1..], [[]], HasText);
    assert !HasText([]);
    assert Filter([[]], HasText) == [];
    assert KeptLines(content + "\n") == KeptLines(content);
  }

  /** Cutting the content at a line break after the first line cuts its data lines there. */
  lemma DataLinesAfterBreak(before: string, tail: string)
    ensures DataLines(before + ['\n'] + tail) == Split(before, '\n')[1..] + Split(tail, '\n')
  {
    var p := Split(before, '\n');
    var q := Split(tail, '\n');
    SplitAtSeparator(before, tail, '\n');
    assert (p + q)[1..] == p[1..] + q;
  }

  /** Inserting a line after the first inserts it among the data lines. */
  lemma DataLinesWithInsertedLine(before: string, line: string, after: string)
    requires '\n' !in line
    ensures DataLines(before + "\n" + line + "\n" + after)
      == Split(before, '\n')[1..] + [line] + Split(after, '\n')
  {
    var tail := line + ['\n'] + after;
    var p := Split(before, '\n')[1..];
    var q := Split(after, '\n');
    calc {
      DataLines(before + "\n" + line + "\n" + after);
      { assert before + "\n" + line + "\n" + after == before + ['\n'] + tail; }
      DataLines(before + ['\n'] + tail);
      { DataLinesAfterBreak(before, tail); }
      p + Split(tail, '\n');
      { SplitFirstPiece(line, after, '\n'); }
      p + ([line] + q);
      p + [line] + q;
    }
  }

  /** A whitespace-only line after the first adds nothing, wherever it stands. */
  lemma BlankLineAddsNothing<N>(before: string, blank: string, after: string, toNumber: string -> N)
    requires '\n' !in blank && !HasText(blank)
    ensures ParseCsv(before + "\n" + blank + "\n" + after, toNumber) == ParseCsv(before + "\n" + after, toNumber)
  {
    var p := Split(before, '\n')[1..];
    var q := Split(after, '\n');
    calc {
      KeptLines(before + "\n" + blank + "\n" + after);
      { DataLinesWithInsertedLine(before, blank, after); }
      Filter(p + [blank] + q, HasText);
      { FilterSkipsRejected(p, blank, q, HasText); }
      Filter(p + q, HasText);
      { DataLinesAfterBreak(before, after); }
      KeptLines(before + "\n" + after);
    }
  }

  /** Whether each line ends in `'\r'` or not does not matter: text with CRLF line
      endings imports exactly like the same text with LF line endings. */
  predicate SameUpToCarriageReturn(crLine: string, line: string) {
    crLine == line || crLine == line + "\r"
  }

  lemma CarriageReturnsIgnored<N>(crLines: seq<string>, lines: seq<string>, toNumber: string -> N)
    requires |crLines| == |lines| >= 1
    requires forall i :: 0 <= i < |lines| ==> '\n' !in lines[i] && SameUpToCarriageReturn(crLines[i], lines[i])
    ensures ParseCsv(Join(crLines, '\n'), toNumber) == ParseCsv(Join(lines, '\n'), toNumber)
  {
    forall i | 0 <= i < |crLines|
      ensures '\n' !in crLines[i]
    {
      assert crLines[i] == lines[i] || crLines[i] == lines[i] + ['\r'];
    }
    SplitJoin(lines, '\n');
    SplitJoin(crLines, '\n');
    var cs, ls := crLines[1..], lines[1..];
    forall i | 0 <= i < |ls|
      ensures HasText(cs[i]) == HasText(ls[i])
      ensures LineParser(toNumber)(cs[i]) == LineParser(toNumber)(ls[i])
    {
      assert cs[i] == crLines[i + 1] && ls[i] == lines[i + 1];
      if cs[i] != ls[i] {
        TrimIgnoresTrailingWhitespace(ls[i], '\r');
        ParseLineIgnoresCarriageReturn(ls[i], toNumber);
      }
    }
    FilterMapOrFailAgrees(cs, ls, HasText, LineParser(toNumber));
  }

  // ---------------------------------------------------------------------------
  // Round trip with the documented file layout

  /** A field that survives the format unchanged: no comma, no newline, nothing to
      trim. */
  predicate IsPlainField(s: string) {
    ',' !in s && '\n' !in s && IsTrimmed(s)
  }

  predicate IsPlainRow(t: Tenant<string>) {
    IsPlainField(t.name) && IsPlainField(t.water) && IsPlainField(t.electricity) && IsPlainField(t.rent)
  }

  /** `name,water,electricity,rent`. */
  function FormatLine(t: Tenant<string>): string {
    t.name + "," + t.water + "," + t.electricity + "," + t.rent
  }

  /** The documented file layout: a header line, then one line per record. */
  function FormatCsv(header: string, rows: seq<Tenant<string>>): string {
    Join([header] + Map(rows, FormatLine), '\n')
  }

  lemma ParseFormattedLine<N>(t: Tenant<string>, toNumber: string -> N)
    requires IsPlainRow(t)
    ensures ',' in FormatLine(t) && '\n' !in FormatLine(t) && HasText(FormatLine(t))
    ensures ParseLine(FormatLine(t), toNumber) == Success(ConvertAmounts(t, toNumber))
  {
    ParseLineFields(t.name, t.water, t.electricity, t.rent, [], toNumber);
    assert FormatLine(t) == t.name + "," + t.water + "," + t.electricity + "," + t.rent + [];
    TrimOfTrimmed(t.name);
    TrimOfTrimmed(t.water);
    TrimOfTrimmed(t.electricity);
    TrimOfTrimmed(t.rent);
    assert FormatLine(t)[|t.name|] == ',';
    TrimEmptyIffAllWhitespace(FormatLine(t));
  }

  /** Formatting records under a header and importing the text gives back every
      record, in order, with its amounts converted. */
  lemma FormatThenParse<N>(header: string, rows: seq<Tenant<string>>, toNumber: string -> N)
    requires '\n' !in header
    requires forall i :: 0 <= i < |rows| ==> IsPlainRow(rows[i])
    ensures ParseCsv(FormatCsv(header, rows), toNumber) == Success(Map(rows, Converter(toNumber)))
  {
    var body := Map(rows, FormatLine);
    var parse := LineParser(toNumber);
    var records := Map(rows, Converter(toNumber));
    forall i | 0 <= i < |rows|
      ensures parse(body[i]) == Success(records[i])
    {
      ParseFormattedLine(rows[i], toNumber);
    }
    KeptFormattedLines(header, rows);
    MapOrFailSucceedsWith(body, parse, records);
  }

  /** Every line after the header of formatted text is kept, in order. */
  lemma KeptFormattedLines(header: string, rows: seq<Tenant<string>>)
    requires '\n' !in header
    requires forall i :: 0 <= i < |rows| ==> IsPlainRow(rows[i])
    ensures KeptLines(FormatCsv(header, rows)) == Map(rows, FormatLine)
  {
    var body := Map(rows, FormatLine);
    var lines := [header] + body;
    forall i | 0 <= i < |rows|
      ensures '\n' !in body[i] && HasText(body[i])
    {
      ParseFormattedLine(rows[i], KeepText);
    }
    assert forall i :: 0 <= i < |lines| ==> '\n' !in lines[i] by {
      forall i | 0 <= i < |lines|
        ensures '\n' !in lines[i]
      {
        if i > 0 {
          assert lines[i] == body[i - 1];
        }
      }
    }
    calc {
      KeptLines(FormatCsv(header, rows));
      Filter(Split(Join(lines, '\n'), '\n')[1..], HasText);
      { SplitJoin(lines, '\n'); }
      Filter(lines[1..], HasText);
      { assert lines[1..] == body; }
      Filter(body, HasText);
      { FilterKeepsAll(body, HasText); }
      body;
    }
  }
}
