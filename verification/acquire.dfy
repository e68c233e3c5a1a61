/**
 `acquireData`: reads comma-separated text (a header line, then one
 `city, country, phone` row per line) and returns the city and phone of every
 row whose country is exactly "India", in input order.

 Two definitions are given and proved equal:
 - `Pipeline`, the filter/map chain the refactoring aims for; and
 - `AcquireData`, the original loop with its `firstLine` flag.

 A non-blank row without a second field, or an "India" row without a third,
 makes the source read `.trim()` of `undefined` and throw. Such rows are
 outside the domain `InDomain`; the pipeline is only defined inside it, and
 the loop reports the first offending row as an error.
 */
module Acquire {
  import opened Text
  import opened Seqs

  /** One output record. */
  datatype Entry = Entry(city: string, phone: string)

  /** The `TypeError` the source throws when `record[field]` is missing:
      `line` is the index of the offending line among the input's
      newline-separated lines (the header is line 0). */
  datatype RowError = MissingField(line: nat, field: nat)

  datatype Result<T> = Ok(value: T) | Err(error: RowError)

  const Country: string := "India"

  /** The lines of the input, header included. */
  function Lines(input: string): (ls: seq<string>)
    ensures |ls| >= 1
  {
    Split(input, '\n')
  }

  /** Every line after the first, which is dropped unconditionally. */
  function DataLines(input: string): seq<string> {
    Lines(input)[1..]
  }

  predicate IsBlank(line: string) {
    Trim(line) == ""
  }

  predicate IsNonBlank(line: string) {
    !IsBlank(line)
  }

  /** The comma-separated fields of a row, untrimmed. */
  function Fields(line: string): seq<string> {
    Split(line, ',')
  }

  /** The country filter; reading field 1 needs it to exist. It accepts
      exactly the fields that are "India", with its case, padded by
      whitespace and nothing else. */
  predicate IsIndia(record: seq<string>)
    requires |record| >= 2
    ensures IsIndia(record) <==> PaddedBy(record[1], Country)
  {
    TrimIsPadded(record[1], Country);
    Trim(record[1]) == Country
  }

  /** The projection to a record; reading field 2 needs it to exist. The
      city is field 0 and the phone field 2, each stripped of the whitespace
      around it and of nothing else. */
  function ToEntry(record: seq<string>): (e: Entry)
    requires |record| >= 3
    ensures Trimmed(e.city) && PaddedBy(record[0], e.city)
    ensures Trimmed(e.phone) && PaddedBy(record[2], e.phone)
  {
    TrimSpec(record[0]);
    TrimSpec(record[2]);
    Entry(Trim(record[0]), Trim(record[2]))
  }

  /** A row the source can read: it has a field 1, and a field 2 as well if
      field 1 is "India". */
  predicate RecordOk(record: seq<string>) {
    |record| >= 2 && (IsIndia(record) ==> |record| >= 3)
  }

  /** The source processes `line` without throwing. */
  predicate LineOk(line: string) {
    IsBlank(line) || RecordOk(Fields(line))
  }

  /** The source throws reading field `field` of `line`. Only fields 1 and
      2 are ever read without a check, and a failing line is not
      readable. */
  predicate FailsAt(line: string, field: nat)
    ensures FailsAt(line, field) ==> (field == 1 || field == 2) && !LineOk(line)
  {
    && IsNonBlank(line)
    && var f := Fields(line);
       || (field == 1 && |f| < 2)
       || (field == 2 && |f| == 2 && IsIndia(f))
  }

  predicate AllLinesOk(ls: seq<string>) {
    forall k :: 0 <= k < |ls| ==> LineOk(ls[k])
  }

  /** A line is readable exactly when reading neither field 1 nor field 2
      throws. In particular a row of two fields whose country is not
      "India" is readable: field 2 is only read on "India" rows. */
  lemma ReadableIffNoFailure(line: string)
    ensures LineOk(line) <==> !FailsAt(line, 1) && !FailsAt(line, 2)
    ensures forall field :: FailsAt(line, field) ==> field == 1 || field == 2
  {
  }

  /** The inputs on which the source returns instead of throwing: every
      line after the header is readable. */
  predicate InDomain(input: string)
    ensures InDomain(input) <==>
              forall k :: 1 <= k < |Lines(input)| ==> LineOk(Lines(input)[k])
  {
    var ls := Lines(input);
    assert forall k :: 1 <= k < |ls| ==> DataLines(input)[k - 1] == ls[k];
    AllLinesOk(DataLines(input))
  }

  /** A line that contributes a record: a non-blank row whose trimmed
      field 1 is "India". */
  predicate IsMatch(line: string) {
    IsNonBlank(line) && var f := Fields(line); |f| >= 2 && IsIndia(f)
  }

  /** Stages one and two of the pipeline: drop blank lines, split the rest
      into fields. */
  function Records(ls: seq<string>): (records: seq<seq<string>>)
    ensures |records| <= |ls|
    ensures AllLinesOk(ls) ==> forall i :: 0 <= i < |records| ==> RecordOk(records[i])
  {
    var nonBlank := Filter(ls, IsNonBlank);
    var records := Map(nonBlank, Fields);
    assert AllLinesOk(ls) ==> forall i :: 0 <= i < |records| ==> RecordOk(records[i]) by {
      forall i | AllLinesOk(ls) && 0 <= i < |records|
        ensures RecordOk(records[i])
      {
        assert nonBlank[i] in nonBlank;
        var k :| 0 <= k < |ls| && ls[k] == nonBlank[i];
        assert LineOk(ls[k]);
      }
    }
    records
  }

  /** Stage three: keep the rows whose trimmed country is "India". */
  function IndiaRecords(records: seq<seq<string>>): (india: seq<seq<string>>)
    requires forall i :: 0 <= i < |records| ==> RecordOk(records[i])
    ensures |india| <= |records|
    ensures forall i :: 0 <= i < |india| ==> |india[i]| >= 3 && IsIndia(india[i])
  {
    assert forall i :: 0 <= i < |records| ==> |records[i]| >= 2 by {
      forall i | 0 <= i < |records| ensures |records[i]| >= 2 {
        assert RecordOk(records[i]);
      }
    }
    var india := Filter(records, IsIndia);
    forall i | 0 <= i < |india|
      ensures |india[i]| >= 3 && IsIndia(india[i])
    {
      assert india[i] in india;
      var j :| 0 <= j < |records| && records[j] == india[i];
      assert RecordOk(records[j]);
    }
    india
  }

  /** The pipeline over data lines: filter out blank lines, split into
      fields, keep the "India" rows, project each to its city and phone. */
  function Pipeline(ls: seq<string>): (out: seq<Entry>)
    requires AllLinesOk(ls)
    ensures |out| <= |ls|
  {
    Map(IndiaRecords(Records(ls)), ToEntry)
  }

  /** What `acquireData(input)` returns when it does not throw. */
  function AcquirePipeline(input: string): (out: seq<Entry>)
    requires InDomain(input)
    ensures |out| <= |Lines(input)| - 1
    ensures |out| <= Count(input, '\n')
  {
    Pipeline(DataLines(input))
  }

  /** What the loop body contributes for one (non-header) line: nothing,
      unless the line is not all whitespace and its field 1 is "India"
      padded by whitespace only, and then a single record whose city and
      phone are fields 0 and 2 without the whitespace around them. */
  function LineOutput(line: string): (out: seq<Entry>)
    requires LineOk(line)
    ensures |out| <= 1
    ensures |out| == 1 <==>
              && !AllWhitespace(line)
              && var f := Fields(line); |f| >= 2 && PaddedBy(f[1], Country)
    ensures |out| == 1 ==>
              var f := Fields(line);
              && |f| >= 3
              && Trimmed(out[0].city) && PaddedBy(f[0], out[0].city)
              && Trimmed(out[0].phone) && PaddedBy(f[2], out[0].phone)
  {
    TrimSpec(line);
    if IsMatch(line) then [ToEntry(Fields(line))] else []
  }

  lemma RecordsAppend(a: seq<string>, b: seq<string>)
    ensures Records(a + b) == Records(a) + Records(b)
  {
    FilterAppend(a, b, IsNonBlank);
    MapAppend(Filter(a, IsNonBlank), Filter(b, IsNonBlank), Fields);
  }

  lemma IndiaRecordsAppend(a: seq<seq<string>>, b: seq<seq<string>>)
    requires forall i :: 0 <= i < |a| ==> RecordOk(a[i])
    requires forall i :: 0 <= i < |b| ==> RecordOk(b[i])
    ensures forall i :: 0 <= i < |a + b| ==> RecordOk((a + b)[i])
    ensures IndiaRecords(a + b) == IndiaRecords(a) + IndiaRecords(b)
  {
    FilterAppend(a, b, IsIndia);
  }

  /** The pipeline is compositional over concatenated line sequences. */
  lemma PipelineAppend(a: seq<string>, b: seq<string>)
    requires AllLinesOk(a) && AllLinesOk(b)
    ensures AllLinesOk(a + b)
    ensures Pipeline(a + b) == Pipeline(a) + Pipeline(b)
  {
    RecordsAppend(a, b);
    IndiaRecordsAppend(Records(a), Records(b));
    MapAppend(IndiaRecords(Records(a)), IndiaRecords(Records(b)), ToEntry);
  }

  /** On a single line the pipeline yields that line's own contribution. */
  lemma PipelineSingle(line: string)
    requires LineOk(line)
    ensures AllLinesOk([line])
    ensures Pipeline([line]) == LineOutput(line)
  {
    assert [line][1..] == [];
    if IsNonBlank(line) {
      assert Records([line]) == [Fields(line)];
    } else {
      assert Records([line]) == [];
    }
  }

  /** Appending one line appends exactly that line's contribution. */
  lemma PipelineSnoc(ls: seq<string>, line: string)
    requires AllLinesOk(ls) && LineOk(line)
    ensures AllLinesOk(ls + [line])
    ensures Pipeline(ls + [line]) == Pipeline(ls) + LineOutput(line)
  {
    PipelineSingle(line);
    PipelineAppend(ls, [line]);
  }

  /** The source throws at line `i` of `input`, reading field `field`, and
      at no earlier line. */
  predicate FirstFailure(input: string, i: nat, field: nat)
    ensures FirstFailure(input, i, field) ==> !InDomain(input)
  {
    var ls := Lines(input);
    assert 1 <= i < |ls| && FailsAt(ls[i], field) ==> !InDomain(input) by {
      if 1 <= i < |ls| && FailsAt(ls[i], field) {
        assert DataLines(input)[i - 1] == ls[i];
      }
    }
    && 1 <= i < |ls|
    && FailsAt(ls[i], field)
    && forall k :: 1 <= k < i ==> LineOk(ls[k])
  }

  /** A failing line whose predecessors are all readable is the first
      failure, and it puts the input outside the domain. */
  lemma StopsAtFailure(input: string, i: nat, field: nat)
    requires 1 <= i < |Lines(input)| && AllLinesOk(Lines(input)[1..i])
    requires FailsAt(Lines(input)[i], field)
    ensures FirstFailure(input, i, field)
    ensures !InDomain(input)
  {
    var ls := Lines(input);
    forall k | 1 <= k < i ensures LineOk(ls[k]) {
      assert ls[1..i][k - 1] == ls[k];
    }
    assert DataLines(input)[i - 1] == ls[i];
  }

  /** The first failure, when there is one, is unique: its line and its
      field are determined by the input. */
  lemma FirstFailureUnique(input: string, i: nat, field: nat)
    requires FirstFailure(input, i, field)
    ensures forall j, field' :: FirstFailure(input, j, field') ==> j == i && field' == field
  {
  }

  /** Scanning from line `i` on, past lines that are all readable, finds
      either no failure or a first one. */
  lemma {:induction false} ScanForFailure(input: string, i: nat)
    requires 1 <= i <= |Lines(input)|
    requires forall k :: 1 <= k < i ==> LineOk(Lines(input)[k])
    ensures InDomain(input) || exists j, field :: FirstFailure(input, j, field)
    decreases |Lines(input)| - i
  {
    var ls := Lines(input);
    if i == |ls| {
      forall k | 0 <= k < |DataLines(input)| ensures LineOk(DataLines(input)[k]) {
        assert DataLines(input)[k] == ls[k + 1];
      }
    } else if LineOk(ls[i]) {
      ScanForFailure(input, i + 1);
    } else {
      ReadableIffNoFailure(ls[i]);
      var field := if FailsAt(ls[i], 1) then 1 else 2;
      assert FirstFailure(input, i, field);
    }
  }

  /** The source returns normally exactly when no line throws first: the
      domain is the complement of the inputs with a first failure. */
  lemma DomainIffNoFirstFailure(input: string)
    ensures InDomain(input) <==> forall i, field :: !FirstFailure(input, i, field)
  {
    ScanForFailure(input, 1);
  }

  /** The loop's own reading of the data lines: each line's contribution,
      concatenated in order, so at most one record per line. */
  function LineByLine(ls: seq<string>): (out: seq<Entry>)
    requires AllLinesOk(ls)
    ensures |out| <= |ls|
    decreases |ls|
  {
    if |ls| == 0 then []
    else
      var n := |ls| - 1;
      assert AllLinesOk(ls[..n]) by { assert forall k :: 0 <= k < n ==> ls[..n][k] == ls[k]; }
      LineByLine(ls[..n]) + LineOutput(ls[n])
  }

  /** One iteration of the loop on a line the source can read appends that
      line's contribution. */
  lemma LineByLineSnoc(ls: seq<string>, line: string)
    requires AllLinesOk(ls) && LineOk(line)
    ensures AllLinesOk(ls + [line])
    ensures LineByLine(ls + [line]) == LineByLine(ls) + LineOutput(line)
  {
    var s := ls + [line];
    assert s[..|ls|] == ls;
  }

  /** Concatenating the lines' contributions is the pipeline: the
      refactoring from the loop to the filter/map chain preserves the
      result. */
  lemma {:induction false} LineByLineIsPipeline(ls: seq<string>)
    requires AllLinesOk(ls)
    ensures LineByLine(ls) == Pipeline(ls)
    decreases |ls|
  {
    if |ls| > 0 {
      var n := |ls| - 1;
      InitLast(ls);
      assert forall k :: 0 <= k < n ==> ls[..n][k] == ls[k];
      LineByLineIsPipeline(ls[..n]);
      PipelineSnoc(ls[..n], ls[n]);
    }
  }

  /** The loop body on one data line, line `i` of the input. A blank line
      contributes nothing. Any other line is split on commas and throws if
      it has no field 1; it contributes its trimmed city and phone exactly
      when its trimmed country is "India", and throws if it then has no
      field 2. */
  method ReadLine(line: string, i: nat) returns (r: Result<seq<Entry>>)
    ensures r.Ok? <==> LineOk(line)
    ensures r.Ok? ==> r.value == LineOutput(line)
    ensures r.Err? ==> r.error.line == i && FailsAt(line, r.error.field)
  {
    if Trim(line) == "" {
      return Ok([]);
    }
    var record := Split(line, ',');
    if |record| < 2 {
      return Err(MissingField(i, 1));
    }
    if Trim(record[1]) == Country {
      if |record| < 3 {
        return Err(MissingField(i, 2));
      }
      return Ok([Entry(Trim(record[0]), Trim(record[2]))]);
    }
    return Ok([]);
  }

  /** The source's loop: skip the first line via the `firstLine` flag, then
      read every other line in order. It throws exactly when the input is
      outside the domain, naming the first line it cannot read; otherwise
      it returns what the pipeline returns. */
  method AcquireData(input: string) returns (r: Result<seq<Entry>>)
    ensures r.Ok? <==> InDomain(input)
    ensures r.Ok? ==> r.value == AcquirePipeline(input)
    ensures r.Err? ==> FirstFailure(input, r.error.line, r.error.field)
  {
    var lines := Lines(input);
    var firstLine := true;
    var result: seq<Entry> := [];
    ghost var done: seq<string> := [];
    for i := 0 to |lines|
      invariant firstLine <==> i == 0
      invariant done == if i == 0 then [] else lines[1..i]
      invariant AllLinesOk(done) && result == LineByLine(done)
    {
      var line := lines[i];
      if firstLine {
        firstLine := false;
        continue;
      }
      SliceSnoc(lines, 1, i);
      var read := ReadLine(line, i);
      if read.Err? {
        StopsAtFailure(input, i, read.error.field);
        return Err(MissingField(i, read.error.field));
      }
      LineByLineSnoc(done, line);
      result := result + read.value;
      done := done + [line];
    }
    assert done == DataLines(input);
    LineByLineIsPipeline(done);
    return Ok(result);
  }
}
