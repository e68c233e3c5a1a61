# acquireData, modelled in Dafny

`acquireData(input)` reads comma-separated text. The first line is a
header and is skipped unconditionally. Every later line that is blank after
trimming is skipped. Every other line is split on commas into fields, and a
row whose trimmed field 1 is exactly `"India"` contributes the record
`{city: trim(field 0), phone: trim(field 2)}`. The result lists those records
in input order.

The project has four modules:

- `Text` (`text.dfy`): JavaScript's `String.prototype.split` with a
  one-character separator, `String.prototype.trim` with the full ECMAScript
  WhiteSpace and LineTerminator set, and `Array.prototype.join` as Split's
  inverse.
- `Seqs` (`seqs.dfy`): `filter` and `map` over partial functions, and the
  increasing list of positions whose elements satisfy a predicate.
- `Acquire` (`acquire.dfy`): the records and errors. It holds three readings
  of the function that are proved to agree:
  - `AcquireData`, the source's loop with its `firstLine` flag, which hands
    each data line to `ReadLine`, the loop body;
  - `LineByLine`, the concatenation of each line's contribution;
  - `Pipeline`, the filter/map chain: drop blank lines, split, keep "India"
    rows, project.
- `AcquireProperties` (`properties.dfy`) and `AcquireExamples`
  (`examples.dfy`): the promised properties and the four test scenarios.

The source has no error handling. A non-blank row without a field 1 makes it
call `.trim()` on `undefined` and throw a `TypeError`. So does an "India" row
without a field 2. The model makes this explicit:

- `InDomain(input)` holds exactly when no data line fails.
- `Pipeline` and `LineByLine` require `AllLinesOk` of their line sequence,
  meaning every line in it is readable. `AcquirePipeline` requires `InDomain`.
- `AcquireData` returns `Err(MissingField(line, field))` naming the first
  failing line and the missing field, and `Ok` otherwise.

A two-field row whose country is not "India" does not fail. Field 2 is read
only inside the "India" branch. The model follows the code here, not the
looser reading that any row with fewer than three fields fails.

## Model

| member | source | states |
|---|---|---|
| Text.Split | src/acquire-data/index.js:2 | `split` on a one-character separator yields one more piece than there are separators, so never an empty array |
| Text.SplitSpec | src/acquire-data/index.js:14 | no piece of `split` contains the separator, and joining the pieces with it gives back the input |
| Text.SplitJoin | src/acquire-data/index.js:14 | `split` inverts `join` on any non-empty sequence of separator-free pieces |
| Text.SplitAfterPiece | src/acquire-data/index.js:2 | a separator-free prefix followed by the separator becomes the first piece, and the rest splits independently |
| Text.SplitWithoutSeparator | src/acquire-data/index.js:2 | a string without the separator splits into itself alone |
| Text.TrimStartSpec | src/acquire-data/index.js:12 | the leading trim removes an all-whitespace prefix and stops at a non-whitespace character |
| Text.TrimEndSpec | src/acquire-data/index.js:12 | the trailing trim removes an all-whitespace suffix and stops at a non-whitespace character |
| Text.Trim | src/acquire-data/index.js:12 | `trim` never lengthens its argument, and its result neither starts nor ends with whitespace |
| Text.TrimSpec | src/acquire-data/index.js:12 | `trim` gives "" exactly for all-whitespace lines; otherwise it gives an infix that neither starts nor ends with whitespace and is bordered by whitespace only |
| Text.TrimStartPadded | src/acquire-data/index.js:16 | whitespace in front of a string that starts with non-whitespace is exactly what the leading trim removes |
| Text.TrimEndPadded | src/acquire-data/index.js:16 | whitespace after a string that ends with non-whitespace is exactly what the trailing trim removes |
| Text.TrimPadded | src/acquire-data/index.js:15-16 | `trim` of whitespace-padded text gives back the text when it has no whitespace at its ends |
| Text.TrimIsPadded | src/acquire-data/index.js:15 | for text with no whitespace at its ends, `trim` gives that text exactly when the argument is the text with only whitespace around it |
| Text.TrimIdempotent | src/acquire-data/index.js:12 | trimming twice is the same as trimming once |
| Seqs.Filter | src/acquire-data/index.js:12-15 | filtering keeps exactly the elements satisfying the predicate and never lengthens the sequence; multiplicity and order are FilterCounts and FilterAppend |
| Seqs.FilterCounts | src/acquire-data/index.js:12-15 | every kept element occurs in the result as often as in the input, and every dropped one not at all |
| Seqs.FilterAppend | src/acquire-data/index.js:6-18 | filtering a concatenation concatenates the filtered halves, so kept elements stay in input order |
| Seqs.Map | src/acquire-data/index.js:16 | mapping keeps the length and transforms element i into f of element i |
| Seqs.PositionsSound | src/acquire-data/index.js:15 | every listed position holds an element satisfying the predicate |
| Seqs.PositionsIncreasing | src/acquire-data/index.js:6 | the listed positions are strictly increasing, as the loop visits lines in order |
| Seqs.PositionsComplete | src/acquire-data/index.js:15-17 | the position of every element satisfying the predicate is listed |
| Acquire.Lines | src/acquire-data/index.js:2 | splitting on newlines always yields at least the header line |
| Acquire.IsIndia | src/acquire-data/index.js:15 | a record is from India exactly when its field 1 is `India`, with that case, padded by whitespace only |
| Acquire.ToEntry | src/acquire-data/index.js:16 | the city is field 0 and the phone field 2, each with exactly its surrounding whitespace removed |
| Acquire.FailsAt | src/acquire-data/index.js:15-16 | only reading field 1 or field 2 can throw, and a line that throws is not readable |
| Acquire.ReadableIffNoFailure | src/acquire-data/index.js:15-16 | a line is readable exactly when reading neither field 1 nor field 2 throws, and those are the only fields that can be missing |
| Acquire.Records | src/acquire-data/index.js:12-14 | there are never more records than lines; when every line is readable, every record has a field 1 and, if that field is "India", a field 2 |
| Acquire.IndiaRecords | src/acquire-data/index.js:15 | the country filter keeps only rows whose trimmed field 1 is "India", each with a field 2 to read |
| Acquire.Pipeline | src/acquire-data/index.js:6-18 | the filter/map chain over data lines yields at most one record per line |
| Acquire.AcquirePipeline | src/acquire-data/index.js:1-21 | on inputs that do not throw, there are at most as many records as lines after the header, that is, as newlines |
| Acquire.PipelineAppend | src/acquire-data/index.js:6-18 | the result for concatenated line sequences is the concatenation of the results, and readability is kept |
| Acquire.PipelineSingle | src/acquire-data/index.js:12-17 | the chain on a single readable line yields exactly that line's contribution |
| Acquire.PipelineSnoc | src/acquire-data/index.js:6-18 | appending one readable line appends exactly its contribution |
| Acquire.FirstFailure | src/acquire-data/index.js:15-16 | a line at which the source throws, with no earlier data line throwing, puts the input outside the domain |
| Acquire.StopsAtFailure | src/acquire-data/index.js:15-16 | a failing line with only readable lines before it is the first failure, and the input is outside the domain |
| Acquire.FirstFailureUnique | src/acquire-data/index.js:6-18 | the first line that throws, and the field whose read throws, are determined by the input |
| Acquire.DomainIffNoFirstFailure | src/acquire-data/index.js:6-18 | the call returns normally exactly when no line throws first, so every input either returns or has a first failure |
| Acquire.LineOutput | src/acquire-data/index.js:12-17 | one loop iteration contributes at most one record, exactly when the line is not all whitespace and its field 1 is "India" padded by whitespace only; the record's city and phone are fields 0 and 2 with exactly their surrounding whitespace removed |
| Acquire.LineByLine | src/acquire-data/index.js:6-18 | the loop's accumulated result never has more records than there are data lines |
| Acquire.LineByLineIsPipeline | src/acquire-data/index.js:6-18 | the loop's line-by-line output equals the filter/map chain on every readable line sequence |
| Acquire.ReadLine | src/acquire-data/index.js:12-17 | the loop body returns exactly on readable lines and then yields the line's contribution; otherwise it reports the line and a field whose read throws |
| Acquire.AcquireData | src/acquire-data/index.js:1-21 | the loop returns normally exactly on the domain, and then returns the chain's result; otherwise it reports the first line that throws and the missing field |
| AcquireProperties.HeaderIgnored | src/acquire-data/index.js:3-10 | the first line is dropped whatever it says: replacing it changes neither whether the call throws nor its result |
| AcquireProperties.HeaderOnly | src/acquire-data/index.js:2-10 | an input without a newline never throws and yields no records |
| AcquireProperties.BlankLineReadable | src/acquire-data/index.js:12 | inserting a blank line anywhere never makes the call throw or stop throwing |
| AcquireProperties.BlankLineIgnored | src/acquire-data/index.js:12 | inserting a blank line anywhere leaves the result unchanged |
| AcquireProperties.LineByLineFollowsMatches | src/acquire-data/index.js:6-18 | the loop's j-th record is the sole contribution of the j-th matching line |
| AcquireProperties.PipelineFollowsMatches | src/acquire-data/index.js:15-16 | the j-th record is the projection of the j-th matching line |
| AcquireProperties.PipelineSelectsMatches | src/acquire-data/index.js:14-17 | the result is exactly the trimmed city and phone of the rows whose trimmed country is exactly "India", one record per such row, in input order, with none left out |
| AcquireExamples.RowFields | src/acquire-data/index.test.js:7 | an indented test row has no newline and splits into its three untrimmed fields |
| AcquireExamples.RowOutput | src/acquire-data/index.test.js:7 | an indented test row is readable and contributes its city and phone exactly when its country is "India" |
| AcquireExamples.BlankThenRow | src/acquire-data/index.test.js:14-16 | a header, an empty line and one row yield that row's contribution |
| AcquireExamples.TwoRows | src/acquire-data/index.test.js:23-25 | a header and two rows yield the rows' contributions in order |
| AcquireExamples.ThreeRows | src/acquire-data/index.test.js:32-35 | a header and three rows yield the rows' contributions in order |
| AcquireExamples.IgnoresTheHeader | src/acquire-data/index.test.js:5-11 | the header line with one "India" row yields that row only |
| AcquireExamples.IgnoresEmptyLines | src/acquire-data/index.test.js:13-20 | an empty line between header and row is skipped |
| AcquireExamples.IgnoresOtherCountries | src/acquire-data/index.test.js:22-29 | a "USA" row is dropped and the following "India" row kept |
| AcquireExamples.ReturnsAllIndiaRecords | src/acquire-data/index.test.js:31-43 | both "India" rows are kept in order and the "Portugal" row is dropped |

## Left out

- The JavaScript exception is not modelled as an exception. The `TypeError`
  from reading a missing field becomes the value `Err(MissingField(line, field))`.
- Strings are sequences of Unicode code points. JavaScript strings are UTF-16
  code units. The difference does not matter for `split` on `'\n'` and `','`
  or for `trim`, since every character involved is in the Basic Multilingual
  Plane.
- `trim` uses the whitespace set of a fixed Unicode version: TAB, VT, FF, SP,
  NBSP, ZWNBSP, the "Zs" space separators, LF, CR, LS and PS.
- There is no CSV quoting or escaping. The source has none either.
- The Jest `expect`/`toEqual` machinery of the tests is left out. Each test becomes a
  lemma about the value its input yields. Object equality becomes datatype
  equality on `Entry(city, phone)`.
- The `loopLines` alias at line 5 of the source has no counterpart. It only
  renames `lines`.
