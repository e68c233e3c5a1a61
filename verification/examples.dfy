/**
 The four scenarios of `src/acquire-data/index.test.js`, as lemmas about the
 exact inputs those tests build (their data lines keep the 18 spaces of
 indentation of the template literals).
 */
module AcquireExamples {
  import opened Text
  import opened Acquire
  import opened AcquireProperties

  const Header: string := "name, country, phone"
  const Indent: string := "                  "

  /** One indented data line `city, country, phone` as the tests write it. */
  function Row(city: string, country: string, phone: string): string {
    Indent + city + ", " + country + ", " + phone
  }

  /** What a test row contributes: its record if its country is "India". */
  function Expected(city: string, country: string, phone: string): seq<Entry> {
    if country == Country then [Entry(city, phone)] else []
  }

  /** A test field: non-empty, no delimiter, no surrounding whitespace. */
  predicate PlainField(s: string) {
    && s != []
    && (forall i :: 0 <= i < |s| ==> s[i] != ',' && s[i] != '\n')
    && !IsWhitespace(s[0]) && !IsWhitespace(s[|s| - 1])
  }

  lemma IndentIsWhitespace()
    ensures AllWhitespace(Indent) && AllWhitespace(" ") && AllWhitespace("")
  {
  }

  lemma PlainFieldHasNoDelimiter(s: string)
    requires PlainField(s)
    ensures ',' !in s && '\n' !in s
  {
  }

  /** A test row holds no newline and splits into its three untrimmed
      fields. */
  lemma RowFields(city: string, country: string, phone: string)
    requires PlainField(city) && PlainField(country) && PlainField(phone)
    ensures '\n' !in Row(city, country, phone)
    ensures Fields(Row(city, country, phone)) == [Indent + city, " " + country, " " + phone]
  {
    PlainFieldHasNoDelimiter(city);
    PlainFieldHasNoDelimiter(country);
    PlainFieldHasNoDelimiter(phone);
    var f0, f1, f2 := Indent + city, " " + country, " " + phone;
    assert ',' !in Indent && '\n' !in Indent;
    assert Row(city, country, phone) == f0 + [','] + (f1 + [','] + f2);
    SplitAfterPiece(f0, ',', f1 + [','] + f2);
    SplitAfterPiece(f1, ',', f2);
    SplitWithoutSeparator(f2, ',');
  }

  /** A test row contributes the record of its city and phone exactly when
      its country is "India". */
  lemma RowOutput(city: string, country: string, phone: string)
    requires PlainField(city) && PlainField(country) && PlainField(phone)
    ensures '\n' !in Row(city, country, phone)
    ensures LineOk(Row(city, country, phone))
    ensures LineOutput(Row(city, country, phone)) == Expected(city, country, phone)
  {
    var line := Row(city, country, phone);
    RowFields(city, country, phone);
    IndentIsWhitespace();
    TrimPadded(Indent, city, "");
    TrimPadded(" ", country, "");
    TrimPadded(" ", phone, "");
    assert Indent + city + "" == Indent + city;
    assert " " + country + "" == " " + country;
    assert " " + phone + "" == " " + phone;
    assert Trim(line) != "" by {
      TrimSpec(line);
      assert line[|Indent|] == city[0];
    }
  }

  /** Splitting `header + "\n" + rest` on newlines. */
  lemma LinesAfterHeader(rest: string)
    ensures Lines(Header + "\n" + rest) == [Header] + Lines(rest)
  {
    assert '\n' !in Header;
    SplitAfterPiece(Header, '\n', rest);
  }

  // The fields of the test rows, each group proved on its own to keep the
  // literal reasoning small.

  lemma JohnDoeIndiaFields()
    ensures PlainField("John Doe") && PlainField("India") && PlainField("1234567890")
  {
  }

  lemma JohnDoeUsaFields()
    ensures PlainField("John Doe") && PlainField("USA") && PlainField("1234567890")
  {
  }

  lemma JaneDoeIndiaFields()
    ensures PlainField("Jane Doe") && PlainField("India") && PlainField("9876543210")
  {
  }

  lemma KaioSilveiraPortugalFields()
    ensures PlainField("Kaio Silveira") && PlainField("Portugal") && PlainField("913111222333")
  {
  }

  /** should ignore the headers */
  lemma IgnoresTheHeader()
    ensures var input := Header + "\n" + Row("John Doe", "India", "1234567890");
            InDomain(input) && AcquirePipeline(input) == [Entry("John Doe", "1234567890")]
  {
    var l1 := Row("John Doe", "India", "1234567890");
    JohnDoeIndiaFields();
    RowOutput("John Doe", "India", "1234567890");
    LinesAfterHeader(l1);
    SplitWithoutSeparator(l1, '\n');
    PipelineSingle(l1);
  }

  /** A header, a blank line and one row. */
  lemma BlankThenRow(city: string, country: string, phone: string)
    requires PlainField(city) && PlainField(country) && PlainField(phone)
    ensures var input := Header + "\n" + "\n" + Row(city, country, phone);
            && InDomain(input)
            && AcquirePipeline(input) == Expected(city, country, phone)
  {
    var l1 := Row(city, country, phone);
    RowOutput(city, country, phone);
    LinesAfterHeader("\n" + l1);
    SplitAfterPiece("", '\n', l1);
    SplitWithoutSeparator(l1, '\n');
    assert Header + "\n" + "\n" + l1 == Header + "\n" + ("\n" + l1);
    assert DataLines(Header + "\n" + "\n" + l1) == [] + [""] + [l1];
    assert IsBlank("") by { TrimSpec(""); }
    BlankLineIgnored([], "", [l1]);
    PipelineSingle(l1);
  }

  /** A header and two rows. */
  lemma TwoRows(c1: string, k1: string, p1: string, c2: string, k2: string, p2: string)
    requires PlainField(c1) && PlainField(k1) && PlainField(p1)
    requires PlainField(c2) && PlainField(k2) && PlainField(p2)
    ensures var input := Header + "\n" + Row(c1, k1, p1) + "\n" + Row(c2, k2, p2);
            && InDomain(input)
            && AcquirePipeline(input) == Expected(c1, k1, p1) + Expected(c2, k2, p2)
  {
    var l1, l2 := Row(c1, k1, p1), Row(c2, k2, p2);
    RowOutput(c1, k1, p1);
    RowOutput(c2, k2, p2);
    assert Header + "\n" + l1 + "\n" + l2 == Header + "\n" + (l1 + "\n" + l2);
    LinesAfterHeader(l1 + "\n" + l2);
    SplitAfterPiece(l1, '\n', l2);
    SplitWithoutSeparator(l2, '\n');
    assert DataLines(Header + "\n" + l1 + "\n" + l2) == [l1] + [l2];
    PipelineSingle(l1);
    PipelineSnoc([l1], l2);
  }

  /** A header and three rows. */
  lemma ThreeRows(c1: string, k1: string, p1: string, c2: string, k2: string, p2: string,
                  c3: string, k3: string, p3: string)
    requires PlainField(c1) && PlainField(k1) && PlainField(p1)
    requires PlainField(c2) && PlainField(k2) && PlainField(p2)
    requires PlainField(c3) && PlainField(k3) && PlainField(p3)
    ensures var input := Header + "\n" + Row(c1, k1, p1) + "\n" + Row(c2, k2, p2)
                         + "\n" + Row(c3, k3, p3);
            && InDomain(input)
            && AcquirePipeline(input)
               == Expected(c1, k1, p1) + Expected(c2, k2, p2) + Expected(c3, k3, p3)
  {
    var l1, l2, l3 := Row(c1, k1, p1), Row(c2, k2, p2), Row(c3, k3, p3);
    RowOutput(c1, k1, p1);
    RowOutput(c2, k2, p2);
    RowOutput(c3, k3, p3);
    assert Header + "\n" + l1 + "\n" + l2 + "\n" + l3
           == Header + "\n" + (l1 + "\n" + (l2 + "\n" + l3));
    LinesAfterHeader(l1 + "\n" + (l2 + "\n" + l3));
    SplitAfterPiece(l1, '\n', l2 + "\n" + l3);
    SplitAfterPiece(l2, '\n', l3);
    SplitWithoutSeparator(l3, '\n');
    assert DataLines(Header + "\n" + l1 + "\n" + l2 + "\n" + l3) == [l1] + [l2] + [l3];
    PipelineSingle(l1);
    PipelineSnoc([l1], l2);
    assert [l1] + [l2] == [l1, l2];
    PipelineSnoc([l1, l2], l3);
  }

  /** should ignore empty lines */
  lemma IgnoresEmptyLines()
    ensures var input := Header + "\n" + "\n" + Row("John Doe", "India", "1234567890");
            InDomain(input) && AcquirePipeline(input) == [Entry("John Doe", "1234567890")]
  {
    JohnDoeIndiaFields();
    BlankThenRow("John Doe", "India", "1234567890");
  }

  /** should ignore records with countries other than India */
  lemma IgnoresOtherCountries()
    ensures var input := Header + "\n" + Row("John Doe", "USA", "1234567890")
                         + "\n" + Row("Jane Doe", "India", "9876543210");
            InDomain(input) && AcquirePipeline(input) == [Entry("Jane Doe", "9876543210")]
  {
    JohnDoeUsaFields();
    JaneDoeIndiaFields();
    TwoRows("John Doe", "USA", "1234567890", "Jane Doe", "India", "9876543210");
  }

  /** should return all records with country India */
  lemma ReturnsAllIndiaRecords()
    ensures var input := Header + "\n" + Row("John Doe", "India", "1234567890")
                         + "\n" + Row("Jane Doe", "India", "9876543210")
                         + "\n" + Row("Kaio Silveira", "Portugal", "913111222333");
            && InDomain(input)
            && AcquirePipeline(input)
               == [Entry("John Doe", "1234567890"), Entry("Jane Doe", "9876543210")]
  {
    JohnDoeIndiaFields();
    JaneDoeIndiaFields();
    KaioSilveiraPortugalFields();
    ThreeRows("John Doe", "India", "1234567890", "Jane Doe", "India", "9876543210",
              "Kaio Silveira", "Portugal", "913111222333");
  }
}
