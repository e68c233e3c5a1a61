/**
 Properties of `acquireData` that relate several inputs or characterise the
 whole output: the header never matters, blank lines never matter, and the
 output is exactly the projections of the "India" rows, in input order.
 */
module AcquireProperties {
  import opened Text
  import opened Seqs
  import opened Acquire

  /** A line sequence can be read exactly when both halves can. */
  lemma AllLinesOkAppend(a: seq<string>, b: seq<string>)
    ensures AllLinesOk(a + b) <==> AllLinesOk(a) && AllLinesOk(b)
  {
    if AllLinesOk(a + b) {
      forall k | 0 <= k < |a| ensures LineOk(a[k]) { assert (a + b)[k] == a[k]; }
      forall k | 0 <= k < |b| ensures LineOk(b[k]) { assert (a + b)[|a| + k] == b[k]; }
    }
  }

  /** The first line is dropped whatever it says: the data lines of
      `header + "\n" + rest` are the lines of `rest`, so replacing the header
      by any other line changes neither the outcome nor the result. */
  lemma HeaderIgnored(header: string, other: string, rest: string)
    requires '\n' !in header && '\n' !in other
    ensures DataLines(header + "\n" + rest) == Lines(rest)
    ensures InDomain(header + "\n" + rest) <==> InDomain(other + "\n" + rest)
    ensures InDomain(header + "\n" + rest) ==>
              AcquirePipeline(header + "\n" + rest) == AcquirePipeline(other + "\n" + rest)
  {
    SplitAfterPiece(header, '\n', rest);
    SplitAfterPiece(other, '\n', rest);
  }

  /** An input without a newline is all header: it is read without error
      and yields no record. */
  lemma HeaderOnly(input: string)
    requires '\n' !in input
    ensures InDomain(input)
    ensures AcquirePipeline(input) == []
  {
    SplitWithoutSeparator(input, '\n');
    assert DataLines(input) == [];
  }

  /** A blank line, wherever it sits among the data lines, can never make
      the input fail. */
  lemma BlankLineReadable(before: seq<string>, blank: string, after: seq<string>)
    requires IsBlank(blank)
    ensures AllLinesOk(before + [blank] + after) <==> AllLinesOk(before + after)
  {
    AllLinesOkAppend(before, [blank]);
    AllLinesOkAppend(before + [blank], after);
    AllLinesOkAppend(before, after);
  }

  /** A blank line, wherever it sits among the data lines, contributes
      nothing to the result. */
  lemma BlankLineIgnored(before: seq<string>, blank: string, after: seq<string>)
    requires IsBlank(blank)
    requires AllLinesOk(before + after)
    ensures AllLinesOk(before + [blank] + after)
    ensures Pipeline(before + [blank] + after) == Pipeline(before + after)
  {
    BlankLineReadable(before, blank, after);
    AllLinesOkAppend(before, after);
    PipelineSnoc(before, blank);
    assert Pipeline(before + [blank]) == Pipeline(before);
    PipelineAppend(before + [blank], after);
    PipelineAppend(before, after);
  }

  /** The loop's j-th record is what the j-th matching line contributes. */
  lemma {:induction false} LineByLineFollowsMatches(ls: seq<string>)
    requires AllLinesOk(ls)
    ensures |LineByLine(ls)| == |Positions(ls, IsMatch)|
    ensures forall j :: 0 <= j < |Positions(ls, IsMatch)| ==>
              && Positions(ls, IsMatch)[j] < |ls|
              && IsMatch(ls[Positions(ls, IsMatch)[j]])
              && LineOutput(ls[Positions(ls, IsMatch)[j]]) == [LineByLine(ls)[j]]
    decreases |ls|
  {
    if |ls| > 0 {
      var n := |ls| - 1;
      var init, last := ls[..n], ls[n];
      InitLast(ls);
      AllLinesOkAppend(init, [last]);
      LineByLineFollowsMatches(init);
      var out0, ix0 := LineByLine(init), Positions(init, IsMatch);
      var out, ix := LineByLine(ls), Positions(ls, IsMatch);
      assert out == out0 + LineOutput(last);
      assert ix == ix0 + (if IsMatch(last) then [n] else []);
      forall j | 0 <= j < |ix|
        ensures ix[j] < |ls| && IsMatch(ls[ix[j]]) && LineOutput(ls[ix[j]]) == [out[j]]
      {
        if j < |ix0| {
          assert ix[j] == ix0[j] && out[j] == out0[j] && init[ix0[j]] == ls[ix0[j]];
        } else {
          assert ix[j] == n && out[j] == LineOutput(last)[0];
        }
      }
    }
  }

  /** The pipeline's j-th record is the projection of the j-th matching
      line. */
  lemma PipelineFollowsMatches(ls: seq<string>)
    requires AllLinesOk(ls)
    ensures |Pipeline(ls)| == |Positions(ls, IsMatch)|
    ensures forall j :: 0 <= j < |Positions(ls, IsMatch)| ==>
              && Positions(ls, IsMatch)[j] < |ls|
              && IsMatch(ls[Positions(ls, IsMatch)[j]])
              && Pipeline(ls)[j] == ToEntry(Fields(ls[Positions(ls, IsMatch)[j]]))
  {
    LineByLineIsPipeline(ls);
    LineByLineFollowsMatches(ls);
    forall j | 0 <= j < |Positions(ls, IsMatch)|
      ensures Pipeline(ls)[j] == ToEntry(Fields(ls[Positions(ls, IsMatch)[j]]))
    {
      assert LineOutput(ls[Positions(ls, IsMatch)[j]]) == [Pipeline(ls)[j]];
    }
  }

  /** The pipeline selects exactly the "India" rows, in input order, and
      projects each to its trimmed field 0 (city) and field 2 (phone): the
      j-th record comes from the j-th matching line, the indices of the
      contributing lines increase, and every matching line contributes. */
  lemma PipelineSelectsMatches(ls: seq<string>)
    requires AllLinesOk(ls)
    ensures var out, ix := Pipeline(ls), Positions(ls, IsMatch);
            && |out| == |ix|
            && (forall j :: 0 <= j < |ix| ==>
                  && ix[j] < |ls|
                  && IsNonBlank(ls[ix[j]])
                  && var f := Fields(ls[ix[j]]);
                     && |f| >= 3 && Trim(f[1]) == Country
                     && out[j] == Entry(Trim(f[0]), Trim(f[2])))
            && (forall j, j' :: 0 <= j < j' < |ix| ==> ix[j] < ix[j'])
            && (forall k :: 0 <= k < |ls| && IsMatch(ls[k]) ==> k in ix)
  {
    PositionsIncreasing(ls, IsMatch);
    PositionsComplete(ls, IsMatch);
    PipelineFollowsMatches(ls);
  }
}
