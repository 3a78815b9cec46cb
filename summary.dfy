/** `parse_detailed_summary`: the edges read from the tab-separated table
    that the workflow tool prints as its detailed summary. The CSV layer is
    below this model: a row arrives with its two columns already read. */
module Summary {
  import opened Seqs
  import opened Text
  import opened Graph

  /** One row of the summary: the `output_file` column and the
      `input-file(s)` column, a comma-separated list. */
  datatype Row = Row(outputFile: string, inputFiles: string)

  /** The edges of one row: every comma-separated input points at the
      row's output, one edge per field. */
  function RowEdges(row: Row): (r: seq<Edge>)
    ensures |r| == Count(row.inputFiles, ',') + 1
    ensures forall k :: 0 <= k < |r| ==> r[k].tgt == row.outputFile && ',' !in r[k].src
  {
    var srcs := Split(row.inputFiles, ',');
    seq(|srcs|, k requires 0 <= k < |srcs| => Edge(srcs[k], row.outputFile))
  }

  /** Joining the sources of a row's edges with commas gives back the
      input column: no input text is lost or invented. */
  lemma RowEdgesRoundTrip(row: Row)
    ensures Join(Sources(RowEdges(row)), ',') == row.inputFiles
  {
    assert Sources(RowEdges(row)) == Split(row.inputFiles, ',');
    JoinSplit(row.inputFiles, ',');
  }

  /** The split is the only way to read the input column as comma-free
      names: any such names whose comma join is the column are the sources
      of the row's edges, in order. */
  lemma RowEdgesSources(row: Row, srcs: seq<string>)
    requires |srcs| > 0 && Join(srcs, ',') == row.inputFiles
    requires forall k :: 0 <= k < |srcs| ==> ',' !in srcs[k]
    ensures RowEdges(row) == seq(|srcs|, k requires 0 <= k < |srcs| => Edge(srcs[k], row.outputFile))
  {
    SplitJoin(srcs, ',');
  }

  /** A row with an empty input column still yields one edge, whose source
      is the empty name. */
  lemma EmptyInputsEdge(row: Row)
    requires row.inputFiles == ""
    ensures RowEdges(row) == [Edge("", row.outputFile)]
  {
    assert Split(row.inputFiles, ',') == [""];
  }

  /** The edges of each row, row by row. */
  function PerRow(rows: seq<Row>): (r: seq<seq<Edge>>)
    ensures |r| == |rows|
  {
    seq(|rows|, i requires 0 <= i < |rows| => RowEdges(rows[i]))
  }

  /** The edges of all rows, row after row. */
  function SummaryEdges(rows: seq<Row>): seq<Edge>
  {
    Flatten(PerRow(rows))
  }

  /** One more row appends its edges. */
  lemma SummaryEdgesSnoc(rows: seq<Row>, row: Row)
    ensures SummaryEdges(rows + [row]) == SummaryEdges(rows) + RowEdges(row)
  {
    assert PerRow(rows + [row]) == PerRow(rows) + [RowEdges(row)];
    FlattenSnoc(PerRow(rows), RowEdges(row));
  }

  /** Reading two tables one after the other gives the edges of the first,
      then those of the second. */
  lemma SummaryEdgesConcat(a: seq<Row>, b: seq<Row>)
    ensures SummaryEdges(a + b) == SummaryEdges(a) + SummaryEdges(b)
  {
    assert PerRow(a + b) == PerRow(a) + PerRow(b);
    FlattenAppend(PerRow(a), PerRow(b));
  }

  /** An edge is read exactly when some row produces it; in particular its
      target is that row's output. */
  lemma SummaryEdgesMembers(rows: seq<Row>)
    ensures forall e :: e in SummaryEdges(rows) <==>
      exists i :: 0 <= i < |rows| && e in RowEdges(rows[i])
  {
    FlattenMembers(PerRow(rows));
    forall e ensures e in SummaryEdges(rows) <==>
      exists i :: 0 <= i < |rows| && e in RowEdges(rows[i])
    {
      if exists i :: 0 <= i < |rows| && e in RowEdges(rows[i]) {
        var i :| 0 <= i < |rows| && e in RowEdges(rows[i]);
        assert e in PerRow(rows)[i];
      }
    }
  }

  /** `parse_detailed_summary(lines)`: for each row, in order, one edge
      from every comma-separated input to the row's output. */
  method ParseDetailedSummary(rows: seq<Row>) returns (edgeList: seq<Edge>)
    ensures edgeList == SummaryEdges(rows)
  {
    edgeList := [];
    for i := 0 to |rows|
      invariant edgeList == SummaryEdges(rows[..i])
    {
      var row := rows[i];
      var dst := row.outputFile;
      var srcs := Split(row.inputFiles, ',');
      for k := 0 to |srcs|
        invariant edgeList == SummaryEdges(rows[..i]) + RowEdges(row)[..k]
      {
        assert RowEdges(row)[..k + 1] == RowEdges(row)[..k] + [Edge(srcs[k], dst)];
        edgeList := edgeList + [Edge(srcs[k], dst)];
      }
      assert RowEdges(row)[..|srcs|] == RowEdges(row);
      assert rows[..i + 1] == rows[..i] + [row];
      SummaryEdgesSnoc(rows[..i], row);
    }
    assert rows[..|rows|] == rows;
  }
}
