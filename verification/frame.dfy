/** The CSV source as the two streaming passes see it once pandas has parsed
    it: a header and a sequence of rows, read in chunks. */
module Frame {
  import opened Wrappers

  /** One parsed record: column name to cell, `None` for a missing cell. */
  type Row = map<string, Option<string>>

  /** A parsed CSV file: its header and its data rows in file order. */
  datatype Csv = Csv(columns: seq<string>, rows: seq<Row>)

  /** The exceptions the procedure lets escape. */
  datatype Error =
    | BadChunkSize(size: int)        // pandas refuses a chunk size below 1
    | NoColumns                      // pandas' `EmptyDataError`: no header line to parse
    | MissingColumn(column: string)  // the date column is not in the header
    | DuplicateLabel(name: string)  // `sort_values` on a label two columns share
    | EmptyTable                     // `iloc[len // 2]` on an empty table

  /** The value of `column` in `row`; a column the row lacks reads as missing. */
  function Cell(row: Row, column: string): Option<string>
  {
    if column in row then row[column] else None
  }

  /** The rows of a chunking, in order. */
  function Concat(chunks: seq<seq<Row>>): seq<Row>
  {
    if |chunks| == 0 then [] else chunks[0] + Concat(chunks[1..])
  }

  lemma {:induction false} ConcatAppend(a: seq<seq<Row>>, b: seq<seq<Row>>)
    ensures Concat(a + b) == Concat(a) + Concat(b)
  {
    if |a| == 0 {
      assert a + b == b;
    } else {
      assert (a + b)[1..] == a[1..] + b;
      ConcatAppend(a[1..], b);
    }
  }

  /** Consuming one more chunk extends the rows seen so far by that chunk. */
  lemma ConcatPrefix(chunks: seq<seq<Row>>, i: nat)
    requires i < |chunks|
    ensures Concat(chunks[..i + 1]) == Concat(chunks[..i]) + chunks[i]
  {
    assert chunks[..i + 1] == chunks[..i] + [chunks[i]];
    ConcatAppend(chunks[..i], [chunks[i]]);
    assert [chunks[i]][1..] == [];
  }

  /** The chunks `pd.read_csv(..., chunksize=size)` yields: consecutive slices
      of `size` rows, the last one possibly shorter. A header-only file still
      yields one (empty) chunk. */
  function Split(rows: seq<Row>, size: nat): (chunks: seq<seq<Row>>)
    requires size >= 1
    ensures |chunks| >= 1 && Concat(chunks) == rows
    ensures forall i :: 0 <= i < |chunks| ==> |chunks[i]| <= size
    ensures forall i :: 0 <= i < |chunks| - 1 ==> |chunks[i]| == size
    ensures |rows| > 0 ==> forall i :: 0 <= i < |chunks| ==> |chunks[i]| > 0
    decreases |rows|
  {
    if |rows| <= size then
      assert [rows][1..] == [];
      [rows]
    else
      var rest := Split(rows[size..], size);
      assert ([rows[..size]] + rest)[1..] == rest;
      assert rows[..size] + rows[size..] == rows;
      [rows[..size]] + rest
  }

  /** Opening the chunked reader: pandas validates the chunk size first,
      then parses the header and raises when the file has none. */
  function ReadChunks(csv: Csv, chunksize: int): (r: Result<seq<seq<Row>>, Error>)
    ensures r.Err? <==> chunksize < 1 || |csv.columns| == 0
    ensures chunksize < 1 ==> r == Err(BadChunkSize(chunksize))
    ensures chunksize >= 1 && |csv.columns| == 0 ==> r == Err(NoColumns)
    ensures r.Ok? ==> |r.value| >= 1 && Concat(r.value) == csv.rows
  {
    if chunksize < 1 then Err(BadChunkSize(chunksize))
    else if |csv.columns| == 0 then Err(NoColumns)
    else Ok(Split(csv.rows, chunksize))
  }

  /** How many times `row` occurs in `rows`. */
  function Occurrences(rows: seq<Row>, row: Row): nat
  {
    if |rows| == 0 then 0 else (if rows[0] == row then 1 else 0) + Occurrences(rows[1..], row)
  }

  /** `chunk[chunk[column] == target]`: the rows whose `column` cell
      string-equals `target`, in their original order. A missing cell never
      matches. Every matching row is kept as often as it occurs. */
  function Matching(rows: seq<Row>, column: string, target: string): (kept: seq<Row>)
    ensures |kept| <= |rows|
    ensures forall row :: row in kept <==> row in rows && Cell(row, column) == Some(target)
    ensures forall row {:trigger Occurrences(kept, row)} :: Occurrences(kept, row) == if Cell(row, column) == Some(target) then Occurrences(rows, row) else 0
  {
    if |rows| == 0 then []
    else
      assert rows == [rows[0]] + rows[1..];
      if Cell(rows[0], column) == Some(target) then [rows[0]] + Matching(rows[1..], column, target)
      else Matching(rows[1..], column, target)
  }

  /** Filtering a concatenation filters each part. */
  lemma {:induction false} MatchingAppend(a: seq<Row>, b: seq<Row>, column: string, target: string)
    ensures Matching(a + b, column, target) == Matching(a, column, target) + Matching(b, column, target)
  {
    if |a| == 0 {
      assert a + b == b;
    } else {
      assert (a + b)[0] == a[0];
      assert (a + b)[1..] == a[1..] + b;
      MatchingAppend(a[1..], b, column, target);
    }
  }

  /** The distinct non-missing values of `column`. */
  function DatesOf(rows: seq<Row>, column: string): (dates: set<string>)
    ensures forall d :: d in dates <==> |Matching(rows, column, d)| > 0
  {
    if |rows| == 0 then {}
    else
      (match Cell(rows[0], column)
       case None => {}
       case Some(d) => {d}) + DatesOf(rows[1..], column)
  }

  /** The number of rows whose `column` cell is present. */
  function DatedCount(rows: seq<Row>, column: string): (n: nat)
    ensures n <= |rows|
  {
    if |rows| == 0 then 0
    else (if Cell(rows[0], column).Some? then 1 else 0) + DatedCount(rows[1..], column)
  }
}
