/** `main`: count the days, save the table, choose the target date (the
    override when one is given, the middle date otherwise) and extract it. */
module Pipeline {
  import opened Wrappers
  import opened Frame
  import opened CountTable
  import opened DailyCounts
  import opened Middle
  import opened Extract

  /** The parsed command line; the path and plotting flags are not modelled. */
  datatype Args = Args(dateColumn: string, chunksize: int, middleDate: Option<string>)

  /** What a successful run leaves behind: the saved daily table, the date
      chosen, the writes made to the truncated file and that file's content. */
  datatype Outputs = Outputs(dailyCounts: Table, middleDate: string, writes: seq<Write>, truncated: File)

  /** Python truthiness of `args.middle_date`: neither `None` nor `""`. */
  predicate Truthy(s: Option<string>)
  {
    s.Some? && s.value != ""
  }

  /** `args.middle_date or get_middle_date(daily_counts, args.date_column)`:
      a truthy override is used as given and `get_middle_date` is not
      called; an empty or absent one falls back to the computed date, with
      the errors that computation raises. */
  function SelectTarget(middleDate: Option<string>, dateColumn: string, table: Table): (r: Result<string, Error>)
    ensures Truthy(middleDate) ==> r == Ok(middleDate.value)
    ensures !Truthy(middleDate) && dateColumn == CountLabel ==> r == Err(DuplicateLabel(CountLabel))
    ensures !Truthy(middleDate) && dateColumn != CountLabel && |table| == 0 ==> r == Err(EmptyTable)
    ensures r.Ok? <==> Truthy(middleDate) || (dateColumn != CountLabel && |table| > 0)
    ensures !Truthy(middleDate) && r.Ok? ==>
              r.value in Dates(table) && CountBelow(table, r.value) <= |table| / 2 < CountAtMost(table, r.value)
  {
    if Truthy(middleDate) then Ok(middleDate.value)
    else GetMiddleDate(table, dateColumn)
  }

  /** The whole run on a parsed source file. `before` is what the truncated
      file's path held beforehand (`None`: no such file). `saved` is the
      daily table written to `<date_column>_daily_counts.csv`; it is saved
      as soon as the counting pass succeeds, so a later error keeps it. */
  method Truncate(csv: Csv, args: Args, before: File) returns (saved: Option<Table>, r: Result<Outputs, Error>)
    ensures args.chunksize < 1 ==> r == Err(BadChunkSize(args.chunksize))
    ensures args.chunksize >= 1 && |csv.columns| == 0 ==> r == Err(NoColumns)
    ensures args.chunksize >= 1 && |csv.columns| > 0 && args.dateColumn !in csv.columns ==>
              r == Err(MissingColumn(args.dateColumn))
    ensures (args.chunksize >= 1 && args.dateColumn in csv.columns && !Truthy(args.middleDate)
             && args.dateColumn == CountLabel) ==> r == Err(DuplicateLabel(CountLabel))
    ensures (args.chunksize >= 1 && args.dateColumn in csv.columns && !Truthy(args.middleDate)
             && args.dateColumn != CountLabel && DatedCount(csv.rows, args.dateColumn) == 0) ==> r == Err(EmptyTable)
    ensures r.Ok? <==> args.chunksize >= 1 && args.dateColumn in csv.columns
                       && (Truthy(args.middleDate)
                           || (args.dateColumn != CountLabel && DatedCount(csv.rows, args.dateColumn) > 0))
    ensures saved.Some? <==> args.chunksize >= 1 && args.dateColumn in csv.columns
    ensures saved.Some? ==> Lists(saved.value, Tally(csv.rows, args.dateColumn))
    ensures r.Ok? ==> saved == Some(r.value.dailyCounts)
    ensures r.Ok? && Truthy(args.middleDate) ==> r.value.middleDate == args.middleDate.value
    ensures r.Ok? && !Truthy(args.middleDate) ==>
              && |r.value.dailyCounts| > 0
              && r.value.middleDate == r.value.dailyCounts[|r.value.dailyCounts| / 2].date
              && CountBelow(r.value.dailyCounts, r.value.middleDate) == |r.value.dailyCounts| / 2
    ensures r.Ok? ==> Written(r.value.writes) == Matching(csv.rows, args.dateColumn, r.value.middleDate)
    ensures r.Ok? ==> HeaderOnce(r.value.writes)
    ensures r.Ok? && !Truthy(args.middleDate) ==>
              exists e :: e in r.value.dailyCounts && e.date == r.value.middleDate
                          && e.count == |Written(r.value.writes)| >= 1
    ensures r.Ok? && r.value.middleDate !in DatesOf(csv.rows, args.dateColumn) ==>
              r.value.writes == [] && r.value.truncated == before
    ensures r.Ok? && r.value.middleDate in DatesOf(csv.rows, args.dateColumn) ==>
              r.value.truncated == Some([Header(csv.columns)] + Records(Written(r.value.writes)))
  {
    var counted := ComputeDailyCounts(csv, args.dateColumn, args.chunksize);
    if counted.Err? {
      return None, Err(counted.error);
    }
    var table := counted.value;
    saved := Some(table);
    var target := SelectTarget(args.middleDate, args.dateColumn, table);
    if target.Err? {
      return saved, Err(target.error);
    }
    var middle := target.value;
    if !Truthy(args.middleDate) {
      MiddleOfSortedTable(table);
      CountBelowExact(table, |table| / 2);
      assert table[|table| / 2] in table;
    }
    // The counting pass already validated the chunk size, the header and
    // the column, so the extraction pass cannot raise here.
    var chunks := ReadChunks(csv, args.chunksize);
    assert chunks.Ok?;
    var w, file := WriteTruncatedDay(csv.columns, chunks.value, args.dateColumn, middle, before);
    assert w.Ok?;
    r := Ok(Outputs(table, middle, w.value, file));
  }
}
