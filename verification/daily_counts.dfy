/** `compute_daily_counts`: one streaming pass over the date column, a
    running `dict` of per-date counts, emitted as a date-sorted table. */
module DailyCounts {
  import opened Wrappers
  import opened Lexical
  import opened Frame
  import opened CountTable

  /** `value_counts()` of `column` over `rows`: every distinct non-missing
      value with the number of rows holding it. */
  function Tally(rows: seq<Row>, column: string): (m: map<string, nat>)
    ensures forall d {:trigger Get(m, d)} :: Get(m, d) == |Matching(rows, column, d)| && (d in m <==> Get(m, d) > 0)
  {
    map d | d in DatesOf(rows, column) :: |Matching(rows, column, d)|
  }

  /** `counts.get(d, 0)`. */
  function Get(m: map<string, nat>, d: string): nat
  {
    if d in m then m[d] else 0
  }

  /** `t` is `sorted(m.items())` as a table: strictly ascending dates,
      exactly the keys of `m`, each with its count. */
  ghost predicate Lists(t: Table, m: map<string, nat>)
  {
    && StrictlySorted(t)
    && Dates(t) == m.Keys
    && forall e :: e in t ==> e.date in m && e.count == m[e.date]
  }

  /** The tally of two row blocks is the key-wise sum of their tallies:
      for each date, the count over both blocks is the sum of the counts. */
  lemma TallyAppend(a: seq<Row>, b: seq<Row>, column: string, d: string)
    ensures Get(Tally(a + b, column), d) == Get(Tally(a, column), d) + Get(Tally(b, column), d)
  {
    MatchingAppend(a, b, column, d);
  }

  /** A date is a key of the tally exactly when some row holds it. */
  lemma TallyKeys(rows: seq<Row>, column: string)
    ensures forall d :: d in Tally(rows, column) <==> Get(Tally(rows, column), d) > 0
  {
  }

  /** The merge loop `for d, c in vc.items(): counts[d] = counts.get(d, 0) + int(c)`. */
  method MergeCounts(counts: map<string, nat>, vc: map<string, nat>) returns (merged: map<string, nat>)
    ensures merged.Keys == counts.Keys + vc.Keys
    ensures forall d :: Get(merged, d) == Get(counts, d) + Get(vc, d)
  {
    merged := counts;
    var pending := vc.Keys;
    while pending != {}
      invariant pending <= vc.Keys
      invariant merged.Keys == counts.Keys + (vc.Keys - pending)
      invariant forall d :: Get(merged, d) == Get(counts, d) + (if d in vc && d !in pending then vc[d] else 0)
      decreases pending
    {
      var d :| d in pending;
      merged := merged[d := Get(merged, d) + vc[d]];
      pending := pending - {d};
    }
  }

  /** Merging the next chunk's tally into the running tally gives the tally
      of all rows read so far. */
  lemma MergeStep(seen: seq<Row>, chunk: seq<Row>, column: string, merged: map<string, nat>)
    requires merged.Keys == Tally(seen, column).Keys + Tally(chunk, column).Keys
    requires forall d :: Get(merged, d) == Get(Tally(seen, column), d) + Get(Tally(chunk, column), d)
    ensures merged == Tally(seen + chunk, column)
  {
    var expected := Tally(seen + chunk, column);
    assert forall d :: (d in merged <==> d in expected) && (d in merged ==> merged[d] == expected[d]) by {
      forall d
        ensures d in merged <==> d in expected
        ensures d in merged ==> merged[d] == expected[d]
      {
        TallyAppend(seen, chunk, column, d);
        MergeAt(merged, Tally(seen, column), Tally(chunk, column), expected, d);
      }
    }
    SameMaps(merged, expected);
  }

  /** Two maps that agree on every key are equal. */
  lemma SameMaps(m1: map<string, nat>, m2: map<string, nat>)
    requires forall d :: (d in m1 <==> d in m2) && (d in m1 ==> m1[d] == m2[d])
    ensures m1 == m2
  {
  }

  /** One date of `MergeStep`, for maps whose keys carry positive counts. */
  lemma MergeAt(merged: map<string, nat>, a: map<string, nat>, b: map<string, nat>, e: map<string, nat>, d: string)
    requires d in a ==> a[d] > 0
    requires d in b ==> b[d] > 0
    requires d in e ==> e[d] > 0
    requires d in merged <==> d in a || d in b
    requires Get(merged, d) == Get(a, d) + Get(b, d) == Get(e, d)
    ensures d in merged <==> d in e
    ensures d in merged ==> merged[d] == e[d]
  {
  }

  /** The chunk loop of the counting pass. Whatever the chunk boundaries, the
      running counts end as the tally of all rows read. */
  method CountDates(chunks: seq<seq<Row>>, column: string) returns (counts: map<string, nat>)
    ensures counts == Tally(Concat(chunks), column)
  {
    counts := map[];
    var i := 0;
    while i < |chunks|
      invariant 0 <= i <= |chunks|
      invariant counts == Tally(Concat(chunks[..i]), column)
    {
      var vc := Tally(chunks[i], column);
      var merged := MergeCounts(counts, vc);
      ConcatPrefix(chunks, i);
      MergeStep(Concat(chunks[..i]), chunks[i], column, merged);
      counts := merged;
      i := i + 1;
    }
    assert chunks[..i] == chunks;
  }

  /** `sorted(counts.items())`: the entries of a count map in ascending date
      order. */
  method SortedItems(counts: map<string, nat>) returns (table: Table)
    ensures Lists(table, counts)
  {
    table := [];
    var pending := counts.Keys;
    while pending != {}
      invariant pending <= counts.Keys
      invariant StrictlySorted(table)
      invariant Dates(table) == counts.Keys - pending
      invariant forall e :: e in table ==> e.date in counts && e.count == counts[e.date]
      decreases pending
    {
      var d :| d in pending;
      var e := Entry(d, counts[d]);
      InsertStrictlySorted(e, table);
      InsertMembers(e, table);
      var next := Insert(e, table);
      table := next;
      pending := pending - {d};
    }
  }

  /** `sum` over a table of how many rows match each listed date. */
  function SumMatching(t: Table, rows: seq<Row>, column: string): nat
  {
    if |t| == 0 then 0 else |Matching(rows, column, t[0].date)| + SumMatching(t[1..], rows, column)
  }

  /** How many entries of `t` carry the value `cell`. */
  function Hits(t: Table, cell: Option<string>): nat
  {
    if |t| == 0 then 0 else (if cell == Some(t[0].date) then 1 else 0) + Hits(t[1..], cell)
  }

  lemma {:induction false} SumMatchingCons(t: Table, rows: seq<Row>, column: string)
    requires |rows| > 0
    ensures SumMatching(t, rows, column) == Hits(t, Cell(rows[0], column)) + SumMatching(t, rows[1..], column)
  {
    if |t| > 0 {
      SumMatchingCons(t[1..], rows, column);
    }
  }

  /** With no date listed twice, a row is counted under at most one entry:
      exactly one when its date is listed, none when it is missing. */
  lemma {:induction false} HitsDistinct(t: Table, cell: Option<string>)
    requires StrictlySorted(t)
    requires cell.Some? ==> cell.value in Dates(t)
    ensures Hits(t, cell) == if cell.Some? then 1 else 0
  {
    if |t| > 0 {
      if cell == Some(t[0].date) {
        forall e | e in t[1..] ensures e.date != t[0].date {
          var k :| 0 <= k < |t[1..]| && t[1..][k] == e;
          StrictlySortedDistinct(t, 0, k + 1);
        }
        HitsAbsent(t[1..], cell);
      } else {
        if cell.Some? {
          var e :| e in t && e.date == cell.value;
          assert e in t[1..];
        }
        HitsDistinct(t[1..], cell);
      }
    }
  }

  lemma {:induction false} HitsAbsent(t: Table, cell: Option<string>)
    requires forall e :: e in t && cell.Some? ==> e.date != cell.value
    ensures Hits(t, cell) == 0
  {
    if |t| > 0 {
      assert t[0] in t;
      HitsAbsent(t[1..], cell);
    }
  }

  /** Summing the matches of every listed date counts each dated row once,
      provided every date of the rows is listed exactly once. */
  lemma {:induction false} SumMatchingIsDatedCount(t: Table, rows: seq<Row>, column: string)
    requires StrictlySorted(t)
    requires DatesOf(rows, column) <= Dates(t)
    ensures SumMatching(t, rows, column) == DatedCount(rows, column)
    decreases |rows|
  {
    if |rows| == 0 {
      SumMatchingEmpty(t, rows, column);
    } else {
      SumMatchingCons(t, rows, column);
      HitsDistinct(t, Cell(rows[0], column));
      SumMatchingIsDatedCount(t, rows[1..], column);
    }
  }

  lemma {:induction false} SumMatchingEmpty(t: Table, rows: seq<Row>, column: string)
    requires |rows| == 0
    ensures SumMatching(t, rows, column) == 0
  {
    if |t| > 0 {
      SumMatchingEmpty(t[1..], rows, column);
    }
  }

  lemma {:induction false} SumCountsIsSumMatching(t: Table, rows: seq<Row>, column: string)
    requires forall e :: e in t ==> e.count == |Matching(rows, column, e.date)|
    ensures SumCounts(t) == SumMatching(t, rows, column)
  {
    if |t| > 0 {
      assert t[0] in t;
      SumCountsIsSumMatching(t[1..], rows, column);
    }
  }

  /** Conservation: the counts of the table sum to the number of rows whose
      date is present, since `value_counts` drops missing values. */
  lemma TallyConservation(t: Table, rows: seq<Row>, column: string)
    requires Lists(t, Tally(rows, column))
    ensures SumCounts(t) == DatedCount(rows, column)
  {
    SumCountsIsSumMatching(t, rows, column);
    SumMatchingIsDatedCount(t, rows, column);
  }

  /** Two sorted listings of the same counts are the same table, so the
      table does not depend on the chunking. */
  lemma {:induction false} ListingUnique(t1: Table, t2: Table, m: map<string, nat>)
    requires Lists(t1, m) && Lists(t2, m)
    ensures t1 == t2
    decreases |t1|
  {
    DatesEmpty(t1);
    DatesEmpty(t2);
    if |t1| > 0 {
      assert t1[0] in t1 && t2[0] in t2;
      var j :| j in t2 && j.date == t1[0].date;
      var k :| k in t1 && k.date == t2[0].date;
      MinimumFirst(t1, k);
      MinimumFirst(t2, j);
      AtMostAntisymmetric(t1[0].date, t2[0].date);
      var m' := m - {t1[0].date};
      ListsTail(t1, m);
      ListsTail(t2, m);
      ListingUnique(t1[1..], t2[1..], m');
      assert t1 == [t1[0]] + t1[1..];
      assert t2 == [t2[0]] + t2[1..];
    }
  }

  lemma MinimumFirst(t: Table, x: Entry)
    requires StrictlySorted(t) && x in t
    ensures AtMost(t[0].date, x.date)
  {
  }

  lemma AtMostAntisymmetric(a: string, b: string)
    requires AtMost(a, b) && AtMost(b, a)
    ensures a == b
  {
    if Below(a, b) {
      BelowAsymmetric(a, b);
    }
  }

  lemma ListsTail(t: Table, m: map<string, nat>)
    requires Lists(t, m) && |t| > 0
    ensures Lists(t[1..], m - {t[0].date})
  {
    TailDatesDiffer(t);
    TailDates(t, m);
    TailCounts(t, m);
  }

  lemma TailDatesDiffer(t: Table)
    requires StrictlySorted(t) && |t| > 0
    ensures forall e :: e in t[1..] ==> e.date != t[0].date
  {
    forall e | e in t[1..] ensures e.date != t[0].date {
      var k :| 0 <= k < |t[1..]| && t[1..][k] == e;
      StrictlySortedDistinct(t, 0, k + 1);
    }
  }

  lemma TailDates(t: Table, m: map<string, nat>)
    requires |t| > 0 && Dates(t) == m.Keys
    requires forall e :: e in t[1..] ==> e.date != t[0].date
    ensures Dates(t[1..]) == (m - {t[0].date}).Keys
  {
    assert t == [t[0]] + t[1..];
    assert Dates(t) == {t[0].date} + Dates(t[1..]);
  }

  lemma TailCounts(t: Table, m: map<string, nat>)
    requires |t| > 0
    requires forall e :: e in t ==> e.date in m && e.count == m[e.date]
    requires forall e :: e in t[1..] ==> e.date != t[0].date
    ensures forall e :: e in t[1..] ==> e.date in m - {t[0].date} && e.count == (m - {t[0].date})[e.date]
  {
    forall e | e in t[1..] ensures e.date in m - {t[0].date} && e.count == (m - {t[0].date})[e.date] {
      assert e in t;
    }
  }

  /** `compute_daily_counts(csv_path, date_column, chunksize)`. */
  method ComputeDailyCounts(csv: Csv, column: string, chunksize: int) returns (r: Result<Table, Error>)
    ensures chunksize < 1 ==> r == Err(BadChunkSize(chunksize))
    ensures chunksize >= 1 && |csv.columns| == 0 ==> r == Err(NoColumns)
    ensures chunksize >= 1 && |csv.columns| > 0 && column !in csv.columns ==> r == Err(MissingColumn(column))
    ensures r.Ok? <==> chunksize >= 1 && column in csv.columns
    ensures r.Ok? ==> Lists(r.value, Tally(csv.rows, column))
    ensures r.Ok? ==> forall e :: e in r.value ==> e.count >= 1 && e.count == |Matching(csv.rows, column, e.date)|
    ensures r.Ok? ==> SumCounts(r.value) == DatedCount(csv.rows, column)
    ensures r.Ok? ==> (|r.value| == 0 <==> DatedCount(csv.rows, column) == 0)
  {
    var read := ReadChunks(csv, chunksize);
    if read.Err? {
      return Err(read.error);
    }
    if column !in csv.columns {
      return Err(MissingColumn(column));
    }
    var counts := CountDates(read.value, column);
    var table := SortedItems(counts);
    TallyConservation(table, csv.rows, column);
    if |table| > 0 {
      assert table[0] in table;
      assert table == [table[0]] + table[1..];
    }
    r := Ok(table);
  }
}
