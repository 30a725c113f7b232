/** `get_middle_date`: sort the table by date and take the date at index
    `len // 2`. */
module Middle {
  import opened Wrappers
  import opened Lexical
  import opened Frame
  import opened CountTable

  /** `sort_values(date_column)`. pandas' default sort is not stable, but
      every date-sorted arrangement has the same date at each index, which is
      all the selection reads. */
  function SortByDate(t: Table): (s: Table)
    ensures multiset(s) == multiset(t)
    ensures Sorted(s)
  {
    if |t| == 0 then []
    else
      var rest := SortByDate(t[1..]);
      InsertSorted(t[0], rest);
      assert t == [t[0]] + t[1..];
      Insert(t[0], rest)
  }

  /** How many entries have a date strictly below `d`. */
  function CountBelow(t: Table, d: string): nat
  {
    if |t| == 0 then 0 else (if Below(t[0].date, d) then 1 else 0) + CountBelow(t[1..], d)
  }

  /** How many entries have a date at most `d`. */
  function CountAtMost(t: Table, d: string): nat
  {
    if |t| == 0 then 0 else (if AtMost(t[0].date, d) then 1 else 0) + CountAtMost(t[1..], d)
  }

  lemma {:induction false} InsertCounts(e: Entry, t: Table, d: string)
    ensures CountBelow(Insert(e, t), d) == CountBelow(t, d) + (if Below(e.date, d) then 1 else 0)
    ensures CountAtMost(Insert(e, t), d) == CountAtMost(t, d) + (if AtMost(e.date, d) then 1 else 0)
  {
    if |t| == 0 || AtMost(e.date, t[0].date) {
      assert ([e] + t)[1..] == t;
    } else {
      InsertCounts(e, t[1..], d);
      assert ([t[0]] + Insert(e, t[1..]))[1..] == Insert(e, t[1..]);
    }
  }

  /** Sorting moves entries but does not change how many fall on either side
      of a date. */
  lemma {:induction false} SortCounts(t: Table, d: string)
    ensures CountBelow(SortByDate(t), d) == CountBelow(t, d)
    ensures CountAtMost(SortByDate(t), d) == CountAtMost(t, d)
  {
    if |t| > 0 {
      SortCounts(t[1..], d);
      InsertCounts(t[0], SortByDate(t[1..]), d);
    }
  }

  /** In a sorted table nothing from index `m` on is below the date at `m`. */
  lemma {:induction false} RankBelow(s: Table, m: nat)
    requires Sorted(s) && m < |s|
    ensures CountBelow(s, s[m].date) <= m
  {
    if m == 0 {
      CountBelowNone(s, s[0].date);
    } else {
      RankBelow(s[1..], m - 1);
    }
  }

  lemma {:induction false} CountBelowNone(s: Table, d: string)
    requires forall i :: 0 <= i < |s| ==> AtMost(d, s[i].date)
    ensures CountBelow(s, d) == 0
  {
    if |s| > 0 {
      AtMostIffNotBelow(d, s[0].date);
      CountBelowNone(s[1..], d);
    }
  }

  /** In a sorted table everything up to index `m` is at most the date at `m`. */
  lemma {:induction false} RankAtMost(s: Table, m: nat)
    requires Sorted(s) && m < |s|
    ensures CountAtMost(s, s[m].date) >= m + 1
  {
    if m > 0 {
      RankAtMost(s[1..], m - 1);
    }
  }

  /** `ordered.iloc[len(ordered) // 2][date_column]`. The result is a date of
      the table with fewer than half-plus-one entries below it and more than
      half at or below it: the first date of the upper half. */
  function MiddleDate(t: Table): (d: string)
    requires |t| > 0
    ensures d in Dates(t)
    ensures CountBelow(t, d) <= |t| / 2 < CountAtMost(t, d)
  {
    var s := SortByDate(t);
    var m := |t| / 2;
    assert |s| == |multiset(s)| == |t|;
    assert s[m] in multiset(t);
    SortCounts(t, s[m].date);
    RankBelow(s, m);
    RankAtMost(s, m);
    s[m].date
  }

  lemma {:induction false} SortSorted(t: Table)
    requires Sorted(t)
    ensures SortByDate(t) == t
  {
    if |t| > 0 {
      SortSorted(t[1..]);
      assert t == [t[0]] + t[1..];
    }
  }

  /** In a strictly ascending table exactly `m` dates are below the one at
      index `m`. */
  lemma {:induction false} CountBelowExact(t: Table, m: nat)
    requires StrictlySorted(t) && m < |t|
    ensures CountBelow(t, t[m].date) == m
  {
    if m == 0 {
      BelowIrreflexive(t[0].date);
      forall i | 0 <= i < |t[1..]| ensures AtMost(t[0].date, t[1..][i].date) {
        assert t[1..][i] == t[i + 1];
      }
      CountBelowNone(t[1..], t[0].date);
    } else {
      CountBelowExact(t[1..], m - 1);
    }
  }

  /** On a date-sorted table, such as the one `compute_daily_counts`
      produces, the middle date is the date of the entry at index `len // 2`. */
  lemma MiddleOfSortedTable(t: Table)
    requires Sorted(t) && |t| > 0
    ensures MiddleDate(t) == t[|t| / 2].date
  {
    SortSorted(t);
  }

  /** `get_middle_date(daily_counts, date_column)` on the frame built with
      columns `[date_column, "count"]`. When the date column is itself named
      `count`, the label is shared and `sort_values` raises before anything
      is read; otherwise an empty table has no entry at `len // 2`. */
  function GetMiddleDate(t: Table, dateColumn: string): (r: Result<string, Error>)
    ensures dateColumn == CountLabel ==> r == Err(DuplicateLabel(CountLabel))
    ensures dateColumn != CountLabel && |t| == 0 ==> r == Err(EmptyTable)
    ensures r.Ok? <==> dateColumn != CountLabel && |t| > 0
    ensures r.Ok? ==> r.value in Dates(t) && CountBelow(t, r.value) <= |t| / 2 < CountAtMost(t, r.value)
  {
    if dateColumn == CountLabel then Err(DuplicateLabel(CountLabel))
    else if |t| == 0 then Err(EmptyTable)
    else Ok(MiddleDate(t))
  }
}
