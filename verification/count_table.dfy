/** The daily count table: `(date, count)` rows, as the DataFrame that
    `compute_daily_counts` returns and `get_middle_date` reads. */
module CountTable {
  import opened Lexical

  datatype Entry = Entry(date: string, count: nat)

  /** The label of the count column; the date column keeps its own name. */
  const CountLabel: string := "count"

  type Table = seq<Entry>

  /** The dates a table lists. */
  function Dates(t: Table): set<string>
  {
    set e | e in t :: e.date
  }

  /** Ascending by date, ties allowed. */
  predicate Sorted(t: Table)
  {
    forall i, j :: 0 <= i < j < |t| ==> AtMost(t[i].date, t[j].date)
  }

  /** Strictly ascending by date, hence no date listed twice. */
  predicate StrictlySorted(t: Table)
  {
    forall i, j :: 0 <= i < j < |t| ==> Below(t[i].date, t[j].date)
  }

  /** The total of the `count` column. */
  function SumCounts(t: Table): nat
  {
    if |t| == 0 then 0 else t[0].count + SumCounts(t[1..])
  }

  /** Inserts `e` before the first entry whose date is not below its own. */
  function Insert(e: Entry, t: Table): (r: Table)
    ensures |r| == |t| + 1
    ensures multiset(r) == multiset(t) + multiset{e}
  {
    if |t| == 0 || AtMost(e.date, t[0].date) then [e] + t
    else
      assert t == [t[0]] + t[1..];
      [t[0]] + Insert(e, t[1..])
  }

  lemma SortedPrepend(x: Entry, s: Table)
    requires Sorted(s)
    requires forall e :: e in s ==> AtMost(x.date, e.date)
    ensures Sorted([x] + s)
  {
    forall i, j | 0 <= i < j < |[x] + s|
      ensures AtMost(([x] + s)[i].date, ([x] + s)[j].date)
    {
      assert s[j - 1] in s;
    }
  }

  lemma StrictlySortedPrepend(x: Entry, s: Table)
    requires StrictlySorted(s)
    requires forall e :: e in s ==> Below(x.date, e.date)
    ensures StrictlySorted([x] + s)
  {
    forall i, j | 0 <= i < j < |[x] + s|
      ensures Below(([x] + s)[i].date, ([x] + s)[j].date)
    {
      assert s[j - 1] in s;
    }
  }

  /** Insertion keeps a table sorted. */
  lemma {:induction false} InsertSorted(e: Entry, t: Table)
    requires Sorted(t)
    ensures Sorted(Insert(e, t))
  {
    if |t| == 0 {
    } else if AtMost(e.date, t[0].date) {
      forall x | x in t
        ensures AtMost(e.date, x.date)
      {
        var k :| 0 <= k < |t| && t[k] == x;
        if k > 0 {
          AtMostTransitive(e.date, t[0].date, x.date);
        }
      }
      SortedPrepend(e, t);
    } else {
      AtMostIffNotBelow(e.date, t[0].date);
      InsertSorted(e, t[1..]);
      var rest := Insert(e, t[1..]);
      forall x | x in rest
        ensures AtMost(t[0].date, x.date)
      {
        assert x in multiset(rest);
        if x != e {
          var k :| 0 <= k < |t[1..]| && t[1..][k] == x;
          assert t[k + 1] == x;
        }
      }
      SortedPrepend(t[0], rest);
    }
  }

  /** Inserting a new date keeps a table strictly sorted. */
  lemma {:induction false} InsertStrictlySorted(e: Entry, t: Table)
    requires StrictlySorted(t)
    requires e.date !in Dates(t)
    ensures StrictlySorted(Insert(e, t))
  {
    if |t| == 0 {
    } else if AtMost(e.date, t[0].date) {
      assert t[0] in t;
      forall x | x in t
        ensures Below(e.date, x.date)
      {
        var k :| 0 <= k < |t| && t[k] == x;
        if k > 0 {
          BelowTransitive(e.date, t[0].date, x.date);
        }
      }
      StrictlySortedPrepend(e, t);
    } else {
      assert t[0] in t;
      BelowTotal(e.date, t[0].date);
      assert Dates(t[1..]) <= Dates(t);
      InsertStrictlySorted(e, t[1..]);
      var rest := Insert(e, t[1..]);
      forall x | x in rest
        ensures Below(t[0].date, x.date)
      {
        assert x in multiset(rest);
        if x != e {
          var k :| 0 <= k < |t[1..]| && t[1..][k] == x;
          assert t[k + 1] == x;
        }
      }
      StrictlySortedPrepend(t[0], rest);
    }
  }

  /** Insertion adds exactly the new entry and its date. */
  lemma InsertMembers(e: Entry, t: Table)
    ensures forall x :: x in Insert(e, t) <==> x in t || x == e
    ensures Dates(Insert(e, t)) == Dates(t) + {e.date}
  {
    var r := Insert(e, t);
    assert forall x :: x in r <==> x in multiset(r);
    assert forall x :: x in t <==> x in multiset(t);
    forall x | x in Dates(r) ensures x in Dates(t) + {e.date} {
      var y :| y in r && y.date == x;
    }
    forall x | x in Dates(t) + {e.date} ensures x in Dates(r) {
      if x == e.date {
        assert e in r;
      } else {
        var y :| y in t && y.date == x;
        assert y in r;
      }
    }
  }

  /** A table lists no date exactly when it is empty. */
  lemma DatesEmpty(t: Table)
    ensures Dates(t) == {} <==> |t| == 0
  {
    if |t| > 0 {
      assert t[0].date in Dates(t);
    }
  }

  /** A strictly sorted table lists every date once. */
  lemma StrictlySortedDistinct(t: Table, i: int, j: int)
    requires StrictlySorted(t)
    requires 0 <= i < |t| && 0 <= j < |t| && i != j
    ensures t[i].date != t[j].date
  {
    if i < j {
      BelowIrreflexive(t[i].date);
    } else {
      BelowIrreflexive(t[j].date);
    }
  }
}
