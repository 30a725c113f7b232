/** `write_truncated_day`: a second streaming pass that appends the rows of
    one date to the output file, writing the header with the first matching
    chunk only. */
module Extract {
  import opened Wrappers
  import opened Frame

  /** A line of the output CSV. */
  datatype Line = Header(columns: seq<string>) | Record(row: Row)

  /** The output path's content; `None` while no file exists there. */
  type File = Option<seq<Line>>

  /** `mode="w"` truncates, `mode="a"` appends. */
  datatype Mode = Overwrite | Append

  /** One `filtered.to_csv(output_path, mode=..., index=False, header=...)`. */
  datatype Write = Write(mode: Mode, header: bool, rows: seq<Row>)

  /** The data lines `to_csv` emits for some rows, one per row in order. */
  function Records(rows: seq<Row>): (lines: seq<Line>)
    ensures |lines| == |rows|
  {
    if |rows| == 0 then [] else [Record(rows[0])] + Records(rows[1..])
  }

  lemma {:induction false} RecordsAppend(a: seq<Row>, b: seq<Row>)
    ensures Records(a + b) == Records(a) + Records(b)
  {
    if |a| == 0 {
      assert a + b == b;
    } else {
      assert (a + b)[0] == a[0];
      assert (a + b)[1..] == a[1..] + b;
      RecordsAppend(a[1..], b);
    }
  }

  /** The effect of one write on the file; `columns` is the chunk's header.
      The file exists afterwards, and mode `w` drops what was there. */
  function Perform(file: File, columns: seq<string>, w: Write): (r: File)
    ensures r.Some?
    ensures |r.value| == (if w.mode == Append && file.Some? then |file.value| else 0)
                         + (if w.header then 1 else 0) + |w.rows|
  {
    var lines := (if w.header then [Header(columns)] else []) + Records(w.rows);
    match w.mode
    case Overwrite => Some(lines)
    case Append => Some((if file.Some? then file.value else []) + lines)
  }

  /** What one write leaves at the path: mode `a` keeps the prior lines as a
      prefix, the header line, when asked for, comes right before the
      records, and the records end the file. With the length fixed by
      `Perform`, this determines the file completely. */
  lemma PerformEffect(file: File, columns: seq<string>, w: Write)
    ensures w.mode == Append && file.Some? ==> Perform(file, columns, w).value[..|file.value|] == file.value
    ensures w.header ==> Perform(file, columns, w).value[|Perform(file, columns, w).value| - |w.rows| - 1] == Header(columns)
    ensures Perform(file, columns, w).value[|Perform(file, columns, w).value| - |w.rows|..] == Records(w.rows)
  {
  }

  /** The file after a sequence of writes. */
  function PerformAll(file: File, columns: seq<string>, ws: seq<Write>): File
    decreases |ws|
  {
    if |ws| == 0 then file else PerformAll(Perform(file, columns, ws[0]), columns, ws[1..])
  }

  /** The rows a sequence of writes carries, in order. */
  function Written(ws: seq<Write>): seq<Row>
  {
    if |ws| == 0 then [] else ws[0].rows + Written(ws[1..])
  }

  /** The header discipline: the first write truncates and writes the
      header, every later one appends without it, and none is empty. */
  predicate HeaderOnce(ws: seq<Write>)
  {
    && (|ws| > 0 ==> ws[0].mode == Overwrite && ws[0].header)
    && (forall i :: 0 < i < |ws| ==> ws[i].mode == Append && !ws[i].header)
    && (forall i :: 0 <= i < |ws| ==> |ws[i].rows| > 0)
  }

  lemma {:induction false} WrittenSnoc(ws: seq<Write>, w: Write)
    ensures Written(ws + [w]) == Written(ws) + w.rows
  {
    if |ws| == 0 {
      assert ([w])[1..] == [];
    } else {
      assert (ws + [w])[1..] == ws[1..] + [w];
      WrittenSnoc(ws[1..], w);
    }
  }

  lemma {:induction false} PerformAllSnoc(file: File, columns: seq<string>, ws: seq<Write>, w: Write)
    ensures PerformAll(file, columns, ws + [w]) == Perform(PerformAll(file, columns, ws), columns, w)
    decreases |ws|
  {
    if |ws| == 0 {
      assert ([w])[1..] == [];
    } else {
      assert (ws + [w])[1..] == ws[1..] + [w];
      PerformAllSnoc(Perform(file, columns, ws[0]), columns, ws[1..], w);
    }
  }

  /** One matching chunk written under the `first` flag keeps the header
      discipline and extends the file by that chunk's records. */
  lemma WriteStep(before: File, columns: seq<string>, writes: seq<Write>, w: Write, file: File)
    requires |w.rows| > 0
    requires w.header == (writes == []) && w.mode == (if writes == [] then Overwrite else Append)
    requires HeaderOnce(writes)
    requires file == PerformAll(before, columns, writes)
    requires writes != [] ==> file == Some([Header(columns)] + Records(Written(writes)))
    ensures HeaderOnce(writes + [w])
    ensures Written(writes + [w]) == Written(writes) + w.rows
    ensures Perform(file, columns, w) == PerformAll(before, columns, writes + [w])
    ensures Perform(file, columns, w) == Some([Header(columns)] + Records(Written(writes + [w])))
  {
    PerformAllSnoc(before, columns, writes, w);
    WrittenSnoc(writes, w);
    if writes == [] {
      assert Written(writes + [w]) == w.rows;
      FirstWrite(file, columns, w);
    } else {
      LaterWrite(columns, Written(writes), w);
    }
  }

  lemma FirstWrite(file: File, columns: seq<string>, w: Write)
    requires w.header && w.mode == Overwrite
    ensures Perform(file, columns, w) == Some([Header(columns)] + Records(w.rows))
  {
  }

  lemma LaterWrite(columns: seq<string>, done: seq<Row>, w: Write)
    requires !w.header && w.mode == Append
    ensures Perform(Some([Header(columns)] + Records(done)), columns, w)
         == Some([Header(columns)] + Records(done + w.rows))
  {
    var head := [Header(columns)] + Records(done);
    var tail := Records(w.rows);
    assert Perform(Some(head), columns, w) == Some(head + tail) by {
      assert [] + tail == tail;
    }
    assert head + tail == [Header(columns)] + Records(done + w.rows) by {
      RecordsAppend(done, w.rows);
      assert ([Header(columns)] + Records(done)) + tail == [Header(columns)] + (Records(done) + tail);
    }
  }

  lemma WrittenNonEmpty(ws: seq<Write>)
    requires HeaderOnce(ws) && ws != []
    ensures |Written(ws)| > 0
  {
  }

  /** The streaming loop. The writes carry exactly the matching rows of
      the whole input, in order; the header is written once, by the first
      write; with no match nothing is written and the file is untouched; a
      missing date column raises on the first chunk, before any write. */
  method WriteTruncatedDay(columns: seq<string>, chunks: seq<seq<Row>>, column: string, target: string, before: File)
    returns (r: Result<seq<Write>, Error>, file: File)
    ensures r.Err? <==> column !in columns && |chunks| > 0
    ensures r.Err? ==> r.error == MissingColumn(column) && file == before
    ensures r.Ok? ==> Written(r.value) == Matching(Concat(chunks), column, target)
    ensures r.Ok? ==> HeaderOnce(r.value)
    ensures r.Ok? ==> file == PerformAll(before, columns, r.value)
    ensures r.Ok? && |Matching(Concat(chunks), column, target)| == 0 ==> r.value == [] && file == before
    ensures r.Ok? && |Matching(Concat(chunks), column, target)| > 0 ==>
              file == Some([Header(columns)] + Records(Matching(Concat(chunks), column, target)))
  {
    var first := true;
    var writes: seq<Write> := [];
    file := before;
    var i := 0;
    while i < |chunks|
      invariant 0 <= i <= |chunks|
      invariant i > 0 ==> column in columns
      invariant i == 0 ==> writes == [] && file == before
      invariant first <==> writes == []
      invariant Written(writes) == Matching(Concat(chunks[..i]), column, target)
      invariant HeaderOnce(writes)
      invariant file == PerformAll(before, columns, writes)
      invariant !first ==> file == Some([Header(columns)] + Records(Written(writes)))
    {
      if column !in columns {
        return Err(MissingColumn(column)), file;
      }
      var filtered := Matching(chunks[i], column, target);
      ghost var seen := Matching(Concat(chunks[..i + 1]), column, target);
      assert seen == Written(writes) + filtered by {
        ConcatPrefix(chunks, i);
        MatchingAppend(Concat(chunks[..i]), chunks[i], column, target);
      }
      if |filtered| > 0 {
        var w := Write(if first then Overwrite else Append, first, filtered);
        WriteStep(before, columns, writes, w, file);
        file := Perform(file, columns, w);
        writes := writes + [w];
        first := false;
      } else {
        assert seen == Written(writes) by {
          assert filtered == [];
        }
      }
      assert Written(writes) == seen;
      i := i + 1;
    }
    assert Concat(chunks[..i]) == Concat(chunks) by {
      assert chunks[..i] == chunks;
    }
    if writes != [] {
      WrittenNonEmpty(writes);
    }
    r := Ok(writes);
  }

  /** Appends without a header add their records after the existing lines. */
  lemma {:induction false} AppendsOnly(content: seq<Line>, columns: seq<string>, ws: seq<Write>)
    requires forall i :: 0 <= i < |ws| ==> ws[i].mode == Append && !ws[i].header
    ensures PerformAll(Some(content), columns, ws) == Some(content + Records(Written(ws)))
    decreases |ws|
  {
    if |ws| == 0 {
      assert content + Records([]) == content;
    } else {
      var next := content + Records(ws[0].rows);
      assert Perform(Some(content), columns, ws[0]) == Some(next) by {
        assert [] + Records(ws[0].rows) == Records(ws[0].rows);
      }
      AppendsOnly(next, columns, ws[1..]);
      assert next + Records(Written(ws[1..])) == content + Records(Written(ws)) by {
        RecordsAppend(ws[0].rows, Written(ws[1..]));
        assert next + Records(Written(ws[1..])) == content + (Records(ws[0].rows) + Records(Written(ws[1..])));
      }
    }
  }

  /** Whatever the path held, writes that keep the header discipline leave
      the header followed by every written row. */
  lemma PerformAllContent(before: File, columns: seq<string>, ws: seq<Write>)
    requires HeaderOnce(ws) && |ws| > 0
    ensures PerformAll(before, columns, ws) == Some([Header(columns)] + Records(Written(ws)))
  {
    var first := [Header(columns)] + Records(ws[0].rows);
    assert Perform(before, columns, ws[0]) == Some(first);
    AppendsOnly(first, columns, ws[1..]);
    assert first + Records(Written(ws[1..])) == [Header(columns)] + Records(Written(ws)) by {
      RecordsAppend(ws[0].rows, Written(ws[1..]));
      assert first + Records(Written(ws[1..])) == [Header(columns)] + (Records(ws[0].rows) + Records(Written(ws[1..])));
    }
  }

  /** A non-empty write sequence that starts by truncating leaves the same
      file whatever was there before. */
  lemma {:induction false} OverwriteForgetsPrior(f1: File, f2: File, columns: seq<string>, ws: seq<Write>)
    requires |ws| > 0 && ws[0].mode == Overwrite
    ensures PerformAll(f1, columns, ws) == PerformAll(f2, columns, ws)
  {
  }

  /** Re-running the same writes on their own output changes nothing. */
  lemma RerunIdempotent(before: File, columns: seq<string>, ws: seq<Write>)
    requires HeaderOnce(ws)
    ensures PerformAll(PerformAll(before, columns, ws), columns, ws) == PerformAll(before, columns, ws)
  {
    if |ws| > 0 {
      OverwriteForgetsPrior(PerformAll(before, columns, ws), before, columns, ws);
    }
  }

  /** How many header lines a file holds. */
  function HeaderCount(lines: seq<Line>): nat
  {
    if |lines| == 0 then 0 else (if lines[0].Header? then 1 else 0) + HeaderCount(lines[1..])
  }

  lemma {:induction false} RecordsHaveNoHeader(rows: seq<Row>)
    ensures HeaderCount(Records(rows)) == 0
  {
    if |rows| > 0 {
      assert Records(rows)[1..] == Records(rows[1..]);
      RecordsHaveNoHeader(rows[1..]);
    }
  }

  /** The header line comes first and occurs exactly once. */
  lemma {:induction false} HeaderFirstAndOnce(columns: seq<string>, rows: seq<Row>)
    ensures ([Header(columns)] + Records(rows))[0] == Header(columns)
    ensures HeaderCount([Header(columns)] + Records(rows)) == 1
  {
    assert ([Header(columns)] + Records(rows))[1..] == Records(rows);
    RecordsHaveNoHeader(rows);
  }
}
