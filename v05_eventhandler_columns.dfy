/**
 * The event handler of work/v05/laf2/src/eventhandler_columns.h: it owns up
 * to 1024 columns and routes the k-th field of every row to column k.  The
 * columns sit behind virtual calls; here each column is named by a number
 * and the calls the handler makes on the columns are recorded, in order, in
 * `events`.  The handler itself is driven by the reader's calls, the
 * `HandlerCall` trace of V05CsvReader; `Handle` folds such a trace.
 */
module V05EventHandlerColumns {
  import opened Text
  import V05CsvReader

  type HandlerCall = V05CsvReader.HandlerCall

  /** Capacity of the `columns_` array. */
  const MaxColumns: nat := 1024
  const TooManyColumns: string := "Too many columns."
  const RowTooLong: string := "Row contains too many columns."

  /** A call the handler makes on one of its columns. */
  datatype ColumnCall = Started(column: nat) | Parsed(column: nat, field: seq<char>) | Finished(column: nat)

  /** The handler's counters and the column calls made so far. */
  datatype Counters = Counters(row: nat, col: nat, events: seq<ColumnCall>)

  function StartsOf(columns: seq<nat>): (r: seq<ColumnCall>)
    ensures |r| == |columns| && forall k :: 0 <= k < |r| ==> r[k] == Started(columns[k])
  {
    if |columns| == 0 then [] else StartsOf(columns[..|columns| - 1]) + [Started(columns[|columns| - 1])]
  }

  function FinishesOf(columns: seq<nat>): (r: seq<ColumnCall>)
    ensures |r| == |columns| && forall k :: 0 <= k < |r| ==> r[k] == Finished(columns[k])
  {
    if |columns| == 0 then [] else FinishesOf(columns[..|columns| - 1]) + [Finished(columns[|columns| - 1])]
  }

  /** One reader call on the handler with the columns `columns`. */
  function Apply(columns: seq<nat>, h: Counters, call: HandlerCall): (r: Result<Counters>)
    ensures r.Err? <==> call.NewRecord? && h.col >= |columns|
    ensures r.Err? ==> r.message == RowTooLong
    ensures r.Ok? && call.NewRecord? ==>
              r.value == Counters(h.row, h.col + 1, h.events + [Parsed(columns[h.col], call.field)])
  {
    match call
    case StartReading => Ok(Counters(0, 0, h.events + StartsOf(columns)))
    case NewRecord(f) =>
      if h.col >= |columns| then Err(RowTooLong)
      else Ok(Counters(h.row, h.col + 1, h.events + [Parsed(columns[h.col], f)]))
    case EndOfLine => Ok(Counters(h.row + 1, 0, h.events))
    case FinishedReading => Ok(h.(events := h.events + FinishesOf(columns)))
  }

  /** A whole trace of reader calls; the first exception ends it. */
  function Handle(columns: seq<nat>, h: Counters, calls: seq<HandlerCall>): Result<Counters>
    decreases |calls|
  {
    if |calls| == 0 then Ok(h)
    else match Handle(columns, h, calls[..|calls| - 1])
      case Err(m) => Err(m)
      case Ok(h1) => Apply(columns, h1, calls[|calls| - 1])
  }

  /** Reference counter: the number of `new_record` calls since the last
    * `end_of_line` or `start_reading`, starting from `col`. */
  function Col(col: nat, calls: seq<HandlerCall>): nat
    decreases |calls|
  {
    if |calls| == 0 then col
    else match calls[|calls| - 1]
      case NewRecord(_) => Col(col, calls[..|calls| - 1]) + 1
      case FinishedReading => Col(col, calls[..|calls| - 1])
      case _ => 0
  }

  /** Reference row counter: the `end_of_line` calls since the last
    * `start_reading`, starting from `row`. */
  function Row(row: nat, calls: seq<HandlerCall>): nat
    decreases |calls|
  {
    if |calls| == 0 then row
    else match calls[|calls| - 1]
      case StartReading => 0
      case EndOfLine => Row(row, calls[..|calls| - 1]) + 1
      case _ => Row(row, calls[..|calls| - 1])
  }

  /** A trace is handled without an exception exactly when no `new_record`
    * arrives while the column counter already stands at the number of
    * columns; then the counters are the reference counters. */
  lemma {:induction false} HandleOk(columns: seq<nat>, h: Counters, calls: seq<HandlerCall>)
    ensures Handle(columns, h, calls).Ok?
        <==> forall k :: 0 <= k < |calls| && calls[k].NewRecord? ==> Col(h.col, calls[..k]) < |columns|
    ensures Handle(columns, h, calls).Ok? ==>
              Handle(columns, h, calls).value.col == Col(h.col, calls)
              && Handle(columns, h, calls).value.row == Row(h.row, calls)
    ensures Handle(columns, h, calls).Err? ==> Handle(columns, h, calls).message == RowTooLong
    decreases |calls|
  {
    if |calls| > 0 {
      var n := |calls| - 1;
      var pre := calls[..n];
      HandleOk(columns, h, pre);
      assert forall k :: 0 <= k < n ==> pre[k] == calls[k] && pre[..k] == calls[..k];
      assert calls[..n] == pre;
    }
  }

  /** Handling `a` and then `b` is handling `a + b`. */
  lemma {:induction false} HandleAppend(columns: seq<nat>, h: Counters, a: seq<HandlerCall>, b: seq<HandlerCall>)
    ensures Handle(columns, h, a + b)
         == match Handle(columns, h, a)
            case Err(m) => Err(m)
            case Ok(h1) => Handle(columns, h1, b)
    decreases |b|
  {
    if |b| == 0 {
      assert a + b == a;
    } else {
      var n := |b| - 1;
      assert (a + b)[..|a + b| - 1] == a + b[..n];
      assert (a + b)[|a + b| - 1] == b[n];
      HandleAppend(columns, h, a, b[..n]);
    }
  }

  /** The column calls a row of `fields` makes, starting at column `start`. */
  function ParsedEvents(columns: seq<nat>, start: nat, fields: seq<seq<char>>): (r: seq<ColumnCall>)
    requires start + |fields| <= |columns|
    ensures |r| == |fields|
    decreases |fields|
  {
    if |fields| == 0 then [] else [Parsed(columns[start], fields[0])] + ParsedEvents(columns, start + 1, fields[1..])
  }

  /** The k-th call of a row goes to column `start + k` with field k.  */
  lemma {:induction false} ParsedEventAt(columns: seq<nat>, start: nat, fields: seq<seq<char>>, k: nat)
    requires start + |fields| <= |columns| && k < |fields|
    ensures ParsedEvents(columns, start, fields)[k] == Parsed(columns[start + k], fields[k])
    decreases k
  {
    if k > 0 {
      ParsedEventAt(columns, start + 1, fields[1..], k - 1);
    }
  }

  /** The `new_record` calls of a row, read from column `h.col` on: every
    * field goes to the next column while there are columns, and otherwise
    * the handler throws. */
  lemma {:induction false} HandleRecords(columns: seq<nat>, h: Counters, fields: seq<seq<char>>)
    ensures h.col + |fields| <= |columns| ==>
              Handle(columns, h, V05CsvReader.RecordCalls(fields))
              == Ok(Counters(h.row, h.col + |fields|, h.events + ParsedEvents(columns, h.col, fields)))
    ensures |fields| > 0 && h.col + |fields| > |columns| ==>
              Handle(columns, h, V05CsvReader.RecordCalls(fields)) == Err(RowTooLong)
    decreases |fields|
  {
    if |fields| > 0 {
      var first := [V05CsvReader.NewRecord(fields[0])];
      assert V05CsvReader.RecordCalls(fields) == first + V05CsvReader.RecordCalls(fields[1..]);
      HandleAppend(columns, h, first, V05CsvReader.RecordCalls(fields[1..]));
      assert Handle(columns, h, first) == Apply(columns, h, first[0]) by {
        assert first[..0] == [];
      }
      if h.col < |columns| {
        var h1 := Counters(h.row, h.col + 1, h.events + [Parsed(columns[h.col], fields[0])]);
        HandleRecords(columns, h1, fields[1..]);
        if h.col + |fields| <= |columns| {
          assert h.events + ParsedEvents(columns, h.col, fields)
              == h1.events + ParsedEvents(columns, h.col + 1, fields[1..]);
        }
      }
    } else if h.col <= |columns| {
      assert h.events + ParsedEvents(columns, h.col, fields) == h.events;
    }
  }

  /** A complete row from column 0: field k reaches column k, the row
    * counter moves on by one and the column counter returns to 0; a row
    * with more fields than columns throws. */
  lemma HandleRow(columns: seq<nat>, h: Counters, fields: seq<seq<char>>)
    requires h.col == 0
    ensures |fields| <= |columns| ==>
              Handle(columns, h, V05CsvReader.RecordCalls(fields) + [V05CsvReader.EndOfLine])
              == Ok(Counters(h.row + 1, 0, h.events + ParsedEvents(columns, 0, fields)))
    ensures |fields| > |columns| ==>
              Handle(columns, h, V05CsvReader.RecordCalls(fields) + [V05CsvReader.EndOfLine]) == Err(RowTooLong)
  {
    var rc := V05CsvReader.RecordCalls(fields);
    HandleRecords(columns, h, fields);
    assert (rc + [V05CsvReader.EndOfLine])[..|rc|] == rc;
  }

  /** A whole parse: `start_reading` resets the counters and starts every
    * column, and `finished_reading` finishes every column last. */
  lemma HandleParse(columns: seq<nat>, h: Counters, inner: seq<HandlerCall>)
    ensures var r := Handle(columns, h, [V05CsvReader.StartReading] + inner + [V05CsvReader.FinishedReading]);
            match Handle(columns, Counters(0, 0, h.events + StartsOf(columns)), inner)
            case Err(m) => r == Err(m)
            case Ok(h1) => r == Ok(h1.(events := h1.events + FinishesOf(columns)))
  {
    var first := [V05CsvReader.StartReading];
    var last := [V05CsvReader.FinishedReading];
    HandleAppend(columns, h, first + inner, last);
    HandleAppend(columns, h, first, inner);
    assert Handle(columns, h, first) == Apply(columns, h, first[0]) by {
      assert first[..0] == [];
    }
    match Handle(columns, h, first + inner)
    case Err(_) =>
    case Ok(h1) =>
      assert Handle(columns, h1, last) == Apply(columns, h1, last[0]) by {
        assert last[..0] == [];
      }
  }

  class EventHandlerColumns {
    const columns: array<nat>
    var ncolumns: nat
    var row: nat
    var col: nat
    /** The calls made on the columns so far. */
    var events: seq<ColumnCall>

    ghost predicate Valid()
      reads this, columns
    {
      columns.Length == MaxColumns && ncolumns <= MaxColumns
    }

    /** The columns added so far, in order. */
    ghost function Columns(): seq<nat>
      reads this, columns
      requires Valid()
    {
      columns[..ncolumns]
    }

    ghost function State(): Counters
      reads this
    {
      Counters(row, col, events)
    }

    /** No columns yet; the counters, left unset by the constructor, start
      * at 0 here. */
    constructor ()
      ensures Valid() && Columns() == [] && State() == Counters(0, 0, [])
    {
      columns := new nat[MaxColumns];
      ncolumns := 0;
      row := 0;
      col := 0;
      events := [];
    }

    /** add_column: at 1024 columns it throws, otherwise the column is
      * appended. */
    method AddColumn(column: nat) returns (r: Result<()>)
      requires Valid()
      modifies this, columns
      ensures Valid() && State() == old(State())
      ensures r.Err? <==> old(ncolumns) == MaxColumns
      ensures r.Err? ==> r.message == TooManyColumns && Columns() == old(Columns())
      ensures r.Ok? ==> Columns() == old(Columns()) + [column]
    {
      if ncolumns == MaxColumns {
        return Err(TooManyColumns);
      }
      columns[ncolumns] := column;
      ncolumns := ncolumns + 1;
      assert columns[..ncolumns] == old(columns[..ncolumns]) + [column];
      r := Ok(());
    }

    method StartReading()
      requires Valid()
      modifies this
      ensures Valid() && Columns() == old(Columns())
      ensures Ok(State()) == Apply(Columns(), old(State()), V05CsvReader.StartReading)
    {
      row := 0;
      col := 0;
      var i := 0;
      while i < ncolumns
        invariant Valid() && i <= ncolumns && ncolumns == old(ncolumns) && row == 0 && col == 0
        invariant events == old(events) + StartsOf(columns[..i])
      {
        assert columns[..i + 1][..i] == columns[..i];
        events := events + [Started(columns[i])];
        i := i + 1;
      }
    }

    method FinishedReading()
      requires Valid()
      modifies this
      ensures Valid() && Columns() == old(Columns())
      ensures Ok(State()) == Apply(Columns(), old(State()), V05CsvReader.FinishedReading)
    {
      var i := 0;
      while i < ncolumns
        invariant Valid() && i <= ncolumns && ncolumns == old(ncolumns) && row == old(row) && col == old(col)
        invariant events == old(events) + FinishesOf(columns[..i])
      {
        assert columns[..i + 1][..i] == columns[..i];
        events := events + [Finished(columns[i])];
        i := i + 1;
      }
    }

    /** new_record: the field goes to column `col`, which moves on; with no
      * column left it throws before touching a column. */
    method NewRecord(field: seq<char>) returns (r: Result<()>)
      requires Valid()
      modifies this
      ensures Valid() && Columns() == old(Columns())
      ensures var a := Apply(Columns(), old(State()), V05CsvReader.NewRecord(field));
              match a
              case Err(m) => r == Err(m) && State() == old(State())
              case Ok(h) => r == Ok(()) && State() == h
    {
      if col >= ncolumns {
        return Err(RowTooLong);
      }
      events := events + [Parsed(columns[col], field)];
      col := col + 1;
      r := Ok(());
    }

    method EndOfLine()
      requires Valid()
      modifies this
      ensures Valid() && Columns() == old(Columns())
      ensures Ok(State()) == Apply(Columns(), old(State()), V05CsvReader.EndOfLine)
    {
      col := 0;
      row := row + 1;
    }
  }
}
