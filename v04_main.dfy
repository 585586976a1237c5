/**
 * The event handler `MyEventHandler` of work/v04/main.cpp, which feeds the
 * fields of every row to the columns in order.  It is the same code as the
 * `EventHandlerColumns` of the next generation, so it is proved against the
 * same reference, V05EventHandlerColumns.Apply, and the lemmas proved there
 * about whole traces hold for it as they stand.  `main` (timing and
 * printing) is not part of this model.
 */
module V04Main {
  import opened Text
  import V05CsvReader
  import H = V05EventHandlerColumns

  class MyEventHandler {
    const columns: array<nat>
    var ncolumns: nat
    var row: nat
    var col: nat
    /** The calls made on the columns so far. */
    var events: seq<H.ColumnCall>

    ghost predicate Valid()
      reads this, columns
    {
      columns.Length == H.MaxColumns && ncolumns <= H.MaxColumns
    }

    ghost function Columns(): seq<nat>
      reads this, columns
      requires Valid()
    {
      columns[..ncolumns]
    }

    ghost function State(): H.Counters
      reads this
    {
      H.Counters(row, col, events)
    }

    /** No columns; the counters, left unset by the source, start at 0. */
    constructor ()
      ensures Valid() && Columns() == [] && State() == H.Counters(0, 0, [])
    {
      columns := new nat[H.MaxColumns];
      ncolumns := 0;
      row := 0;
      col := 0;
      events := [];
    }

    method AddColumn(column: nat) returns (r: Result<()>)
      requires Valid()
      modifies this, columns
      ensures Valid() && State() == old(State())
      ensures r.Err? <==> old(ncolumns) == H.MaxColumns
      ensures r.Err? ==> r.message == H.TooManyColumns && Columns() == old(Columns())
      ensures r.Ok? ==> Columns() == old(Columns()) + [column]
    {
      if ncolumns == H.MaxColumns {
        return Err(H.TooManyColumns);
      }
      columns[ncolumns] := column;
      ncolumns := ncolumns + 1;
      assert columns[..ncolumns] == old(columns[..ncolumns]) + [column];
      r := Ok(());
    }

    method StartReading()
      requires Valid()
      modifies this
      ensures Valid() && Columns() == old(Columns())
      ensures Ok(State()) == H.Apply(Columns(), old(State()), V05CsvReader.StartReading)
    {
      row := 0;
      col := 0;
      var i := 0;
      while i < ncolumns
        invariant Valid() && i <= ncolumns && ncolumns == old(ncolumns) && row == 0 && col == 0
        invariant events == old(events) + H.StartsOf(columns[..i])
      {
        assert columns[..i + 1][..i] == columns[..i];
        events := events + [H.Started(columns[i])];
        i := i + 1;
      }
    }

    method FinishedReading()
      requires Valid()
      modifies this
      ensures Valid() && Columns() == old(Columns())
      ensures Ok(State()) == H.Apply(Columns(), old(State()), V05CsvReader.FinishedReading)
    {
      var i := 0;
      while i < ncolumns
        invariant Valid() && i <= ncolumns && ncolumns == old(ncolumns) && row == old(row) && col == old(col)
        invariant events == old(events) + H.FinishesOf(columns[..i])
      {
        assert columns[..i + 1][..i] == columns[..i];
        events := events + [H.Finished(columns[i])];
        i := i + 1;
      }
    }

    method NewRecord(field: seq<char>) returns (r: Result<()>)
      requires Valid()
      modifies this
      ensures Valid() && Columns() == old(Columns())
      ensures match H.Apply(Columns(), old(State()), V05CsvReader.NewRecord(field))
              case Err(m) => r == Err(m) && State() == old(State())
              case Ok(h) => r == Ok(()) && State() == h
    {
      if col >= ncolumns {
        return Err(H.RowTooLong);
      }
      events := events + [H.Parsed(columns[col], field)];
      col := col + 1;
      r := Ok(());
    }

    method EndOfLine()
      requires Valid()
      modifies this
      ensures Valid() && Columns() == old(Columns())
      ensures Ok(State()) == H.Apply(Columns(), old(State()), V05CsvReader.EndOfLine)
    {
      col := 0;
      row := row + 1;
    }
  }
}
