/**
 * The CSV state machine of work/include/csvreader.h.  Bytes come from the
 * block-reading `Buffer` of the same generation; every field is handed to
 * the column registered at its position.  A column object is identified
 * here by a number, and the calls the reader makes on the columns
 * (`start_reading`, `parse`, `finished_reading`) are recorded, in order, in
 * the reader's `events`.
 */
module WorkCsvReader {
  import opened Text
  import opened CsvLayout
  import V02Buffer

  /** Size of the scratch array a field is collected in. */
  const TextBufferSize: nat := 1024
  /** Size of the column table. */
  const MaxColumns: nat := 1024

  const TooManyColumns: string := "Too many columns."
  const RowTooLong: string := "Row contains too many columns."

  datatype State = NewRec | InRec | InRecQ | EndRec

  /** Which escapes a quoted field understands: `""`, `\"`, both or none. */
  datatype QuoteType = QuoteNone | QuoteDouble | QuoteBackslash | QuoteBoth

  /** A call the reader makes on one of its columns. */
  datatype Event = Started(column: nat) | Parsed(column: nat, field: seq<char>) | Finished(column: nat)

  /** The parser's state between two bytes: the machine state, the field
    * collected so far, the current column and row, and the calls made. */
  datatype Scan = Scan(state: State, field: seq<char>, col: nat, row: nat, events: seq<Event>)

  /** A step's new state, and whether it also consumed the byte after. */
  datatype Move = Move(scan: Scan, skip: bool)

  predicate DoublesQuotes(q: QuoteType) { q == QuoteDouble || q == QuoteBoth }
  predicate BackslashEscapes(q: QuoteType) { q == QuoteBackslash || q == QuoteBoth }

  /** new_record: hand the field to the current column and move to the
    * next, or throw when the row has run out of columns. */
  function NewRecordOf(columns: seq<nat>, sc: Scan): (r: Result<Scan>)
    ensures r.Err? <==> sc.col >= |columns|
    ensures r.Err? ==> r.message == RowTooLong
    ensures r.Ok? ==> (r.value.events == sc.events + [Parsed(columns[sc.col], sc.field)]
                       && r.value == sc.(col := sc.col + 1, events := r.value.events))
  {
    if sc.col >= |columns| then Err(RowTooLong)
    else Ok(sc.(col := sc.col + 1, events := sc.events + [Parsed(columns[sc.col], sc.field)]))
  }

  /** end_of_line: back to the first column of the next row. */
  function EndOfLineOf(sc: Scan): Scan {
    sc.(col := 0, row := sc.row + 1)
  }

  /** state_newrec: an opening quote starts a quoted field, line breaks
    * are skipped, and any other byte (a ',' too) starts a plain field. */
  function NewRecStep(sc: Scan, c: char): Scan {
    if c == '"' then sc.(field := [], state := InRecQ)
    else if c == '\n' || c == '\r' then sc
    else sc.(field := [c], state := InRec)
  }

  /** state_inrec: '\n' and ',' end the field ('\n' the row too); every
    * other byte, '\r' included, is collected. */
  function InRecStep(columns: seq<nat>, sc: Scan, c: char): Result<Scan> {
    if c == '\n' || c == ',' then
      match NewRecordOf(columns, sc)
      case Err(m) => Err(m)
      case Ok(t) => Ok((if c == '\n' then EndOfLineOf(t) else t).(state := NewRec))
    else Ok(sc.(field := sc.field + [c]))
  }

  /** state_inrecq: a quote ends the field unless it is an escape that the
    * quote type knows and the next byte is a quote; then one quote is
    * collected and the next byte consumed too. */
  function InRecQStep(columns: seq<nat>, quote: QuoteType, sc: Scan, c: char, la: char): Result<Move> {
    if c == '"' then
      if DoublesQuotes(quote) && la == '"' then Ok(Move(sc.(field := sc.field + ['"']), true))
      else
        match NewRecordOf(columns, sc)
        case Err(m) => Err(m)
        case Ok(t) => Ok(Move(t.(state := EndRec), false))
    else if c == '\\' && BackslashEscapes(quote) && la == '"' then Ok(Move(sc.(field := sc.field + ['"']), true))
    else Ok(Move(sc.(field := sc.field + [c]), false))
  }

  /** state_endrec: after a closing quote, a line break ends the row, a ','
    * the field, and any other byte is ignored. */
  function EndRecStep(sc: Scan, c: char): Scan {
    if c == '\n' || c == '\r' then EndOfLineOf(sc).(state := NewRec)
    else if c == ',' then sc.(state := NewRec)
    else sc
  }

  /** One byte `c` of the main loop, dispatched on the state; `la` is the
    * byte `peek` would return after it. */
  function Step(columns: seq<nat>, quote: QuoteType, sc: Scan, c: char, la: char): (r: Result<Move>)
    ensures r.Ok? && r.value.skip ==> la == '"' && sc.state == InRecQ
    ensures r.Err? ==> r.message == RowTooLong
  {
    match sc.state
    case NewRec => Ok(Move(NewRecStep(sc, c), false))
    case InRec =>
      (match InRecStep(columns, sc, c)
       case Err(m) => Err(m)
       case Ok(t) => Ok(Move(t, false)))
    case InRecQ => InRecQStep(columns, quote, sc, c, la)
    case EndRec => Ok(Move(EndRecStep(sc, c), false))
  }

  /** The byte after position `i`, or 0 past the end. */
  function Lookahead(s: seq<char>, i: nat): char {
    if i + 1 < |s| then s[i + 1] else 0 as char
  }

  /** The main loop over the bytes `s[i..]`, stopping at the first throw. */
  function Run(columns: seq<nat>, quote: QuoteType, s: seq<char>, i: nat, sc: Scan): Result<Scan>
    decreases |s| - i
  {
    if i >= |s| then Ok(sc)
    else
      match Step(columns, quote, sc, s[i], Lookahead(s, i))
      case Err(m) => Err(m)
      case Ok(mv) => Run(columns, quote, s, if mv.skip then i + 2 else i + 1, mv.scan)
  }

  /** No step of the run collects a field longer than the scratch array. */
  predicate FitsFrom(columns: seq<nat>, quote: QuoteType, s: seq<char>, i: nat, sc: Scan)
    decreases |s| - i
  {
    if i >= |s| then true
    else
      match Step(columns, quote, sc, s[i], Lookahead(s, i))
      case Err(_) => true
      case Ok(mv) => |mv.scan.field| <= TextBufferSize && FitsFrom(columns, quote, s, if mv.skip then i + 2 else i + 1, mv.scan)
  }

  /** A step that does not write past the scratch array. */
  predicate StepFits(r: Result<Move>) {
    r.Ok? ==> |r.value.scan.field| <= TextBufferSize
  }

  /** The calls of start_reading / finished_reading, one per column. */
  function StartsOf(columns: seq<nat>): (r: seq<Event>)
    ensures |r| == |columns| && forall k :: 0 <= k < |r| ==> r[k] == Started(columns[k])
  {
    if |columns| == 0 then [] else StartsOf(columns[..|columns| - 1]) + [Started(columns[|columns| - 1])]
  }

  function FinishesOf(columns: seq<nat>): (r: seq<Event>)
    ensures |r| == |columns| && forall k :: 0 <= k < |r| ==> r[k] == Finished(columns[k])
  {
    if |columns| == 0 then [] else FinishesOf(columns[..|columns| - 1]) + [Finished(columns[|columns| - 1])]
  }

  /** The state parse() starts its loop in: row and column reset, the
    * machine state and the field left as they were. */
  function StartScan(state: State, field: seq<char>, events: seq<Event>, columns: seq<nat>): Scan {
    Scan(state, field, 0, 0, events + StartsOf(columns))
  }

  class CSVReader {
    const columns: array<nat>
    var ncolumns: nat
    const readBuffer: V02Buffer.Buffer
    /** The scratch array of the current field and its fill level. */
    const buffer: array<char>
    var bufferPos: nat
    var state: State
    var row: nat
    var col: nat
    var quote: QuoteType
    /** The calls made on the columns so far. */
    var events: seq<Event>

    ghost predicate Valid()
      reads this, columns, buffer, readBuffer, readBuffer.buffer
    {
      && columns.Length == MaxColumns && ncolumns <= MaxColumns
      && buffer.Length == TextBufferSize && bufferPos <= TextBufferSize
      && readBuffer.Valid() && buffer != readBuffer.buffer
    }

    /** The registered columns, in order. */
    function Columns(): seq<nat>
      reads this, columns
      requires ncolumns <= columns.Length
    {
      columns[..ncolumns]
    }

    ghost function Snapshot(): Scan
      reads this, buffer
      requires bufferPos <= buffer.Length
    {
      Scan(state, buffer[..bufferPos], col, row, events)
    }

    /** The bytes the main loop of parse() will see. */
    ghost function Input(): seq<char>
      reads this, columns, buffer, readBuffer, readBuffer.buffer
      requires Valid()
    {
      UntilZero(readBuffer.content, readBuffer.Consumed())
    }

    /** The byte `peek` returns now. */
    ghost function Ahead(): char
      reads this, columns, buffer, readBuffer, readBuffer.buffer
      requires Valid()
    {
      readBuffer.ByteAt(readBuffer.Consumed())
    }

    constructor (content: seq<char>)
      ensures Valid() && fresh(readBuffer) && fresh(readBuffer.buffer)
      ensures readBuffer.content == content && readBuffer.Consumed() == 0
      ensures Columns() == [] && state == NewRec && quote == QuoteBoth && events == []
    {
      columns := new nat[MaxColumns];
      ncolumns := 0;
      readBuffer := new V02Buffer.Buffer(content);
      buffer := new char[TextBufferSize];
      bufferPos := 0;
      state := NewRec;
      row := 0;
      col := 0;
      quote := QuoteBoth;
      events := [];
    }

    /** add_column: append to the column table, which holds 1024. */
    method AddColumn(column: nat) returns (r: Result<()>)
      requires Valid()
      modifies this, columns
      ensures Valid()
      ensures old(ncolumns) == MaxColumns ==> r == Err(TooManyColumns) && Columns() == old(Columns())
      ensures old(ncolumns) < MaxColumns ==> r == Ok(()) && Columns() == old(Columns()) + [column]
      ensures Snapshot() == old(Snapshot()) && quote == old(quote)
    {
      if ncolumns == MaxColumns {
        return Err(TooManyColumns);
      }
      columns[ncolumns] := column;
      ncolumns := ncolumns + 1;
      return Ok(());
    }

    method SetQuoteType(q: QuoteType)
      requires Valid()
      modifies this
      ensures Valid()
      ensures quote == q
      ensures Snapshot() == old(Snapshot()) && ncolumns == old(ncolumns)
    {
      quote := q;
    }

    method QuoteTypeOf() returns (q: QuoteType)
      ensures q == quote
    {
      q := quote;
    }

    method StartReadingAll()
      requires Valid()
      modifies this
      ensures Valid() && events == old(events) + StartsOf(Columns())
      ensures state == old(state) && bufferPos == old(bufferPos) && row == old(row) && col == old(col)
      ensures ncolumns == old(ncolumns) && quote == old(quote)
    {
      var i := 0;
      while i < ncolumns
        invariant state == old(state) && bufferPos == old(bufferPos) && row == old(row) && col == old(col) && quote == old(quote)
        invariant Valid() && i <= ncolumns && ncolumns == old(ncolumns) && events == old(events) + StartsOf(columns[..i])
      {
        assert columns[..i + 1][..i] == columns[..i];
        events := events + [Started(columns[i])];
        i := i + 1;
      }
      assert columns[..ncolumns] == Columns();
    }

    method FinishedReadingAll()
      requires Valid()
      modifies this
      ensures Valid() && events == old(events) + FinishesOf(Columns())
      ensures state == old(state) && bufferPos == old(bufferPos) && row == old(row) && col == old(col)
      ensures ncolumns == old(ncolumns) && quote == old(quote)
    {
      var i := 0;
      while i < ncolumns
        invariant state == old(state) && bufferPos == old(bufferPos) && row == old(row) && col == old(col) && quote == old(quote)
        invariant Valid() && i <= ncolumns && ncolumns == old(ncolumns) && events == old(events) + FinishesOf(columns[..i])
      {
        assert columns[..i + 1][..i] == columns[..i];
        events := events + [Finished(columns[i])];
        i := i + 1;
      }
      assert columns[..ncolumns] == Columns();
    }

    method NewRecord() returns (r: Result<()>)
      requires Valid()
      modifies this
      ensures Valid() && ncolumns == old(ncolumns) && quote == old(quote)
      ensures NewRecordOf(Columns(), old(Snapshot())).Err? ==> r == Err(RowTooLong)
      ensures NewRecordOf(Columns(), old(Snapshot())).Ok? ==>
                r == Ok(()) && Snapshot() == NewRecordOf(Columns(), old(Snapshot())).value
    {
      if col >= ncolumns {
        return Err(RowTooLong);
      }
      events := events + [Parsed(columns[col], buffer[..bufferPos])];
      col := col + 1;
      return Ok(());
    }

    method EndOfLine()
      requires Valid()
      modifies this
      ensures Valid() && ncolumns == old(ncolumns) && quote == old(quote)
      ensures Snapshot() == EndOfLineOf(old(Snapshot()))
    {
      col := 0;
      row := row + 1;
    }

    method StateNewRec(c: char)
      requires Valid() && state == NewRec
      modifies this, buffer
      ensures Valid() && ncolumns == old(ncolumns) && quote == old(quote)
      ensures Snapshot() == NewRecStep(old(Snapshot()), c)
    {
      if c == '"' {
        bufferPos := 0;
        state := InRecQ;
      } else if c == '\n' || c == '\r' {
      } else {
        bufferPos := 0;
        buffer[bufferPos] := c;
        bufferPos := bufferPos + 1;
        state := InRec;
        assert buffer[..bufferPos] == [c];
      }
    }

    /** Collect `c` at the end of the field. */
    method Append(c: char)
      requires Valid() && bufferPos < TextBufferSize
      modifies this, buffer
      ensures Valid() && ncolumns == old(ncolumns) && quote == old(quote)
      ensures Snapshot() == old(Snapshot()).(field := old(Snapshot()).field + [c])
    {
      buffer[bufferPos] := c;
      bufferPos := bufferPos + 1;
      assert buffer[..bufferPos] == old(buffer[..bufferPos]) + [c];
    }

    method StateInRec(c: char) returns (r: Result<()>)
      requires Valid() && state == InRec
      requires InRecStep(Columns(), Snapshot(), c).Ok? ==> |InRecStep(Columns(), Snapshot(), c).value.field| <= TextBufferSize
      modifies this, buffer
      ensures Valid() && ncolumns == old(ncolumns) && quote == old(quote)
      ensures match InRecStep(Columns(), old(Snapshot()), c)
              case Err(m) => r == Err(m)
              case Ok(t) => r == Ok(()) && Snapshot() == t
    {
      if c == '\n' {
        r := NewRecord();
        if r.Err? { return; }
        EndOfLine();
        state := NewRec;
      } else if c == ',' {
        r := NewRecord();
        if r.Err? { return; }
        state := NewRec;
      } else {
        Append(c);
        r := Ok(());
      }
    }

    /** `peek`, and when it shows a quote, collect a quote and consume it:
      * the escape branches of state_inrecq. */
    method TakeEscapedQuote() returns (taken: bool)
      requires Valid() && (Ahead() == '"' ==> bufferPos < TextBufferSize)
      modifies this, buffer, readBuffer, readBuffer.buffer
      ensures Valid() && ncolumns == old(ncolumns) && quote == old(quote)
      ensures taken == (old(Ahead()) == '"')
      ensures taken ==> (Snapshot() == old(Snapshot()).(field := old(Snapshot()).field + ['"'])
                         && readBuffer.Consumed() == old(readBuffer.Consumed()) + 1)
      ensures !taken ==> Snapshot() == old(Snapshot()) && readBuffer.Consumed() == old(readBuffer.Consumed())
    {
      var c2 := readBuffer.Peek();
      taken := c2 == '"';
      if taken {
        Append('"');
        c2 := readBuffer.Next();
      }
    }

    method StateInRecQ(c: char) returns (r: Result<()>)
      requires Valid() && state == InRecQ
      requires StepFits(InRecQStep(Columns(), quote, Snapshot(), c, Ahead()))
      modifies this, buffer, readBuffer, readBuffer.buffer
      ensures Valid() && ncolumns == old(ncolumns) && quote == old(quote)
      ensures match InRecQStep(Columns(), quote, old(Snapshot()), c, old(Ahead()))
              case Err(m) => r == Err(m)
              case Ok(mv) => (r == Ok(()) && mv.scan == Snapshot()
                              && readBuffer.Consumed() == old(readBuffer.Consumed()) + (if mv.skip then 1 else 0))
    {
      if c == '"' {
        if quote == QuoteDouble || quote == QuoteBoth {
          var taken := TakeEscapedQuote();
          if taken {
            return Ok(());
          }
        }
        r := NewRecord();
        if r.Err? { return; }
        state := EndRec;
        return;
      } else if c == '\\' && (quote == QuoteBackslash || quote == QuoteBoth) {
        var taken := TakeEscapedQuote();
        if taken {
          return Ok(());
        }
      }
      Append(c);
      r := Ok(());
    }

    method StateEndRec(c: char)
      requires Valid() && state == EndRec
      modifies this
      ensures Valid() && ncolumns == old(ncolumns) && quote == old(quote)
      ensures Snapshot() == EndRecStep(old(Snapshot()), c)
    {
      if c == '\n' || c == '\r' {
        EndOfLine();
        state := NewRec;
      } else if c == ',' {
        state := NewRec;
      }
    }

    /** The `switch (state_)` of the main loop: one step on `c`. */
    method Dispatch(c: char) returns (r: Result<()>)
      requires Valid() && StepFits(Step(Columns(), quote, Snapshot(), c, Ahead()))
      modifies this, buffer, readBuffer, readBuffer.buffer
      ensures Valid() && ncolumns == old(ncolumns) && quote == old(quote)
      ensures match Step(Columns(), quote, old(Snapshot()), c, old(Ahead()))
              case Err(m) => r == Err(m)
              case Ok(mv) => (r == Ok(()) && mv.scan == Snapshot()
                              && readBuffer.Consumed() == old(readBuffer.Consumed()) + (if mv.skip then 1 else 0))
    {
      r := Ok(());
      match state {
        case NewRec => StateNewRec(c);
        case InRec => r := StateInRec(c);
        case InRecQ => r := StateInRecQ(c);
        case EndRec => StateEndRec(c);
      }
    }

    /** `next` on the input of the main loop: the byte at `j`, and the byte
      * after it that `peek` would give, or 0 at the end. */
    method NextInput(ghost input: seq<char>, ghost c0: nat, ghost j: nat) returns (c: char, ghost la: char)
      requires Valid() && c0 <= |readBuffer.content| && input == UntilZero(readBuffer.content, c0)
      requires j <= |input| && readBuffer.Consumed() == c0 + j
      modifies readBuffer, readBuffer.buffer
      ensures Valid()
      ensures c == 0 as char ==> j == |input|
      ensures c != 0 as char ==> (j < |input| && c == input[j] && readBuffer.Consumed() == c0 + j + 1
        && la == Ahead() && la == Lookahead(input, j))
    {
      c := readBuffer.Next();
      la := readBuffer.ByteAt(c0 + j + 1);
      UntilZeroNext(readBuffer.content, c0, j, c, la);
    }

    /** One turn of the main loop of parse(): `next`, and unless it gave 0
      * the step on that byte. */
    method Turn(ghost input: seq<char>, ghost c0: nat, ghost j: nat) returns (stop: bool, r: Result<()>, ghost j2: nat)
      requires Valid() && c0 <= |readBuffer.content| && input == UntilZero(readBuffer.content, c0)
      requires j <= |input| && readBuffer.Consumed() == c0 + j
      requires FitsFrom(Columns(), quote, input, j, Snapshot())
      modifies this, buffer, readBuffer, readBuffer.buffer
      ensures Valid() && ncolumns == old(ncolumns) && quote == old(quote)
      ensures stop ==> r == Ok(()) && j == |input| && Snapshot() == old(Snapshot())
      ensures !stop && r.Ok? ==> (j < j2 <= |input| && readBuffer.Consumed() == c0 + j2
        && Run(Columns(), quote, input, j, old(Snapshot())) == Run(Columns(), quote, input, j2, Snapshot())
        && FitsFrom(Columns(), quote, input, j2, Snapshot()))
      ensures !stop && r.Err? ==> Run(Columns(), quote, input, j, old(Snapshot())) == Err(r.message)
    {
      j2 := j;
      var c;
      ghost var la;
      c, la := NextInput(input, c0, j);
      if c == 0 as char {
        return true, Ok(()), j;
      }
      ghost var sc := Snapshot();
      ghost var step := Step(Columns(), quote, sc, c, Ahead());
      if step.Ok? {
        RunAdvanceOk(Columns(), quote, input, j, sc, step.value);
      } else {
        RunAdvanceErr(Columns(), quote, input, j, sc, step.message);
      }
      stop := false;
      r := Dispatch(c);
      if r.Ok? {
        j2 := if step.value.skip then j + 2 else j + 1;
      }
    }

    /** parse(): reset row and column, read byte by byte until `next`
      * returns 0, and tell every column before and after.  The machine
      * state and the field are not reset. */
    method Parse() returns (r: Result<()>)
      requires Valid()
      requires FitsFrom(Columns(), quote, Input(), 0, StartScan(state, buffer[..bufferPos], events, Columns()))
      modifies this, buffer, readBuffer, readBuffer.buffer
      ensures Valid() && ncolumns == old(ncolumns) && quote == old(quote)
      ensures match Run(Columns(), quote, old(Input()), 0, StartScan(old(state), old(buffer[..bufferPos]), old(events), Columns()))
              case Err(m) => r == Err(m)
              case Ok(sc) => r == Ok(()) && Snapshot() == sc.(events := sc.events + FinishesOf(Columns()))
    {
      ghost var input := Input();
      ghost var c0 := readBuffer.Consumed();
      ghost var sc0 := StartScan(state, buffer[..bufferPos], events, Columns());
      StartReadingAll();
      row := 0;
      col := 0;
      ghost var j: nat := 0;
      while true
        invariant Valid() && ncolumns == old(ncolumns) && quote == old(quote)
        invariant j <= |input| && readBuffer.Consumed() == c0 + j
        invariant Run(Columns(), quote, input, 0, sc0) == Run(Columns(), quote, input, j, Snapshot())
        invariant FitsFrom(Columns(), quote, input, j, Snapshot())
        decreases |input| - j
      {
        var stop, res, j2 := Turn(input, c0, j);
        if stop {
          break;
        }
        if res.Err? {
          return res;
        }
        j := j2;
      }
      FinishedReadingAll();
      r := Ok(());
    }
  }

  /** One step of the run: the rest of the run, and of the bound on the
    * field, continue from the step's new state. */
  lemma RunAdvanceOk(columns: seq<nat>, quote: QuoteType, s: seq<char>, i: nat, sc: Scan, mv: Move)
    requires i < |s| && Step(columns, quote, sc, s[i], Lookahead(s, i)) == Ok(mv)
    ensures Run(columns, quote, s, i, sc) == Run(columns, quote, s, if mv.skip then i + 2 else i + 1, mv.scan)
    ensures mv.skip ==> i + 2 <= |s|
    ensures FitsFrom(columns, quote, s, i, sc) ==>
              |mv.scan.field| <= TextBufferSize && FitsFrom(columns, quote, s, if mv.skip then i + 2 else i + 1, mv.scan)
  {
  }

  /** A step that throws ends the run with its error. */
  lemma RunAdvanceErr(columns: seq<nat>, quote: QuoteType, s: seq<char>, i: nat, sc: Scan, m: string)
    requires i < |s| && Step(columns, quote, sc, s[i], Lookahead(s, i)) == Err(m)
    ensures Run(columns, quote, s, i, sc) == Err(m)
  {
  }
  // ---------------------------------------------------------- meaning lemmas

  /** Inside an unquoted field every byte but ',' and '\n' is collected. */
  lemma {:induction false} RunPlainField(columns: seq<nat>, quote: QuoteType, s: seq<char>, i: nat, k: nat, sc: Scan)
    requires sc.state == InRec && i <= k <= |s|
    requires forall p :: i <= p < k ==> s[p] != ',' && s[p] != '\n'
    ensures Run(columns, quote, s, i, sc) == Run(columns, quote, s, k, sc.(field := sc.field + s[i..k]))
    decreases k - i
  {
    if i < k {
      var sc1 := sc.(field := sc.field + [s[i]]);
      assert Run(columns, quote, s, i, sc) == Run(columns, quote, s, i + 1, sc1);
      RunPlainField(columns, quote, s, i + 1, k, sc1);
      assert sc1.field + s[i + 1..k] == sc.field + s[i..k];
    } else {
      assert sc.field + s[i..k] == sc.field;
    }
  }

  /** The `parse` calls that hand `fields` to the columns from `start` on. */
  function ParsedEvents(columns: seq<nat>, start: nat, fields: seq<seq<char>>): (r: seq<Event>)
    requires start + |fields| <= |columns|
    ensures |r| == |fields|
    decreases |fields|
  {
    if |fields| == 0 then [] else [Parsed(columns[start], fields[0])] + ParsedEvents(columns, start + 1, fields[1..])
  }

  /** A plain field from a record start up to (not including) its
    * terminator at `i + |f|`. */
  lemma PlainFieldRun(columns: seq<nat>, quote: QuoteType, s: seq<char>, i: nat, f: seq<char>, sc: Scan)
    requires sc.state == NewRec && PlainField(f) && i + |f| <= |s| && s[i..i + |f|] == f
    ensures Run(columns, quote, s, i, sc) == Run(columns, quote, s, i + |f|, sc.(field := f, state := InRec))
  {
    assert s[i] == f[0];
    var sc1 := sc.(field := [f[0]], state := InRec);
    assert Run(columns, quote, s, i, sc) == Run(columns, quote, s, i + 1, sc1);
    forall p | i + 1 <= p < i + |f|
      ensures s[p] != ',' && s[p] != '\n'
    {
      assert s[p] == f[p - i];
    }
    RunPlainField(columns, quote, s, i + 1, i + |f|, sc1);
    assert [f[0]] + s[i + 1..i + |f|] == f;
  }

  /** A plain field and its terminator, ',' or '\n', read from a record
    * start: the field goes to the current column, or the row throws when
    * there is none left. */
  lemma FieldThenSeparator(columns: seq<nat>, quote: QuoteType, s: seq<char>, i: nat, f: seq<char>, sep: char, sc: Scan)
    requires sc.state == NewRec && PlainField(f) && (sep == ',' || sep == '\n')
    requires i + |f| < |s| && s[i..i + |f|] == f && s[i + |f|] == sep
    ensures sc.col >= |columns| ==> Run(columns, quote, s, i, sc) == Err(RowTooLong)
    ensures sc.col < |columns| ==>
              Run(columns, quote, s, i, sc)
              == Run(columns, quote, s, i + |f| + 1,
                     Scan(NewRec, f, if sep == '\n' then 0 else sc.col + 1, if sep == '\n' then sc.row + 1 else sc.row,
                          sc.events + [Parsed(columns[sc.col], f)]))
  {
    PlainFieldRun(columns, quote, s, i, f, sc);
  }

  /** A row of plain fields read from a record start: each field goes to
    * the next column, in order, and the row ends on the first column of the
    * next row; a row with more fields than columns left throws. */
  lemma {:induction false} RunRow(columns: seq<nat>, quote: QuoteType, s: seq<char>, i: nat, fields: seq<seq<char>>, sc: Scan)
    requires sc.state == NewRec && RowAt(s, i, fields)
    ensures sc.col + |fields| <= |columns| ==>
              Run(columns, quote, s, i, sc)
              == Run(columns, quote, s, RowEnd(i, fields),
                     Scan(NewRec, fields[|fields| - 1], 0, sc.row + 1, sc.events + ParsedEvents(columns, sc.col, fields)))
    ensures sc.col + |fields| > |columns| ==> Run(columns, quote, s, i, sc) == Err(RowTooLong)
    decreases |fields|
  {
    if |fields| > 1 {
      if sc.col < |columns| {
        var t1 := Scan(NewRec, fields[0], sc.col + 1, sc.row, sc.events + [Parsed(columns[sc.col], fields[0])]);
        RunRowHead(columns, quote, s, i, fields, sc, t1);
        RunRow(columns, quote, s, i + |fields[0]| + 1, fields[1..], t1);
        if sc.col + |fields| <= |columns| {
          RunRowJoin(columns, quote, s, i, fields, sc, t1);
        }
      } else {
        FieldThenSeparator(columns, quote, s, i, fields[0], ',', sc);
      }
    } else {
      RunRowLast(columns, quote, s, i, fields, sc);
    }
  }

  /** The first field of a longer row and its ',': the field goes to the
    * current column and the rest of the row follows. */
  lemma RunRowHead(columns: seq<nat>, quote: QuoteType, s: seq<char>, i: nat, fields: seq<seq<char>>, sc: Scan, t1: Scan)
    requires |fields| > 1 && sc.col < |columns| && sc.state == NewRec && RowAt(s, i, fields)
    requires t1 == Scan(NewRec, fields[0], sc.col + 1, sc.row, sc.events + [Parsed(columns[sc.col], fields[0])])
    ensures Run(columns, quote, s, i, sc) == Run(columns, quote, s, i + |fields[0]| + 1, t1)
    ensures RowAt(s, i + |fields[0]| + 1, fields[1..])
  {
    FieldThenSeparator(columns, quote, s, i, fields[0], ',', sc);
  }

  /** A row of one field: it goes to the current column, if there is one,
    * and the line ends. */
  lemma RunRowLast(columns: seq<nat>, quote: QuoteType, s: seq<char>, i: nat, fields: seq<seq<char>>, sc: Scan)
    requires |fields| == 1 && sc.state == NewRec && RowAt(s, i, fields)
    ensures sc.col + |fields| <= |columns| ==>
              Run(columns, quote, s, i, sc)
              == Run(columns, quote, s, RowEnd(i, fields),
                     Scan(NewRec, fields[0], 0, sc.row + 1, sc.events + ParsedEvents(columns, sc.col, fields)))
    ensures sc.col + |fields| > |columns| ==> Run(columns, quote, s, i, sc) == Err(RowTooLong)
  {
    FieldThenSeparator(columns, quote, s, i, fields[0], '\n', sc);
    if sc.col < |columns| {
      assert ParsedEvents(columns, sc.col, fields) == [Parsed(columns[sc.col], fields[0])];
    }
  }

  /** The first field of a row followed by the run over the other fields. */
  lemma RunRowJoin(columns: seq<nat>, quote: QuoteType, s: seq<char>, i: nat, fields: seq<seq<char>>, sc: Scan, t1: Scan)
    requires |fields| > 1 && sc.col + |fields| <= |columns|
    requires t1 == Scan(NewRec, fields[0], sc.col + 1, sc.row, sc.events + [Parsed(columns[sc.col], fields[0])])
    requires Run(columns, quote, s, i, sc) == Run(columns, quote, s, i + |fields[0]| + 1, t1)
    requires Run(columns, quote, s, i + |fields[0]| + 1, t1)
             == Run(columns, quote, s, RowEnd(i + |fields[0]| + 1, fields[1..]),
                    Scan(NewRec, fields[1..][|fields[1..]| - 1], 0, t1.row + 1,
                         t1.events + ParsedEvents(columns, t1.col, fields[1..])))
    ensures Run(columns, quote, s, i, sc)
            == Run(columns, quote, s, RowEnd(i, fields),
                   Scan(NewRec, fields[|fields| - 1], 0, sc.row + 1, sc.events + ParsedEvents(columns, sc.col, fields)))
  {
    RowJoinScan(columns, i, fields, sc, t1);
  }

  /** Where the rest of the row ends, and the scan it leaves, are those of
    * the whole row. */
  lemma RowJoinScan(columns: seq<nat>, i: nat, fields: seq<seq<char>>, sc: Scan, t1: Scan)
    requires |fields| > 1 && sc.col + |fields| <= |columns|
    requires t1 == Scan(NewRec, fields[0], sc.col + 1, sc.row, sc.events + [Parsed(columns[sc.col], fields[0])])
    ensures RowEnd(i + |fields[0]| + 1, fields[1..]) == RowEnd(i, fields)
    ensures Scan(NewRec, fields[1..][|fields[1..]| - 1], 0, t1.row + 1, t1.events + ParsedEvents(columns, t1.col, fields[1..]))
         == Scan(NewRec, fields[|fields| - 1], 0, sc.row + 1, sc.events + ParsedEvents(columns, sc.col, fields))
  {
    assert fields[1..][|fields[1..]| - 1] == fields[|fields| - 1];
    RowEventsSplit(columns, sc.col, fields, sc.events);
  }

  lemma RowEventsSplit(columns: seq<nat>, col: nat, fields: seq<seq<char>>, evs: seq<Event>)
    requires |fields| > 0 && col + |fields| <= |columns|
    ensures (evs + [Parsed(columns[col], fields[0])]) + ParsedEvents(columns, col + 1, fields[1..])
         == evs + ParsedEvents(columns, col, fields)
  {
  }

  /** One byte inside a quoted field: a doubled quote or any other byte
    * (not a backslash when backslash escapes are on) is collected. */
  lemma DoubledStep(columns: seq<nat>, quote: QuoteType, s: seq<char>, i: nat, sc: Scan, c: char, n: nat)
    requires sc.state == InRecQ && DoublesQuotes(quote) && i < |s| && c == s[i]
    requires c == '"' ==> i + 1 < |s| && s[i + 1] == '"'
    requires BackslashEscapes(quote) ==> c != '\\'
    requires n == if c == '"' then i + 2 else i + 1
    ensures Run(columns, quote, s, i, sc) == Run(columns, quote, s, n, sc.(field := sc.field + [c]))
  {
  }

  /** The inside of a quoted field written with doubled quotes (and, when
    * backslash escapes are on too, without backslashes) reads back as the
    * field, up to its closing quote. */
  lemma {:induction false} RunDoubledBody(columns: seq<nat>, quote: QuoteType, s: seq<char>, i: nat, f: seq<char>, e: nat, sc: Scan)
    requires e == i + |Doubled(f)|
    requires sc.state == InRecQ && DoublesQuotes(quote)
    requires BackslashEscapes(quote) ==> forall p :: 0 <= p < |f| ==> f[p] != '\\'
    requires e < |s| && s[i..e] == Doubled(f) && s[e] == '"'
    ensures Run(columns, quote, s, i, sc) == Run(columns, quote, s, e, sc.(field := sc.field + f))
    decreases |f|
  {
    if |f| == 0 {
      assert sc.field + f == sc.field;
    } else {
      var h: seq<char> := if f[0] == '"' then ['"', '"'] else [f[0]];
      var n := i + |h|;
      assert s[i] == f[0] && (f[0] == '"' ==> s[i + 1] == '"') && s[n..n + |Doubled(f[1..])|] == Doubled(f[1..])
          && n + |Doubled(f[1..])| == i + |Doubled(f)| by {
        assert Doubled(f) == h + Doubled(f[1..]);
        SliceSplit(s, i, h, Doubled(f[1..]));
        assert s[i] == s[i..n][0];
        if f[0] == '"' {
          assert s[i + 1] == s[i..n][1];
        }
      }
      var sc1 := sc.(field := sc.field + [f[0]]);
      DoubledStep(columns, quote, s, i, sc, f[0], n);
      assert BackslashEscapes(quote) ==> forall p :: 0 <= p < |f[1..]| ==> f[1..][p] != '\\' by {
        if BackslashEscapes(quote) {
          forall p | 0 <= p < |f[1..]| ensures f[1..][p] != '\\' {
            assert f[1..][p] == f[p + 1];
          }
        }
      }
      RunDoubledBody(columns, quote, s, n, f[1..], e, sc1);
      assert sc1.(field := sc1.field + f[1..]) == sc.(field := sc.field + f) by {
        AppendHead(sc.field, f);
      }
    }
  }

  /** One byte inside a quoted field when backslash escapes are on: `\"`
    * gives a quote, any other byte but a quote is collected as it is. */
  lemma BackslashedStep(columns: seq<nat>, quote: QuoteType, s: seq<char>, i: nat, sc: Scan, c: char, n: nat)
    requires sc.state == InRecQ && BackslashEscapes(quote) && i < |s| && s[i] != '"'
    requires s[i] == '\\' && Lookahead(s, i) == '"' ==> c == '"' && n == i + 2
    requires !(s[i] == '\\' && Lookahead(s, i) == '"') ==> c == s[i] && n == i + 1
    ensures Run(columns, quote, s, i, sc) == Run(columns, quote, s, n, sc.(field := sc.field + [c]))
  {
  }

  /** The inside of a quoted field written with backslash-escaped quotes
    * reads back as the field, up to its closing quote, provided the field
    * does not end in a backslash (which would escape the closing quote). */
  lemma {:induction false} RunBackslashedBody(columns: seq<nat>, quote: QuoteType, s: seq<char>, i: nat, f: seq<char>, e: nat, sc: Scan)
    requires e == i + |Backslashed(f)|
    requires sc.state == InRecQ && BackslashEscapes(quote)
    requires |f| > 0 ==> f[|f| - 1] != '\\'
    requires e < |s| && s[i..e] == Backslashed(f) && s[e] == '"'
    ensures Run(columns, quote, s, i, sc) == Run(columns, quote, s, e, sc.(field := sc.field + f))
    decreases |f|
  {
    if |f| == 0 {
      assert sc.field + f == sc.field;
    } else {
      var h: seq<char> := if f[0] == '"' then ['\\', '"'] else [f[0]];
      var n := i + |h|;
      var t := Backslashed(f[1..]);
      assert s[i] == h[0] && (f[0] == '"' ==> s[i + 1] == '"') && s[n..n + |t|] == t
          && n + |t| == i + |Backslashed(f)| by {
        assert Backslashed(f) == h + t;
        SliceSplit(s, i, h, t);
        assert s[i] == s[i..n][0];
        if f[0] == '"' {
          assert s[i + 1] == s[i..n][1];
        }
      }
      assert f[0] == '\\' ==> Lookahead(s, i) != '"' by {
        if f[0] == '\\' {
          assert |f| > 1;
          assert s[i + 1] == t[0];
        }
      }
      var sc1 := sc.(field := sc.field + [f[0]]);
      BackslashedStep(columns, quote, s, i, sc, f[0], n);
      assert |f[1..]| > 0 ==> f[1..][|f[1..]| - 1] != '\\' by {
        if |f[1..]| > 0 {
          assert f[1..][|f[1..]| - 1] == f[|f| - 1];
        }
      }
      RunBackslashedBody(columns, quote, s, n, f[1..], e, sc1);
      assert sc1.(field := sc1.field + f[1..]) == sc.(field := sc.field + f) by {
        AppendHead(sc.field, f);
      }
    }
  }

  /** A quoted field from a record start: the opening quote, a body that
    * reads back as `f` and the closing quote (not followed by a quote) hand
    * `f` to the current column and leave the machine after the field. */
  lemma QuotedField(columns: seq<nat>, quote: QuoteType, s: seq<char>, i: nat, e: seq<char>, f: seq<char>, sc: Scan)
    requires sc.state == NewRec && i + 1 + |e| < |s| && s[i] == '"' && s[i + 1 + |e|] == '"'
    requires !(DoublesQuotes(quote) && Lookahead(s, i + 1 + |e|) == '"')
    requires Run(columns, quote, s, i + 1, sc.(field := [], state := InRecQ))
          == Run(columns, quote, s, i + 1 + |e|, sc.(field := f, state := InRecQ))
    ensures sc.col >= |columns| ==> Run(columns, quote, s, i, sc) == Err(RowTooLong)
    ensures sc.col < |columns| ==>
              Run(columns, quote, s, i, sc)
              == Run(columns, quote, s, i + 2 + |e|, Scan(EndRec, f, sc.col + 1, sc.row, sc.events + [Parsed(columns[sc.col], f)]))
  {
  }

  /** A quoted field written with doubled quotes reads back as the field. */
  lemma RunDoubledField(columns: seq<nat>, quote: QuoteType, s: seq<char>, i: nat, f: seq<char>, sc: Scan)
    requires sc.state == NewRec && DoublesQuotes(quote)
    requires BackslashEscapes(quote) ==> forall p :: 0 <= p < |f| ==> f[p] != '\\'
    requires i + 1 + |Doubled(f)| < |s| && s[i] == '"' && s[i + 1..i + 1 + |Doubled(f)|] == Doubled(f)
    requires s[i + 1 + |Doubled(f)|] == '"' && Lookahead(s, i + 1 + |Doubled(f)|) != '"'
    ensures sc.col >= |columns| ==> Run(columns, quote, s, i, sc) == Err(RowTooLong)
    ensures sc.col < |columns| ==>
              Run(columns, quote, s, i, sc)
              == Run(columns, quote, s, i + 2 + |Doubled(f)|,
                     Scan(EndRec, f, sc.col + 1, sc.row, sc.events + [Parsed(columns[sc.col], f)]))
  {
    var sc1 := sc.(field := [], state := InRecQ);
    RunDoubledBody(columns, quote, s, i + 1, f, i + 1 + |Doubled(f)|, sc1);
    assert sc1.(field := sc1.field + f) == sc.(field := f, state := InRecQ);
    QuotedField(columns, quote, s, i, Doubled(f), f, sc);
  }

  /** A quoted field written with backslash-escaped quotes reads back as
    * the field, when the field does not end in a backslash. */
  lemma RunBackslashedField(columns: seq<nat>, quote: QuoteType, s: seq<char>, i: nat, f: seq<char>, sc: Scan)
    requires sc.state == NewRec && BackslashEscapes(quote) && (|f| > 0 ==> f[|f| - 1] != '\\')
    requires i + 1 + |Backslashed(f)| < |s| && s[i] == '"' && s[i + 1..i + 1 + |Backslashed(f)|] == Backslashed(f)
    requires s[i + 1 + |Backslashed(f)|] == '"' && Lookahead(s, i + 1 + |Backslashed(f)|) != '"'
    ensures sc.col >= |columns| ==> Run(columns, quote, s, i, sc) == Err(RowTooLong)
    ensures sc.col < |columns| ==>
              Run(columns, quote, s, i, sc)
              == Run(columns, quote, s, i + 2 + |Backslashed(f)|,
                     Scan(EndRec, f, sc.col + 1, sc.row, sc.events + [Parsed(columns[sc.col], f)]))
  {
    var b := Backslashed(f);
    var sc1 := sc.(field := [], state := InRecQ);
    RunBackslashedBody(columns, quote, s, i + 1, f, i + 1 + |b|, sc1);
    assert sc1.(field := sc1.field + f) == sc.(field := f, state := InRecQ);
    QuotedField(columns, quote, s, i, b, f, sc);
  }

  /** Between records, line breaks are skipped without a call on any
    * column and without counting a row: blank lines vanish. */
  lemma {:induction false} RunSkipsBreaks(columns: seq<nat>, quote: QuoteType, s: seq<char>, i: nat, k: nat, sc: Scan)
    requires sc.state == NewRec && i <= k <= |s|
    requires forall p :: i <= p < k ==> s[p] == '\n' || s[p] == '\r'
    ensures Run(columns, quote, s, i, sc) == Run(columns, quote, s, k, sc)
    decreases k - i
  {
    if i < k {
      RunSkipsBreaks(columns, quote, s, i + 1, k, sc);
    }
  }

  /** After a closing quote, bytes other than a line break or ',' are
    * dropped. */
  lemma {:induction false} RunIgnoresAfterQuote(columns: seq<nat>, quote: QuoteType, s: seq<char>, i: nat, k: nat, sc: Scan)
    requires sc.state == EndRec && i <= k <= |s|
    requires forall p :: i <= p < k ==> s[p] != '\n' && s[p] != '\r' && s[p] != ','
    ensures Run(columns, quote, s, i, sc) == Run(columns, quote, s, k, sc)
    decreases k - i
  {
    if i < k {
      RunIgnoresAfterQuote(columns, quote, s, i + 1, k, sc);
    }
  }

  /** An unquoted field that the input ends in, with no ',' or '\n' after
    * it, is never handed to a column. */
  lemma RunUnterminatedField(columns: seq<nat>, quote: QuoteType, s: seq<char>, i: nat, sc: Scan)
    requires sc.state == InRec && i <= |s|
    requires forall p :: i <= p < |s| ==> s[p] != ',' && s[p] != '\n'
    ensures Run(columns, quote, s, i, sc) == Ok(sc.(field := sc.field + s[i..]))
  {
    RunPlainField(columns, quote, s, i, |s|, sc);
    assert s[i..|s|] == s[i..];
  }

  /** The calls made while reading all are `parse` calls. */
  predicate OnlyParsed(evs: seq<Event>) {
    forall k :: 0 <= k < |evs| ==> evs[k].Parsed?
  }

  /** A run only appends `parse` calls to what was recorded, and never
    * moves past the last column. */
  lemma {:induction false} RunAppendsParses(columns: seq<nat>, quote: QuoteType, s: seq<char>, i: nat, sc: Scan)
    requires sc.col <= |columns|
    ensures Run(columns, quote, s, i, sc).Ok? ==>
              var t := Run(columns, quote, s, i, sc).value;
              && |sc.events| <= |t.events| && t.events[..|sc.events|] == sc.events
              && OnlyParsed(t.events[|sc.events|..]) && t.col <= |columns|
    decreases |s| - i
  {
    if i < |s| {
      var st := Step(columns, quote, sc, s[i], Lookahead(s, i));
      if st.Ok? {
        var mv := st.value;
        assert mv.scan.col <= |columns|;
        assert mv.scan.events == sc.events || (|mv.scan.events| == |sc.events| + 1
          && mv.scan.events[..|sc.events|] == sc.events && mv.scan.events[|sc.events|].Parsed?);
        RunAppendsParses(columns, quote, s, if mv.skip then i + 2 else i + 1, mv.scan);
        if Run(columns, quote, s, i, sc).Ok? {
          var t := Run(columns, quote, s, i, sc).value;
          assert t.events[..|sc.events|] == t.events[..|mv.scan.events|][..|sc.events|];
          forall k | 0 <= k < |t.events[|sc.events|..]| ensures t.events[|sc.events|..][k].Parsed? {
            if |sc.events| + k >= |mv.scan.events| {
              assert t.events[|sc.events|..][k] == t.events[|mv.scan.events|..][|sc.events| + k - |mv.scan.events|];
            } else {
              assert t.events[|sc.events| + k] == t.events[..|mv.scan.events|][|sc.events| + k];
            }
          }
        }
      }
    } else {
      assert sc.events[..|sc.events|] == sc.events;
    }
  }
}
