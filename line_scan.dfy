/**
 * What the line-based CSV readers of src/csvreader.cpp and
 * LaF/src/csvreader.cpp share: the state next_line keeps while it reads a
 * line, the move one byte makes, what the reader keeps between calls,
 * determine_offset, and the facts about the field spans that both readers'
 * lemmas build on.
 */
module LineScan {
  import opened Text
  import opened LineLayout

  /** The initial size of the line buffer, and the least size it grows to. */
  const LineMinSize: nat := 1024
  /** The block size nlines() reads the file with. */
  const CountBlock: nat := 1000000
  /** What `istream::get` returns at the end of the file. */
  const Eof: int := -1

  const TooManyColumns: string := "Line has too many columns"
  const OpenQuoteAtEnd: string := "Line ended while open quote"

  /** The bytes the reader reads: the file from `offset` on (none when the
    * offset lies past the end). */
  function DataFrom(content: seq<char>, offset: nat): seq<char> {
    if offset <= |content| then content[offset..] else []
  }

  function Min(a: nat, b: nat): nat {
    if a < b then a else b
  }

  /** The size resize_line_buffer gives the line buffer: twice the old
    * size, and at least 1024. */
  function GrownSize(size: nat): (r: nat)
    ensures r >= LineMinSize && r >= 2 * size
    ensures r == LineMinSize || r == 2 * size
  {
    if 2 * size < LineMinSize then LineMinSize else 2 * size
  }

  /** `s` with element `i` set to `v`; a write past the end is dropped. */
  function Put(s: seq<nat>, i: nat, v: nat): (r: seq<nat>)
    ensures |r| == |s| && forall k :: 0 <= k < |s| ==> r[k] == if k == i then v else s[k]
  {
    if i < |s| then s[i := v] else s
  }

  /** `s` with every element from `from` on set to `v`. */
  function Fill(s: seq<nat>, from: nat, v: nat): (r: seq<nat>)
    ensures |r| == |s| && forall k :: 0 <= k < |s| ==> r[k] == if k >= from then v else s[k]
  {
    seq(|s|, k requires 0 <= k < |s| => if k >= from then v else s[k])
  }


  /** What next_line works with while it reads a line: the length of the
    * current field, the bytes written to the line buffer (column_position
    * is their number), the buffer's size, the field index, whether a quote
    * is open, and the two span arrays. */
  datatype LineState = LineState(len: nat, line: seq<char>, size: nat, column: nat, openQuote: bool,
                                 positions: seq<nat>, lengths: seq<nat>)

  /** A byte that belongs to the field: a full buffer grows first (copied
    * with strncpy), then the byte is written. */
  function Collect(st: LineState, c: char): LineState {
    var grow := |st.line| >= st.size;
    st.(len := st.len + 1,
        line := (if grow then StrncpyOf(st.line) else st.line) + [c],
        size := if grow then GrownSize(st.size) else st.size)
  }

  /** The result of one byte: go on, return a value, or throw. */
  datatype Move = Continue(st: LineState) | Finish(result: bool, st: LineState) | Fail(message: string, st: LineState)


  /** The end of a call of next_line: its result, the state, the position
    * the next call starts reading at, and how much current_line grew. */
  datatype Outcome = Outcome(result: Result<bool>, st: LineState, next: nat, lines: nat)


  /** What the reader keeps between calls: where the next line starts, the
    * line counter, the line buffer's size and the span arrays. */
  datatype Cursor = Cursor(pos: nat, current: nat, size: nat, positions: seq<nat>, lengths: seq<nat>)

  /** A call of next_line: its result, the reader after it, and the bytes
    * of the line buffer it wrote. */
  datatype LineRead = LineRead(result: Result<bool>, after: Cursor, line: seq<char>)

  /** next_line starts a line with no bytes, field 0 and position 0. */
  function StartOf(c: Cursor): LineState {
    LineState(0, [], c.size, 0, false, Put(c.positions, 0, 0), c.lengths)
  }


  datatype Reached = Reached(result: Result<bool>, at: Cursor)


  /** determine_offset's loop from byte `i` with `skip` line ends to go: a
    * failed read at the end of the file is counted too. */
  function OffsetFrom(content: seq<char>, i: nat, skip: nat): nat
    decreases |content| - i
  {
    if skip == 0 then i
    else if i >= |content| then i + 1
    else OffsetFrom(content, i + 1, if content[i] == '\n' then skip - 1 else skip)
  }

  function OffsetOf(content: seq<char>, skip: nat): nat {
    OffsetFrom(content, 0, skip)
  }


  /** determine_offset(skip): the number of bytes up to and including the
    * skip-th line end.  The byte order mark branch src/csvreader.cpp adds
    * is not modelled. */
  method DetermineOffset(content: seq<char>, skip: nat) returns (offset: nat)
    ensures offset == OffsetOf(content, skip)
  {
    offset := 0;
    var s := skip;
    while s > 0
      invariant offset <= |content| && OffsetFrom(content, offset, s) == OffsetOf(content, skip)
      decreases |content| - offset
    {
      var c: int := if offset < |content| then content[offset] as int else Eof;
      offset := offset + 1;
      if c == '\n' as int {
        s := s - 1;
      }
      if c == Eof {
        break;
      }
    }
  }


  /** The separator is an ordinary byte: not a line end, not a quote. */
  predicate PlainSeparator(sep: char) {
    sep != '\n' && sep != '\r' && sep != '"'
  }

  /** At the start of a field outside quotes, with the field's span
    * starting at the end of the bytes written so far. */
  predicate FieldStart(ncolumns: nat, st: LineState) {
    && !st.openQuote && st.len == 0 && st.column < ncolumns
    && |st.positions| == ncolumns && |st.lengths| == ncolumns
    && st.positions[st.column] == |st.line| && NoNul(st.line) && |st.line| <= st.size
  }

  /** The spans of the fields before `st.column` hold `vals`. */
  predicate Spans(st: LineState, vals: seq<seq<char>>) {
    && |vals| == st.column && |st.lengths| == |st.positions| && |vals| <= |st.positions|
    && forall j :: 0 <= j < |vals| ==>
         st.positions[j] + st.lengths[j] <= |st.line| && st.line[st.positions[j]..st.positions[j] + st.lengths[j]] == vals[j]
  }

  /** Every byte of `s` collected into the field. */
  function CollectAll(st: LineState, s: seq<char>): LineState
    decreases |s|
  {
    if |s| == 0 then st else CollectAll(Collect(st, s[0]), s[1..])
  }

  /** A separator: the field's length is recorded and the next field
    * starts at the end of the line so far. */
  function NextField(st: LineState): LineState {
    st.(lengths := Put(st.lengths, st.column, st.len), column := st.column + 1,
        positions := Put(st.positions, st.column + 1, |st.line|), len := 0)
  }

  /** Collecting NUL-free bytes appends them to the line, whatever the
    * buffer growth on the way. */
  lemma {:induction false} CollectAllEffect(st: LineState, s: seq<char>)
    requires NoNul(st.line) && NoNul(s) && |st.line| <= st.size
    ensures var r := CollectAll(st, s);
            && r.line == st.line + s && r.len == st.len + |s| && |r.line| <= r.size && NoNul(r.line)
            && r.column == st.column && r.openQuote == st.openQuote
            && r.positions == st.positions && r.lengths == st.lengths
    decreases |s|
  {
    if |s| == 0 {
      assert st.line + s == st.line;
    } else {
      if |st.line| >= st.size {
        StrncpyOfNoNul(st.line);
      }
      var st1 := Collect(st, s[0]);
      assert st1.line == st.line + [s[0]];
      assert NoNul(s[1..]) by {
        assert forall k :: 0 <= k < |s| - 1 ==> s[1..][k] == s[k + 1];
      }
      CollectAllEffect(st1, s[1..]);
      assert st.line + [s[0]] + s[1..] == st.line + s;
    }
  }

  lemma {:induction false} CollectAllQuote(st: LineState, s: seq<char>, b: bool)
    ensures CollectAll(st.(openQuote := b), s) == CollectAll(st, s).(openQuote := b)
    decreases |s|
  {
    if |s| > 0 {
      assert Collect(st.(openQuote := b), s[0]) == Collect(st, s[0]).(openQuote := b);
      CollectAllQuote(Collect(st, s[0]), s[1..], b);
    }
  }

  lemma SliceTail(data: seq<char>, i: nat, t: seq<char>)
    requires |t| > 0 && i + |t| <= |data| && data[i..i + |t|] == t
    ensures data[i] == t[0] && data[i + 1..i + |t|] == t[1..]
  {
    assert data[i..i + |t|][0] == data[i];
    assert data[i..i + |t|][1..] == data[i + 1..i + |t|];
  }

  /** A quoted field as the file holds it, byte by byte. */
  lemma QuotedSlice(data: seq<char>, i: nat, t: seq<char>)
    requires i + |t| + 2 <= |data| && data[i..i + |t| + 2] == ['"'] + t + ['"']
    ensures data[i] == '"' && data[i + 1..i + 1 + |t|] == t && data[i + 1 + |t|] == '"'
  {
    var raw := ['"'] + t + ['"'];
    var w := data[i..i + |t| + 2];
    assert |raw| == |t| + 2;
    forall k | 0 <= k < |t|
      ensures data[i + 1 + k] == t[k]
    {
      assert data[i + 1 + k] == w[1 + k] == raw[1 + k];
    }
    assert data[i] == w[0] == raw[0];
    assert data[i + 1 + |t|] == w[1 + |t|] == raw[1 + |t|];
  }

  /** Dropping the '\r' bytes brings in no NUL byte. */
  lemma {:induction false} DroppedKeeps(t: seq<char>)
    requires NoNul(t)
    ensures NoNul(Dropped(t))
    decreases |t|
  {
    if |t| > 0 {
      assert NoNul(t[1..]) by {
        assert forall k :: 0 <= k < |t| - 1 ==> t[1..][k] == t[k + 1];
      }
      DroppedKeeps(t[1..]);
    }
  }

  /** Appending to the line keeps the spans already recorded. */
  lemma SpansGrow(st: LineState, e: LineState, vals: seq<seq<char>>, v: seq<char>)
    requires Spans(st, vals) && e.line == st.line + v && e.column == st.column
    requires e.positions == st.positions && e.lengths == st.lengths
    ensures Spans(e, vals)
  {
    forall j | 0 <= j < |vals|
      ensures e.line[e.positions[j]..e.positions[j] + e.lengths[j]] == vals[j]
    {
      assert e.line[e.positions[j]..e.positions[j] + e.lengths[j]] == st.line[st.positions[j]..st.positions[j] + st.lengths[j]];
    }
  }

  /** Recording the span of the field that ends the line so far. */
  lemma SpansClose(e: LineState, vals: seq<seq<char>>, v: seq<char>, lengths: seq<nat>)
    requires Spans(e, vals) && e.len == |v| && e.column < |e.positions|
    requires e.positions[e.column] + |v| == |e.line| && e.line[e.positions[e.column]..] == v
    requires |lengths| == |e.lengths| && lengths[e.column] == e.len
    requires forall k :: 0 <= k < e.column ==> lengths[k] == e.lengths[k]
    ensures Spans(e.(lengths := lengths, column := e.column + 1), vals + [v])
  {
    var e2 := e.(lengths := lengths, column := e.column + 1);
    forall j | 0 <= j < |vals| + 1
      ensures e2.positions[j] + e2.lengths[j] <= |e2.line|
      ensures e2.line[e2.positions[j]..e2.positions[j] + e2.lengths[j]] == (vals + [v])[j]
    {
      if j == |vals| {
        assert e2.line[e2.positions[j]..e2.positions[j] + e2.lengths[j]] == e.line[e.positions[e.column]..];
      }
    }
  }

  lemma SpansNext(e: LineState, vals: seq<seq<char>>, v: seq<char>)
    requires Spans(e, vals) && e.len == |v| && e.column + 1 < |e.positions|
    requires e.positions[e.column] + |v| == |e.line| && e.line[e.positions[e.column]..] == v
    ensures Spans(NextField(e), vals + [v])
  {
    var lengths := Put(e.lengths, e.column, e.len);
    SpansClose(e, vals, v, lengths);
    var e2 := e.(lengths := lengths, column := e.column + 1);
    assert forall k :: 0 <= k < e.column + 1 ==> NextField(e).positions[k] == e2.positions[k];
  }

  /** Spans that only depend on the entries before the current field. */
  lemma SpansSame(a: LineState, b: LineState, vals: seq<seq<char>>)
    requires Spans(a, vals) && a.line == b.line && a.column == b.column
    requires |b.positions| == |a.positions| && |b.lengths| == |a.lengths|
    requires forall j :: 0 <= j < a.column ==> b.positions[j] == a.positions[j] && b.lengths[j] == a.lengths[j]
    ensures Spans(b, vals)
  {
  }


  lemma JoinedCons(line: seq<char>, vals: seq<seq<char>>, fields: seq<Field>)
    requires |fields| > 1
    ensures line + Value(fields[0]) + Joined(fields[1..]) == line + Joined(fields)
    ensures vals + [Value(fields[0])] + Values(fields[1..]) == vals + Values(fields)
  {
    JoinedHead(line, fields);
    ValuesHead(vals, fields);
  }

  lemma JoinedHead(line: seq<char>, fields: seq<Field>)
    requires |fields| > 1
    ensures line + Value(fields[0]) + Joined(fields[1..]) == line + Joined(fields)
  {
    var a, b := Value(fields[0]), Joined(fields[1..]);
    assert Joined(fields) == a + b;
    assert line + a + b == line + (a + b);
  }

  lemma ValuesHead(vals: seq<seq<char>>, fields: seq<Field>)
    requires |fields| > 1
    ensures vals + [Value(fields[0])] + Values(fields[1..]) == vals + Values(fields)
  {
    var a, b := [Value(fields[0])], Values(fields[1..]);
    assert Values(fields) == a + b;
    assert vals + a + b == vals + (a + b);
  }


  // ------------------------------------------------- determine_offset

  /** determine_offset's loop from byte `i`: with `skip` line ends ahead
    * it stops just after the skip-th of them; with fewer it stops one past
    * the end of the file. */
  lemma {:induction false} OffsetFromCounts(content: seq<char>, i: nat, skip: nat)
    requires i <= |content|
    ensures var r := OffsetFrom(content, i, skip);
            if CountChar(content[i..], '\n') >= skip then
              && i <= r <= |content| && CountChar(content[i..r], '\n') == skip
              && (skip > 0 ==> content[r - 1] == '\n')
            else r == |content| + 1
    decreases |content| - i
  {
    if skip > 0 && i < |content| {
      var s2 := if content[i] == '\n' then skip - 1 else skip;
      OffsetFromCounts(content, i + 1, s2);
      var r := OffsetFrom(content, i + 1, s2);
      CountHead(content[i..], '\n');
      assert content[i..][1..] == content[i + 1..];
      if CountChar(content[i..], '\n') >= skip {
        CountHead(content[i..r], '\n');
        assert content[i..r][1..] == content[i + 1..r];
      }
    } else if skip > 0 {
      assert content[i..] == [];
    } else {
      assert content[i..i] == [];
    }
  }

  lemma CountHead(s: seq<char>, c: char)
    requires |s| > 0
    ensures CountChar(s, c) == (if s[0] == c then 1 else 0) + CountChar(s[1..], c)
  {
    assert s == [s[0]] + s[1..];
    CountCharConcat([s[0]], s[1..], c);
    assert [s[0]][..0] == [];
  }

  /** The offset of the data: just past the skip-th line end of the file,
    * or one past its end when it has fewer line ends. */
  lemma OffsetMeaning(content: seq<char>, skip: nat)
    ensures var r := OffsetOf(content, skip);
            if CountChar(content, '\n') >= skip then
              && r <= |content| && CountChar(content[..r], '\n') == skip
              && (skip > 0 ==> content[r - 1] == '\n')
            else r == |content| + 1
  {
    OffsetFromCounts(content, 0, skip);
    assert content[0..] == content;
    var r := OffsetOf(content, skip);
    if r <= |content| {
      assert content[0..r] == content[..r];
    }
  }
}
