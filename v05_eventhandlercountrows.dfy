/**
 * The counting event handler of work/v05/laf2/src/eventhandlercountrows.h:
 * it ignores the field bytes and keeps the number of lines, the widest row
 * and the fields of the current row.  `Count` folds the reader's
 * `HandlerCall` trace of V05CsvReader; the lemmas relate the counters to
 * the row widths of the trace.
 */
module V05EventHandlerCountRows {
  import V05CsvReader

  type HandlerCall = V05CsvReader.HandlerCall

  datatype Counts = Counts(nrow: nat, ncol: nat, col: nat)

  /** One reader call on the handler. */
  function Apply(c: Counts, call: HandlerCall): (r: Counts)
    ensures call.StartReading? ==> r == Counts(0, 0, 0)
    ensures call.NewRecord? ==> r.nrow == c.nrow && r.col == c.col + 1 && r.ncol >= c.ncol && r.ncol >= r.col
    ensures call.EndOfLine? ==> r.nrow == c.nrow + 1 && r.col == 0 && r.ncol == c.ncol
    ensures call.FinishedReading? ==> r == c
  {
    match call
    case StartReading => Counts(0, 0, 0)
    case FinishedReading => c
    case NewRecord(_) => Counts(c.nrow, if c.col + 1 > c.ncol then c.col + 1 else c.ncol, c.col + 1)
    case EndOfLine => Counts(c.nrow + 1, c.ncol, 0)
  }

  /** A whole trace of reader calls. */
  function Count(c: Counts, calls: seq<HandlerCall>): Counts
    decreases |calls|
  {
    if |calls| == 0 then c else Apply(Count(c, calls[..|calls| - 1]), calls[|calls| - 1])
  }

  /** Reference: the number of fields of every row of a trace, the
    * completed rows first and the row still open last. */
  function Widths(calls: seq<HandlerCall>): (w: seq<nat>)
    ensures |w| >= 1
    decreases |calls|
  {
    if |calls| == 0 then [0]
    else
      var w := Widths(calls[..|calls| - 1]);
      match calls[|calls| - 1]
      case NewRecord(_) => w[..|w| - 1] + [w[|w| - 1] + 1]
      case EndOfLine => w + [0]
      case _ => w
  }

  function MaxOf(w: seq<nat>): nat
    requires |w| >= 1
  {
    if |w| == 1 then w[0]
    else
      var m := MaxOf(w[..|w| - 1]);
      if w[|w| - 1] > m then w[|w| - 1] else m
  }

  /** The maximum bounds every row width and is the width of some row. */
  lemma {:induction false} MaxOfIsMaximum(w: seq<nat>)
    requires |w| >= 1
    ensures forall k :: 0 <= k < |w| ==> w[k] <= MaxOf(w)
    ensures exists k :: 0 <= k < |w| && w[k] == MaxOf(w)
    decreases |w|
  {
    if |w| > 1 {
      var p := w[..|w| - 1];
      MaxOfIsMaximum(p);
      var k :| 0 <= k < |p| && p[k] == MaxOf(p);
      assert forall j :: 0 <= j < |p| ==> w[j] == p[j];
      if w[|w| - 1] > MaxOf(p) {
        assert w[|w| - 1] == MaxOf(w);
      } else {
        assert w[k] == MaxOf(w);
      }
    } else {
      assert w[0] == MaxOf(w);
    }
  }

  /** The calls between `start_reading` and `finished_reading`. */
  predicate NoStart(calls: seq<HandlerCall>) {
    forall k :: 0 <= k < |calls| ==> !calls[k].StartReading?
  }

  lemma MaxOfPush(w: seq<nat>, x: nat)
    requires |w| >= 1
    ensures MaxOf(w + [x]) == if x > MaxOf(w) then x else MaxOf(w)
  {
    assert (w + [x])[..|w|] == w;
  }

  lemma MaxOfBump(p: seq<nat>, x: nat)
    ensures MaxOf(p + [x + 1]) == if x + 1 > MaxOf(p + [x]) then x + 1 else MaxOf(p + [x])
  {
    if |p| > 0 {
      MaxOfPush(p, x + 1);
      MaxOfPush(p, x);
    }
  }

  /** From the reset counters, `calls` leaves nrow at the number of
    * `end_of_line` calls, ncol at the widest row and col at the width of the
    * open row. */
  predicate Counted(calls: seq<HandlerCall>) {
    var c := Count(Counts(0, 0, 0), calls);
    var w := Widths(calls);
    && c.nrow == |w| - 1 == multiset(calls)[V05CsvReader.EndOfLine]
    && c.ncol == MaxOf(w)
    && c.col == w[|w| - 1]
  }

  /** One more call other than `start_reading` keeps the counters right. */
  lemma CountedStep(pre: seq<HandlerCall>, call: HandlerCall, calls: seq<HandlerCall>)
    requires calls == pre + [call] && !call.StartReading? && Counted(pre)
    ensures Counted(calls)
  {
    assert calls[..|calls| - 1] == pre && calls[|calls| - 1] == call;
    assert multiset(calls) == multiset(pre) + multiset{call};
    var c := Count(Counts(0, 0, 0), pre);
    assert Count(Counts(0, 0, 0), calls) == Apply(c, call);
    var w := Widths(pre);
    match call
    case NewRecord(_) =>
      assert w == w[..|w| - 1] + [w[|w| - 1]];
      MaxOfBump(w[..|w| - 1], w[|w| - 1]);
    case EndOfLine => MaxOfPush(w, 0);
    case FinishedReading =>
  }

  /** From the reset counters, a trace without `start_reading` leaves
    * nrow at the number of `end_of_line` calls, ncol at the widest row and
    * col at the width of the open row. */
  lemma {:induction false} CountMeaning(calls: seq<HandlerCall>)
    requires NoStart(calls)
    ensures Counted(calls)
    decreases |calls|
  {
    if |calls| > 0 {
      var n := |calls| - 1;
      var pre := calls[..n];
      assert NoStart(pre) by {
        assert forall k :: 0 <= k < n ==> pre[k] == calls[k];
      }
      CountMeaning(pre);
      assert calls == pre + [calls[n]];
      CountedStep(pre, calls[n], calls);
    }
  }

  /** Over a whole parse, whatever the counters held before: nrow counts the
    * `end_of_line` calls and ncol is the widest row. */
  lemma CountParse(c: Counts, inner: seq<HandlerCall>)
    requires NoStart(inner)
    ensures var r := Count(c, [V05CsvReader.StartReading] + inner + [V05CsvReader.FinishedReading]);
            && r.nrow == multiset(inner)[V05CsvReader.EndOfLine]
            && r.ncol == MaxOf(Widths(inner))
  {
    var all := [V05CsvReader.StartReading] + inner + [V05CsvReader.FinishedReading];
    CountFrom(c, [V05CsvReader.StartReading], inner);
    assert all[..|all| - 1] == [V05CsvReader.StartReading] + inner;
    CountMeaning(inner);
  }

  /** After `start_reading`, the rest of the trace counts from zero. */
  lemma {:induction false} CountFrom(c: Counts, a: seq<HandlerCall>, b: seq<HandlerCall>)
    requires |a| > 0 && a[|a| - 1].StartReading?
    ensures Count(c, a + b) == Count(Counts(0, 0, 0), b)
    decreases |b|
  {
    if |b| == 0 {
      assert a + b == a;
    } else {
      var n := |b| - 1;
      assert (a + b)[..|a + b| - 1] == a + b[..n];
      assert (a + b)[|a + b| - 1] == b[n];
      CountFrom(c, a, b[..n]);
    }
  }

  /** col never exceeds ncol once the counters were reset. */
  lemma ApplyKeepsColBound(c: Counts, call: HandlerCall)
    requires c.col <= c.ncol
    ensures Apply(c, call).col <= Apply(c, call).ncol
  {
  }

  class EventHandlerCountRows {
    var nrow: nat
    var ncol: nat
    var col: nat

    ghost function State(): Counts
      reads this
    {
      Counts(nrow, ncol, col)
    }

    /** The counters are unset until `start_reading`; here they start at 0. */
    constructor ()
      ensures State() == Counts(0, 0, 0)
    {
      nrow := 0;
      ncol := 0;
      col := 0;
    }

    method StartReading()
      modifies this
      ensures State() == Apply(old(State()), V05CsvReader.StartReading)
    {
      nrow := 0;
      ncol := 0;
      col := 0;
    }

    /** finished_reading does nothing. */
    method FinishedReading()
    {
    }

    /** new_record: the bytes are ignored; the row grows by one field. */
    method NewRecord(field: seq<char>)
      modifies this
      ensures State() == Apply(old(State()), V05CsvReader.NewRecord(field))
    {
      col := col + 1;
      if col > ncol {
        ncol := col;
      }
    }

    method EndOfLine()
      modifies this
      ensures State() == Apply(old(State()), V05CsvReader.EndOfLine)
    {
      col := 0;
      nrow := nrow + 1;
    }

    method NCol() returns (n: nat)
      ensures n == State().ncol
    {
      n := ncol;
    }

    method NRow() returns (n: nat)
      ensures n == State().nrow
    {
      n := nrow;
    }
  }
}
