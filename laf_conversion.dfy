/**
 * LaF/src/conversion.cpp: the converters of the older LaF package.
 *
 * `strtoint` reads the field from right to left with two flags: `rtrim`
 * (still in the trailing spaces) and `ltrim` (past the number, in the
 * leading spaces or after the sign); any byte that does not fit the shape
 * spaces, optional sign, digits, spaces throws `ConversionError`, modelled
 * as an `Err`.  `strtodouble` reads left to right through `read_sign`,
 * `read_before_decimal`, `read_after_decimal` and `read_exponent`; the
 * floating-point accumulation of the digits is left abstract and the model
 * returns the digit strings and the decimal exponent.
 */
module LaFConversion {
  import opened Text

  const ConversionError: string := "ConversionError"

  // ------------------------------------------------------------ chartoint

  /** `chartoint`: the value of a decimal digit; any other byte throws. */
  function CharToInt(c: char): (r: Result<int>)
    ensures r.Ok? <==> IsDigit(c)
    ensures r.Ok? ==> r.value == DigitValue(c) && 0 <= r.value <= 9
  {
    match c
    case '0' => Ok(0)
    case '1' => Ok(1)
    case '2' => Ok(2)
    case '3' => Ok(3)
    case '4' => Ok(4)
    case '5' => Ok(5)
    case '6' => Ok(6)
    case '7' => Ok(7)
    case '8' => Ok(8)
    case '9' => Ok(9)
    case _ => Err(ConversionError)
  }

  // ------------------------------------------------------------- strtoint

  /** `v` with its sign flipped when `negative`. */
  function Signed(negative: bool, v: int): int {
    if negative then -v else v
  }

  /** The locals of strtoint's loop: the place value `n` of the next digit,
    * the value read so far, the sign, and the two trimming flags. */
  datatype ScanState = ScanState(n: int, result: int, negative: bool, rtrim: bool, ltrim: bool)

  const Start := ScanState(1, 0, false, true, false)

  /** One iteration of strtoint's loop on byte `c`. */
  function Step(st: ScanState, c: char): Result<ScanState> {
    if c == ' ' then
      Ok(if !st.rtrim then st.(ltrim := true) else st)
    else if c == '-' || c == '+' then
      if st.rtrim || st.ltrim then Err(ConversionError)
      else Ok(st.(negative := st.negative || c == '-', ltrim := true, rtrim := false))
    else if st.ltrim then Err(ConversionError)
    else match CharToInt(c)
      case Err(m) => Err(m)
      case Ok(d) => Ok(st.(result := st.result + st.n * d, n := st.n * 10, rtrim := false))
  }

  /** The loop run over `t` from its last byte to its first, starting from
    * `r`; a throw ends the run. */
  function Run(r: Result<ScanState>, t: seq<char>): Result<ScanState> {
    if |t| == 0 then r
    else match Run(r, t[1..])
      case Err(m) => Err(m)
      case Ok(st) => Step(st, t[0])
  }

  /** Reference semantics of strtoint. */
  function StrToIntOf(s: seq<char>): Result<int> {
    if |s| < 1 then Err(ConversionError) else Finish(Run(Ok(Start), s))
  }

  /** The end of strtoint: a throw, no digit seen (`n` still 1), or the
    * signed value. */
  function Finish(r: Result<ScanState>): Result<int> {
    match r
    case Err(_) => Err(ConversionError)
    case Ok(st) => if st.n == 1 then Err(ConversionError) else Ok(Signed(st.negative, st.result))
  }

  method StrToInt(s: seq<char>) returns (r: Result<int>)
    ensures r == StrToIntOf(s)
  {
    if |s| < 1 {
      return Err(ConversionError);
    }
    var n := 1;
    var result := 0;
    var negative := false;
    var rtrim := true;
    var ltrim := false;
    var i := 0;
    while i < |s|
      invariant 0 <= i <= |s|
      invariant Run(Ok(Start), s[|s| - i..]) == Ok(ScanState(n, result, negative, rtrim, ltrim))
    {
      var c := s[|s| - 1 - i];
      SuffixStep(s, i, ScanState(n, result, negative, rtrim, ltrim), c);
      if c == ' ' {
        if !rtrim {
          ltrim := true;
        }
      } else if c == '-' {
        if rtrim || ltrim {
          RunErrFromSuffix(s, |s| - 1 - i);
          return Err(ConversionError);
        }
        negative := true;
        ltrim := true;
        rtrim := false;
      } else if c == '+' {
        if rtrim || ltrim {
          RunErrFromSuffix(s, |s| - 1 - i);
          return Err(ConversionError);
        }
        ltrim := true;
        rtrim := false;
      } else {
        if ltrim {
          RunErrFromSuffix(s, |s| - 1 - i);
          return Err(ConversionError);
        }
        var d := CharToInt(c);
        if d.Err? {
          RunErrFromSuffix(s, |s| - 1 - i);
          return Err(ConversionError);
        }
        result := result + n * d.value;
        n := n * 10;
        rtrim := false;
      }
      i := i + 1;
    }
    assert s[|s| - i..] == s;
    if n == 1 {
      return Err(ConversionError);
    }
    r := Ok(if negative then -result else result);
  }

  // ------------------------------------------------------ strtoint lemmas

  /** Running over `x + y` runs over `y` first and then over `x`. */
  lemma {:induction false} RunConcat(r: Result<ScanState>, x: seq<char>, y: seq<char>)
    ensures Run(r, x + y) == Run(Run(r, y), x)
    decreases |x|
  {
    if |x| == 0 {
      assert x + y == y;
    } else {
      assert (x + y)[1..] == x[1..] + y;
      RunConcat(r, x[1..], y);
    }
  }

  /** Once thrown, the error stays. */
  lemma {:induction false} RunErr(m: string, t: seq<char>)
    ensures Run(Err(m), t).Err?
    decreases |t|
  {
    if |t| > 0 { RunErr(m, t[1..]); }
  }

  /** One more byte from the right continues the run over the suffix. */
  lemma SuffixStep(s: seq<char>, i: nat, st: ScanState, c: char)
    requires i < |s| && c == s[|s| - 1 - i] && Run(Ok(Start), s[|s| - i..]) == Ok(st)
    ensures Run(Ok(Start), s[|s| - 1 - i..]) == Step(st, c)
  {
    assert s[|s| - 1 - i..] == [c] + s[|s| - i..];
    RunCons(Ok(Start), c, s[|s| - i..]);
  }

  /** A throw on a suffix is a throw on the whole field. */
  lemma RunErrFromSuffix(s: seq<char>, k: nat)
    requires k <= |s| && Run(Ok(Start), s[k..]).Err?
    ensures StrToIntOf(s).Err?
  {
    assert s == s[..k] + s[k..];
    RunConcat(Ok(Start), s[..k], s[k..]);
    RunErr(Run(Ok(Start), s[k..]).message, s[..k]);
  }

  /** Spaces change nothing while trailing; after the number they set
    * `ltrim`. */
  lemma {:induction false} RunSpaces(st: ScanState, k: nat)
    ensures Run(Ok(st), Spaces(k)) == Ok(if k > 0 && !st.rtrim then st.(ltrim := true) else st)
    decreases k
  {
    if k > 0 {
      assert Spaces(k)[1..] == Spaces(k - 1);
      RunSpaces(st, k - 1);
    }
  }

  /** Running over `[c] + t` is one more step after running over `t`. */
  lemma RunCons(r: Result<ScanState>, c: char, t: seq<char>)
    ensures Run(r, [c] + t) == match Run(r, t) case Err(m) => Err(m) case Ok(st) => Step(st, c)
  {
    assert ([c] + t)[1..] == t;
  }

  /** A digit string adds its value at the current place value and moves the
    * place value on by one decimal place per digit. */
  lemma {:induction false} RunDigits(st: ScanState, d: seq<char>)
    requires AllDigits(d) && !st.ltrim
    ensures Run(Ok(st), d)
         == Ok(ScanState(st.n * Pow10(|d|), st.result + st.n * DecimalValue(d), st.negative,
                         st.rtrim && |d| == 0, st.ltrim))
    decreases |d|
  {
    if |d| > 0 {
      var d' := d[1..];
      assert AllDigits(d') by {
        forall i | 0 <= i < |d'| ensures IsDigit(d'[i]) { assert d'[i] == d[i + 1]; }
      }
      RunDigits(st, d');
      assert d == [d[0]] + d';
      RunCons(Ok(st), d[0], d');
      DigitsStep(st, d, Run(Ok(st), d').value);
    }
  }

  /** The first digit of `d`, read after the others. */
  lemma DigitsStep(st: ScanState, d: seq<char>, mid: ScanState)
    requires |d| > 0 && IsDigit(d[0]) && !st.ltrim
    requires mid == ScanState(st.n * Pow10(|d[1..]|), st.result + st.n * DecimalValue(d[1..]), st.negative,
                              st.rtrim && |d[1..]| == 0, st.ltrim)
    ensures Step(mid, d[0])
         == Ok(ScanState(st.n * Pow10(|d|), st.result + st.n * DecimalValue(d), st.negative,
                         st.rtrim && |d| == 0, st.ltrim))
  {
    var p := Pow10(|d[1..]|);
    var v := DigitValue(d[0]);
    StepDigit(mid, d[0]);
    assert d == [d[0]] + d[1..];
    DecimalValueCons(d[0], d[1..]);
    PlaceValueStep(st.n, DecimalValue(d), DecimalValue(d[1..]), p, v);
    assert Pow10(|d|) == 10 * p;
  }

  /** A digit before `ltrim` is set adds its value at the current place. */
  lemma StepDigit(st: ScanState, c: char)
    requires IsDigit(c) && !st.ltrim
    ensures Step(st, c) == Ok(ScanState(st.n * 10, st.result + st.n * DigitValue(c), st.negative, false, st.ltrim))
  {
  }

  lemma PlaceValueStep(n: int, a: int, b: int, p: int, v: int)
    requires a == v * p + b
    ensures n * a == n * b + (n * p) * v
    ensures n * (10 * p) == (n * p) * 10
  {
  }

  /** `ltrim` is never cleared. */
  lemma {:induction false} RunKeepsLtrim(st: ScanState, t: seq<char>)
    requires st.ltrim
    ensures Run(Ok(st), t).Err? || Run(Ok(st), t).value.ltrim
    decreases |t|
  {
    if |t| > 0 { RunKeepsLtrim(st, t[1..]); }
  }

  /** `rtrim` is never set again once cleared. */
  lemma {:induction false} RunKeepsNotRtrim(st: ScanState, t: seq<char>)
    requires !st.rtrim
    ensures Run(Ok(st), t).Err? || !Run(Ok(st), t).value.rtrim
    decreases |t|
  {
    if |t| > 0 { RunKeepsNotRtrim(st, t[1..]); }
  }

  /** A field that is empty or blank has no digits and throws. */
  lemma StrToIntRejectsBlank(k: nat)
    ensures StrToIntOf(Spaces(k)).Err?
  {
    RunSpaces(Start, k);
  }

  /** The optional sign in front of the digits. */
  datatype Sign = Unsigned | Minus | Plus

  function SignText(g: Sign): (t: seq<char>)
    ensures |t| <= 1
  {
    match g
    case Unsigned => []
    case Minus => ['-']
    case Plus => ['+']
  }

  /** A sign seen after the digits (and before any space left of them)
    * records its sign and sets `ltrim`. */
  lemma RunSign(st: ScanState, g: Sign)
    requires !st.rtrim && !st.ltrim
    ensures Run(Ok(st), SignText(g))
         == Ok(if g == Unsigned then st else st.(negative := st.negative || g == Minus, ltrim := true))
  {
    if g != Unsigned {
      var c := SignText(g)[0];
      assert SignText(g) == [c] + [];
      RunCons(Ok(st), c, []);
    }
  }

  /** Spaces, an optional '+' or '-', a non-empty digit string and spaces
    * convert to the signed value of the digits. */
  lemma StrToIntReadsInteger(a: nat, g: Sign, d: seq<char>, b: nat)
    requires |d| > 0 && AllDigits(d)
    ensures StrToIntOf(Spaces(a) + (SignText(g) + (d + Spaces(b))))
         == Ok(Signed(g == Minus, DecimalValue(d)))
  {
    var st := ScanState(Pow10(|d|), DecimalValue(d), false, false, false);
    RunSpaces(Start, b);
    RunDigitsFromStart(d);
    RunThen(Ok(Start), d, Spaces(b), Ok(Start), Ok(st));
    var st' := if g == Unsigned then st else st.(negative := g == Minus, ltrim := true);
    RunSign(st, g);
    RunThen(Ok(Start), SignText(g), d + Spaces(b), Ok(st), Ok(st'));
    var st'' := if a > 0 then st'.(ltrim := true) else st';
    RunSpaces(st', a);
    RunThen(Ok(Start), Spaces(a), SignText(g) + (d + Spaces(b)), Ok(st'), Ok(st''));
    Pow10Grows(|d|);
    ScanResult(Spaces(a) + (SignText(g) + (d + Spaces(b))), st'');
    assert st''.negative == (g == Minus) && st''.result == DecimalValue(d);
  }

  /** StrToIntOf once the run has finished in state `st`. */
  lemma ScanResult(s: seq<char>, st: ScanState)
    requires |s| >= 1 && Run(Ok(Start), s) == Ok(st) && st.n != 1
    ensures StrToIntOf(s) == Ok(Signed(st.negative, st.result))
  {
    StrToIntOfRun(s);
    FinishOk(st);
  }

  lemma FinishOk(st: ScanState)
    requires st.n != 1
    ensures Finish(Ok(st)) == Ok(Signed(st.negative, st.result))
  {
  }

  lemma StrToIntOfRun(s: seq<char>)
    requires |s| >= 1
    ensures StrToIntOf(s) == Finish(Run(Ok(Start), s))
  {
  }

  lemma RunDigitsFromStart(d: seq<char>)
    requires |d| > 0 && AllDigits(d)
    ensures Run(Ok(Start), d) == Ok(ScanState(Pow10(|d|), DecimalValue(d), false, false, false))
  {
    var st0 := Start;
    assert st0.n == 1 && st0.result == 0 && !st0.negative && st0.rtrim && !st0.ltrim;
    RunDigits(st0, d);
    assert st0.n * Pow10(|d|) == Pow10(|d|);
    assert st0.result + st0.n * DecimalValue(d) == DecimalValue(d);
  }

  lemma RunThen(r: Result<ScanState>, x: seq<char>, y: seq<char>, r1: Result<ScanState>, r2: Result<ScanState>)
    requires Run(r, y) == r1 && Run(r1, x) == r2
    ensures Run(r, x + y) == r2
  {
    RunConcat(r, x, y);
  }

  /** A byte that is not a space, seen once `ltrim` is set, throws. */
  lemma StepAfterLtrim(st: ScanState, c: char)
    requires st.ltrim && c != ' '
    ensures Step(st, c).Err?
  {
  }

  /** A throw on a suffix of the field is a throw on the field. */
  lemma ErrOnSuffix(x: seq<char>, t: seq<char>)
    requires Run(Ok(Start), t).Err?
    ensures Run(Ok(Start), x + t).Err?
  {
    RunConcat(Ok(Start), x, t);
    RunErr(Run(Ok(Start), t).message, x);
  }

  /** A non-space byte anywhere left of a space that is itself left of a
    * digit throws: a space between digits ("4 2"), between the sign and the
    * digits ("- 5"), or a digit group left of the number. */
  lemma StrToIntRejectsInnerSpace(x: seq<char>, c: char, z: seq<char>, w: seq<char>, d: char, y: seq<char>)
    requires c != ' ' && IsDigit(d)
    ensures StrToIntOf(x + ([c] + (z + ([' '] + (w + ([d] + y)))))).Err?
  {
    var t1 := [d] + y;
    var t2 := w + t1;
    var t3 := [' '] + t2;
    var t4 := z + t3;
    var t5 := [c] + t4;
    RunCons(Ok(Start), d, y);
    RunConcat(Ok(Start), w, t1);
    if Run(Ok(Start), t1).Ok? {
      RunKeepsNotRtrim(Run(Ok(Start), t1).value, w);
    } else {
      RunErr(Run(Ok(Start), t1).message, w);
    }
    RunCons(Ok(Start), ' ', t2);
    RunConcat(Ok(Start), z, t3);
    if Run(Ok(Start), t3).Ok? {
      RunKeepsLtrim(Run(Ok(Start), t3).value, z);
    } else {
      RunErr(Run(Ok(Start), t3).message, z);
    }
    RunCons(Ok(Start), c, t4);
    ErrOnSuffix(x, t5);
  }

  /** A run from the start over bytes none of which is a digit either
    * throws or stays in the start state: spaces keep `rtrim`, and a sign
    * or any other byte throws while `rtrim` is set. */
  lemma {:induction false} RunWithoutDigits(t: seq<char>)
    requires forall i :: 0 <= i < |t| ==> !IsDigit(t[i])
    ensures Run(Ok(Start), t).Err? || Run(Ok(Start), t) == Ok(Start)
    decreases |t|
  {
    if |t| > 0 {
      assert forall i :: 0 <= i < |t[1..]| ==> t[1..][i] == t[i + 1];
      RunWithoutDigits(t[1..]);
      var st0 := Start;
      assert st0.rtrim && !st0.ltrim;
    }
  }

  /** A sign that is not just left of the leftmost digit throws: one with
    * no digit right of it (a trailing sign, "5-"), and one with a byte
    * that is not a space left of it (a second sign, "--5", or a sign
    * between digits, "5-3"). */
  lemma StrToIntRejectsMisplacedSign(s: seq<char>, x: seq<char>, g: char, y: seq<char>)
    requires s == x + ([g] + y) && (g == '+' || g == '-')
    requires (forall i :: 0 <= i < |y| ==> !IsDigit(y[i])) || (exists i :: 0 <= i < |x| && x[i] != ' ')
    ensures StrToIntOf(s).Err?
  {
    var t := [g] + y;
    RunCons(Ok(Start), g, y);
    if forall i :: 0 <= i < |y| ==> !IsDigit(y[i]) {
      RunWithoutDigits(y);
      var st0 := Start;
      assert st0.rtrim;
      assert Run(Ok(Start), t).Err?;
      ErrOnSuffix(x, t);
    } else {
      // after the sign `ltrim` is set, and it stays set up to the byte of x
      var k :| 0 <= k < |x| && x[k] != ' ';
      var x2 := x[k + 1..];
      var u := [x[k]] + (x2 + t);
      assert x == x[..k] + [x[k]] + x2;
      assert s == x[..k] + u;
      RunConcat(Ok(Start), x2, t);
      if Run(Ok(Start), t).Ok? {
        RunKeepsLtrim(Run(Ok(Start), t).value, x2);
      } else {
        RunErr(Run(Ok(Start), t).message, x2);
      }
      RunCons(Ok(Start), x[k], x2 + t);
      ErrOnSuffix(x[..k], u);
    }
  }

  /** A byte that is neither a space, a sign nor a digit throws, through
    * `chartoint` or the `ltrim` check before it. */
  lemma StrToIntRejectsByte(s: seq<char>, k: nat)
    requires k < |s| && s[k] != ' ' && s[k] != '+' && s[k] != '-' && !IsDigit(s[k])
    ensures StrToIntOf(s).Err?
  {
    var t := s[k..];
    assert t == [s[k]] + s[k + 1..];
    RunCons(Ok(Start), s[k], s[k + 1..]);
    RunErrFromSuffix(s, k);
  }

  // ------------------------------------------------------ all_chars_equal

  /** `all_chars_equal`: every byte of the field is `c`. */
  method AllCharsEqual(s: seq<char>, c: char) returns (b: bool)
    ensures b <==> forall i :: 0 <= i < |s| ==> s[i] == c
  {
    var i := 0;
    while i < |s|
      invariant 0 <= i <= |s|
      invariant forall k :: 0 <= k < i ==> s[k] == c
    {
      if s[i] != c {
        return false;
      }
      i := i + 1;
    }
    return true;
  }

  // ---------------------------------------------------------- strtodouble

  /** Where `read_sign` leaves the cursor, and whether it saw a '-'. */
  datatype SignRead = SignRead(negative: bool, next: nat)

  /** What `read_before_decimal` and `read_after_decimal` return: nothing
    * more to read, a decimal separator, or an exponent marker. */
  datatype Next = Done | Decimal | Exponent

  /** Where a digit scan stopped: its digits end at `end`, and the cursor is
    * left at `resume`. */
  datatype Stop = Stop(end: nat, next: Next, resume: nat)

  /** The parts strtodouble combines: the sign, the digits before and after
    * the separator, and the power of ten read by `read_exponent`. */
  datatype DoubleText = DoubleText(negative: bool, intDigits: seq<char>, fracDigits: seq<char>, exponent: int)

  function Pow10Real(e: int): real {
    if e >= 0 then Pow10(e) as real else 1.0 / Pow10(-e) as real
  }

  /** The exact value `sign * 10^e * (before_decimal + after_decimal)` the
    * floating-point code approximates. */
  function Value(t: DoubleText): real {
    (if t.negative then -1.0 else 1.0) * Pow10Real(t.exponent) * Mantissa(t)
  }

  /** `before_decimal + after_decimal`. */
  function Mantissa(t: DoubleText): real {
    DecimalValue(t.intDigits) as real + DecimalValue(t.fracDigits) as real / Pow10(|t.fracDigits|) as real
  }

  /** `read_sign`: skips spaces; a '-' is consumed, any other byte is left
    * for the digit scan; a field of spaces throws. */
  function SignOf(s: seq<char>): (r: Result<SignRead>)
    ensures r.Ok? ==> r.value.next <= |s|
  {
    var j := SkipSpaces(s, 0);
    if j == |s| then Err(ConversionError)
    else if s[j] == '-' then Ok(SignRead(true, j + 1))
    else Ok(SignRead(false, j))
  }

  /** `check_remainder`: only spaces may follow; the cursor ends at the end
    * of the field. */
  function RemainderOf(s: seq<char>, k: nat): Result<nat>
    requires k <= |s|
  {
    if BlankFrom(s, k) then Ok(|s|) else Err(ConversionError)
  }

  /** `read_before_decimal` from index `k`: the separator is tested first,
    * then 'E'/'e', then a space (which must start a blank remainder), and
    * any other byte must be a digit. */
  function BeforeFrom(s: seq<char>, k: nat, dec: char): (r: Result<Stop>)
    requires k <= |s|
    ensures r.Ok? ==> k <= r.value.end <= r.value.resume <= |s|
    decreases |s| - k
  {
    if k == |s| then Ok(Stop(k, Done, k))
    else if s[k] == dec then Ok(Stop(k, Decimal, k + 1))
    else if s[k] == 'E' || s[k] == 'e' then Ok(Stop(k, Exponent, k + 1))
    else if s[k] == ' ' then
      (match RemainderOf(s, k) case Err(m) => Err(m) case Ok(e) => Ok(Stop(k, Done, e)))
    else if IsDigit(s[k]) then BeforeFrom(s, k + 1, dec)
    else Err(ConversionError)
  }

  /** `read_after_decimal` from index `k`: as `BeforeFrom`, but a space is
    * tested before 'E'/'e' and the separator is not special any more. */
  function AfterFrom(s: seq<char>, k: nat): (r: Result<Stop>)
    requires k <= |s|
    ensures r.Ok? ==> k <= r.value.end <= r.value.resume <= |s| && r.value.next != Decimal
    decreases |s| - k
  {
    if k == |s| then Ok(Stop(k, Done, k))
    else if s[k] == ' ' then
      (match RemainderOf(s, k) case Err(m) => Err(m) case Ok(e) => Ok(Stop(k, Done, e)))
    else if s[k] == 'E' || s[k] == 'e' then Ok(Stop(k, Exponent, k + 1))
    else if IsDigit(s[k]) then AfterFrom(s, k + 1)
    else Err(ConversionError)
  }

  /** `read_exponent` when the scan stopped at an exponent marker: the rest of
    * the field is read by strtoint. */
  function WithExponent(s: seq<char>, st: Stop, t: DoubleText): Result<DoubleText>
    requires st.resume <= |s|
  {
    if st.next == Exponent then WithExponentOf(t, StrToIntOf(s[st.resume..])) else Ok(t)
  }

  /** The text with the exponent strtoint read, or the error it threw. */
  function WithExponentOf(t: DoubleText, e: Result<int>): Result<DoubleText> {
    match e
    case Err(_) => Err(ConversionError)
    case Ok(n) => Ok(t.(exponent := n))
  }

  /** Reference semantics of strtodouble. */
  function StrToDoubleOf(s: seq<char>, dec: char): Result<DoubleText> {
    if |s| < 1 then Err(ConversionError)
    else match SignOf(s)
      case Err(_) => Err(ConversionError)
      case Ok(sg) =>
        match BeforeFrom(s, sg.next, dec)
        case Err(_) => Err(ConversionError)
        case Ok(b) =>
          if b.next == Decimal then
            match AfterFrom(s, b.resume)
            case Err(_) => Err(ConversionError)
            case Ok(f) => WithExponent(s, f, DoubleText(sg.negative, s[sg.next..b.end], s[b.resume..f.end], 0))
          else WithExponent(s, b, DoubleText(sg.negative, s[sg.next..b.end], [], 0))
  }

  method ReadSign(s: seq<char>) returns (r: Result<SignRead>)
    ensures r == SignOf(s)
  {
    var i := 0;
    while i < |s|
      invariant 0 <= i <= |s|
      invariant SkipSpaces(s, i) == SkipSpaces(s, 0)
    {
      if s[i] == '-' {
        return Ok(SignRead(true, i + 1));
      }
      if s[i] != ' ' {
        return Ok(SignRead(false, i));
      }
      i := i + 1;
    }
    return Err(ConversionError);
  }

  method CheckRemainder(s: seq<char>, i0: nat) returns (r: Result<nat>)
    requires i0 <= |s|
    ensures r == RemainderOf(s, i0)
  {
    var i := i0;
    while i < |s|
      invariant i0 <= i <= |s|
      invariant BlankFrom(s, i0) == BlankFrom(s, i)
    {
      if s[i] != ' ' {
        return Err(ConversionError);
      }
      i := i + 1;
    }
    return Ok(i);
  }

  method ReadBeforeDecimal(s: seq<char>, i0: nat, dec: char) returns (r: Result<Stop>)
    requires i0 <= |s|
    ensures r == BeforeFrom(s, i0, dec)
  {
    var i := i0;
    while i < |s|
      invariant i0 <= i <= |s|
      invariant BeforeFrom(s, i, dec) == BeforeFrom(s, i0, dec)
    {
      if s[i] == dec {
        return Ok(Stop(i, Decimal, i + 1));
      }
      if s[i] == 'E' || s[i] == 'e' {
        return Ok(Stop(i, Exponent, i + 1));
      }
      if s[i] == ' ' {
        var e := CheckRemainder(s, i);
        if e.Err? {
          return Err(ConversionError);
        }
        return Ok(Stop(i, Done, e.value));
      }
      var d := CharToInt(s[i]);
      if d.Err? {
        return Err(ConversionError);
      }
      i := i + 1;
    }
    return Ok(Stop(i, Done, i));
  }

  method ReadAfterDecimal(s: seq<char>, i0: nat) returns (r: Result<Stop>)
    requires i0 <= |s|
    ensures r == AfterFrom(s, i0)
  {
    var i := i0;
    while i < |s|
      invariant i0 <= i <= |s|
      invariant AfterFrom(s, i) == AfterFrom(s, i0)
    {
      if s[i] == ' ' {
        var e := CheckRemainder(s, i);
        if e.Err? {
          return Err(ConversionError);
        }
        return Ok(Stop(i, Done, e.value));
      }
      if s[i] == 'E' || s[i] == 'e' {
        return Ok(Stop(i, Exponent, i + 1));
      }
      var d := CharToInt(s[i]);
      if d.Err? {
        return Err(ConversionError);
      }
      i := i + 1;
    }
    return Ok(Stop(i, Done, i));
  }

  /** `strtodouble`, with the floating-point accumulations replaced by the
    * digit strings they accumulate. */
  method StrToDouble(s: seq<char>, dec: char) returns (r: Result<DoubleText>)
    ensures r == StrToDoubleOf(s, dec)
  {
    if |s| < 1 {
      return Err(ConversionError);
    }
    var sg := ReadSign(s);
    if sg.Err? {
      return Err(ConversionError);
    }
    var b := ReadBeforeDecimal(s, sg.value.next, dec);
    if b.Err? {
      return Err(ConversionError);
    }
    var t := DoubleText(sg.value.negative, s[sg.value.next..b.value.end], [], 0);
    var stop := b.value;
    if stop.next == Decimal {
      var f := ReadAfterDecimal(s, stop.resume);
      if f.Err? {
        return Err(ConversionError);
      }
      t := t.(fracDigits := s[stop.resume..f.value.end]);
      stop := f.value;
    }
    if stop.next == Exponent {
      var e := StrToInt(s[stop.resume..]);
      if e.Err? {
        return Err(ConversionError);
      }
      t := t.(exponent := e.value);
    }
    return Ok(t);
  }

  // ----------------------------------------------------- strtodouble lemmas

  /** A scan result read on a suffix, moved `n` bytes to the right. */
  function ShiftStop(r: Result<Stop>, n: nat): Result<Stop> {
    match r
    case Err(m) => Err(m)
    case Ok(st) => Ok(Stop(st.end + n, st.next, st.resume + n))
  }

  lemma {:induction false} BeforeFromShift(p: seq<char>, q: seq<char>, k: nat, dec: char)
    requires k <= |q|
    ensures BeforeFrom(p + q, |p| + k, dec) == ShiftStop(BeforeFrom(q, k, dec), |p|)
    decreases |q| - k
  {
    if k < |q| {
      assert (p + q)[|p| + k] == q[k];
      BlankFromShift(p, q, k);
      BeforeFromShift(p, q, k + 1, dec);
    }
  }

  lemma BeforeFromSuffix(p: seq<char>, q: seq<char>, dec: char)
    ensures BeforeFrom(p + q, |p|, dec) == ShiftStop(BeforeFrom(q, 0, dec), |p|)
  {
    BeforeFromShift(p, q, 0, dec);
  }

  lemma AfterFromSuffix(p: seq<char>, q: seq<char>)
    ensures AfterFrom(p + q, |p|) == ShiftStop(AfterFrom(q, 0), |p|)
  {
    AfterFromShift(p, q, 0);
  }

  lemma {:induction false} AfterFromShift(p: seq<char>, q: seq<char>, k: nat)
    requires k <= |q|
    ensures AfterFrom(p + q, |p| + k) == ShiftStop(AfterFrom(q, k), |p|)
    decreases |q| - k
  {
    if k < |q| {
      assert (p + q)[|p| + k] == q[k];
      BlankFromShift(p, q, k);
      AfterFromShift(p, q, k + 1);
    }
  }

  /** Digits that are not the separator are passed over by both scans. */
  lemma {:induction false} ScansOverDigits(s: seq<char>, k: nat, n: nat, dec: char)
    requires k + n <= |s| && !IsDigit(dec)
    requires forall i :: k <= i < k + n ==> IsDigit(s[i])
    ensures BeforeFrom(s, k, dec) == BeforeFrom(s, k + n, dec)
    ensures AfterFrom(s, k) == AfterFrom(s, k + n)
    decreases n
  {
    if n > 0 {
      assert IsDigit(s[k]);
      ScansOverDigits(s, k + 1, n - 1, dec);
    }
  }

  /** Leading digits shift both scans by their length. */
  lemma ScansLeadingDigits(d: seq<char>, z: seq<char>, dec: char)
    requires AllDigits(d) && !IsDigit(dec)
    ensures BeforeFrom(d + z, 0, dec) == ShiftStop(BeforeFrom(z, 0, dec), |d|)
    ensures AfterFrom(d + z, 0) == ShiftStop(AfterFrom(z, 0), |d|)
  {
    forall i | 0 <= i < |d| ensures IsDigit((d + z)[i]) {
      assert (d + z)[i] == d[i];
    }
    ScansOverDigits(d + z, 0, |d|, dec);
    BeforeFromShift(d, z, 0, dec);
    AfterFromShift(d, z, 0);
  }

  /** A trailing run of spaces ends the after-decimal scan. */
  lemma AfterSpaces(b: nat)
    ensures AfterFrom(Spaces(b), 0) == Ok(Stop(0, Done, b))
  {
    if b > 0 {
      BlankSpaces(b);
    }
  }

  function MinusText(negative: bool): (t: seq<char>)
    ensures |t| == if negative then 1 else 0
  {
    if negative then ['-'] else []
  }

  /** Spaces, an optional '-', digits, the separator, digits and `rest`. */
  function DecimalField(a: nat, negative: bool, d1: seq<char>, dec: char, d2: seq<char>, rest: seq<char>): seq<char> {
    Spaces(a) + (MinusText(negative) + (d1 + ([dec] + (d2 + rest))))
  }

  /** A separator that strtodouble can tell from the sign, the digits, the
    * spaces and the exponent marker. */
  predicate PlainSeparator(dec: char) {
    !IsDigit(dec) && dec != ' ' && dec != '-' && dec != 'e' && dec != 'E'
  }

  /** After spaces and an optional '-', the first byte is not a space and is
    * not a '-' unless the sign was there. */
  lemma SignOfLeading(s: seq<char>, a: nat, negative: bool, q: seq<char>)
    requires s == Spaces(a) + (MinusText(negative) + q)
    requires negative || (|q| > 0 && q[0] != ' ' && q[0] != '-')
    ensures SignOf(s) == Ok(SignRead(negative, a + |MinusText(negative)|))
  {
    SkipSpacesLeading(Spaces(a), MinusText(negative) + q);
    assert (MinusText(negative) + q)[0] != ' ';
    assert s[a] == (MinusText(negative) + q)[0];
  }

  lemma SeparatorStops(s: seq<char>, k: nat, dec: char)
    requires k < |s| && s[k] == dec
    ensures BeforeFrom(s, k, dec) == Ok(Stop(k, Decimal, k + 1))
  {
  }

  lemma DigitsInside(pre: seq<char>, d: seq<char>, t: seq<char>)
    requires AllDigits(d)
    ensures forall i :: |pre| <= i < |pre| + |d| ==> IsDigit((pre + (d + t))[i])
  {
    forall i | |pre| <= i < |pre| + |d| ensures IsDigit((pre + (d + t))[i]) {
      assert (pre + (d + t))[i] == d[i - |pre|];
    }
  }

  lemma SeparatorInside(pre: seq<char>, d: seq<char>, dec: char, w: seq<char>)
    ensures (pre + (d + ([dec] + w)))[|pre| + |d|] == dec
  {
  }

  /** The digit scan before the separator ends at the separator. */
  lemma BeforeScan(s: seq<char>, k: nat, n: nat, dec: char)
    requires k + n < |s| && s[k + n] == dec && !IsDigit(dec)
    requires forall i :: k <= i < k + n ==> IsDigit(s[i])
    ensures BeforeFrom(s, k, dec) == Ok(Stop(k + n, Decimal, k + n + 1))
  {
    ScansOverDigits(s, k, n, dec);
    SeparatorStops(s, k + n, dec);
  }

  /** The digit scan before the separator, after any prefix. */
  lemma BeforeScanOn(s: seq<char>, pre: seq<char>, d1: seq<char>, dec: char, w: seq<char>)
    requires s == pre + (d1 + ([dec] + w))
    requires AllDigits(d1) && !IsDigit(dec)
    ensures BeforeFrom(s, |pre|, dec) == Ok(Stop(|pre| + |d1|, Decimal, |pre| + |d1| + 1))
  {
    DigitsInside(pre, d1, [dec] + w);
    SeparatorInside(pre, d1, dec, w);
    BeforeScan(s, |pre|, |d1|, dec);
  }

  /** The digit scan after the separator, after any prefix. */
  lemma AfterScan(s: seq<char>, x: seq<char>, d2: seq<char>, rest: seq<char>)
    requires s == x + (d2 + rest)
    requires AllDigits(d2)
    ensures AfterFrom(s, |x|) == ShiftStop(AfterFrom(rest, 0), |x| + |d2|)
    ensures s[|x|..|x| + |d2|] == d2
    ensures s[|x| + |d2|..] == rest
  {
    var r := AfterFrom(rest, 0);
    assert AfterFrom(s, |x|) == ShiftStop(ShiftStop(r, |d2|), |x|) by {
      AfterFromSuffix(x, d2 + rest);
      ScansLeadingDigits(d2, rest, ' ');
    }
    ShiftTwice(r, |d2|, |x|);
    SliceMiddle(s, x, d2, rest);
    assert s[|x| + |d2|..] == rest by {
      AppendAssoc(x, d2, rest);
    }
  }

  /** Where strtodouble's sign and before-decimal scans stop on a
    * `DecimalField` whose digits start at `p`. */
  lemma DecimalFieldHead(s: seq<char>, a: nat, negative: bool, d1: seq<char>, dec: char, d2: seq<char>, rest: seq<char>,
                         p: nat)
    requires s == DecimalField(a, negative, d1, dec, d2, rest)
    requires AllDigits(d1) && PlainSeparator(dec)
    requires p == a + |MinusText(negative)|
    ensures SignOf(s) == Ok(SignRead(negative, p))
    ensures BeforeFrom(s, p, dec) == Ok(Stop(p + |d1|, Decimal, p + |d1| + 1))
    ensures p + |d1| <= |s| && s[p..p + |d1|] == d1
  {
    var w := d2 + rest;
    var q := d1 + ([dec] + w);
    assert q[0] != ' ' && q[0] != '-' by {
      if |d1| > 0 { assert q[0] == d1[0]; } else { assert q[0] == dec; }
    }
    SignOfLeading(s, a, negative, q);
    var pre := Spaces(a) + MinusText(negative);
    assert |pre| == p;
    assert s == pre + (d1 + ([dec] + w)) by {
      AppendAssoc(Spaces(a), MinusText(negative), q);
    }
    BeforeScanOn(s, pre, d1, dec, w);
    SliceMiddle(s, pre, d1, [dec] + w);
  }

  /** Where strtodouble's after-decimal scan stops on a `DecimalField`
    * whose fraction digits start at `x`. */
  lemma DecimalFieldTail(s: seq<char>, a: nat, negative: bool, d1: seq<char>, dec: char, d2: seq<char>, rest: seq<char>,
                         x: nat)
    requires s == DecimalField(a, negative, d1, dec, d2, rest)
    requires AllDigits(d2)
    requires x == a + |MinusText(negative)| + |d1| + 1
    ensures AfterFrom(s, x) == ShiftStop(AfterFrom(rest, 0), x + |d2|)
    ensures x + |d2| <= |s| && s[x..x + |d2|] == d2 && s[x + |d2|..] == rest
  {
    var w := d2 + rest;
    var pre := Spaces(a) + MinusText(negative);
    AppendAssoc(Spaces(a), MinusText(negative), d1 + ([dec] + w));
    AppendAssoc(pre, d1, [dec] + w);
    AppendAssoc(pre + d1, [dec], w);
    var sep := (pre + d1) + [dec];
    assert |sep| == x;
    AfterScan(s, sep, d2, rest);
  }

  lemma ShiftTwice(r: Result<Stop>, m: nat, n: nat)
    ensures ShiftStop(ShiftStop(r, m), n) == ShiftStop(r, n + m)
  {
  }


  /** Spaces, an optional '-', digits and `rest`. */
  function IntegerField(a: nat, negative: bool, d: seq<char>, rest: seq<char>): seq<char> {
    Spaces(a) + (MinusText(negative) + (d + rest))
  }

  /** The before-decimal scan over leading digits that start at `i`, after
    * any prefix. */
  lemma BeforeScanDigits(s: seq<char>, x: seq<char>, d: seq<char>, rest: seq<char>, dec: char, i: nat)
    requires s == x + (d + rest) && i == |x|
    requires AllDigits(d) && !IsDigit(dec)
    ensures BeforeFrom(s, i, dec) == ShiftStop(BeforeFrom(rest, 0, dec), i + |d|)
  {
    BeforeFromSuffix(x, d + rest, dec);
    ScansLeadingDigits(d, rest, dec);
    ShiftTwice(BeforeFrom(rest, 0, dec), |d|, |x|);
  }

  /** The digits from `i` on and what follows them. */
  lemma DigitsThenRest(s: seq<char>, x: seq<char>, d: seq<char>, rest: seq<char>, i: nat)
    requires s == x + (d + rest) && i == |x|
    ensures i + |d| <= |s| && s[i..i + |d|] == d && s[i + |d|..] == rest
  {
    SliceMiddle(s, x, d, rest);
    AppendAssoc(x, d, rest);
  }

  /** Where strtodouble's sign and digit scans stop on an `IntegerField`
    * whose digits start at `p`. */
  lemma IntegerFieldScans(s: seq<char>, a: nat, negative: bool, d: seq<char>, rest: seq<char>, dec: char, p: nat)
    requires s == IntegerField(a, negative, d, rest)
    requires AllDigits(d) && !IsDigit(dec)
    requires negative || (|d + rest| > 0 && (d + rest)[0] != ' ' && (d + rest)[0] != '-')
    requires p == a + |MinusText(negative)|
    ensures SignOf(s) == Ok(SignRead(negative, p))
    ensures BeforeFrom(s, p, dec) == ShiftStop(BeforeFrom(rest, 0, dec), p + |d|)
    ensures p + |d| <= |s| && s[p..p + |d|] == d && s[p + |d|..] == rest
  {
    SignOfLeading(s, a, negative, d + rest);
    var pre := Spaces(a) + MinusText(negative);
    PrefixSplit(s, pre, a, negative, d + rest);
    BeforeScanDigits(s, pre, d, rest, dec, p);
    DigitsThenRest(s, pre, d, rest, p);
  }

  lemma PrefixSplit(s: seq<char>, pre: seq<char>, a: nat, negative: bool, q: seq<char>)
    requires s == Spaces(a) + (MinusText(negative) + q) && pre == Spaces(a) + MinusText(negative)
    ensures s == pre + q && |pre| == a + |MinusText(negative)|
  {
    AppendAssoc(Spaces(a), MinusText(negative), q);
  }

  /** A trailing run of spaces ends the before-decimal scan. */
  lemma BeforeSpaces(b: nat, dec: char)
    requires dec != ' '
    ensures BeforeFrom(Spaces(b), 0, dec) == Ok(Stop(0, Done, b))
  {
    if b > 0 {
      BlankSpaces(b);
    }
  }

  /** An exponent marker (that is not the separator) ends either scan. */
  lemma ScansAtMarker(m: char, t: seq<char>, dec: char)
    requires (m == 'e' || m == 'E') && m != dec
    ensures BeforeFrom([m] + t, 0, dec) == Ok(Stop(0, Exponent, 1))
    ensures AfterFrom([m] + t, 0) == Ok(Stop(0, Exponent, 1))
  {
    assert ([m] + t)[0] == m;
  }

  /** A space followed by anything other than spaces makes either scan
    * throw in `check_remainder`. */
  lemma ScansAtInnerSpace(y: seq<char>, dec: char)
    requires !AllSpaces(y) && dec != ' '
    ensures BeforeFrom([' '] + y, 0, dec).Err?
    ensures AfterFrom([' '] + y, 0).Err?
  {
    var t := [' '] + y;
    assert t[0] == ' ';
    BlankFromShift([' '], y, 0);
    BlankFromIff(y, 0);
    assert y[0..] == y;
    assert !BlankFrom(t, 0);
  }

  /** A stop moved right by `n`. */
  lemma ShiftOk(r: Result<Stop>, st: Stop, n: nat)
    requires r == Ok(st)
    ensures ShiftStop(r, n) == Ok(Stop(st.end + n, st.next, st.resume + n))
  {
  }

  /** strtodouble once the sign and the before-decimal scan have stopped
    * elsewhere than at the separator. */
  lemma StrToDoubleWhole(s: seq<char>, dec: char, sg: SignRead, b: Stop)
    requires |s| >= 1 && SignOf(s) == Ok(sg)
    requires sg.next <= b.end <= |s| && b.resume <= |s|
    requires BeforeFrom(s, sg.next, dec) == Ok(b) && b.next != Decimal
    ensures StrToDoubleOf(s, dec) == WithExponent(s, b, DoubleText(sg.negative, s[sg.next..b.end], [], 0))
  {
  }

  /** strtodouble once all three scans have stopped. */
  lemma StrToDoubleFraction(s: seq<char>, dec: char, sg: SignRead, b: Stop, f: Stop)
    requires |s| >= 1 && SignOf(s) == Ok(sg)
    requires sg.next <= b.end <= |s| && b.resume <= f.end <= |s| && f.resume <= |s|
    requires BeforeFrom(s, sg.next, dec) == Ok(b) && b.next == Decimal
    requires AfterFrom(s, b.resume) == Ok(f)
    ensures StrToDoubleOf(s, dec) == WithExponent(s, f, DoubleText(sg.negative, s[sg.next..b.end], s[b.resume..f.end], 0))
  {
  }

  /** strtodouble when the sign was read and the before-decimal scan threw. */
  lemma StrToDoubleBeforeThrows(s: seq<char>, dec: char, sg: SignRead)
    requires |s| >= 1 && SignOf(s) == Ok(sg) && sg.next <= |s|
    requires BeforeFrom(s, sg.next, dec).Err?
    ensures StrToDoubleOf(s, dec).Err?
  {
  }

  /** strtodouble when the after-decimal scan threw. */
  lemma StrToDoubleAfterThrows(s: seq<char>, dec: char, sg: SignRead, b: Stop)
    requires |s| >= 1 && SignOf(s) == Ok(sg) && sg.next <= |s| && b.resume <= |s|
    requires BeforeFrom(s, sg.next, dec) == Ok(b) && b.next == Decimal
    requires AfterFrom(s, b.resume).Err?
    ensures StrToDoubleOf(s, dec).Err?
  {
  }

  /** The exponent is strtoint of the bytes after the marker. */
  lemma ExponentAfterMarker(s: seq<char>, k: nat, m: char, t: seq<char>, st: Stop, u: DoubleText)
    requires k < |s| && s[k..] == [m] + t && st.next == Exponent && st.resume == k + 1
    ensures WithExponent(s, st, u) == WithExponentOf(u, StrToIntOf(t))
  {
    assert s[k + 1..] == s[k..][1..];
  }

  // ------------------------------------------------ strtodouble, what it reads

  /** Spaces, an optional '-', digits and trailing spaces: the digits are
    * the integer part and there is no fraction and no exponent. */
  lemma StrToDoubleReadsInteger(s: seq<char>, a: nat, negative: bool, d: seq<char>, b: nat, dec: char)
    requires s == IntegerField(a, negative, d, Spaces(b))
    requires AllDigits(d) && !IsDigit(dec) && dec != ' '
    requires negative || |d| > 0
    ensures StrToDoubleOf(s, dec) == Ok(DoubleText(negative, d, [], 0))
  {
    var p := a + |MinusText(negative)|;
    if !negative {
      assert (d + Spaces(b))[0] == d[0];
    }
    IntegerFieldScans(s, a, negative, d, Spaces(b), dec, p);
    BeforeSpaces(b, dec);
    var st := Stop(p + |d|, Done, p + |d| + b);
    assert BeforeFrom(s, p, dec) == Ok(st);
    StrToDoubleWhole(s, dec, SignRead(negative, p), st);
  }

  /** Spaces, an optional '-', digits, the separator, digits and trailing
    * spaces: the two digit runs are the integer and the fraction part. */
  lemma StrToDoubleReadsDecimal(s: seq<char>, a: nat, negative: bool, d1: seq<char>, dec: char, d2: seq<char>, b: nat)
    requires s == DecimalField(a, negative, d1, dec, d2, Spaces(b))
    requires AllDigits(d1) && AllDigits(d2) && PlainSeparator(dec)
    ensures StrToDoubleOf(s, dec) == Ok(DoubleText(negative, d1, d2, 0))
  {
    var p := a + |MinusText(negative)|;
    var x := p + |d1| + 1;
    DecimalFieldHead(s, a, negative, d1, dec, d2, Spaces(b), p);
    DecimalFieldTail(s, a, negative, d1, dec, d2, Spaces(b), x);
    AfterSpaces(b);
    var bs := Stop(p + |d1|, Decimal, x);
    var f := Stop(x + |d2|, Done, x + |d2| + b);
    assert AfterFrom(s, x) == Ok(f);
    StrToDoubleFraction(s, dec, SignRead(negative, p), bs, f);
  }

  /** An integer part followed by 'e' or 'E': strtoint reads the rest of
    * the field as the exponent. */
  lemma StrToDoubleReadsIntegerExponent(s: seq<char>, a: nat, negative: bool, d: seq<char>, m: char, t: seq<char>, dec: char)
    requires s == IntegerField(a, negative, d, [m] + t)
    requires AllDigits(d) && !IsDigit(dec) && (m == 'e' || m == 'E') && m != dec
    ensures StrToDoubleOf(s, dec) == WithExponentOf(DoubleText(negative, d, [], 0), StrToIntOf(t))
  {
    var p := a + |MinusText(negative)|;
    if !negative {
      if |d| > 0 { assert (d + ([m] + t))[0] == d[0]; } else { assert (d + ([m] + t))[0] == m; }
    }
    IntegerFieldScans(s, a, negative, d, [m] + t, dec, p);
    ScansAtMarker(m, t, dec);
    var st := Stop(p + |d|, Exponent, p + |d| + 1);
    assert BeforeFrom(s, p, dec) == Ok(st);
    StrToDoubleWhole(s, dec, SignRead(negative, p), st);
    ExponentAfterMarker(s, p + |d|, m, t, st, DoubleText(negative, d, [], 0));
  }

  /** strtodouble's result once its scans have stopped at an exponent
    * marker after a fraction. */
  lemma DecimalExponentResult(s: seq<char>, dec: char, negative: bool, p: nat, d1: seq<char>, x: nat, d2: seq<char>, t: seq<char>)
    requires |s| >= 1 && SignOf(s) == Ok(SignRead(negative, p))
    requires BeforeFrom(s, p, dec) == Ok(Stop(p + |d1|, Decimal, x))
    requires AfterFrom(s, x) == Ok(Stop(x + |d2|, Exponent, x + |d2| + 1))
    requires p + |d1| <= |s| && s[p..p + |d1|] == d1
    requires x + |d2| < |s| && s[x..x + |d2|] == d2 && s[x + |d2| + 1..] == t
    ensures StrToDoubleOf(s, dec) == WithExponentOf(DoubleText(negative, d1, d2, 0), StrToIntOf(t))
  {
  }

  /** A decimal number followed by 'e' or 'E': strtoint reads the rest of
    * the field as the exponent. */
  lemma StrToDoubleReadsDecimalExponent(s: seq<char>, a: nat, negative: bool, d1: seq<char>, dec: char, d2: seq<char>,
                                        m: char, t: seq<char>)
    requires s == DecimalField(a, negative, d1, dec, d2, [m] + t)
    requires AllDigits(d1) && AllDigits(d2) && PlainSeparator(dec) && (m == 'e' || m == 'E')
    ensures StrToDoubleOf(s, dec) == WithExponentOf(DoubleText(negative, d1, d2, 0), StrToIntOf(t))
  {
    var p := a + |MinusText(negative)|;
    var x := p + |d1| + 1;
    DecimalFieldHead(s, a, negative, d1, dec, d2, [m] + t, p);
    DecimalFieldTail(s, a, negative, d1, dec, d2, [m] + t, x);
    ScansAtMarker(m, t, dec);
    assert s[x + |d2| + 1..] == t by {
      assert s[x + |d2| + 1..] == s[x + |d2|..][1..];
    }
    DecimalExponentResult(s, dec, negative, p, d1, x, d2, t);
  }

  /** The empty exponent of "1e" throws. */
  lemma StrToDoubleRejectsEmptyExponent(s: seq<char>, a: nat, negative: bool, d: seq<char>, m: char, dec: char)
    requires s == IntegerField(a, negative, d, [m])
    requires AllDigits(d) && !IsDigit(dec) && (m == 'e' || m == 'E') && m != dec
    ensures StrToDoubleOf(s, dec).Err?
  {
    var t: seq<char> := [];
    assert [m] + t == [m];
    StrToDoubleReadsIntegerExponent(s, a, negative, d, m, t, dec);
  }

  // ------------------------------------------- strtodouble, what it rejects

  /** A field of spaces (or an empty one) throws. */
  lemma StrToDoubleRejectsBlank(k: nat, dec: char)
    ensures StrToDoubleOf(Spaces(k), dec).Err?
  {
    if k > 0 {
      var e: seq<char> := [];
      assert Spaces(k) + e == Spaces(k);
      SkipSpacesLeading(Spaces(k), e);
    }
  }

  /** A byte that can neither continue nor end the integer part. */
  lemma BeforeRejects(c: char, y: seq<char>, dec: char)
    requires !IsDigit(c) && c != ' ' && c != dec && c != 'e' && c != 'E'
    ensures BeforeFrom([c] + y, 0, dec).Err?
  {
    assert ([c] + y)[0] == c;
  }

  /** A byte that can neither continue nor end the fraction. */
  lemma AfterRejects(c: char, y: seq<char>)
    requires !IsDigit(c) && c != ' ' && c != 'e' && c != 'E'
    ensures AfterFrom([c] + y, 0).Err?
  {
    assert ([c] + y)[0] == c;
  }

  /** In the integer part, any byte other than a digit, a space, the
    * separator and an exponent marker throws; this covers a '+' sign and a
    * second '-'. */
  lemma StrToDoubleRejectsIntegerByte(s: seq<char>, a: nat, negative: bool, d: seq<char>, c: char, y: seq<char>, dec: char)
    requires s == IntegerField(a, negative, d, [c] + y)
    requires AllDigits(d) && !IsDigit(dec)
    requires !IsDigit(c) && c != ' ' && c != dec && c != 'e' && c != 'E'
    requires negative || |d| > 0 || c != '-'
    ensures StrToDoubleOf(s, dec).Err?
  {
    var p := a + |MinusText(negative)|;
    if !negative {
      if |d| > 0 { assert (d + ([c] + y))[0] == d[0]; } else { assert (d + ([c] + y))[0] == c; }
    }
    IntegerFieldScans(s, a, negative, d, [c] + y, dec, p);
    BeforeRejects(c, y, dec);
    StrToDoubleBeforeThrows(s, dec, SignRead(negative, p));
  }

  /** In the integer part, a space followed by anything but spaces throws. */
  lemma StrToDoubleRejectsIntegerSpace(s: seq<char>, a: nat, negative: bool, d: seq<char>, y: seq<char>, dec: char)
    requires s == IntegerField(a, negative, d, [' '] + y)
    requires AllDigits(d) && !IsDigit(dec) && dec != ' ' && !AllSpaces(y)
    requires negative || |d| > 0
    ensures StrToDoubleOf(s, dec).Err?
  {
    var p := a + |MinusText(negative)|;
    if !negative {
      assert (d + ([' '] + y))[0] == d[0];
    }
    IntegerFieldScans(s, a, negative, d, [' '] + y, dec, p);
    ScansAtInnerSpace(y, dec);
    StrToDoubleBeforeThrows(s, dec, SignRead(negative, p));
  }

  /** In the fraction, any byte other than a digit, a space and an exponent
    * marker throws; this covers a second separator. */
  lemma StrToDoubleRejectsFractionByte(s: seq<char>, a: nat, negative: bool, d1: seq<char>, dec: char, d2: seq<char>,
                                       c: char, y: seq<char>)
    requires s == DecimalField(a, negative, d1, dec, d2, [c] + y)
    requires AllDigits(d1) && AllDigits(d2) && PlainSeparator(dec)
    requires !IsDigit(c) && c != ' ' && c != 'e' && c != 'E'
    ensures StrToDoubleOf(s, dec).Err?
  {
    var p := a + |MinusText(negative)|;
    var x := p + |d1| + 1;
    DecimalFieldHead(s, a, negative, d1, dec, d2, [c] + y, p);
    DecimalFieldTail(s, a, negative, d1, dec, d2, [c] + y, x);
    AfterRejects(c, y);
    StrToDoubleAfterThrows(s, dec, SignRead(negative, p), Stop(p + |d1|, Decimal, x));
  }

  /** In the fraction, a space followed by anything but spaces throws. */
  lemma StrToDoubleRejectsFractionSpace(s: seq<char>, a: nat, negative: bool, d1: seq<char>, dec: char, d2: seq<char>,
                                        y: seq<char>)
    requires s == DecimalField(a, negative, d1, dec, d2, [' '] + y)
    requires AllDigits(d1) && AllDigits(d2) && PlainSeparator(dec) && !AllSpaces(y)
    ensures StrToDoubleOf(s, dec).Err?
  {
    var p := a + |MinusText(negative)|;
    var x := p + |d1| + 1;
    DecimalFieldHead(s, a, negative, d1, dec, d2, [' '] + y, p);
    DecimalFieldTail(s, a, negative, d1, dec, d2, [' '] + y, x);
    ScansAtInnerSpace(y, dec);
    StrToDoubleAfterThrows(s, dec, SignRead(negative, p), Stop(p + |d1|, Decimal, x));
  }

  // ------------------------------------------------ strtodouble, its value

  /** The value of a decimal text is its digits without the separator,
    * divided by ten to the number of fraction digits. */
  lemma ValueOfDecimal(negative: bool, d1: seq<char>, d2: seq<char>)
    ensures Value(DoubleText(negative, d1, d2, 0))
         == Signed(negative, DecimalValue(d1 + d2)) as real / Pow10(|d2|) as real
  {
    var i := DecimalValue(d1);
    var f := DecimalValue(d2);
    var q := Pow10(|d2|);
    var n := DecimalValue(d1 + d2);
    assert n == i * q + f by {
      DecimalValueConcat(d1, d2);
    }
    assert Pow10Real(0) == 1.0;
    SignedQuotient(negative, i, q, f, n);
  }

  /** `sign * (i + f / q)` is the signed place value `i * q + f` over `q`. */
  lemma SignedQuotient(negative: bool, i: int, q: int, f: int, n: int)
    requires q > 0 && n == i * q + f
    ensures (if negative then -1.0 else 1.0) * 1.0 * (i as real + f as real / q as real) == Signed(negative, n) as real / q as real
  {
    assert n as real == i as real * q as real + f as real;
    DivideSplit(i as real, f as real, q as real);
  }

  lemma DivideSplit(i: real, f: real, q: real)
    requires q > 0.0
    ensures (i * q + f) / q == i + f / q
  {
  }

  /** The exponent scales the value by a power of ten. */
  lemma ValueOfExponent(t: DoubleText, e: int)
    requires t.exponent == 0
    ensures Value(t.(exponent := e)) == Value(t) * Pow10Real(e)
  {
    var m := Mantissa(t);
    var g := if t.negative then -1.0 else 1.0;
    var p := Pow10Real(e);
    assert Pow10Real(0) == 1.0;
    assert Mantissa(t.(exponent := e)) == m;
    assert Value(t) == g * 1.0 * m;
    assert Value(t.(exponent := e)) == g * p * m;
    ScaleLast(g, p, m);
  }

  lemma ScaleLast(g: real, p: real, m: real)
    ensures g * p * m == g * 1.0 * m * p
  {
  }
}
