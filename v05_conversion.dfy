/**
 * work/v05/laf2/src/conversion.h: the field converters of the v05 reader.
 *
 * `atoif` reads an optional '-' and a run of digits after leading spaces and
 * flags anything but spaces after the number.  `f_atod` reads sign, integer
 * digits, fraction digits and an exponent into a 64-bit mantissa and a
 * power-of-ten index; the final multiplication with the table entry is
 * floating point and is left abstract: the model returns the mantissa and
 * the table index.  `convert<T>` dispatches on the target type.
 */
module V05Conversion {
  import opened Text

  /** 2^64: `std::uint64_t` arithmetic is taken modulo this. */
  const U64: nat := 0x1_0000_0000_0000_0000
  /** 2^63: values at or above it are negative as `std::ptrdiff_t`. */
  const I64Bound: nat := 0x8000_0000_0000_0000

  /** Offset of 10^0 in the power-of-ten table (`exp_table.cbegin() + 308`). */
  const ExpTableZero: nat := 308
  /** Size of `exp_table`; its 632 initialisers run from 1e308 down to
    * 1e-323, and the last entry is zero-initialised. */
  const ExpTableSize: nat := 633

  // ---------------------------------------------------------------- atoif

  /** The value atoif returns together with the flag it stores in `*err`. */
  datatype IntConversion = IntConversion(value: int, err: bool)

  function Signed(negative: bool, v: int): int { if negative then -v else v }

  /** Reference semantics of atoif, phase by phase: skip spaces, take one
    * '-', read the digit run; the result is the signed value of the run, or
    * `na` when the run is empty, and the flag is set when anything but
    * spaces follows the run. */
  function AtoifOf(s: seq<char>, na: int): IntConversion {
    var k := SkipSpaces(s, 0);
    var negative := k < |s| && s[k] == '-';
    var start := if negative then k + 1 else k;
    var j := SkipDigits(s, start);
    IntConversion(if j > start then Signed(negative, DecimalValue(s[start..j])) else na,
                  !BlankFrom(s, j))
  }

  method Atoif(s: seq<char>, na: int) returns (value: int, err: bool)
    ensures IntConversion(value, err) == AtoifOf(s, na)
  {
    var i := 0;
    while i < |s| && s[i] == ' '
      invariant i <= |s| && SkipSpaces(s, i) == SkipSpaces(s, 0)
    {
      i := i + 1;
    }
    var negative := false;
    if i < |s| && s[i] == '-' {
      negative := true;
      i := i + 1;
    }
    var start := i;
    var acc, num;
    i, acc, num := DigitRun(s, start);
    err := CheckRemainder(s, i);
    value := if num then Signed(negative, acc) else na;
  }

  /** The "check number" loop of atoif: the digits from `start` on, their
    * value, and whether there was any. */
  method DigitRun(s: seq<char>, start: nat) returns (i: nat, acc: int, num: bool)
    requires start <= |s|
    ensures i == SkipDigits(s, start) && acc == DecimalValue(s[start..i]) && num == (i > start)
  {
    i := start;
    num := false;
    acc := 0;
    while i < |s| && s[i] != ' '
      invariant start <= i <= |s| && SkipDigits(s, i) == SkipDigits(s, start)
      invariant acc == DecimalValue(s[start..i]) && num == (i > start)
    {
      if IsDigit(s[i]) {
        DecimalValueExtend(s, start, i);
        acc := acc * 10 + DigitValue(s[i]);
        num := true;
      } else {
        break;
      }
      i := i + 1;
    }
  }

  /** The loop both converters end with: any non-space byte from `i0` on sets
    * the error flag. */
  method CheckRemainder(s: seq<char>, i0: nat) returns (err: bool)
    requires i0 <= |s|
    ensures err == !BlankFrom(s, i0)
  {
    var i := i0;
    err := false;
    while i < |s|
      invariant i0 <= i <= |s|
      invariant BlankFrom(s, i0) == (!err && BlankFrom(s, i))
    {
      if s[i] != ' ' {
        err := true;
      }
      i := i + 1;
    }
  }

  function SignText(negative: bool): seq<char> { if negative then "-" else "" }

  /** A field laid out as `a` spaces, an optional '-', digits `d` and then
    * `rest`. */
  function IntText(a: nat, negative: bool, d: seq<char>, rest: seq<char>): seq<char> {
    Spaces(a) + (SignText(negative) + (d + rest))
  }

  /** Where atoif's scans stop on a field of that layout, when the sign or
    * the first digit (or a byte that is neither a space nor '-') follows the
    * spaces. */
  lemma IntTextScans(s: seq<char>, t: seq<char>, u: seq<char>,
                     a: nat, negative: bool, d: seq<char>, rest: seq<char>)
    requires u == d + rest && t == SignText(negative) + u && s == Spaces(a) + t
    requires AllDigits(d) && (|rest| == 0 || !IsDigit(rest[0]))
    requires negative || |d| > 0 || (|rest| > 0 && rest[0] != ' ' && rest[0] != '-')
    ensures SkipSpaces(s, 0) == a
    ensures (a < |s| && s[a] == '-') == negative
    ensures a + |SignText(negative)| + |d| <= |s|
    ensures SkipDigits(s, a + |SignText(negative)|) == a + |SignText(negative)| + |d|
    ensures s[a + |SignText(negative)|..a + |SignText(negative)| + |d|] == d
    ensures BlankFrom(s, a + |SignText(negative)| + |d|) == BlankFrom(rest, 0)
  {
    IntTextSign(s, t, u, a, negative, d, rest);
    IntTextDigits(s, t, u, a, negative, d, rest);
    IntTextBlank(s, t, u, a, negative, d, rest);
  }

  lemma IntTextSign(s: seq<char>, t: seq<char>, u: seq<char>,
                    a: nat, negative: bool, d: seq<char>, rest: seq<char>)
    requires u == d + rest && t == SignText(negative) + u && s == Spaces(a) + t
    requires negative || |d| > 0 || (|rest| > 0 && rest[0] != ' ' && rest[0] != '-')
    requires |d| > 0 ==> AllDigits(d)
    ensures SkipSpaces(s, 0) == a
    ensures (a < |s| && s[a] == '-') == negative
  {
    assert t[0] != ' ' && (t[0] == '-') == negative by {
      if !negative && |d| > 0 { assert t[0] == d[0]; }
    }
    SkipSpacesLeading(Spaces(a), t);
    assert s[a] == t[0];
  }

  lemma IntTextDigits(s: seq<char>, t: seq<char>, u: seq<char>,
                      a: nat, negative: bool, d: seq<char>, rest: seq<char>)
    requires u == d + rest && t == SignText(negative) + u && s == Spaces(a) + t
    requires AllDigits(d) && (|rest| == 0 || !IsDigit(rest[0]))
    ensures a + |SignText(negative)| + |d| <= |s|
    ensures SkipDigits(s, a + |SignText(negative)|) == a + |SignText(negative)| + |d|
    ensures s[a + |SignText(negative)|..a + |SignText(negative)| + |d|] == d
  {
    var sign := |SignText(negative)|;
    SkipDigitsShift(Spaces(a), t, sign);
    SkipDigitsShift(SignText(negative), u, 0);
    SkipDigitsLeading(d, rest);
    IntTextSlice(s, t, u, a, negative, d, rest);
  }

  lemma IntTextSlice(s: seq<char>, t: seq<char>, u: seq<char>,
                     a: nat, negative: bool, d: seq<char>, rest: seq<char>)
    requires u == d + rest && t == SignText(negative) + u && s == Spaces(a) + t
    ensures s[a + |SignText(negative)|..a + |SignText(negative)| + |d|] == d
  {
    AppendAssoc(Spaces(a), SignText(negative), u);
    SliceMiddle(s, Spaces(a) + SignText(negative), d, rest);
  }

  lemma IntTextBlank(s: seq<char>, t: seq<char>, u: seq<char>,
                     a: nat, negative: bool, d: seq<char>, rest: seq<char>)
    requires u == d + rest && t == SignText(negative) + u && s == Spaces(a) + t
    ensures BlankFrom(s, a + |SignText(negative)| + |d|) == BlankFrom(rest, 0)
  {
    var e := |SignText(negative)| + |d|;
    BlankFromShift(Spaces(a), t, e);
    BlankFromShift(SignText(negative), u, |d|);
    BlankFromShift(d, rest, 0);
  }

  /** atoif on a field of that layout. */
  lemma AtoifOnLayout(a: nat, negative: bool, d: seq<char>, rest: seq<char>, na: int)
    requires AllDigits(d) && (|rest| == 0 || !IsDigit(rest[0]))
    requires negative || |d| > 0 || (|rest| > 0 && rest[0] != ' ' && rest[0] != '-')
    ensures AtoifOf(IntText(a, negative, d, rest), na)
         == IntConversion(if |d| > 0 then Signed(negative, DecimalValue(d)) else na,
                          !BlankFrom(rest, 0))
  {
    var u := d + rest;
    var t := SignText(negative) + u;
    var s := IntText(a, negative, d, rest);
    IntTextScans(s, t, u, a, negative, d, rest);
    var start := a + |SignText(negative)|;
    var j := start + |d|;
    assert SkipDigits(s, start) == j && s[start..j] == d && BlankFrom(s, j) == BlankFrom(rest, 0);
    AtoifOfAt(s, na, a, negative, start, j);
  }

  /** atoif over a field whose spaces end at `k`, whose sign is `negative`
    * and whose digit run lies from `start` to `j`. */
  lemma AtoifOfAt(s: seq<char>, na: int, k: nat, negative: bool, start: nat, j: nat)
    requires k == SkipSpaces(s, 0) && negative == (k < |s| && s[k] == '-')
    requires start == (if negative then k + 1 else k) && start <= |s| && j == SkipDigits(s, start)
    ensures AtoifOf(s, na)
         == IntConversion(if j > start then Signed(negative, DecimalValue(s[start..j])) else na,
                          !BlankFrom(s, j))
  {
  }

  /** Spaces, an optional '-', a digit string and trailing spaces convert to
    * the signed value of the digits without error; leading zeros are
    * allowed. */
  lemma AtoifReadsInteger(a: nat, negative: bool, d: seq<char>, b: nat, na: int)
    requires |d| > 0 && AllDigits(d)
    ensures AtoifOf(IntText(a, negative, d, Spaces(b)), na)
         == IntConversion(Signed(negative, DecimalValue(d)), false)
  {
    BlankSpaces(b);
    AtoifOnLayout(a, negative, d, Spaces(b), na);
  }

  /** A byte after the digit run that is neither a space nor a digit -- a
    * '+', a second '-', a letter -- sets the error flag; the value is still
    * that of the digits read so far, or `na` when there are none. */
  lemma AtoifFlagsTrailingText(a: nat, negative: bool, d: seq<char>, x: seq<char>, na: int)
    requires AllDigits(d)
    requires |x| > 0 && x[0] != ' ' && !IsDigit(x[0])
    requires |d| == 0 && !negative ==> x[0] != '-'
    ensures AtoifOf(IntText(a, negative, d, x), na)
         == IntConversion(if |d| > 0 then Signed(negative, DecimalValue(d)) else na, true)
  {
    AtoifOnLayout(a, negative, d, x, na);
  }

  /** A space inside the number ("4 2") ends the digit run and sets the error
    * flag. */
  lemma AtoifFlagsInnerSpace(a: nat, negative: bool, d: seq<char>, k: nat, y: seq<char>, na: int)
    requires |d| > 0 && AllDigits(d) && k > 0 && !AllSpaces(y)
    ensures AtoifOf(IntText(a, negative, d, Spaces(k) + y), na)
         == IntConversion(Signed(negative, DecimalValue(d)), true)
  {
    var x := Spaces(k) + y;
    assert x[0] == ' ';
    SpacesThenText(x, k, y);
    AtoifOnLayout(a, negative, d, x, na);
  }

  /** Spaces followed by text that is not all spaces are not blank. */
  lemma SpacesThenText(x: seq<char>, k: nat, y: seq<char>)
    requires x == Spaces(k) + y && !AllSpaces(y)
    ensures !BlankFrom(x, 0)
  {
    BlankFromIff(x, 0);
    var j :| 0 <= j < |y| && y[j] != ' ';
    assert x[0..][k + j] == y[j];
  }

  /** Without any digit -- an empty or blank field, or a lone '-' -- atoif
    * returns `na`, and the flag stays clear because only spaces follow. */
  lemma AtoifWithoutDigits(a: nat, negative: bool, b: nat, na: int)
    ensures AtoifOf(IntText(a, negative, [], Spaces(b)), na) == IntConversion(na, false)
  {
    BlankSpaces(b);
    if negative {
      AtoifOnLayout(a, negative, [], Spaces(b), na);
    } else {
      var s := IntText(a, negative, [], Spaces(b));
      assert s == Spaces(a) + Spaces(b);
      SkipSpacesLeading(Spaces(a), Spaces(b));
      assert Spaces(b)[0..b] == Spaces(b);
      SkipSpacesOver(Spaces(b), 0, b);
    }
  }

  // ---------------------------------------------------------------- f_atol

  /** One decimal step of an unsigned 64-bit accumulator agrees with the step
    * on the exact value, taken modulo 2^64. */
  lemma ModStep(x: int, d: int)
    ensures ((x % U64) * 10 + d) % U64 == (x * 10 + d) % U64
  {
    var q := x / U64;
    var r := x % U64;
    assert x == q * U64 + r;
    assert x * 10 + d == (r * 10 + d) + (10 * q) * U64;
    ModAddMultiple(r * 10 + d, 10 * q);
  }

  lemma ModAddMultiple(y: int, k: int)
    ensures (y + k * U64) % U64 == y % U64
  {
  }

  /** `value0` extended by `digits` in uint64 arithmetic: each digit
    * multiplies the accumulator by ten and adds its value, modulo 2^64. */
  function Accumulate(value0: int, digits: seq<char>): int {
    (value0 * Pow10(|digits|) + DecimalValue(digits)) % U64
  }

  /** f_atol: extend `value0` by the digit run at `i0`, in uint64 arithmetic;
    * `i` is where the pointer stops. */
  method FAtol(s: seq<char>, i0: nat, value0: nat) returns (value: nat, i: nat)
    requires i0 <= |s| && value0 < U64
    ensures i == SkipDigits(s, i0)
    ensures value == Accumulate(value0, s[i0..i])
  {
    i := i0;
    value := value0;
    while i < |s|
      invariant i0 <= i <= |s| && SkipDigits(s, i) == SkipDigits(s, i0)
      invariant value == Accumulate(value0, s[i0..i])
    {
      if IsDigit(s[i]) {
        ghost var exact := value0 * Pow10(i - i0) + DecimalValue(s[i0..i]);
        DecimalValueExtend(s, i0, i);
        ModStep(exact, DigitValue(s[i]));
        assert exact * 10 == value0 * Pow10(i + 1 - i0) + 10 * DecimalValue(s[i0..i]) by {
          MulAssoc10(value0, Pow10(i - i0));
        }
        value := (value * 10 + DigitValue(s[i])) % U64;
      } else {
        break;
      }
      i := i + 1;
    }
  }

  // ---------------------------------------------------------------- f_atod

  /** Where f_atod's first phases start and stop: after the spaces and the
    * sign the integer digits, and after an optional '.' the fraction
    * digits. */
  datatype NumberLayout = NumberLayout(negative: bool, intStart: nat, intEnd: nat,
                                       fracStart: nat, fracEnd: nat)

  function NumberLayoutOf(s: seq<char>): (n: NumberLayout)
    ensures n.intStart <= n.intEnd <= n.fracStart <= n.fracEnd <= |s|
    ensures n.intEnd == SkipDigits(s, n.intStart)
    ensures n.fracEnd == n.fracStart || n.fracEnd == SkipDigits(s, n.fracStart)
  {
    var k := SkipSpaces(s, 0);
    var negative := k < |s| && s[k] == '-';
    var intStart := if negative then k + 1 else k;
    var intEnd := SkipDigits(s, intStart);
    var dot := intEnd < |s| && s[intEnd] == '.';
    var fracStart := if dot then intEnd + 1 else intEnd;
    var fracEnd := if dot then SkipDigits(s, fracStart) else fracStart;
    NumberLayout(negative, intStart, intEnd, fracStart, fracEnd)
  }

  /** The exponent after 'e'/'E': an optional sign, then digits from `start`
    * to `end`. */
  datatype ExponentLayout = ExponentLayout(negative: bool, start: nat, end: nat)

  function ExponentLayoutOf(s: seq<char>, afterE: nat): (x: ExponentLayout)
    requires afterE <= |s|
    ensures afterE <= x.start <= x.end <= |s| && x.end == SkipDigits(s, x.start)
  {
    var negative := afterE < |s| && s[afterE] == '-';
    var plus := !negative && afterE < |s| && s[afterE] == '+';
    var start := if negative || plus then afterE + 1 else afterE;
    ExponentLayout(negative, start, SkipDigits(s, start))
  }

  /** The exponent, when an 'e' or 'E' follows the number. */
  function ExponentOf(s: seq<char>, n: NumberLayout): Option<ExponentLayout>
    requires n.fracEnd <= |s|
  {
    if n.fracEnd < |s| && (s[n.fracEnd] == 'e' || s[n.fracEnd] == 'E')
    then Some(ExponentLayoutOf(s, n.fracEnd + 1))
    else None
  }

  /** Where the remainder check starts. */
  function RestStart(n: NumberLayout, x: Option<ExponentLayout>): nat {
    if x.Some? then x.value.end else n.fracEnd
  }

  /** The number f_atod returns, before the floating-point step: it is
    * `(negative ? -1 : 1) * mantissa * exp_table[308 + negExp]`, where the
    * table entry is 10^-negExp (zero at index 632). */
  datatype DoubleParts = DoubleParts(negative: bool, mantissa: nat, negExp: int)

  datatype DoubleConversion = DoubleConversion(parts: DoubleParts, err: bool)

  /** The signed reading of a 64-bit pattern. */
  function ToSigned(u: nat): int
    requires u < U64
  {
    if u < I64Bound then u else u - U64
  }

  /** `neg_exp += exponent_sign * static_cast<ptrdiff_t>(exp)`: the sum is
    * formed in uint64 arithmetic and read back as ptrdiff_t. */
  function AddWrapped(negExp: int, exponentSign: nat, exp: nat): int {
    ToSigned((negExp % U64 + (exponentSign * exp) % U64) % U64)
  }

  /** `std::min(std::max(x, -308), 323)`. */
  function Clamp(x: int): (r: int)
    ensures -308 <= r <= 323
    ensures -308 <= x <= 323 ==> r == x
  {
    if x < -308 then -308 else if x > 323 then 323 else x
  }

  /** `exponent_sign`: 1 after '-', otherwise the uint64 pattern of -1. */
  function ExponentSign(x: ExponentLayout): nat {
    if x.negative then 1 else U64 - 1
  }

  /** `neg_exp` after the exponent phase. */
  function ShiftedNegExp(s: seq<char>, fracCount: nat, x: ExponentLayout): int
    requires x.start <= x.end <= |s|
  {
    Clamp(AddWrapped(fracCount, ExponentSign(x), DecimalValue(s[x.start..x.end]) % U64))
  }

  /** The mantissa: the integer and fraction digits read as one digit string,
    * modulo 2^64. */
  function Mantissa(s: seq<char>, n: NumberLayout): nat
    requires n.intStart <= n.intEnd <= n.fracStart <= n.fracEnd <= |s|
  {
    DecimalValue(s[n.intStart..n.intEnd] + s[n.fracStart..n.fracEnd]) % U64
  }

  /** Reference semantics of f_atod: the mantissa; the number of fraction
    * digits as the negative power of ten, shifted by the exponent and
    * clamped when an exponent marker is present; the flag set by a non-space
    * after the exponent digits. */
  function FAtodOf(s: seq<char>): DoubleConversion {
    var n := NumberLayoutOf(s);
    var x := ExponentOf(s, n);
    var fracCount := n.fracEnd - n.fracStart;
    var negExp := if x.Some? then ShiftedNegExp(s, fracCount, x.value) else fracCount;
    DoubleConversion(DoubleParts(n.negative, Mantissa(s, n), negExp), !BlankFrom(s, RestStart(n, x)))
  }

  /** The table lookup stays inside `exp_table`: without an exponent the index
    * is 308 plus the number of fraction digits. */
  predicate TableIndexInRange(s: seq<char>) {
    var n := NumberLayoutOf(s);
    ExponentOf(s, n).Some? || ExpTableZero + (n.fracEnd - n.fracStart) < ExpTableSize
  }

  /** f_atod; `na` is a parameter of the C++ function but takes no part in
    * the result. */
  method FAtod(s: seq<char>, na: real) returns (parts: DoubleParts, err: bool)
    requires TableIndexInRange(s)
    ensures DoubleConversion(parts, err) == FAtodOf(s)
    ensures 0 <= ExpTableZero + parts.negExp < ExpTableSize
    ensures ExponentOf(s, NumberLayoutOf(s)).Some? ==> ExpTableZero + parts.negExp < ExpTableSize - 1
  {
    var negative, value, negExp, i := ReadNumber(s);
    if i < |s| && (s[i] == 'e' || s[i] == 'E') {
      negExp, i := ReadExponent(s, i + 1, negExp);
    }
    err := CheckRemainder(s, i);
    parts := DoubleParts(negative, value, negExp);
  }

  /** The first phases of f_atod: skip the spaces, take a '-' when a byte is
    * left, read the integer digits and, after a '.', the fraction digits,
    * whose count becomes `neg_exp`. */
  method ReadNumber(s: seq<char>) returns (negative: bool, value: nat, negExp: nat, i: nat)
    ensures var n := NumberLayoutOf(s);
            && negative == n.negative && value == Mantissa(s, n)
            && negExp == n.fracEnd - n.fracStart && i == n.fracEnd
  {
    ghost var n := NumberLayoutOf(s);
    i := 0;
    while i < |s| && s[i] == ' '
      invariant i <= |s| && SkipSpaces(s, i) == SkipSpaces(s, 0)
    {
      i := i + 1;
    }
    negative := false;
    if i < |s| && s[i] == '-' {
      negative := true;
      i := i + 1;
    }
    assert negative == n.negative && i == n.intStart;
    var intStart := i;
    value, i := FAtol(s, i, 0);
    assert i == n.intEnd;
    ghost var intEnd := i;
    ghost var intValue := value;
    negExp := 0;
    var fracStart := i;
    if i < |s| && s[i] == '.' {
      i := i + 1;
      fracStart := i;
      value, i := FAtol(s, i, value);
      negExp := i - fracStart;
    }
    assert fracStart == n.fracStart && i == n.fracEnd;
    MantissaSteps(s[intStart..intEnd], s[fracStart..i], intValue, value);
  }

  /** The exponent phase of f_atod, from the byte after 'e'/'E': the sign
    * (only when a byte is left), the digits, and the clamped shift of
    * `neg_exp`. */
  method ReadExponent(s: seq<char>, afterE: nat, negExp0: nat) returns (negExp: int, i: nat)
    requires afterE <= |s|
    ensures var x := ExponentLayoutOf(s, afterE);
            i == x.end && negExp == ShiftedNegExp(s, negExp0, x)
  {
    i := afterE;
    var exponentSign := U64 - 1;
    if i < |s| && s[i] == '-' {
      i := i + 1;
      exponentSign := 1;
    } else if i < |s| && s[i] == '+' {
      i := i + 1;
    }
    var exp;
    exp, i := FAtol(s, i, 0);
    negExp := AddWrapped(negExp0, exponentSign, exp);
    negExp := if negExp < -308 then -308 else if negExp > 323 then 323 else negExp;
  }

  /** The two f_atol calls, on the integer and on the fraction digits,
    * accumulate the value of all digits modulo 2^64. */
  lemma MantissaSteps(intDigits: seq<char>, fracDigits: seq<char>, intValue: int, value: int)
    requires intValue == Accumulate(0, intDigits)
    requires value == Accumulate(intValue, fracDigits)
             || (fracDigits == [] && value == intValue)
    ensures value == DecimalValue(intDigits + fracDigits) % U64
  {
    ModStep2(DecimalValue(intDigits), |fracDigits|, DecimalValue(fracDigits));
    DecimalValueConcat(intDigits, fracDigits);
    if fracDigits == [] { assert intDigits + fracDigits == intDigits; }
  }

  /** Continuing an unsigned accumulator across the decimal point equals
    * reading all digits at once, modulo 2^64. */
  lemma ModStep2(a: int, n: nat, b: int)
    ensures ((a % U64) * Pow10(n) + b) % U64 == (a * Pow10(n) + b) % U64
  {
    var q := a / U64;
    var r := a % U64;
    assert a == q * U64 + r;
    assert a * Pow10(n) + b == (r * Pow10(n) + b) + (q * Pow10(n)) * U64;
    ModAddMultiple(r * Pow10(n) + b, q * Pow10(n));
  }

  // ------------------------------------------------------ f_atod lemmas

  /** The uint64 `-1` trick: adding `(2^64 - 1) * e` modulo 2^64 subtracts
    * `e` as long as the difference is a ptrdiff_t. */
  lemma AddWrappedSubtracts(n: nat, e: nat)
    requires n < I64Bound && e <= I64Bound
    ensures AddWrapped(n, U64 - 1, e) == n - e
  {
    if e == 0 {
      assert (U64 - 1) * e == 0;
    } else {
      MinusOneMod(e);
      ModBelow(n);
      WrapSum(n, e);
    }
  }

  /** `(2^64 - 1) * e` is `-e` modulo 2^64. */
  lemma MinusOneMod(e: nat)
    requires 0 < e <= I64Bound
    ensures ((U64 - 1) * e) % U64 == U64 - e
  {
    MinusOneTimes(U64, e);
    ModAddMultiple(U64 - e, e - 1);
  }

  /** `n + (2^64 - e)` modulo 2^64: the difference, or the difference
    * plus 2^64 when it is negative. */
  lemma WrapSum(n: nat, e: nat)
    requires n < I64Bound && 0 < e <= I64Bound
    ensures (n + (U64 - e)) % U64 == if n >= e then n - e else n - e + U64
  {
    if n >= e {
      ModAddMultiple(n - e, 1);
    }
  }

  lemma MinusOneTimes(m: int, e: int)
    ensures (m - 1) * e == (m - e) + (e - 1) * m
  {
  }

  /** After "e-", the exponent is added. */
  lemma AddWrappedAdds(n: nat, e: nat)
    requires n + e < I64Bound
    ensures AddWrapped(n, 1, e) == n + e
  {
  }

  /** The exponent shifts `neg_exp`: "eN" and "e+N" subtract N from the
    * number of fraction digits, "e-N" adds it, and the sum is clamped to
    * [-308, 323]. */
  lemma {:induction false} FAtodExponent(s: seq<char>)
    requires var n := NumberLayoutOf(s); var x := ExponentOf(s, n);
             && x.Some?
             && (n.fracEnd - n.fracStart) + DecimalValue(s[x.value.start..x.value.end]) < I64Bound
    ensures var n := NumberLayoutOf(s); var x := ExponentOf(s, n).value;
            var e := DecimalValue(s[x.start..x.end]);
            FAtodOf(s).parts.negExp
            == Clamp(if x.negative then (n.fracEnd - n.fracStart) + e else (n.fracEnd - n.fracStart) - e)
  {
    var n := NumberLayoutOf(s);
    var x := ExponentOf(s, n).value;
    var e := DecimalValue(s[x.start..x.end]);
    SkipDigitsAreDigits(s, x.start);
    DecimalValueBound(s[x.start..x.end]);
    ShiftedBy(s, n.fracEnd - n.fracStart, x, e);
  }

  /** The shifted `neg_exp` of an exponent `e` that fits. */
  lemma ShiftedBy(s: seq<char>, fc: nat, x: ExponentLayout, e: nat)
    requires x.start <= x.end <= |s| && e == DecimalValue(s[x.start..x.end]) && fc + e < I64Bound
    ensures ShiftedNegExp(s, fc, x) == Clamp(if x.negative then fc + e else fc - e)
  {
    ModBelow(e);
    if x.negative {
      AddWrappedAdds(fc, e);
    } else {
      AddWrappedSubtracts(fc, e);
    }
  }

  /** With at most 19 digits in all, the uint64 mantissa holds the exact
    * value of the digits. */
  lemma FAtodMantissaExact(s: seq<char>)
    requires var n := NumberLayoutOf(s); (n.intEnd - n.intStart) + (n.fracEnd - n.fracStart) <= 19
    ensures var n := NumberLayoutOf(s);
            FAtodOf(s).parts.mantissa == DecimalValue(s[n.intStart..n.intEnd] + s[n.fracStart..n.fracEnd])
  {
    var n := NumberLayoutOf(s);
    var d := s[n.intStart..n.intEnd] + s[n.fracStart..n.fracEnd];
    SkipDigitsAreDigits(s, n.intStart);
    if n.fracEnd != n.fracStart { SkipDigitsAreDigits(s, n.fracStart); }
    AllDigitsConcat(s[n.intStart..n.intEnd], s[n.fracStart..n.fracEnd]);
    DecimalValueBound(d);
    Pow10Monotone(|d|, 19);
    Pow10Below64();
    ModBelow(DecimalValue(d));
    assert FAtodOf(s).parts.mantissa == Mantissa(s, n);
  }

  lemma ModBelow(x: int)
    requires 0 <= x < U64
    ensures x % U64 == x
  {
  }

  /** 10^19 < 2^64. */
  lemma Pow10Below64()
    ensures Pow10(19) < U64
  {
    assert Pow10(1) == 10;
    assert Pow10(2) == 100;
    assert Pow10(3) == 1000;
    assert Pow10(4) == 10000;
    assert Pow10(5) == 100000;
    assert Pow10(6) == 1000000;
    assert Pow10(7) == 10000000;
    assert Pow10(8) == 100000000;
    assert Pow10(9) == 1000000000;
    assert Pow10(10) == 10000000000;
    assert Pow10(11) == 100000000000;
    assert Pow10(12) == 1000000000000;
    assert Pow10(13) == 10000000000000;
    assert Pow10(14) == 100000000000000;
    assert Pow10(15) == 1000000000000000;
    assert Pow10(16) == 10000000000000000;
    assert Pow10(17) == 100000000000000000;
    assert Pow10(18) == 1000000000000000000;
    assert Pow10(19) == 10000000000000000000;
  }

  lemma AllDigitsConcat(a: seq<char>, b: seq<char>)
    requires AllDigits(a) && AllDigits(b)
    ensures AllDigits(a + b)
  {
    forall i | 0 <= i < |a + b| ensures IsDigit((a + b)[i]) {
      if i >= |a| { assert (a + b)[i] == b[i - |a|]; }
    }
  }

  lemma {:induction false} Pow10Monotone(m: nat, n: nat)
    requires m <= n
    ensures Pow10(m) <= Pow10(n)
    decreases n
  {
    if m < n { Pow10Monotone(m, n - 1); }
  }

  /** A field laid out as `a` spaces, an optional '-', integer digits `d1`,
    * '.', fraction digits `d2` and then `rest`. */
  function DecimalText(a: nat, negative: bool, d1: seq<char>, d2: seq<char>, rest: seq<char>): seq<char> {
    Spaces(a) + (SignText(negative) + (d1 + ("." + (d2 + rest))))
  }

  /** The sign and the integer digits of the layout, from where the
    * leading spaces and the digits stop. */
  lemma LayoutHead(s: seq<char>, k: nat, negative: bool, intEnd: nat)
    requires SkipSpaces(s, 0) == k && negative == (k < |s| && s[k] == '-')
    requires intEnd == SkipDigits(s, k + |SignText(negative)|)
    ensures var n := NumberLayoutOf(s);
            n.negative == negative && n.intStart == k + |SignText(negative)| && n.intEnd == intEnd
  {
  }

  /** Where f_atod's integer scan stops on a field of that layout. */
  lemma DecimalTextInteger(s: seq<char>, t: seq<char>, u: seq<char>, v: seq<char>,
                           a: nat, negative: bool, d1: seq<char>)
    requires |v| > 0 && v[0] == '.' && u == d1 + v && t == SignText(negative) + u && s == Spaces(a) + t
    requires AllDigits(d1)
    ensures var n := NumberLayoutOf(s);
            var sg := |SignText(negative)|;
            && n.negative == negative && n.intStart == a + sg && n.intEnd == a + sg + |d1|
            && s[n.intStart..n.intEnd] == d1 && s[n.intEnd] == '.'
  {
    var sg := |SignText(negative)|;
    assert t[0] != ' ' && (t[0] == '-') == negative by {
      if !negative { assert t[0] == u[0]; if |d1| > 0 { assert u[0] == d1[0]; } }
    }
    assert |Spaces(a)| == a && SkipSpaces(t, 0) == 0 && SkipDigits(v, 0) == 0;
    SkipSpacesLeading(Spaces(a), t);
    assert s[a] == t[0];
    SkipDigitsShift(Spaces(a), t, sg);
    SkipDigitsShift(SignText(negative), u, 0);
    SkipDigitsLeading(d1, v);
    LayoutHead(s, a, negative, a + sg + |d1|);
    IntTextSlice(s, t, u, a, negative, d1, v);
    assert s[a + sg + |d1|] == v[0] by {
      assert s[a + sg + |d1|] == t[sg + |d1|] == u[|d1|];
    }
  }

  /** Where f_atod's fraction scan stops when the fraction digits `d2`
    * start at `i`. */
  lemma FractionSkip(s: seq<char>, p: seq<char>, d2: seq<char>, rest: seq<char>, i: nat)
    requires s == p + (d2 + rest) && i == |p|
    requires AllDigits(d2) && (|rest| == 0 || !IsDigit(rest[0]))
    ensures SkipDigits(s, i) == i + |d2|
  {
    SkipDigitsShift(p, d2 + rest, 0);
    SkipDigitsLeading(d2, rest);
  }

  /** The fraction digits from `i` to `e`, and what follows them. */
  lemma FractionRest(s: seq<char>, p: seq<char>, d2: seq<char>, rest: seq<char>, i: nat, e: nat)
    requires s == p + (d2 + rest) && i == |p| && e == i + |d2|
    ensures s[i..e] == d2
    ensures e < |s| ==> s[e] == rest[0]
    ensures BlankFrom(s, e) == BlankFrom(rest, 0)
  {
    SliceMiddle(s, p, d2, rest);
    FractionBlank(s, p, d2, rest, e);
    if e < |s| { assert s[e] == (d2 + rest)[|d2|]; }
  }

  lemma FractionBlank(s: seq<char>, p: seq<char>, d2: seq<char>, rest: seq<char>, e: nat)
    requires s == p + (d2 + rest) && e == |p| + |d2|
    ensures BlankFrom(s, e) == BlankFrom(rest, 0)
  {
    BlankFromShift(p, d2 + rest, |d2|);
    BlankFromShift(d2, rest, 0);
  }

  /** A '.' after the integer digits opens the fraction digits. */
  lemma FractionAfterDot(s: seq<char>, n: NumberLayout)
    requires n == NumberLayoutOf(s) && n.intEnd < |s| && s[n.intEnd] == '.'
    ensures n.fracStart == n.intEnd + 1 && n.fracEnd == SkipDigits(s, n.fracStart)
  {
  }

  /** Where f_atod's scans stop on a field of that layout. */
  lemma DecimalTextScans(s: seq<char>, a: nat, negative: bool, d1: seq<char>, d2: seq<char>, rest: seq<char>)
    requires s == DecimalText(a, negative, d1, d2, rest)
    requires AllDigits(d1) && AllDigits(d2) && (|rest| == 0 || !IsDigit(rest[0]))
    ensures var n := NumberLayoutOf(s);
            && n.negative == negative && n.fracStart == n.intEnd + 1 && n.fracEnd == n.fracStart + |d2|
            && s[n.intStart..n.intEnd] == d1 && s[n.fracStart..n.fracEnd] == d2
            && (n.fracEnd < |s| ==> s[n.fracEnd] == rest[0])
            && BlankFrom(s, n.fracEnd) == BlankFrom(rest, 0)
  {
    var w := d2 + rest;
    var v := "." + w;
    var u := d1 + v;
    var t := SignText(negative) + u;
    var n := NumberLayoutOf(s);
    DecimalTextInteger(s, t, u, v, a, negative, d1);
    var p := Spaces(a) + (SignText(negative) + (d1 + "."));
    SplitAtDot(s, t, u, v, w, p, a, negative, d1);
    FractionAfterDot(s, n);
    FractionSkip(s, p, d2, rest, n.fracStart);
    FractionRest(s, p, d2, rest, n.fracStart, n.fracEnd);
  }

  /** The field up to and including the '.' and what follows it. */
  lemma SplitAtDot(s: seq<char>, t: seq<char>, u: seq<char>, v: seq<char>, w: seq<char>, p: seq<char>,
                   a: nat, negative: bool, d1: seq<char>)
    requires v == "." + w && u == d1 + v && t == SignText(negative) + u && s == Spaces(a) + t
    requires p == Spaces(a) + (SignText(negative) + (d1 + "."))
    ensures s == p + w
  {
    AppendAssoc(d1, ".", w);
    AppendAssoc(SignText(negative), d1 + ".", w);
    AppendAssoc(Spaces(a), SignText(negative) + (d1 + "."), w);
  }

  /** Spaces, an optional '-', digits, '.', digits and trailing spaces give
    * the sign, the value of all digits as mantissa and the number of
    * fraction digits as `neg_exp`, without error. */
  lemma FAtodReadsDecimal(a: nat, negative: bool, d1: seq<char>, d2: seq<char>, b: nat)
    requires AllDigits(d1) && AllDigits(d2)
    ensures FAtodOf(DecimalText(a, negative, d1, d2, Spaces(b)))
         == DoubleConversion(DoubleParts(negative, DecimalValue(d1 + d2) % U64, |d2|), false)
  {
    DecimalTextScans(DecimalText(a, negative, d1, d2, Spaces(b)), a, negative, d1, d2, Spaces(b));
    BlankSpaces(b);
  }

  /** A byte after the fraction that is neither a space, a digit nor an
    * exponent marker sets the error flag. */
  lemma FAtodFlagsTrailingText(a: nat, negative: bool, d1: seq<char>, d2: seq<char>, x: seq<char>)
    requires AllDigits(d1) && AllDigits(d2)
    requires |x| > 0 && x[0] != ' ' && !IsDigit(x[0]) && x[0] != 'e' && x[0] != 'E'
    ensures FAtodOf(DecimalText(a, negative, d1, d2, x))
         == DoubleConversion(DoubleParts(negative, DecimalValue(d1 + d2) % U64, |d2|), true)
  {
    DecimalTextScans(DecimalText(a, negative, d1, d2, x), a, negative, d1, d2, x);
  }

  /** An empty or blank field gives zero without error. */
  lemma FAtodBlank(b: nat)
    ensures FAtodOf(Spaces(b)) == DoubleConversion(DoubleParts(false, 0, 0), false)
  {
    assert Spaces(b)[0..b] == Spaces(b);
    SkipSpacesOver(Spaces(b), 0, b);
    BlankSpaces(b);
    BlankFromIff(Spaces(b), b);
  }

  // -------------------------------------------------------------- convert

  /** The template argument of `convert<T>`. */
  datatype TargetType = IntTarget | DoubleTarget | OtherTarget

  datatype Converted = IntValue(i: int) | DoubleValue(parts: DoubleParts)

  /** A converted value and the flag stored in `*err`. */
  datatype Conversion = Conversion(value: Converted, err: bool)

  /** `convert<T>`: `int` is atoif, `double` is f_atod, and any other type
    * throws. */
  method Convert(target: TargetType, s: seq<char>, intNa: int, doubleNa: real)
    returns (r: Result<Conversion>)
    requires target == DoubleTarget ==> TableIndexInRange(s)
    ensures target == IntTarget
            ==> r == Ok(Conversion(IntValue(AtoifOf(s, intNa).value), AtoifOf(s, intNa).err))
    ensures target == DoubleTarget
            ==> r == Ok(Conversion(DoubleValue(FAtodOf(s).parts), FAtodOf(s).err))
    ensures target == OtherTarget ==> r == Err("Conversion not implemented.")
  {
    match target {
      case IntTarget =>
        var value, err := Atoif(s, intNa);
        r := Ok(Conversion(IntValue(value), err));
      case DoubleTarget =>
        var parts, err := FAtod(s, doubleNa);
        r := Ok(Conversion(DoubleValue(parts), err));
      case OtherTarget =>
        r := Err("Conversion not implemented.");
    }
  }
}
