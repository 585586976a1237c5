/**
 * Byte-text vocabulary shared by the LaF models: a file or a field is a
 * sequence of chars, one char per byte.  This module defines what a decimal
 * digit, a run of spaces and the decimal value of a digit string are, and
 * the index-based scans (`SkipSpaces`, `SkipDigits`, `BlankFrom`) that the
 * converters' loops perform, so that every converter and reader states its
 * contract in the same terms.
 */
module Text {

  /** The outcome of an operation that the C++ code ends by throwing. */
  datatype Result<T> = Ok(value: T) | Err(message: string)

  datatype Option<T> = None | Some(value: T)

  /** R's missing integer, NA_INTEGER: the smallest 32-bit int. */
  const NaInteger: int := -0x8000_0000

  /** The runtime_error a column throws when a field does not convert; its
    * message names the line, the column and the field's bytes. */
  datatype ConversionFailure = ConversionFailure(line: nat, column: nat, text: seq<char>)

  /** What a column's get_value yields: a value, or the thrown error. */
  datatype IntOutcome = Number(value: int) | Thrown(failure: ConversionFailure)

  /** The level codes 1..n of a factor with n levels. */
  function Codes(n: nat): (c: set<int>)
    ensures forall k :: k in c <==> 1 <= k <= n
  {
    if n == 0 then {} else Codes(n - 1) + {n}
  }

  /** `get_current_line() - 1` on a 32-bit unsigned line number: line 0
    * wraps around to the largest value. */
  function LineBefore(line: nat): (r: nat)
    requires line < 0x1_0000_0000
    ensures r < 0x1_0000_0000
    ensures line > 0 ==> r + 1 == line
    ensures line == 0 ==> r == 0xFFFF_FFFF
  {
    (line + 0xFFFF_FFFF) % 0x1_0000_0000
  }

  predicate IsDigit(c: char) { '0' <= c <= '9' }

  /** `c - '0'`, the digit's value when `c` is a digit. */
  function DigitValue(c: char): int { c as int - '0' as int }

  predicate AllDigits(s: seq<char>) { forall i :: 0 <= i < |s| ==> IsDigit(s[i]) }

  predicate AllSpaces(s: seq<char>) { forall i :: 0 <= i < |s| ==> s[i] == ' ' }

  /** `n` space characters. */
  function Spaces(n: nat): (s: seq<char>)
    ensures |s| == n && AllSpaces(s)
  {
    seq(n, _ => ' ')
  }

  function Pow10(n: nat): (p: nat)
    ensures p >= 1
  {
    if n == 0 then 1 else 10 * Pow10(n - 1)
  }

  /** The value of a string read most significant digit first, as the
    * accumulation `value = value * 10 + (c - '0')` computes it. */
  function DecimalValue(s: seq<char>): int {
    if |s| == 0 then 0 else 10 * DecimalValue(s[..|s| - 1]) + DigitValue(s[|s| - 1])
  }

  /** Index of the first non-space at or after `i`. */
  function SkipSpaces(s: seq<char>, i: nat): (j: nat)
    requires i <= |s|
    ensures i <= j <= |s|
    decreases |s| - i
  {
    if i < |s| && s[i] == ' ' then SkipSpaces(s, i + 1) else i
  }

  /** Index of the first non-digit at or after `i`. */
  function SkipDigits(s: seq<char>, i: nat): (j: nat)
    requires i <= |s|
    ensures i <= j <= |s|
    decreases |s| - i
  {
    if i < |s| && IsDigit(s[i]) then SkipDigits(s, i + 1) else i
  }

  /** Every byte from `i` on is a space. */
  predicate BlankFrom(s: seq<char>, i: nat)
    requires i <= |s|
    decreases |s| - i
  {
    i == |s| || (s[i] == ' ' && BlankFrom(s, i + 1))
  }

  /** Number of occurrences of `c` in `s`. */
  function CountChar(s: seq<char>, c: char): (n: nat)
    ensures n <= |s|
  {
    if |s| == 0 then 0 else CountChar(s[..|s| - 1], c) + (if s[|s| - 1] == c then 1 else 0)
  }

  // ------------------------------------------------------------ scan lemmas

  /** A run of spaces is skipped as a whole. */
  lemma {:induction false} SkipSpacesOver(s: seq<char>, i: nat, n: nat)
    requires i + n <= |s| && AllSpaces(s[i..i + n])
    ensures SkipSpaces(s, i) == SkipSpaces(s, i + n)
    decreases n
  {
    if n > 0 {
      assert s[i..i + n][0] == s[i];
      assert s[i + 1..i + n] == s[i..i + n][1..];
      SkipSpacesOver(s, i + 1, n - 1);
    }
  }

  /** A run of digits is skipped as a whole. */
  lemma {:induction false} SkipDigitsOver(s: seq<char>, i: nat, n: nat)
    requires i + n <= |s| && AllDigits(s[i..i + n])
    ensures SkipDigits(s, i) == SkipDigits(s, i + n)
    decreases n
  {
    if n > 0 {
      assert s[i..i + n][0] == s[i];
      assert s[i + 1..i + n] == s[i..i + n][1..];
      SkipDigitsOver(s, i + 1, n - 1);
    }
  }

  /** The bytes a digit scan passes over are digits. */
  lemma {:induction false} SkipDigitsAreDigits(s: seq<char>, i: nat)
    requires i <= |s|
    ensures AllDigits(s[i..SkipDigits(s, i)])
    decreases |s| - i
  {
    if i < |s| && IsDigit(s[i]) {
      SkipDigitsAreDigits(s, i + 1);
      assert s[i..SkipDigits(s, i)] == [s[i]] + s[i + 1..SkipDigits(s, i + 1)];
    }
  }

  /** `BlankFrom` is `AllSpaces` of the suffix. */
  lemma {:induction false} BlankFromIff(s: seq<char>, i: nat)
    requires i <= |s|
    ensures BlankFrom(s, i) <==> AllSpaces(s[i..])
    decreases |s| - i
  {
    if i < |s| {
      BlankFromIff(s, i + 1);
      assert s[i..][0] == s[i];
      if AllSpaces(s[i + 1..]) && s[i] == ' ' {
        forall k | 0 <= k < |s[i..]| ensures s[i..][k] == ' ' {
          if k > 0 { assert s[i..][k] == s[i + 1..][k - 1]; }
        }
      }
      if AllSpaces(s[i..]) {
        forall k | i + 1 <= k < |s| ensures s[k] == ' ' {
          assert s[k] == s[i..][k - i];
        }
      }
    }
  }

  /** Scans over a suffix `q` of `p + q` land at the same place, shifted by
    * `|p|`. */
  lemma {:induction false} SkipSpacesShift(p: seq<char>, q: seq<char>, i: nat)
    requires i <= |q|
    ensures SkipSpaces(p + q, |p| + i) == |p| + SkipSpaces(q, i)
    decreases |q| - i
  {
    if i < |q| {
      assert (p + q)[|p| + i] == q[i];
      SkipSpacesShift(p, q, i + 1);
    }
  }

  lemma {:induction false} SkipDigitsShift(p: seq<char>, q: seq<char>, i: nat)
    requires i <= |q|
    ensures SkipDigits(p + q, |p| + i) == |p| + SkipDigits(q, i)
    decreases |q| - i
  {
    if i < |q| {
      assert (p + q)[|p| + i] == q[i];
      SkipDigitsShift(p, q, i + 1);
    }
  }

  lemma {:induction false} BlankFromShift(p: seq<char>, q: seq<char>, i: nat)
    requires i <= |q|
    ensures BlankFrom(p + q, |p| + i) == BlankFrom(q, i)
    decreases |q| - i
  {
    if i < |q| {
      assert (p + q)[|p| + i] == q[i];
      BlankFromShift(p, q, i + 1);
    }
  }

  /** Leading spaces are skipped as a whole. */
  lemma SkipSpacesLeading(p: seq<char>, q: seq<char>)
    requires AllSpaces(p)
    ensures SkipSpaces(p + q, 0) == |p| + SkipSpaces(q, 0)
  {
    assert (p + q)[0..|p|] == p;
    SkipSpacesOver(p + q, 0, |p|);
    SkipSpacesShift(p, q, 0);
  }

  /** Leading digits are skipped as a whole. */
  lemma SkipDigitsLeading(p: seq<char>, q: seq<char>)
    requires AllDigits(p)
    ensures SkipDigits(p + q, 0) == |p| + SkipDigits(q, 0)
  {
    assert (p + q)[0..|p|] == p;
    SkipDigitsOver(p + q, 0, |p|);
    SkipDigitsShift(p, q, 0);
  }

  /** A string of spaces is blank. */
  lemma BlankSpaces(n: nat)
    ensures BlankFrom(Spaces(n), 0)
  {
    BlankFromIff(Spaces(n), 0);
    assert Spaces(n)[0..] == Spaces(n);
  }

  // ---------------------------------------------------- sequence lemmas

  lemma AppendAssoc(x: seq<char>, y: seq<char>, z: seq<char>)
    ensures x + (y + z) == (x + y) + z
  {
  }

  /** The middle part of a three-part concatenation. */
  lemma SliceMiddle(s: seq<char>, x: seq<char>, y: seq<char>, z: seq<char>)
    requires s == x + (y + z)
    ensures s[|x|..|x| + |y|] == y
  {
    assert s[|x|..|x| + |y|] == (y + z)[..|y|];
  }

  // ------------------------------------------------------- value lemmas

  lemma Pow10Grows(n: nat)
    requires n > 0
    ensures Pow10(n) >= 10
  {
  }

  /** Growing a slice by one byte multiplies its value by ten and adds the
    * byte's digit value. */
  lemma DecimalValueExtend(s: seq<char>, a: nat, i: nat)
    requires a <= i < |s|
    ensures DecimalValue(s[a..i + 1]) == 10 * DecimalValue(s[a..i]) + DigitValue(s[i])
  {
    assert s[a..i + 1][..i - a] == s[a..i];
  }

  /** Appending digits shifts the value already read by one decimal place per
    * digit. */
  lemma {:induction false} DecimalValueConcat(a: seq<char>, b: seq<char>)
    ensures DecimalValue(a + b) == DecimalValue(a) * Pow10(|b|) + DecimalValue(b)
    decreases |b|
  {
    if |b| == 0 {
      assert a + b == a;
    } else {
      var b' := b[..|b| - 1];
      assert (a + b)[..|a + b| - 1] == a + b';
      DecimalValueConcat(a, b');
      calc {
        DecimalValue(a + b);
        10 * DecimalValue(a + b') + DigitValue(b[|b| - 1]);
        10 * (DecimalValue(a) * Pow10(|b'|) + DecimalValue(b')) + DigitValue(b[|b| - 1]);
        { MulAssoc10(DecimalValue(a), Pow10(|b'|)); }
        DecimalValue(a) * Pow10(|b|) + DecimalValue(b);
      }
    }
  }

  lemma MulAssoc10(x: int, y: int)
    ensures 10 * (x * y) == x * (10 * y)
  {
  }

  /** The value of a digit string of length n lies in [0, 10^n). */
  lemma {:induction false} DecimalValueBound(s: seq<char>)
    requires AllDigits(s)
    ensures 0 <= DecimalValue(s) < Pow10(|s|)
  {
    if |s| > 0 {
      var s' := s[..|s| - 1];
      assert AllDigits(s') by {
        forall i | 0 <= i < |s'| ensures IsDigit(s'[i]) { assert s'[i] == s[i]; }
      }
      DecimalValueBound(s');
    }
  }

  /** Reading a digit string from the right, one place value at a time, gives
    * the same value: the leading digit is worth 10^(n-1). */
  lemma DecimalValueCons(c: char, s: seq<char>)
    ensures DecimalValue([c] + s) == DigitValue(c) * Pow10(|s|) + DecimalValue(s)
  {
    DecimalValueConcat([c], s);
    assert [c][..0] == [];
  }

  // ------------------------------------------------------- count lemmas

  lemma {:induction false} CountCharConcat(a: seq<char>, b: seq<char>, c: char)
    ensures CountChar(a + b, c) == CountChar(a, c) + CountChar(b, c)
    decreases |b|
  {
    if |b| == 0 {
      assert a + b == a;
    } else {
      assert (a + b)[..|a + b| - 1] == a + b[..|b| - 1];
      CountCharConcat(a, b[..|b| - 1], c);
    }
  }

  /** One more byte of the prefix adds one to the count when it is `c`. */
  lemma CountCharPrefix(f: seq<char>, k: nat, c: char, b: char)
    requires k < |f| && b == f[k]
    ensures CountChar(f[..k + 1], c) == CountChar(f[..k], c) + (if b == c then 1 else 0)
  {
    assert f[..k + 1][..k] == f[..k];
  }

  // ------------------------------------------------- NUL-terminated reads

  /** Index of the first NUL byte at or after `from`, or the file length:
    * a loop `while (char c = buffer.next())` stops there. */
  function FirstZero(f: seq<char>, from: nat): (k: nat)
    requires from <= |f|
    ensures from <= k <= |f|
    ensures forall i :: from <= i < k ==> f[i] != 0 as char
    ensures k < |f| ==> f[k] == 0 as char
    decreases |f| - from
  {
    if from == |f| || f[from] == 0 as char then from else FirstZero(f, from + 1)
  }

  /** The bytes such a loop hands to its body when it starts after `from`
    * consumed bytes. */
  function UntilZero(f: seq<char>, from: nat): (s: seq<char>)
    requires from <= |f|
    ensures from + |s| <= |f|
    ensures forall i :: 0 <= i < |s| ==> s[i] != 0 as char && s[i] == f[from + i]
  {
    f[from..FirstZero(f, from)]
  }

  /** The byte the reading loop sees `j` bytes in: the input byte, or 0 once
    * the input is used up (at a NUL byte or at the end of the file). */
  lemma UntilZeroByte(f: seq<char>, from: nat, j: nat)
    requires from <= |f| && j <= |UntilZero(f, from)|
    ensures (if from + j < |f| then f[from + j] else 0 as char)
         == (if j < |UntilZero(f, from)| then UntilZero(f, from)[j] else 0 as char)
  {
  }

  /** The byte `next` gives `j` bytes in, and the one after it that `peek`
    * would give: 0 exactly at the end of the input, and otherwise the input
    * byte and the byte after it (0 after the last one). */
  lemma UntilZeroNext(f: seq<char>, from: nat, j: nat, c: char, la: char)
    requires from <= |f| && j <= |UntilZero(f, from)|
    requires c == (if from + j < |f| then f[from + j] else 0 as char)
    requires la == (if from + j + 1 < |f| then f[from + j + 1] else 0 as char)
    ensures c == 0 as char <==> j == |UntilZero(f, from)|
    ensures c != 0 as char ==>
              && from + j < |f| && c == UntilZero(f, from)[j]
              && la == (if j + 1 < |UntilZero(f, from)| then UntilZero(f, from)[j + 1] else 0 as char)
  {
    UntilZeroByte(f, from, j);
    if c != 0 as char {
      UntilZeroByte(f, from, j + 1);
    }
  }

  // ------------------------------------------------------------ block reads

  /** `file.read(buffer, n)` at stream position `from`: the `n` bytes of
    * `content` from `from` on land at the start of `buffer`, and the rest
    * of `buffer` stays. */
  method FileRead(buffer: array<char>, content: seq<char>, from: nat, n: nat)
    requires n <= buffer.Length && from + n <= |content|
    modifies buffer
    ensures buffer[..n] == content[from..from + n]
    ensures forall k :: 0 <= k < n ==> buffer[k] == content[from + k]
    ensures buffer[n..] == old(buffer[n..])
  {
    var k := 0;
    while k < n
      invariant k <= n
      invariant forall m :: 0 <= m < k ==> buffer[m] == content[from + m]
      invariant buffer[n..] == old(buffer[n..])
    {
      buffer[k] := content[from + k];
      k := k + 1;
    }
  }
}
