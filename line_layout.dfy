/**
 * The text of one line as the line-based CSV readers of src/csvreader.cpp
 * and LaF/src/csvreader.cpp see it: fields written plain or inside quotes,
 * the value a reader keeps of each ('\r' dropped, the quotes removed), a
 * row of fields laid out in the file, and the C library's `strncpy` the
 * readers copy their line buffer with.
 */
module LineLayout {

  const Nul: char := 0 as char

  /** A field as written in the file: its bytes as they stand, or its bytes
    * between a pair of quotes. */
  datatype Field = Plain(text: seq<char>) | Quoted(text: seq<char>)

  /** The bytes of the field in the file. */
  function Raw(f: Field): (r: seq<char>)
    ensures |r| >= |f.text|
  {
    match f
    case Plain(t) => t
    case Quoted(t) => ['"'] + t + ['"']
  }

  /** `t` without its '\r' bytes. */
  function Dropped(t: seq<char>): (r: seq<char>)
    ensures |r| <= |t|
    ensures forall k :: 0 <= k < |r| ==> r[k] != '\r'
  {
    if |t| == 0 then [] else (if t[0] == '\r' then [] else [t[0]]) + Dropped(t[1..])
  }

  /** The value a reader keeps of a field. */
  function Value(f: Field): seq<char> {
    Dropped(f.text)
  }

  predicate NoNul(s: seq<char>) {
    forall k :: 0 <= k < |s| ==> s[k] != Nul
  }

  /** A field a reader takes back as written: no NUL byte and no line end
    * in it; a plain field holds no separator and its first byte other than
    * '\r' is not a quote; a quoted field holds no quote. */
  predicate Simple(sep: char, f: Field) {
    && NoNul(f.text)
    && (forall k :: 0 <= k < |f.text| ==> f.text[k] != '\n')
    && match f
       case Plain(t) => (forall k :: 0 <= k < |t| ==> t[k] != sep) && (|Dropped(t)| == 0 || Dropped(t)[0] != '"')
       case Quoted(t) => forall k :: 0 <= k < |t| ==> t[k] != '"'
  }

  /** `s` holds, from position `i` on, the row of `fields`, each followed
    * by `sep` and the last one by '\n'. */
  predicate RowAt(s: seq<char>, i: nat, sep: char, fields: seq<Field>)
    decreases |fields|
  {
    && |fields| > 0 && Simple(sep, fields[0])
    && i + |Raw(fields[0])| < |s| && s[i..i + |Raw(fields[0])|] == Raw(fields[0])
    && s[i + |Raw(fields[0])|] == (if |fields| == 1 then '\n' else sep)
    && (|fields| > 1 ==> RowAt(s, i + |Raw(fields[0])| + 1, sep, fields[1..]))
  }

  /** The position just after the row of `fields` that starts at `i`. */
  function RowEnd(i: nat, fields: seq<Field>): nat
    decreases |fields|
  {
    if |fields| == 0 then i
    else if |fields| == 1 then i + |Raw(fields[0])| + 1
    else RowEnd(i + |Raw(fields[0])| + 1, fields[1..])
  }

  /** The values of the fields, one after the other. */
  function Joined(fields: seq<Field>): seq<char>
    decreases |fields|
  {
    if |fields| == 0 then [] else Value(fields[0]) + Joined(fields[1..])
  }

  /** The values of the fields. */
  function Values(fields: seq<Field>): (v: seq<seq<char>>)
    ensures |v| == |fields|
    ensures forall j :: 0 <= j < |fields| ==> v[j] == Value(fields[j])
    decreases |fields|
  {
    if |fields| == 0 then [] else [Value(fields[0])] + Values(fields[1..])
  }

  function Zeros(n: nat): (z: seq<char>)
    ensures |z| == n && forall k :: 0 <= k < n ==> z[k] == Nul
  {
    seq(n, _ => Nul)
  }

  /** `strncpy(dst, src, |s|)` from the bytes `s`: the bytes up to the first
    * NUL, and NUL bytes from there on. */
  function StrncpyOf(s: seq<char>): (r: seq<char>)
    ensures |r| == |s|
  {
    if |s| == 0 then [] else if s[0] == Nul then Zeros(|s|) else [s[0]] + StrncpyOf(s[1..])
  }

  /** Without a NUL byte the copy is exact. */
  lemma {:induction false} StrncpyOfNoNul(s: seq<char>)
    requires NoNul(s)
    ensures StrncpyOf(s) == s
  {
    if |s| > 0 {
      assert NoNul(s[1..]) by {
        assert forall k :: 0 <= k < |s| - 1 ==> s[1..][k] == s[k + 1];
      }
      StrncpyOfNoNul(s[1..]);
    }
  }

  /** From the first NUL on, the copy holds only NUL bytes. */
  lemma {:induction false} StrncpyOfStopsAtNul(s: seq<char>, k: nat)
    requires k < |s| && s[k] == Nul
    ensures forall j :: k <= j < |s| ==> StrncpyOf(s)[j] == Nul
  {
    if s[0] != Nul {
      StrncpyOfStopsAtNul(s[1..], k - 1);
      assert forall j :: k <= j < |s| ==> StrncpyOf(s)[j] == StrncpyOf(s[1..])[j - 1];
    }
  }

  /** The first `k` bytes of the copy are the copy of the first `k` bytes. */
  lemma {:induction false} StrncpyOfPrefix(s: seq<char>, k: nat)
    requires k <= |s|
    ensures StrncpyOf(s)[..k] == StrncpyOf(s[..k])
  {
    if k > 0 {
      if s[0] == Nul {
        assert s[..k][0] == Nul;
      } else {
        assert s[..k][1..] == s[1..][..k - 1];
        StrncpyOfPrefix(s[1..], k - 1);
      }
    }
  }

  lemma DroppedConcat(a: seq<char>, b: seq<char>)
    ensures Dropped(a + b) == Dropped(a) + Dropped(b)
    decreases |a|
  {
    if |a| > 0 {
      assert (a + b)[1..] == a[1..] + b;
      DroppedConcat(a[1..], b);
    } else {
      assert a + b == b;
    }
  }

  /** Byte `k` of the copy: the source byte while no NUL came up to `k`,
    * a NUL from there on. */
  lemma {:induction false} StrncpyOfAt(s: seq<char>, k: nat)
    requires k < |s|
    ensures StrncpyOf(s)[k] == if NoNul(s[..k + 1]) then s[k] else Nul
  {
    if s[0] == Nul {
      assert s[..k + 1][0] == Nul;
    } else if k > 0 {
      StrncpyOfAt(s[1..], k - 1);
      assert s[1..][..k] == s[..k + 1][1..];
      assert NoNul(s[..k + 1]) == NoNul(s[1..][..k]) by {
        assert forall j :: 0 <= j < k ==> s[1..][..k][j] == s[..k + 1][j + 1];
      }
    }
  }

  /** `strncpy(dst, src + from, n)`: the first `n` bytes of `dst` become
    * the copy of the `n` bytes of `src` from `from` on; the rest of `dst`
    * stays. */
  method Strncpy(dst: array<char>, src: array<char>, from: nat, n: nat)
    requires n <= dst.Length && from + n <= src.Length && dst != src
    modifies dst
    ensures dst[..n] == StrncpyOf(src[from..from + n]) && dst[n..] == old(dst[n..])
  {
    ghost var s := src[from..from + n];
    var k := 0;
    var ended := false;
    while k < n
      invariant k <= n && src[from..from + n] == s
      invariant ended == !NoNul(s[..k])
      invariant forall m :: 0 <= m < k ==> dst[m] == StrncpyOf(s)[m]
      invariant dst[n..] == old(dst[n..])
    {
      var c := src[from + k];
      assert c == s[k];
      if c == Nul {
        ended := true;
      }
      assert ended == !NoNul(s[..k + 1]) by {
        assert s[..k + 1] == s[..k] + [s[k]];
      }
      StrncpyOfAt(s, k);
      dst[k] := if ended then Nul else c;
      k := k + 1;
    }
  }
}
