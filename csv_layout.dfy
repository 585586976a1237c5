/**
 * The layout of CSV text shared by the state-machine models: a plain field,
 * a row of plain fields and their positions, and the two ways of writing a
 * quote inside a quoted field.  Also two small sequence facts the readers'
 * proofs split their inputs with.
 */
module CsvLayout {

  /** Collecting the first byte of `f` and then the rest is collecting `f`. */
  lemma AppendHead(x: seq<char>, f: seq<char>)
    requires |f| > 0
    ensures (x + [f[0]]) + f[1..] == x + f
  {
    assert f == [f[0]] + f[1..];
  }

  /** A slice of `s` that is a concatenation splits into its parts. */
  lemma SliceSplit(s: seq<char>, i: nat, h: seq<char>, t: seq<char>)
    requires i + |h| + |t| <= |s| && s[i..i + |h| + |t|] == h + t
    ensures s[i..i + |h|] == h && s[i + |h|..i + |h| + |t|] == t
  {
    assert s[i..i + |h|] == s[i..i + |h| + |t|][..|h|];
    assert s[i + |h|..i + |h| + |t|] == s[i..i + |h| + |t|][|h|..];
  }

  /** A field written without quotes: it does not start with a quote or a
    * line break and holds no ',' and no '\n'. */
  predicate PlainField(f: seq<char>) {
    && |f| > 0 && f[0] != '"' && f[0] != '\n' && f[0] != '\r'
    && forall p :: 0 <= p < |f| ==> f[p] != ',' && f[p] != '\n'
  }

  /** `s` holds, from position `i` on, the row of `fields`: each a plain
    * field, followed by ',' and the last one by '\n'. */
  predicate RowAt(s: seq<char>, i: nat, fields: seq<seq<char>>)
    decreases |fields|
  {
    && |fields| > 0 && PlainField(fields[0])
    && i + |fields[0]| < |s| && s[i..i + |fields[0]|] == fields[0]
    && s[i + |fields[0]|] == (if |fields| == 1 then '\n' else ',')
    && (|fields| > 1 ==> RowAt(s, i + |fields[0]| + 1, fields[1..]))
  }

  /** The position just after the row of `fields` that starts at `i`. */
  function RowEnd(i: nat, fields: seq<seq<char>>): nat
    decreases |fields|
  {
    if |fields| <= 1 then i + (if |fields| == 1 then |fields[0]| + 1 else 0) else RowEnd(i + |fields[0]| + 1, fields[1..])
  }

  /** The text of `f` inside quotes with every quote doubled. */
  function Doubled(f: seq<char>): (e: seq<char>)
    ensures |e| >= |f|
  {
    if |f| == 0 then [] else (if f[0] == '"' then ['"', '"'] else [f[0]]) + Doubled(f[1..])
  }

  /** The text of `f` inside quotes with every quote preceded by a
    * backslash. */
  function Backslashed(f: seq<char>): (e: seq<char>)
    ensures |e| >= |f|
    ensures |f| > 0 ==> |e| > 0 && e[0] != '"'
  {
    if |f| == 0 then [] else (if f[0] == '"' then ['\\', '"'] else [f[0]]) + Backslashed(f[1..])
  }
}
