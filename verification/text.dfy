/** String helpers the task client relies on: JavaScript's `String.prototype.trim`
    and `String.prototype.split` with a one-character separator, together with
    the `join` that undoes the split.
 */
module Text {

  /** ECMAScript's WhiteSpace and LineTerminator code points, the set that
      `trim` removes: TAB, LF, VT, FF, CR, SPACE, NO-BREAK SPACE, the other
      space separators of Unicode category Zs, LINE SEPARATOR,
      PARAGRAPH SEPARATOR and the byte order mark. */
  predicate IsWhitespace(c: char) {
    || c == '\t' || c == '\n' || c == '\U{B}' || c == '\U{C}' || c == '\r'
    || c == ' ' || c == '\U{A0}' || c == '\U{1680}'
    || ('\U{2000}' <= c <= '\U{200A}')
    || c == '\U{2028}' || c == '\U{2029}' || c == '\U{202F}' || c == '\U{205F}'
    || c == '\U{3000}' || c == '\U{FEFF}'
  }

  /** Every character of `s` is whitespace (vacuously so for the empty string). */
  predicate IsBlank(s: string) {
    forall i :: 0 <= i < |s| ==> IsWhitespace(s[i])
  }

  /** `lo..hi` is a range of `s` and every character from index `lo` up to
      (not including) `hi` is whitespace. */
  predicate BlankBetween(s: string, lo: int, hi: int) {
    && 0 <= lo <= hi <= |s|
    && forall k :: lo <= k < hi ==> IsWhitespace(s[k])
  }

  /** Index of the first non-whitespace character at or after `from`, or
      `|s|` when there is none. */
  function SkipBlanks(s: string, from: nat): (n: nat)
    requires from <= |s|
    ensures from <= n <= |s|
    ensures BlankBetween(s, from, n)
    ensures n == |s| || !IsWhitespace(s[n])
    decreases |s| - from
  {
    if from == |s| || !IsWhitespace(s[from]) then from else SkipBlanks(s, from + 1)
  }

  /** End of the text before `upTo` once trailing whitespace is dropped: the
      index just after the last non-whitespace character before `upTo`, or 0. */
  function SkipBlanksBack(s: string, upTo: nat): (m: nat)
    requires upTo <= |s|
    ensures m <= upTo
    ensures BlankBetween(s, m, upTo)
    ensures m == 0 || !IsWhitespace(s[m - 1])
    decreases upTo
  {
    if upTo == 0 || !IsWhitespace(s[upTo - 1]) then upTo else SkipBlanksBack(s, upTo - 1)
  }

  /** `r` is `s` with some whitespace prefix and some whitespace suffix cut off. */
  ghost predicate IsPaddingOf(s: string, r: string) {
    exists i, j :: 0 <= i <= j <= |s| && s[i..j] == r && BlankBetween(s, 0, i) && BlankBetween(s, j, |s|)
  }

  /** JavaScript's `s.trim()`: the text between the leading and the trailing
      whitespace. It is empty exactly when `s` is blank, and otherwise begins and
      ends with a non-whitespace character. */
  function Trim(s: string): (r: string)
    ensures IsPaddingOf(s, r)
    ensures r == [] <==> IsBlank(s)
    ensures r != [] ==> !IsWhitespace(r[0]) && !IsWhitespace(r[|r| - 1])
  {
    var i := SkipBlanks(s, 0);
    if i == |s| then
      PaddingWitness(s, [], i, i);
      []
    else
      var j := SkipBlanksBack(s, |s|);
      assert !IsWhitespace(s[i]);
      PaddingWitness(s, s[i..j], i, j);
      s[i..j]
  }

  /** Cut positions that show `r` is a padding of `s`. */
  lemma PaddingWitness(s: string, r: string, i: int, j: int)
    requires 0 <= i <= j <= |s| && s[i..j] == r
    requires BlankBetween(s, 0, i) && BlankBetween(s, j, |s|)
    ensures IsPaddingOf(s, r)
  {
  }

  /** Trimming twice is trimming once. */
  lemma TrimIdempotent(s: string)
    ensures Trim(Trim(s)) == Trim(s)
  {
  }

  /** Index of the first `c` in `s`, or -1 when `s` holds none (JavaScript's
      `indexOf` for a one-character needle). */
  function IndexOf(s: string, c: char): (i: int)
    ensures -1 <= i < |s|
    ensures i == -1 <==> c !in s
    ensures 0 <= i ==> s[i] == c && c !in s[..i]
  {
    if |s| == 0 then -1
    else if s[0] == c then 0
    else
      var k := IndexOf(s[1..], c);
      if k == -1 then -1
      else
        assert s[..k + 1] == [s[0]] + s[1..][..k];
        k + 1
  }

  /** Glues `parts` together with `sep` between neighbours. */
  function Join(parts: seq<string>, sep: char): string
    requires |parts| >= 1
    decreases |parts|
  {
    if |parts| == 1 then parts[0] else parts[0] + [sep] + Join(parts[1..], sep)
  }

  /** JavaScript's `s.split(sep)` for a one-character separator: the maximal
      separator-free pieces between the separators. There is always at least
      one piece (`"".split(";")` is `[""]`), and joining the pieces back with
      the separator gives `s` again. */
  function Split(s: string, sep: char): (parts: seq<string>)
    ensures |parts| >= 1
    ensures forall k :: 0 <= k < |parts| ==> sep !in parts[k]
    ensures Join(parts, sep) == s
    decreases |s|
  {
    var i := IndexOf(s, sep);
    if i == -1 then [s]
    else
      var head := s[..i];
      var rest := Split(s[i + 1..], sep);
      var parts := [head] + rest;
      assert parts[1..] == rest;
      assert Join(parts, sep) == head + [sep] + Join(rest, sep);
      assert s == head + [sep] + s[i + 1..];
      parts
  }

  /** The first separator of `p + [sep] + rest` sits right after `p` when `p`
      holds no separator. */
  lemma IndexOfAfterPiece(p: string, sep: char, rest: string)
    requires sep !in p
    ensures IndexOf(p + [sep] + rest, sep) == |p|
  {
    var s := p + [sep] + rest;
    assert s[|p|] == sep;
    assert s[..|p|] == p;
  }

  /** Splitting undoes joining: separator-free pieces come back unchanged. */
  lemma {:induction false} SplitJoin(parts: seq<string>, sep: char)
    requires |parts| >= 1
    requires forall k :: 0 <= k < |parts| ==> sep !in parts[k]
    ensures Split(Join(parts, sep), sep) == parts
    decreases |parts|
  {
    if |parts| == 1 {
      assert IndexOf(parts[0], sep) == -1;
    } else {
      var p := parts[0];
      var rest := Join(parts[1..], sep);
      var s := p + [sep] + rest;
      assert sep !in p;
      assert Join(parts, sep) == s;
      IndexOfAfterPiece(p, sep, rest);
      assert s[..|p|] == p && s[|p| + 1..] == rest;
      assert Split(s, sep) == [p] + Split(rest, sep);
      SplitJoin(parts[1..], sep);
      assert [p] + parts[1..] == parts;
    }
  }
}
