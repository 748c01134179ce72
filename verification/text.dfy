/**
 * The Python `str` operations the URL scripts rely on, stated over `seq<char>`:
 * whitespace (`str.isspace`, the `\s` class of a `str` regex), ASCII `lower()`,
 * substring search (`in`, `find`), `rstrip`/`lstrip`/`strip`, `split`, `join`
 * and `replace`.
 */
module Text {

  datatype Option<T> = None | Some(value: T)

  /** The characters for which Python's `str.isspace()` holds; a `str` regex's `\s` matches exactly these. */
  const Whitespace: set<char> := {
    '\t', '\n', '\U{000B}', '\U{000C}', '\r',
    '\U{001C}', '\U{001D}', '\U{001E}', '\U{001F}', ' ',
    '\U{0085}', '\U{00A0}', '\U{1680}',
    '\U{2000}', '\U{2001}', '\U{2002}', '\U{2003}', '\U{2004}', '\U{2005}',
    '\U{2006}', '\U{2007}', '\U{2008}', '\U{2009}', '\U{200A}',
    '\U{2028}', '\U{2029}', '\U{202F}', '\U{205F}', '\U{3000}'
  }

  predicate IsSpace(c: char) {
    c in Whitespace
  }

  /** `str.lower()` restricted to ASCII: only 'A'..'Z' change. */
  function LowerChar(c: char): (d: char)
    ensures 'A' <= c <= 'Z' ==> 'a' <= d <= 'z' && d as int == c as int + 32
    ensures !('A' <= c <= 'Z') ==> d == c
  {
    if 'A' <= c <= 'Z' then (c as int + 32) as char else c
  }

  function Lower(s: string): (r: string)
  {
    seq(|s|, i requires 0 <= i < |s| => LowerChar(s[i]))
  }

  /** Lower-casing twice is lower-casing once. */
  lemma LowerIdempotent(s: string)
    ensures Lower(Lower(s)) == Lower(s)
  {
    assert forall i :: 0 <= i < |s| ==> Lower(Lower(s))[i] == Lower(s)[i];
  }

  /** `pat` occurs in `s` starting at index `i`. */
  predicate OccursAt(s: string, pat: string, i: nat) {
    i + |pat| <= |s| && s[i..i + |pat|] == pat
  }

  /** `s.find(pat, from)`: the first occurrence of `pat` at or after `from`. */
  function FindFrom(s: string, pat: string, from: nat): (r: Option<nat>)
    decreases |s| - from
    ensures r.Some? ==> from <= r.value && OccursAt(s, pat, r.value)
    ensures r.Some? ==> forall j: nat :: from <= j < r.value ==> !OccursAt(s, pat, j)
    ensures r.None? ==> forall j: nat :: from <= j ==> !OccursAt(s, pat, j)
  {
    if from + |pat| > |s| then None
    else if s[from..from + |pat|] == pat then Some(from)
    else FindFrom(s, pat, from + 1)
  }

  /** `s.find(pat)`, with None for Python's -1. */
  function Find(s: string, pat: string): (r: Option<nat>)
    ensures r.Some? ==> OccursAt(s, pat, r.value) && forall j: nat :: j < r.value ==> !OccursAt(s, pat, j)
    ensures r.None? ==> forall j: nat :: !OccursAt(s, pat, j)
  {
    FindFrom(s, pat, 0)
  }

  /** Python's `pat in s`. */
  predicate Contains(s: string, pat: string)
    ensures Contains(s, pat) <==> exists i: nat :: OccursAt(s, pat, i)
  {
    Find(s, pat).Some?
  }

  /** Substring containment is transitive: whatever contains `a` contains every substring of `a`. */
  lemma ContainsTransitive(s: string, a: string, b: string)
    requires Contains(s, a) && Contains(a, b)
    ensures Contains(s, b)
  {
    var i: nat :| OccursAt(s, a, i);
    var j: nat :| OccursAt(a, b, j);
    forall m | i + j <= m < i + j + |b|
      ensures s[m] == b[m - i - j]
    {
      assert s[m] == s[i..i + |a|][m - i];
      assert a[m - i] == a[j..j + |b|][m - i - j];
    }
    assert s[i + j..i + j + |b|] == b;
    assert OccursAt(s, b, i + j);
  }

  /** An occurrence inside a prefix is an occurrence in the whole string. */
  lemma OccursInPrefix(s: string, n: nat, pat: string, j: nat)
    requires n <= |s| && OccursAt(s[..n], pat, j)
    ensures OccursAt(s, pat, j)
  {
    assert s[..n][j..j + |pat|] == s[j..j + |pat|];
  }

  /** The text before the first occurrence of `pat` does not contain `pat`. */
  lemma BeforeFirstAvoids(s: string, pat: string, i: nat)
    requires pat != [] && Find(s, pat) == Some(i)
    ensures !Contains(s[..i], pat)
  {
    if Contains(s[..i], pat) {
      var j: nat :| OccursAt(s[..i], pat, j);
      OccursInPrefix(s, i, pat, j);
    }
  }

  /** An occurrence inside a suffix is an occurrence in the whole string, shifted. */
  lemma OccursInSuffix(s: string, n: nat, pat: string, j: nat)
    requires n <= |s| && OccursAt(s[n..], pat, j)
    ensures OccursAt(s, pat, n + j)
  {
    assert s[n..][j..j + |pat|] == s[n + j..n + j + |pat|];
  }

  /** `s.rstrip(chars)`: drop the longest suffix made only of characters in `chars`. */
  function RStrip(s: string, chars: set<char>): (r: string)
    ensures r <= s
    ensures r == [] || r[|r| - 1] !in chars
    ensures forall i :: |r| <= i < |s| ==> s[i] in chars
  {
    if s != [] && s[|s| - 1] in chars then RStrip(s[..|s| - 1], chars) else s
  }

  /** `[m.rstrip(chars) for m in ms]`. */
  function RStripEach(ms: seq<string>, chars: set<char>): (r: seq<string>)
    ensures |r| == |ms|
  {
    if ms == [] then [] else RStripEach(ms[..|ms| - 1], chars) + [RStrip(ms[|ms| - 1], chars)]
  }

  lemma {:induction false} RStripEachAt(ms: seq<string>, chars: set<char>)
    ensures forall k :: 0 <= k < |ms| ==> RStripEach(ms, chars)[k] == RStrip(ms[k], chars)
  {
    if ms != [] {
      RStripEachAt(ms[..|ms| - 1], chars);
    }
  }

  /** `s.lstrip(chars)`: drop the longest prefix made only of characters in `chars`. */
  function LStrip(s: string, chars: set<char>): (r: string)
    ensures |r| <= |s| && r == s[|s| - |r|..]
    ensures r == [] || r[0] !in chars
    ensures forall i :: 0 <= i < |s| - |r| ==> s[i] in chars
  {
    if s != [] && s[0] in chars then LStrip(s[1..], chars) else s
  }

  /** `s.strip()`: remove leading and trailing whitespace. */
  function Strip(s: string): (r: string)
    ensures r == [] || (!IsSpace(r[0]) && !IsSpace(r[|r| - 1]))
  {
    LStrip(RStrip(s, Whitespace), Whitespace)
  }

  /** `sep.join(parts)`. */
  function Join(parts: seq<string>, sep: string): string
  {
    if |parts| == 0 then ""
    else if |parts| == 1 then parts[0]
    else parts[0] + sep + Join(parts[1..], sep)
  }

  /** `s.split(sep)` for a non-empty separator. */
  function Split(s: string, sep: string): (parts: seq<string>)
    requires sep != []
    ensures |parts| >= 1
    ensures Join(parts, sep) == s
    decreases |s|
  {
    match Find(s, sep)
    case None => [s]
    case Some(i) =>
      var rest := Split(s[i + |sep|..], sep);
      assert s == s[..i] + sep + s[i + |sep|..] by {
        assert s[i..i + |sep|] == sep;
      }
      [s[..i]] + rest
  }

  /** No piece of `s.split(sep)` contains the separator. */
  lemma {:induction false} SplitPiecesAvoidSeparator(s: string, sep: string)
    requires sep != []
    ensures forall k :: 0 <= k < |Split(s, sep)| ==> !Contains(Split(s, sep)[k], sep)
    decreases |s|
  {
    match Find(s, sep)
    case None =>
    case Some(i) =>
      SplitPiecesAvoidSeparator(s[i + |sep|..], sep);
      BeforeFirstAvoids(s, sep, i);
  }

  /** When `sep` first occurs right after `a`, `split` cuts `a` off there. */
  lemma SplitAt(s: string, sep: string, a: string, b: string)
    requires sep != [] && s == a + sep + b
    requires forall j: nat :: j < |a| ==> !OccursAt(s, sep, j)
    ensures Split(s, sep) == [a] + Split(b, sep)
  {
    assert s[|a|..|a| + |sep|] == sep;
    assert OccursAt(s, sep, |a|);
    assert Find(s, sep) == Some(|a|);
    assert s[..|a|] == a && s[|a| + |sep|..] == b;
  }

  /** When `a` holds no `c`, `split` on `c` cuts `a` off at the `c` that follows it. */
  lemma SplitAtFirstChar(s: string, c: char, a: string, b: string)
    requires s == a + [c] + b && !Contains(a, [c])
    ensures Split(s, [c]) == [a] + Split(b, [c])
  {
    CharAbsent(a, c);
    forall j: nat | j < |a|
      ensures !OccursAt(s, [c], j)
    {
      assert s[j..j + 1] == [a[j]];
    }
    SplitAt(s, [c], a, b);
  }

  /** Without an occurrence before `k`, the first piece of `split` begins with `s[..k]`. */
  lemma SplitHeadKeeps(s: string, sep: string, k: nat)
    requires sep != [] && k <= |s|
    requires forall j: nat :: j < k ==> !OccursAt(s, sep, j)
    ensures s[..k] <= Split(s, sep)[0]
  {
    match Find(s, sep)
    case None =>
    case Some(i) =>
      assert s[..k] == s[..i][..k];
  }

  /** A one-character string occurs exactly where that character stands. */
  lemma CharAbsent(s: string, c: char)
    ensures !Contains(s, [c]) <==> forall k :: 0 <= k < |s| ==> s[k] != c
  {
    if exists k :: 0 <= k < |s| && s[k] == c {
      var k :| 0 <= k < |s| && s[k] == c;
      assert s[k..k + 1] == [c];
      assert OccursAt(s, [c], k);
    }
    if Contains(s, [c]) {
      var k: nat :| OccursAt(s, [c], k);
      assert s[k] == s[k..k + 1][0];
    }
  }

  /** A middle piece of a string that avoids `pat` avoids it too. */
  lemma AvoidsInside(s: string, a: string, b: string, c: string, pat: string)
    requires s == a + b + c && !Contains(s, pat)
    ensures !Contains(b, pat)
  {
    if Contains(b, pat) {
      var j: nat :| OccursAt(b, pat, j);
      assert s[|a| + j..|a| + j + |pat|] == b[j..j + |pat|];
      assert OccursAt(s, pat, |a| + j);
    }
  }

  /** `s.replace(old, new)` for a non-empty `old`: the pieces between occurrences, re-joined by `new`. */
  function Replace(s: string, target: string, replacement: string): (r: string)
    requires target != []
  {
    Join(Split(s, target), replacement)
  }

  /** Replacing a string that does not occur changes nothing. */
  lemma ReplaceAbsent(s: string, target: string, replacement: string)
    requires target != [] && !Contains(s, target)
    ensures Replace(s, target, replacement) == s
  {
  }

  /** `s.split(sep, 1)`: at most one cut, at the first occurrence. */
  function SplitOnce(s: string, sep: string): (parts: seq<string>)
    requires sep != []
    ensures |parts| == 2 <==> Contains(s, sep)
    ensures |parts| == 1 <==> !Contains(s, sep)
    ensures |parts| == 2 ==> s == parts[0] + sep + parts[1] && !Contains(parts[0], sep)
    ensures |parts| == 1 ==> parts[0] == s
  {
    match Find(s, sep)
    case None => [s]
    case Some(i) =>
      assert s == s[..i] + sep + s[i + |sep|..] by {
        assert s[i..i + |sep|] == sep;
      }
      BeforeFirstAvoids(s, sep, i);
      [s[..i], s[i + |sep|..]]
  }

  /**
   * `s.split(sep)` cuts at the first occurrence exactly as `s.split(sep, 1)`
   * does, then splits what follows the separator.
   */
  lemma SplitAfterFirst(s: string, sep: string)
    requires sep != []
    ensures Split(s, sep)[0] == SplitOnce(s, sep)[0]
    ensures |Split(s, sep)| > 1 <==> Contains(s, sep)
    ensures |Split(s, sep)| > 1 ==> Split(s, sep)[1..] == Split(SplitOnce(s, sep)[1], sep)
  {
  }

  /** The second piece of `s.split(sep)` is the first piece of what follows the first separator. */
  lemma SplitSecondPiece(s: string, sep: string)
    requires sep != [] && |Split(s, sep)| >= 2
    ensures Contains(s, sep)
    ensures Split(s, sep)[0] == SplitOnce(s, sep)[0]
    ensures Split(s, sep)[1] == SplitOnce(SplitOnce(s, sep)[1], sep)[0]
  {
    SplitAfterFirst(s, sep);
    SplitAfterFirst(SplitOnce(s, sep)[1], sep);
  }

  /** What follows the first piece of `s.split(sep, 1)`: nothing, or the separator and the rest. */
  function SplitOnceRest(s: string, sep: string): (rest: string)
    requires sep != []
    ensures rest == [] || sep <= rest
  {
    var parts := SplitOnce(s, sep);
    if |parts| == 2 then sep + parts[1] else []
  }

  lemma SplitOnceHead(s: string, sep: string)
    requires sep != []
    ensures s == SplitOnce(s, sep)[0] + SplitOnceRest(s, sep)
  {
  }

  /** What follows the second piece of `s.split(sep)`. */
  function SplitRest(s: string, sep: string): (rest: string)
    requires sep != []
    ensures rest == [] || sep <= rest
  {
    SplitOnceRest(SplitOnce(s, sep)[|SplitOnce(s, sep)| - 1], sep)
  }

  /**
   * When `s.split(sep)` has a second piece, `s` is the first piece, the
   * separator, the second piece, and a rest that is empty or starts with the
   * separator.
   */
  lemma SplitFirstTwo(s: string, sep: string)
    requires sep != [] && |Split(s, sep)| >= 2
    ensures s == Split(s, sep)[0] + sep + Split(s, sep)[1] + SplitRest(s, sep)
  {
    SplitSecondPiece(s, sep);
    var r := SplitOnce(s, sep)[1];
    SplitOnceHead(r, sep);
    AppendAssocText(Split(s, sep)[0], sep, Split(s, sep)[1], SplitRest(s, sep));
  }

  lemma AppendAssocText(a: string, b: string, c: string, d: string)
    ensures a + b + (c + d) == a + b + c + d
  {
  }

  /** Every element of the sequence occurs only once. */
  predicate NoDuplicates<T(==)>(xs: seq<T>) {
    forall i, j :: 0 <= i < j < |xs| ==> xs[i] != xs[j]
  }
}
