/**
 * The three URL regular expressions of the scripts, written as scanners over
 * their character classes, and `re.finditer` over them.
 *
 *   OptionalTail   https?://[^\s\)<>"\'\]]+(?:[^\s\)<>"\'\]\.])?   (extract_all_urls.py)
 *   PlainRun       https?://[^\s\)\]\'"<>]+                        (extract_all_urls_with_duplicates.py)
 *   RequiredFinal  https?://[^\s\)\]<>"]+[^\s\)\]<>"\',.]          (url_extraction.py)
 *
 * `InLang` is the language each pattern denotes; `MatchEnd` is the greedy,
 * backtracking search Python's `re` performs, and is proved to return the
 * longest word of the language that starts at the given position.
 */
module UrlScan {
  import opened Text

  /** `[^\s\)<>"\'\]]`, the repeated class of the first two patterns. */
  predicate IsUrlChar(c: char) {
    !IsSpace(c) && c !in {')', '<', '>', '"', '\'', ']'}
  }

  /** `[^\s\)<>"\'\]\.]`, the optional last character of OptionalTail. */
  predicate IsOptionalTailChar(c: char) {
    IsUrlChar(c) && c != '.'
  }

  /** `[^\s\)\]<>"]`, the repeated class of RequiredFinal; unlike IsUrlChar it admits `'`. */
  predicate IsLooseUrlChar(c: char) {
    !IsSpace(c) && c !in {')', ']', '<', '>', '"'}
  }

  /** `[^\s\)\]<>"\',.]`, the required last character of RequiredFinal. */
  predicate IsFinalChar(c: char) {
    IsLooseUrlChar(c) && c !in {'\'', ',', '.'}
  }

  datatype Pattern = OptionalTail | PlainRun | RequiredFinal

  /** The class the pattern's `+` repeats. */
  predicate InRun(pat: Pattern, c: char) {
    if pat.RequiredFinal? then IsLooseUrlChar(c) else IsUrlChar(c)
  }

  /** A string that begins with `http://` or `https://`. */
  predicate HasScheme(u: string) {
    "http://" <= u || "https://" <= u
  }

  /** `https://` and `http://` cannot both start at the same position (the fifth characters differ). */
  lemma SchemesExclusive(text: string, p: nat)
    ensures !(OccursAt(text, "https://", p) && OccursAt(text, "http://", p))
  {
    if OccursAt(text, "https://", p) {
      assert text[p + 4] == text[p..p + 8][4] == 's';
    }
  }

  /** Length of the `https?://` that starts at `p`: 8 for `https://`, 7 for `http://`, 0 for neither. */
  function SchemeAt(text: string, p: nat): (n: nat)
    ensures n == 0 || n == 7 || n == 8
    ensures n == 8 <==> OccursAt(text, "https://", p)
    ensures n == 7 <==> OccursAt(text, "http://", p)
    ensures n > 0 ==> p + n <= |text| && text[p + n - 1] == '/'
  {
    SchemesExclusive(text, p);
    if OccursAt(text, "https://", p) then
      assert text[p + 7] == text[p..p + 8][7];
      8
    else if OccursAt(text, "http://", p) then
      assert text[p + 6] == text[p..p + 7][6];
      7
    else 0
  }

  /** The words of each pattern's language, written as the regular expression reads. */
  predicate InLang(pat: Pattern, w: string) {
    var n := SchemeAt(w, 0);
    n > 0 &&
    match pat
    case PlainRun =>
      |w| > n && forall k :: n <= k < |w| ==> IsUrlChar(w[k])
    case OptionalTail =>
      // one or more IsUrlChar, then at most one IsOptionalTailChar
      || (|w| > n && forall k :: n <= k < |w| ==> IsUrlChar(w[k]))
      || (|w| > n + 1 && (forall k :: n <= k < |w| - 1 ==> IsUrlChar(w[k])) && IsOptionalTailChar(w[|w| - 1]))
    case RequiredFinal =>
      // one or more IsLooseUrlChar, then exactly one IsFinalChar
      |w| > n + 1 && (forall k :: n <= k < |w| - 1 ==> IsLooseUrlChar(w[k])) && IsFinalChar(w[|w| - 1])
  }

  /** InLang of the slice `text[p..e]`, restated on the positions of `text`. */
  predicate MatchesAt(pat: Pattern, text: string, p: nat, e: nat)
    requires p <= e <= |text|
  {
    var n := SchemeAt(text, p);
    n > 0 &&
    match pat
    case PlainRun =>
      e > p + n && forall k :: p + n <= k < e ==> IsUrlChar(text[k])
    case OptionalTail =>
      || (e > p + n && forall k :: p + n <= k < e ==> IsUrlChar(text[k]))
      || (e > p + n + 1 && (forall k :: p + n <= k < e - 1 ==> IsUrlChar(text[k])) && IsOptionalTailChar(text[e - 1]))
    case RequiredFinal =>
      e > p + n + 1 && (forall k :: p + n <= k < e - 1 ==> IsLooseUrlChar(text[k])) && IsFinalChar(text[e - 1])
  }

  /** The end of the longest run of the pattern's repeated class that starts at `i`. */
  function RunEnd(pat: Pattern, text: string, i: nat): (e: nat)
    requires i <= |text|
    decreases |text| - i
    ensures i <= e <= |text|
    ensures forall k :: i <= k < e ==> InRun(pat, text[k])
    ensures e == |text| || !InRun(pat, text[e])
  {
    if i < |text| && InRun(pat, text[i]) then RunEnd(pat, text, i + 1) else i
  }

  /** The greatest `j` in `[lo, hi)` with `IsFinalChar(text[j])`: where backtracking stops. */
  function LastFinal(text: string, lo: nat, hi: nat): (r: Option<nat>)
    requires hi <= |text|
    decreases hi
    ensures r.Some? ==> lo <= r.value < hi && IsFinalChar(text[r.value])
    ensures r.Some? ==> forall k :: r.value < k < hi ==> !IsFinalChar(text[k])
    ensures r.None? ==> forall k :: lo <= k < hi ==> !IsFinalChar(text[k])
  {
    if hi <= lo then None
    else if IsFinalChar(text[hi - 1]) then Some(hi - 1)
    else LastFinal(text, lo, hi - 1)
  }

  /**
   * Where the match that `re` finds at `p` ends, or None: the `+` first takes
   * the whole run, then the optional group is tried, or (RequiredFinal) the run
   * gives back characters until a final character can follow it.
   */
  function MatchEnd(pat: Pattern, text: string, p: nat): (r: Option<nat>)
    requires p <= |text|
    ensures r.Some? ==> SchemeAt(text, p) > 0 && p + SchemeAt(text, p) < r.value <= |text|
  {
    var n := SchemeAt(text, p);
    if n == 0 then None
    else
      var q := RunEnd(pat, text, p + n);
      match pat
      case PlainRun =>
        if q > p + n then Some(q) else None
      case OptionalTail =>
        if q > p + n then Some(if q < |text| && IsOptionalTailChar(text[q]) then q + 1 else q) else None
      case RequiredFinal =>
        match LastFinal(text, p + n + 1, q)
        case Some(j) => Some(j + 1)
        case None => None
  }

  /** `pat` starts a slice exactly when it starts the text at that position (if the slice is long enough). */
  lemma OccursAtSliceStart(text: string, p: nat, e: nat, pat: string)
    requires p <= e <= |text| && p + |pat| <= e
    ensures OccursAt(text[p..e], pat, 0) <==> OccursAt(text, pat, p)
  {
    assert text[p..e][0..|pat|] == text[p..p + |pat|];
  }

  /** The scheme seen at the start of a slice is the scheme at that position of the text. */
  lemma SchemeOfSlice(text: string, p: nat, e: nat)
    requires p <= e <= |text|
    ensures SchemeAt(text[p..e], 0) > 0 ==> SchemeAt(text[p..e], 0) == SchemeAt(text, p)
    ensures SchemeAt(text, p) > 0 && p + SchemeAt(text, p) <= e ==> SchemeAt(text[p..e], 0) == SchemeAt(text, p)
  {
    if p + 8 <= e {
      OccursAtSliceStart(text, p, e, "https://");
    }
    if p + 7 <= e {
      OccursAtSliceStart(text, p, e, "http://");
    }
  }

  /** A slice is in the pattern's language exactly when MatchesAt holds of its bounds. */
  lemma InLangSlice(pat: Pattern, text: string, p: nat, e: nat)
    requires p <= e <= |text|
    ensures InLang(pat, text[p..e]) <==> MatchesAt(pat, text, p, e)
  {
    SchemeOfSlice(text, p, e);
    var w := text[p..e];
    assert forall k :: 0 <= k < |w| ==> w[k] == text[p + k];
  }

  /** The optional group of OptionalTail never lengthens a match: the greedy run already stopped at a character outside its class. */
  lemma OptionalGroupNeverFires(text: string, p: nat)
    requires p <= |text|
    ensures MatchEnd(OptionalTail, text, p) == MatchEnd(PlainRun, text, p)
  {
  }

  /** MatchEnd, on positions: its end is a match, no longer match exists, and None means no match at all. */
  lemma MatchEndIsLongestAt(pat: Pattern, text: string, p: nat)
    requires p <= |text|
    ensures MatchEnd(pat, text, p).Some? ==> MatchesAt(pat, text, p, MatchEnd(pat, text, p).value)
    ensures forall e :: p <= e <= |text| && MatchesAt(pat, text, p, e) ==>
      MatchEnd(pat, text, p).Some? && e <= MatchEnd(pat, text, p).value
  {
    var n := SchemeAt(text, p);
    if n > 0 {
      var q := RunEnd(pat, text, p + n);
      forall e | p <= e <= |text| && MatchesAt(pat, text, p, e)
        ensures MatchEnd(pat, text, p).Some? && e <= MatchEnd(pat, text, p).value
      {
        if pat.RequiredFinal? {
          assert IsLooseUrlChar(text[e - 1]);
          assert e - 1 < q;
        } else {
          assert IsUrlChar(text[e - 1]);
          assert e <= q;
        }
      }
    }
  }

  /** MatchEnd finds the longest word of the pattern's language that starts at `p`, and None exactly when there is none. */
  lemma MatchEndIsLongestMatch(pat: Pattern, text: string, p: nat)
    requires p <= |text|
    ensures MatchEnd(pat, text, p).Some? ==> InLang(pat, text[p..MatchEnd(pat, text, p).value])
    ensures MatchEnd(pat, text, p).Some? ==>
      forall e :: MatchEnd(pat, text, p).value < e <= |text| ==> !InLang(pat, text[p..e])
    ensures MatchEnd(pat, text, p).None? ==> forall e :: p <= e <= |text| ==> !InLang(pat, text[p..e])
  {
    MatchEndIsLongestAt(pat, text, p);
    forall e | p <= e <= |text|
      ensures InLang(pat, text[p..e]) <==> MatchesAt(pat, text, p, e)
    {
      InLangSlice(pat, text, p, e);
    }
  }

  /** One match: `start` is where `re` found it, `end` is one past its last character. */
  datatype Span = Span(start: nat, end: nat)

  /**
   * `re.finditer(pattern, text)` from `from` on: try a match at each position
   * in turn; after a match, resume at its end (matches never overlap).
   */
  function Scan(pat: Pattern, text: string, from: nat): (spans: seq<Span>)
    requires from <= |text|
    decreases |text| - from
    ensures forall k :: 0 <= k < |spans| ==>
      from <= spans[k].start < spans[k].end <= |text| &&
      MatchEnd(pat, text, spans[k].start) == Some(spans[k].end)
    ensures forall k :: 0 <= k < |spans| - 1 ==> spans[k].end <= spans[k + 1].start
  {
    if from == |text| then []
    else
      match MatchEnd(pat, text, from)
      case Some(e) => [Span(from, e)] + Scan(pat, text, e)
      case None => Scan(pat, text, from + 1)
  }

  /** Some span of `spans` contains position `p`. */
  predicate Covers(spans: seq<Span>, p: nat) {
    exists k :: 0 <= k < |spans| && spans[k].start <= p < spans[k].end
  }

  lemma CoversCons(first: Span, rest: seq<Span>, p: nat)
    requires Covers(rest, p)
    ensures Covers([first] + rest, p)
  {
    var k :| 0 <= k < |rest| && rest[k].start <= p < rest[k].end;
    assert ([first] + rest)[k + 1] == rest[k];
  }

  lemma CoversFirst(first: Span, rest: seq<Span>, p: nat)
    requires first.start <= p < first.end
    ensures Covers([first] + rest, p)
  {
    assert ([first] + rest)[0] == first;
  }

  /** Every position where a match could start lies inside one of the spans `re.finditer` reports: no match is skipped. */
  lemma {:induction false} ScanComplete(pat: Pattern, text: string, from: nat, p: nat)
    requires from <= p < |text| && MatchEnd(pat, text, p).Some?
    ensures Covers(Scan(pat, text, from), p)
    decreases |text| - from
  {
    var next, hit := ScanUnfold(pat, text, from);
    if hit && p < next {
      CoversFirst(Span(from, next), Scan(pat, text, next), p);
    } else {
      assert hit || p != from;
      ScanComplete(pat, text, next, p);
      if hit {
        CoversCons(Span(from, next), Scan(pat, text, next), p);
      }
    }
  }

  /** One step of `finditer`: a match at `from` is reported and the scan resumes at its end; otherwise it moves one position on. */
  lemma ScanUnfold(pat: Pattern, text: string, from: nat) returns (next: nat, hit: bool)
    requires from < |text|
    ensures from < next <= |text|
    ensures hit == MatchEnd(pat, text, from).Some?
    ensures hit ==> Scan(pat, text, from) == [Span(from, next)] + Scan(pat, text, next)
    ensures !hit ==> next == from + 1 && Scan(pat, text, from) == Scan(pat, text, next)
  {
    match MatchEnd(pat, text, from)
    case Some(e) => next, hit := e, true;
    case None => next, hit := from + 1, false;
  }

  /**
   * No match starts within the last seven characters: a match is a scheme of
   * at least seven characters followed by at least one more.
   */
  lemma {:induction false} NoMatchNearEnd(pat: Pattern, text: string, p: nat)
    requires p <= |text| < p + 8
    ensures Scan(pat, text, p) == []
    decreases |text| - p
  {
    if p < |text| {
      assert MatchEnd(pat, text, p).None?;
      NoMatchNearEnd(pat, text, p + 1);
    }
  }

  /** The matched text of each span: `match.group(0)`, or what `re.findall` returns. */
  function FindAll(pat: Pattern, text: string): (urls: seq<string>)
    ensures |urls| == |Scan(pat, text, 0)|
    ensures forall k :: 0 <= k < |urls| ==>
      urls[k] == text[Scan(pat, text, 0)[k].start..Scan(pat, text, 0)[k].end]
  {
    var spans := Scan(pat, text, 0);
    seq(|spans|, k requires 0 <= k < |spans| => text[spans[k].start..spans[k].end])
  }

  /** The characters of `http://` and `https://` belong to every repeated class. */
  lemma SchemeCharsInRun(pat: Pattern, text: string, p: nat)
    requires SchemeAt(text, p) > 0
    ensures forall k :: p <= k < p + SchemeAt(text, p) ==> InRun(pat, text[k])
  {
    var n := SchemeAt(text, p);
    var scheme := if n == 8 then "https://" else "http://";
    assert text[p..p + n] == scheme;
    forall k | p <= k < p + n
      ensures InRun(pat, text[k])
    {
      assert text[k] == scheme[k - p];
      assert text[k] in {'h', 't', 'p', 's', ':', '/'};
    }
  }

  /** A matched text starts with its scheme, and every one of its characters is in the pattern's repeated class. */
  lemma MatchedTextShape(pat: Pattern, text: string, p: nat, e: nat)
    requires p <= |text| && MatchEnd(pat, text, p) == Some(e)
    ensures HasScheme(text[p..e])
    ensures forall k :: p <= k < e ==> InRun(pat, text[k])
    ensures pat.RequiredFinal? ==> IsFinalChar(text[e - 1])
  {
    MatchEndIsLongestAt(pat, text, p);
    SchemeCharsInRun(pat, text, p);
    var n := SchemeAt(text, p);
    if n == 8 {
      assert text[p..e][..8] == text[p..p + 8];
    } else {
      assert text[p..e][..7] == text[p..p + 7];
    }
    if pat.RequiredFinal? {
      assert forall k :: p + n <= k < e - 1 ==> IsLooseUrlChar(text[k]);
    }
  }

  /** The slice `text[p..e]` of a match has a scheme and only characters of the pattern's repeated class. */
  lemma MatchedSliceShape(pat: Pattern, text: string, p: nat, e: nat)
    requires p <= |text| && MatchEnd(pat, text, p) == Some(e)
    ensures HasScheme(text[p..e]) && forall k :: 0 <= k < |text[p..e]| ==> InRun(pat, text[p..e][k])
  {
    MatchedTextShape(pat, text, p, e);
    var u := text[p..e];
    forall k | 0 <= k < |u| ensures InRun(pat, u[k]) {
      assert u[k] == text[p + k];
    }
  }

  /** Every string `FindAll` returns has a scheme and only characters of the pattern's repeated class. */
  lemma FindAllShape(pat: Pattern, text: string)
    ensures forall u :: u in FindAll(pat, text) ==>
      HasScheme(u) && forall k :: 0 <= k < |u| ==> InRun(pat, u[k])
  {
    var spans := Scan(pat, text, 0);
    var urls := FindAll(pat, text);
    forall u | u in urls
      ensures HasScheme(u) && forall k :: 0 <= k < |u| ==> InRun(pat, u[k])
    {
      var i :| 0 <= i < |urls| && urls[i] == u;
      assert u == text[spans[i].start..spans[i].end];
      MatchedSliceShape(pat, text, spans[i].start, spans[i].end);
    }
  }

  /** Trimming trailing characters other than '/' never cuts into the scheme, and keeps only characters of the original. */
  lemma TrimKeepsScheme(u: string, chars: set<char>)
    requires HasScheme(u) && '/' !in chars
    ensures HasScheme(RStrip(u, chars))
    ensures |RStrip(u, chars)| >= 7
  {
    var r := RStrip(u, chars);
    var n := if "https://" <= u then 8 else 7;
    assert u[n - 1] == '/';
    assert |r| >= n;
    assert r[..n] == u[..n];
  }

  /**
   * A URL of the first two patterns' class that has a character after its
   * scheme is found again, whole and alone, when PlainRun or OptionalTail is
   * run over it: re-extraction is the identity on such URLs.
   */
  lemma {:induction false} ReparseIsIdentity(u: string)
    requires HasScheme(u) && |u| > SchemeAt(u, 0)
    requires forall k :: 0 <= k < |u| ==> IsUrlChar(u[k])
    ensures FindAll(PlainRun, u) == [u]
    ensures FindAll(OptionalTail, u) == [u]
  {
    var n := SchemeAt(u, 0);
    assert n > 0 by {
      if "https://" <= u { assert u[..8] == "https://"; } else { assert u[..7] == "http://"; }
    }
    assert RunEnd(PlainRun, u, n) == |u|;
    assert MatchEnd(PlainRun, u, 0) == Some(|u|);
    assert Scan(PlainRun, u, 0) == [Span(0, |u|)] + Scan(PlainRun, u, |u|);
    assert Scan(PlainRun, u, 0) == [Span(0, |u|)];
    OptionalGroupNeverFires(u, 0);
    assert Scan(OptionalTail, u, 0) == [Span(0, |u|)] + Scan(OptionalTail, u, |u|);
    assert Scan(OptionalTail, u, 0) == [Span(0, |u|)];
    assert u[0..|u|] == u;
  }

  /**
   * A URL of RequiredFinal's class that ends in a final character, with at
   * least one character between it and the scheme, is found again, whole and
   * alone, when RequiredFinal is run over it.
   */
  lemma {:induction false} ReparseFinalIsIdentity(u: string)
    requires HasScheme(u) && |u| > SchemeAt(u, 0) + 1
    requires forall k :: 0 <= k < |u| ==> IsLooseUrlChar(u[k])
    requires IsFinalChar(u[|u| - 1])
    ensures FindAll(RequiredFinal, u) == [u]
  {
    var n := SchemeAt(u, 0);
    assert n > 0 by {
      if "https://" <= u { assert u[..8] == "https://"; } else { assert u[..7] == "http://"; }
    }
    assert RunEnd(RequiredFinal, u, n) == |u|;
    assert LastFinal(u, n + 1, |u|) == Some(|u| - 1);
    assert MatchEnd(RequiredFinal, u, 0) == Some(|u|);
    assert Scan(RequiredFinal, u, 0) == [Span(0, |u|)] + Scan(RequiredFinal, u, |u|);
    assert Scan(RequiredFinal, u, 0) == [Span(0, |u|)];
    assert u[0..|u|] == u;
  }
}
