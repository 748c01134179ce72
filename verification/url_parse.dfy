/**
 * The part of `urllib.parse.urlparse` the classifiers use: the network
 * location (the authority component, section 3.2 of RFC 3986) of an
 * `http://` or `https://` URL, and what follows it up to the query or the
 * fragment. That second part is `urlparse`'s path together with any
 * `;params` it would split off.
 */
module UrlParse {
  import opened Text

  datatype Parts = Parts(netloc: string, path: string)

  /** Length of the leading `https://` or `http://`, 0 when there is neither. */
  function SchemeLength(url: string): (n: nat)
    ensures n == 0 || n == 7 || n == 8
    ensures n <= |url|
  {
    if "https://" <= url then 8 else if "http://" <= url then 7 else 0
  }

  /** The first index at or after `i` whose character is in `stops`, or `|s|`. */
  function IndexOfAny(s: string, i: nat, stops: set<char>): (j: nat)
    requires i <= |s|
    decreases |s| - i
    ensures i <= j <= |s|
    ensures forall k :: i <= k < j ==> s[k] !in stops
    ensures j == |s| || s[j] in stops
  {
    if i == |s| || s[i] in stops then i else IndexOfAny(s, i + 1, stops)
  }

  /** Where the netloc ends: the first `/`, `?` or `#` after the scheme (the netloc is empty without a scheme). */
  function HostEnd(url: string): (e: nat)
    ensures SchemeLength(url) <= e <= |url|
    ensures SchemeLength(url) == 0 ==> e == 0
    ensures forall k :: SchemeLength(url) <= k < e ==> url[k] !in {'/', '?', '#'}
    ensures SchemeLength(url) > 0 ==> e == |url| || url[e] in {'/', '?', '#'}
  {
    var start := SchemeLength(url);
    if start == 0 then 0 else IndexOfAny(url, start, {'/', '?', '#'})
  }

  /** Where the path ends: the first `?` or `#` after the netloc. */
  function PathEnd(url: string): (e: nat)
    ensures HostEnd(url) <= e <= |url|
    ensures forall k :: HostEnd(url) <= k < e ==> url[k] !in {'?', '#'}
    ensures e == |url| || url[e] in {'?', '#'}
  {
    IndexOfAny(url, HostEnd(url), {'?', '#'})
  }

  /**
   * The netloc runs from after `//` to the first `/`, `?` or `#`; the path
   * from there to the first `?` or `#` (query and fragment follow it).
   */
  function ParseUrl(url: string): (parts: Parts)
    ensures url[..SchemeLength(url)] + parts.netloc + parts.path <= url
    ensures forall k :: 0 <= k < |parts.netloc| ==> parts.netloc[k] !in {'/', '?', '#'}
    ensures forall k :: 0 <= k < |parts.path| ==> parts.path[k] !in {'?', '#'}
    ensures SchemeLength(url) > 0 && parts.path != [] ==> parts.path[0] == '/'
    ensures var n := SchemeLength(url) + |parts.netloc| + |parts.path|;
      n == |url| || url[n] in {'?', '#'}
  {
    var s, h, e := SchemeLength(url), HostEnd(url), PathEnd(url);
    assert url[..s] + url[s..h] + url[h..e] == url[..e];
    assert forall k :: 0 <= k < h - s ==> url[s..h][k] == url[s + k];
    Parts(url[s..h], url[h..e])
  }
}
