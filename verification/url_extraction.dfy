/**
 * url_extraction.py: the URLs of an analysis report, trimmed of trailing
 * quotes and separators and deduplicated; each labelled with a type taken
 * from its host and a category taken from keywords anywhere in it, a GitHub
 * owner/repository pair and a description; and bucketed by type and by
 * category in ascending order.
 */
module UrlExtraction {
  import opened Text
  import opened UrlScan
  import opened UrlParse
  import opened Rules
  import opened Grouping

  /** The characters `url.rstrip('"\',;:')` removes. */
  const StrippedMarks: set<char> := {'"', '\'', ',', ';', ':'}

  /** A URL as `extract_urls_from_file` returns it: a scheme, only characters of the pattern, no stripped mark at the end. */
  predicate IsCleanUrl(u: string) {
    && HasScheme(u)
    && (forall i :: 0 <= i < |u| ==> IsLooseUrlChar(u[i]))
    && u[|u| - 1] !in StrippedMarks
  }

  /** Stripping the trailing marks off a match leaves a clean URL. */
  lemma TrimmedMatchIsClean(m: string)
    requires HasScheme(m) && forall i :: 0 <= i < |m| ==> IsLooseUrlChar(m[i])
    ensures IsCleanUrl(RStrip(m, StrippedMarks))
  {
    var u := RStrip(m, StrippedMarks);
    TrimKeepsScheme(m, StrippedMarks);
    assert forall i :: 0 <= i < |u| ==> u[i] == m[i];
  }

  /** Every match of the pattern, stripped, is a clean URL. */
  lemma TrimmedMatchesAreClean(content: string)
    ensures forall k :: 0 <= k < |FindAll(RequiredFinal, content)| ==>
      IsCleanUrl(RStrip(FindAll(RequiredFinal, content)[k], StrippedMarks))
  {
    var matches := FindAll(RequiredFinal, content);
    FindAllShape(RequiredFinal, content);
    forall k | 0 <= k < |matches| ensures IsCleanUrl(RStrip(matches[k], StrippedMarks)) {
      assert matches[k] in matches;
      TrimmedMatchIsClean(matches[k]);
    }
  }

  /** The stripped matches, deduplicated: each once, nothing else, all clean. */
  lemma DistinctCleanUrls(content: string, cleaned: seq<string>)
    requires |cleaned| == |FindAll(RequiredFinal, content)|
    requires forall k :: 0 <= k < |cleaned| ==> cleaned[k] == RStrip(FindAll(RequiredFinal, content)[k], StrippedMarks)
    ensures forall u :: u in Distinct(cleaned) <==>
      exists k :: 0 <= k < |FindAll(RequiredFinal, content)| &&
        u == RStrip(FindAll(RequiredFinal, content)[k], StrippedMarks)
    ensures forall u :: u in Distinct(cleaned) ==> IsCleanUrl(u)
  {
    TrimmedMatchesAreClean(content);
    forall u ensures u in Distinct(cleaned) <==> exists k :: 0 <= k < |cleaned| && u == cleaned[k] {
      if u in cleaned {
        var k :| 0 <= k < |cleaned| && cleaned[k] == u;
      }
    }
  }

  /**
   * `extract_urls_from_file` on the file's text: every match stripped of
   * trailing marks, then `list(set(...))`: each stripped match exactly once,
   * nothing else (the order of a Python set is not modelled).
   */
  method ExtractUrlsFromFile(content: string) returns (urls: seq<string>)
    ensures NoDuplicates(urls)
    ensures forall u :: u in urls <==>
      exists k :: 0 <= k < |FindAll(RequiredFinal, content)| &&
        u == RStrip(FindAll(RequiredFinal, content)[k], StrippedMarks)
    ensures forall u :: u in urls ==> IsCleanUrl(u)
  {
    var matches := FindAll(RequiredFinal, content);
    var cleaned: seq<string> := [];
    for i := 0 to |matches|
      invariant cleaned == RStripEach(matches[..i], StrippedMarks)
    {
      cleaned := cleaned + [RStrip(matches[i], StrippedMarks)];
      PrefixSnoc(matches, i);
    }
    PrefixAll(matches);
    RStripEachAt(matches, StrippedMarks);
    urls := Distinct(cleaned);
    DistinctCleanUrls(content, cleaned);
  }

  /**
   * A stored URL that does not end in `.`, with a character between its
   * scheme and its last one, is found again, whole and alone, by the pattern.
   */
  lemma CleanUrlIsRefound(u: string)
    requires IsCleanUrl(u) && u[|u| - 1] != '.' && |u| > SchemeAt(u, 0) + 1
    ensures FindAll(RequiredFinal, u) == [u]
  {
    assert IsFinalChar(u[|u| - 1]);
    ReparseFinalIsIdentity(u);
  }

  /**
   * A stored URL that ends in `.` is found again without it: the match
   * `http://a.b.:` is stored as `http://a.b.`, which matches as `http://a.b`.
   */
  lemma DottedUrlIsRefoundShorter()
    ensures FindAll(RequiredFinal, "http://a.b.:") == ["http://a.b.:"]
    ensures RStrip("http://a.b.:", StrippedMarks) == "http://a.b."
    ensures FindAll(RequiredFinal, "http://a.b.") == ["http://a.b"]
  {
    ColonEndedUrlMatches();
    var m, t := "http://a.b.:", "http://a.b.";
    assert m[..|m| - 1] == t && m[|m| - 1] in StrippedMarks;
    assert t[|t| - 1] !in StrippedMarks;
    DottedUrlMatchesShorter();
  }

  /** The pattern needs two characters after the scheme, so a URL with at most one holds no match. */
  lemma ShortUrlHoldsNoMatch(u: string)
    requires HasScheme(u) && |u| <= SchemeAt(u, 0) + 1
    ensures FindAll(RequiredFinal, u) == []
  {
    var n := SchemeAt(u, 0);
    assert n > 0 && u[1] == 't' by {
      if "https://" <= u { assert u[..8] == "https://"; } else { assert u[..7] == "http://"; }
    }
    assert MatchEnd(RequiredFinal, u, 0) == None;
    assert SchemeAt(u, 1) == 0 by {
      assert !OccursAt(u, "http://", 1) && !OccursAt(u, "https://", 1);
    }
    NoMatchNearEnd(RequiredFinal, u, 2);
    assert Scan(RequiredFinal, u, 1) == [];
    assert Scan(RequiredFinal, u, 0) == [];
  }

  /**
   * A stored URL with at most one character after its scheme is never found
   * again, since the pattern needs two: the match `http://a:` is stored as
   * `http://a`, in which the pattern finds nothing.
   */
  lemma ShortUrlIsNotRefound()
    ensures FindAll(RequiredFinal, "http://a:") == ["http://a:"]
    ensures RStrip("http://a:", StrippedMarks) == "http://a"
    ensures FindAll(RequiredFinal, "http://a") == []
  {
    var m, t := "http://a:", "http://a";
    assert SchemeAt(m, 0) == 7 by {
      assert m[..7] == "http://";
    }
    ReparseFinalIsIdentity(m);
    assert m[..|m| - 1] == t && m[|m| - 1] in StrippedMarks;
    assert t[|t| - 1] !in StrippedMarks;
    assert SchemeAt(t, 0) == 7 by {
      assert t[..7] == "http://";
    }
    ShortUrlHoldsNoMatch(t);
  }

  /** `http://a.b.:` is one match: `:` may end it. */
  lemma ColonEndedUrlMatches()
    ensures FindAll(RequiredFinal, "http://a.b.:") == ["http://a.b.:"]
  {
    var m := "http://a.b.:";
    assert SchemeAt(m, 0) == 7 by {
      assert m[..7] == "http://";
    }
    ReparseFinalIsIdentity(m);
  }

  /** On `http://a.b.` the run gives back its last `.`, which cannot end a match. */
  lemma DottedUrlMatchesShorter()
    ensures FindAll(RequiredFinal, "http://a.b.") == ["http://a.b"]
  {
    var t := "http://a.b.";
    assert SchemeAt(t, 0) == 7 by {
      assert t[0..7] == "http://";
    }
    assert RunEnd(RequiredFinal, t, 7) == 11;
    assert LastFinal(t, 8, 11) == Some(9);
    NoMatchNearEnd(RequiredFinal, t, 10);
    assert Scan(RequiredFinal, t, 0) == [Span(0, 10)];
    assert t[0..10] == "http://a.b";
  }

  /** The type branches after the GitHub one, in source order; each tests the lower-cased host. */
  function TypeRules(): seq<Rule<string>> {
    [
    Rule(AnyOf(["lovable.dev"]), "lovable"),
    Rule(AnyOf(["supabase.co"]), "supabase"),
    Rule(AnyOf(["discord.gg", "discord.com", "dcbadge"]), "discord"),
    Rule(AnyOf(["shields.io"]), "badge"),
    Rule(AnyOf(["netlify.app"]), "netlify"),
    Rule(AnyOf(["cal.com"]), "cal"),
    Rule(AnyOf(["onbiela.dev"]), "onbiela"),
    Rule(AnyOf(["macaly-app.com"]), "macaly"),
    Rule(AnyOf(["microsoft.com", "nuget.org", "pypi.org"]), "package"),
    Rule(AnyOf(["docker.com", "hub.docker.com"]), "docker"),
    Rule(AnyOf(["kubernetes.io"]), "kubernetes"),
    Rule(AnyOf(["portainer.io"]), "portainer"),
    Rule(AnyOf(["vaultproject.io"]), "vault"),
    Rule(AnyOf(["ollama.ai"]), "ai"),
    Rule(AnyOf(["opensource.org"]), "license")
    ]
  }

  /** The category branches in source order; each tests the whole lower-cased URL. */
  function CategoryRules(): seq<Rule<string>> {
    [
    Rule(AnyOf(["ai", "agent", "chatgpt", "gemini", "ollama", "machine-learning", "ml"]), "ai"),
    Rule(AnyOf(["docker", "kubernetes", "portainer", "proxmox", "infrastructure", "deployment", "vault", "system"]), "infrastructure"),
    Rule(AnyOf(["framework", "package", "pypi", "nuget", "microsoft", "dotnet"]), "devtools"),
    Rule(AnyOf(["3d", "modeling", "animation", "media", "hologram", "design"]), "creative"),
    Rule(AnyOf(["security", "compliance", "dsgvo", "policy", "ethik", "certificate", "eid"]), "security"),
    Rule(AnyOf(["database", "supabase", "data", "pipeline", "analytics"]), "data"),
    Rule(AnyOf(["lovable", "netlify", "website", "web", "platform"]), "platforms"),
    Rule(AnyOf(["documentation", "docs", "learn", "readme"]), "documentation")
    ]
  }

  /** The type of a lower-cased host and path: the GitHub branch first, then the first type rule that holds, else "other". */
  function TypeOf(domain: string, path: string): string
  {
    if Contains(domain, "github.com") then
      if Contains(path, "/user-attachments/assets/") then "asset" else "github"
    else Lookup(TypeRules(), domain, "other")
  }

  /** The pair `categorize_url` returns. */
  datatype Kind = Kind(urlType: string, category: string)

  /** The type `categorize_url` gives a URL: from its lower-cased host and path. */
  function UrlTypeOf(url: string): string
  {
    TypeOf(Lower(ParseUrl(url).netloc), Lower(ParseUrl(url).path))
  }

  /** The category `categorize_url` gives a URL: from the whole lower-cased URL, the first branch with a keyword in it. */
  function UrlCategoryOf(url: string): string
  {
    Lookup(CategoryRules(), Lower(url), "other")
  }

  /** `categorize_url`: the type and the category, each computed on its own. */
  function CategorizeUrl(url: string): Kind
  {
    Kind(UrlTypeOf(url), UrlCategoryOf(url))
  }

  /** Where the category branches sit and which ones are never "other". */
  lemma CategoryRulesAt()
    ensures |CategoryRules()| == 8
    ensures CategoryRules()[0] == Rule(AnyOf(["ai", "agent", "chatgpt", "gemini", "ollama", "machine-learning", "ml"]), "ai")
    ensures forall i :: 0 <= i < |CategoryRules()| ==> CategoryRules()[i].result != "other"
    ensures forall i :: 1 <= i < |CategoryRules()| ==> CategoryRules()[i].result != "ai"
  {
  }

  /** No type rule gives "other" or one of the GitHub types. */
  lemma TypeRuleResults()
    ensures forall i :: 0 <= i < |TypeRules()| ==>
      TypeRules()[i].result !in {"other", "asset", "github"}
  {
  }

  /**
   * The type is "other" exactly when the host names no GitHub and no type
   * rule holds of it; a GitHub host gives "asset" exactly when the path holds
   * the attachments folder, "github" otherwise.
   */
  lemma TypeClassification(url: string)
    ensures UrlTypeOf(url) == "other" <==>
      !Contains(Lower(ParseUrl(url).netloc), "github.com") &&
      FirstMatch(TypeRules(), Lower(ParseUrl(url).netloc)).None?
    ensures Contains(Lower(ParseUrl(url).netloc), "github.com") ==>
      (UrlTypeOf(url) == "asset" <==> Contains(Lower(ParseUrl(url).path), "/user-attachments/assets/")) &&
      (UrlTypeOf(url) == "github" <==> !Contains(Lower(ParseUrl(url).path), "/user-attachments/assets/"))
    ensures UrlTypeOf(url) in {"asset", "github"} ==> Contains(Lower(ParseUrl(url).netloc), "github.com")
  {
    TypeRuleResults();
  }

  /**
   * The category does not look at the type: it is "ai" exactly when the
   * lower-cased URL holds one of the AI keywords, whatever later keywords it
   * holds too, and "other" exactly when it holds no keyword of any branch.
   */
  lemma CategoryClassification(url: string)
    ensures UrlCategoryOf(url) == "ai" <==>
      AnyIn(Lower(url), ["ai", "agent", "chatgpt", "gemini", "ollama", "machine-learning", "ml"])
    ensures UrlCategoryOf(url) == "other" <==>
      forall i :: 0 <= i < |CategoryRules()| ==> !Holds(CategoryRules()[i].test, Lower(url))
    ensures UrlCategoryOf(url) == UrlCategoryOf(Lower(url))
  {
    CategoryRulesAt();
    LowerIdempotent(url);
  }

  /** `"ai" in "portainer"`: the keyword "portainer" of the infrastructure branch can never decide it. */
  lemma PortainerKeywordIsAi(url: string)
    requires Contains(Lower(url), "portainer")
    ensures UrlCategoryOf(url) == "ai"
  {
    assert OccursAt("portainer", "ai", 4);
    ContainsTransitive(Lower(url), "portainer", "ai");
    CategoryClassification(url);
  }

  /** `"ml" in ".html"`: every link to an HTML page is filed under "ai". */
  lemma HtmlPagesAreAi(url: string)
    requires Contains(Lower(url), ".html")
    ensures UrlCategoryOf(url) == "ai"
  {
    assert OccursAt(".html", "ml", 3);
    ContainsTransitive(Lower(url), ".html", "ml");
    var keywords := ["ai", "agent", "chatgpt", "gemini", "ollama", "machine-learning", "ml"];
    assert keywords[6] == "ml";
    assert AnyIn(Lower(url), keywords);
    CategoryClassification(url);
  }

  /** `"ai" in "/main/"`: every link into a `main` branch is filed under "ai". */
  lemma MainBranchIsAi(url: string)
    requires Contains(Lower(url), "/main/")
    ensures UrlCategoryOf(url) == "ai"
  {
    assert OccursAt("/main/", "ai", 2);
    ContainsTransitive(Lower(url), "/main/", "ai");
    CategoryClassification(url);
  }

  /** `get_repo_name`: the first two `/`-separated pieces of what follows the first `github.com/`, up to the next one. */
  function GetRepoName(url: string): string
  {
    if Contains(url, "github.com") then
      var parts := Split(url, "github.com/");
      if |parts| > 1 then
        var repoPath := Split(parts[1], "/");
        if |repoPath| >= 2 then repoPath[0] + "/" + repoPath[1] else "N/A"
      else "N/A"
    else "N/A"
  }

  /** Without `github.com/` there is no repository. */
  lemma RepoNameNeedsGitHub(url: string)
    ensures !Contains(url, "github.com/") ==> GetRepoName(url) == "N/A"
  {
    SplitAfterFirst(url, "github.com/");
  }

  /**
   * `url` reads as `pre`, the first `github.com/`, an owner, a `/`, a name and
   * a tail at which the name's piece ends: the end of the URL, a `/`, or the
   * next `github.com/`. Neither the owner with its `/` nor the name with the
   * tail's first character holds a `github.com/` that would end the piece
   * sooner.
   */
  predicate RepoPathAt(url: string, pre: string, owner: string, name: string, tail: string) {
    && url == pre + "github.com/" + owner + "/" + name + tail
    && !Contains(pre, "github.com/")
    && !Contains(owner, "/") && !Contains(owner + "/", "github.com/")
    && !Contains(name, "/") && !Contains(name + tail[..if tail == [] then 0 else 1], "github.com/")
    && (tail == [] || "/" <= tail || "github.com/" <= tail)
  }

  /** Only the last character of `github.com/` is a `/`, and only its first is a `g`. */
  lemma MarkerChars()
    ensures |"github.com/"| == 11 && "github.com/"[10] == '/'
    ensures forall k :: 0 <= k < 10 ==> "github.com/"[k] != '/'
    ensures forall k :: 1 <= k < 11 ==> "github.com/"[k] != 'g'
  {
  }

  /** Inside an occurrence of `github.com/`, only its last position holds a `/`. */
  lemma SlashInsideMarker(s: string, j: nat, p: nat)
    requires j <= p < j + 10 && p < |s|
    ensures OccursAt(s, "github.com/", j) ==> s[p] != '/'
  {
    MarkerChars();
    if OccursAt(s, "github.com/", j) {
      assert s[p] == s[j..j + 11][p - j];
    }
  }

  /** Text without a `/` holds no `github.com/`. */
  lemma NoSlashNoMarker(s: string)
    requires !Contains(s, "/")
    ensures !Contains(s, "github.com/")
  {
    assert OccursAt("github.com/", "/", 10);
    if Contains(s, "github.com/") {
      ContainsTransitive(s, "github.com/", "/");
    }
  }

  /** The first `github.com/` of `pre + "github.com/" + rest` is the one after `pre` when `pre` holds none. */
  lemma FirstMarkerAfter(pre: string, rest: string)
    requires !Contains(pre, "github.com/")
    ensures Split(pre + "github.com/" + rest, "github.com/") == [pre] + Split(rest, "github.com/")
  {
    var url := pre + "github.com/" + rest;
    forall j: nat | j < |pre|
      ensures !OccursAt(url, "github.com/", j)
    {
      if j + 11 <= |pre| {
        assert url[j..j + 11] == pre[j..j + 11];
        assert !OccursAt(pre, "github.com/", j);
      } else if j + 11 <= |url| {
        MarkerChars();
        assert url[j..j + 11][|pre| - j] == 'g';
      }
    }
    SplitAt(url, "github.com/", pre, rest);
  }

  /** An occurrence of `github.com/` that ends inside `owner/name` would put a `github.com/` into the owner with its `/`. */
  lemma NoMarkerInOwnerName(s: string, owner: string, name: string, t: string, j: nat)
    requires s == owner + "/" + name + t
    requires !Contains(owner, "/") && !Contains(owner + "/", "github.com/") && !Contains(name, "/")
    requires j + 10 < |owner| + 1 + |name|
    ensures !OccursAt(s, "github.com/", j)
  {
    var i := j + 10;
    MarkerChars();
    if i < |owner| {
      CharAbsent(owner, '/');
      assert s[j..j + 11][10] == owner[i] != '/';
    } else if i == |owner| {
      assert s[j..j + 11] == (owner + "/")[j..j + 11];
      assert !OccursAt(owner + "/", "github.com/", j);
    } else {
      CharAbsent(name, '/');
      assert s[j..j + 11][10] == name[i - |owner| - 1] != '/';
    }
  }

  /** Before a tail that starts with the next `github.com/`, the piece after the first marker is exactly `owner/name`. */
  lemma PieceBeforeMarker(owner: string, name: string, tail: string)
    requires !Contains(owner, "/") && !Contains(owner + "/", "github.com/") && !Contains(name, "/")
    requires "github.com/" <= tail
    ensures Split(owner + "/" + name + tail, "github.com/")[0] == owner + "/" + name
  {
    var m := owner + "/" + name;
    var rest := m + tail;
    assert OccursAt(rest, "github.com/", |m|) by {
      assert rest[|m|..|m| + 11] == tail[..11];
    }
    forall j: nat | j < |m|
      ensures !OccursAt(rest, "github.com/", j)
    {
      if j + 10 < |m| {
        NoMarkerInOwnerName(rest, owner, name, tail, j);
      } else {
        SlashInsideMarker(rest, |m|, j + 10);
        assert rest[j..j + 11][10] == rest[j + 10];
      }
    }
    assert rest == m + "github.com/" + tail[11..] by {
      assert tail == tail[..11] + tail[11..];
    }
    SplitAt(rest, "github.com/", m, tail[11..]);
  }

  /** Before a tail that starts with `/`, the piece after the first marker begins with `owner/name/`. */
  lemma PieceBeforeSlash(owner: string, name: string, tail: string)
    requires !Contains(owner, "/") && !Contains(owner + "/", "github.com/")
    requires !Contains(name, "/") && !Contains(name + "/", "github.com/")
    requires "/" <= tail
    ensures owner + "/" + name + "/" <= Split(owner + "/" + name + tail, "github.com/")[0]
  {
    var m := owner + "/" + name;
    var rest := m + tail;
    assert rest[|m|] == '/' by {
      assert rest[|m|] == tail[..1][0];
    }
    forall j: nat | j <= |m|
      ensures !OccursAt(rest, "github.com/", j)
    {
      if j + 10 < |m| {
        NoMarkerInOwnerName(rest, owner, name, tail, j);
      } else if j + 10 > |m| {
        SlashInsideMarker(rest, j, |m|);
      } else if j <= |owner| {
        assert rest[|owner|] == '/';
        SlashInsideMarker(rest, j, |owner|);
      } else {
        var k := j - |owner| - 1;
        assert (name + "/")[k..k + 11] == rest[j..j + 11];
        assert !OccursAt(name + "/", "github.com/", k);
      }
    }
    SplitHeadKeeps(rest, "github.com/", |m| + 1);
    assert rest[..|m| + 1] == m + "/";
  }

  /**
   * The piece `split("github.com/")` keeps after the first marker is the
   * owner, a `/` and the name, followed by nothing or by a `/`.
   */
  lemma PieceAfterMarker(owner: string, name: string, tail: string) returns (x: string)
    requires !Contains(owner, "/") && !Contains(owner + "/", "github.com/")
    requires !Contains(name, "/") && !Contains(name + tail[..if tail == [] then 0 else 1], "github.com/")
    requires tail == [] || "/" <= tail || "github.com/" <= tail
    ensures Split(owner + "/" + name + tail, "github.com/")[0] == owner + "/" + name + x
    ensures x == [] || "/" <= x
  {
    var m := owner + "/" + name;
    if tail == [] {
      forall j: nat | j + 10 < |m|
        ensures !OccursAt(m, "github.com/", j)
      {
        NoMarkerInOwnerName(m, owner, name, [], j);
      }
      assert m + tail == m;
      x := [];
    } else if "github.com/" <= tail {
      PieceBeforeMarker(owner, name, tail);
      x := [];
    } else {
      assert tail[..1] == "/";
      PieceBeforeSlash(owner, name, tail);
      var piece := Split(m + tail, "github.com/")[0];
      x := piece[|m|..];
      assert piece == m + x by {
        assert piece == piece[..|m|] + x;
        assert piece[..|m|] == m;
      }
      assert x[..1] == piece[|m|..|m| + 1];
    }
  }

  /** Splitting `owner/name`, then nothing or a `/`, on `/` gives the owner and the name first. */
  lemma OwnerAndNameSplit(piece: string, owner: string, name: string, x: string)
    requires piece == owner + "/" + name + x
    requires !Contains(owner, "/") && !Contains(name, "/")
    requires x == [] || "/" <= x
    ensures |Split(piece, "/")| >= 2 && Split(piece, "/")[0] == owner && Split(piece, "/")[1] == name
  {
    assert piece == owner + "/" + (name + x);
    SplitAtFirstChar(piece, '/', owner, name + x);
    NameBeforeSlash(name, x);
  }

  /** The first piece of the name, then nothing or a `/`, split on `/` is the name. */
  lemma NameBeforeSlash(name: string, x: string)
    requires !Contains(name, "/")
    requires x == [] || "/" <= x
    ensures Split(name + x, "/")[0] == name
  {
    if x != [] {
      assert name + x == name + "/" + x[1..] by {
        assert x == x[..1] + x[1..];
      }
      SplitAtFirstChar(name + x, '/', name, x[1..]);
    } else {
      assert name + x == name;
    }
  }

  /** Whenever the URL reads as `RepoPathAt` says, `get_repo_name` returns that owner and name. */
  lemma RepoNameOfPath(url: string, pre: string, owner: string, name: string, tail: string)
    requires RepoPathAt(url, pre, owner, name, tail)
    ensures GetRepoName(url) == owner + "/" + name
  {
    var rest := owner + "/" + name + tail;
    FirstPieceOfPath(url, pre, rest);
    var piece := Split(rest, "github.com/")[0];
    var x := PieceAfterMarker(owner, name, tail);
    OwnerAndNameSplit(piece, owner, name, x);
    RepoNameFromPieces(url, piece, owner, name);
  }

  /** After a prefix without `github.com/`, the marker starts the second piece of `split`, and the URL names the domain. */
  lemma FirstPieceOfPath(url: string, pre: string, rest: string)
    requires url == pre + "github.com/" + rest && !Contains(pre, "github.com/")
    ensures |Split(url, "github.com/")| >= 2 && Split(url, "github.com/")[1] == Split(rest, "github.com/")[0]
    ensures Contains(url, "github.com")
  {
    FirstMarkerAfter(pre, rest);
    assert url[|pre|..|pre| + 10] == "github.com";
    assert OccursAt(url, "github.com", |pre|);
  }

  /** `get_repo_name` joins the first two `/`-pieces of the piece after the first `github.com/`. */
  lemma RepoNameFromPieces(url: string, piece: string, owner: string, name: string)
    requires Contains(url, "github.com")
    requires |Split(url, "github.com/")| >= 2 && Split(url, "github.com/")[1] == piece
    requires |Split(piece, "/")| >= 2 && Split(piece, "/")[0] == owner && Split(piece, "/")[1] == name
    ensures GetRepoName(url) == owner + "/" + name
  {
  }

  /** The concatenation behind RepoNameShape: the two rests join into one tail. */
  lemma NestedPieces(url: string, pre: string, g: string, mid: string, owner: string, d: string, name: string, tail2: string, tail1: string)
    requires url == pre + g + mid + tail1 && mid == owner + d + name + tail2
    requires (tail1 == [] || g <= tail1) && (tail2 == [] || d <= tail2)
    ensures url == pre + g + owner + d + name + (tail2 + tail1)
    ensures tail2 + tail1 == [] || d <= tail2 + tail1 || g <= tail2 + tail1
  {
    if tail2 != [] {
      assert (tail2 + tail1)[..|d|] == tail2[..|d|];
    }
  }

  /** The name followed by the first character of the tail holds no `github.com/`, whichever way the name's piece ends. */
  lemma NameEndAvoidsMarker(piece: string, owner: string, name: string, r2: string, r1: string)
    requires piece == owner + "/" + name + r2 && !Contains(piece, "github.com/") && !Contains(name, "/")
    requires (r2 == [] || "/" <= r2) && (r1 == [] || "github.com/" <= r1)
    ensures !Contains(name + (r2 + r1)[..if r2 + r1 == [] then 0 else 1], "github.com/")
  {
    var tail := r2 + r1;
    var t1 := tail[..if tail == [] then 0 else 1];
    if r2 == [] {
      assert tail == r1;
      assert t1 == [] || t1 == "g";
      CharAbsent(name, '/');
      CharAbsent(name + t1, '/');
      NoSlashNoMarker(name + t1);
    } else {
      assert t1 == "/";
      assert piece == owner + "/" + (name + "/") + r2[1..] by {
        assert r2 == r2[..1] + r2[1..];
      }
      AvoidsInside(piece, owner + "/", name + "/", r2[1..], "github.com/");
    }
  }

  /** The facts the two splits give about their pieces make a reading as `RepoPathAt` says. */
  lemma RepoPathOfPieces(url: string, pre: string, mid: string, owner: string, name: string, r2: string, r1: string)
    requires url == pre + "github.com/" + mid + r1 && mid == owner + "/" + name + r2
    requires (r1 == [] || "github.com/" <= r1) && (r2 == [] || "/" <= r2)
    requires !Contains(pre, "github.com/") && !Contains(mid, "github.com/")
    requires !Contains(owner, "/") && !Contains(name, "/")
    ensures RepoPathAt(url, pre, owner, name, r2 + r1)
  {
    NestedPieces(url, pre, "github.com/", mid, owner, "/", name, r2, r1);
    AvoidsInside(mid, [], owner + "/", name + r2, "github.com/");
    NameEndAvoidsMarker(mid, owner, name, r2, r1);
  }

  /** When `get_repo_name` finds two pieces, the URL reads as `RepoPathAt` says, with those pieces as owner and name. */
  lemma RepoPathOfSplit(url: string) returns (pre: string, owner: string, name: string, tail: string)
    requires |Split(url, "github.com/")| >= 2 && |Split(Split(url, "github.com/")[1], "/")| >= 2
    ensures RepoPathAt(url, pre, owner, name, tail)
  {
    var parts := Split(url, "github.com/");
    var segs := Split(parts[1], "/");
    var r1, r2 := SplitRest(url, "github.com/"), SplitRest(parts[1], "/");
    assert url == parts[0] + "github.com/" + parts[1] + r1 by {
      SplitFirstTwo(url, "github.com/");
    }
    assert parts[1] == segs[0] + "/" + segs[1] + r2 by {
      SplitFirstTwo(parts[1], "/");
    }
    assert !Contains(parts[0], "github.com/") && !Contains(parts[1], "github.com/") by {
      SplitPiecesAvoidSeparator(url, "github.com/");
    }
    assert !Contains(segs[0], "/") && !Contains(segs[1], "/") by {
      SplitPiecesAvoidSeparator(parts[1], "/");
    }
    RepoPathOfPieces(url, parts[0], parts[1], segs[0], segs[1], r2, r1);
    pre, owner, name, tail := parts[0], segs[0], segs[1], r2 + r1;
  }

  /**
   * A repository name other than "N/A" comes from a reading of the URL as
   * `RepoPathAt` says; with RepoNameOfPath, the name is the owner and name of
   * that reading, and "N/A" when there is none.
   */
  lemma RepoNameShape(url: string)
    ensures GetRepoName(url) != "N/A" ==>
      exists pre, owner, name, tail ::
        RepoPathAt(url, pre, owner, name, tail) && GetRepoName(url) == owner + "/" + name
  {
    if GetRepoName(url) != "N/A" {
      var pre, owner, name, tail := RepoPathOfSplit(url);
      RepoNameOfPath(url, pre, owner, name, tail);
    }
  }

  /** A repository whose owner is `N` and whose name is `A` reads as "N/A", like a URL with no repository. */
  lemma RepoNamedNA()
    ensures RepoPathAt("https://github.com/N/A", "https://", "N", "A", [])
    ensures GetRepoName("https://github.com/N/A") == "N/A"
  {
    assert !Contains("https://", "github.com/");
    assert !Contains("N/", "github.com/");
    assert !Contains("N", "/") by {
      CharAbsent("N", '/');
    }
    assert !Contains("A", "/") by {
      CharAbsent("A", '/');
    }
    assert "https://github.com/N/A" == "https://" + "github.com/" + "N" + "/" + "A" + [];
    RepoNameOfPath("https://github.com/N/A", "https://", "N", "A", []);
  }

  /** The descriptions `get_description` knows, by type. */
  function Descriptions(): map<string, string> {
    map[
      "github" := "GitHub Repository",
      "asset" := "GitHub Asset Bild/Datei",
      "lovable" := "Lovable.dev Projekt",
      "supabase" := "Supabase Backend/Database",
      "discord" := "Discord Server/Badge",
      "badge" := "Shields.io Status Badge",
      "netlify" := "Netlify Deployment",
      "onbiela" := "Onbiela.dev Platform",
      "macaly" := "Macaly App Platform",
      "package" := "Package Registry (NuGet/PyPI)",
      "docker" := "Docker Registry",
      "kubernetes" := "Kubernetes Platform",
      "portainer" := "Portainer Container Management",
      "vault" := "HashiCorp Vault",
      "ai" := "Ollama AI Platform",
      "license" := "Open Source Lizenz",
      "cal" := "Cal.com Scheduling"
    ]
  }

  /** `descriptions.get(url_type, "Web Resource")`. */
  function GetDescription(url: string, urlType: string): string
  {
    if urlType in Descriptions() then Descriptions()[urlType] else "Web Resource"
  }

  /** No description in the table is the fallback. */
  lemma DescriptionsAreNotFallback()
    ensures forall t :: t in Descriptions() ==> Descriptions()[t] != "Web Resource"
  {
  }

  /** The types the rules of the type chain give, `other` aside. */
  function TypeResults(): set<string> {
    {"lovable", "supabase", "discord", "badge", "netlify", "cal", "onbiela", "macaly",
     "package", "docker", "kubernetes", "portainer", "vault", "ai", "license"}
  }

  /** The types the type chain can give. */
  lemma TypeRuleResultsAre()
    ensures forall i :: 0 <= i < |TypeRules()| ==> TypeRules()[i].result in TypeResults()
  {
  }

  /** Every type a rule of the type chain gives has a description. */
  lemma TypeRulesDescribed()
    ensures forall i :: 0 <= i < |TypeRules()| ==> TypeRules()[i].result in Descriptions()
    ensures "asset" in Descriptions() && "github" in Descriptions() && "other" !in Descriptions()
  {
    TypeRuleResultsAre();
    TypeResultsDescribed();
    GitHubTypesDescribed();
  }

  lemma GitHubTypesDescribed()
    ensures "asset" in Descriptions() && "github" in Descriptions() && "other" !in Descriptions()
  {
  }

  lemma TypeResultsDescribed()
    ensures forall t :: t in TypeResults() ==> t in Descriptions()
  {
    var d := Descriptions();
    assert "lovable" in d && "supabase" in d && "discord" in d && "badge" in d && "netlify" in d;
    assert "cal" in d && "onbiela" in d && "macaly" in d && "package" in d && "docker" in d;
    assert "kubernetes" in d && "portainer" in d && "vault" in d && "ai" in d && "license" in d;
  }

  /**
   * The fallback "Web Resource" is given exactly to the types the table does
   * not know; of the types `categorize_url` produces, that is only "other".
   */
  lemma DescriptionFallback(url: string)
    ensures forall t :: GetDescription(url, t) == "Web Resource" <==> t !in Descriptions()
    ensures GetDescription(url, UrlTypeOf(url)) == "Web Resource" <==> UrlTypeOf(url) == "other"
  {
    DescriptionsAreNotFallback();
    TypeRulesDescribed();
    var domain := Lower(ParseUrl(url).netloc);
    if !Contains(domain, "github.com") && FirstMatch(TypeRules(), domain).Some? {
      var i := FirstMatch(TypeRules(), domain).value;
      assert UrlTypeOf(url) == TypeRules()[i].result;
    }
  }

  /**
   * The loop of `main` over `sorted(urls)`: each URL appended to the list of
   * its type and to the list of its category. Every list is in ascending
   * order, every URL is in exactly one list of each grouping, and each
   * grouping's lists together are as long as the URL list.
   */
  method BucketUrls(urls: seq<string>) returns (byType: Groups<string, string>, byCategory: Groups<string, string>)
    ensures byType == GroupBy(SortBy(urls, StrLe), UrlTypeOf)
    ensures byCategory == GroupBy(SortBy(urls, StrLe), UrlCategoryOf)
    ensures forall k :: k in byType.lists ==> SortedBy(byType.lists[k], StrLe)
    ensures forall k :: k in byCategory.lists ==> SortedBy(byCategory.lists[k], StrLe)
    ensures forall u :: u in urls ==>
      UrlTypeOf(u) in byType.lists && u in byType.lists[UrlTypeOf(u)] &&
      forall k :: k in byType.lists && u in byType.lists[k] ==> k == UrlTypeOf(u)
    ensures forall u :: u in urls ==>
      UrlCategoryOf(u) in byCategory.lists && u in byCategory.lists[UrlCategoryOf(u)] &&
      forall k :: k in byCategory.lists && u in byCategory.lists[k] ==> k == UrlCategoryOf(u)
    ensures SizeSum(SortBy(urls, StrLe), UrlTypeOf, byType.keys) == |urls|
    ensures SizeSum(SortBy(urls, StrLe), UrlCategoryOf, byCategory.keys) == |urls|
  {
    var sorted := SortBy(urls, StrLe);
    byType, byCategory := GroupTwice(sorted, UrlTypeOf, UrlCategoryOf);
    GroupSortedStrings(urls, UrlTypeOf);
    GroupSortedStrings(urls, UrlCategoryOf);
  }
}
