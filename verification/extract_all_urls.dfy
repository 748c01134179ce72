/**
 * extract_all_urls.py: every `http(s)://` URL of a Markdown report, trimmed
 * of trailing punctuation, deduplicated, labelled with a type, a category and
 * a description from its host, placed under the earliest section heading
 * among the twenty lines above the first line that holds it, grouped by type
 * and by category, and counted.
 */
module ExtractAllUrls {
  import opened Text
  import opened UrlScan
  import opened UrlParse
  import opened Rules
  import opened Grouping

  /** The characters `url.rstrip('.,;:!?)')` removes. */
  const TrailingPunctuation: set<char> := {'.', ',', ';', ':', '!', '?', ')'}

  /** A URL as `extract_urls_from_file` returns it: a scheme, only characters of the pattern, no trailing punctuation. */
  predicate IsCleanUrl(u: string) {
    && HasScheme(u)
    && (forall i :: 0 <= i < |u| ==> IsUrlChar(u[i]))
    && u[|u| - 1] !in TrailingPunctuation
  }

  /** Stripping the trailing punctuation off a match leaves a clean URL. */
  lemma TrimmedMatchIsClean(m: string)
    requires HasScheme(m) && forall i :: 0 <= i < |m| ==> IsUrlChar(m[i])
    ensures IsCleanUrl(RStrip(m, TrailingPunctuation))
  {
    var u := RStrip(m, TrailingPunctuation);
    TrimKeepsScheme(m, TrailingPunctuation);
    assert forall i :: 0 <= i < |u| ==> u[i] == m[i];
  }

  /** Every match, once stripped, is a clean URL. */
  lemma TrimmedMatchesAreClean(content: string)
    ensures forall k :: 0 <= k < |FindAll(OptionalTail, content)| ==>
      IsCleanUrl(RStrip(FindAll(OptionalTail, content)[k], TrailingPunctuation))
  {
    var matches := FindAll(OptionalTail, content);
    FindAllShape(OptionalTail, content);
    forall k | 0 <= k < |matches| ensures IsCleanUrl(RStrip(matches[k], TrailingPunctuation)) {
      assert matches[k] in matches;
      TrimmedMatchIsClean(matches[k]);
    }
  }

  /** `urls` holds one URL per match of the pattern, left to right, each stripped of trailing punctuation. */
  predicate StrippedMatches(content: string, urls: seq<string>) {
    && |urls| == |FindAll(OptionalTail, content)|
    && forall k :: 0 <= k < |urls| ==> urls[k] == RStrip(FindAll(OptionalTail, content)[k], TrailingPunctuation)
  }

  /**
   * `extract_urls_from_file` on the file's text: one URL per match of the
   * pattern (per span of `Scan`), left to right, each stripped of trailing
   * punctuation. Duplicates are kept.
   */
  method ExtractUrlsFromFile(content: string) returns (urls: seq<string>)
    ensures StrippedMatches(content, urls)
    ensures forall u :: u in urls ==> IsCleanUrl(u)
  {
    var matches := FindAll(OptionalTail, content);
    urls := [];
    for i := 0 to |matches|
      invariant urls == RStripEach(matches[..i], TrailingPunctuation)
    {
      urls := urls + [RStrip(matches[i], TrailingPunctuation)];
      PrefixSnoc(matches, i);
    }
    PrefixAll(matches);
    RStripEachAt(matches, TrailingPunctuation);
    TrimmedMatchesAreClean(content);
  }

  /**
   * Re-extraction is not the identity on every stored URL: a match that is a
   * bare scheme and a `.` is stored as the bare scheme, which the pattern no
   * longer matches.
   */
  lemma BareSchemeIsNotRefound()
    ensures StrippedMatches("http://.", ["http://"])
    ensures FindAll(OptionalTail, "http://") == []
  {
    DotAfterSchemeMatches();
    assert RStrip("http://.", TrailingPunctuation) == "http://";
    BareSchemeDoesNotMatch();
  }

  /** `http://.` is one match, the scheme and the `.` taken by the repeated class. */
  lemma DotAfterSchemeMatches()
    ensures FindAll(OptionalTail, "http://.") == ["http://."]
  {
    var t := "http://.";
    assert SchemeAt(t, 0) == 7 by {
      assert t[0..7] == "http://";
    }
    assert MatchEnd(OptionalTail, t, 0) == Some(8);
    assert Scan(OptionalTail, t, 0) == [Span(0, 8)];
    assert t[0..8] == t;
  }

  /** A bare scheme has no character after it for the repeated class, so it is no match. */
  lemma BareSchemeDoesNotMatch()
    ensures FindAll(OptionalTail, "http://") == []
  {
    NoMatchNearEnd(OptionalTail, "http://", 0);
  }

  /** What one branch of `categorize_url` sets. */
  datatype Label = Label(urlType: string, category: string, description: string)

  /** The dictionary `categorize_url` returns. */
  datatype UrlInfo = UrlInfo(url: string, urlType: string, category: string, domain: string, description: string)

  const Unclassified := Label("other", "other", "")
  const GitHubAsset := Label("github-asset", "creative", "GitHub Asset/Image")
  const GitHubRepo := Label("github-repo", "devtools", "GitHub Repository")
  const MicrosoftDocs := Label("documentation", "documentation", "Microsoft Documentation")
  const DotnetDocs := Label("documentation", "devtools", ".NET Documentation")

  /** The branches after the GitHub one, in source order; each tests the lower-cased host. */
  function HostRules(): seq<Rule<Label>> {
    [
    Rule(AnyOf(["lovable.dev"]), Label("lovable", "platforms", "Lovable.dev Project")),
    Rule(AnyOf(["supabase.co"]), Label("supabase", "infrastructure", "Supabase Database")),
    Rule(AnyOf(["shields.io", "img.shields.io"]), Label("badge", "documentation", "Shields.io Badge")),
    Rule(AnyOf(["discord.gg", "dcbadge.limes.pink"]), Label("discord", "platforms", "Discord Server/Badge")),
    Rule(AnyOf(["netlify.app", "netlify.com"]), Label("infrastructure", "infrastructure", "Netlify Deployment")),
    Rule(AnyOf(["microsoft.com", "azure.com"]), MicrosoftDocs),
    Rule(AnyOf(["docker.com", "hub.docker.com"]), Label("registry", "infrastructure", "Docker Hub")),
    Rule(AnyOf(["kubernetes.io"]), Label("documentation", "infrastructure", "Kubernetes Documentation")),
    Rule(AnyOf(["pypi.org"]), Label("registry", "devtools", "Python Package Index")),
    Rule(AnyOf(["nuget.org"]), Label("registry", "devtools", "NuGet Package Registry")),
    Rule(AnyOf(["maven"]), Label("registry", "devtools", "Maven Repository")),
    Rule(AnyOf(["npmjs.com", "npmjs.org"]), Label("registry", "devtools", "NPM Package Registry")),
    Rule(AnyOf(["opensource.org"]), Label("license", "documentation", "Open Source License")),
    Rule(AnyOf(["vaultproject.io"]), Label("infrastructure", "security", "HashiCorp Vault")),
    Rule(AnyOf(["ollama.ai"]), Label("infrastructure", "ai", "Ollama AI")),
    Rule(AnyOf(["portainer.io"]), Label("infrastructure", "infrastructure", "Portainer")),
    Rule(AnyOf(["onbiela.dev"]), Label("platforms", "platforms", "Onbiela Platform")),
    Rule(AnyOf(["macaly-app.com"]), Label("platforms", "platforms", "Macaly Application")),
    Rule(AnyOf(["hnoss-ambassador.org"]), Label("reference", "documentation", "HNOSS Ambassador Organization")),
    Rule(AnyOf(["universal-values.org"]), Label("reference", "documentation", "Universal Values")),
    Rule(AnyOf(["st-daniel-pohl.org"]), Label("reference", "documentation", "St. Daniel Pohl")),
    Rule(AnyOf(["dotnet.microsoft.com"]), DotnetDocs)
    ]
  }

  /** Every host rule sets a real type, category and description, none of them GitHub's. */
  lemma HostRuleLabels()
    ensures forall i :: 0 <= i < |HostRules()| ==>
      && HostRules()[i].result.urlType != "other"
      && HostRules()[i].result.category != "other"
      && HostRules()[i].result.description != ""
      && HostRules()[i].result.urlType != "github-asset"
      && HostRules()[i].result.urlType != "github-repo"
    ensures forall i :: 0 <= i < |HostRules()| - 1 ==> HostRules()[i].result.description != ".NET Documentation"
  {
  }

  /** Where the two Microsoft rules sit in the table. */
  lemma MicrosoftRulesAt()
    ensures |HostRules()| == 22
    ensures HostRules()[5] == Rule(AnyOf(["microsoft.com", "azure.com"]), MicrosoftDocs)
    ensures HostRules()[21] == Rule(AnyOf(["dotnet.microsoft.com"]), DotnetDocs)
  {
  }

  /** The label of a host and path: the GitHub branch first, then the first host rule that holds, else "other". */
  function LabelOf(domain: string, path: string): (chosen: Label)
    ensures chosen.urlType == "other" <==> chosen.category == "other"
    ensures chosen.urlType == "other" <==> chosen.description == ""
    ensures chosen.urlType == "other" <==> !Contains(domain, "github.com") && FirstMatch(HostRules(), domain).None?
    ensures Contains(domain, "github.com") ==>
      chosen == if Contains(path, "/user-attachments/assets/") then GitHubAsset else GitHubRepo
    ensures chosen.urlType == "github-asset" ==> Contains(domain, "github.com") && Contains(path, "/user-attachments/assets/")
  {
    HostRuleLabels();
    if Contains(domain, "github.com") then
      if Contains(path, "/user-attachments/assets/") then GitHubAsset else GitHubRepo
    else Lookup(HostRules(), domain, Unclassified)
  }

  /** `categorize_url`: the URL, its lower-cased host, and the label `LabelOf` gives its host and lower-cased path. */
  function CategorizeUrl(url: string): (info: UrlInfo)
    ensures info.url == url
    ensures info.domain == Lower(ParseUrl(url).netloc)
    ensures Label(info.urlType, info.category, info.description) == LabelOf(info.domain, Lower(ParseUrl(url).path))
  {
    var parts := ParseUrl(url);
    var domain, path := Lower(parts.netloc), Lower(parts.path);
    var chosen := LabelOf(domain, path);
    UrlInfo(url, chosen.urlType, chosen.category, domain, chosen.description)
  }

  /**
   * The `dotnet.microsoft.com` branch is dead: the `microsoft.com` branch
   * before it holds of every such host. No URL is labelled ".NET
   * Documentation", and a host containing `dotnet.microsoft.com` is decided
   * at or before the Microsoft rule.
   */
  lemma MicrosoftInDotnet()
    ensures Contains("dotnet.microsoft.com", "microsoft.com")
  {
    assert "dotnet.microsoft.com"[7..20] == "microsoft.com";
    assert OccursAt("dotnet.microsoft.com", "microsoft.com", 7);
  }

  lemma DotnetRuleNeverFires(domain: string, path: string)
    ensures LabelOf(domain, path).description != ".NET Documentation"
    ensures Contains(domain, "dotnet.microsoft.com") ==>
      FirstMatch(HostRules(), domain).Some? && FirstMatch(HostRules(), domain).value <= 5
  {
    MicrosoftRulesAt();
    MicrosoftInDotnet();
    ShadowedRuleNeverFires(HostRules(), 5, 21, domain);
    HostRuleLabels();
    if Contains(domain, "dotnet.microsoft.com") {
      ContainsTransitive(domain, "dotnet.microsoft.com", "microsoft.com");
      assert AnyIn(domain, ["microsoft.com", "azure.com"]);
    }
  }

  /** The second needles of the badge and Docker branches are redundant: each contains the first. */
  lemma RedundantNeedles(domain: string)
    ensures AnyIn(domain, ["shields.io", "img.shields.io"]) <==> Contains(domain, "shields.io")
    ensures AnyIn(domain, ["docker.com", "hub.docker.com"]) <==> Contains(domain, "docker.com")
  {
    SecondNeedlesContainFirst();
    SecondNeedleRedundant(domain, "shields.io", "img.shields.io");
    SecondNeedleRedundant(domain, "docker.com", "hub.docker.com");
  }

  /** `img.shields.io` contains `shields.io`, and `hub.docker.com` contains `docker.com`. */
  lemma SecondNeedlesContainFirst()
    ensures Contains("img.shields.io", "shields.io")
    ensures Contains("hub.docker.com", "docker.com")
  {
    assert "img.shields.io"[4..14] == "shields.io";
    assert OccursAt("img.shields.io", "shields.io", 4);
    assert "hub.docker.com"[4..14] == "docker.com";
    assert OccursAt("hub.docker.com", "docker.com", 4);
  }

  /** A line the context search stops at. */
  predicate IsHeading(line: string) {
    "### " <= line || "## " <= line
  }

  /** The text a heading line contributes: every `### ` (or `## `) removed, then surrounding whitespace. */
  function HeadingText(line: string): string
  {
    if "### " <= line then Strip(Replace(line, "### ", "")) else Strip(Replace(line, "## ", ""))
  }

  /** The first line at or after `from` that contains `url`. */
  function FirstContaining(lines: seq<string>, url: string, from: nat): (r: Option<nat>)
    decreases |lines| - from
    ensures r.Some? ==> from <= r.value < |lines| && Contains(lines[r.value], url)
    ensures r.Some? ==> forall k :: from <= k < r.value ==> !Contains(lines[k], url)
    ensures r.None? ==> forall k :: from <= k < |lines| ==> !Contains(lines[k], url)
  {
    if from >= |lines| then None
    else if Contains(lines[from], url) then Some(from)
    else FirstContaining(lines, url, from + 1)
  }

  /** The first heading line in `[lo, hi)`. */
  function FirstHeading(lines: seq<string>, lo: nat, hi: nat): (r: Option<nat>)
    requires hi <= |lines|
    decreases hi - lo
    ensures r.Some? ==> lo <= r.value < hi && IsHeading(lines[r.value])
    ensures r.Some? ==> forall k :: lo <= k < r.value ==> !IsHeading(lines[k])
    ensures r.None? ==> forall k :: lo <= k < hi ==> !IsHeading(lines[k])
  {
    if lo >= hi then None
    else if IsHeading(lines[lo]) then Some(lo)
    else FirstHeading(lines, lo + 1, hi)
  }

  /** Start of the window searched for a heading: up to 20 lines above line `i`. */
  function WindowStart(i: nat): (lo: nat)
    ensures lo <= i && i - lo <= 20
    ensures i >= 20 ==> i - lo == 20
  {
    if i < 20 then 0 else i - 20
  }

  /**
   * The context of `url`: "Unknown" when no line contains it; otherwise the
   * text of the EARLIEST heading among the (at most 20) lines above the first
   * line containing it, or "Unknown" when that window has no heading.
   */
  function ContextOf(lines: seq<string>, url: string): string
  {
    match FirstContaining(lines, url, 0)
    case None => "Unknown"
    case Some(i) =>
      match FirstHeading(lines, WindowStart(i), i)
      case None => "Unknown"
      case Some(j) => HeadingText(lines[j])
  }

  /** `extract_context_from_section`: the nested search with its two `break`s. */
  method ExtractContextFromSection(content: string, url: string) returns (context: string)
    ensures context == ContextOf(Split(content, "\n"), url)
  {
    var lines := Split(content, "\n");
    context := "Unknown";
    var i := 0;
    while i < |lines|
      invariant i <= |lines|
      invariant FirstContaining(lines, url, 0) == FirstContaining(lines, url, i)
      invariant context == "Unknown"
    {
      if Contains(lines[i], url) {
        var lo := WindowStart(i);
        var j := lo;
        while j < i
          invariant lo <= j <= i
          invariant FirstHeading(lines, lo, i) == FirstHeading(lines, j, i)
          invariant context == "Unknown"
        {
          if "### " <= lines[j] {
            context := Strip(Replace(lines[j], "### ", ""));
            assert FirstHeading(lines, j, i) == Some(j);
            break;
          } else if "## " <= lines[j] {
            context := Strip(Replace(lines[j], "## ", ""));
            assert FirstHeading(lines, j, i) == Some(j);
            break;
          }
          j := j + 1;
        }
        break;
      }
      i := i + 1;
    }
  }

  /** No line contains the URL: the context is "Unknown". */
  lemma ContextWithoutUrl(lines: seq<string>, url: string)
    requires forall k :: 0 <= k < |lines| ==> !Contains(lines[k], url)
    ensures ContextOf(lines, url) == "Unknown"
  {
  }

  /** `FirstContaining` finds the first line that contains the URL. */
  lemma FirstContainingIs(lines: seq<string>, url: string, i: nat)
    requires i < |lines| && Contains(lines[i], url)
    requires forall k :: 0 <= k < i ==> !Contains(lines[k], url)
    ensures FirstContaining(lines, url, 0) == Some(i)
  {
  }

  /** `FirstHeading` finds the first heading of the window. */
  lemma FirstHeadingIs(lines: seq<string>, lo: nat, hi: nat, j: nat)
    requires lo <= j < hi <= |lines| && IsHeading(lines[j])
    requires forall k :: lo <= k < j ==> !IsHeading(lines[k])
    ensures FirstHeading(lines, lo, hi) == Some(j)
  {
  }

  /**
   * Line `i` is the first to contain the URL and line `j` the earliest
   * heading among the up to 20 lines above it: the context is that heading's
   * text, whatever later lines hold.
   */
  lemma ContextIsEarliestHeading(lines: seq<string>, url: string, i: nat, j: nat)
    requires i < |lines| && Contains(lines[i], url)
    requires forall k :: 0 <= k < i ==> !Contains(lines[k], url)
    requires WindowStart(i) <= j < i && IsHeading(lines[j])
    requires forall k :: WindowStart(i) <= k < j ==> !IsHeading(lines[k])
    ensures ContextOf(lines, url) == HeadingText(lines[j])
  {
    FirstContainingIs(lines, url, i);
    FirstHeadingIs(lines, WindowStart(i), i, j);
  }

  /** Line `i` is the first to contain the URL and none of the up to 20 lines above it is a heading: the context is "Unknown". */
  lemma ContextWithoutHeading(lines: seq<string>, url: string, i: nat)
    requires i < |lines| && Contains(lines[i], url)
    requires forall k :: 0 <= k < i ==> !Contains(lines[k], url)
    requires forall k :: WindowStart(i) <= k < i ==> !IsHeading(lines[k])
    ensures ContextOf(lines, url) == "Unknown"
  {
    FirstContainingIs(lines, url, i);
  }

  /** The found heading always lies strictly above the URL's first line, at most 20 lines up. */
  lemma ContextComesFromAbove(lines: seq<string>, url: string)
    ensures ContextOf(lines, url) != "Unknown" ==>
      exists i, j :: 0 <= j < i < |lines| && i - j <= 20 && Contains(lines[i], url) &&
        IsHeading(lines[j]) && ContextOf(lines, url) == HeadingText(lines[j])
  {
    match FirstContaining(lines, url, 0)
    case None =>
    case Some(i) =>
      match FirstHeading(lines, WindowStart(i), i)
      case None =>
      case Some(j) =>
        assert 0 <= j < i < |lines| && i - j <= 20 && Contains(lines[i], url) && IsHeading(lines[j]);
  }

  /** A categorized URL: the info of `categorize_url` plus its context. */
  datatype Entry = Entry(info: UrlInfo, context: string)

  function TypeOf(e: Entry): string { e.info.urlType }
  function CategoryOf(e: Entry): string { e.info.category }
  function UrlOf(e: Entry): string { e.info.url }

  /** What `main` records for one unique URL. */
  function EntryFor(content: string, url: string): (e: Entry)
    ensures e.info.url == url
  {
    Entry(CategorizeUrl(url), ContextOf(Split(content, "\n"), url))
  }

  /** The body of that loop: `categorize_url`, then `extract_context_from_section`. */
  method CategorizeOne(content: string, url: string) returns (e: Entry)
    ensures e == EntryFor(content, url)
  {
    var info := CategorizeUrl(url);
    var context := ExtractContextFromSection(content, url);
    e := Entry(info, context);
  }

  /** Item `k` is the entry of URL `k`, for every `k`. */
  predicate CategorizedAs(content: string, urls: seq<string>, categorized: seq<Entry>) {
    && |categorized| == |urls|
    && forall k :: 0 <= k < |urls| ==> categorized[k] == EntryFor(content, urls[k])
  }

  /** The loop of `main` that categorizes every unique URL and looks up its context. */
  method CategorizeAll(content: string, urls: seq<string>) returns (categorized: seq<Entry>)
    ensures CategorizedAs(content, urls, categorized)
    ensures forall k :: 0 <= k < |urls| ==> categorized[k].info.url == urls[k]
  {
    categorized := [];
    for i := 0 to |urls|
      invariant categorized == MapEach(urls[..i], u => EntryFor(content, u))
    {
      var entry := CategorizeOne(content, urls[i]);
      categorized := categorized + [entry];
      PrefixSnoc(urls, i);
    }
    PrefixAll(urls);
    MapEachAt(urls, u => EntryFor(content, u));
  }

  /** The special counts of `main`, each `len([item for item in categorized if ...])`. */
  datatype Statistics = Statistics(
    githubRepos: nat, githubAssets: nat, lovableProjects: nat, supabaseDatabases: nat,
    badges: nat, discordServers: nat, packageRegistries: nat, documentationSites: nat,
    infrastructureTools: nat)

  function Summarize(categorized: seq<Entry>): Statistics
  {
    Statistics(
      |Bucket(categorized, TypeOf, "github-repo")|, |Bucket(categorized, TypeOf, "github-asset")|,
      |Bucket(categorized, TypeOf, "lovable")|, |Bucket(categorized, TypeOf, "supabase")|,
      |Bucket(categorized, TypeOf, "badge")|, |Bucket(categorized, TypeOf, "discord")|,
      |Bucket(categorized, TypeOf, "registry")|, |Bucket(categorized, TypeOf, "documentation")|,
      |Bucket(categorized, CategoryOf, "infrastructure")|)
  }

  /** Everything `main` computes before it prints and writes files. */
  datatype Analysis = Analysis(
    urls: seq<string>, uniqueUrls: seq<string>, categorized: seq<Entry>,
    byType: Groups<string, Entry>, byCategory: Groups<string, Entry>, stats: Statistics)

  /** The eight type counters count distinct types, so together they never exceed the number of URLs. */
  lemma TypeCountersBounded(categorized: seq<Entry>)
    ensures var s := Summarize(categorized);
      s.githubRepos + s.githubAssets + s.lovableProjects + s.supabaseDatabases + s.badges +
      s.discordServers + s.packageRegistries + s.documentationSites <= |categorized|
  {
    var ks: seq<string> := [];
    SizeSumSnocKey(categorized, TypeOf, ks, "github-repo");
    ks := ks + ["github-repo"];
    SizeSumSnocKey(categorized, TypeOf, ks, "github-asset");
    ks := ks + ["github-asset"];
    SizeSumSnocKey(categorized, TypeOf, ks, "lovable");
    ks := ks + ["lovable"];
    SizeSumSnocKey(categorized, TypeOf, ks, "supabase");
    ks := ks + ["supabase"];
    SizeSumSnocKey(categorized, TypeOf, ks, "badge");
    ks := ks + ["badge"];
    SizeSumSnocKey(categorized, TypeOf, ks, "discord");
    ks := ks + ["discord"];
    SizeSumSnocKey(categorized, TypeOf, ks, "registry");
    ks := ks + ["registry"];
    SizeSumSnocKey(categorized, TypeOf, ks, "documentation");
    ks := ks + ["documentation"];
    assert ks == ["github-repo", "github-asset", "lovable", "supabase", "badge", "discord", "registry", "documentation"];
    SizeSumBound(categorized, TypeOf, ks);
  }

  /**
   * The groupings and counters of any list of categorized items: each item
   * lies in exactly one bucket of each grouping, the sizes of each grouping
   * add up to the number of items, and each counter is the size of its bucket.
   */
  lemma GroupedSummary(categorized: seq<Entry>)
    ensures SizeSum(categorized, TypeOf, GroupBy(categorized, TypeOf).keys) == |categorized|
    ensures SizeSum(categorized, CategoryOf, GroupBy(categorized, CategoryOf).keys) == |categorized|
    ensures forall e :: e in categorized ==>
      TypeOf(e) in GroupBy(categorized, TypeOf).lists && e in GroupBy(categorized, TypeOf).lists[TypeOf(e)] &&
      forall k :: k in GroupBy(categorized, TypeOf).lists && e in GroupBy(categorized, TypeOf).lists[k] ==> k == TypeOf(e)
    ensures forall e :: e in categorized ==>
      CategoryOf(e) in GroupBy(categorized, CategoryOf).lists && e in GroupBy(categorized, CategoryOf).lists[CategoryOf(e)] &&
      forall k :: k in GroupBy(categorized, CategoryOf).lists && e in GroupBy(categorized, CategoryOf).lists[k] ==> k == CategoryOf(e)
    ensures Summarize(categorized).githubRepos == SizeOf(GroupBy(categorized, TypeOf), "github-repo")
    ensures Summarize(categorized).githubAssets == SizeOf(GroupBy(categorized, TypeOf), "github-asset")
    ensures Summarize(categorized).lovableProjects == SizeOf(GroupBy(categorized, TypeOf), "lovable")
    ensures Summarize(categorized).supabaseDatabases == SizeOf(GroupBy(categorized, TypeOf), "supabase")
    ensures Summarize(categorized).badges == SizeOf(GroupBy(categorized, TypeOf), "badge")
    ensures Summarize(categorized).discordServers == SizeOf(GroupBy(categorized, TypeOf), "discord")
    ensures Summarize(categorized).packageRegistries == SizeOf(GroupBy(categorized, TypeOf), "registry")
    ensures Summarize(categorized).documentationSites == SizeOf(GroupBy(categorized, TypeOf), "documentation")
    ensures Summarize(categorized).infrastructureTools == SizeOf(GroupBy(categorized, CategoryOf), "infrastructure")
    ensures var s := Summarize(categorized);
      s.githubRepos + s.githubAssets + s.lovableProjects + s.supabaseDatabases + s.badges +
      s.discordServers + s.packageRegistries + s.documentationSites <= |categorized|
  {
    BucketSizesSum(categorized, TypeOf);
    BucketSizesSum(categorized, CategoryOf);
    TypeCountersBounded(categorized);
    SizeOfGroup(categorized, TypeOf, "github-repo");
    SizeOfGroup(categorized, TypeOf, "github-asset");
    SizeOfGroup(categorized, TypeOf, "lovable");
    SizeOfGroup(categorized, TypeOf, "supabase");
    SizeOfGroup(categorized, TypeOf, "badge");
    SizeOfGroup(categorized, TypeOf, "discord");
    SizeOfGroup(categorized, TypeOf, "registry");
    SizeOfGroup(categorized, TypeOf, "documentation");
    SizeOfGroup(categorized, CategoryOf, "infrastructure");
    EveryElementInOneBucket(categorized, TypeOf);
    EveryElementInOneBucket(categorized, CategoryOf);
  }

  /** `unique` is `list(set(urls))`: each URL of `urls` exactly once, nothing else. */
  predicate Deduplicated(urls: seq<string>, unique: seq<string>) {
    && NoDuplicates(unique)
    && (forall u :: u in unique ==> u in urls)
    && (forall u :: u in urls ==> u in unique)
    && |unique| == |set u | u in urls|
  }

  /** The groupings and counters of an analysis are those of its items. */
  predicate Tallied(a: Analysis) {
    && a.byType == GroupBy(a.categorized, TypeOf)
    && a.byCategory == GroupBy(a.categorized, CategoryOf)
    && a.stats == Summarize(a.categorized)
  }

  /**
   * `main` up to its output: extract, deduplicate, categorize, group and count.
   * The URL list holds the stripped matches, the unique list holds each of
   * them once, item `k` is the entry of unique URL `k`, and the two groupings
   * and the counters are those of `GroupBy` and `Summarize` over the items
   * (see `GroupedSummary`).
   */
  method Analyse(content: string) returns (a: Analysis)
    ensures StrippedMatches(content, a.urls)
    ensures forall u :: u in a.urls ==> IsCleanUrl(u)
    ensures Deduplicated(a.urls, a.uniqueUrls)
    ensures CategorizedAs(content, a.uniqueUrls, a.categorized)
    ensures Tallied(a)
  {
    var urls := ExtractUrlsFromFile(content);
    var uniqueUrls := Distinct(urls);
    var categorized := CategorizeAll(content, uniqueUrls);
    var byType, byCategory := GroupTwice(categorized, TypeOf, CategoryOf);
    var stats := Summarize(categorized);
    a := Analysis(urls, uniqueUrls, categorized, byType, byCategory, stats);
  }
}
