/**
 * extract_all_urls_with_duplicates.py: every mention of an `http(s)://` URL in
 * a Markdown report, line by line and without deduplication, each recorded
 * with its line number, the repository and category headings in force, the
 * stripped line as context and a type; then a report that groups the
 * mentions by type and counts how often each URL is mentioned.
 */
module ExtractWithDuplicates {
  import opened Text
  import opened UrlScan
  import opened Rules
  import opened Grouping

  /** The characters `url.rstrip('.,;:)\'"')` removes. */
  const TrailingMarks: set<char> := {'.', ',', ';', ':', ')', '\'', '"'}

  /** The prefix of a category heading: `## ` followed by the label emoji (U+1F3F7 U+FE0F). */
  const CategoryMarker: string := "## \U{1F3F7}\U{FE0F}"

  /** One record of `all_urls`. `line` counts from 1. */
  datatype Mention = Mention(url: string, urlType: string, line: nat, repo: string, category: string, context: string)

  /** The two running labels: `current_repo` and `current_category`. */
  datatype Labels = Labels(repo: string, category: string)

  // ---------------------------------------------------------------------------
  // Headings

  predicate IsCategoryLine(line: string) {
    CategoryMarker <= line
  }

  /** The category a category heading names: the line without the marker, stripped. */
  function CategoryName(line: string): string {
    Strip(Replace(line, CategoryMarker, ""))
  }

  predicate IsRepoLine(line: string) {
    "### " <= line && Contains(line, ". ")
  }

  /**
   * The repository a repository heading names: the text after the first
   * `. `, stripped (on a heading, `SplitOnce` yields two pieces, so the last
   * piece is `split('. ', 1)[1]`).
   */
  function RepoName(line: string): string {
    var parts := SplitOnce(line, ". ");
    Strip(parts[|parts| - 1])
  }

  /**
   * A running label after the first `n` items: `init`, replaced by
   * `name(x)` at every item `x` with `isHead(x)`.
   */
  function Running<T>(xs: seq<T>, n: nat, init: string, isHead: T -> bool, name: T -> string): string
    requires n <= |xs|
  {
    if n == 0 then init
    else if isHead(xs[n - 1]) then name(xs[n - 1])
    else Running(xs, n - 1, init, isHead, name)
  }

  /** Item `j` is the last one among the first `n` with `isHead`. */
  predicate IsLastHead<T>(xs: seq<T>, n: nat, isHead: T -> bool, j: nat)
    requires n <= |xs|
  {
    j < n && isHead(xs[j]) && forall i :: j < i < n ==> !isHead(xs[i])
  }

  /**
   * A running label is named by the LAST heading among the items read, and
   * keeps its initial value when there is none.
   */
  lemma {:induction false} RunningIsLastHead<T>(xs: seq<T>, n: nat, init: string, isHead: T -> bool, name: T -> string)
    requires n <= |xs|
    ensures
      || ((forall j :: 0 <= j < n ==> !isHead(xs[j])) && Running(xs, n, init, isHead, name) == init)
      || (exists j: nat :: IsLastHead(xs, n, isHead, j) && Running(xs, n, init, isHead, name) == name(xs[j]))
  {
    if n > 0 {
      RunningIsLastHead(xs, n - 1, init, isHead, name);
      if isHead(xs[n - 1]) {
        assert IsLastHead(xs, n, isHead, n - 1);
      } else if j: nat :| IsLastHead(xs, n - 1, isHead, j) && Running(xs, n - 1, init, isHead, name) == name(xs[j]) {
        assert IsLastHead(xs, n, isHead, j);
      }
    }
  }

  /** The labels in force once the first `n` lines have been read; both start out as "Unknown". */
  function LabelsAfter(lines: seq<string>, n: nat): Labels
    requires n <= |lines|
  {
    Labels(Running(lines, n, "Unknown", IsRepoLine, RepoName), Running(lines, n, "Unknown", IsCategoryLine, CategoryName))
  }

  /** Reading one more line: a heading replaces its own label, and everything else keeps it. */
  lemma LabelsStep(lines: seq<string>, i: nat)
    requires i < |lines|
    ensures LabelsAfter(lines, i + 1).repo == if IsRepoLine(lines[i]) then RepoName(lines[i]) else LabelsAfter(lines, i).repo
    ensures LabelsAfter(lines, i + 1).category == if IsCategoryLine(lines[i]) then CategoryName(lines[i]) else LabelsAfter(lines, i).category
  {
  }

  /**
   * The labels after `n` lines: the repository is named by the last
   * repository heading among them and the category by the last category
   * heading, each "Unknown" while there is none.
   */
  lemma LabelsFromLastHeadings(lines: seq<string>, n: nat)
    requires n <= |lines|
    ensures
      || ((forall j :: 0 <= j < n ==> !IsRepoLine(lines[j])) && LabelsAfter(lines, n).repo == "Unknown")
      || (exists j: nat :: IsLastHead(lines, n, IsRepoLine, j) && LabelsAfter(lines, n).repo == RepoName(lines[j]))
    ensures
      || ((forall j :: 0 <= j < n ==> !IsCategoryLine(lines[j])) && LabelsAfter(lines, n).category == "Unknown")
      || (exists j: nat :: IsLastHead(lines, n, IsCategoryLine, j) && LabelsAfter(lines, n).category == CategoryName(lines[j]))
  {
    RunningIsLastHead(lines, n, "Unknown", IsRepoLine, RepoName);
    RunningIsLastHead(lines, n, "Unknown", IsCategoryLine, CategoryName);
  }

  // ---------------------------------------------------------------------------
  // Classification

  /** The branches of `classify_url` in source order; each tests the lower-cased URL. */
  function UrlRules(): seq<Rule<string>> {
    [
    Rule(AnyOf(["github.com/user-attachments/assets"]), "github-asset"),
    Rule(AllOf(["github.com", ".git"]), "github-repo-git"),
    Rule(AnyOf(["github.com"]), "github-repo"),
    Rule(AnyOf(["lovable.dev"]), "lovable"),
    Rule(AnyOf(["supabase.co"]), "supabase"),
    Rule(AnyOf(["shields.io"]), "badge"),
    Rule(AnyOf(["netlify.app"]), "netlify"),
    Rule(AnyOf(["discord"]), "discord"),
    Rule(AnyOf(["microsoft.com", "azure"]), "microsoft"),
    Rule(AnyOf(["docker"]), "docker"),
    Rule(AnyOf(["kubernetes.io"]), "kubernetes"),
    Rule(AnyOf(["portainer.io"]), "portainer"),
    Rule(AnyOf(["pypi.org"]), "pypi"),
    Rule(AnyOf(["nuget.org"]), "nuget"),
    Rule(AnyOf(["opensource.org"]), "license"),
    Rule(AnyOf(["learn.microsoft.com"]), "docs"),
    Rule(AnyOf([".onbiela.dev"]), "deployment"),
    Rule(AnyOf(["macaly-app.com"]), "macaly"),
    Rule(AnyOf(["dmde.com", "softdm.com"]), "software"),
    Rule(AnyOf(["hnoss", "ambassador", "pohl"]), "organization"),
    Rule(AnyOf(["vault"]), "vault"),
    Rule(AnyOf(["ollama"]), "ai")
    ]
  }

  /** Where the GitHub and Microsoft rules sit, and which rule alone yields "docs". */
  lemma UrlRulesAt()
    ensures |UrlRules()| == 22
    ensures UrlRules()[0] == Rule(AnyOf(["github.com/user-attachments/assets"]), "github-asset")
    ensures UrlRules()[1] == Rule(AllOf(["github.com", ".git"]), "github-repo-git")
    ensures UrlRules()[2] == Rule(AnyOf(["github.com"]), "github-repo")
    ensures UrlRules()[8] == Rule(AnyOf(["microsoft.com", "azure"]), "microsoft")
    ensures UrlRules()[15] == Rule(AnyOf(["learn.microsoft.com"]), "docs")
    ensures forall i :: 0 <= i < |UrlRules()| && i != 15 ==> UrlRules()[i].result != "docs"
    ensures forall i :: 0 <= i < |UrlRules()| ==> UrlRules()[i].result != "other"
    ensures forall i :: 3 <= i < |UrlRules()| ==> UrlRules()[i].result !in {"github-asset", "github-repo-git", "github-repo"}
  {
  }

  /** `classify_url`: the first branch whose test holds of the lower-cased URL, else "other". */
  function ClassifyUrl(url: string): string {
    Lookup(UrlRules(), Lower(url), "other")
  }

  /** A URL is typed "other" exactly when no branch holds of it. */
  lemma OtherIffNoBranch(url: string)
    ensures ClassifyUrl(url) == "other" <==> FirstMatch(UrlRules(), Lower(url)).None?
  {
    UrlRulesAt();
  }

  /** Classification ignores ASCII case: a URL and its lower-cased form get the same type. */
  lemma ClassifyIgnoresCase(url: string)
    ensures ClassifyUrl(Lower(url)) == ClassifyUrl(url)
  {
    LowerIdempotent(url);
  }

  lemma MicrosoftInLearn()
    ensures Contains("learn.microsoft.com", "microsoft.com")
  {
    assert "learn.microsoft.com"[6..19] == "microsoft.com";
    assert OccursAt("learn.microsoft.com", "microsoft.com", 6);
  }

  lemma GitHubInAssets()
    ensures Contains("github.com/user-attachments/assets", "github.com")
  {
    assert "github.com/user-attachments/assets"[0..10] == "github.com";
    assert OccursAt("github.com/user-attachments/assets", "github.com", 0);
  }

  /**
   * The `learn.microsoft.com` branch is dead: the `microsoft.com` branch
   * before it holds of every such URL, so no URL is ever typed "docs".
   */
  lemma DocsNeverReturned(url: string)
    ensures ClassifyUrl(url) != "docs"
    ensures Contains(Lower(url), "learn.microsoft.com") ==>
      FirstMatch(UrlRules(), Lower(url)).Some? && FirstMatch(UrlRules(), Lower(url)).value <= 8
  {
    var lu := Lower(url);
    UrlRulesAt();
    MicrosoftInLearn();
    ShadowedRuleNeverFires(UrlRules(), 8, 15, lu);
    if Contains(lu, "learn.microsoft.com") {
      ContainsTransitive(lu, "learn.microsoft.com", "microsoft.com");
      assert Holds(UrlRules()[8].test, lu);
    }
  }

  /**
   * The three GitHub branches, in order: an attachment URL is a "github-asset"
   * even when it mentions `.git`; another GitHub URL is "github-repo-git" when
   * it mentions `.git` and "github-repo" otherwise.
   */
  lemma GitHubClassification(url: string)
    ensures Contains(Lower(url), "github.com/user-attachments/assets") ==> ClassifyUrl(url) == "github-asset"
    ensures !Contains(Lower(url), "github.com/user-attachments/assets") && Contains(Lower(url), "github.com") ==>
      ClassifyUrl(url) == (if Contains(Lower(url), ".git") then "github-repo-git" else "github-repo")
    ensures ClassifyUrl(url) in {"github-asset", "github-repo-git", "github-repo"} ==> Contains(Lower(url), "github.com")
  {
    var lu := Lower(url);
    var rules := UrlRules();
    UrlRulesAt();
    GitHubInAssets();
    assert Holds(rules[0].test, lu) <==> Contains(lu, "github.com/user-attachments/assets") by {
      assert rules[0].test.needles == ["github.com/user-attachments/assets"];
    }
    assert Holds(rules[1].test, lu) <==> Contains(lu, "github.com") && Contains(lu, ".git") by {
      var ns := rules[1].test.needles;
      assert ns == ["github.com", ".git"];
      assert ns[0] == "github.com" && ns[1] == ".git";
    }
    assert Holds(rules[2].test, lu) <==> Contains(lu, "github.com") by {
      assert rules[2].test.needles == ["github.com"];
    }
    if Contains(lu, "github.com/user-attachments/assets") {
      ContainsTransitive(lu, "github.com/user-attachments/assets", "github.com");
    }
  }

  // ---------------------------------------------------------------------------
  // Extraction

  /** The record for one match on line `lineNum`: the stripped URL, its type, the labels and the stripped line. */
  function MentionOf(m: string, lineNum: nat, line: string, l: Labels): Mention {
    var url := RStrip(m, TrailingMarks);
    Mention(url, ClassifyUrl(url), lineNum, l.repo, l.category, Strip(line))
  }

  /** The records of one line, one per match of the pattern, left to right. */
  function LineMentions(line: string, lineNum: nat, l: Labels): seq<Mention> {
    var matches := FindAll(PlainRun, line);
    seq(|matches|, k requires 0 <= k < |matches| => MentionOf(matches[k], lineNum, line, l))
  }

  /** The records of each line; the labels of line `i + 1` include a heading on that line itself. */
  function LineBlocks(lines: seq<string>): seq<seq<Mention>> {
    seq(|lines|, i requires 0 <= i < |lines| => LineMentions(lines[i], i + 1, LabelsAfter(lines, i + 1)))
  }

  /** Every record, line after line. */
  function AllMentions(lines: seq<string>): seq<Mention> {
    Flatten(LineBlocks(lines))
  }

  /** The inner loop of `extract_all_urls_with_context`: append one record per match on the line. */
  method AppendLineMentions(all: seq<Mention>, line: string, lineNum: nat, repo: string, category: string)
    returns (all': seq<Mention>)
    ensures all' == all + LineMentions(line, lineNum, Labels(repo, category))
  {
    var matches := FindAll(PlainRun, line);
    ghost var here := LineMentions(line, lineNum, Labels(repo, category));
    all' := all;
    for k := 0 to |matches|
      invariant all' == all + here[..k]
    {
      var url := RStrip(matches[k], TrailingMarks);
      var urlType := ClassifyUrl(url);
      var context := Strip(line);
      all' := all' + [Mention(url, urlType, lineNum, repo, category, context)];
      PrefixSnoc(here, k);
      AppendAssoc(all, here[..k], [here[k]]);
    }
    PrefixAll(here);
  }

  /** The two heading tests at the top of the loop body: a heading line replaces its own label. */
  method ReadHeading(line: string, repo: string, category: string) returns (repo': string, category': string)
    ensures repo' == if IsRepoLine(line) then RepoName(line) else repo
    ensures category' == if IsCategoryLine(line) then CategoryName(line) else category
  {
    repo', category' := repo, category;
    if CategoryMarker <= line {
      category' := Strip(Replace(line, CategoryMarker, ""));
    }
    if "### " <= line && Contains(line, ". ") {
      repo' := Strip(SplitOnce(line, ". ")[1]);
    }
  }

  /** `extract_all_urls_with_context` on the file's lines (as `readlines` returns them). */
  method ExtractAllUrlsWithContext(lines: seq<string>) returns (all: seq<Mention>)
    ensures all == AllMentions(lines)
  {
    ghost var blocks := LineBlocks(lines);
    all := [];
    var currentRepo, currentCategory := "Unknown", "Unknown";
    for i := 0 to |lines|
      invariant Labels(currentRepo, currentCategory) == LabelsAfter(lines, i)
      invariant all == Flatten(blocks[..i])
    {
      var line := lines[i];
      currentRepo, currentCategory := ReadHeading(line, currentRepo, currentCategory);
      LabelsStep(lines, i);
      ghost var done := all;
      all := AppendLineMentions(all, line, i + 1, currentRepo, currentCategory);
      FlattenSnoc(blocks[..i], blocks[i]);
      PrefixSnoc(blocks, i);
    }
    PrefixAll(blocks);
  }

  function LineOf(m: Mention): int { m.line }

  /** A URL as the script records it: a scheme, only characters of the pattern, none of the trailing marks at the end. */
  predicate IsTrimmedUrl(u: string) {
    && HasScheme(u)
    && (forall i :: 0 <= i < |u| ==> IsUrlChar(u[i]))
    && u[|u| - 1] !in TrailingMarks
  }

  /** The URL of a record made from a match is clean. */
  lemma MentionOfClean(mt: string, lineNum: nat, line: string, l: Labels)
    requires HasScheme(mt) && forall i :: 0 <= i < |mt| ==> InRun(PlainRun, mt[i])
    ensures IsTrimmedUrl(MentionOf(mt, lineNum, line, l).url)
  {
    TrimKeepsScheme(mt, TrailingMarks);
  }

  /** A recorded URL with a character after its scheme is found again, whole and alone, by the pattern. */
  lemma CleanUrlIsRefound(u: string)
    requires IsTrimmedUrl(u) && |u| > SchemeAt(u, 0)
    ensures FindAll(PlainRun, u) == [u]
  {
    ReparseIsIdentity(u);
  }

  /**
   * Re-extraction is not the identity on every recorded URL: the match
   * `http://.` is recorded as `http://`, which the pattern no longer matches.
   */
  lemma BareSchemeIsNotRefound()
    ensures FindAll(PlainRun, "http://.") == ["http://."]
    ensures RStrip("http://.", TrailingMarks) == "http://"
    ensures FindAll(PlainRun, "http://") == []
  {
    var m := "http://.";
    assert SchemeAt(m, 0) == 7 by {
      assert m[..7] == "http://";
    }
    ReparseIsIdentity(m);
    assert m[..|m| - 1] == "http://" && m[|m| - 1] in TrailingMarks;
    assert "http://"[6] !in TrailingMarks;
    NoMatchNearEnd(PlainRun, "http://", 0);
  }

  /**
   * Every record of a line carries the line's number, the labels in force,
   * the stripped line as context, its URL's type, and a clean URL.
   */
  lemma LineMentionsWellFormed(line: string, lineNum: nat, l: Labels)
    ensures forall m :: m in LineMentions(line, lineNum, l) ==>
      && LineOf(m) == lineNum
      && Labels(m.repo, m.category) == l
      && m.context == Strip(line)
      && m.urlType == ClassifyUrl(m.url)
      && IsTrimmedUrl(m.url)
  {
    var here := LineMentions(line, lineNum, l);
    forall m | m in here
      ensures LineOf(m) == lineNum && Labels(m.repo, m.category) == l && m.context == Strip(line)
      ensures m.urlType == ClassifyUrl(m.url) && IsTrimmedUrl(m.url)
    {
      var k :| 0 <= k < |here| && here[k] == m;
      MentionAtClean(line, lineNum, l, k);
      MentionOfClean(FindAll(PlainRun, line)[k], lineNum, line, l);
    }
  }

  lemma MentionAtClean(line: string, lineNum: nat, l: Labels, k: nat)
    requires k < |FindAll(PlainRun, line)|
    ensures LineMentions(line, lineNum, l)[k] == MentionOf(FindAll(PlainRun, line)[k], lineNum, line, l)
    ensures HasScheme(FindAll(PlainRun, line)[k])
    ensures forall i :: 0 <= i < |FindAll(PlainRun, line)[k]| ==> InRun(PlainRun, FindAll(PlainRun, line)[k][i])
  {
    var matches := FindAll(PlainRun, line);
    assert matches[k] in matches;
    FindAllShape(PlainRun, line);
  }

  /** The records of line `i + 1` form block `i`. */
  lemma BlocksOnTheirLines(lines: seq<string>)
    ensures forall i, x :: 0 <= i < |LineBlocks(lines)| && x in LineBlocks(lines)[i] ==> LineOf(x) == i + 1
  {
    var blocks := LineBlocks(lines);
    forall i, x | 0 <= i < |blocks| && x in blocks[i] ensures LineOf(x) == i + 1 {
      LineMentionsWellFormed(lines[i], i + 1, LabelsAfter(lines, i + 1));
    }
  }

  /**
   * One record per match: the records with line number `j + 1` are exactly
   * the matches of line `j`, in the order they occur on the line; no record
   * has a line number outside the file.
   */
  lemma MentionsOfLine(lines: seq<string>, j: nat)
    ensures j < |lines| ==> Bucket(AllMentions(lines), LineOf, j + 1) == LineMentions(lines[j], j + 1, LabelsAfter(lines, j + 1))
    ensures j >= |lines| ==> Bucket(AllMentions(lines), LineOf, j + 1) == []
  {
    BlocksOnTheirLines(lines);
    BucketOfFlatten(LineBlocks(lines), LineOf, j);
  }

  /** The records come in line order. */
  lemma MentionsInLineOrder(lines: seq<string>)
    ensures forall a, b :: 0 <= a < b < |AllMentions(lines)| ==> AllMentions(lines)[a].line <= AllMentions(lines)[b].line
  {
    BlocksOnTheirLines(lines);
    FlattenOrdered(LineBlocks(lines), LineOf);
  }

  /** What a record of block `i` carries: the facts of `LineMentionsWellFormed` for line `i + 1`. */
  lemma MentionOfBlock(lines: seq<string>, i: nat, m: Mention)
    requires i < |lines| && m in LineBlocks(lines)[i]
    ensures 1 <= m.line <= |lines|
    ensures Labels(m.repo, m.category) == LabelsAfter(lines, m.line)
    ensures m.context == Strip(lines[m.line - 1])
    ensures m.urlType == ClassifyUrl(m.url) && IsTrimmedUrl(m.url)
  {
    LineMentionsWellFormed(lines[i], i + 1, LabelsAfter(lines, i + 1));
  }

  /**
   * Every record comes from a line of the file, with the labels in force
   * after that line, the stripped line as context, the type of its URL, and
   * a clean URL.
   */
  lemma MentionsWellFormed(lines: seq<string>)
    ensures forall m :: m in AllMentions(lines) ==>
      && 1 <= m.line <= |lines|
      && Labels(m.repo, m.category) == LabelsAfter(lines, m.line)
      && m.context == Strip(lines[m.line - 1])
      && m.urlType == ClassifyUrl(m.url)
      && IsTrimmedUrl(m.url)
  {
    var blocks := LineBlocks(lines);
    FlattenMembers(blocks);
    forall m | m in AllMentions(lines)
      ensures 1 <= m.line <= |lines|
      ensures Labels(m.repo, m.category) == LabelsAfter(lines, m.line)
      ensures m.context == Strip(lines[m.line - 1])
      ensures m.urlType == ClassifyUrl(m.url) && IsTrimmedUrl(m.url)
    {
      var i :| 0 <= i < |blocks| && m in blocks[i];
      MentionOfBlock(lines, i, m);
    }
  }

  /** The number of records of a line is its number of matches, and each record's URL is its match stripped. */
  lemma LineMentionsMatch(line: string, lineNum: nat, l: Labels)
    ensures |LineMentions(line, lineNum, l)| == |FindAll(PlainRun, line)|
    ensures forall k :: 0 <= k < |FindAll(PlainRun, line)| ==>
      LineMentions(line, lineNum, l)[k].url == RStrip(FindAll(PlainRun, line)[k], TrailingMarks)
  {
  }

  // ---------------------------------------------------------------------------
  // Report

  function TypeOfMention(m: Mention): string { m.urlType }
  function UrlOfMention(m: Mention): string { m.url }
  function ListSize(item: (string, seq<Mention>)): int { |item.1| }
  function CountOf(item: (string, nat)): int { item.1 }

  /** `sorted(by_type.items(), key=lambda x: len(x[1]), reverse=True)`. */
  function SortedTypes(all: seq<Mention>): seq<(string, seq<Mention>)> {
    SortDesc(GroupItems(GroupBy(all, TypeOfMention)), ListSize)
  }

  /** `sorted(url_counts.items(), key=lambda x: x[1], reverse=True)`. */
  function SortedUrls(all: seq<Mention>): seq<(string, nat)> {
    SortDesc(Items(CountBy(all, UrlOfMention)), CountOf)
  }

  /**
   * `sorted_urls`: most mentioned first, ties in order of first mention; a
   * permutation of the counter's items; every mentioned URL is listed, each
   * once, with the number of records that carry it; the counts add up to the
   * number of records.
   */
  lemma SortedUrlsCorrect(all: seq<Mention>)
    ensures forall i, j :: 0 <= i < j < |SortedUrls(all)| ==> SortedUrls(all)[i].1 >= SortedUrls(all)[j].1
    ensures multiset(SortedUrls(all)) == multiset(Items(CountBy(all, UrlOfMention)))
    ensures forall c :: Bucket(SortedUrls(all), CountOf, c) == Bucket(Items(CountBy(all, UrlOfMention)), CountOf, c)
    ensures forall i :: 0 <= i < |SortedUrls(all)| ==>
      SortedUrls(all)[i].1 == |Bucket(all, UrlOfMention, SortedUrls(all)[i].0)| >= 1
    ensures forall m :: m in all ==> exists i :: 0 <= i < |SortedUrls(all)| && SortedUrls(all)[i].0 == m.url
    ensures |SortedUrls(all)| == UniqueUrlCount(all)
    ensures Total(SortedUrls(all), CountOf) == |all|
  {
    var items := Items(CountBy(all, UrlOfMention));
    RankedCorrect(items, CountOf);
    CountEntries(all, UrlOfMention, SortedUrls(all));
    CountsAddUp(all, UrlOfMention, CountOf);
  }

  /**
   * `sorted_types`: the largest group first, ties in order of first
   * appearance; a permutation of the groups; each group holds exactly the
   * records of its type, in their original order, and is not empty; every
   * record's type has a group; the group sizes add up to the number of
   * records.
   */
  lemma SortedTypesCorrect(all: seq<Mention>)
    ensures forall i, j :: 0 <= i < j < |SortedTypes(all)| ==> |SortedTypes(all)[i].1| >= |SortedTypes(all)[j].1|
    ensures multiset(SortedTypes(all)) == multiset(GroupItems(GroupBy(all, TypeOfMention)))
    ensures forall c :: Bucket(SortedTypes(all), ListSize, c) == Bucket(GroupItems(GroupBy(all, TypeOfMention)), ListSize, c)
    ensures forall i :: 0 <= i < |SortedTypes(all)| ==>
      SortedTypes(all)[i].1 == Bucket(all, TypeOfMention, SortedTypes(all)[i].0) != []
    ensures forall m :: m in all ==> exists i :: 0 <= i < |SortedTypes(all)| && SortedTypes(all)[i].0 == m.urlType
    ensures |SortedTypes(all)| == CountDistinctKeys(all, TypeOfMention)
    ensures Total(SortedTypes(all), ListSize) == |all|
  {
    var items := GroupItems(GroupBy(all, TypeOfMention));
    RankedCorrect(items, ListSize);
    GroupEntries(all, TypeOfMention, SortedTypes(all));
    GroupSizesAddUp(all, TypeOfMention, ListSize);
  }

  /** The console's top 20: no URL left out of it is mentioned more often than one shown. */
  lemma TopIsMostMentioned(all: seq<Mention>, n: nat)
    requires n <= |SortedUrls(all)|
    ensures forall i, j :: 0 <= i < n <= j < |SortedUrls(all)| ==> SortedUrls(all)[..n][i].1 >= SortedUrls(all)[j].1
  {
    SortDescCorrect(Items(CountBy(all, UrlOfMention)), CountOf);
  }

  /** Each group of the report lists its records in line order, as extracted. */
  lemma GroupsInLineOrder(lines: seq<string>)
    ensures forall i :: 0 <= i < |SortedTypes(AllMentions(lines))| ==>
      forall a, b :: 0 <= a < b < |SortedTypes(AllMentions(lines))[i].1| ==>
        SortedTypes(AllMentions(lines))[i].1[a].line <= SortedTypes(AllMentions(lines))[i].1[b].line
  {
    var all := AllMentions(lines);
    var st := SortedTypes(all);
    MentionsInLineOrder(lines);
    SortedTypesCorrect(all);
    forall i | 0 <= i < |st|
      ensures forall a, b :: 0 <= a < b < |st[i].1| ==> st[i].1[a].line <= st[i].1[b].line
    {
      BucketKeepsOrder(all, TypeOfMention, st[i].0, (x: Mention, y: Mention) => x.line <= y.line);
    }
  }

  /** `len(set(u['url'] for u in items))`. */
  function UniqueUrlCount(items: seq<Mention>): nat {
    CountDistinctKeys(items, UrlOfMention)
  }

  /** One line of the summary by type. */
  datatype TypeSummary = TypeSummary(urlType: string, mentions: nat, uniqueUrls: nat)

  /** What `generate_full_report` prints and `save_full_report` writes, as data. */
  datatype Report = Report(
    total: nat,
    uniqueUrls: nat,
    sortedTypes: seq<(string, seq<Mention>)>,
    sortedUrls: seq<(string, nat)>,
    top: seq<(string, nat)>,
    summary: seq<TypeSummary>)

  /** The summary by type: for each type, in the given order, its number of mentions and of distinct URLs. */
  method SummarizeTypes(sortedTypes: seq<(string, seq<Mention>)>) returns (summary: seq<TypeSummary>)
    ensures |summary| == |sortedTypes|
    ensures forall i :: 0 <= i < |summary| ==>
      summary[i] == TypeSummary(sortedTypes[i].0, |sortedTypes[i].1|, UniqueUrlCount(sortedTypes[i].1))
    ensures forall i :: 0 <= i < |summary| ==> summary[i].uniqueUrls <= summary[i].mentions
  {
    summary := [];
    for i := 0 to |sortedTypes|
      invariant |summary| == i
      invariant forall k :: 0 <= k < i ==>
        summary[k] == TypeSummary(sortedTypes[k].0, |sortedTypes[k].1|, UniqueUrlCount(sortedTypes[k].1))
    {
      var items := sortedTypes[i].1;
      summary := summary + [TypeSummary(sortedTypes[i].0, |items|, UniqueUrlCount(items))];
    }
  }

  /**
   * The report: the totals, the groups by type (largest first), the URL
   * frequencies (most frequent first; the console shows the first 20) and
   * the summary by type.
   */
  method GenerateFullReport(all: seq<Mention>) returns (r: Report)
    ensures r.total == |all|
    ensures r.uniqueUrls == UniqueUrlCount(all)
    ensures r.sortedTypes == SortedTypes(all)
    ensures r.sortedUrls == SortedUrls(all)
    ensures r.top == r.sortedUrls[..if |r.sortedUrls| < 20 then |r.sortedUrls| else 20]
    ensures |r.summary| == |r.sortedTypes|
    ensures forall i :: 0 <= i < |r.summary| ==>
      r.summary[i] == TypeSummary(r.sortedTypes[i].0, |r.sortedTypes[i].1|, UniqueUrlCount(r.sortedTypes[i].1))
  {
    var byType := GroupAll(all, TypeOfMention);
    var sortedTypes := SortDesc(GroupItems(byType), ListSize);
    var urlCounts := CountAll(all, UrlOfMention);
    var sortedUrls := SortDesc(Items(urlCounts), CountOf);
    var top := sortedUrls[..if |sortedUrls| < 20 then |sortedUrls| else 20];
    var summary := SummarizeTypes(sortedTypes);
    r := Report(|all|, UniqueUrlCount(all), sortedTypes, sortedUrls, top, summary);
  }
}
