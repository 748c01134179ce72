# URL extraction from an analysis report, modelled in Dafny

Three Python scripts read a Markdown analysis report and collect its web links:

- `extract_all_urls.py` finds every `http(s)://` URL and trims trailing punctuation. It drops duplicates. It then labels each URL with a type, a category and a description taken from its host, and finds the section heading the URL sits under. Finally it groups the URLs by type and by category and counts a few kinds of them.
- `extract_all_urls_with_duplicates.py` reads the report line by line and keeps every mention of a URL. Each mention records its line number, the repository heading and the category heading in force, the stripped line as context, and a type. A report then groups the mentions by type (largest group first) and ranks URLs by how often they are mentioned (top 20 shown).
- `url_extraction.py` extracts the deduplicated URLs with a third pattern. It gives each URL a type from its host and a category from keywords anywhere in it. It also derives a GitHub `owner/repo` name and a description for the type. Last, it buckets the sorted URLs by type and by category.

The model has these modules:

- `UrlScan` turns the three regular expressions into explicit scanners, one per pattern. `MatchEnd` is the greedy match at one position; the model proves it returns the longest word of the pattern's language. `Scan` and `FindAll` are `re.finditer` and `re.findall`.
- `UrlParse` is the part of `urllib.parse.urlparse` that the classifiers need: the network location, and what follows it up to the query or fragment. That second part is `urlparse`'s path together with any `;params`.
- `Rules` models an `if`/`elif` chain of substring tests as a list of rules, where the first match wins.
- `Grouping` holds the generic collection operations the scripts use:
  - `defaultdict(list)` grouping and `defaultdict(int)` counting;
  - `list(set(...))`;
  - stable sorting, including `sorted(..., reverse=True)` by a key.
- `Text` holds the string functions the scripts use: `lower`, `in`, `rstrip`, `strip`, `split`, `replace`.
- `ExtractAllUrls`, `ExtractWithDuplicates` and `UrlExtraction` model the three scripts.

Facts about the scripts that the lemmas establish:

- In `url_extraction.py`, the category test for "ai" matches inside words.
  - `portainer` contains `ai`, so every URL with `portainer` in it is in category "ai".
  - So is every link to an `.html` page, because `.html` contains `ml`.
  - So is every link into a `/main/` branch, because `/main/` contains `ai`.
- `get_repo_name` reads owner and name after the FIRST `github.com/`. The name ends at the next `/`, at the end of the URL, or where a second `github.com/` begins. When the URL reads that way the result is that `owner/name`; otherwise it is "N/A".
- "N/A" is ambiguous: `https://github.com/N/A` names owner `N` and repository `A`, and yields "N/A" just as a URL without a repository does.
- The optional last group of the pattern in `extract_all_urls.py` never lengthens a match.
- Re-running a script's own pattern over a URL it stored usually finds that URL again, whole and alone, but not always:
  - in all three scripts, a match that is a bare scheme followed only by trailing marks is stored as the bare scheme, which the pattern no longer matches at all (`http://.` becomes `http://` in `extract_all_urls.py` and `extract_all_urls_with_duplicates.py`, and `http://;:` becomes `http://` in `url_extraction.py`);
  - in `url_extraction.py`, the pattern needs two characters after the scheme, so a stored URL with only one is never found again: the match `http://a:` is stored as `http://a`, which holds no match;
  - in `url_extraction.py`, a stored URL may end in `.`: the match `http://a.b.:` is stored as `http://a.b.`, which the pattern matches as `http://a.b`.
- Two branches can never be reached, because an earlier branch already catches everything they would:
  - in `extract_all_urls.py`, the `dotnet.microsoft.com` branch: no URL is ever described as ".NET Documentation";
  - in `extract_all_urls_with_duplicates.py`, the `learn.microsoft.com` branch: no URL is ever typed "docs".
- In two branches of `extract_all_urls.py`, the second host needle is redundant: `img.shields.io` and `hub.docker.com` each contain the first needle.

### The context of a URL

`extract_context_from_section` carries the comment "Suche rückwärts nach Repo-Titel" (search backward for the repository title) at `extract_all_urls.py:196`. The loop below it, lines 197-204, does not search backward:

- It scans FORWARD, from line `max(0, i-20)` up to the first line `i` that contains the URL.
- It stops at the first line that starts with either `### ` or `## `, and takes that line's text.

So the context is the EARLIEST heading among the up to 20 lines above the URL, not the nearest one. The two markers are treated alike: whichever heading line comes first in the window wins, whatever its level. The model follows the code; see `ContextIsEarliestHeading`.

## Model

| member | source | states |
|---|---|---|
| UrlScan.MatchEndIsLongestMatch | extract_all_urls.py:18 | The greedy match at a position is a word of the pattern's language. No longer word starting there is in the language. No match means no prefix from that position is in the language. |
| UrlScan.OptionalGroupNeverFires | extract_all_urls.py:18 | The optional trailing group `(?:[^...\.])?` never changes where a match ends: the pattern matches exactly what the plain run matches. |
| UrlScan.ScanComplete | extract_all_urls.py:21 | `finditer` misses no URL: every position where a match could start lies inside some reported match. |
| UrlScan.FindAllShape | url_extraction.py:17-18 | Every match begins with `http://` or `https://`. Every one of its characters is in the pattern's repeated class. |
| UrlScan.TrimKeepsScheme | url_extraction.py:24 | Stripping trailing marks other than `/` never cuts into the scheme, so a trimmed match still starts with `http(s)://`. |
| UrlScan.ReparseIsIdentity | extract_all_urls.py:18 | A URL of the class shared by the first two patterns, longer than its scheme, is found again, whole and alone, by PlainRun and by OptionalTail. |
| UrlScan.ReparseFinalIsIdentity | url_extraction.py:17 | A URL of RequiredFinal's class that ends in a final character, with a character between it and the scheme, is found again, whole and alone. |
| UrlScan.NoMatchNearEnd | extract_all_urls.py:21 | No match starts within the last seven characters of the text: a match is a scheme of at least seven characters and at least one more. |
| UrlParse.ParseUrl | extract_all_urls.py:32-34 | The scheme, the netloc and the path are consecutive parts of the URL. The netloc holds no `/`, `?` or `#`; the path starts with `/` and holds no `?` or `#`; what follows the path is nothing, or starts with `?` or `#`. |
| Rules.FirstMatchFrom | url_extraction.py:37-71 | The `elif` chain picks the first rule whose test holds, and no earlier rule holds. If it picks none, no rule holds. |
| Rules.SecondNeedleRedundant | extract_all_urls.py:64 | `a in s or b in s` is equivalent to `a in s` when `b` contains `a`. |
| Rules.ShadowedRuleNeverFires | extract_all_urls_with_duplicates.py:60-105 | A branch whose test implies that of an earlier branch is never the one taken, for any input. |
| Grouping.Bucket | extract_all_urls.py:272-280 | A filtered list keeps its elements' order. It holds exactly the elements with the key asked for, and is never longer than the input. |
| Grouping.Keys | extract_all_urls_with_duplicates.py:119-121 | The keys of a `defaultdict` are listed once each, exactly those with a non-empty bucket. |
| Grouping.GroupBy | extract_all_urls_with_duplicates.py:119-121 | Each list of the grouping is exactly the bucket of its key, in input order. The keys are those that occur. |
| Grouping.GroupTwice | extract_all_urls.py:234-239 | The loop filling `by_type` and `by_category` together builds the two groupings of the list. |
| Grouping.GroupAll | extract_all_urls_with_duplicates.py:119-121 | The loop filling `by_type` builds the grouping of the list. |
| Grouping.CountBy | extract_all_urls_with_duplicates.py:150-152 | The counter holds each key that occurs, with the number of elements carrying it. |
| Grouping.CountAll | extract_all_urls_with_duplicates.py:150-152 | The loop of `url_counts[...] += 1` builds that counter. |
| Grouping.Distinct | extract_all_urls.py:218 | `list(set(urls))` has no duplicates and the same members. Its length is the number of distinct URLs. |
| Grouping.EveryElementInOneBucket | extract_all_urls.py:234-239 | Each element is in the list of its own key and in no other list. |
| Grouping.BucketSizesSum | extract_all_urls.py:234-239 | The sizes of all lists of a grouping add up to the number of elements. |
| Grouping.BucketKeepsOrder | extract_all_urls_with_duplicates.py:119-121 | Grouping keeps any order the input was in. |
| Grouping.SortDescCorrect | extract_all_urls_with_duplicates.py:123 | `sorted(..., key=w, reverse=True)` is in non-increasing order of `w` and is a permutation of its input. |
| Grouping.SortDescStable | extract_all_urls_with_duplicates.py:154 | Items of equal weight keep their relative order, as Python's stable sort keeps them. |
| Grouping.RankedCorrect | extract_all_urls_with_duplicates.py:154 | Sorted by weight, descending, as a permutation, stable and with the same total weight. |
| Grouping.CountEntries | extract_all_urls_with_duplicates.py:150-154 | A ranking of the counter has one entry per distinct key, with its count (at least 1), and covers every element's key. |
| Grouping.GroupEntries | extract_all_urls_with_duplicates.py:119-123 | A ranking of the groups has one non-empty bucket per distinct key, and covers every element's key. |
| Grouping.CountsAddUp | extract_all_urls_with_duplicates.py:150-152 | The counts of the counter add up to the number of elements. |
| Grouping.GroupSizesAddUp | extract_all_urls_with_duplicates.py:119-121 | The group sizes add up to the number of elements. |
| Grouping.DistinctKeyCount | extract_all_urls_with_duplicates.py:164 | `len(set(...))` of the keys equals the number of grouping keys, at most the number of elements. |
| Grouping.SortStringsCorrect | url_extraction.py:154 | `sorted(urls)` is in ascending string order and is a permutation of the URLs. |
| Grouping.GroupSortedStrings | url_extraction.py:154-157 | Grouping the sorted URLs keeps every list ascending. Each URL lies in exactly one list, and the lists together are as long as the input. |
| ExtractAllUrls.TrimmedMatchesAreClean | extract_all_urls.py:21-24 | Every stripped match starts with a scheme, has only URL characters, and does not end in `.,;:!?)`. |
| ExtractAllUrls.ExtractUrlsFromFile | extract_all_urls.py:12-27 | One URL per match, left to right. Each is its match with trailing punctuation stripped, and each is clean. Duplicates are kept. |
| ExtractAllUrls.BareSchemeIsNotRefound | extract_all_urls.py:18-25 | The text `http://.` yields the stored URL `http://`, and the pattern finds no match in `http://`. |
| ExtractAllUrls.HostRuleLabels | extract_all_urls.py:52-178 | Every host branch sets a real type, category and description, none of them GitHub's. Only the last branch says ".NET Documentation". |
| ExtractAllUrls.MicrosoftRulesAt | extract_all_urls.py:82-178 | There are 22 host branches. The Microsoft branch is the sixth and the `dotnet.microsoft.com` branch the last. |
| ExtractAllUrls.LabelOf | extract_all_urls.py:36-178 | Type, category and description are "other", "other" and "" together, exactly when no GitHub host and no host branch match. A GitHub host gives the asset label exactly when the path holds the attachments folder, and the repository label otherwise. |
| ExtractAllUrls.CategorizeUrl | extract_all_urls.py:29-186 | The record keeps the URL and the lower-cased host. Its labels are those `LabelOf` gives for the host and lower-cased path. |
| ExtractAllUrls.DotnetRuleNeverFires | extract_all_urls.py:82-178 | No URL is described as ".NET Documentation". A `dotnet.microsoft.com` host is decided at or before the Microsoft branch. |
| ExtractAllUrls.RedundantNeedles | extract_all_urls.py:64-93 | Each of the tests `shields.io or img.shields.io` and `docker.com or hub.docker.com` is equivalent to its first needle alone. |
| ExtractAllUrls.FirstContaining | extract_all_urls.py:194-195 | Finds the first line containing the URL, and finds none only when no line contains it. |
| ExtractAllUrls.FirstHeading | extract_all_urls.py:197-204 | Finds the first `### ` or `## ` line of the window, and finds none only when the window has none. |
| ExtractAllUrls.WindowStart | extract_all_urls.py:197 | The window starts at most 20 lines above the URL's line, exactly 20 when there are that many. |
| ExtractAllUrls.ExtractContextFromSection | extract_all_urls.py:188-206 | The nested loops with their two `break`s return `ContextOf` of the split text. |
| ExtractAllUrls.ContextWithoutUrl | extract_all_urls.py:192-206 | If no line contains the URL, the context is "Unknown". |
| ExtractAllUrls.ContextIsEarliestHeading | extract_all_urls.py:194-204 | With line `i` the first to contain the URL and line `j` the earliest heading in the 20 lines above it, the context is line `j`'s heading text. |
| ExtractAllUrls.ContextWithoutHeading | extract_all_urls.py:194-204 | If none of the 20 lines above the URL's first line is a heading, the context is "Unknown". |
| ExtractAllUrls.ContextComesFromAbove | extract_all_urls.py:194-204 | A context other than "Unknown" is the text of a heading strictly above a line holding the URL, at most 20 lines up. |
| ExtractAllUrls.EntryFor | extract_all_urls.py:229-231 | The record of a URL keeps that URL. |
| ExtractAllUrls.CategorizeOne | extract_all_urls.py:229-231 | One pass of the loop body yields the categorization of the URL together with its context. |
| ExtractAllUrls.CategorizeAll | extract_all_urls.py:228-231 | There is one item per unique URL: item `k` is the categorization and context of URL `k`, and it records URL `k`. |
| ExtractAllUrls.TypeCountersBounded | extract_all_urls.py:272-279 | The eight type counters together never exceed the number of URLs. |
| ExtractAllUrls.GroupedSummary | extract_all_urls.py:234-280 | Every item is in exactly one type list and one category list, and each grouping's sizes add up to the number of items. All nine counters are the sizes of their lists (`github-repo`, `github-asset`, `lovable`, `supabase`, `badge`, `discord`, `registry` and `documentation` by type, `infrastructure` by category), and the eight type counters add up to at most the number of items. |
| ExtractAllUrls.Analyse | extract_all_urls.py:208-280 | The URL list is the stripped matches in order. The unique list holds each URL once. Item `k` is the entry of unique URL `k`. The groupings and counters are those of the items. |
| ExtractWithDuplicates.RunningIsLastHead | extract_all_urls_with_duplicates.py:20-30 | A running label is named by the last heading read so far, and keeps its initial value while there is none. |
| ExtractWithDuplicates.LabelsStep | extract_all_urls_with_duplicates.py:24-30 | Reading a line changes the repository only on a `### N. name` line and the category only on a category line. |
| ExtractWithDuplicates.LabelsFromLastHeadings | extract_all_urls_with_duplicates.py:20-30 | After `n` lines, repository and category are named by the last repository and category headings among them, "Unknown" before any. |
| ExtractWithDuplicates.ReadHeading | extract_all_urls_with_duplicates.py:24-30 | A heading line replaces its own label and leaves the other. |
| ExtractWithDuplicates.AppendLineMentions | extract_all_urls_with_duplicates.py:33-52 | The inner loop appends exactly the records of the line's matches, in order. |
| ExtractWithDuplicates.ExtractAllUrlsWithContext | extract_all_urls_with_duplicates.py:10-54 | The result is every line's records, line after line, each with the labels in force after reading that line. |
| ExtractWithDuplicates.UrlRulesAt | extract_all_urls_with_duplicates.py:60-105 | 22 branches. The three GitHub branches come first, Microsoft is ninth and `learn.microsoft.com` sixteenth. Only that branch says "docs". None says "other". |
| ExtractWithDuplicates.OtherIffNoBranch | extract_all_urls_with_duplicates.py:104-105 | The type is "other" exactly when no branch holds. |
| ExtractWithDuplicates.ClassifyIgnoresCase | extract_all_urls_with_duplicates.py:58 | A URL and its lower-cased form get the same type. |
| ExtractWithDuplicates.DocsNeverReturned | extract_all_urls_with_duplicates.py:76-91 | No URL is typed "docs". A `learn.microsoft.com` URL is decided at or before the Microsoft branch. |
| ExtractWithDuplicates.GitHubClassification | extract_all_urls_with_duplicates.py:60-65 | An attachment URL is "github-asset" even with `.git` in it. Another GitHub URL is "github-repo-git" exactly when it holds `.git`, else "github-repo". The three GitHub types need `github.com`. |
| ExtractWithDuplicates.MentionOfClean | extract_all_urls_with_duplicates.py:36-37 | A record made from a match has a clean URL: it has a scheme, only URL characters, and no trailing mark. |
| ExtractWithDuplicates.CleanUrlIsRefound | extract_all_urls_with_duplicates.py:17 | A recorded URL with a character after its scheme is found again, whole and alone, by the pattern. |
| ExtractWithDuplicates.BareSchemeIsNotRefound | extract_all_urls_with_duplicates.py:17-37 | The match `http://.` is recorded as `http://`, in which the pattern finds no match. |
| ExtractWithDuplicates.MentionAtClean | extract_all_urls_with_duplicates.py:33-37 | Record `k` of a line is made from match `k`, and that match has a scheme and only URL characters. |
| ExtractWithDuplicates.LineMentionsWellFormed | extract_all_urls_with_duplicates.py:33-52 | Every record of a line carries the line's number, the labels, the stripped line, its URL's type and a clean URL. |
| ExtractWithDuplicates.LineMentionsMatch | extract_all_urls_with_duplicates.py:33-37 | A line yields one record per match, and record `k`'s URL is match `k` stripped. |
| ExtractWithDuplicates.BlocksOnTheirLines | extract_all_urls_with_duplicates.py:23-52 | The records of line `i + 1` all carry line number `i + 1`. |
| ExtractWithDuplicates.MentionsOfLine | extract_all_urls_with_duplicates.py:23-52 | The records with line number `j + 1` are exactly line `j`'s matches, in order. No record has a line number outside the file. |
| ExtractWithDuplicates.MentionsInLineOrder | extract_all_urls_with_duplicates.py:23-52 | The records come in non-decreasing line order. |
| ExtractWithDuplicates.MentionOfBlock | extract_all_urls_with_duplicates.py:23-52 | A record from line `i + 1` carries that line's labels, stripped text, type and a clean URL. |
| ExtractWithDuplicates.MentionsWellFormed | extract_all_urls_with_duplicates.py:10-54 | Every record comes from a line of the file, with the labels in force after it, that line stripped, its URL's type and a clean URL. |
| ExtractWithDuplicates.SortedUrlsCorrect | extract_all_urls_with_duplicates.py:150-154 | URLs ranked by mentions, descending and stable, as a permutation of the counter. Each URL listed once with its true count (at least 1), and every mentioned URL listed. The counts add up to the number of mentions. |
| ExtractWithDuplicates.SortedTypesCorrect | extract_all_urls_with_duplicates.py:119-123 | Types ranked by group size, descending and stable, as a permutation. Each group is exactly its type's records, non-empty, and every record's type is listed. The sizes add up to the number of mentions. |
| ExtractWithDuplicates.TopIsMostMentioned | extract_all_urls_with_duplicates.py:156 | No URL left out of the top `n` is mentioned more often than one shown. |
| ExtractWithDuplicates.GroupsInLineOrder | extract_all_urls_with_duplicates.py:119-123 | Each type group of the report lists its records in line order. |
| ExtractWithDuplicates.SummarizeTypes | extract_all_urls_with_duplicates.py:162-166 | One summary line per type, in ranking order, with its mentions and distinct URLs. Distinct URLs never exceed mentions. |
| ExtractWithDuplicates.GenerateFullReport | extract_all_urls_with_duplicates.py:107-167 | The totals, the type ranking, the URL ranking, its first 20 and the per-type summary of the mentions. |
| UrlExtraction.TrimmedMatchIsClean | url_extraction.py:21-25 | A stripped match keeps its scheme, has only URL characters, and does not end in `"',;:`. |
| UrlExtraction.TrimmedMatchesAreClean | url_extraction.py:17-25 | Every stripped match of the pattern is clean. |
| UrlExtraction.DistinctCleanUrls | url_extraction.py:27 | The deduplicated list holds exactly the stripped matches, and all are clean. |
| UrlExtraction.ExtractUrlsFromFile | url_extraction.py:11-27 | No duplicates. A URL is in the result exactly when it is some match stripped. All are clean. |
| UrlExtraction.TypeRuleResults | url_extraction.py:42-71 | No host branch gives "other", "asset" or "github". |
| UrlExtraction.TypeRuleResultsAre | url_extraction.py:42-71 | The host branches give only the fifteen known types. |
| UrlExtraction.TypeClassification | url_extraction.py:31-71 | The type is "other" exactly when no GitHub host and no host branch match. A GitHub host gives "asset" exactly when the path holds the attachments folder, and "github" otherwise. Those two types need a GitHub host. |
| UrlExtraction.CategoryRulesAt | url_extraction.py:74-99 | Eight keyword branches, the AI one first. None gives "other", and only the first gives "ai". |
| UrlExtraction.CategoryClassification | url_extraction.py:74-99 | The category is "ai" exactly when an AI keyword occurs, whatever else occurs. It is "other" exactly when no branch's keyword occurs. Case does not matter. |
| UrlExtraction.PortainerKeywordIsAi | url_extraction.py:77-81 | Any URL containing `portainer` is in category "ai", so that keyword of the infrastructure branch never decides it. |
| UrlExtraction.HtmlPagesAreAi | url_extraction.py:77 | Any URL containing `.html` is in category "ai". |
| UrlExtraction.MainBranchIsAi | url_extraction.py:77 | Any URL containing `/main/` is in category "ai". |
| UrlExtraction.RepoNameNeedsGitHub | url_extraction.py:103-111 | Without `github.com/` the repository is "N/A". |
| UrlExtraction.FirstMarkerAfter | url_extraction.py:106 | The first piece of `split("github.com/")` is everything before the first `github.com/`; the rest are the pieces of what follows it. |
| UrlExtraction.PieceAfterMarker | url_extraction.py:106-108 | When the text after the first `github.com/` reads owner, `/`, name and a proper tail, the piece `split` keeps is owner `/` name, then nothing or a `/` and more. |
| UrlExtraction.OwnerAndNameSplit | url_extraction.py:108-110 | Splitting owner `/` name, then nothing or a `/`, on `/` gives the owner and the name as its first two pieces. |
| UrlExtraction.RepoNameOfPath | url_extraction.py:103-111 | Whenever the URL reads as a prefix without `github.com/`, `github.com/`, owner, `/`, name and a tail at which the name ends (the end, a `/`, or the next `github.com/`), with no `github.com/` cutting the owner or the name short, the result is exactly `owner/name`. |
| UrlExtraction.RepoPathOfSplit | url_extraction.py:106-110 | When the two splits give at least two pieces, the URL reads that way, with those pieces as owner and name. |
| UrlExtraction.RepoNameShape | url_extraction.py:103-111 | A result other than "N/A" comes from such a reading and is its `owner/name`. With RepoNameOfPath: the result is the reading's `owner/name` when the URL has one, and "N/A" when it has none. |
| UrlExtraction.RepoNamedNA | url_extraction.py:110 | `https://github.com/N/A` reads as owner `N` and name `A`, and its result is "N/A". |
| UrlExtraction.CleanUrlIsRefound | url_extraction.py:17-27 | A stored URL that does not end in `.`, with a character between its scheme and its last one, is found again, whole and alone, by the pattern. |
| UrlExtraction.DottedUrlIsRefoundShorter | url_extraction.py:17-27 | The match `http://a.b.:` is stored as `http://a.b.`, which the pattern matches as `http://a.b`. |
| UrlExtraction.ShortUrlHoldsNoMatch | url_extraction.py:17 | A URL with at most one character after its scheme holds no match of the pattern. |
| UrlExtraction.ShortUrlIsNotRefound | url_extraction.py:17-25 | The match `http://a:` is stored as `http://a`, in which the pattern finds no match. |
| UrlExtraction.DescriptionsAreNotFallback | url_extraction.py:113-134 | No entry of the description table is "Web Resource". |
| UrlExtraction.TypeRulesDescribed | url_extraction.py:113-134 | Every type `categorize_url` can give has a description, except "other". |
| UrlExtraction.DescriptionFallback | url_extraction.py:113-134 | The fallback "Web Resource" goes exactly to unknown types. For a categorized URL, that is exactly when its type is "other". |
| UrlExtraction.BucketUrls | url_extraction.py:151-157 | The lists are the groupings of the sorted URLs. Every list is ascending, every URL is in exactly one list of each grouping, and each grouping's sizes add up to the number of URLs. |

## Left out

- File reading and writing, `print`, the JSON, CSV and Markdown output files, and timestamps: the scripts' text is a parameter and their outputs are data (`Analysis`, `Report`, the groupings).
- The console listings: `sorted(by_type.keys())` in the detail views, the per-item printouts, the 100-character cut of a shown context, and the sorted printouts of `url_extraction.py`. They only order and format data the model computes.
- `save_full_report` repeats the computations of `generate_full_report` and writes them to a file. Only `GenerateFullReport` models them.
- `create_csv_export.py` and the web front end under `src/` are not part of this model.
- The order in which Python iterates a `set`: `list(set(...))` is modelled as first-occurrence order. Only its members, its lack of duplicates and its length are stated.
- `readlines`: lines are taken as given. The trailing newline that `readlines` keeps is not modelled. (`split('\n')` is modelled, by `Text.Split`.)
- UrlParse.ParseUrl: assumes a URL starts with `http://` or `https://`, which every extracted URL does. `urlparse`'s handling of user info, ports, IPv6 brackets and the errors they can raise is not modelled. `urlparse` splits `;params` off the last path segment (`https://github.com/a/b;x` has path `/a/b`); the model keeps them in the path, so a path test may also see text after a `;`.
- Text.Lower: lower-cases ASCII letters only. Python's `str.lower` also folds non-ASCII letters.
- Python's regular-expression engine is not modelled in general. The three patterns are hand-written scanners, proved to return the longest match at each position.
- ExtractAllUrls.CategorizeUrl: states the classification facts through `LabelOf` rather than on the record itself.
