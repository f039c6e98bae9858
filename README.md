# mdnews in Dafny

mdnews reads a list of RSS feeds every day and produces two things:

- a Markdown digest of the linked articles, grouped under one heading per day;
- an e-book.

For each linked item of a feed, it does the following:

- It takes the item's last link as the article link.
- It picks the largest enclosure as the cover image.
- It gives the article an identifier.
- It fetches the page through a cache directory and converts it to Markdown.
- It trims site boilerplate from the head and the tail of that text.
- It strips the remaining hyperlinks.
- It downloads every referenced image to a local file and rewrites the references.

The articles are then sorted newest first. The older single-file program `mdnews.py` does the same with a few differences:

- It takes the identifier from the item's declared guid when there is one.
- Its HTML cache is keyed by that identifier.
- Its content filter is shorter and keeps hyperlinks.
- It writes the digest page while converting each article.

This project models that pipeline and proves what it promises. Each part is one module:

| module | file | what it models |
|---|---|---|
| `Text` | `text.dfy` | Fixed patterns (literal text with `.` wildcards) and leftmost search. Also `str.replace` as split and join. |
| `Links` | `links.dfy` | `remove_links`: `[t](u)` becomes `t`, except directly after `!`. |
| `Probes` | `probes.dfy` | The head-trim probes of `convert_content`. Each regular expression is a concrete matcher: a match start and its greedy end. `Search` is `re.search`. |
| `Normalizer` | `normalizer.dfy` | The probe cascade, the cut after the first match, the tail rules and both pipelines. The package pipeline has eight probes and eleven rules, then removes links. The single-file pipeline has five probes and nine rules. |
| `Articles` | `articles.dfy` | The article record, `__lt__` (newer sorts first), the stable `list.sort`, ISO dates, `markdown_details` and `markdown`. |
| `Cache` | `cache.dfy` | The get-or-populate cache of pages and Markdown. It is a class whose field maps each path to its contents. |
| `Enclosures` | `enclosures.dfy` | `int()` on the `length` attribute, and the running maximum that picks the cover. |
| `Media` | `media.dfy` | `download_images`: the mapping loop, the replacement of every key, the cover rewrite and the placeholder strip. The image directory is a class. |
| `Feed` | `feed.dfy` | `__parse_item`, `__parse_feed`, `__download_and_parse` and `download_feeds`, as methods over the two directories. Each method is proved against a specification function. |
| `Render` | `render.dfy` | `__render_page`: the date headings and the article blocks. |
| `Script` | `script.dfy` | `mdnews.py`: `parse_item` with its guid cascade, `parse_feed`, `download_all`, the HTML cache keyed by identifier, `convert_content`, and the README loop. |

The external parts are function parameters, kept in the `Env` record of `Feed` and the `ScriptEnv` record of `Script`:

- the HTTP client, which returns text or an error;
- the HTML-to-Markdown converter;
- the RSS parser;
- `parsedate_to_datetime`;
- the identifier hash `guid`;
- `uuid.UUID` and `uuid.uuid5`;
- the image download and conversion, reduced to one outcome per URL (failed, unsupported or converted).

A date is a calendar day plus an instant that orders articles. An exception is an `Err` result, and it ends the loop that raised it, as it does in Python.

Where the code and the prose description of mdnews differ, the model follows the code:

- **Enclosure ties.** The enclosure loop compares with `<=`, so among equally long enclosures the last one wins, not the first (`Enclosures.ChooseIsLastMax`).
- **The line break after a heading cut.** A cut after a heading, newsletter or "copied" probe stops at the end of that line. The text left over therefore still starts with that line's break (`Normalizer.LineProbeKeepsLineBreak`).
- **The declared guid.** In `mdnews/feed.py` the identifier is always the hash of the link. The item's declared guid plays no part (`Feed.DeclaredGuidIgnored`).

One behaviour of the code that looks unintended is kept as written. `findall` also reports a reference with an empty URL, `![x]()`. Requesting the URL `""` raises in Python, so `""` maps to `missing-image.jpg`. Then `str.replace("", …)` inserts the placeholder before every character of the content (`Text.EmptyKeyFloods`). In the model the outcome for `""` comes from the fetch parameter, and `Media.MappingOutcome` gives the placeholder when that outcome is a failure.

## Model

| member | source | states |
|---|---|---|
| `Links.LinkAt` | mdnews/content.py:23 | A link found at `[` has its `](` and closing `)` after non-empty text and URL, and its `[` is not preceded by `!` |
| `Links.UnchangedIffNoLink` | mdnews/content.py:22-23 | `remove_links` returns its input unchanged exactly when the text holds no `[t](u)` whose `[` follows something other than `!` |
| `Links.NoBracketUnchanged` | mdnews/content.py:22-23 | Text without `[` is returned unchanged |
| `Links.SingleLink` | mdnews/content.py:22-23 | A single link `[t](u)`, with `t` free of `]` and `u` free of `)`, amid text holding no `[` and not directly after `!`, is replaced by its text `t`, and nothing else changes |
| `Links.LinkBetween` | mdnews/content.py:22-23 | Within any text whose other parts hold no `[`, a link at offset `i` is replaced in place by its text |
| `Links.ImageKept` | mdnews/content.py:22-23 | An image reference `![t](u)` amid text, where no part holds a `[` of its own, is left verbatim |
| `Links.Concat` | mdnews/content.py:22-23 | `remove_links` of `x + y` is `remove_links` of `x` followed by `remove_links` of `y`, when every link matched from inside `x` closes inside `x` and the seam does not put a `!` before a `[` |
| `Links.PlainThen` | mdnews/content.py:22-23 | Text without `[` in front of any text `r` is kept, and `r` is processed on its own, unless the front ends in `!` and `r` starts with `[` |
| `Links.LinkThen` | mdnews/content.py:22-23 | A link `[t](u)` whose `t` and `u` hold no `[`, in front of any text `r`, becomes `t`, and `r` is processed on its own |
| `Links.ImageThen` | mdnews/content.py:22-23 | An image reference whose alt text and source hold no `[`, in front of any text `r`, is kept verbatim, and `r` is processed on its own |
| `Links.RemovesEachLink` | mdnews/content.py:22-23 | On text made of any number of plain runs, links and image references, every link becomes its anchor text and everything else, images included, is kept. The text holds no stray `[`, no anchor holds `]`, no target holds `)`, and no `!` stands directly before a link |
| `Links.NeverLonger` | mdnews/content.py:22-23 | Removing links never lengthens the text |
| `Links.Shrinks` | mdnews/content.py:22-23 | Text holding a link comes out strictly shorter |
| `Probes.SearchIsLeftmost` | mdnews/content.py:29-55 | `re.search` of a probe reports the leftmost offset where a match starts, and reports none only when no offset starts one |
| `Probes.LastPatIsLast` | mdnews/content.py:32-33 | The greedy DOTALL `.*` settles on the last occurrence of its tail: none occurs further on |
| `Probes.FollowIndexCutsAfterLast` | mdnews/content.py:32-34 | The "Kövesse az Indexet" probe ends after the last `facebook.com/Indexhu)`, so none is left in the rest of the text |
| `Probes.SectionAt` | mdnews/content.py:36-37 | The category alternation matches at an offset iff one of the twelve section names followed by `]` occurs there |
| `Probes.BareHeadingWhereHeadingCannot` | mdnews.py:157-158 | The single-file `# .*` probe matches at offset 0 and inside `## `, where the package's `[^#]# .*` starts no match |
| `Normalizer.FirstSome` | mdnews/content.py:29-55 | The cascade picks the first probe that matches, and no earlier one matched |
| `Normalizer.FirstProbeWins` | mdnews/content.py:29-58 | When probe `k` is the first to match, the result is the text after the end of probe `k`'s match |
| `Normalizer.NoProbeKeepsText` | mdnews/content.py:57-58 | When no probe matches, the head trim keeps the whole text |
| `Normalizer.HeadTrimIsSuffix` | mdnews/content.py:57-58 | The head trim always returns a suffix of its input |
| `Normalizer.RepeatedProbeRedundant` | mdnews/content.py:44-55 | A probe repeated later in the cascade can be dropped without changing the result |
| `Normalizer.EighthProbeRedundant` | mdnews/content.py:44-55 | The package cascade behaves the same with its eighth probe (a repeat of the fifth) removed |
| `Normalizer.LineProbeKeepsLineBreak` | mdnews/content.py:44-55 | After a cut by a probe whose `.*` stops at the line end, the rest is empty or starts with the line break |
| `Normalizer.TruncateKeepsCleanPrefix` | mdnews/content.py:62-83 | A DOTALL tail rule keeps exactly the prefix before its first match. That prefix holds no match, and applying the rule again changes nothing |
| `Normalizer.TruncateIsPrefix` | mdnews/content.py:62-83 | A DOTALL tail rule returns a prefix of its input |
| `Normalizer.TruncateUnchangedIff` | mdnews/content.py:62-83 | A DOTALL tail rule leaves text unchanged exactly when it matches nowhere |
| `Normalizer.ApplyUnchanged` | mdnews/content.py:60-85 | A tail rule that matches nowhere leaves the text unchanged |
| `Normalizer.StripUnchangedIff` | mdnews/content.py:60-61 | A line rule leaves text unchanged exactly when its lead occurs nowhere |
| `Normalizer.StripKeepsLineBreaks` | mdnews/content.py:60-61 | A line rule deletes only up to each line end: the number of line breaks is unchanged |
| `Normalizer.StripMatchShrinks` | mdnews/content.py:84-85 | A line rule whose lead occurs shortens the text |
| `Normalizer.StripNoMatch` | mdnews/content.py:84-85 | From an offset after which the lead never occurs, a line rule copies the rest unchanged |
| `Normalizer.TruncatingRulesKeepPrefix` | mdnews/content.py:62-83 | A sequence of DOTALL tail rules keeps a prefix of its input |
| `Normalizer.NothingToStrip` | mdnews/content.py:60-85 | Text that no tail rule matches passes all the rules unchanged |
| `Normalizer.TrimThenTruncateIsSlice` | mdnews/content.py:57-83 | The head trim followed by DOTALL tail rules returns one contiguous slice of the input |
| `Normalizer.CleanTextUnchanged` | mdnews/content.py:26-87 | Text that no probe or tail rule touches leaves the package normaliser unchanged exactly when it holds no hyperlink |
| `Normalizer.LegacyTailTruncates` | mdnews.py:163-184 | Every tail rule of the single-file filter cuts the text at its first match (none is a line rule), so `TrimThenTruncateIsSlice` applies to that filter |
| `Normalizer.LegacyKeepsLinks` | mdnews.py:160-189 | On text no probe or rule of its own touches, the single-file filter returns the text as it is, hyperlinks included |
| `Articles.SortNewestFirst` | mdnews/feed.py:57 | Sorting returns a permutation of its input |
| `Articles.SortIsNewestFirst` | mdnews/article.py:22-23 | Under `__lt__` (newer is smaller), the sorted list runs from newest to oldest |
| `Articles.InsertNewestFirst` | mdnews/article.py:22-23 | Inserting an article into a newest-first list keeps it newest first |
| `Articles.SortIsStable` | mdnews/feed.py:84 | Articles with equal instants keep their original relative order |
| `Articles.SortKeepsSorted` | mdnews/feed.py:84 | Sorting a list that is already newest first returns it unchanged |
| `Articles.AtInstantAppend` | mdnews/feed.py:82 | Extending a list appends the articles of each instant in order |
| `Articles.IsoRoundTrip` | mdnews/content.py:211-213 | The ISO text of a day reads back as that day |
| `Articles.ParseIsoDateExact` | mdnews/content.py:211-213 | Any text that reads as a day is that day's ISO text |
| `Articles.IsoDateInjective` | mdnews/content.py:211-213 | Distinct days have distinct headings |
| `Articles.DetailsLayout` | mdnews/article.py:25-41 | `markdown_details` opens with the title in `<details><summary><strong>`. It holds `![](image)` and a blank line exactly when the image is non-empty, then the content verbatim, and it ends with `\n---\n` |
| `Articles.DetailsDetermineContent` | mdnews/article.py:32 | Two renderings that differ only in content are equal only when the contents are equal |
| `Articles.MarkdownStart` | mdnews/article.py:43-47 | `markdown` opens with `# ` and the title, then `![](image)` exactly when the image is non-empty |
| `Articles.MarkdownEnd` | mdnews/article.py:49-52 | `markdown` holds the content verbatim and ends with the guid in italics and `---` |
| `Cache.HtmlStep` | mdnews/cache.py:14-26 | A successful lookup returns the page's path, and the path is then in the directory |
| `Cache.HtmlHitOrMiss` | mdnews/cache.py:14-26 | A hit returns the path with no fetch and no write. A miss fetches the link exactly once, stores the text on success, and fails without writing when the fetch fails |
| `Cache.MarkdownHitOrMiss` | mdnews/cache.py:29-44 | A hit returns the stored Markdown with no fetch. A success leaves the returned text stored under the Markdown path. At most one fetch happens, and only when neither file exists. Only the two files of that link change |
| `Cache.MarkdownTwice` | mdnews/cache.py:38-44 | After a successful call, a second call returns the same text and changes and fetches nothing |
| `Cache.PathsInjective` | mdnews/cache.py:14-30 | Distinct identifiers have distinct page paths and distinct Markdown paths |
| `Cache.HtmlIsNotMarkdown` | mdnews/cache.py:14-30 | A page path is never a Markdown path |
| `Cache.ArticleCache.HtmlFile` | mdnews/cache.py:14-26 | The method's result, directory and download log are those of `HtmlStep` |
| `Cache.ArticleCache.Markdown` | mdnews/cache.py:29-44 | The method's result, directory and download log are those of `MarkdownStep` |
| `Cache.ArticleCache.Write` | mdnews/cache.py:41-42 | Writing replaces the one file and nothing else |
| `Cache.MarkdownRepeated` | mdnews/cache.py:29-44 | Two calls in a row return the same text when the first succeeds, with at most one download between them |
| `Enclosures.Trim` | mdnews/feed.py:26 | `int()` ignores surrounding white space: the trimmed text starts and ends with non-space characters |
| `Enclosures.IntRoundTrip` | mdnews/feed.py:26 | Every integer's decimal text reads back as that integer |
| `Enclosures.ParseIntNeedsDigit` | mdnews/feed.py:26 | Text that `int()` accepts holds a digit |
| `Enclosures.ChooseBy` | mdnews/feed.py:24-31 | The chosen enclosure is one of the item's, and the only failure is `int()`'s |
| `Enclosures.ChooseEnclosure` | mdnews/feed.py:24-31 | The loop's result is the running choice of `ChooseBy` |
| `Enclosures.ChooseIsLastMax` | mdnews/feed.py:24-27 | When every length reads as an integer, the chosen enclosure is the last one of maximal length |
| `Enclosures.ChooseFailsIff` | mdnews/feed.py:26 | The choice raises exactly when there are at least two enclosures and some length is not an integer |
| `Enclosures.ChooseNoneIff` | mdnews/feed.py:24-31 | No enclosure is chosen exactly when the item has none |
| `Enclosures.ChooseSingle` | mdnews/feed.py:25-27 | A lone enclosure is chosen without reading its length |
| `Enclosures.ChooseErrPersists` | mdnews/feed.py:25-27 | Once `int()` has raised on a prefix, the whole choice fails with that error |
| `Media.EscapedRun` | mdnews/content.py:91-92 | A bracket or parenthesis run honouring backslash escapes ends at its closing character |
| `Media.ImageRefAt` | mdnews/content.py:91-92 | A reference found at an offset is exactly `![alt](url)` there |
| `Media.RefsOccur` | mdnews/content.py:91-92 | Every reference `findall` reports occurs in the content |
| `Media.RefAmid` | mdnews/content.py:91-92 | One reference `![alt](url)` without brackets, parentheses or backslashes inside, amid text holding no other `![`, yields exactly that alt text and URL |
| `Media.LookupPut` | mdnews/content.py:109-153 | A dictionary assignment maps its key to the new value and leaves every other key as it was |
| `Media.ImageFileInjective` | mdnews/content.py:105 | Distinct URLs get distinct local file names |
| `Media.GatherFacts` | mdnews/content.py:103-153 | The mapping loop maps exactly the processed URLs that got a file or the placeholder. Each mapped URL gets its own outcome's value, the directory grows only by converted files, and every fetch is of a URL not yet on disk |
| `Media.MappingOutcome` | mdnews/content.py:103-156 | A URL of the article maps to its file on a hit or a conversion, to `missing-image.jpg` on a failed fetch, and to nothing when its type is unsupported. No other URL is mapped |
| `Media.BuildMapping` | mdnews/content.py:99-153 | The loop's mapping, directory and download log are those of `Gather` |
| `Media.ProcessImage` | mdnews/content.py:103-153 | One pass of the loop body matches `ImageStep` |
| `Media.ReplaceKeys` | mdnews/content.py:155-156 | The replacement loop applies `str.replace` for every key in insertion order |
| `Text.ReplaceOnce` | mdnews/content.py:155-156 | `str.replace` of a non-empty key that occurs at exactly one offset replaces that occurrence and keeps the text on both sides |
| `Text.EmptyKeyFloods` | mdnews/content.py:155-156 | `str.replace` with an empty key inserts the value before every character and at the end: the text grows by one copy of the value per character plus one, and it opens with the value |
| `Media.UrlSpliced` | mdnews/content.py:155-156 | Replacing a URL that occurs only inside one reference rewrites that reference's URL and nothing else |
| `Media.SingleUrlMapping` | mdnews/content.py:103-153 | For one URL the loop maps it to its expected value (cached file, converted file or placeholder), or maps nothing when its type is unsupported |
| `Media.RefRewritten` | mdnews/content.py:90-162 | For content with one plain reference and no cover: a failed download removes the reference, a cached or converted image makes it point at the local file, an unsupported type leaves the content as it was, and the text around it is kept |
| `Media.DownloadImages` | mdnews/content.py:90-162 | With no image the article and directories are untouched. Otherwise the article is rewritten with the mapping `Gather` builds, and the directory and log are `Gather`'s |
| `Media.CoverOutcome` | mdnews/content.py:158-159 | The cover becomes its mapped value when it has one and is otherwise kept |
| `Media.FailedCoverIsPlaceholder` | mdnews/content.py:114-162 | A cover whose download fails ends as `missing-image.jpg`, even though placeholder references are stripped from the content |
| `Media.StripUnchangedIff` | mdnews/content.py:161-162 | The placeholder strip changes the content exactly when it holds a `![...](missing-image.jpg)` reference |
| `Media.StripNeverLonger` | mdnews/content.py:161-162 | The placeholder strip never lengthens the content |
| `Media.StripShrinks` | mdnews/content.py:161-162 | Content holding a placeholder reference comes out strictly shorter |
| `Media.StripDropsRef` | mdnews/content.py:161-162 | A `![alt](missing-image.jpg)` reference amid text holding no other `![` is deleted and the text around it is kept |
| `Media.StripKeepsRef` | mdnews/content.py:161-162 | A reference to a name that cannot start the placeholder, amid text holding no other `![`, is kept with everything around it |
| `Feed.ReadHeader` | mdnews/feed.py:19-36 | The header-reading steps compute `ItemHeader` |
| `Feed.ItemHeaderFailsIff` | mdnews/feed.py:19-33 | Reading an item fails exactly when it has no link, or at least two enclosures with a non-integer length, or an unreadable date |
| `Feed.HeaderFields` | mdnews/feed.py:19-36 | A parsed article has the last link, the identifier of that link, the item's title and description, its date and the feed's format |
| `Feed.CoverIsLastLongest` | mdnews/feed.py:24-31 | The image is `""` with no enclosure, the lone enclosure's URL with one, and otherwise the URL of the last longest enclosure |
| `Feed.Fill` | mdnews/feed.py:38-40 | Conversion and image pass change the article and both directories as `FillItem` says |
| `Feed.FillKeepsHeader` | mdnews/feed.py:38-40 | Filling an article changes only its content and image |
| `Feed.ContentNormalisedFirst` | mdnews/feed.py:38-40 | The content comes from the cached Markdown through `Normalize` before the image pass. The image pass downloads only URLs of that normalised article |
| `Feed.ParseItem` | mdnews/feed.py:19-42 | Parsing an item computes `ParseItemSpec` on both directories |
| `Feed.ItemIsFilledHeader` | mdnews/feed.py:35-42 | A parsed article is its header with only content and image replaced |
| `Feed.ItemFields` | mdnews/feed.py:22-36 | A parsed article's link is the last link, its identifier that link's hash, its format the feed's |
| `Feed.DeclaredGuidIgnored` | mdnews/feed.py:35-36 | Changing the item's declared guid changes nothing in the result or the directories |
| `Feed.HeaderIgnoresGuid` | mdnews/feed.py:35-36 | The header of an item does not depend on its declared guid |
| `Feed.ParseFeedItem` | mdnews/feed.py:48-55 | One pass of the item loop matches `ItemsStep` |
| `Feed.ParseFeed` | mdnews/feed.py:45-59 | The item loop and sort compute `ParseFeedSpec` on both directories |
| `Feed.ItemsErrPersists` | mdnews/feed.py:48-55 | An item that raises ends the loop with its error |
| `Feed.LinklessItemsSkipped` | mdnews/feed.py:48-50 | The loop behaves as if the items without links were absent |
| `Feed.ItemParserKeepsLink` | mdnews/feed.py:48-55 | The item parser's article keeps the item's last link |
| `Feed.OneArticlePerLinkedItem` | mdnews/feed.py:48-55 | The loop yields one article per linked item, in order, each with that item's last link and the channel title as `attr` |
| `Feed.ParsedFeed` | mdnews/feed.py:45-59 | A parsed feed is a newest-first, stable permutation of one article per linked item, each attributed to the channel |
| `Feed.DownloadAndParse` | mdnews/feed.py:62-69 | Downloading and parsing a feed computes `FeedSpec` |
| `Feed.DownloadFeedsItem` | mdnews/feed.py:79-82 | One pass of the feed loop matches `FeedsStep` |
| `Feed.DownloadFeeds` | mdnews/feed.py:72-85 | The feed loop and sort compute `DownloadFeedsSpec` on both directories |
| `Feed.FeedsErrPersists` | mdnews/feed.py:79-82 | A feed that raises ends the loop with its error |
| `Feed.SkippedFeedsIgnored` | mdnews/feed.py:79-81 | The loop behaves as if the skipped feeds were absent |
| `Feed.FeedsConcatenate` | mdnews/feed.py:79-82 | The loop over two lists of feeds concatenates their articles in order, stopping at the first error |
| `Feed.OneFeed` | mdnews/feed.py:79-82 | A single skipped feed contributes nothing and touches nothing. A single kept feed contributes what its parse returns |
| `Feed.DownloadedFeedsSorted` | mdnews/feed.py:72-85 | The result is a newest-first, stable permutation of the concatenated articles |
| `Render.Blocks` | mdnews/content.py:208 | The page always opens with the heading of the start day |
| `Render.RenderStep` | mdnews/content.py:210-215 | One pass writes the article's day heading before its block exactly when that day differs from the current one |
| `Render.WriteStep` | mdnews/content.py:210-215 | One pass of the loop extends the written text and the current day as the page specification does |
| `Render.WritePage` | mdnews/content.py:207-215 | The loop writes exactly the rendering of the page's blocks |
| `Render.RenderPage` | mdnews/content.py:204-215 | `__render_page` writes exactly `Page(date, arts)` |
| `Render.EmptyPage` | mdnews/content.py:207-208 | With no article the page is the start day's heading alone |
| `Render.PageStartsWithHeading` | mdnews/content.py:208 | Every page starts with the start day's heading |
| `Render.EveryArticleOnce` | mdnews/content.py:210-215 | The page's article blocks are the articles, each exactly once and in list order |
| `Render.LastHeadingIsDayAfter` | mdnews/content.py:211-213 | The last heading written is the day the loop holds at the end |
| `Render.PageIsGrouped` | mdnews/content.py:208-213 | Every article sits under the heading of its own day, and each heading after the first is written only where the day changes |
| `Script.ParseScriptItem` | mdnews.py:51-80 | `parse_item` computes `ScriptItem` |
| `Script.IdIsStable` | mdnews.py:67-78 | When `uuid.UUID` reads its own canonical text back and `uuid5` yields well-formed UUIDs, an item that declares the identifier it was given gets that identifier back, whatever its link |
| `Script.DeclaredIdWins` | mdnews.py:67-78 | Items declaring the same guid get the same identifier whatever their links, and a declared UUID is used verbatim |
| `Script.SameItemAsPackage` | mdnews.py:51-80 | `parse_item` fails exactly when the package's item header fails. Otherwise it agrees with it except for the identifier, which follows the guid cascade, and the empty format |
| `Script.ItemsTouchNothing` | mdnews.py:83-99 | Parsing items reads and writes no file |
| `Script.ScriptParserKeepsLink` | mdnews.py:88-95 | The script's item parser keeps the item's last link |
| `Script.ParseScriptFeed` | mdnews.py:83-99 | `parse_feed` computes `ScriptFeed` |
| `Script.ParsedScriptFeed` | mdnews.py:83-99 | A parsed feed is a newest-first, stable permutation of one article per linked item, attributed to the channel |
| `Script.FetchAndParse` | mdnews.py:102-104 | `download_and_parse` computes `ScriptDownload` |
| `Script.DownloadAll` | mdnews.py:107-120 | `download_all` computes `DownloadAllSpec` |
| `Script.DownloadedAllSorted` | mdnews.py:114-120 | The result is a newest-first, stable permutation of the articles of the feeds not skipped |
| `Script.RawIsNotHtml` | mdnews.py:124-186 | The raw Markdown copy never overwrites a cached page |
| `Script.ConvertContent` | mdnews.py:138-189 | `convert_content` changes the cache and returns what `ConvertStep` says |
| `Script.ConvertStores` | mdnews.py:123-189 | The returned text is the filtered form of the raw text stored beside the page. A cached page is not fetched, and an uncached one is fetched once. Only those two files change |
| `Script.ConvertTwice` | mdnews.py:123-135 | After a successful conversion, converting any article with the same identifier gives the same text and fetches and changes nothing |
| `Script.ConvertErrPersists` | mdnews.py:206-207 | A conversion that raises ends the README loop |
| `Script.ConvertsPrefix` | mdnews.py:206-207 | The loop converts a prefix of the articles, changing only their content, and it finishes exactly when no conversion failed |
| `Script.ReadmeStep` | mdnews.py:206-213 | One pass of the README loop keeps the loop's invariant, or stops with the final state |
| `Script.WriteReadme` | mdnews.py:202-213 | The README is today's heading and the grouped page of the converted articles. The error, directory and downloads are those of `ConvertAll` |

## Left out

- HTTP (`requests.get`) is a parameter that returns text or an error. The status, headers and time-outs are not modelled.
- `RSSParser.parse`, `MarkItDown.convert`, `yaml.load` and `parsedate_to_datetime` are parameters. The `yaml.dump` of each feed into build/feed is not modelled, because it is a write that nothing reads back.
- Image download and conversion are reduced to one outcome per URL: the request raised, the content type is unsupported, or the image was converted. The outcome stands for `mimetypes.guess_extension`, the `webp` fallback and, for a convertible image, PIL, alpha flattening, the 1024-pixel `thumbnail` (floating point) and JPEG encoding. The raw image written under build/cache is not modelled.
- `Media.DownloadImages`: exceptions raised outside the `try` of the loop (mdnews/content.py:120-151) are not modelled. The model always completes the pass, but in Python these exceptions leave `download_images` and end the run. They are:
  - `mimetypes.guess_extension(None)` on a response without a Content-Type, which raises `AttributeError` (mdnews/content.py:120-122);
  - `Image.open` on bytes that are not an image (mdnews/content.py:132);
  - a failed write under build/cache or the content directory (mdnews/content.py:129-130 and 150-151).
- `mdnews/guid.py` is not part of this model. `guid` is an uninterpreted parameter, taken to be collision-free (`GuidInjective`) only where a lemma needs it. `uuid.UUID` and `uuid.uuid5` are parameters too.
- The e-book (`__write_cover`, `__write_ebook`, `__render_ebook`), the pandoc subprocess, `shutil.copy`, `os.makedirs`, logging and `mdnews/__main__.py` are left out. They are I/O with no logic of their own.
- Time zones and clocks: a date is a calendar day plus an instant. Today's date is a parameter of the README loop.
- `Enclosures.ParseInt` accepts ASCII white space (including the separators U+001C to U+001F), a sign, ASCII digits and single underscores between digits. Python's `int()` also accepts non-ASCII white space (such as U+0085 and U+00A0) and non-ASCII digits.
- Article mutation is modelled as a new article value returned from the step that changes it. `list.sort` is a stable insertion sort defined as a function.
- A missing `url` attribute on the chosen enclosure is modelled as `""`. Python would store `None`.
- `skip` is the truthiness of the feed's `skip` key, and a missing `url` key of a feed is the empty URL. `mdnews.py` would raise `KeyError` there.
- `uuid.UUID` of an item whose guid element has no content raises `TypeError` in Python. The model treats every declared guid as text.
- In `mdnews.py`, parsing items and feeds touches no file, so `Script` runs the shared loops over an empty world (`NoFiles`).
- `Media.StripPlaceholders` is stated as a single left-to-right pass, as `re.subn` makes it, and no lemma claims that no placeholder reference remains. Removing one reference can join a preceding `!` to a following `[b](missing-image.jpg)` and so form a new one. For example, `!![a](missing-image.jpg)[b](missing-image.jpg)` leaves `![b](missing-image.jpg)`.
- `Links.RemoveLinks` has the same single-pass shape: replacing a link by its text can form a new link, and no lemma claims that the result is link-free.
- A regular expression engine is not modelled. Each probe and rule is its own matcher, written for the fixed pattern of the source.
