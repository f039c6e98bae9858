// The older single-file program mdnews.py: the same feed loop without a
// format per feed, identifiers taken from the item's declared guid when it
// has one, an HTML cache keyed by that identifier, the older content
// filter, and the digest page written while each article's content is
// converted. Nothing here touches the image directory.

module Script {
  import opened Wrappers
  import opened Articles
  import opened Cache
  import opened Enclosures
  import opened Normalizer
  import opened Feed
  import opened Render

  /** What the script consults outside itself: the HTTP client, the
      HTML-to-Markdown converter, `parsedate_to_datetime`, the RSS parser,
      `uuid.UUID` (the canonical text of a well-formed UUID, or nothing when
      it raises `ValueError`) and `uuid.uuid5` in the URL namespace. */
  datatype ScriptEnv = ScriptEnv(
    fetch: Fetch,
    convert: string -> string,
    parseDate: string -> Option<Stamp>,
    parseRss: string -> Option<Channel>,
    parseUuid: string -> Option<string>,
    uuid5: string -> string)

  // ---------------------------------------------------------------------
  // Items and feeds
  // ---------------------------------------------------------------------

  /** The identifier `parse_item` gives an item that declares `declared`
      and whose last link is `link`: the declared guid read as a UUID, or
      else its name-based UUID, or without a declared guid the name-based
      UUID of the link. */
  function ArticleId(env: ScriptEnv, declared: Option<string>, link: string): string {
    match declared
    case None => env.uuid5(link)
    case Some(g) =>
      match env.parseUuid(g)
      case Some(u) => u
      case None => env.uuid5(g)
  }

  function Ident(env: ScriptEnv, declared: Option<string>): string -> string {
    link => ArticleId(env, declared, link)
  }

  /** `parse_item`: the header of mdnews/feed.py, with no format and the
      identifier above. */
  function ScriptItem(env: ScriptEnv, item: Item): Result<Article, string> {
    ItemHeader(item, "", env.parseDate, Ident(env, item.guid))
  }

  /** Parsing an item reads and writes no file. */
  function ScriptItemParser(env: ScriptEnv): (Item, World) -> Run<Article> {
    (item: Item, w: World) => Run(ScriptItem(env, item), w)
  }

  /** The world the script's parsing runs in; it touches none of it. */
  const NoFiles := World(map[], [], {}, [])

  /** `parse_feed`: the RSS parse, the item loop, then `arts.sort()`. */
  function ScriptFeed(env: ScriptEnv, text: string): Result<seq<Article>, string> {
    match env.parseRss(text)
    case None => Err(BadRss)
    case Some(ch) =>
      var r := ItemsBy(ch.title, ch.items, NoFiles, ScriptItemParser(env)).result;
      if r.Err? then r else Ok(SortNewestFirst(r.value))
  }

  /** `download_and_parse`. */
  function ScriptDownload(env: ScriptEnv, url: string): Result<seq<Article>, string> {
    match env.fetch(url)
    case Err(e) => Err(e)
    case Ok(text) => ScriptFeed(env, text)
  }

  function ScriptFeedParser(env: ScriptEnv): (FeedEntry, World) -> Run<seq<Article>> {
    (feed: FeedEntry, w: World) => Run(ScriptDownload(env, feed.url), w)
  }

  /** `download_all`: the feed loop, then `arts.sort()`. */
  function DownloadAllSpec(env: ScriptEnv, feeds: seq<FeedEntry>): Result<seq<Article>, string> {
    var r := FeedsBy(feeds, NoFiles, ScriptFeedParser(env)).result;
    if r.Err? then r else Ok(SortNewestFirst(r.value))
  }

  /** `parse_item`. */
  method ParseScriptItem(env: ScriptEnv, item: Item) returns (r: Result<Article, string>)
    ensures r == ScriptItem(env, item)
  {
    r := ReadHeader(item, "", env.parseDate, Ident(env, item.guid));
  }

  /** `parse_feed`. */
  method ParseScriptFeed(env: ScriptEnv, text: string) returns (r: Result<seq<Article>, string>)
    ensures r == ScriptFeed(env, text)
  {
    var parsed := env.parseRss(text);
    if parsed.None? {
      return Err(BadRss);
    }
    var ch := parsed.value;
    var parse := ScriptItemParser(env);
    var arts: seq<Article> := [];
    var i := 0;
    while i < |ch.items|
      invariant i <= |ch.items|
      invariant ItemsBy(ch.title, ch.items[..i], NoFiles, parse) == Run(Ok(arts), NoFiles)
    {
      var item := ch.items[i];
      assert ch.items[..i + 1][..i] == ch.items[..i];
      if item.links != [] {
        var art := ParseScriptItem(env, item);
        if art.Err? {
          ItemsErrPersists(ch.title, ch.items, i + 1, NoFiles, parse);
          assert ch.items[..|ch.items|] == ch.items;
          return Err(art.error);
        }
        arts := arts + [art.value.(attr := ch.title)];
      }
      i := i + 1;
    }
    assert ch.items[..i] == ch.items;
    r := Ok(SortNewestFirst(arts));
  }

  /** `download_and_parse`. */
  method FetchAndParse(env: ScriptEnv, url: string) returns (r: Result<seq<Article>, string>)
    ensures r == ScriptDownload(env, url)
  {
    var response := env.fetch(url);
    if response.Err? {
      return Err(response.error);
    }
    r := ParseScriptFeed(env, response.value);
  }

  /** `download_all`, once the feeds file is loaded. */
  method DownloadAll(env: ScriptEnv, feeds: seq<FeedEntry>) returns (r: Result<seq<Article>, string>)
    ensures r == DownloadAllSpec(env, feeds)
  {
    var parse := ScriptFeedParser(env);
    var arts: seq<Article> := [];
    var i := 0;
    while i < |feeds|
      invariant i <= |feeds|
      invariant FeedsBy(feeds[..i], NoFiles, parse) == Run(Ok(arts), NoFiles)
    {
      var feed := feeds[i];
      assert feeds[..i + 1][..i] == feeds[..i];
      if !feed.skip {
        var got := FetchAndParse(env, feed.url);
        if got.Err? {
          FeedsErrPersists(feeds, i + 1, NoFiles, parse);
          assert feeds[..|feeds|] == feeds;
          return Err(got.error);
        }
        arts := arts + got.value;
      }
      i := i + 1;
    }
    assert feeds[..i] == feeds;
    r := Ok(SortNewestFirst(arts));
  }

  // ---------------------------------------------------------------------
  // Properties of items and feeds
  // ---------------------------------------------------------------------

  /** What `uuid` promises of its two functions: reading a UUID's canonical
      text gives it back, and a name-based UUID is a well-formed UUID. */
  ghost predicate CanonicalUuids(env: ScriptEnv) {
    && (forall s :: env.parseUuid(s).Some? ==> env.parseUuid(env.parseUuid(s).value) == env.parseUuid(s))
    && (forall name :: env.parseUuid(env.uuid5(name)) == Some(env.uuid5(name)))
  }

  /** An article's identifier is stable: an item that declares the
      identifier the script computed for it gets that identifier again,
      whatever its link. */
  lemma IdIsStable(env: ScriptEnv, declared: Option<string>, link: string, other: string)
    requires CanonicalUuids(env)
    ensures var id := ArticleId(env, declared, link);
      ArticleId(env, Some(id), other) == id
  {
    match declared
    case None =>
      assert env.parseUuid(env.uuid5(link)) == Some(env.uuid5(link));
    case Some(g) =>
      match env.parseUuid(g)
      case Some(u) =>
        assert env.parseUuid(u) == Some(u);
      case None =>
        assert env.parseUuid(env.uuid5(g)) == Some(env.uuid5(g));
  }

  /** A declared guid decides the identifier: two items declaring the same
      guid share their identifier whatever their links, and a declared
      well-formed UUID is kept in its canonical form. */
  lemma DeclaredIdWins(env: ScriptEnv, item: Item, other: Item)
    requires ScriptItem(env, item).Ok? && ScriptItem(env, other).Ok?
    requires item.guid.Some? && other.guid == item.guid
    ensures ScriptItem(env, item).value.guid == ScriptItem(env, other).value.guid
    ensures env.parseUuid(item.guid.value).Some? ==>
      ScriptItem(env, item).value.guid == env.parseUuid(item.guid.value).value
  {
    HeaderFields(item, "", env.parseDate, Ident(env, item.guid));
    HeaderFields(other, "", env.parseDate, Ident(env, other.guid));
  }

  /** The script reads an item as the package does, except for the
      identifier and the format: both fail on the same items, and on the
      others they agree on every other field. */
  lemma SameItemAsPackage(env: ScriptEnv, item: Item, format: string, ident: string -> string)
    ensures ScriptItem(env, item).Ok? <==> ItemHeader(item, format, env.parseDate, ident).Ok?
    ensures ScriptItem(env, item).Ok? ==>
      var a := ScriptItem(env, item).value;
      && a.guid == ArticleId(env, item.guid, LastLink(item))
      && a.format == ""
      && ItemHeader(item, format, env.parseDate, ident).value == a.(guid := ident(LastLink(item)), format := format)
  {
    ItemHeaderFailsIff(item, "", env.parseDate, Ident(env, item.guid));
    ItemHeaderFailsIff(item, format, env.parseDate, ident);
  }

  /** The item loop of `parse_feed` leaves every world as it found it. */
  lemma {:induction false} ItemsTouchNothing(env: ScriptEnv, title: string, items: seq<Item>, w: World)
    ensures ItemsBy(title, items, w, ScriptItemParser(env))
      == Run(ItemsBy(title, items, NoFiles, ScriptItemParser(env)).result, w)
    decreases |items|
  {
    if items != [] {
      ItemsTouchNothing(env, title, items[..|items| - 1], w);
    }
  }

  lemma ScriptParserKeepsLink(env: ScriptEnv)
    ensures KeepsLink(ScriptItemParser(env))
  {
    forall item, w | ScriptItemParser(env)(item, w).result.Ok?
      ensures item.links != [] && ScriptItemParser(env)(item, w).result.value.link == LastLink(item)
    {
      HeaderFields(item, "", env.parseDate, Ident(env, item.guid));
    }
  }

  /** `parse_feed` returns one article per linked item, each with the
      channel title as `attr` and the item's last link, newest first, as a
      permutation of the loop's list in which articles of equal date keep
      their order. */
  lemma ParsedScriptFeed(env: ScriptEnv, text: string)
    requires ScriptFeed(env, text).Ok?
    ensures env.parseRss(text).Some?
    ensures var ch := env.parseRss(text).value;
      var arts := ScriptFeed(env, text).value;
      var loop := ItemsBy(ch.title, ch.items, NoFiles, ScriptItemParser(env)).result.value;
      && |loop| == |Linked(ch.items)|
      && (forall k :: 0 <= k < |loop| ==> loop[k].attr == ch.title && loop[k].link == LastLink(Linked(ch.items)[k]))
      && NewestFirst(arts)
      && multiset(arts) == multiset(loop)
      && forall t :: AtInstant(arts, t) == AtInstant(loop, t)
  {
    var ch := env.parseRss(text).value;
    var loop := ItemsBy(ch.title, ch.items, NoFiles, ScriptItemParser(env)).result.value;
    ScriptParserKeepsLink(env);
    OneArticlePerLinkedItem(ch.title, ch.items, NoFiles, ScriptItemParser(env));
    SortIsNewestFirst(loop);
    forall t ensures AtInstant(SortNewestFirst(loop), t) == AtInstant(loop, t) {
      SortIsStable(loop, t);
    }
  }

  /** `download_all` returns every article of the loop over the feeds
      that are not skipped, newest first, with articles of equal date in
      feed order. */
  lemma DownloadedAllSorted(env: ScriptEnv, feeds: seq<FeedEntry>)
    requires DownloadAllSpec(env, feeds).Ok?
    ensures FeedsBy(Kept(feeds), NoFiles, ScriptFeedParser(env)).result.Ok?
    ensures var arts := DownloadAllSpec(env, feeds).value;
      var loop := FeedsBy(Kept(feeds), NoFiles, ScriptFeedParser(env)).result.value;
      && NewestFirst(arts)
      && multiset(arts) == multiset(loop)
      && forall t :: AtInstant(arts, t) == AtInstant(loop, t)
  {
    SkippedFeedsIgnored(feeds, NoFiles, ScriptFeedParser(env));
    var loop := FeedsBy(feeds, NoFiles, ScriptFeedParser(env)).result.value;
    SortIsNewestFirst(loop);
    forall t ensures AtInstant(SortNewestFirst(loop), t) == AtInstant(loop, t) {
      SortIsStable(loop, t);
    }
  }

  // ---------------------------------------------------------------------
  // Converting contents
  // ---------------------------------------------------------------------

  const RawSuffix := "-md"

  /** Where `convert_content` keeps the unfiltered Markdown. */
  function RawPath(id: string): string { CacheDir + id + RawSuffix }

  /** `convert_content` with the content filter `filter`: the cached page
      of the article's identifier (fetched on a miss), converted, stored
      unfiltered next to the page, and returned filtered. */
  function ConvertWith(files: map<string, string>, art: Article, fetch: Fetch, convert: string -> string,
                       filter: string -> string): Outcome
  {
    var h := HtmlStep(files, art.guid, art.link, fetch);
    if h.result.Err? then h
    else
      var raw := convert(h.files[HtmlPath(art.guid)]);
      Outcome(Ok(filter(raw)), h.files[RawPath(art.guid) := raw], h.fetched)
  }

  /** `convert_content`, whose filter is the older one. */
  function ConvertStep(files: map<string, string>, art: Article, env: ScriptEnv): Outcome {
    ConvertWith(files, art, env.fetch, env.convert, LegacyNormalize)
  }

  /** `convert_content`. */
  method ConvertContent(cache: ArticleCache, env: ScriptEnv, art: Article) returns (r: Result<string, string>)
    modifies cache
    ensures var o := ConvertStep(old(cache.files), art, env);
      r == o.result && cache.files == o.files && cache.fetched == old(cache.fetched) + o.fetched
  {
    var html := cache.HtmlFile(art.guid, art.link, env.fetch);
    if html.Err? {
      return html;
    }
    var raw := env.convert(cache.files[html.value]);
    var text := LegacyNormalize(raw);
    cache.Write(RawPath(art.guid), raw);
    r := Ok(text);
  }

  /** The unfiltered file never shares a path with a page. */
  lemma RawIsNotHtml(k1: string, k2: string)
    ensures RawPath(k1) != HtmlPath(k2)
  {
    var r := RawPath(k1);
    var h := HtmlPath(k2);
    assert r[|r| - 1] == 'd';
    assert h[|h| - 1] == 'l';
  }

  /** A successful conversion returns the filtered form of the file it
      stores, downloads at most the article's own link and only on a miss,
      and changes no file but the article's page and unfiltered file. */
  lemma ConvertStores(files: map<string, string>, art: Article, fetch: Fetch, convert: string -> string,
                      filter: string -> string)
    ensures var o := ConvertWith(files, art, fetch, convert, filter);
      && (o.result.Ok? ==> RawPath(art.guid) in o.files && o.result.value == filter(o.files[RawPath(art.guid)]))
      && (HtmlPath(art.guid) in files ==> o.fetched == [] && o.result.Ok?)
      && (HtmlPath(art.guid) !in files ==> o.fetched == [art.link])
      && SameOutside(files, o.files, {HtmlPath(art.guid), RawPath(art.guid)})
  {
    RawIsNotHtml(art.guid, art.guid);
  }

  /** The cache is keyed by the identifier: once an article has been
      converted, converting any article with the same identifier, whatever
      its link, downloads nothing, returns the same text and leaves the
      directory as it is. */
  lemma ConvertTwice(files: map<string, string>, art: Article, again: Article, fetch: Fetch,
                     convert: string -> string, filter: string -> string)
    requires ConvertWith(files, art, fetch, convert, filter).result.Ok? && again.guid == art.guid
    ensures var o := ConvertWith(files, art, fetch, convert, filter);
      ConvertWith(o.files, again, fetch, convert, filter) == Outcome(o.result, o.files, [])
  {
    var o := ConvertWith(files, art, fetch, convert, filter);
    RawIsNotHtml(art.guid, art.guid);
    var h := HtmlStep(files, art.guid, art.link, fetch);
    assert o.files[HtmlPath(art.guid)] == h.files[HtmlPath(art.guid)];
    assert o.files[RawPath(art.guid) := o.files[RawPath(art.guid)]] == o.files;
  }

  // ---------------------------------------------------------------------
  // The digest page
  // ---------------------------------------------------------------------

  /** How far the README loop got: the articles it wrote, each with its
      converted content, the error that stopped it, the directory and the
      downloads. */
  datatype Progress = Progress(done: seq<Article>, error: Option<string>,
                               files: map<string, string>, fetched: seq<string>)

  /** The README loop's conversions over `arts`, from the directory `files`. */
  function ConvertAll(env: ScriptEnv, arts: seq<Article>, files: map<string, string>): Progress {
    if arts == [] then Progress([], None, files, [])
    else
      var prev := ConvertAll(env, arts[..|arts| - 1], files);
      var art := arts[|arts| - 1];
      ConvertNext(prev, art, ConvertStep(prev.files, art, env))
  }

  /** One more pass of the README loop after `p`, whose conversion of
      `art` has the outcome `o`. */
  function ConvertNext(p: Progress, art: Article, o: Outcome): Progress {
    if p.error.Some? then p
    else if o.result.Err? then Progress(p.done, Some(o.result.error), o.files, p.fetched + o.fetched)
    else Progress(p.done + [art.(content := o.result.value)], None, o.files, p.fetched + o.fetched)
  }

  /** `done` is a prefix of `arts`, each with only its content replaced. */
  ghost predicate ConvertedPrefix(done: seq<Article>, arts: seq<Article>) {
    && |done| <= |arts|
    && forall k :: 0 <= k < |done| ==> done[k] == arts[k].(content := done[k].content)
  }

  /** A pass adds the article with its new content, or stops the loop. */
  lemma NextKeepsPrefix(p: Progress, init: seq<Article>, art: Article, o: Outcome)
    requires ConvertedPrefix(p.done, init) && (p.error.None? <==> |p.done| == |init|)
    ensures var q := ConvertNext(p, art, o);
      ConvertedPrefix(q.done, init + [art]) && (q.error.None? <==> |q.done| == |init| + 1)
  {
    var q := ConvertNext(p, art, o);
    forall k | 0 <= k < |q.done|
      ensures q.done[k] == (init + [art])[k].(content := q.done[k].content)
    {
      if k < |p.done| {
        assert q.done[k] == p.done[k];
      }
    }
  }

  /** Once a conversion has raised, later articles change nothing. */
  lemma {:induction false} ConvertErrPersists(env: ScriptEnv, arts: seq<Article>, j: nat, files: map<string, string>)
    requires j <= |arts| && ConvertAll(env, arts[..j], files).error.Some?
    ensures ConvertAll(env, arts, files) == ConvertAll(env, arts[..j], files)
    decreases |arts| - j
  {
    if j < |arts| {
      assert arts[..j + 1][..j] == arts[..j];
      ConvertErrPersists(env, arts, j + 1, files);
    } else {
      assert arts[..j] == arts;
    }
  }

  /** Where the README loop stands after the first `i` articles, with
      `files0` and `fetched0` the directory and the downloads it started
      from. */
  ghost predicate ReadmeAt(env: ScriptEnv, today: CalendarDay, arts: seq<Article>, i: nat,
                           files0: map<string, string>, fetched0: seq<string>, done: seq<Article>,
                           files: map<string, string>, fetched: seq<string>, day: CalendarDay, out: string)
  {
    && i <= |arts|
    && var p := ConvertAll(env, arts[..i], files0);
    && p.done == done && p.error == None && p.files == files && fetched == fetched0 + p.fetched
    && day == DayAfter(today, done, ArticleDay)
    && out == Page(today, done)
  }

  /** One pass of the README loop: convert the `i`-th article, then write
      its heading if its day is new and its details entry. */
  method ReadmeStep(cache: ArticleCache, env: ScriptEnv, today: CalendarDay, arts: seq<Article>, i: nat,
                    ghost files0: map<string, string>, ghost fetched0: seq<string>, ghost done: seq<Article>,
                    day: CalendarDay, out: string)
    returns (day': CalendarDay, out': string, error: Option<string>, ghost done': seq<Article>)
    requires i < |arts|
    requires ReadmeAt(env, today, arts, i, files0, fetched0, done, cache.files, cache.fetched, day, out)
    modifies cache
    ensures error.None? ==>
      ReadmeAt(env, today, arts, i + 1, files0, fetched0, done', cache.files, cache.fetched, day', out')
    ensures error.Some? ==> var p := ConvertAll(env, arts, files0);
      && out' == Page(today, p.done) && error == p.error
      && cache.files == p.files && cache.fetched == fetched0 + p.fetched
  {
    ghost var p := ConvertAll(env, arts[..i], files0);
    ghost var o := ConvertStep(cache.files, arts[i], env);
    ConvertAllAt(env, arts, files0, i);
    ghost var before := cache.fetched;
    var text := ConvertContent(cache, env, arts[i]);
    assert cache.fetched == before + o.fetched;
    AppendAssoc(fetched0, p.fetched, o.fetched);
    if text.Err? {
      ConvertErrPersists(env, arts, i + 1, files0);
      return day, out, Some(text.error), done;
    }
    var art := arts[i].(content := text.value);
    day', out' := WriteStep(today, done, day, out, art, ArticleDay, RenderBlock);
    done' := done + [art];
    error := None;
  }

  /** The README loop of mdnews.py, writing into `out`: the heading of
      `today`, then for each article its conversion, a heading when its day
      changes and its details entry. A failed conversion ends the script
      with what was written so far. */
  method WriteReadme(cache: ArticleCache, env: ScriptEnv, today: CalendarDay, arts: seq<Article>)
    returns (out: string, error: Option<string>)
    modifies cache
    ensures var p := ConvertAll(env, arts, old(cache.files));
      && out == Page(today, p.done) && error == p.error
      && cache.files == p.files && cache.fetched == old(cache.fetched) + p.fetched
  {
    var day := today;
    out := Heading(today);
    EmptyPage(today);
    ghost var done: seq<Article> := [];
    ghost var fetched0 := cache.fetched;
    ghost var files0 := cache.files;
    error := None;
    var i := 0;
    while i < |arts|
      invariant error == None
      invariant ReadmeAt(env, today, arts, i, files0, fetched0, done, cache.files, cache.fetched, day, out)
    {
      day, out, error, done := ReadmeStep(cache, env, today, arts, i, files0, fetched0, done, day, out);
      if error.Some? {
        return;
      }
      i := i + 1;
    }
    assert arts[..i] == arts;
  }

  lemma AppendAssoc(a: seq<string>, b: seq<string>, c: seq<string>)
    ensures (a + b) + c == a + (b + c)
  {
  }

  /** The README loop's conversions grow one article at a time. */
  lemma ConvertAllAt(env: ScriptEnv, arts: seq<Article>, files: map<string, string>, i: nat)
    requires i < |arts|
    ensures var p := ConvertAll(env, arts[..i], files);
      ConvertAll(env, arts[..i + 1], files) == ConvertNext(p, arts[i], ConvertStep(p.files, arts[i], env))
  {
    assert arts[..i + 1][..i] == arts[..i];
  }

  /** The README loop converts a prefix of the articles, in order, each
      with only its content replaced; it gets through all of them exactly
      when no conversion fails. */
  lemma {:induction false} ConvertsPrefix(env: ScriptEnv, arts: seq<Article>, files: map<string, string>)
    ensures var p := ConvertAll(env, arts, files);
      && ConvertedPrefix(p.done, arts)
      && (p.error.None? <==> |p.done| == |arts|)
    decreases |arts|
  {
    if arts != [] {
      var init := arts[..|arts| - 1];
      var prev := ConvertAll(env, init, files);
      var art := arts[|arts| - 1];
      ConvertsPrefix(env, init, files);
      NextKeepsPrefix(prev, init, art, ConvertStep(prev.files, art, env));
      assert init + [art] == arts;
    }
  }
}
