// The feed pipeline of mdnews/feed.py: every linked item of every feed that
// is not skipped becomes an article (canonical link, cover image,
// identifier, normalised content with local images), and the articles are
// sorted newest first. The network, the RSS parser and the date parser are
// parameters; the two directories the pipeline writes are the
// `ArticleCache` (build/cache) and the `ImageDir` (build/content).

module Feed {
  import opened Wrappers
  import opened Articles
  import opened Cache
  import opened Enclosures
  import opened Normalizer
  import opened Media

  /** One `<item>` of a channel, as the RSS parser returns it. */
  datatype Item = Item(
    title: string,
    description: Option<string>,
    links: seq<string>,
    enclosures: seq<Enclosure>,
    pubDate: string,
    guid: Option<string>)

  datatype Channel = Channel(title: string, items: seq<Item>)

  /** One entry of the feeds file; `skip` is the truthiness of its `skip` key. */
  datatype FeedEntry = FeedEntry(name: string, url: string, format: string, skip: bool)

  /** What the pipeline consults outside itself: the identifier hash, the
      HTTP client, the HTML-to-Markdown converter, the image download and
      conversion, `parsedate_to_datetime` and the RSS parser. */
  datatype Env = Env(
    guid: string -> string,
    fetch: Fetch,
    convert: string -> string,
    fetchImage: string -> ImageFetch,
    parseDate: string -> Option<Stamp>,
    parseRss: string -> Option<Channel>)

  const BadDate := "invalid RFC 2822 date"
  const BadRss := "invalid RSS document"
  const NoLink := "list index out of range"

  /** The two directories and the downloads made so far. */
  datatype World = World(pages: map<string, string>, pageLog: seq<string>,
                         images: set<string>, imageLog: seq<string>)

  /** A result together with the world it leaves behind. */
  datatype Run<T> = Run(result: Result<T, string>, world: World)

  function Snapshot(cache: ArticleCache, dir: ImageDir): World
    reads cache, dir
  {
    World(cache.files, cache.fetched, dir.files, dir.fetched)
  }

  function LastLink(item: Item): string
    requires item.links != []
  {
    item.links[|item.links| - 1]
  }

  function Description(item: Item): string {
    if item.description.Some? then item.description.value else ""
  }

  /** The article `__parse_item` (and `parse_item` of mdnews.py) builds
      before its content is filled in: `item.links[-1]`, the enclosure loop
      and the date parse, each of which can raise; `ident` gives the
      identifier from the link. */
  function ItemHeader(item: Item, format: string, parseDate: string -> Option<Stamp>, ident: string -> string)
    : Result<Article, string>
  {
    if item.links == [] then Err(NoLink)
    else
      var link := LastLink(item);
      match Choose(item.enclosures)
      case Err(e) => Err(e)
      case Ok(found) =>
        var image := if found.Some? then Url(found.value) else "";
        match parseDate(item.pubDate)
        case None => Err(BadDate)
        case Some(date) => Ok(Article(item.title, Description(item), link, date, image, ident(link), "", format, ""))
  }

  /** `download_images` on `art`: the rewritten article and the world after
      the mapping loop. */
  function ImagesRun(env: Env, art: Article, w: World): Run<Article> {
    if ImageUrls(art) == [] then Run(Ok(art), w)
    else
      var g := Gather(ImageUrls(art), w.images, env.guid, env.fetchImage);
      Run(Ok(Rewrite(art, g.mapping)), w.(images := g.files, imageLog := w.imageLog + g.fetched))
  }

  /** `convert_content` then `download_images` on the header `art`. */
  function FillItem(env: Env, art: Article, w: World): Run<Article> {
    var o := MarkdownStep(w.pages, art.link, env.guid, env.fetch, env.convert);
    var w1 := w.(pages := o.files, pageLog := w.pageLog + o.fetched);
    if o.result.Err? then Run(Err(o.result.error), w1)
    else ImagesRun(env, art.(content := Normalize(o.result.value)), w1)
  }

  /** `__parse_item`. */
  function ParseItemSpec(env: Env, format: string, item: Item, w: World): Run<Article> {
    match ItemHeader(item, format, env.parseDate, env.guid)
    case Err(e) => Run(Err(e), w)
    case Ok(art) => FillItem(env, art, w)
  }

  function ItemParser(env: Env, format: string): (Item, World) -> Run<Article> {
    (item, w) => ParseItemSpec(env, format, item, w)
  }

  /** The item loop of `__parse_feed`, before the sort, with each item
      parsed by `parse`: linkless items are skipped, every other article
      gets the channel title as `attr`, and the first error ends the loop. */
  function ItemsBy(title: string, items: seq<Item>, w: World, parse: (Item, World) -> Run<Article>)
    : Run<seq<Article>>
  {
    if items == [] then Run(Ok([]), w)
    else ItemsStep(title, ItemsBy(title, items[..|items| - 1], w, parse), items[|items| - 1], parse)
  }

  /** One iteration of the item loop after `prev`. */
  function ItemsStep(title: string, prev: Run<seq<Article>>, item: Item, parse: (Item, World) -> Run<Article>)
    : Run<seq<Article>>
  {
    if prev.result.Err? || item.links == [] then prev
    else
      var r := parse(item, prev.world);
      if r.result.Err? then Run(Err(r.result.error), r.world)
      else Run(Ok(prev.result.value + [r.result.value.(attr := title)]), r.world)
  }

  /** `__parse_feed`: the item loop, then `arts.sort()`. */
  function ParseFeedSpec(env: Env, format: string, ch: Channel, w: World): Run<seq<Article>> {
    var r := ItemsBy(ch.title, ch.items, w, ItemParser(env, format));
    if r.result.Err? then r else Run(Ok(SortNewestFirst(r.result.value)), r.world)
  }

  /** `__download_and_parse`: fetch the feed, parse it, parse its items. */
  function FeedSpec(env: Env, feed: FeedEntry, w: World): Run<seq<Article>> {
    match env.fetch(feed.url)
    case Err(e) => Run(Err(e), w)
    case Ok(text) =>
      match env.parseRss(text)
      case None => Run(Err(BadRss), w)
      case Some(ch) => ParseFeedSpec(env, feed.format, ch, w)
  }

  function FeedParser(env: Env): (FeedEntry, World) -> Run<seq<Article>> {
    (feed, w) => FeedSpec(env, feed, w)
  }

  /** The feed loop of `download_feeds`, before the sort, with each feed
      handled by `parse`: skipped feeds are passed over, the others'
      articles are concatenated, and the first error ends the loop. */
  function FeedsBy(feeds: seq<FeedEntry>, w: World, parse: (FeedEntry, World) -> Run<seq<Article>>)
    : Run<seq<Article>>
  {
    if feeds == [] then Run(Ok([]), w)
    else FeedsStep(FeedsBy(feeds[..|feeds| - 1], w, parse), feeds[|feeds| - 1], parse)
  }

  /** One iteration of the feed loop after `prev`. */
  function FeedsStep(prev: Run<seq<Article>>, feed: FeedEntry, parse: (FeedEntry, World) -> Run<seq<Article>>)
    : Run<seq<Article>>
  {
    if prev.result.Err? || feed.skip then prev
    else
      var r := parse(feed, prev.world);
      if r.result.Err? then r
      else Run(Ok(prev.result.value + r.result.value), r.world)
  }

  /** `download_feeds`: the feed loop, then `arts.sort()`. */
  function DownloadFeedsSpec(env: Env, feeds: seq<FeedEntry>, w: World): Run<seq<Article>> {
    var r := FeedsBy(feeds, w, FeedParser(env));
    if r.result.Err? then r else Run(Ok(SortNewestFirst(r.result.value)), r.world)
  }

  // ---------------------------------------------------------------------
  // The pipeline, step by step
  // ---------------------------------------------------------------------

  /** The header part of `__parse_item`. */
  method ReadHeader(item: Item, format: string, parseDate: string -> Option<Stamp>, ident: string -> string)
    returns (r: Result<Article, string>)
    ensures r == ItemHeader(item, format, parseDate, ident)
  {
    if item.links == [] {
      return Err(NoLink);
    }
    var link := item.links[|item.links| - 1];
    var found := ChooseEnclosure(item.enclosures, Length);
    if found.Err? {
      return Err(found.error);
    }
    var image := "";
    if found.value.Some? {
      image := Url(found.value.value);
    }
    var date := parseDate(item.pubDate);
    if date.None? {
      return Err(BadDate);
    }
    r := Ok(Article(item.title, Description(item), link, date.value, image, ident(link), "", format, ""));
  }

  /** `convert_content` followed by `download_images`. */
  method Fill(cache: ArticleCache, dir: ImageDir, env: Env, art: Article) returns (r: Result<Article, string>)
    modifies cache, dir
    ensures Run(r, Snapshot(cache, dir)) == FillItem(env, art, old(Snapshot(cache, dir)))
  {
    var text := cache.Markdown(art.link, env.guid, env.fetch, env.convert);
    if text.Err? {
      return Err(text.error);
    }
    var out := DownloadImages(dir, art.(content := Normalize(text.value)), env.guid, env.fetchImage);
    r := Ok(out);
  }

  /** `__parse_item`. */
  method ParseItem(cache: ArticleCache, dir: ImageDir, env: Env, format: string, item: Item)
    returns (r: Result<Article, string>)
    modifies cache, dir
    ensures Run(r, Snapshot(cache, dir)) == ParseItemSpec(env, format, item, old(Snapshot(cache, dir)))
  {
    var header := ReadHeader(item, format, env.parseDate, env.guid);
    if header.Err? {
      return Err(header.error);
    }
    r := Fill(cache, dir, env, header.value);
  }

  /** Once the item loop has raised, later items change nothing. */
  lemma {:induction false} ItemsErrPersists(title: string, items: seq<Item>, j: nat, w: World,
                                            parse: (Item, World) -> Run<Article>)
    requires j <= |items| && ItemsBy(title, items[..j], w, parse).result.Err?
    ensures ItemsBy(title, items, w, parse) == ItemsBy(title, items[..j], w, parse)
    decreases |items| - j
  {
    if j == |items| {
      assert items[..j] == items;
    } else {
      var init := items[..|items| - 1];
      assert init[..j] == items[..j];
      ItemsErrPersists(title, init, j, w, parse);
    }
  }

  /** The item loop over one item more. */
  lemma ItemsByStep(title: string, items: seq<Item>, i: nat, w: World, parse: (Item, World) -> Run<Article>)
    requires i < |items|
    ensures ItemsBy(title, items[..i + 1], w, parse) == ItemsStep(title, ItemsBy(title, items[..i], w, parse), items[i], parse)
  {
    assert items[..i + 1][..i] == items[..i];
  }

  /** `__parse_feed`. */
  method ParseFeed(cache: ArticleCache, dir: ImageDir, env: Env, format: string, ch: Channel)
    returns (r: Result<seq<Article>, string>)
    modifies cache, dir
    ensures Run(r, Snapshot(cache, dir)) == ParseFeedSpec(env, format, ch, old(Snapshot(cache, dir)))
  {
    var arts: seq<Article> := [];
    var i := 0;
    while i < |ch.items|
      invariant i <= |ch.items|
      invariant ItemsBy(ch.title, ch.items[..i], old(Snapshot(cache, dir)), ItemParser(env, format))
                == Run(Ok(arts), Snapshot(cache, dir))
    {
      ItemsByStep(ch.title, ch.items, i, old(Snapshot(cache, dir)), ItemParser(env, format));
      var next := ParseFeedItem(cache, dir, env, format, ch.title, ch.items[i], arts);
      if next.Err? {
        ItemsErrPersists(ch.title, ch.items, i + 1, old(Snapshot(cache, dir)), ItemParser(env, format));
        return next;
      }
      arts := next.value;
      i := i + 1;
    }
    assert ch.items[..i] == ch.items;
    r := Ok(SortNewestFirst(arts));
  }

  /** One iteration of the item loop of `__parse_feed`. */
  method ParseFeedItem(cache: ArticleCache, dir: ImageDir, env: Env, format: string, title: string,
                       item: Item, arts: seq<Article>)
    returns (r: Result<seq<Article>, string>)
    modifies cache, dir
    ensures Run(r, Snapshot(cache, dir)) == ItemsStep(title, Run(Ok(arts), old(Snapshot(cache, dir))), item, ItemParser(env, format))
  {
    if item.links == [] {
      return Ok(arts);
    }
    var a := ParseItem(cache, dir, env, format, item);
    if a.Err? {
      return Err(a.error);
    }
    r := Ok(arts + [a.value.(attr := title)]);
  }

  /** `__download_and_parse`. */
  method DownloadAndParse(cache: ArticleCache, dir: ImageDir, env: Env, feed: FeedEntry)
    returns (r: Result<seq<Article>, string>)
    modifies cache, dir
    ensures Run(r, Snapshot(cache, dir)) == FeedSpec(env, feed, old(Snapshot(cache, dir)))
  {
    var response := env.fetch(feed.url);
    if response.Err? {
      return Err(response.error);
    }
    var rss := env.parseRss(response.value);
    if rss.None? {
      return Err(BadRss);
    }
    r := ParseFeed(cache, dir, env, feed.format, rss.value);
  }

  /** Once the feed loop has raised, later feeds change nothing. */
  lemma {:induction false} FeedsErrPersists(feeds: seq<FeedEntry>, j: nat, w: World,
                                            parse: (FeedEntry, World) -> Run<seq<Article>>)
    requires j <= |feeds| && FeedsBy(feeds[..j], w, parse).result.Err?
    ensures FeedsBy(feeds, w, parse) == FeedsBy(feeds[..j], w, parse)
    decreases |feeds| - j
  {
    if j == |feeds| {
      assert feeds[..j] == feeds;
    } else {
      var init := feeds[..|feeds| - 1];
      assert init[..j] == feeds[..j];
      FeedsErrPersists(init, j, w, parse);
    }
  }

  /** One iteration of the feed loop of `download_feeds`. */
  method DownloadFeedsItem(cache: ArticleCache, dir: ImageDir, env: Env, feed: FeedEntry, arts: seq<Article>)
    returns (r: Result<seq<Article>, string>)
    modifies cache, dir
    ensures Run(r, Snapshot(cache, dir)) == FeedsStep(Run(Ok(arts), old(Snapshot(cache, dir))), feed, FeedParser(env))
  {
    if feed.skip {
      return Ok(arts);
    }
    var more := DownloadAndParse(cache, dir, env, feed);
    if more.Err? {
      return more;
    }
    r := Ok(arts + more.value);
  }

  /** `download_feeds`, once the feeds file has been read. */
  method DownloadFeeds(cache: ArticleCache, dir: ImageDir, env: Env, feeds: seq<FeedEntry>)
    returns (r: Result<seq<Article>, string>)
    modifies cache, dir
    ensures Run(r, Snapshot(cache, dir)) == DownloadFeedsSpec(env, feeds, old(Snapshot(cache, dir)))
  {
    var arts: seq<Article> := [];
    var i := 0;
    while i < |feeds|
      invariant i <= |feeds|
      invariant FeedsBy(feeds[..i], old(Snapshot(cache, dir)), FeedParser(env)) == Run(Ok(arts), Snapshot(cache, dir))
    {
      assert feeds[..i + 1][..i] == feeds[..i];
      var next := DownloadFeedsItem(cache, dir, env, feeds[i], arts);
      if next.Err? {
        FeedsErrPersists(feeds, i + 1, old(Snapshot(cache, dir)), FeedParser(env));
        return next;
      }
      arts := next.value;
      i := i + 1;
    }
    assert feeds[..i] == feeds;
    r := Ok(SortNewestFirst(arts));
  }

  // ---------------------------------------------------------------------
  // Properties of one item
  // ---------------------------------------------------------------------

  /** Parsing an item fails before any download exactly when it has no
      link, the enclosure loop raises (two or more enclosures, one length
      `int()` rejects) or the date does not parse. */
  lemma ItemHeaderFailsIff(item: Item, format: string, parseDate: string -> Option<Stamp>, ident: string -> string)
    ensures ItemHeader(item, format, parseDate, ident).Err? <==>
      || item.links == []
      || (|item.enclosures| >= 2 && !AllLengths(item.enclosures, Length))
      || parseDate(item.pubDate).None?
  {
    ChooseFailsIff(item.enclosures, Length);
  }

  /** The cover is `""` without enclosures, the only enclosure's URL with
      one, and otherwise the URL of the last enclosure of largest length. */
  lemma CoverIsLastLongest(item: Item, format: string, parseDate: string -> Option<Stamp>, ident: string -> string)
    requires ItemHeader(item, format, parseDate, ident).Ok?
    ensures |item.enclosures| >= 2 ==> AllLengths(item.enclosures, Length)
    ensures var encs := item.enclosures;
      ItemHeader(item, format, parseDate, ident).value.image ==
        if encs == [] then ""
        else if |encs| == 1 then Url(encs[0])
        else Url(encs[LastMaxOf(LengthList(encs, Length))])
  {
    var encs := item.enclosures;
    ChooseNoneIff(encs, Length);
    ChooseFailsIff(encs, Length);
    if |encs| == 1 {
      ChooseSingle(encs, Length);
    } else if |encs| >= 2 {
      ChooseIsLastMax(encs, Length);
    }
  }

  /** Filling in the content and the images changes no other field. */
  lemma FillKeepsHeader(env: Env, art: Article, w: World)
    requires FillItem(env, art, w).result.Ok?
    ensures var a := FillItem(env, art, w).result.value;
      a == art.(content := a.content, image := a.image)
  {
  }

  /** The header takes the last link, is identified by `ident` of that
      link, keeps the item's title, description and date, carries the
      feed's format and has no `attr` yet. */
  lemma HeaderFields(item: Item, format: string, parseDate: string -> Option<Stamp>, ident: string -> string)
    requires ItemHeader(item, format, parseDate, ident).Ok?
    ensures item.links != []
    ensures var a := ItemHeader(item, format, parseDate, ident).value;
      && a.link == LastLink(item)
      && a.guid == ident(LastLink(item))
      && a.title == item.title
      && a.description == Description(item)
      && Some(a.date) == parseDate(item.pubDate)
      && a.format == format
      && a.attr == ""
  {
  }

  /** The parsed item is its header with content and image filled in. */
  lemma ItemIsFilledHeader(env: Env, format: string, item: Item, w: World)
    requires ParseItemSpec(env, format, item, w).result.Ok?
    ensures ItemHeader(item, format, env.parseDate, env.guid).Ok?
    ensures var a := ParseItemSpec(env, format, item, w).result.value;
      a == ItemHeader(item, format, env.parseDate, env.guid).value.(content := a.content, image := a.image)
  {
    FillKeepsHeader(env, ItemHeader(item, format, env.parseDate, env.guid).value, w);
  }

  /** So the article takes the item's last link, is identified by the hash
      of that link, and carries the feed's format. */
  lemma ItemFields(env: Env, format: string, item: Item, w: World)
    requires ParseItemSpec(env, format, item, w).result.Ok?
    ensures item.links != []
    ensures var a := ParseItemSpec(env, format, item, w).result.value;
      a.link == LastLink(item) && a.guid == env.guid(LastLink(item)) && a.format == format && a.attr == ""
  {
    ItemIsFilledHeader(env, format, item, w);
    HeaderFields(item, format, env.parseDate, env.guid);
  }

  /** The identifier the item declares plays no part. */
  lemma DeclaredGuidIgnored(env: Env, format: string, item: Item, g: Option<string>, w: World)
    ensures ParseItemSpec(env, format, item.(guid := g), w) == ParseItemSpec(env, format, item, w)
  {
    HeaderIgnoresGuid(item, g, format, env.parseDate, env.guid);
  }

  lemma HeaderIgnoresGuid(item: Item, g: Option<string>, format: string, parseDate: string -> Option<Stamp>,
                          ident: string -> string)
    ensures ItemHeader(item.(guid := g), format, parseDate, ident) == ItemHeader(item, format, parseDate, ident)
  {
  }

  /** The content is the normalised cached Markdown, and the images are
      looked for in that normalised text, not in the raw one: without image
      references and cover the content is exactly the normalised text, and
      every image downloaded is one of the normalised article's images. */
  lemma ContentNormalisedFirst(env: Env, art: Article, w: World)
    requires GuidInjective(env.guid) && FillItem(env, art, w).result.Ok?
    ensures var r := FillItem(env, art, w);
      var o := MarkdownStep(w.pages, art.link, env.guid, env.fetch, env.convert);
      && o.result.Ok?
      && var a := art.(content := Normalize(o.result.value));
         && (ImageUrls(a) == [] ==> r.result.value == a)
         && |w.imageLog| <= |r.world.imageLog|
         && (forall k :: |w.imageLog| <= k < |r.world.imageLog| ==> r.world.imageLog[k] in ImageUrls(a))
  {
    var o := MarkdownStep(w.pages, art.link, env.guid, env.fetch, env.convert);
    var a := art.(content := Normalize(o.result.value));
    if ImageUrls(a) != [] {
      GatherFacts(ImageUrls(a), w.images, env.guid, env.fetchImage);
    }
  }

  // ---------------------------------------------------------------------
  // Properties of one feed
  // ---------------------------------------------------------------------

  /** The items that have at least one link, in order. */
  function Linked(items: seq<Item>): (r: seq<Item>)
    ensures |r| <= |items|
    ensures forall k :: 0 <= k < |r| ==> r[k].links != []
  {
    if items == [] then []
    else Linked(items[..|items| - 1]) + (if items[|items| - 1].links != [] then [items[|items| - 1]] else [])
  }

  /** Items without links are skipped: the loop over all items does what
      the loop over the linked ones does. */
  lemma {:induction false} LinklessItemsSkipped(title: string, items: seq<Item>, w: World,
                                                parse: (Item, World) -> Run<Article>)
    ensures ItemsBy(title, items, w, parse) == ItemsBy(title, Linked(items), w, parse)
    decreases |items|
  {
    if items != [] {
      var init := items[..|items| - 1];
      LinklessItemsSkipped(title, init, w, parse);
      var l := Linked(items);
      var last := items[|items| - 1];
      if last.links != [] {
        assert l == Linked(init) + [last];
        assert l[..|l| - 1] == Linked(init) && l[|l| - 1] == last;
      } else {
        assert l == Linked(init);
      }
    }
  }

  /** A parse that keeps an item's last link as the article's link. */
  ghost predicate KeepsLink(parse: (Item, World) -> Run<Article>) {
    forall item, w :: parse(item, w).result.Ok? ==> item.links != [] && parse(item, w).result.value.link == LastLink(item)
  }

  lemma ItemParserKeepsLink(env: Env, format: string)
    ensures KeepsLink(ItemParser(env, format))
  {
    forall item, w | ItemParser(env, format)(item, w).result.Ok?
      ensures item.links != [] && ItemParser(env, format)(item, w).result.value.link == LastLink(item)
    {
      ItemFields(env, format, item, w);
    }
  }

  /** Every linked item yields exactly one article, in item order, whose
      `attr` is the channel title and whose link is the item's last link. */
  lemma {:induction false} OneArticlePerLinkedItem(title: string, items: seq<Item>, w: World,
                                                   parse: (Item, World) -> Run<Article>)
    requires KeepsLink(parse) && ItemsBy(title, items, w, parse).result.Ok?
    ensures var arts := ItemsBy(title, items, w, parse).result.value;
      var linked := Linked(items);
      && |arts| == |linked|
      && forall k :: 0 <= k < |arts| ==> arts[k].attr == title && arts[k].link == LastLink(linked[k])
    decreases |items|
  {
    if items != [] {
      var init := items[..|items| - 1];
      OneArticlePerLinkedItem(title, init, w, parse);
    }
  }

  /** `__parse_feed` returns one article per linked item, newest first, as
      a permutation of the loop's list in which articles of equal date keep
      their order. */
  lemma ParsedFeed(env: Env, format: string, ch: Channel, w: World)
    requires ParseFeedSpec(env, format, ch, w).result.Ok?
    ensures var arts := ParseFeedSpec(env, format, ch, w).result.value;
      var loop := ItemsBy(ch.title, ch.items, w, ItemParser(env, format)).result.value;
      && |loop| == |Linked(ch.items)|
      && (forall k :: 0 <= k < |loop| ==> loop[k].attr == ch.title && loop[k].link == LastLink(Linked(ch.items)[k]))
      && NewestFirst(arts)
      && multiset(arts) == multiset(loop)
      && forall t :: AtInstant(arts, t) == AtInstant(loop, t)
  {
    var loop := ItemsBy(ch.title, ch.items, w, ItemParser(env, format)).result.value;
    ItemParserKeepsLink(env, format);
    OneArticlePerLinkedItem(ch.title, ch.items, w, ItemParser(env, format));
    SortIsNewestFirst(loop);
    forall t ensures AtInstant(SortNewestFirst(loop), t) == AtInstant(loop, t) {
      SortIsStable(loop, t);
    }
  }

  // ---------------------------------------------------------------------
  // Properties of the whole run
  // ---------------------------------------------------------------------

  /** The feeds whose `skip` is falsy, in order. */
  function Kept(feeds: seq<FeedEntry>): (r: seq<FeedEntry>)
    ensures |r| <= |feeds|
    ensures forall k :: 0 <= k < |r| ==> !r[k].skip
  {
    if feeds == [] then []
    else Kept(feeds[..|feeds| - 1]) + (if feeds[|feeds| - 1].skip then [] else [feeds[|feeds| - 1]])
  }

  /** Skipped feeds contribute nothing, not even a download. */
  lemma {:induction false} SkippedFeedsIgnored(feeds: seq<FeedEntry>, w: World,
                                               parse: (FeedEntry, World) -> Run<seq<Article>>)
    ensures FeedsBy(feeds, w, parse) == FeedsBy(Kept(feeds), w, parse)
    decreases |feeds|
  {
    if feeds != [] {
      var init := feeds[..|feeds| - 1];
      SkippedFeedsIgnored(init, w, parse);
      var k := Kept(feeds);
      var last := feeds[|feeds| - 1];
      if !last.skip {
        assert k == Kept(init) + [last];
        assert k[..|k| - 1] == Kept(init) && k[|k| - 1] == last;
      } else {
        assert k == Kept(init);
      }
    }
  }

  /** The feed loop composes: running it over `a + b` runs it over `a`,
      then over `b` from where `a` left the world, and concatenates. So the
      articles of every feed that is not skipped are all present, feed by
      feed in file order. */
  lemma {:induction false} FeedsConcatenate(a: seq<FeedEntry>, b: seq<FeedEntry>, w: World,
                                            parse: (FeedEntry, World) -> Run<seq<Article>>)
    ensures var ra := FeedsBy(a, w, parse);
      var rb := FeedsBy(b, ra.world, parse);
      FeedsBy(a + b, w, parse) ==
        if ra.result.Err? then ra
        else if rb.result.Err? then rb
        else Run(Ok(ra.result.value + rb.result.value), rb.world)
    decreases |b|
  {
    var ra := FeedsBy(a, w, parse);
    if b == [] {
      assert a + b == a;
      assert ra.result.Ok? ==> ra.result.value + [] == ra.result.value;
    } else if ra.result.Err? {
      assert (a + b)[..|a|] == a;
      FeedsErrPersists(a + b, |a|, w, parse);
    } else {
      var init := b[..|b| - 1];
      FeedsConcatenate(a, init, w, parse);
      assert (a + b)[..|a + b| - 1] == a + init;
      var ri := FeedsBy(init, ra.world, parse);
      if ri.result.Ok? && !b[|b| - 1].skip {
        var rf := parse(b[|b| - 1], ri.world);
        if rf.result.Ok? {
          assert ra.result.value + ri.result.value + rf.result.value
              == ra.result.value + (ri.result.value + rf.result.value);
        }
      }
    }
  }

  /** A single feed that is not skipped contributes what its own download
      and parse return. */
  lemma OneFeed(f: FeedEntry, w: World, parse: (FeedEntry, World) -> Run<seq<Article>>)
    ensures FeedsBy([f], w, parse) == if f.skip then Run(Ok([]), w) else parse(f, w)
  {
    assert [f][..0] == [];
    var r := parse(f, w);
    if r.result.Ok? {
      assert [] + r.result.value == r.result.value;
    }
  }

  /** `download_feeds` returns every article of the loop, newest first, with
      articles of equal date in the loop's order. */
  lemma DownloadedFeedsSorted(env: Env, feeds: seq<FeedEntry>, w: World)
    requires DownloadFeedsSpec(env, feeds, w).result.Ok?
    ensures var arts := DownloadFeedsSpec(env, feeds, w).result.value;
      var loop := FeedsBy(feeds, w, FeedParser(env)).result.value;
      && NewestFirst(arts)
      && multiset(arts) == multiset(loop)
      && forall t :: AtInstant(arts, t) == AtInstant(loop, t)
  {
    var loop := FeedsBy(feeds, w, FeedParser(env)).result.value;
    SortIsNewestFirst(loop);
    forall t ensures AtInstant(SortNewestFirst(loop), t) == AtInstant(loop, t) {
      SortIsStable(loop, t);
    }
  }
}
