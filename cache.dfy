// The article cache of mdnews/cache.py (and the HTML cache of mdnews.py):
// a directory of files under build/cache that is filled on a miss and read
// on a hit. The directory is a map from path to contents; the network and
// the HTML-to-Markdown converter are function parameters.

module Cache {
  import opened Wrappers

  /** `requests.get(url).text`, or the error it raises. */
  type Fetch = string -> Result<string, string>

  const CacheDir := "build/cache/"
  const HtmlExt := ".html"
  const MarkdownExt := ".md"

  function HtmlPath(key: string): string { CacheDir + key + HtmlExt }

  function MarkdownPath(key: string): string { CacheDir + key + MarkdownExt }

  /** An HTML file and a Markdown file never share a path. */
  lemma HtmlIsNotMarkdown(k1: string, k2: string)
    ensures HtmlPath(k1) != MarkdownPath(k2)
  {
    var h := HtmlPath(k1);
    var m := MarkdownPath(k2);
    assert h[|h| - 1] == 'l';
    assert m[|m| - 1] == 'd';
  }

  /** Distinct keys name distinct files. */
  lemma PathsInjective(k1: string, k2: string)
    ensures HtmlPath(k1) == HtmlPath(k2) ==> k1 == k2
    ensures MarkdownPath(k1) == MarkdownPath(k2) ==> k1 == k2
  {
    if HtmlPath(k1) == HtmlPath(k2) {
      assert |k1| == |k2|;
      assert k1 == HtmlPath(k1)[|CacheDir|..|CacheDir| + |k1|];
    }
    if MarkdownPath(k1) == MarkdownPath(k2) {
      assert |k1| == |k2|;
      assert k1 == MarkdownPath(k1)[|CacheDir|..|CacheDir| + |k1|];
    }
  }

  /** One cache call: what it returns, the directory afterwards and the
      links it fetched. */
  datatype Outcome = Outcome(result: Result<string, string>, files: map<string, string>, fetched: seq<string>)

  /** `get_article_html_file`: the path of the cached page for `key`,
      fetching `link` and storing the page text first when the file is
      missing. A failed fetch writes nothing. */
  function HtmlStep(files: map<string, string>, key: string, link: string, fetch: Fetch): (o: Outcome)
    ensures o.result.Ok? ==> o.result.value == HtmlPath(key) && HtmlPath(key) in o.files
  {
    var path := HtmlPath(key);
    if path in files then Outcome(Ok(path), files, [])
    else match fetch(link)
      case Ok(text) => Outcome(Ok(path), files[path := text], [link])
      case Err(e) => Outcome(Err(e), files, [link])
  }

  /** `get_article_markdown`: the cached Markdown for `link`, or the
      converted cached page, stored before it is returned. */
  function MarkdownStep(files: map<string, string>, link: string, guid: string -> string,
                        fetch: Fetch, convert: string -> string): Outcome
  {
    var key := guid(link);
    var md := MarkdownPath(key);
    if md in files then Outcome(Ok(files[md]), files, [])
    else
      var h := HtmlStep(files, key, link, fetch);
      if h.result.Err? then h
      else
        var text := convert(h.files[HtmlPath(key)]);
        Outcome(Ok(text), h.files[md := text], h.fetched)
  }

  /** Everything outside `paths` is as it was. */
  predicate SameOutside(before: map<string, string>, after: map<string, string>, paths: set<string>) {
    && (forall p :: p in after && p !in paths ==> p in before && after[p] == before[p])
    && (forall p :: p in before && p !in paths ==> p in after)
  }

  /** A hit on the HTML cache fetches nothing and changes nothing; a miss
      fetches exactly once and stores exactly what was fetched. */
  lemma HtmlHitOrMiss(files: map<string, string>, key: string, link: string, fetch: Fetch)
    ensures var o := HtmlStep(files, key, link, fetch);
      && (HtmlPath(key) in files ==> o == Outcome(Ok(HtmlPath(key)), files, []))
      && (HtmlPath(key) !in files ==>
            && o.fetched == [link]
            && (fetch(link).Ok? <==> o.result.Ok?)
            && (fetch(link).Ok? ==> o.files == files[HtmlPath(key) := fetch(link).value])
            && (fetch(link).Err? ==> o.files == files))
  {
  }

  /** The Markdown cache: a hit returns the stored text and neither fetches
      nor converts nor writes; a miss stores the text it returns. Only the
      two files named by `guid(link)` can change. */
  lemma MarkdownHitOrMiss(files: map<string, string>, link: string, guid: string -> string,
                          fetch: Fetch, convert: string -> string)
    ensures var o := MarkdownStep(files, link, guid, fetch, convert);
      var md := MarkdownPath(guid(link));
      && (md in files ==> o == Outcome(Ok(files[md]), files, []))
      && (o.result.Ok? ==> md in o.files && o.files[md] == o.result.value)
      && |o.fetched| <= 1
      && (o.fetched != [] ==> o.fetched == [link] && md !in files && HtmlPath(guid(link)) !in files)
      && SameOutside(files, o.files, {HtmlPath(guid(link)), md})
  {
    var key := guid(link);
    HtmlIsNotMarkdown(key, key);
  }

  /** Calling `get_article_markdown` again after a success returns the same
      text, fetches nothing and leaves the directory as it is. */
  lemma MarkdownTwice(files: map<string, string>, link: string, guid: string -> string,
                      fetch: Fetch, convert: string -> string)
    requires MarkdownStep(files, link, guid, fetch, convert).result.Ok?
    ensures var o := MarkdownStep(files, link, guid, fetch, convert);
      MarkdownStep(o.files, link, guid, fetch, convert) == Outcome(o.result, o.files, [])
  {
    MarkdownHitOrMiss(files, link, guid, fetch, convert);
  }

  /** The cache directory (build/cache). `fetched` records, in order, every
      link the cache downloaded. */
  class ArticleCache {
    var files: map<string, string>
    var fetched: seq<string>

    constructor (existing: map<string, string>)
      ensures files == existing && fetched == []
    {
      files := existing;
      fetched := [];
    }

    /** `get_article_html_file`, keyed by `key`: `guid(link)` in
        mdnews/cache.py, the article's identifier in mdnews.py. */
    method HtmlFile(key: string, link: string, fetch: Fetch) returns (r: Result<string, string>)
      modifies this
      ensures var o := HtmlStep(old(files), key, link, fetch);
        r == o.result && files == o.files && fetched == old(fetched) + o.fetched
    {
      var path := HtmlPath(key);
      if path in files {
        return Ok(path);
      }
      var response := fetch(link);
      fetched := fetched + [link];
      if response.Err? {
        return Err(response.error);
      }
      files := files[path := response.value];
      r := Ok(path);
    }

    /** `get_article_markdown`. */
    method Markdown(link: string, guid: string -> string, fetch: Fetch, convert: string -> string)
      returns (r: Result<string, string>)
      modifies this
      ensures var o := MarkdownStep(old(files), link, guid, fetch, convert);
        r == o.result && files == o.files && fetched == old(fetched) + o.fetched
    {
      var md := MarkdownPath(guid(link));
      if md in files {
        return Ok(files[md]);
      }
      var html := HtmlFile(guid(link), link, fetch);
      if html.Err? {
        return html;
      }
      var text := convert(files[html.value]);
      files := files[md := text];
      r := Ok(text);
    }

    /** Writes `text` to `path`, replacing any earlier contents. */
    method Write(path: string, text: string)
      modifies this
      ensures files == old(files)[path := text] && fetched == old(fetched)
    {
      files := files[path := text];
    }
  }

  /** Two calls in a row: the second returns what the first did and
      downloads nothing. */
  method MarkdownRepeated(c: ArticleCache, link: string, guid: string -> string,
                          fetch: Fetch, convert: string -> string)
    returns (first: Result<string, string>, second: Result<string, string>)
    modifies c
    ensures first.Ok? ==> second == first
    ensures first.Ok? ==> |c.fetched| <= |old(c.fetched)| + 1
  {
    first := c.Markdown(link, guid, fetch, convert);
    if first.Ok? {
      MarkdownTwice(old(c.files), link, guid, fetch, convert);
    }
    MarkdownHitOrMiss(old(c.files), link, guid, fetch, convert);
    second := c.Markdown(link, guid, fetch, convert);
  }
}
