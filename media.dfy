// The image pass of mdnews/content.py (`download_images`): collect the
// image references of an article and its cover, give each URL a local file
// name (or the placeholder when the download fails), rewrite every
// occurrence of each URL, rewrite the cover and drop the references that
// point at the placeholder. Downloading, decoding and re-encoding an image
// are one outcome per URL.

module Media {
  import opened Wrappers
  import opened Text
  import opened Articles

  // ---------------------------------------------------------------------
  // Finding image references
  // ---------------------------------------------------------------------

  /** The run `(?:[^<close>\\]|\\.)*` followed by `close`: ordinary
      characters other than `close` and the backslash, or a backslash with
      any character but a newline. Gives the offset of `close`; the run
      cannot be shortened to end elsewhere before a `close`, so there is no
      other way to match. */
  function EscapedRun(s: string, i: nat, close: char): (r: Option<nat>)
    ensures r.Some? ==> i <= r.value < |s| && s[r.value] == close
    decreases |s| - i
  {
    if i >= |s| then None
    else if s[i] == close then Some(i)
    else if s[i] == '\\' then
      (if i + 1 < |s| && s[i + 1] != '\n' then EscapedRun(s, i + 2, close) else None)
    else EscapedRun(s, i + 1, close)
  }

  /** A run free of `close` and of backslashes ends at the first `close`. */
  lemma {:induction false} PlainRun(s: string, i: nat, j: nat, close: char)
    requires i <= j < |s| && s[j] == close && close != '\\'
    requires forall k :: i <= k < j ==> s[k] != close && s[k] != '\\'
    ensures EscapedRun(s, i, close) == Some(j)
    decreases j - i
  {
    if i < j {
      PlainRun(s, i + 1, j, close);
    }
  }

  /** One match of `!\[(alt)\]\((url)\)`. */
  datatype ImageRef = ImageRef(alt: string, url: string, end: nat)

  function RefText(alt: string, url: string): string {
    "![" + alt + "](" + url + ")"
  }

  function ImageRefAt(s: string, i: nat): (r: Option<ImageRef>)
    ensures r.Some? ==> i < r.value.end <= |s| && s[i..r.value.end] == RefText(r.value.alt, r.value.url)
  {
    if i + 1 >= |s| || s[i] != '!' || s[i + 1] != '[' then None
    else match EscapedRun(s, i + 2, ']')
      case None => None
      case Some(a) =>
        if a + 1 >= |s| || s[a + 1] != '(' then None
        else match EscapedRun(s, a + 2, ')')
          case None => None
          case Some(b) =>
            RefShape(s, i, a, b);
            Some(ImageRef(s[i + 2..a], s[a + 2..b], b + 1))
  }

  lemma RefShape(s: string, i: nat, a: nat, b: nat)
    requires i + 2 <= a && a + 2 <= b < |s|
    requires s[i] == '!' && s[i + 1] == '[' && s[a] == ']' && s[a + 1] == '(' && s[b] == ')'
    ensures s[i..b + 1] == RefText(s[i + 2..a], s[a + 2..b])
  {
    calc {
      s[i..b + 1];
      { assert s[i..b + 1] == s[i..i + 2] + s[i + 2..a] + s[a..a + 2] + s[a + 2..b] + s[b..b + 1]; }
      s[i..i + 2] + s[i + 2..a] + s[a..a + 2] + s[a + 2..b] + s[b..b + 1];
      { assert s[i..i + 2] == "![" && s[a..a + 2] == "](" && s[b..b + 1] == ")"; }
      RefText(s[i + 2..a], s[a + 2..b]);
    }
  }

  /** `re.findall`: matches tried at every offset from the left, resuming
      after each match; each match gives its two groups (alt, url). */
  function FindImageRefsFrom(s: string, i: nat): seq<(string, string)>
    decreases |s| - i
  {
    if i >= |s| then []
    else match ImageRefAt(s, i)
      case Some(r) => [(r.alt, r.url)] + FindImageRefsFrom(s, r.end)
      case None => FindImageRefsFrom(s, i + 1)
  }

  function FindImageRefs(s: string): seq<(string, string)> {
    FindImageRefsFrom(s, 0)
  }

  /** Every reported reference is present in the text, written out as
      `![alt](url)`. */
  lemma {:induction false} RefsOccur(s: string, i: nat)
    ensures forall r :: r in FindImageRefsFrom(s, i) ==> Contains(s, RefText(r.0, r.1))
    decreases |s| - i
  {
    if i < |s| {
      match ImageRefAt(s, i)
      case Some(m) =>
        RefsOccur(s, m.end);
        assert OccursAt(s, RefText(m.alt, m.url), i);
      case None =>
        RefsOccur(s, i + 1);
    }
  }

  /** No `![` starts at any offset in `[i, j)` of `s`. */
  predicate NoRefStart(s: string, i: nat, j: nat) {
    forall k :: i <= k < j ==> !RefStartsAt(s, k)
  }

  /** `![` starts at offset `k`. */
  predicate RefStartsAt(s: string, k: nat) {
    k + 1 < |s| && s[k] == '!' && s[k + 1] == '['
  }

  /** The scan passes over a stretch where no `![` starts. */
  lemma {:induction false} FindSkips(s: string, i: nat, j: nat)
    requires i <= j <= |s| && NoRefStart(s, i, j)
    ensures FindImageRefsFrom(s, i) == FindImageRefsFrom(s, j)
    decreases j - i
  {
    if i < j {
      assert !RefStartsAt(s, i);
      FindSkips(s, i + 1, j);
    }
  }

  /** In `p + RefText(alt, url) + q`, where `p` and `q` hold no `![`, the
      reference is the only place where one starts. */
  lemma Framed(p: string, alt: string, url: string, q: string)
    requires NoRefStart(p, 0, |p|) && NoRefStart(q, 0, |q|)
    ensures var s := p + RefText(alt, url) + q;
      NoRefStart(s, 0, |p|) && NoRefStart(s, |p| + |RefText(alt, url)|, |s|)
  {
    var s := p + RefText(alt, url) + q;
    var e := |p| + |RefText(alt, url)|;
    assert s[|p|] == '!';
    forall k | 0 <= k < |p| ensures !RefStartsAt(s, k) {
      if k + 1 < |p| {
        assert s[k] == p[k] && s[k + 1] == p[k + 1];
        assert !RefStartsAt(p, k);
      }
    }
    forall k | e <= k < |s| ensures !RefStartsAt(s, k) {
      if k + 1 < |s| {
        assert s[k] == q[k - e] && s[k + 1] == q[k - e + 1];
        assert !RefStartsAt(q, k - e);
      }
    }
  }

  /** The parts of `![alt](url)`, offset by offset. */
  lemma RefChars(alt: string, url: string)
    ensures var r := RefText(alt, url);
      && |r| == |alt| + |url| + 5
      && r[0] == '!' && r[1] == '[' && r[|alt| + 2] == ']' && r[|alt| + 3] == '(' && r[|r| - 1] == ')'
      && r[2..|alt| + 2] == alt && r[|alt| + 4..|r| - 1] == url
  {
  }

  /** A run written out at `start` that holds neither `close` nor a
      backslash, and is followed by `close`, is matched up to there. */
  lemma RunAt(s: string, start: nat, part: string, close: char)
    requires start + |part| < |s| && s[start..start + |part|] == part && s[start + |part|] == close
    requires close !in part && '\\' !in part && close != '\\'
    ensures EscapedRun(s, start, close) == Some(start + |part|)
  {
    forall k | start <= k < start + |part| ensures s[k] != close && s[k] != '\\' {
      assert s[k] == part[k - start];
    }
    PlainRun(s, start, start + |part|, close);
  }

  /** A reference written out at `i`, whose alt text and URL hold no
      bracket, parenthesis or backslash, is matched there whole. */
  lemma RefFoundAt(s: string, i: nat, alt: string, url: string)
    requires ']' !in alt && '\\' !in alt && ')' !in url && '\\' !in url
    requires OccursAt(s, RefText(alt, url), i)
    ensures ImageRefAt(s, i) == Some(ImageRef(alt, url, i + |RefText(alt, url)|))
  {
    var a := i + 2 + |alt|;
    var b := a + 2 + |url|;
    RefLaidOut(s, i, alt, url);
    RunAt(s, i + 2, alt, ']');
    RunAt(s, a + 2, url, ')');
    RefMatch(s, i, a, b, alt, url);
  }

  /** The characters of a reference written out at `i`, read off `s`. */
  lemma RefLaidOut(s: string, i: nat, alt: string, url: string)
    requires OccursAt(s, RefText(alt, url), i)
    ensures var a, b := i + 2 + |alt|, i + 4 + |alt| + |url|;
      && b + 1 == i + |RefText(alt, url)| && b < |s|
      && s[i] == '!' && s[i + 1] == '[' && s[a] == ']' && s[a + 1] == '(' && s[b] == ')'
      && s[i + 2..a] == alt && s[a + 2..b] == url
  {
    var r := RefText(alt, url);
    var a := i + 2 + |alt|;
    var b := a + 2 + |url|;
    RefChars(alt, url);
    var w := s[i..i + |r|];
    SliceOfSlice(s, i, i + |r|, 2, |alt| + 2);
    SliceOfSlice(s, i, i + |r|, |alt| + 4, |r| - 1);
    assert s[i] == w[0] && s[i + 1] == w[1] && s[a] == w[|alt| + 2] && s[a + 1] == w[|alt| + 3] && s[b] == w[|r| - 1];
  }

  /** The match `ImageRefAt` makes once both runs have been found. */
  lemma RefMatch(s: string, i: nat, a: nat, b: nat, alt: string, url: string)
    requires i + 1 < |s| && s[i] == '!' && s[i + 1] == '['
    requires EscapedRun(s, i + 2, ']') == Some(a) && a + 1 < |s| && s[a + 1] == '('
    requires EscapedRun(s, a + 2, ')') == Some(b)
    requires s[i + 2..a] == alt && s[a + 2..b] == url
    ensures ImageRefAt(s, i) == Some(ImageRef(alt, url, b + 1))
  {
  }

  /** A reference whose alt text and URL hold no bracket, parenthesis or
      backslash, in text holding no other `![`, is found, and nothing else
      is. */
  lemma RefAmid(p: string, alt: string, url: string, q: string)
    requires NoRefStart(p, 0, |p|) && NoRefStart(q, 0, |q|)
    requires ']' !in alt && '\\' !in alt && ')' !in url && '\\' !in url
    ensures FindImageRefs(p + RefText(alt, url) + q) == [(alt, url)]
  {
    var r := RefText(alt, url);
    var s := p + r + q;
    var e := |p| + |r|;
    Framed(p, alt, url, q);
    FindSkips(s, 0, |p|);
    assert s[|p|..e] == r;
    RefFoundAt(s, |p|, alt, url);
    FindSkips(s, e, |s|);
  }

  // ---------------------------------------------------------------------
  // The URL-to-file mapping, with Python dict semantics
  // ---------------------------------------------------------------------

  /** A dict in insertion order. */
  type Mapping = seq<(string, string)>

  function Lookup(m: Mapping, k: string): Option<string> {
    if m == [] then None
    else if m[0].0 == k then Some(m[0].1)
    else Lookup(m[1..], k)
  }

  /** `m[k] = v`: an existing key keeps its place and takes the new value,
      a new key goes to the end. */
  function Put(m: Mapping, k: string, v: string): (r: Mapping)
    ensures |r| == |m| || (|r| == |m| + 1 && r[|m|] == (k, v) && Lookup(m, k).None?)
    ensures forall x :: 0 <= x < |m| ==> r[x].0 == m[x].0
  {
    if m == [] then [(k, v)]
    else if m[0].0 == k then [(k, v)] + m[1..]
    else [m[0]] + Put(m[1..], k, v)
  }

  lemma {:induction false} LookupPut(m: Mapping, k: string, v: string, q: string)
    ensures Lookup(Put(m, k, v), q) == if q == k then Some(v) else Lookup(m, q)
  {
    if m != [] && m[0].0 != k {
      LookupPut(m[1..], k, v, q);
      assert Put(m, k, v)[1..] == Put(m[1..], k, v);
    }
  }

  // ---------------------------------------------------------------------
  // Per-URL outcomes and the mapping loop
  // ---------------------------------------------------------------------

  /** What happens to a URL that is not in the content directory yet: the
      request raises, the content type is not one of jpg/png/gif/webp, or
      the image is converted and written as JPEG.  The failures that raise
      outside the `try` (a response without a Content-Type, bytes that are
      not an image, a file that cannot be written) end the whole run in
      Python and have no outcome here. */
  datatype ImageFetch = FetchFailed | Unsupported | Converted

  const Missing := "missing-image.jpg"

  /** The local file name of an image: its identifier with `.jpg`. */
  function ImageFile(guid: string -> string, url: string): string {
    guid(url) + ".jpg"
  }

  /** The mapping built so far, the content directory and the URLs fetched. */
  datatype Gathered = Gathered(mapping: Mapping, files: set<string>, fetched: seq<string>)

  /** One iteration of the mapping loop. */
  function ImageStep(g: Gathered, url: string, guid: string -> string,
                     fetch: string -> ImageFetch): Gathered
  {
    var out := ImageFile(guid, url);
    if out in g.files then g.(mapping := Put(g.mapping, url, out))
    else match fetch(url)
      case FetchFailed => Gathered(Put(g.mapping, url, Missing), g.files, g.fetched + [url])
      case Unsupported => g.(fetched := g.fetched + [url])
      case Converted => Gathered(Put(g.mapping, url, out), g.files + {out}, g.fetched + [url])
  }

  /** The loop over `urls`, from a directory holding `files`. */
  function Gather(urls: seq<string>, files: set<string>, guid: string -> string,
                  fetch: string -> ImageFetch): Gathered
  {
    if urls == [] then Gathered([], files, [])
    else ImageStep(Gather(urls[..|urls| - 1], files, guid, fetch), urls[|urls| - 1], guid, fetch)
  }

  /** The value a URL ends up with, read off its own outcome alone: the
      local file when it was already there or could be converted, the
      placeholder when the download fails, nothing when the type is not
      supported. */
  function Expected(url: string, files: set<string>, guid: string -> string,
                    fetch: string -> ImageFetch): Option<string>
  {
    var out := ImageFile(guid, url);
    if out in files then Some(out)
    else match fetch(url)
      case FetchFailed => Some(Missing)
      case Unsupported => None
      case Converted => Some(out)
  }

  /** The identifiers of distinct URLs differ (the hash is taken to be
      collision-free). */
  ghost predicate GuidInjective(guid: string -> string) {
    forall u, v :: guid(u) == guid(v) ==> u == v
  }

  lemma ImageFileInjective(guid: string -> string, u: string, v: string)
    requires GuidInjective(guid)
    ensures ImageFile(guid, u) == ImageFile(guid, v) ==> u == v
  {
    if ImageFile(guid, u) == ImageFile(guid, v) {
      assert guid(u) == ImageFile(guid, u)[..|guid(u)|];
      assert guid(v) == ImageFile(guid, v)[..|guid(v)|];
    }
  }

  /** What the loop knows after processing `urls`. */
  ghost predicate GatherInvariant(g: Gathered, urls: seq<string>, files: set<string>,
                            guid: string -> string, fetch: string -> ImageFetch)
  {
    && (forall u :: u in urls ==> Lookup(g.mapping, u) == Expected(u, files, guid, fetch))
    && (forall u :: Lookup(g.mapping, u).Some? ==> u in urls)
    && (forall u :: ImageFile(guid, u) in g.files <==>
          ImageFile(guid, u) in files || (u in urls && fetch(u) == Converted))
    && files <= g.files
    && (forall u :: u in g.fetched ==> u in urls && ImageFile(guid, u) !in files)
  }

  /** Whatever the order and repetitions of the URLs, each URL is mapped to
      its expected value, only processed URLs are keys, the directory gains
      exactly the converted images, and a URL whose file was already there
      is never downloaded. */
  lemma {:induction false} GatherFacts(urls: seq<string>, files: set<string>,
                                       guid: string -> string, fetch: string -> ImageFetch)
    requires GuidInjective(guid)
    ensures GatherInvariant(Gather(urls, files, guid, fetch), urls, files, guid, fetch)
    decreases |urls|
  {
    if urls != [] {
      var init := urls[..|urls| - 1];
      GatherFacts(init, files, guid, fetch);
      GatherStep(Gather(init, files, guid, fetch), init, urls[|urls| - 1], files, guid, fetch);
      assert init + [urls[|urls| - 1]] == urls;
    }
  }

  lemma GatherStep(g: Gathered, urls: seq<string>, x: string, files: set<string>,
                   guid: string -> string, fetch: string -> ImageFetch)
    requires GuidInjective(guid)
    requires GatherInvariant(g, urls, files, guid, fetch)
    ensures GatherInvariant(ImageStep(g, x, guid, fetch), urls + [x], files, guid, fetch)
  {
    var h := ImageStep(g, x, guid, fetch);
    var out := ImageFile(guid, x);
    var xs := urls + [x];
    var e := Expected(x, files, guid, fetch);
    if out in g.files {
      assert e == Some(out);
      forall u ensures Lookup(h.mapping, u) == if u == x then e else Lookup(g.mapping, u) {
        LookupPut(g.mapping, x, out, u);
      }
    } else if fetch(x) == Unsupported {
      assert e == None;
      assert Lookup(g.mapping, x) == e;
    } else {
      var v := if fetch(x) == Converted then out else Missing;
      assert e == Some(v);
      forall u ensures Lookup(h.mapping, u) == if u == x then e else Lookup(g.mapping, u) {
        LookupPut(g.mapping, x, v, u);
      }
    }
    forall u ensures ImageFile(guid, u) in h.files <==>
        ImageFile(guid, u) in files || (u in xs && fetch(u) == Converted) {
      ImageFileInjective(guid, u, x);
    }
  }

  // ---------------------------------------------------------------------
  // Rewriting the article
  // ---------------------------------------------------------------------

  /** `for key, value in mapping.items(): content = content.replace(key, value)`. */
  function ReplaceEach(m: Mapping, s: string): string {
    if m == [] then s
    else ReplaceAll(ReplaceEach(m[..|m| - 1], s), m[|m| - 1].0, m[|m| - 1].1)
  }

  /** The tail `\](missing-image.jpg\)` of the placeholder pattern at `j`.
      The pattern is built from `Missing`, whose `.` (offset 13) is a regex
      wildcard; under DOTALL it matches any character. */
  predicate TailAt(s: string, j: nat) {
    && j + |Missing| + 3 <= |s|
    && s[j] == ']' && s[j + 1] == '(' && s[j + |Missing| + 2] == ')'
    && s[j + 2..j + 15] == Missing[..13] && s[j + 16..j + 19] == Missing[14..]
  }

  /** `\!\[[^]]*\]\(missing-image.jpg\)` at `i`: gives the end of the match. */
  function PlaceholderAt(s: string, i: nat): (r: Option<nat>)
    ensures r.Some? ==> i + 2 < r.value <= |s| && s[i] == '!'
  {
    if i + 1 >= |s| || s[i] != '!' || s[i + 1] != '[' then None
    else match FindFrom(s, ']', i + 2)
      case None => None
      case Some(j) =>
        if TailAt(s, j) then Some(j + |Missing| + 3) else None
  }

  function StripFrom(s: string, i: nat): string
    decreases |s| - i
  {
    if i >= |s| then []
    else if s[i] != '!' then [s[i]] + StripFrom(s, i + 1)
    else match PlaceholderAt(s, i)
      case Some(e) => StripFrom(s, e)
      case None => [s[i]] + StripFrom(s, i + 1)
  }

  /** The final `re.subn` that deletes references to the placeholder. */
  function StripPlaceholders(s: string): string {
    StripFrom(s, 0)
  }

  predicate HasPlaceholder(s: string, from: nat) {
    exists i: nat | from <= i < |s| :: PlaceholderAt(s, i).Some?
  }

  /** One step of the scan. */
  lemma StripStep(s: string, i: nat)
    requires i < |s|
    ensures var p := PlaceholderAt(s, i);
      StripFrom(s, i) == if s[i] == '!' && p.Some? then StripFrom(s, p.value) else [s[i]] + StripFrom(s, i + 1)
  {
  }

  lemma {:induction false} StripNeverLonger(s: string, i: nat)
    requires i <= |s|
    ensures |StripFrom(s, i)| <= |s| - i
    decreases |s| - i
  {
    if i < |s| {
      var p := PlaceholderAt(s, i);
      StripStep(s, i);
      if s[i] == '!' && p.Some? {
        StripNeverLonger(s, p.value);
      } else {
        StripNeverLonger(s, i + 1);
      }
    }
  }

  lemma {:induction false} StripShrinks(s: string, i: nat, w: nat)
    requires i <= w < |s| && PlaceholderAt(s, w).Some?
    ensures |StripFrom(s, i)| < |s| - i
    decreases |s| - i
  {
    var p := PlaceholderAt(s, i);
    StripStep(s, i);
    if s[i] == '!' && p.Some? {
      StripNeverLonger(s, p.value);
    } else {
      assert i < w;
      StripShrinks(s, i + 1, w);
    }
  }

  lemma {:induction false} NoPlaceholderIdentity(s: string, i: nat)
    requires i <= |s| && !HasPlaceholder(s, i)
    ensures StripFrom(s, i) == s[i..]
    decreases |s| - i
  {
    if i < |s| {
      assert PlaceholderAt(s, i).None?;
      assert !HasPlaceholder(s, i + 1);
      NoPlaceholderIdentity(s, i + 1);
    }
  }

  /** Offsets where no placeholder reference starts are copied through. */
  lemma {:induction false} StripCopies(s: string, i: nat, j: nat)
    requires i <= j <= |s|
    requires forall k :: i <= k < j ==> PlaceholderAt(s, k).None?
    ensures StripFrom(s, i) == s[i..j] + StripFrom(s, j)
    decreases j - i
  {
    if i < j {
      assert PlaceholderAt(s, i).None?;
      StripStep(s, i);
      StripCopies(s, i + 1, j);
      ConsGlue(s, i, j, StripFrom(s, i), StripFrom(s, i + 1), StripFrom(s, j));
    }
  }

  /** Where no `![` starts, no placeholder reference starts either. */
  lemma NoPlaceholderWithoutStart(s: string, k: nat)
    requires !RefStartsAt(s, k)
    ensures PlaceholderAt(s, k).None?
  {
  }

  /** A reference to the placeholder written out at `i` is matched whole. */
  lemma PlaceholderFoundAt(s: string, i: nat, alt: string)
    requires ']' !in alt && OccursAt(s, RefText(alt, Missing), i)
    ensures PlaceholderAt(s, i) == Some(i + |RefText(alt, Missing)|)
  {
    var r := RefText(alt, Missing);
    var j := i + 2 + |alt|;
    RefChars(alt, Missing);
    var w := s[i..i + |r|];
    assert s[i] == w[0] && s[i + 1] == w[1] && s[j] == w[|alt| + 2];
    forall k | i + 2 <= k < j ensures s[k] != ']' {
      assert s[k] == w[k - i] == w[2..|alt| + 2][k - i - 2];
    }
    FirstAt(s, ']', i + 2, j);
    assert s[j + 1] == w[|alt| + 3] && s[j + |Missing| + 2] == w[|r| - 1];
    SliceOfSlice(s, i, i + |r|, |alt| + 4, |r| - 1);
    SliceOfSlice(s, j + 2, j + 19, 0, 13);
    SliceOfSlice(s, j + 2, j + 19, 14, 17);
    PlaceholderMatch(s, i, j);
  }

  /** The match `PlaceholderAt` makes once the `]` and the tail are found. */
  lemma PlaceholderMatch(s: string, i: nat, j: nat)
    requires i + 1 < |s| && s[i] == '!' && s[i + 1] == '['
    requires FindFrom(s, ']', i + 2) == Some(j) && TailAt(s, j)
    ensures PlaceholderAt(s, i) == Some(j + |Missing| + 3)
  {
  }

  /** The placeholder tail needs an `m` two places after its `]`. */
  lemma TailNeedsM(s: string, j: nat)
    requires j + 2 < |s| && s[j + 2] != 'm'
    ensures !TailAt(s, j)
  {
    if j + 15 <= |s| {
      assert s[j + 2..j + 15][0] == s[j + 2];
    }
  }

  /** Before a `]` that the placeholder tail does not follow, with no other
      `]` in between, no placeholder reference starts. */
  lemma NoPlaceholderBefore(s: string, k: nat, j: nat)
    requires k < j < |s| && s[j] == ']' && !TailAt(s, j)
    requires forall x :: k + 2 <= x < j ==> s[x] != ']'
    ensures PlaceholderAt(s, k).None?
  {
    if k + 2 <= j {
      FirstAt(s, ']', k + 2, j);
    }
  }

  /** A reference written out at `i` whose target does not start like the
      placeholder and holds no `!` starts no placeholder reference, not even
      at an `![` inside its alt text. */
  lemma KeptAt(s: string, i: nat, alt: string, v: string)
    requires ']' !in alt && v != [] && v[0] != 'm' && '!' !in v
    requires OccursAt(s, RefText(alt, v), i)
    ensures forall k :: i <= k < i + |RefText(alt, v)| ==> PlaceholderAt(s, k).None?
  {
    var r := RefText(alt, v);
    var j := i + 2 + |alt|;
    var e := i + |r|;
    RefChars(alt, v);
    var w := s[i..e];
    assert s[j] == w[|alt| + 2];
    assert s[j + 2] == w[|alt| + 4..|r| - 1][0];
    TailNeedsM(s, j);
    forall x | i + 2 <= x < j ensures s[x] != ']' {
      assert s[x] == w[x - i] == w[2..|alt| + 2][x - i - 2];
    }
    forall k | j <= k < e ensures s[k] != '!' {
      assert s[k] == w[k - i];
      if j + 2 <= k < e - 1 {
        assert w[k - i] == w[|alt| + 4..|r| - 1][k - i - |alt| - 4];
      }
    }
    forall k | i <= k < e ensures PlaceholderAt(s, k).None? {
      if k < j {
        NoPlaceholderBefore(s, k, j);
      } else {
        NoPlaceholderWithoutStart(s, k);
      }
    }
  }

  /** Where no `![` starts, no placeholder reference starts. */
  lemma NoStartNoPlaceholder(s: string, i: nat, j: nat)
    requires NoRefStart(s, i, j)
    ensures forall k :: i <= k < j ==> PlaceholderAt(s, k).None?
  {
    forall k | i <= k < j ensures PlaceholderAt(s, k).None? {
      NoPlaceholderWithoutStart(s, k);
    }
  }

  /** A reference to the placeholder amid text holding no `![` is deleted,
      and nothing else is. */
  /** The strip jumps over a placeholder reference found at `i`. */
  lemma StripSkips(s: string, i: nat, e: nat)
    requires i < |s| && PlaceholderAt(s, i) == Some(e)
    ensures StripFrom(s, i) == StripFrom(s, e)
  {
    StripStep(s, i);
  }

  lemma StripDropsRef(p: string, alt: string, q: string)
    requires NoRefStart(p, 0, |p|) && NoRefStart(q, 0, |q|) && ']' !in alt
    ensures StripPlaceholders(p + RefText(alt, Missing) + q) == p + q
  {
    var r := RefText(alt, Missing);
    var s := p + r + q;
    var e := |p| + |r|;
    Framed(p, alt, Missing, q);
    NoStartNoPlaceholder(s, 0, |p|);
    NoStartNoPlaceholder(s, e, |s|);
    assert s[|p|..e] == r;
    PlaceholderFoundAt(s, |p|, alt);
    var head := StripFrom(s, 0);
    var mid := StripFrom(s, |p|);
    var tail := StripFrom(s, e);
    StripCopies(s, 0, |p|);
    StripSkips(s, |p|, e);
    StripCopies(s, e, |s|);
    assert StripFrom(s, |s|) == [];
    assert s[0..|p|] == p && s[e..|s|] == q;
    assert head == p + mid && mid == tail && tail == q + [];
  }

  /** A name the placeholder pattern cannot match from its first character
      on: it does not start with `m` and holds no `!`. */
  predicate UnlikePlaceholder(name: string) {
    name != [] && name[0] != 'm' && '!' !in name
  }

  /** A reference to any other name, amid text holding no `![`, survives the
      strip, and so does everything around it. */
  lemma StripKeepsRef(p: string, alt: string, v: string, q: string)
    requires NoRefStart(p, 0, |p|) && NoRefStart(q, 0, |q|) && ']' !in alt
    requires UnlikePlaceholder(v)
    ensures StripPlaceholders(p + RefText(alt, v) + q) == p + RefText(alt, v) + q
  {
    var r := RefText(alt, v);
    var s := p + r + q;
    var e := |p| + |r|;
    Framed(p, alt, v, q);
    NoStartNoPlaceholder(s, 0, |p|);
    NoStartNoPlaceholder(s, e, |s|);
    assert s[|p|..e] == r;
    KeptAt(s, |p|, alt, v);
    forall k | 0 <= k < |s| ensures PlaceholderAt(s, k).None? {
      if k < |p| {
      } else if k < e {
      } else {
      }
    }
    StripCopies(s, 0, |s|);
    assert StripFrom(s, |s|) == [];
  }

  /** The strip changes the text exactly when a placeholder reference is
      present. */
  lemma StripUnchangedIff(s: string)
    ensures StripPlaceholders(s) == s <==> !HasPlaceholder(s, 0)
  {
    if HasPlaceholder(s, 0) {
      var w: nat :| w < |s| && PlaceholderAt(s, w).Some?;
      StripShrinks(s, 0, w);
    } else {
      NoPlaceholderIdentity(s, 0);
    }
  }

  function RefUrl(r: (string, string)): string { r.1 }

  /** The URLs processed, in order: the references' URLs, then the cover. */
  function ImageUrls(a: Article): seq<string> {
    Map(RefUrl, FindImageRefs(a.content)) + (if a.image != "" then [a.image] else [])
  }

  /** The article after the mapping has been applied. */
  function Rewrite(a: Article, m: Mapping): Article {
    var image := if a.image != "" && Lookup(m, a.image).Some? then Lookup(m, a.image).value else a.image;
    a.(content := StripPlaceholders(ReplaceEach(m, a.content)), image := image)
  }

  /** Replacing the URL of a reference that holds the URL's only occurrence
      rewrites that reference and nothing else. */
  lemma UrlSpliced(p: string, alt: string, u: string, q: string, v: string)
    requires u != []
    requires forall k: nat :: OccursAt(p + RefText(alt, u) + q, u, k) ==> k == |p| + |alt| + 4
    ensures ReplaceAll(p + RefText(alt, u) + q, u, v) == p + RefText(alt, v) + q
  {
    var s := p + RefText(alt, u) + q;
    var pre := p + "![" + alt + "](";
    var post := ")" + q;
    assert s == pre + u + post;
    var pos := |pre|;
    assert s[..pos] == pre && s[pos..pos + |u|] == u && s[pos + |u|..] == post;
    ReplaceOnce(s, u, v, pos);
    assert pre + v + post == p + RefText(alt, v) + q;
  }

  /** The mapping built for a single URL holds that URL's expected value. */
  lemma SingleUrlMapping(u: string, files: set<string>, guid: string -> string,
                         fetch: string -> ImageFetch)
    ensures var e := Expected(u, files, guid, fetch);
      Gather([u], files, guid, fetch).mapping == if e.Some? then [(u, e.value)] else []
  {
    assert [u][..0] == [];
  }

  /** What `download_images` does to the content when the article has no
      cover and its one image is a reference `![alt](u)` with plain alt
      text, a URL that occurs nowhere else, and no other `![` around it.
      When the URL's outcome is the placeholder (the download failed), the
      reference is removed. When it is a local file (cached or converted),
      the reference points at that file. When the type is unsupported, the
      content is left as it was. In each case the text around it is kept. */
  lemma RefRewritten(a: Article, p: string, alt: string, u: string, q: string,
                     files: set<string>, guid: string -> string, fetch: string -> ImageFetch)
    requires a.content == p + RefText(alt, u) + q && a.image == ""
    requires NoRefStart(p, 0, |p|) && NoRefStart(q, 0, |q|)
    requires ']' !in alt && '\\' !in alt && u != [] && ')' !in u && '\\' !in u
    requires forall k: nat :: OccursAt(a.content, u, k) ==> k == |p| + |alt| + 4
    ensures var c := Rewrite(a, Gather(ImageUrls(a), files, guid, fetch).mapping).content;
      var e := Expected(u, files, guid, fetch);
      && (e == Some(Missing) ==> c == p + q)
      && (e.Some? && UnlikePlaceholder(e.value) ==> c == p + RefText(alt, e.value) + q)
      && (e.None? && UnlikePlaceholder(u) ==> c == a.content)
  {
    var s := a.content;
    var e := Expected(u, files, guid, fetch);
    RefAmid(p, alt, u, q);
    assert ImageUrls(a) == [u];
    SingleUrlMapping(u, files, guid, fetch);
    var m := Gather([u], files, guid, fetch).mapping;
    if e.Some? {
      assert ReplaceEach(m, s) == ReplaceAll(s, u, e.value) by {
        assert m[..0] == [];
      }
      UrlSpliced(p, alt, u, q, e.value);
      if e.value == Missing {
        StripDropsRef(p, alt, q);
      } else if UnlikePlaceholder(e.value) {
        StripKeepsRef(p, alt, e.value, q);
      }
    } else if UnlikePlaceholder(u) {
      StripKeepsRef(p, alt, u, q);
    }
  }

  /** The content directory (build/content) and the image URLs requested. */
  class ImageDir {
    var files: set<string>
    var fetched: seq<string>

    constructor (existing: set<string>)
      ensures files == existing && fetched == []
    {
      files := existing;
      fetched := [];
    }
  }

  /** The mapping loop of `download_images` over `urls`. */
  method BuildMapping(dir: ImageDir, urls: seq<string>, guid: string -> string,
                      fetch: string -> ImageFetch) returns (mapping: Mapping)
    modifies dir
    ensures var g := Gather(urls, old(dir.files), guid, fetch);
      mapping == g.mapping && dir.files == g.files && dir.fetched == old(dir.fetched) + g.fetched
  {
    mapping := [];
    var i := 0;
    while i < |urls|
      invariant i <= |urls|
      invariant var g := Gather(urls[..i], old(dir.files), guid, fetch);
        mapping == g.mapping && dir.files == g.files && dir.fetched == old(dir.fetched) + g.fetched
    {
      assert urls[..i + 1][..i] == urls[..i];
      mapping := ProcessImage(dir, mapping, urls[i], guid, fetch);
      i := i + 1;
    }
    assert urls[..i] == urls;
  }

  /** One iteration of the mapping loop: a file already present is used as
      it is; otherwise the URL is downloaded and classified. */
  method ProcessImage(dir: ImageDir, mapping: Mapping, url: string, guid: string -> string,
                      fetch: string -> ImageFetch) returns (m: Mapping)
    modifies dir
    ensures var g := ImageStep(Gathered(mapping, old(dir.files), []), url, guid, fetch);
      m == g.mapping && dir.files == g.files && dir.fetched == old(dir.fetched) + g.fetched
  {
    var outfile := ImageFile(guid, url);
    if outfile in dir.files {
      return Put(mapping, url, outfile);
    }
    var outcome := fetch(url);
    dir.fetched := dir.fetched + [url];
    m := mapping;
    match outcome
    case FetchFailed =>
      m := Put(mapping, url, Missing);
    case Unsupported =>
    case Converted =>
      dir.files := dir.files + {outfile};
      m := Put(mapping, url, outfile);
  }

  /** The replacement loop: `str.replace` for every key, in insertion order. */
  method ReplaceKeys(mapping: Mapping, text: string) returns (content: string)
    ensures content == ReplaceEach(mapping, text)
  {
    content := text;
    var j := 0;
    while j < |mapping|
      invariant j <= |mapping|
      invariant content == ReplaceEach(mapping[..j], text)
    {
      content := ReplaceAll(content, mapping[j].0, mapping[j].1);
      assert mapping[..j + 1][..j] == mapping[..j];
      j := j + 1;
    }
    assert mapping[..j] == mapping;
  }

  /** `download_images`: the article with its content and cover rewritten. */
  method DownloadImages(dir: ImageDir, art: Article, guid: string -> string,
                        fetch: string -> ImageFetch) returns (out: Article)
    modifies dir
    ensures ImageUrls(art) == [] ==> out == art && dir.files == old(dir.files) && dir.fetched == old(dir.fetched)
    ensures ImageUrls(art) != [] ==>
      var g := Gather(ImageUrls(art), old(dir.files), guid, fetch);
      && out == Rewrite(art, g.mapping)
      && dir.files == g.files
      && dir.fetched == old(dir.fetched) + g.fetched
  {
    var urls := ImageUrls(art);
    if urls == [] {
      return art;
    }
    var mapping := BuildMapping(dir, urls, guid, fetch);
    var content := ReplaceKeys(mapping, art.content);
    var image := art.image;
    if image != "" && Lookup(mapping, image).Some? {
      image := Lookup(mapping, image).value;
    }
    out := art.(content := StripPlaceholders(content), image := image);
  }

  /** The cover ends up with its URL's expected value: the local file when
      cached or converted, `missing-image.jpg` when the download fails, the
      original URL when the type is unsupported. */
  lemma CoverOutcome(a: Article, files: set<string>, guid: string -> string, fetch: string -> ImageFetch)
    requires GuidInjective(guid) && a.image != ""
    ensures var g := Gather(ImageUrls(a), files, guid, fetch);
      var e := Expected(a.image, files, guid, fetch);
      Rewrite(a, g.mapping).image == (if e.Some? then e.value else a.image)
  {
    var urls := ImageUrls(a);
    GatherFacts(urls, files, guid, fetch);
    assert a.image in urls by { assert urls[|urls| - 1] == a.image; }
  }

  /** In particular a cover that is not cached and fails to download is
      replaced by the placeholder name, which the content strip does not
      touch. */
  lemma FailedCoverIsPlaceholder(a: Article, files: set<string>, guid: string -> string,
                                 fetch: string -> ImageFetch)
    requires GuidInjective(guid) && a.image != ""
    requires ImageFile(guid, a.image) !in files && fetch(a.image) == FetchFailed
    ensures Rewrite(a, Gather(ImageUrls(a), files, guid, fetch).mapping).image == Missing
  {
    CoverOutcome(a, files, guid, fetch);
  }

  /** Every URL processed is mapped to its expected value, and a URL that
      is mapped was processed. */
  lemma MappingOutcome(a: Article, files: set<string>, guid: string -> string,
                       fetch: string -> ImageFetch, u: string)
    requires GuidInjective(guid)
    ensures var m := Gather(ImageUrls(a), files, guid, fetch).mapping;
      && (u in ImageUrls(a) ==> Lookup(m, u) == Expected(u, files, guid, fetch))
      && (Lookup(m, u).Some? ==> u in ImageUrls(a))
  {
    GatherFacts(ImageUrls(a), files, guid, fetch);
  }
}
