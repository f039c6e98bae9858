// The article record (mdnews/article.py and the older copy in mdnews.py):
// publication dates, the `<` ordering used by list.sort, the stable
// newest-first sort that ordering produces, and the two Markdown templates.

module Articles {
  import opened Wrappers

  // ---------------------------------------------------------------------
  // Calendar days and their ISO form
  // ---------------------------------------------------------------------

  datatype Day = Day(year: int, month: int, dom: int)

  predicate IsLeap(y: int) {
    y % 4 == 0 && (y % 100 != 0 || y % 400 == 0)
  }

  function DaysIn(y: int, m: int): int
    requires 1 <= m <= 12
  {
    if m == 2 then (if IsLeap(y) then 29 else 28)
    else if m == 4 || m == 6 || m == 9 || m == 11 then 30
    else 31
  }

  /** The days Python's `datetime.date` can represent. */
  predicate ValidDay(d: Day) {
    1 <= d.year <= 9999 && 1 <= d.month <= 12 && 1 <= d.dom <= DaysIn(d.year, d.month)
  }

  type CalendarDay = d: Day | ValidDay(d) witness Day(1, 1, 1)

  /** An aware `datetime`: `instant` is the point in time that `<` and `>`
      compare, `day` is what `.date()` returns in the stamp's own zone. */
  datatype Stamp = Stamp(instant: int, day: CalendarDay)

  function Digit(n: int): char
    requires 0 <= n < 10
  {
    ('0' as int + n) as char
  }

  predicate IsDigit(c: char) { '0' <= c <= '9' }

  function DigitValue(c: char): int { c as int - '0' as int }

  function Pad2(n: int): string
    requires 0 <= n < 100
  {
    [Digit(n / 10), Digit(n % 10)]
  }

  function Pad4(n: int): string
    requires 0 <= n < 10000
  {
    Pad2(n / 100) + Pad2(n % 100)
  }

  /** `str(d)` / `d.isoformat()`: `YYYY-MM-DD`, zero-padded. */
  function IsoDate(d: CalendarDay): (s: string)
    ensures |s| == 10 && s[4] == '-' && s[7] == '-'
  {
    Pad4(d.year) + "-" + Pad2(d.month) + "-" + Pad2(d.dom)
  }

  function Value2(s: string, i: nat): int
    requires i + 2 <= |s|
  {
    10 * DigitValue(s[i]) + DigitValue(s[i + 1])
  }

  predicate DigitsAt(s: string, i: nat, n: nat)
    requires i + n <= |s|
  {
    forall k :: i <= k < i + n ==> IsDigit(s[k])
  }

  /** Reads back a `YYYY-MM-DD` text; anything else, or an impossible day,
      gives `None`. */
  function ParseIsoDate(s: string): Option<CalendarDay> {
    if |s| != 10 || s[4] != '-' || s[7] != '-' then None
    else if !(DigitsAt(s, 0, 4) && DigitsAt(s, 5, 2) && DigitsAt(s, 8, 2)) then None
    else
      var d := Day(100 * Value2(s, 0) + Value2(s, 2), Value2(s, 5), Value2(s, 8));
      if ValidDay(d) then Some(d) else None
  }

  lemma Pad2Reads(n: int)
    requires 0 <= n < 100
    ensures var p := Pad2(n); IsDigit(p[0]) && IsDigit(p[1]) && Value2(p, 0) == n
  {
  }

  lemma Pad2Inverse(s: string, i: nat)
    requires i + 2 <= |s| && DigitsAt(s, i, 2)
    ensures 0 <= Value2(s, i) < 100 && Pad2(Value2(s, i)) == s[i..i + 2]
  {
    assert IsDigit(s[i]) && IsDigit(s[i + 1]);
  }

  /** Formatting a day and reading it back gives the same day. */
  lemma IsoRoundTrip(d: CalendarDay)
    ensures ParseIsoDate(IsoDate(d)) == Some(d)
  {
    var s := IsoDate(d);
    Pad2Reads(d.year / 100);
    Pad2Reads(d.year % 100);
    Pad2Reads(d.month);
    Pad2Reads(d.dom);
    assert s[0..2] == Pad2(d.year / 100);
    assert s[2..4] == Pad2(d.year % 100);
    assert s[5..7] == Pad2(d.month);
    assert s[8..10] == Pad2(d.dom);
    assert Value2(s, 0) == d.year / 100;
    assert Value2(s, 2) == d.year % 100;
    assert Value2(s, 5) == d.month;
    assert Value2(s, 8) == d.dom;
  }

  /** Every text the reader accepts is exactly the ISO form of the day it
      reads, so `IsoDate` is a bijection onto the accepted texts. */
  lemma ParseIsoDateExact(s: string)
    ensures ParseIsoDate(s).Some? ==> IsoDate(ParseIsoDate(s).value) == s
  {
    if ParseIsoDate(s).Some? {
      var d := ParseIsoDate(s).value;
      Pad2Inverse(s, 0);
      Pad2Inverse(s, 2);
      Pad2Inverse(s, 5);
      Pad2Inverse(s, 8);
      assert d.year / 100 == Value2(s, 0) && d.year % 100 == Value2(s, 2);
      assert s == s[0..2] + s[2..4] + "-" + s[5..7] + "-" + s[8..10];
    }
  }

  /** Distinct days are printed differently. */
  lemma IsoDateInjective(d: CalendarDay, e: CalendarDay)
    ensures IsoDate(d) == IsoDate(e) ==> d == e
  {
    IsoRoundTrip(d);
    IsoRoundTrip(e);
  }

  // ---------------------------------------------------------------------
  // The article record and its ordering
  // ---------------------------------------------------------------------

  /** `Article` from mdnews/article.py. `guid` is the identifier's text as
      it is printed; `image` is `""` when there is no cover (a missing `url`
      attribute behaves the same wherever the image is used). The older
      record in mdnews.py has no `format` field; it is `""` there. */
  datatype Article = Article(
    title: string,
    description: string,
    link: string,
    date: Stamp,
    image: string,
    guid: string,
    attr: string,
    format: string,
    content: string)

  /** `Article.__lt__`: an article sorts before another when it is newer. */
  predicate Less(a: Article, b: Article) {
    a.date.instant > b.date.instant
  }

  /** What `list.sort()` guarantees with only `<` available: no element is
      `<` an element before it. */
  predicate NewestFirst(xs: seq<Article>) {
    forall i, j :: 0 <= i < j < |xs| ==> !Less(xs[j], xs[i])
  }

  /** The elements of `xs` published at `instant`, in order. */
  function AtInstant(xs: seq<Article>, instant: int): (ys: seq<Article>)
    ensures |ys| <= |xs|
  {
    if xs == [] then []
    else (if xs[0].date.instant == instant then [xs[0]] else []) + AtInstant(xs[1..], instant)
  }

  /** Insertion of one element in front of a sorted list, placed before
      every element that is not strictly newer (so it stays ahead of equal
      elements that followed it). */
  function Insert(x: Article, ys: seq<Article>): (zs: seq<Article>)
    ensures multiset(zs) == multiset(ys) + multiset{x}
    ensures |zs| == |ys| + 1
  {
    if ys == [] || !Less(ys[0], x) then [x] + ys
    else
      assert ys == [ys[0]] + ys[1..];
      [ys[0]] + Insert(x, ys[1..])
  }

  /** The list `list.sort()` produces: a stable sort by `Less`. */
  function SortNewestFirst(xs: seq<Article>): (ys: seq<Article>)
    ensures multiset(ys) == multiset(xs)
    ensures |ys| == |xs|
  {
    if xs == [] then []
    else
      assert xs == [xs[0]] + xs[1..];
      Insert(xs[0], SortNewestFirst(xs[1..]))
  }

  lemma {:induction false} InsertNewestFirst(x: Article, ys: seq<Article>)
    requires NewestFirst(ys)
    ensures NewestFirst(Insert(x, ys))
    decreases |ys|
  {
    if ys == [] || !Less(ys[0], x) {
      var zs := [x] + ys;
      forall i, j | 0 <= i < j < |zs| ensures !Less(zs[j], zs[i]) {
        if i > 0 {
          assert zs[i] == ys[i - 1] && zs[j] == ys[j - 1];
        } else {
          assert zs[j] == ys[j - 1];
          if j > 1 { assert !Less(ys[j - 1], ys[0]); }
        }
      }
    } else {
      var tail := Insert(x, ys[1..]);
      InsertNewestFirst(x, ys[1..]);
      var zs := [ys[0]] + tail;
      forall i, j | 0 <= i < j < |zs| ensures !Less(zs[j], zs[i]) {
        if i > 0 {
          assert zs[i] == tail[i - 1] && zs[j] == tail[j - 1];
        } else {
          var z := zs[j];
          assert z == tail[j - 1];
          assert z in multiset(tail);
          assert z in multiset(ys[1..]) + multiset{x};
          if z != x {
            assert z in ys[1..];
            var q :| 0 <= q < |ys[1..]| && ys[1..][q] == z;
            assert z == ys[q + 1];
          }
        }
      }
    }
  }

  /** The result of the sort is ordered newest first. */
  lemma {:induction false} SortIsNewestFirst(xs: seq<Article>)
    ensures NewestFirst(SortNewestFirst(xs))
    decreases |xs|
  {
    if xs != [] {
      SortIsNewestFirst(xs[1..]);
      InsertNewestFirst(xs[0], SortNewestFirst(xs[1..]));
    }
  }

  lemma TailNewestFirst(xs: seq<Article>)
    requires xs != [] && NewestFirst(xs)
    ensures NewestFirst(xs[1..])
  {
    var tail := xs[1..];
    forall i, j | 0 <= i < j < |tail| ensures !Less(tail[j], tail[i]) {
      assert tail[i] == xs[i + 1] && tail[j] == xs[j + 1];
    }
  }

  lemma {:induction false} InsertAtInstant(x: Article, ys: seq<Article>, t: int)
    requires NewestFirst(ys)
    ensures AtInstant(Insert(x, ys), t)
         == (if x.date.instant == t then [x] else []) + AtInstant(ys, t)
    decreases |ys|
  {
    if ys == [] || !Less(ys[0], x) {
      var zs := [x] + ys;
      assert Insert(x, ys) == zs;
      assert zs[0] == x && zs[1..] == ys;
    } else {
      var ys' := ys[1..];
      var zs := [ys[0]] + Insert(x, ys');
      assert Insert(x, ys) == zs;
      TailNewestFirst(ys);
      InsertAtInstant(x, ys', t);
      assert zs[1..] == Insert(x, ys');
      var h := if ys[0].date.instant == t then [ys[0]] else [];
      assert AtInstant(ys, t) == h + AtInstant(ys', t);
      if x.date.instant == t {
        assert h == [];
        calc {
          AtInstant(zs, t);
          AtInstant(Insert(x, ys'), t);
          [x] + AtInstant(ys', t);
        }
      } else {
        calc {
          AtInstant(zs, t);
          h + AtInstant(Insert(x, ys'), t);
          h + AtInstant(ys', t);
        }
      }
    }
  }

  /** Stability: for every instant, the elements published then appear in
      the sorted list in their original relative order. */
  lemma {:induction false} SortIsStable(xs: seq<Article>, t: int)
    ensures AtInstant(SortNewestFirst(xs), t) == AtInstant(xs, t)
    decreases |xs|
  {
    if xs != [] {
      SortIsStable(xs[1..], t);
      SortIsNewestFirst(xs[1..]);
      InsertAtInstant(xs[0], SortNewestFirst(xs[1..]), t);
    }
  }

  /** Sorting a list that is already newest first leaves it alone. */
  lemma {:induction false} SortKeepsSorted(xs: seq<Article>)
    requires NewestFirst(xs)
    ensures SortNewestFirst(xs) == xs
    decreases |xs|
  {
    if xs != [] {
      var tail := xs[1..];
      TailNewestFirst(xs);
      SortKeepsSorted(tail);
      if tail != [] {
        assert !Less(xs[1], xs[0]);
      }
      assert [xs[0]] + tail == xs;
    }
  }

  /** Filtering by instant distributes over concatenation. */
  lemma {:induction false} AtInstantAppend(xs: seq<Article>, ys: seq<Article>, t: int)
    ensures AtInstant(xs + ys, t) == AtInstant(xs, t) + AtInstant(ys, t)
    decreases |xs|
  {
    if xs != [] {
      assert (xs + ys)[1..] == xs[1..] + ys;
      AtInstantAppend(xs[1..], ys, t);
    } else {
      assert xs + ys == ys;
    }
  }

  // ---------------------------------------------------------------------
  // Markdown renderings
  // ---------------------------------------------------------------------

  const DetailsOpen := "<details><summary><strong>"
  const DetailsTitleEnd := "</strong></summary>\n\n"
  const RuleEnd := "\n---\n"

  /** The cover block of `markdown_details`: present only for a non-empty
      image. */
  function DetailsImage(image: string): string {
    if image != "" then "![](" + image + ")\n\n" else ""
  }

  function DetailsHead(a: Article): string {
    DetailsOpen + a.title + DetailsTitleEnd + DetailsImage(a.image)
  }

  function DetailsTail(a: Article): string {
    "\n" + "\n<small>" + a.guid + "</small>\n" + "\n</details>\n\n"
      + "*" + a.description + "*\n\n"
      + "<small>" + IsoDate(a.date.day) + " - " + a.attr + "</small>\n" + RuleEnd
  }

  /** `Article.markdown_details()`: the digest-page entry. */
  function MarkdownDetails(a: Article): string {
    DetailsHead(a) + a.content + DetailsTail(a)
  }

  /** Layout of the digest entry: the summary line with the title, then the
      cover block exactly when there is an image, then the content verbatim,
      and the closing rule at the very end. */
  lemma DetailsLayout(a: Article)
    ensures var r := MarkdownDetails(a);
      var o := |DetailsOpen| + |a.title| + |DetailsTitleEnd|;
      var c := o + |DetailsImage(a.image)|;
      && o <= c && c + |a.content| + |RuleEnd| <= |r|
      && r[..o] == DetailsOpen + a.title + DetailsTitleEnd
      && (a.image != "" ==> r[o..c] == "![](" + a.image + ")\n\n")
      && (a.image == "" ==> c == o)
      && r[c..c + |a.content|] == a.content
      && r[|r| - |RuleEnd|..] == RuleEnd
  {
    var r := MarkdownDetails(a);
    var h := DetailsHead(a);
    assert r == h + a.content + DetailsTail(a);
    assert r[..|h|] == h;
    assert r[|h|..|h| + |a.content|] == a.content;
  }

  /** Two articles that differ only in content render differently: the
      digest entry determines the content. */
  lemma DetailsDetermineContent(a: Article, c: string)
    requires MarkdownDetails(a) == MarkdownDetails(a.(content := c))
    ensures c == a.content
  {
    var b := a.(content := c);
    DetailsLayout(a);
    DetailsLayout(b);
    assert DetailsHead(b) == DetailsHead(a) && DetailsTail(b) == DetailsTail(a);
    assert |c| == |a.content|;
  }

  const BookTitle := "# "
  const BookEnd := "*\n\n---\n\n"

  function BookImage(image: string): string {
    if image != "" then "![](" + image + ")\n" else ""
  }

  /** The date line and the description line of the e-book chapter. */
  function BookMeta(a: Article): (m: string)
    ensures |m| > 0 && m[0] == '\n'
  {
    "\n*" + IsoDate(a.date.day) + " - " + a.attr + "*\n\n" + "*" + a.description + "*\n\n"
  }

  function BookHead(a: Article): string {
    BookTitle + a.title + "\n\n" + BookImage(a.image) + BookMeta(a)
  }

  /** `Article.markdown()`: the e-book chapter. */
  function Markdown(a: Article): string {
    BookHead(a) + a.content + "\n*" + a.guid + BookEnd
  }

  /** The e-book chapter opens with a level-one heading holding the title,
      followed by the cover line exactly when there is an image. */
  lemma MarkdownStart(a: Article)
    ensures var r := Markdown(a);
      var o := |BookTitle| + |a.title| + 2;
      && o + |BookImage(a.image)| < |r|
      && r[..o] == BookTitle + a.title + "\n\n"
      && (a.image != "" ==> r[o..o + |BookImage(a.image)|] == "![](" + a.image + ")\n")
      && (a.image == "" ==> r[o] == '\n')
  {
    var r := Markdown(a);
    var p := BookTitle + a.title + "\n\n";
    var q := BookImage(a.image);
    var rest := BookMeta(a) + (a.content + "\n*" + a.guid + BookEnd);
    assert r == p + q + rest;
    assert rest[0] == '\n';
    assert r[..|p|] == p;
    assert r[|p|..|p| + |q|] == q;
  }

  /** The e-book chapter ends with the content verbatim, the identifier line
      and the closing rule. */
  lemma MarkdownEnd(a: Article)
    ensures var r := Markdown(a);
      var e := |r| - |BookEnd| - |a.guid| - 2;
      && |a.content| <= e
      && r[e - |a.content|..e] == a.content
      && r[e..] == "\n*" + a.guid + BookEnd
  {
    var r := Markdown(a);
    var h := BookHead(a);
    var t := "\n*" + a.guid + BookEnd;
    assert r == (h + a.content) + t;
    assert r[|h|..|h| + |a.content|] == a.content;
  }
}
