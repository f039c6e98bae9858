// The digest page (README.md) of mdnews/content.py:204-215 and mdnews.py:
// 202-213: a heading for the start day, then every article's details entry
// in list order, with a new day heading whenever an article's day differs
// from the day of the last heading written.

module Render {
  import opened Articles

  /** One piece of the page. */
  datatype Block<D, A> = Head(day: D) | Entry(art: A)

  /** `## YYYY-MM-DD` and a blank line. */
  function Heading(d: CalendarDay): string {
    "## " + IsoDate(d) + "\n\n"
  }

  /** The day an article is listed under. */
  function ArticleDay(a: Article): CalendarDay { a.date.day }

  /** A block of the digest page. */
  type PageBlock = Block<CalendarDay, Article>

  function RenderBlock(b: PageBlock): string {
    match b
    case Head(d) => Heading(d)
    case Entry(a) => MarkdownDetails(a)
  }

  /** The text of blocks written one after the other, each as `show` says. */
  function RenderWith<D, A>(bs: seq<Block<D, A>>, show: Block<D, A> -> string): string {
    if bs == [] then "" else RenderWith(bs[..|bs| - 1], show) + show(bs[|bs| - 1])
  }

  /** The loop's `date` after the articles `arts`: the start day, or the
      day of the last article (a heading has just been written for it, or
      it already was the current day). */
  function DayAfter<D, A>(start: D, arts: seq<A>, dayOf: A -> D): D {
    if arts == [] then start else dayOf(arts[|arts| - 1])
  }

  /** What one pass of the loop writes for `a` when the current day is `day`. */
  function Step<D(==), A>(day: D, a: A, dayOf: A -> D): seq<Block<D, A>> {
    if day != dayOf(a) then [Head(dayOf(a)), Entry(a)] else [Entry(a)]
  }

  /** The page as blocks: the start day's heading, then each article's step. */
  function Blocks<D(==), A>(start: D, arts: seq<A>, dayOf: A -> D): (bs: seq<Block<D, A>>)
    ensures bs != [] && bs[0] == Head(start)
  {
    if arts == [] then [Head(start)]
    else
      var init := arts[..|arts| - 1];
      Blocks(start, init, dayOf) + Step(DayAfter(start, init, dayOf), arts[|arts| - 1], dayOf)
  }

  /** The blocks grow by one step per article. */
  lemma BlocksStep<D, A>(start: D, init: seq<A>, a: A, dayOf: A -> D)
    ensures Blocks(start, init + [a], dayOf) == Blocks(start, init, dayOf) + Step(DayAfter(start, init, dayOf), a, dayOf)
  {
    assert (init + [a])[..|init|] == init;
  }

  /** The digest page. */
  function Page(start: CalendarDay, arts: seq<Article>): string {
    RenderWith(Blocks(start, arts, ArticleDay), RenderBlock)
  }

  /** Rendering one more block appends its text. */
  lemma RenderSnoc<D, A>(xs: seq<Block<D, A>>, b: Block<D, A>, show: Block<D, A> -> string)
    ensures RenderWith(xs + [b], show) == RenderWith(xs, show) + show(b)
  {
    assert (xs + [b])[..|xs|] == xs;
  }

  /** The text of the blocks after one more step. */
  lemma RenderStep<D, A>(prev: seq<Block<D, A>>, day: D, a: A, dayOf: A -> D, show: Block<D, A> -> string)
    ensures RenderWith(prev + Step(day, a, dayOf), show)
      == if day != dayOf(a) then RenderWith(prev, show) + show(Head(dayOf(a))) + show(Entry(a))
         else RenderWith(prev, show) + show(Entry(a))
  {
    if day != dayOf(a) {
      assert prev + Step(day, a, dayOf) == (prev + [Head(dayOf(a))]) + [Entry(a)];
      RenderSnoc(prev, Head(dayOf(a)), show);
      RenderSnoc(prev + [Head(dayOf(a))], Entry(a), show);
    } else {
      RenderSnoc(prev, Entry(a), show);
    }
  }

  /** The page of no articles is the start day's heading. */
  lemma EmptyPage(start: CalendarDay)
    ensures Page(start, []) == Heading(start)
  {
    var first: seq<PageBlock> := [Head(start)];
    RenderSnoc([], Head(start), RenderBlock);
    assert [] + first == first;
  }

  /** One pass of the page loop: a heading when `a`'s day differs from the
      current one, then `a`'s entry. */
  method WriteStep<D(==), A>(start: D, ghost done: seq<A>, day: D, out: string, a: A,
                             dayOf: A -> D, show: Block<D, A> -> string)
    returns (day': D, out': string)
    requires day == DayAfter(start, done, dayOf) && out == RenderWith(Blocks(start, done, dayOf), show)
    ensures day' == DayAfter(start, done + [a], dayOf)
    ensures out' == RenderWith(Blocks(start, done + [a], dayOf), show)
  {
    BlocksStep(start, done, a, dayOf);
    RenderStep(Blocks(start, done, dayOf), day, a, dayOf, show);
    day' := day;
    out' := out;
    if day' != dayOf(a) {
      day' := dayOf(a);
      out' := out' + show(Head(day'));
    }
    out' := out' + show(Entry(a));
  }

  /** The page loop: the start day's heading, then one pass per article. */
  method WritePage<D(==), A>(start: D, arts: seq<A>, dayOf: A -> D, show: Block<D, A> -> string)
    returns (out: string)
    ensures out == RenderWith(Blocks(start, arts, dayOf), show)
  {
    var day := start;
    out := show(Head(start));
    RenderSnoc([], Head(start), show);
    assert [] + [Head(start)] == Blocks(start, [], dayOf);
    var i := 0;
    while i < |arts|
      invariant i <= |arts|
      invariant day == DayAfter(start, arts[..i], dayOf)
      invariant out == RenderWith(Blocks(start, arts[..i], dayOf), show)
    {
      assert arts[..i + 1] == arts[..i] + [arts[i]];
      day, out := WriteStep(start, arts[..i], day, out, arts[i], dayOf, show);
      i := i + 1;
    }
    assert arts[..i] == arts;
  }

  /** `__render_page`, once the output file is open: the text written. */
  method RenderPage(start: CalendarDay, arts: seq<Article>) returns (out: string)
    ensures out == Page(start, arts)
  {
    out := WritePage(start, arts, ArticleDay, RenderBlock);
  }

  // ---------------------------------------------------------------------
  // Properties of the page
  // ---------------------------------------------------------------------

  /** The articles of the entries, in order. */
  function Entries<D, A>(bs: seq<Block<D, A>>): seq<A> {
    if bs == [] then []
    else Entries(bs[..|bs| - 1]) + (if bs[|bs| - 1].Entry? then [bs[|bs| - 1].art] else [])
  }

  lemma {:induction false} EntriesAppend<D, A>(xs: seq<Block<D, A>>, ys: seq<Block<D, A>>)
    ensures Entries(xs + ys) == Entries(xs) + Entries(ys)
    decreases |ys|
  {
    if ys == [] {
      assert xs + ys == xs;
    } else {
      var init := ys[..|ys| - 1];
      EntriesAppend(xs, init);
      assert (xs + ys)[..|xs + ys| - 1] == xs + init;
    }
  }

  lemma EntriesSingle<D, A>(b: Block<D, A>)
    ensures Entries([b]) == if b.Entry? then [b.art] else []
  {
    assert [b][..0] == [];
  }

  /** Each step writes its own article's entry and no other. */
  lemma EntriesOfStep<D, A>(day: D, a: A, dayOf: A -> D)
    ensures Entries(Step(day, a, dayOf)) == [a]
  {
    EntriesSingle<D, A>(Entry(a));
    if day != dayOf(a) {
      EntriesSingle<D, A>(Head(dayOf(a)));
      EntriesAppend<D, A>([Head(dayOf(a))], [Entry(a)]);
      assert Step(day, a, dayOf) == [Head(dayOf(a))] + [Entry(a)];
    }
  }

  /** Every article is written exactly once, in list order. */
  lemma {:induction false} EveryArticleOnce<D, A>(start: D, arts: seq<A>, dayOf: A -> D)
    ensures Entries(Blocks(start, arts, dayOf)) == arts
    decreases |arts|
  {
    if arts != [] {
      var init := arts[..|arts| - 1];
      var a := arts[|arts| - 1];
      assert init + [a] == arts;
      BlocksStep(start, init, a, dayOf);
      EveryArticleOnce(start, init, dayOf);
      EntriesAppend(Blocks(start, init, dayOf), Step(DayAfter(start, init, dayOf), a, dayOf));
      EntriesOfStep(DayAfter(start, init, dayOf), a, dayOf);
    }
  }

  /** The text of blocks starts with the text of the first one. */
  lemma {:induction false} RenderStartsWithFirst<D, A>(bs: seq<Block<D, A>>, show: Block<D, A> -> string)
    requires bs != []
    ensures var t := RenderWith(bs, show);
      |show(bs[0])| <= |t| && t[..|show(bs[0])|] == show(bs[0])
    decreases |bs|
  {
    var init := bs[..|bs| - 1];
    if init == [] {
      RenderSnoc(init, bs[0], show);
      assert init + [bs[0]] == bs;
    } else {
      RenderStartsWithFirst(init, show);
      assert init[0] == bs[0];
    }
  }

  /** The page starts with the heading of the start day. */
  lemma PageStartsWithHeading(start: CalendarDay, arts: seq<Article>)
    ensures var p := Page(start, arts);
      |Heading(start)| <= |p| && p[..|Heading(start)|] == Heading(start)
  {
    RenderStartsWithFirst(Blocks(start, arts, ArticleDay), RenderBlock);
  }

  /** The day of the last heading among the first `p` blocks. */
  function HeadingBefore<D, A>(bs: seq<Block<D, A>>, p: nat): D
    requires 0 < p <= |bs| && bs[0].Head?
  {
    if bs[p - 1].Head? then bs[p - 1].day else HeadingBefore(bs, p - 1)
  }

  /** Blocks appended later do not change the heading an earlier block is under. */
  lemma {:induction false} HeadingBeforeAppend<D, A>(xs: seq<Block<D, A>>, ys: seq<Block<D, A>>, p: nat)
    requires 0 < p <= |xs| && xs[0].Head?
    ensures HeadingBefore(xs + ys, p) == HeadingBefore(xs, p)
    decreases p
  {
    if !xs[p - 1].Head? {
      HeadingBeforeAppend(xs, ys, p - 1);
    }
  }

  /** Under the page's last heading is the day of the last article. */
  lemma {:induction false} LastHeadingIsDayAfter<D, A>(start: D, arts: seq<A>, dayOf: A -> D)
    ensures var bs := Blocks(start, arts, dayOf); HeadingBefore(bs, |bs|) == DayAfter(start, arts, dayOf)
    decreases |arts|
  {
    if arts != [] {
      var init := arts[..|arts| - 1];
      var a := arts[|arts| - 1];
      var prev := Blocks(start, init, dayOf);
      var bs := Blocks(start, arts, dayOf);
      if DayAfter(start, init, dayOf) == dayOf(a) {
        assert bs == prev + [Entry(a)];
        LastHeadingIsDayAfter(start, init, dayOf);
        HeadingBeforeAppend(prev, [Entry(a)], |prev|);
      }
    }
  }

  /** Every entry sits under the heading of its own day. */
  ghost predicate UnderOwnDay<D, A>(bs: seq<Block<D, A>>, dayOf: A -> D)
    requires bs != [] && bs[0].Head?
  {
    forall p :: 0 < p < |bs| && bs[p].Entry? ==> HeadingBefore(bs, p) == dayOf(bs[p].art)
  }

  /** Every heading after the first introduces the entry right after it,
      and names a day different from the heading before it. */
  ghost predicate HeadingsNeeded<D, A>(bs: seq<Block<D, A>>, dayOf: A -> D)
    requires bs != [] && bs[0].Head?
  {
    forall p :: 0 < p < |bs| && bs[p].Head? ==>
      && p + 1 < |bs| && bs[p + 1].Entry? && dayOf(bs[p + 1].art) == bs[p].day
      && HeadingBefore(bs, p) != bs[p].day
  }

  /** What the grouping promises of a page. */
  ghost predicate Grouped<D, A>(bs: seq<Block<D, A>>, dayOf: A -> D)
    requires bs != [] && bs[0].Head?
  {
    UnderOwnDay(bs, dayOf) && HeadingsNeeded(bs, dayOf)
  }

  /** Appending a step after a grouped page whose last heading is `day`
      keeps every entry under its own day. */
  lemma UnderOwnDayStep<D, A>(prev: seq<Block<D, A>>, day: D, a: A, dayOf: A -> D)
    requires prev != [] && prev[0].Head? && UnderOwnDay(prev, dayOf) && HeadingBefore(prev, |prev|) == day
    ensures UnderOwnDay(prev + Step(day, a, dayOf), dayOf)
  {
    var st := Step(day, a, dayOf);
    var bs := prev + st;
    var n := |prev|;
    forall p | 0 < p < |bs| && bs[p].Entry?
      ensures HeadingBefore(bs, p) == dayOf(bs[p].art)
    {
      if p < n {
        HeadingBeforeAppend(prev, st, p);
        assert bs[p] == prev[p];
      } else if p == n {
        HeadingBeforeAppend(prev, st, n);
        assert st[0] == Entry(a);
      } else {
        assert bs[n] == Head(dayOf(a)) && bs[p] == Entry(a);
      }
    }
  }

  /** Appending a step after a grouped page whose last heading is `day`
      adds a heading only when it is needed. */
  lemma HeadingsNeededStep<D, A>(prev: seq<Block<D, A>>, day: D, a: A, dayOf: A -> D)
    requires prev != [] && prev[0].Head? && HeadingsNeeded(prev, dayOf) && HeadingBefore(prev, |prev|) == day
    ensures HeadingsNeeded(prev + Step(day, a, dayOf), dayOf)
  {
    var st := Step(day, a, dayOf);
    var bs := prev + st;
    var n := |prev|;
    forall p | 0 < p < |bs| && bs[p].Head?
      ensures && p + 1 < |bs| && bs[p + 1].Entry? && dayOf(bs[p + 1].art) == bs[p].day
              && HeadingBefore(bs, p) != bs[p].day
    {
      if p < n {
        HeadingBeforeAppend(prev, st, p);
        assert bs[p] == prev[p] && bs[p + 1] == prev[p + 1];
      } else {
        assert p == n && st == [Head(dayOf(a)), Entry(a)];
        HeadingBeforeAppend(prev, st, n);
      }
    }
  }

  /** Every page the loop writes is grouped by day. */
  lemma {:induction false} PageIsGrouped<D, A>(start: D, arts: seq<A>, dayOf: A -> D)
    ensures Grouped(Blocks(start, arts, dayOf), dayOf)
    decreases |arts|
  {
    if arts != [] {
      var init := arts[..|arts| - 1];
      PageIsGrouped(start, init, dayOf);
      LastHeadingIsDayAfter(start, init, dayOf);
      UnderOwnDayStep(Blocks(start, init, dayOf), DayAfter(start, init, dayOf), arts[|arts| - 1], dayOf);
      HeadingsNeededStep(Blocks(start, init, dayOf), DayAfter(start, init, dayOf), arts[|arts| - 1], dayOf);
    }
  }
}
