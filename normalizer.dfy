/**
 * The text normaliser (`convert_content` minus its cache lookup): a head-trim
 * cascade of probes, a fixed sequence of tail-strip rules, and, in the
 * package version, hyperlink removal.  Both the package pipeline and the
 * older single-file pipeline are modelled.
 */
module Normalizer {
  import opened Wrappers
  import opened Text
  import opened Probes
  import opened Links

  // ---------------------------------------------------------------- head trim

  /** The probes of the package version, in priority order; the eighth repeats the fifth. */
  const PackageProbes := [ContinueReading, FollowIndex, Category, Masthead, Heading, Opinion, Copied, Heading]

  /** The probes of the single-file version, in priority order. */
  const LegacyProbes := [ContinueReading, Masthead, Opinion, Copied, BareHeading]

  /** The outcome of every probe of a cascade on the same text, in order. */
  function Results(probes: seq<Probe>, s: string): seq<Option<(nat, nat)>> {
    Map(SearchIn(s), probes)
  }

  /** `re.search` of each probe on one fixed text. */
  function SearchIn(s: string): Probe -> Option<(nat, nat)> {
    p => Search(p, s)
  }

  /** The rank of the first outcome that is a match, with the end of that match. */
  function FirstSome(rs: seq<Option<(nat, nat)>>): (r: Option<(nat, nat)>)
    ensures r.Some? ==> r.value.0 < |rs| && rs[r.value.0].Some? && rs[r.value.0].value.1 == r.value.1
    ensures r.Some? ==> forall q :: 0 <= q < r.value.0 ==> rs[q].None?
    ensures r.None? ==> forall q :: 0 <= q < |rs| ==> rs[q].None?
  {
    if rs == [] then None
    else match rs[0]
      case Some((_, e)) => Some((0, e))
      case None =>
        match FirstSome(rs[1..])
        case Some((k, e)) => Some((k + 1, e))
        case None => None
  }

  /** The rank of the first probe that matches, with the end of its match. */
  function FirstMatch(probes: seq<Probe>, s: string): Option<(nat, nat)> {
    FirstSome(Results(probes, s))
  }

  /** Cut everything up to the end of the first matching probe's match. */
  function HeadTrim(probes: seq<Probe>, s: string): string {
    match FirstMatch(probes, s)
    case Some((_, e)) => MatchEndBound(probes, s); s[e..]
    case None => s
  }

  lemma MatchEndBound(probes: seq<Probe>, s: string)
    requires FirstMatch(probes, s).Some?
    ensures FirstMatch(probes, s).value.1 <= |s|
  {
    var k := FirstMatch(probes, s).value.0;
    var i := Search(probes[k], s).value.0;
    assert MatchEnd(probes[k], s, i).Some?;
  }

  /** Only the first matching probe in priority order decides the cut. */
  lemma FirstProbeWins(probes: seq<Probe>, s: string, k: nat)
    requires k < |probes| && Search(probes[k], s).Some?
    requires forall q :: 0 <= q < k ==> Search(probes[q], s).None?
    ensures Search(probes[k], s).value.1 <= |s|
    ensures HeadTrim(probes, s) == s[Search(probes[k], s).value.1..]
  {
    var rs := Results(probes, s);
    var r := FirstSome(rs);
    FirstSomeAt(rs, k);
    MatchEndBound(probes, s);
  }

  /** When no probe matches, the text is kept whole. */
  lemma NoProbeKeepsText(probes: seq<Probe>, s: string)
    requires forall q :: 0 <= q < |probes| ==> Search(probes[q], s).None?
    ensures HeadTrim(probes, s) == s
  {
    var rs := Results(probes, s);
    assert forall q :: 0 <= q < |rs| ==> rs[q].None?;
  }

  /** Head trimming keeps a suffix of the text. */
  lemma HeadTrimIsSuffix(probes: seq<Probe>, s: string)
    ensures |HeadTrim(probes, s)| <= |s|
    ensures HeadTrim(probes, s) == s[|s| - |HeadTrim(probes, s)|..]
  {
    var t := HeadTrim(probes, s);
    match FirstMatch(probes, s)
    case Some((_, e)) =>
      MatchEndBound(probes, s);
      assert t == s[e..];
      assert |s| - |t| == e;
    case None =>
      assert t == s;
  }

  /** The first match is at rank k exactly when rank k matches and no earlier rank does. */
  lemma FirstSomeAt(rs: seq<Option<(nat, nat)>>, k: nat)
    requires k < |rs| && rs[k].Some?
    requires forall q :: 0 <= q < k ==> rs[q].None?
    ensures FirstSome(rs) == Some((k, rs[k].value.1))
  {
    var r := FirstSome(rs);
  }

  /** Dropping an outcome that repeats an earlier one does not change where
      the first match ends. */
  lemma FirstSomeDropRepeat(rs: seq<Option<(nat, nat)>>, a: nat, b: nat)
    requires a < b < |rs| && rs[a] == rs[b]
    ensures var short := rs[..b] + rs[b + 1..];
      && (FirstSome(rs).Some? <==> FirstSome(short).Some?)
      && (FirstSome(rs).Some? ==> FirstSome(rs).value.1 == FirstSome(short).value.1)
  {
    var short := rs[..b] + rs[b + 1..];
    assert forall q :: 0 <= q < b ==> short[q] == rs[q];
    assert forall q :: b <= q < |short| ==> short[q] == rs[q + 1];
    match FirstSome(rs)
    case Some((k, e)) =>
      if k < b {
        FirstSomeAt(short, k);
      } else {
        assert k > b by { assert rs[a].None?; }
        FirstSomeAt(short, k - 1);
      }
    case None =>
  }

  /** A probe that repeats an earlier one in the cascade can never be the
      first to match, so dropping it leaves the cut unchanged. */
  lemma RepeatedProbeRedundant(probes: seq<Probe>, s: string, a: nat, b: nat)
    requires a < b < |probes| && probes[a] == probes[b]
    ensures HeadTrim(probes, s) == HeadTrim(probes[..b] + probes[b + 1..], s)
  {
    var rs := Results(probes, s);
    MapDrop(SearchIn(s), probes, b);
    assert rs[a] == rs[b];
    FirstSomeDropRepeat(rs, a, b);
  }

  /** The eighth package probe repeats the fifth on the same text, so the
      cascade behaves the same without it. */
  lemma EighthProbeRedundant(s: string)
    ensures HeadTrim(PackageProbes, s) == HeadTrim(PackageProbes[..7], s)
  {
    RepeatedProbeRedundant(PackageProbes, s, 4, 7);
    assert PackageProbes[..7] + PackageProbes[8..] == PackageProbes[..7];
  }

  /** A probe whose match runs to the end of a line leaves the kept text
      starting at that line's break (or empty): the heading line itself is
      dropped but its newline is not. */
  lemma LineProbeKeepsLineBreak(probes: seq<Probe>, s: string)
    requires FirstMatch(probes, s).Some?
    requires probes[FirstMatch(probes, s).value.0] in {Heading, Opinion, Copied, BareHeading}
    ensures var t := HeadTrim(probes, s); t == [] || t[0] == '\n'
  {
    var (k, e) := FirstMatch(probes, s).value;
    var i := Search(probes[k], s).value.0;
    assert MatchEnd(probes[k], s, i) == Some(e);
    MatchEndBound(probes, s);
  }

  // ---------------------------------------------------------------- tail strip

  /** One alternative of a tail-strip pattern, by the shape of text at which
      a match of it can start. */
  datatype Alt =
    | Rest(lead: string, dotall: bool)       // lead.*
    | ToParen(lead: string, nonEmpty: bool)  // lead[^\)]*\).*  or, when nonEmpty, lead[^\)]+\).*
    | Indent(lead: string)                   // [ ]{,4}lead.*
    | LineThen(lead: string, tail: string)   // lead[^\n]*tail.*

  /** Exactly `k` spaces at `i`, then `lead`. */
  predicate IndentAt(s: string, i: nat, k: nat, lead: string) {
    i + k <= |s| && (forall x :: i <= x < i + k ==> s[x] == ' ') && PatAt(s, i + k, lead, false)
  }

  /** A match of alternative `a` starts at offset `i`. */
  predicate AltAt(a: Alt, s: string, i: nat) {
    match a
    case Rest(lead, d) => PatAt(s, i, lead, d)
    case ToParen(lead, nonEmpty) =>
      PatAt(s, i, lead, true) &&
      (match FindFrom(s, ')', i + |lead|)
       case Some(k) => !nonEmpty || k > i + |lead|
       case None => false)
    case Indent(lead) => exists k: nat | k <= 4 :: IndentAt(s, i, k, lead)
    case LineThen(lead, tail) =>
      PatAt(s, i, lead, true) && i + |lead| <= |s| &&
      exists j: nat | i + |lead| <= j <= LineEnd(s, i + |lead|) :: PatAt(s, j, tail, true)
  }

  /** A match of one of the alternatives starts at offset `i`. */
  predicate AnyAltAt(alts: seq<Alt>, s: string, i: nat)
    decreases |alts|
  {
    alts != [] && (AltAt(alts[0], s, i) || AnyAltAt(alts[1..], s, i))
  }

  /** The tail-strip rules.  All but `Gallery` and `OpinionTeaser` are compiled
      with DOTALL and end in `.*`, so a match runs to the end of the text. */
  datatype TailRule =
    | Gallery         // Galéria: .*
    | IndexBlocks     // (\[\!\[Index könyvek.*|\!\[Zöld Index).*|\[Akták.*|\!\[Index.hu[^\)]*\).*
    | Credit          // \*\([^\)]+\).*
    | TopicNews       // ## A téma legfrissebb hírei.*
    | Instagram       // > \[A bejegyzés megtekintése az Instagramon.*
    | GoogleNews      // \[\!\[Google News.*
    | MoreNews        // #### További [^\n]* híreink.*
    | Favourites      // [ ]{,4}\[Kedvenceink.*|[ ]{,4}\[Kapcsolódó.*
    | Via             // \*?Via \[.*
    | HwswShare       // \[\!\[\]\(https://www.hwsw.hu/img/icons/facebook.svg\).*
    | OpinionTeaser   // !\[Véleményhírlevél.*
  {
    /** The pattern's alternatives. */
    function Alts(): seq<Alt> {
      match this
      case Gallery => GalleryAlts
      case IndexBlocks => IndexBlocksAlts
      case Credit => CreditAlts
      case TopicNews => TopicNewsAlts
      case Instagram => InstagramAlts
      case GoogleNews => GoogleNewsAlts
      case MoreNews => MoreNewsAlts
      case Favourites => FavouritesAlts
      case Via => ViaAlts
      case HwswShare => HwswShareAlts
      case OpinionTeaser => OpinionTeaserAlts
    }

    /** The two rules without DOTALL, whose `.*` stops at the end of the line. */
    predicate IsLineRule() { this == Gallery || this == OpinionTeaser }

    function LineLead(): (lead: string)
      requires IsLineRule()
      ensures lead != [] && '\n' !in lead && this.Alts() == [Rest(lead, false)]
    {
      if this == Gallery then "Galéria: " else "![Véleményhírlevél"
    }
  }

  const GalleryAlts := [Rest("Galéria: ", false)]
  const IndexBlocksAlts := [Rest("[![Index könyvek", true), Rest("![Zöld Index", true),
                            Rest("[Akták", true), ToParen("![Index.hu", false)]
  const CreditAlts := [ToParen("*(", true)]
  const TopicNewsAlts := [Rest("## A téma legfrissebb hírei", true)]
  const InstagramAlts := [Rest("> [A bejegyzés megtekintése az Instagramon", true)]
  const GoogleNewsAlts := [Rest("[![Google News", true)]
  const MoreNewsAlts := [LineThen("#### További ", " híreink")]
  const FavouritesAlts := [Indent("[Kedvenceink"), Indent("[Kapcsolódó")]
  const ViaAlts := [Rest("*Via [", true), Rest("Via [", true)]
  const HwswShareAlts := [Rest("[![](https://www.hwsw.hu/img/icons/facebook.svg)", true)]
  const OpinionTeaserAlts := [Rest("![Véleményhírlevél", false)]

  /** A match of rule `r` starts at offset `i`. */
  predicate CutsAt(r: TailRule, s: string, i: nat) {
    i < |s| && AnyAltAt(r.Alts(), s, i)
  }

  /** Whether a match of `r` starts at each offset of `s`. */
  function Cuts(r: TailRule, s: string): nat -> bool {
    (k: nat) => CutsAt(r, s, k)
  }

  /** `re.sub(rule, "", s)` for a DOTALL rule: the first match swallows the rest
      of the text, so only the prefix before it is kept. */
  function Truncate(r: TailRule, s: string): string {
    match FirstWhere(Cuts(r, s), 0, |s|)
    case Some(i) => s[..i]
    case None => s
  }

  lemma FindFromPrefix(s: string, t: string, c: char, from: nat)
    requires |t| <= |s| && t == s[..|t|] && FindFrom(t, c, from).Some?
    ensures FindFrom(s, c, from) == FindFrom(t, c, from)
  {
    var k := FindFrom(t, c, from).value;
    FindFromIsFirst(t, c, from);
    assert forall x :: from <= x <= k ==> s[x] == t[x];
    FirstAt(s, c, from, k);
  }

  lemma LineEndPrefix(s: string, t: string, from: nat)
    requires |t| <= |s| && t == s[..|t|] && from <= |t|
    ensures LineEnd(t, from) <= LineEnd(s, from)
  {
    var a := LineEnd(t, from);
    LineEndNoBreak(t, from);
    assert forall k :: from <= k < a ==> s[k] == t[k];
  }

  lemma PatExtends(s: string, t: string, j: nat, pat: string, d: bool)
    requires |t| <= |s| && t == s[..|t|] && PatAt(t, j, pat, d)
    ensures PatAt(s, j, pat, d)
  {
    PatAtFits(t, j, pat, d);
    PatAtPrefix(s, t, j, pat, d);
  }

  lemma IndentExtends(s: string, t: string, i: nat, lead: string)
    requires |t| <= |s| && t == s[..|t|] && AltAt(Indent(lead), t, i)
    ensures AltAt(Indent(lead), s, i)
  {
    var k: nat :| k <= 4 && IndentAt(t, i, k, lead);
    PatExtends(s, t, i + k, lead, false);
    assert forall x :: i <= x < i + k ==> s[x] == t[x];
    assert IndentAt(s, i, k, lead);
  }

  lemma LineThenExtends(s: string, t: string, i: nat, lead: string, tail: string)
    requires |t| <= |s| && t == s[..|t|] && AltAt(LineThen(lead, tail), t, i)
    ensures AltAt(LineThen(lead, tail), s, i)
  {
    var a := i + |lead|;
    var j: nat :| a <= j <= LineEnd(t, a) && PatAt(t, j, tail, true);
    LineEndPrefix(s, t, a);
    PatExtends(s, t, i, lead, true);
    PatExtends(s, t, j, tail, true);
    assert a <= j <= LineEnd(s, a);
  }

  lemma AltExtends(a: Alt, s: string, t: string, i: nat)
    requires |t| <= |s| && t == s[..|t|] && AltAt(a, t, i)
    ensures AltAt(a, s, i)
  {
    match a
    case Rest(lead, d) => PatExtends(s, t, i, lead, d);
    case ToParen(lead, _) =>
      PatExtends(s, t, i, lead, true);
      FindFromPrefix(s, t, ')', i + |lead|);
    case Indent(lead) => IndentExtends(s, t, i, lead);
    case LineThen(lead, tail) => LineThenExtends(s, t, i, lead, tail);
  }

  lemma {:induction false} AnyAltExtends(alts: seq<Alt>, s: string, t: string, i: nat)
    requires |t| <= |s| && t == s[..|t|] && AnyAltAt(alts, t, i)
    ensures AnyAltAt(alts, s, i)
    decreases |alts|
  {
    if AltAt(alts[0], t, i) {
      AltExtends(alts[0], s, t, i);
    } else {
      AnyAltExtends(alts[1..], s, t, i);
    }
  }

  /** A match found in a prefix of the text is a match in the text itself:
      none of the patterns looks past the end of its own match. */
  lemma CutsAtExtends(r: TailRule, s: string, t: string, i: nat)
    requires |t| <= |s| && t == s[..|t|] && CutsAt(r, t, i)
    ensures CutsAt(r, s, i)
  {
    AnyAltExtends(r.Alts(), s, t, i);
  }

  /** A truncating rule keeps exactly the prefix before its first match, and
      what it keeps holds no further match, so applying it again changes nothing. */
  lemma TruncateKeepsCleanPrefix(r: TailRule, s: string)
    ensures var t := Truncate(r, s);
      && |t| <= |s| && t == s[..|t|]
      && (forall k :: 0 <= k < |t| ==> !CutsAt(r, s, k))
      && (|t| < |s| ==> CutsAt(r, s, |t|))
      && (forall k :: 0 <= k < |t| ==> !CutsAt(r, t, k))
      && Truncate(r, t) == t
  {
    var t := Truncate(r, s);
    FirstWhereIsLeftmost(Cuts(r, s), 0, |s|);
    forall k | 0 <= k < |t| ensures !CutsAt(r, s, k) {
      assert !Cuts(r, s)(k);
    }
    forall k | 0 <= k < |t| ensures !CutsAt(r, t, k) {
      if CutsAt(r, t, k) { CutsAtExtends(r, s, t, k); }
    }
    FirstWhereIsLeftmost(Cuts(r, t), 0, |t|);
  }

  /** A truncating rule keeps a prefix of the text. */
  lemma TruncateIsPrefix(r: TailRule, s: string)
    ensures |Truncate(r, s)| <= |s| && Truncate(r, s) == s[..|Truncate(r, s)|]
  {
    match FirstWhere(Cuts(r, s), 0, |s|)
    case Some(i) => assert Truncate(r, s) == s[..i];
    case None => assert Truncate(r, s) == s;
  }

  /** The text is left as it is exactly when no match of the rule starts in it. */
  lemma TruncateUnchangedIff(r: TailRule, s: string)
    ensures Truncate(r, s) == s <==> forall k :: 0 <= k < |s| ==> !CutsAt(r, s, k)
  {
    TruncateKeepsCleanPrefix(r, s);
  }

  // ---------------------------------------------------------------- line rules

  /** `re.sub(lead + ".*", "", s[i..])` without DOTALL: every match runs from
      `lead` to the end of its line; the line break itself stays. */
  function StripLinesFrom(s: string, lead: string, i: nat): (t: string)
    requires lead != [] && i <= |s|
    decreases |s| - i
    ensures |t| <= |s| - i
  {
    if i >= |s| then []
    else if PatAt(s, i, lead, false) then
      PatAtFits(s, i, lead, false);
      StripLinesFrom(s, lead, LineEnd(s, i + |lead|))
    else [s[i]] + StripLinesFrom(s, lead, i + 1)
  }

  function StripLines(s: string, lead: string): string
    requires lead != []
  {
    StripLinesFrom(s, lead, 0)
  }

  /** With no match left to find, the rest of the text is kept as it is. */
  lemma {:induction false} StripNoMatch(s: string, lead: string, i: nat)
    requires lead != []
    requires forall k :: i <= k < |s| ==> !PatAt(s, k, lead, false)
    requires i <= |s|
    ensures StripLinesFrom(s, lead, i) == s[i..]
    decreases |s| - i
  {
    if i < |s| {
      StripNoMatch(s, lead, i + 1);
      assert s[i..] == [s[i]] + s[i + 1..];
    }
  }

  /** A match somewhere ahead makes the result strictly shorter than the text. */
  lemma {:induction false} StripMatchShrinks(s: string, lead: string, i: nat, k: nat)
    requires lead != []
    requires i <= k < |s| && PatAt(s, k, lead, false)
    ensures |StripLinesFrom(s, lead, i)| < |s| - i
    decreases k - i
  {
    if !PatAt(s, i, lead, false) {
      StripMatchShrinks(s, lead, i + 1, k);
    } else {
      PatAtFits(s, i, lead, false);
    }
  }

  /** A line rule leaves the text as it is exactly when its lead occurs nowhere. */
  lemma StripUnchangedIff(s: string, lead: string)
    requires lead != []
    ensures (forall k: nat :: k < |s| ==> !PatAt(s, k, lead, false)) ==> StripLines(s, lead) == s
    ensures StripLines(s, lead) == s ==> forall k: nat :: k < |s| ==> !PatAt(s, k, lead, false)
  {
    if forall k: nat :: k < |s| ==> !PatAt(s, k, lead, false) {
      StripNoMatch(s, lead, 0);
      assert s[0..] == s;
    } else {
      var k: nat :| k < |s| && PatAt(s, k, lead, false);
      StripMatchShrinks(s, lead, 0, k);
      assert |StripLines(s, lead)| < |s|;
    }
  }

  /** A line rule never removes a line break: the text keeps its number of lines. */
  lemma {:induction false} StripKeepsLineBreaks(s: string, lead: string, i: nat)
    requires lead != [] && '\n' !in lead && i <= |s|
    ensures Count(StripLinesFrom(s, lead, i), '\n') == Count(s[i..], '\n')
    decreases |s| - i
  {
    if i < |s| {
      if PatAt(s, i, lead, false) {
        PatAtFits(s, i, lead, false);
        var e := LineEnd(s, i + |lead|);
        LineEndNoBreak(s, i + |lead|);
        forall k | i <= k < e ensures s[k] != '\n' {
          if k < i + |lead| {
            PatAtChars(s, i, lead, false);
            assert CharMatches(lead[k - i], s[i + (k - i)], false);
          }
        }
        CountSkip(s, '\n', i, e);
        StripKeepsLineBreaks(s, lead, e);
      } else {
        StripKeepsLineBreaks(s, lead, i + 1);
        assert s[i..][1..] == s[i + 1..];
        assert ([s[i]] + StripLinesFrom(s, lead, i + 1))[1..] == StripLinesFrom(s, lead, i + 1);
      }
    }
  }

  // ---------------------------------------------------------------- pipelines

  /** One tail-strip rule applied with `re.sub(rule, "", text)`. */
  function Apply(r: TailRule, s: string): string {
    if r.IsLineRule() then StripLines(s, r.LineLead()) else Truncate(r, s)
  }

  /** The rules applied one after another, in order. */
  function ApplyAll(rules: seq<TailRule>, s: string): string
    decreases |rules|
  {
    if rules == [] then s else ApplyAll(rules[1..], Apply(rules[0], s))
  }

  /** The tail rules of the package version, in the order they run. */
  const PackageTail := [Gallery, IndexBlocks, Credit, TopicNews, Instagram, GoogleNews,
                        MoreNews, Favourites, Via, HwswShare, OpinionTeaser]

  /** The tail rules of the single-file version: no gallery or newsletter lines. */
  const LegacyTail := [IndexBlocks, Credit, TopicNews, Instagram, GoogleNews,
                       MoreNews, Favourites, Via, HwswShare]

  /** `convert_content` of the package, after the cache has supplied the text. */
  function Normalize(s: string): string {
    RemoveLinks(ApplyAll(PackageTail, HeadTrim(PackageProbes, s)))
  }

  /** `convert_content` of the single-file version, after conversion to text:
      no hyperlink removal. */
  function LegacyNormalize(s: string): string {
    ApplyAll(LegacyTail, HeadTrim(LegacyProbes, s))
  }

  /** Truncating rules only ever keep a prefix of the text. */
  lemma {:induction false} TruncatingRulesKeepPrefix(rules: seq<TailRule>, s: string)
    requires forall q :: 0 <= q < |rules| ==> !rules[q].IsLineRule()
    ensures var t := ApplyAll(rules, s); |t| <= |s| && t == s[..|t|]
    decreases |rules|
  {
    if rules != [] {
      var r := rules[0];
      assert !r.IsLineRule();
      var u := Truncate(r, s);
      TruncateIsPrefix(r, s);
      assert forall q :: 0 <= q < |rules[1..]| ==> !rules[1..][q].IsLineRule() by {
        forall q | 0 <= q < |rules[1..]| ensures !rules[1..][q].IsLineRule() {
          assert rules[1..][q] == rules[q + 1];
        }
      }
      TruncatingRulesKeepPrefix(rules[1..], u);
      var t := ApplyAll(rules[1..], u);
      assert ApplyAll(rules, s) == t;
      assert u[..|t|] == s[..|t|];
    }
  }

  /** A rule none of whose matches starts in the text leaves it as it is. */
  lemma ApplyUnchanged(r: TailRule, s: string)
    requires forall k :: 0 <= k < |s| ==> !CutsAt(r, s, k)
    ensures Apply(r, s) == s
  {
    if r.IsLineRule() {
      LineRuleUnchanged(r, s);
    } else {
      TruncateUnchangedIff(r, s);
    }
  }

  lemma LineRuleUnchanged(r: TailRule, s: string)
    requires r.IsLineRule()
    requires forall k :: 0 <= k < |s| ==> !CutsAt(r, s, k)
    ensures StripLines(s, r.LineLead()) == s
  {
    var lead := r.LineLead();
    forall k | 0 <= k < |s| ensures !PatAt(s, k, lead, false) {
      assert !CutsAt(r, s, k);
    }
    StripNoMatch(s, lead, 0);
    assert s[0..] == s;
  }

  /** A rule sequence none of whose rules matches anywhere leaves the text as it is. */
  lemma {:induction false} NothingToStrip(rules: seq<TailRule>, s: string)
    requires forall q, k :: 0 <= q < |rules| && 0 <= k < |s| ==> !CutsAt(rules[q], s, k)
    ensures ApplyAll(rules, s) == s
    decreases |rules|
  {
    if rules != [] {
      var r := rules[0];
      forall k | 0 <= k < |s| ensures !CutsAt(r, s, k) {
        assert 0 < |rules|;
      }
      ApplyUnchanged(r, s);
      forall q, k | 0 <= q < |rules[1..]| && 0 <= k < |s| ensures !CutsAt(rules[1..][q], s, k) {
        assert rules[1..][q] == rules[q + 1];
      }
      NothingToStrip(rules[1..], s);
    }
  }

  /** A head trim followed only by truncating rules keeps one contiguous
      slice of the text: it starts where the head trim cut. */
  lemma TrimThenTruncateIsSlice(probes: seq<Probe>, rules: seq<TailRule>, s: string)
    requires forall q :: 0 <= q < |rules| ==> !rules[q].IsLineRule()
    ensures var h := HeadTrim(probes, s); var t := ApplyAll(rules, h);
      |s| - |h| + |t| <= |s| && t == s[|s| - |h|..|s| - |h| + |t|]
  {
    var h := HeadTrim(probes, s);
    HeadTrimIsSuffix(probes, s);
    TruncatingRulesKeepPrefix(rules, h);
    SuffixPrefixIsSlice(s, h, ApplyAll(rules, h));
  }

  lemma SuffixPrefixIsSlice(s: string, h: string, t: string)
    requires |h| <= |s| && h == s[|s| - |h|..]
    requires |t| <= |h| && t == h[..|t|]
    ensures |s| - |h| + |t| <= |s| && t == s[|s| - |h|..|s| - |h| + |t|]
  {
  }

  /** The single-file tail rules are all truncating. */
  lemma LegacyTailTruncates()
    ensures forall q :: 0 <= q < |LegacyTail| ==> !LegacyTail[q].IsLineRule()
  {
  }

  /** Text that no probe and no tail rule touches comes out of the package
      normaliser unchanged exactly when it holds no hyperlink. */
  lemma CleanTextUnchanged(s: string)
    requires forall q :: 0 <= q < |PackageProbes| ==> Search(PackageProbes[q], s).None?
    requires forall q, k :: 0 <= q < |PackageTail| && 0 <= k < |s| ==> !CutsAt(PackageTail[q], s, k)
    ensures Normalize(s) == s <==> !HasLink(s, 0)
  {
    NoProbeKeepsText(PackageProbes, s);
    NothingToStrip(PackageTail, s);
    UnchangedIffNoLink(s);
  }

  /** On text that no probe and no tail rule of its own touches, the
      single-file normaliser returns the text as it is, hyperlinks included. */
  lemma LegacyKeepsLinks(s: string)
    requires forall q :: 0 <= q < |LegacyProbes| ==> Search(LegacyProbes[q], s).None?
    requires forall q, k :: 0 <= q < |LegacyTail| && 0 <= k < |s| ==> !CutsAt(LegacyTail[q], s, k)
    ensures LegacyNormalize(s) == s
  {
    NoProbeKeepsText(LegacyProbes, s);
    NothingToStrip(LegacyTail, s);
  }
}
