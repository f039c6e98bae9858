/**
 * The head-trim probes of `convert_content`: each probe is one fixed regular
 * expression that marks where a site's boilerplate ends.  `MatchEnd` says
 * whether a match starts at a given offset and where it ends (following the
 * greedy, backtracking semantics of Python's `re` for that one pattern);
 * `Search` is `re.search`: the leftmost offset at which a match starts.
 */
module Probes {
  import opened Wrappers
  import opened Text

  datatype Probe =
    | ContinueReading   // \[Tovább.a.rovat[^\)]*\)            (DOTALL)
    | FollowIndex       // Kövesse az Indexet.*facebook.com/Indexhu\)   (DOTALL)
    | Category          // \[(Belföld|...|KultEnglish)\].*\)
    | Masthead          // \!\[Index.hu[^\)]*\)                 (DOTALL)
    | Heading           // [^#]# .*
    | Opinion           // !\[Véleményhírlevél.*
    | Copied            // Vágólapra másolva.*
    | BareHeading       // # .*   (the older single-file variant)

  const ContinueLead := "[Tovább.a.rovat"
  const FollowLead := "Kövesse az Indexet"
  const FollowTail := "facebook.com/Indexhu)"
  const MastheadLead := "![Index.hu"
  const OpinionLead := "![Véleményhírlevél"
  const CopiedLead := "Vágólapra másolva"

  /** The section names of the `Category` alternation, in pattern order. */
  const Sections := ["Belföld", "Külföld", "After", "Gazdaság", "Sport", "Techtud",
                     "Gasztro", "Észkombájn", "Életmód", "Zacc", "Podcast", "KultEnglish"]

  /** The last offset at or after `from` where `pat` matches: a greedy `.*`
      in front of `pat` backtracks from the far end, so it settles there. */
  function LastPatFrom(s: string, pat: string, from: nat, dotall: bool): (r: Option<nat>)
    decreases |s| + 1 - from
    ensures r.Some? ==> from <= r.value && PatAt(s, r.value, pat, dotall)
  {
    if from > |s| then None
    else match LastPatFrom(s, pat, from + 1, dotall)
      case Some(j) => Some(j)
      case None => if PatAt(s, from, pat, dotall) then Some(from) else None
  }

  /** `LastPatFrom` finds the last match, and finds none only when there is none. */
  lemma {:induction false} LastPatIsLast(s: string, pat: string, from: nat, dotall: bool)
    ensures LastPatFrom(s, pat, from, dotall).Some? ==>
      forall k :: LastPatFrom(s, pat, from, dotall).value < k ==> !PatAt(s, k, pat, dotall)
    ensures LastPatFrom(s, pat, from, dotall).None? ==> forall k :: from <= k ==> !PatAt(s, k, pat, dotall)
    decreases |s| + 1 - from
  {
    if from > |s| {
      forall k | from <= k ensures !PatAt(s, k, pat, dotall) {
        if PatAt(s, k, pat, dotall) { PatAtFits(s, k, pat, dotall); }
      }
    } else {
      LastPatIsLast(s, pat, from + 1, dotall);
    }
  }

  /** The last `c` in the line that starts at `from` (a non-DOTALL greedy `.*c`). */
  function LastOnLine(s: string, c: char, from: nat): (r: Option<nat>)
    requires from <= |s|
    ensures r.Some? ==> from <= r.value < LineEnd(s, from) && s[r.value] == c
  {
    LastBelow(s, c, from, LineEnd(s, from))
  }

  function LastBelow(s: string, c: char, lo: nat, hi: nat): (r: Option<nat>)
    requires lo <= hi <= |s|
    decreases hi - lo
    ensures r.Some? ==> lo <= r.value < hi && s[r.value] == c
  {
    if lo == hi then None
    else if s[hi - 1] == c then Some(hi - 1)
    else LastBelow(s, c, lo, hi - 1)
  }

  /** The offset just past `name]` for the first section name that matches at `i`. */
  function SectionAt(s: string, i: nat, names: seq<string>): (r: Option<nat>)
    ensures r.Some? ==> exists n :: n in names && PatAt(s, i, n + "]", false) && r.value == i + |n| + 1
    ensures r.None? ==> forall n :: n in names ==> !PatAt(s, i, n + "]", false)
  {
    if names == [] then None
    else if PatAt(s, i, names[0] + "]", false) then Some(i + |names[0]| + 1)
    else
      var r := SectionAt(s, i, names[1..]);
      assert forall n :: n in names[1..] ==> n in names;
      assert forall n :: n in names ==> n == names[0] || n in names[1..];
      r
  }

  /** A literal lead followed by a run up to the first `)`, as in
      `\[Tovább.a.rovat[^\)]*\)`: the match ends just past that `)`. */
  function LeadToParen(s: string, i: nat, lead: string): (r: Option<nat>)
    ensures r.Some? ==> i < r.value <= |s|
    ensures r.Some? ==> PatAt(s, i, lead, true) && i + |lead| < r.value && s[r.value - 1] == ')'
  {
    if !PatAt(s, i, lead, true) then None
    else
      PatAtFits(s, i, lead, true);
      match FindFrom(s, ')', i + |lead|)
      case Some(k) => Some(k + 1)
      case None => None
  }

  /** A literal lead whose match runs on to the end of its line (`lead.*`). */
  function LeadToLineEnd(s: string, i: nat, lead: string): (r: Option<nat>)
    requires lead != []
    ensures r.Some? ==> i < r.value <= |s|
    ensures r.Some? <==> PatAt(s, i, lead, false)
  {
    if !PatAt(s, i, lead, false) then None
    else
      PatAtFits(s, i, lead, false);
      Some(LineEnd(s, i + |lead|))
  }

  function FollowEnd(s: string, i: nat): (r: Option<nat>)
    ensures r.Some? ==> i < r.value <= |s|
  {
    if !PatAt(s, i, FollowLead, true) then None
    else match LastPatFrom(s, FollowTail, i + |FollowLead|, true)
      case Some(j) => PatAtFits(s, j, FollowTail, true); Some(j + |FollowTail|)
      case None => None
  }

  function CategoryEnd(s: string, i: nat): (r: Option<nat>)
    ensures r.Some? ==> i < r.value <= |s|
  {
    if !(i < |s| && s[i] == '[') then None
    else match SectionAt(s, i + 1, Sections)
      case None => None
      case Some(a) =>
        if a > |s| then None
        else match LastOnLine(s, ')', a)
          case Some(k) => Some(k + 1)
          case None => None
  }

  function HeadingEnd(s: string, i: nat): (r: Option<nat>)
    ensures r.Some? ==> i < r.value <= |s|
  {
    if i + 3 <= |s| && s[i] != '#' && s[i + 1] == '#' && s[i + 2] == ' '
    then Some(LineEnd(s, i + 3)) else None
  }

  /** Where a match of probe `p` starting at offset `i` ends, if one starts there. */
  function MatchEnd(p: Probe, s: string, i: nat): (r: Option<nat>)
    ensures r.Some? ==> i < r.value <= |s|
  {
    match p
    case ContinueReading => LeadToParen(s, i, ContinueLead)
    case FollowIndex => FollowEnd(s, i)
    case Category => CategoryEnd(s, i)
    case Masthead => LeadToParen(s, i, MastheadLead)
    case Heading => HeadingEnd(s, i)
    case Opinion => LeadToLineEnd(s, i, OpinionLead)
    case Copied => LeadToLineEnd(s, i, CopiedLead)
    case BareHeading => LeadToLineEnd(s, i, "# ")
  }

  /** Whether a match of `p` starts at each offset of `s`. */
  function Starts(p: Probe, s: string): nat -> bool {
    (k: nat) => MatchEnd(p, s, k).Some?
  }

  /** `re.search`: the leftmost offset where a match starts, with the end of that match. */
  function Search(p: Probe, s: string): (r: Option<(nat, nat)>)
    ensures r.Some? ==> r.value.0 <= |s| && MatchEnd(p, s, r.value.0) == Some(r.value.1)
  {
    match FirstWhere(Starts(p, s), 0, |s| + 1)
    case Some(i) => Some((i, MatchEnd(p, s, i).value))
    case None => None
  }

  /** No match starts before the one `Search` reports, and when it reports
      none, no offset of the text starts one. */
  lemma SearchIsLeftmost(p: Probe, s: string)
    ensures Search(p, s).Some? ==> forall k :: 0 <= k < Search(p, s).value.0 ==> MatchEnd(p, s, k).None?
    ensures Search(p, s).None? ==> forall k :: 0 <= k <= |s| ==> MatchEnd(p, s, k).None?
  {
    FirstWhereIsLeftmost(Starts(p, s), 0, |s| + 1);
    var r := FirstWhere(Starts(p, s), 0, |s| + 1);
    var hi := if r.Some? then r.value else |s| + 1;
    forall k | 0 <= k < hi ensures MatchEnd(p, s, k).None? {
      assert !Starts(p, s)(k);
    }
  }

  /** The single-file `# .*` probe needs no character in front of the `#`:
      it matches a heading on the first line of the text and inside a `## `
      subheading, where the package's `[^#]# .*` starts no match. */
  lemma BareHeadingWhereHeadingCannot(s: string, i: nat)
    requires i <= 1 && i + 2 <= |s| && s[i] == '#' && s[i + 1] == ' '
    requires i == 1 ==> s[0] == '#'
    ensures Search(BareHeading, s) == Some((i, LineEnd(s, i + 2)))
    ensures forall k :: 0 <= k <= i ==> MatchEnd(Heading, s, k).None?
  {
    assert PatAt(s, i, "# ", false) by { PatAtChars(s, i, "# ", false); }
    if i == 1 {
      assert !PatAt(s, 0, "# ", false) by { PatAtChars(s, 0, "# ", false); }
    }
    assert MatchEnd(BareHeading, s, i) == Some(LineEnd(s, i + 2));
    SearchIsLeftmost(BareHeading, s);
    var j := Search(BareHeading, s).value.0;
    assert j == i;
  }

  /** The `Kövesse az Indexet` probe is greedy across lines: the text left
      after its match holds no further `facebook.com/Indexhu)`. */
  lemma FollowIndexCutsAfterLast(s: string)
    requires Search(FollowIndex, s).Some?
    ensures var e := Search(FollowIndex, s).value.1;
      forall k :: e - |FollowTail| < k ==> !PatAt(s, k, FollowTail, true)
  {
    var (i, e) := Search(FollowIndex, s).value;
    assert FollowEnd(s, i) == Some(e);
    var j := LastPatFrom(s, FollowTail, i + |FollowLead|, true).value;
    assert e == j + |FollowTail|;
    LastPatIsLast(s, FollowTail, i + |FollowLead|, true);
  }
}
