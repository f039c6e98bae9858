/**
 * Markdown hyperlink removal (`remove_links`): every `[text](url)` whose `[`
 * is not immediately preceded by `!` becomes `text`; image references
 * `![alt](src)` are left alone.  The scan follows Python's `re.subn`: it tries
 * each offset from the left, and after a replacement resumes right after the
 * closing parenthesis.  The look-behind reads the ORIGINAL text.
 */
module Links {
  import opened Wrappers
  import opened Text

  /** A hyperlink `[t](u)` starts at `i`: `t` is a non-empty run without `]`
      and `u` a non-empty run without `)`.  Gives the offsets of the `]` and
      of the closing `)`. */
  function LinkAt(s: string, i: nat): (r: Option<(nat, nat)>)
    ensures r.Some? ==> i + 1 < r.value.0 && r.value.0 + 2 < r.value.1 < |s|
    ensures r.Some? ==> s[i] == '[' && s[r.value.0] == ']' && s[r.value.0 + 1] == '(' && s[r.value.1] == ')'
    ensures r.Some? ==> i == 0 || s[i - 1] != '!'
  {
    if i >= |s| || s[i] != '[' || (i > 0 && s[i - 1] == '!') then None
    else match FindFrom(s, ']', i + 1)
      case None => None
      case Some(j) => LinkClose(s, i, j)
  }

  /** The rest of a link whose text, opened at `i`, runs up to the `]` at
      `j`: the `(`, a non-empty URL and the first `)` after it. */
  function LinkClose(s: string, i: nat, j: nat): (r: Option<(nat, nat)>)
    ensures r.Some? ==> r.value.0 == j && i + 1 < j && j + 2 < r.value.1 < |s|
    ensures r.Some? ==> s[j + 1] == '(' && s[r.value.1] == ')'
  {
    if j <= i + 1 || j + 1 >= |s| || s[j + 1] != '(' then None
    else match FindFrom(s, ')', j + 2)
      case None => None
      case Some(k) => if k == j + 2 then None else Some((j, k))
  }

  function RemoveLinksFrom(s: string, i: nat): string
    decreases |s| - i
  {
    if i >= |s| then []
    else if s[i] != '[' then [s[i]] + RemoveLinksFrom(s, i + 1)
    else match LinkAt(s, i)
      case Some((j, k)) => s[i + 1..j] + RemoveLinksFrom(s, k + 1)
      case None => [s[i]] + RemoveLinksFrom(s, i + 1)
  }

  /** `remove_links` */
  function RemoveLinks(s: string): string {
    RemoveLinksFrom(s, 0)
  }

  predicate HasLink(s: string, from: nat) {
    exists i: nat | from <= i < |s| :: LinkAt(s, i).Some?
  }

  /** Offsets holding no `[` are copied through unchanged. */
  lemma {:induction false} CopyWithoutBrackets(s: string, i: nat, m: nat)
    requires i <= m <= |s|
    requires forall k :: i <= k < m ==> s[k] != '['
    ensures RemoveLinksFrom(s, i) == s[i..m] + RemoveLinksFrom(s, m)
    decreases m - i
  {
    if i < m {
      CopyWithoutBrackets(s, i + 1, m);
      calc {
        RemoveLinksFrom(s, i);
        [s[i]] + RemoveLinksFrom(s, i + 1);
        [s[i]] + (s[i + 1..m] + RemoveLinksFrom(s, m));
        ([s[i]] + s[i + 1..m]) + RemoveLinksFrom(s, m);
        { assert [s[i]] + s[i + 1..m] == s[i..m]; }
        s[i..m] + RemoveLinksFrom(s, m);
      }
    }
  }

  /** Text without any `[` is returned unchanged. */
  lemma NoBracketUnchanged(s: string)
    requires '[' !in s
    ensures RemoveLinks(s) == s
  {
    CopyWithoutBrackets(s, 0, |s|);
  }

  /** The scan never lengthens the text. */
  lemma {:induction false} NeverLonger(s: string, i: nat)
    requires i <= |s|
    ensures |RemoveLinksFrom(s, i)| <= |s| - i
    decreases |s| - i
  {
    if i < |s| {
      ScanStep(s, i);
      EmitLength(s, i);
      NeverLonger(s, Next(s, i));
    }
  }

  /** The scan shortens the text as soon as one link can be matched anywhere
      in the unscanned part, here at `w`. */
  lemma {:induction false} Shrinks(s: string, i: nat, w: nat)
    requires i <= w < |s| && LinkAt(s, w).Some?
    ensures |RemoveLinksFrom(s, i)| < |s| - i
    decreases |s| - i
  {
    ScanStep(s, i);
    EmitLength(s, i);
    if LinkAt(s, i).Some? {
      NeverLonger(s, Next(s, i));
    } else {
      Shrinks(s, i + 1, w);
    }
  }

  lemma {:induction false} NoLinkIdentity(s: string, i: nat)
    requires i <= |s| && !HasLink(s, i)
    ensures RemoveLinksFrom(s, i) == s[i..]
    decreases |s| - i
  {
    if i < |s| {
      assert LinkAt(s, i).None?;
      assert !HasLink(s, i + 1);
      NoLinkIdentity(s, i + 1);
    }
  }

  /** `remove_links` changes the text exactly when some hyperlink is present. */
  lemma UnchangedIffNoLink(s: string)
    ensures RemoveLinks(s) == s <==> !HasLink(s, 0)
  {
    if HasLink(s, 0) {
      var w: nat :| w < |s| && LinkAt(s, w).Some?;
      Shrinks(s, 0, w);
    } else {
      NoLinkIdentity(s, 0);
    }
  }

  /** A single hyperlink between bracket-free text collapses to its anchor text. */
  lemma SingleLink(p: string, t: string, u: string, q: string)
    requires '[' !in p && '[' !in q
    requires p == [] || p[|p| - 1] != '!'
    requires t != [] && ']' !in t
    requires u != [] && ')' !in u
    ensures RemoveLinks(p + "[" + t + "](" + u + ")" + q) == p + t + q
  {
    var m := "[" + t + "](" + u + ")";
    var s := p + m + q;
    assert s == p + "[" + t + "](" + u + ")" + q;
    LinkShape(t, u);
    FreeAround(p, m, q, '[');
    assert s[|p|..|p| + |m|] == m;
    LinkBetween(s, |p|, t, u);
    assert s[..|p|] == p && s[|p| + |m|..] == q;
  }

  /** A character absent from `p` and `q` occurs in `p + m + q` only inside `m`. */
  lemma FreeAround(p: string, m: string, q: string, c: char)
    requires c !in p && c !in q
    ensures var s := p + m + q;
      && (forall x :: 0 <= x < |p| ==> s[x] != c)
      && (forall x :: |p| + |m| <= x < |s| ==> s[x] != c)
      && (|p| > 0 ==> s[|p| - 1] == p[|p| - 1])
  {
    var s := p + m + q;
    forall x | 0 <= x < |p| ensures s[x] != c { assert s[x] == p[x]; }
    forall x | |p| + |m| <= x < |s| ensures s[x] != c { assert s[x] == q[x - |p| - |m|]; }
  }

  lemma LinkBetween(s: string, i: nat, t: string, u: string)
    requires t != [] && ']' !in t
    requires u != [] && ')' !in u
    requires i + |t| + |u| + 4 <= |s| && s[i..i + |t| + |u| + 4] == "[" + t + "](" + u + ")"
    requires i == 0 || s[i - 1] != '!'
    requires forall x :: 0 <= x < i ==> s[x] != '['
    requires forall x :: i + |t| + |u| + 4 <= x < |s| ==> s[x] != '['
    ensures RemoveLinks(s) == s[..i] + t + s[i + |t| + |u| + 4..]
  {
    var e := i + |t| + |u| + 4;
    var b := RemoveLinksFrom(s, e);
    assert b == s[e..] by { CopyToEnd(s, e); }
    var a := RemoveLinksFrom(s, i);
    assert a == t + b by {
      LinkAtShape(s, i, t, u);
      UnfoldLink(s, i);
    }
    assert RemoveLinksFrom(s, 0) == s[..i] + a by {
      CopyWithoutBrackets(s, 0, i);
      assert s[0..i] == s[..i];
    }
  }

  /** From `e` on, text without `[` is copied through to the end. */
  lemma CopyToEnd(s: string, e: nat)
    requires e <= |s|
    requires forall x :: e <= x < |s| ==> s[x] != '['
    ensures RemoveLinksFrom(s, e) == s[e..]
  {
    CopyWithoutBrackets(s, e, |s|);
    assert RemoveLinksFrom(s, |s|) == [];
    assert s[e..|s|] == s[e..];
  }

  lemma UnfoldLink(s: string, i: nat)
    requires LinkAt(s, i).Some?
    ensures RemoveLinksFrom(s, i) == s[i + 1..LinkAt(s, i).value.0] + RemoveLinksFrom(s, LinkAt(s, i).value.1 + 1)
  {
  }

  lemma LinkAtShape(s: string, i: nat, t: string, u: string)
    requires t != [] && ']' !in t
    requires u != [] && ')' !in u
    requires i + |t| + |u| + 4 <= |s| && s[i..i + |t| + |u| + 4] == "[" + t + "](" + u + ")"
    requires i == 0 || s[i - 1] != '!'
    ensures LinkAt(s, i) == Some((i + 1 + |t|, i + 3 + |t| + |u|))
    ensures s[i + 1..i + 1 + |t|] == t
  {
    var j := i + 1 + |t|;
    var k := j + 2 + |u|;
    LinkChars(s, i, t, u);
    FirstAt(s, ']', i + 1, j);
    FirstAt(s, ')', j + 2, k);
    assert LinkClose(s, i, j) == Some((j, k));
  }

  /** Where `[t](u)` sits in `s` at `i`: its brackets and parentheses, and
      no `]` in the anchor or `)` in the target. */
  lemma LinkChars(s: string, i: nat, t: string, u: string)
    requires t != [] && ']' !in t
    requires u != [] && ')' !in u
    requires i + |t| + |u| + 4 <= |s| && s[i..i + |t| + |u| + 4] == "[" + t + "](" + u + ")"
    ensures var j, k := i + 1 + |t|, i + 3 + |t| + |u|;
      && s[i] == '[' && s[j] == ']' && s[j + 1] == '(' && s[k] == ')'
      && (forall x :: i + 1 <= x < j ==> s[x] != ']')
      && (forall x :: j + 2 <= x < k ==> s[x] != ')')
      && s[i + 1..j] == t
  {
    var m := "[" + t + "](" + u + ")";
    var j := i + 1 + |t|;
    var k := j + 2 + |u|;
    var w := s[i..i + |m|];
    LinkShape(t, u);
    assert w == m;
    assert s[i] == w[0] && s[j] == w[j - i] && s[j + 1] == w[j + 1 - i] && s[k] == w[k - i];
    forall x | i + 1 <= x < j ensures s[x] != ']' {
      assert s[x] == w[x - i] == t[x - i - 1];
    }
    forall x | j + 2 <= x < k ensures s[x] != ')' {
      assert s[x] == w[x - i] == u[x - j - 2];
    }
    SliceOfSlice(s, i, i + |m|, 1, 1 + |t|);
  }

  /** The characters of `[t](u)`, offset by offset. */
  lemma LinkShape(t: string, u: string)
    ensures var m := "[" + t + "](" + u + ")";
      && |m| == |t| + |u| + 4
      && m[0] == '[' && m[|t| + 1] == ']' && m[|t| + 2] == '(' && m[|m| - 1] == ')'
      && m[1..1 + |t|] == t && m[|t| + 3..|m| - 1] == u
      && (forall x :: 1 <= x <= |t| ==> m[x] == t[x - 1])
      && (forall x :: |t| + 3 <= x < |m| - 1 ==> m[x] == u[x - |t| - 3])
  {
  }

  /** An image reference surrounded by bracket-free text is left verbatim. */
  lemma ImageKept(p: string, t: string, u: string, q: string)
    requires '[' !in p && '[' !in t && '[' !in u && '[' !in q
    ensures RemoveLinks(p + "![" + t + "](" + u + ")" + q) == p + "![" + t + "](" + u + ")" + q
  {
    var s := p + "![" + t + "](" + u + ")" + q;
    var i := |p| + 1;
    assert s[i - 1] == '!' && s[i] == '[';
    assert forall k :: 0 <= k < |s| && k != i ==> s[k] != '[' by {
      forall k | 0 <= k < |s| && k != i ensures s[k] != '[' {
        if k < i - 1 { assert s[k] == p[k]; }
        else if k == i - 1 { }
        else if k < i + 1 + |t| { assert s[k] == t[k - i - 1]; }
        else if k < i + 3 + |t| { }
        else if k < i + 3 + |t| + |u| { assert s[k] == u[k - i - 3 - |t|]; }
        else if k == i + 3 + |t| + |u| { }
        else { assert s[k] == q[k - i - 4 - |t| - |u|]; }
      }
    }
    assert !HasLink(s, 0);
    UnchangedIffNoLink(s);
  }

  // ---------------------------------------------------------------------
  // Composition
  // ---------------------------------------------------------------------

  /** Every link the scan of `x + y` could match from inside `x` closes
      inside `x`. */
  predicate LinksEndWithin(x: string, y: string) {
    forall i :: 0 <= i < |x| && LinkAt(x + y, i).Some? ==> LinkAt(x + y, i).value.1 < |x|
  }

  /** From inside `x`, a link of `x + y` that closes inside `x` is a link of
      `x` and conversely. */
  lemma LinkAtPrefix(x: string, y: string, i: nat)
    requires i < |x| && LinksEndWithin(x, y)
    ensures LinkAt(x + y, i) == LinkAt(x, i)
  {
    var s := x + y;
    assert s[i] == x[i];
    if i > 0 {
      assert s[i - 1] == x[i - 1];
    }
    FindFromPrefix(x, y, ']', i + 1);
    var fj := FindFrom(s, ']', i + 1);
    if fj.Some? {
      var j := fj.value;
      if j + 1 < |x| {
        assert s[j + 1] == x[j + 1];
      }
      FindFromPrefix(x, y, ')', j + 2);
    }
  }

  /** From inside `y`, the scan of `x + y` sees the links of `y`, shifted by
      `|x|`; at the seam the look-behind reads the last character of `x`. */
  lemma LinkAtShift(x: string, y: string, i: nat)
    requires i < |y|
    requires i == 0 ==> !(x != [] && x[|x| - 1] == '!' && y[0] == '[')
    ensures LinkAt(x + y, |x| + i) == Shifted(|x|, LinkAt(y, i))
  {
    var s := x + y;
    var n := |x|;
    assert s[n + i] == y[i];
    if i > 0 {
      assert s[n + i - 1] == y[i - 1];
    }
    FindFromShift(x, y, ']', i + 1);
    var fj := FindFrom(y, ']', i + 1);
    if fj.Some? {
      LinkCloseShift(x, y, i, fj.value);
    }
  }

  /** A link's offsets moved `n` places on. */
  function Shifted(n: nat, r: Option<(nat, nat)>): Option<(nat, nat)> {
    match r
    case None => None
    case Some((j, k)) => Some((n + j, n + k))
  }

  lemma LinkCloseShift(x: string, y: string, i: nat, j: nat)
    ensures LinkClose(x + y, |x| + i, |x| + j) == Shifted(|x|, LinkClose(y, i, j))
  {
    var s := x + y;
    var n := |x|;
    if j + 1 < |y| {
      assert s[n + j + 1] == y[j + 1];
    }
    FindFromShift(x, y, ')', j + 2);
  }

  /** What one step of the scan at `i` emits. */
  function Emit(s: string, i: nat): string
    requires i < |s|
  {
    match LinkAt(s, i)
    case Some((j, _)) => s[i + 1..j]
    case None => [s[i]]
  }

  /** Where the scan goes on after its step at `i`. */
  function Next(s: string, i: nat): (r: nat)
    requires i < |s|
    ensures i < r <= |s|
  {
    match LinkAt(s, i)
    case Some((_, k)) => k + 1
    case None => i + 1
  }

  /** A step emits no more than it consumes, and less over a link. */
  lemma EmitLength(s: string, i: nat)
    requires i < |s|
    ensures |Emit(s, i)| <= Next(s, i) - i
    ensures LinkAt(s, i).Some? ==> |Emit(s, i)| < Next(s, i) - i
    ensures LinkAt(s, i).None? ==> Next(s, i) == i + 1
  {
  }

  lemma ScanStep(s: string, i: nat)
    requires i < |s|
    ensures RemoveLinksFrom(s, i) == Emit(s, i) + RemoveLinksFrom(s, Next(s, i))
  {
  }

  /** From inside `y`, a step of the scan of `x + y` is the step of the
      scan of `y`, shifted by `|x|`. */
  lemma ShiftStep(x: string, y: string, i: nat)
    requires i < |y|
    requires i == 0 ==> !(x != [] && x[|x| - 1] == '!' && y[0] == '[')
    ensures Emit(x + y, |x| + i) == Emit(y, i)
    ensures Next(x + y, |x| + i) == |x| + Next(y, i)
  {
    var s := x + y;
    var n := |x|;
    LinkAtShift(x, y, i);
    if LinkAt(y, i).Some? {
      var j := LinkAt(y, i).value.0;
      var k := LinkAt(y, i).value.1;
      assert LinkAt(s, n + i) == Some((n + j, n + k));
      ShiftSlice(x, y, i + 1, j);
      assert Emit(s, n + i) == s[n + i + 1..n + j];
    } else {
      assert LinkAt(s, n + i).None?;
      ShiftSlice(x, y, i, i + 1);
      assert Emit(s, n + i) == [s[n + i]];
    }
  }

  /** From inside `x`, a step of the scan of `x + y` is the step of the
      scan of `x`. */
  lemma PrefixStep(x: string, y: string, i: nat)
    requires i < |x| && LinksEndWithin(x, y)
    ensures Emit(x + y, i) == Emit(x, i)
    ensures Next(x + y, i) == Next(x, i)
  {
    LinkAtPrefix(x, y, i);
    if LinkAt(x, i).Some? {
      PrefixSlice(x, y, i + 1, LinkAt(x, i).value.0);
    } else {
      PrefixSlice(x, y, i, i + 1);
    }
  }

  /** Two texts that begin alike, the first going on as the second does
      with `rest` added, keep that difference. */
  lemma Glue(a: string, b: string, e: string, a2: string, b2: string, rest: string)
    requires a == e + a2 && b == e + b2 && a2 == b2 + rest
    ensures a == b + rest
  {
  }

  lemma GlueSame(a: string, b: string, e: string, a2: string, b2: string)
    requires a == e + a2 && b == e + b2 && a2 == b2
    ensures a == b
  {
  }

  /** A scan of `s` from `n` on whose every step is a step of the scan of
      `y`, shifted by `n`, yields what the scan of `y` yields. */
  lemma {:induction false} ScanAlike(s: string, y: string, n: nat, i: nat)
    requires StepsShifted(s, y, n) && i <= |y|
    ensures RemoveLinksFrom(s, n + i) == RemoveLinksFrom(y, i)
    decreases |y| - i
  {
    if i < |y| {
      var e, m := Emit(y, i), Next(y, i);
      ScanAlike(s, y, n, m);
      ShiftedStep(s, y, n, i);
      ScanStep(y, i);
      AlikeStep(s, y, n, i, e, m);
    }
  }

  /** From `n` on, every step of the scan of `s` is the step of the scan
      of `y`, shifted by `n`. */
  predicate StepsShifted(s: string, y: string, n: nat) {
    && n + |y| == |s|
    && forall k :: 0 <= k < |y| ==> Emit(s, n + k) == Emit(y, k) && Next(s, n + k) == n + Next(y, k)
  }

  /** One step of `ScanAlike`: equal from the next step on, equal here. */
  lemma AlikeStep(s: string, y: string, n: nat, i: nat, e: string, m: nat)
    requires RemoveLinksFrom(s, n + i) == e + RemoveLinksFrom(s, n + m)
    requires RemoveLinksFrom(y, i) == e + RemoveLinksFrom(y, m)
    requires RemoveLinksFrom(s, n + m) == RemoveLinksFrom(y, m)
    ensures RemoveLinksFrom(s, n + i) == RemoveLinksFrom(y, i)
  {
    GlueSame(RemoveLinksFrom(s, n + i), RemoveLinksFrom(y, i), e,
             RemoveLinksFrom(s, n + m), RemoveLinksFrom(y, m));
  }

  /** A step of the scan of `s` from `n` on that is shifted from `y`. */
  lemma ShiftedStep(s: string, y: string, n: nat, i: nat)
    requires StepsShifted(s, y, n) && i < |y|
    ensures RemoveLinksFrom(s, n + i) == Emit(y, i) + RemoveLinksFrom(s, n + Next(y, i))
  {
    StepAs(s, n + i, Emit(y, i), n + Next(y, i));
  }

  /** `ScanStep` with the step's output and successor named. */
  lemma StepAs(s: string, i: nat, e: string, m: nat)
    requires i < |s| && Emit(s, i) == e && Next(s, i) == m
    ensures RemoveLinksFrom(s, i) == e + RemoveLinksFrom(s, m)
  {
    ScanStep(s, i);
  }

  /** Scanning `x + y` from the seam removes the links of `y`. */
  lemma ScanShift(x: string, y: string)
    requires !(x != [] && y != [] && x[|x| - 1] == '!' && y[0] == '[')
    ensures RemoveLinksFrom(x + y, |x|) == RemoveLinks(y)
  {
    ShiftSteps(x, y);
    ScanAlike(x + y, y, |x|, 0);
  }

  /** Every step of the scan of `x + y` from inside `y` is shifted from `y`. */
  lemma ShiftSteps(x: string, y: string)
    requires !(x != [] && y != [] && x[|x| - 1] == '!' && y[0] == '[')
    ensures StepsShifted(x + y, y, |x|)
  {
    forall k | 0 <= k < |y|
      ensures Emit(x + y, |x| + k) == Emit(y, k) && Next(x + y, |x| + k) == |x| + Next(y, k)
    {
      ShiftStep(x, y, k);
    }
  }

  /** A scan of `s` whose every step before `|x|` is a step of the scan of
      `x` yields what the scan of `x` yields, then goes on from `|x|`. */
  lemma {:induction false} ScanAlikeBefore(s: string, x: string, i: nat)
    requires |x| <= |s| && i <= |x|
    requires forall k :: 0 <= k < |x| ==> Emit(s, k) == Emit(x, k) && Next(s, k) == Next(x, k)
    ensures RemoveLinksFrom(s, i) == RemoveLinksFrom(x, i) + RemoveLinksFrom(s, |x|)
    decreases |x| - i
  {
    if i < |x| {
      var m := Next(x, i);
      ScanStep(s, i);
      ScanStep(x, i);
      ScanAlikeBefore(s, x, m);
      Glue(RemoveLinksFrom(s, i), RemoveLinksFrom(x, i), Emit(x, i),
           RemoveLinksFrom(s, m), RemoveLinksFrom(x, m), RemoveLinksFrom(s, |x|));
    } else {
      assert RemoveLinksFrom(x, i) == [];
    }
  }

  /** Scanning `x + y` from the start removes the links of `x`, then goes
      on from the seam. */
  lemma ScanPrefix(x: string, y: string)
    requires LinksEndWithin(x, y)
    ensures RemoveLinks(x + y) == RemoveLinks(x) + RemoveLinksFrom(x + y, |x|)
  {
    PrefixSteps(x, y);
    ScanAlikeBefore(x + y, x, 0);
  }

  /** Every step of the scan of `x + y` from inside `x` is a step of `x`. */
  lemma PrefixSteps(x: string, y: string)
    requires LinksEndWithin(x, y)
    ensures forall k :: 0 <= k < |x| ==> Emit(x + y, k) == Emit(x, k) && Next(x + y, k) == Next(x, k)
  {
    forall k | 0 <= k < |x|
      ensures Emit(x + y, k) == Emit(x, k) && Next(x + y, k) == Next(x, k)
    {
      PrefixStep(x, y, k);
    }
  }

  /** `remove_links` works piece by piece: on `x + y` it is `remove_links`
      on `x` followed by `remove_links` on `y`, when no link matched from
      inside `x` runs past it and the seam does not put a `!` before a `[`. */
  lemma Concat(x: string, y: string)
    requires LinksEndWithin(x, y)
    requires !(x != [] && y != [] && x[|x| - 1] == '!' && y[0] == '[')
    ensures RemoveLinks(x + y) == RemoveLinks(x) + RemoveLinks(y)
  {
    ScanPrefix(x, y);
    ScanShift(x, y);
  }

  // ---------------------------------------------------------------------
  // Text made of plain runs, hyperlinks and image references
  // ---------------------------------------------------------------------

  datatype Piece =
    | Plain(text: string)
    | Link(text: string, url: string)
    | Image(alt: string, src: string)

  function Written(p: Piece): string {
    match p
    case Plain(text) => text
    case Link(text, url) => "[" + text + "](" + url + ")"
    case Image(alt, src) => "![" + alt + "](" + src + ")"
  }

  function Spell(ps: seq<Piece>): string {
    if ps == [] then [] else Written(ps[0]) + Spell(ps[1..])
  }

  /** The text once every hyperlink is replaced by its anchor text. */
  function Unlinked(ps: seq<Piece>): string {
    if ps == [] then []
    else (if ps[0].Link? then ps[0].text else Written(ps[0])) + Unlinked(ps[1..])
  }

  /** A piece whose written form the scan reads as that piece: no stray
      `[` anywhere, a non-empty anchor without `]` and a non-empty target
      without `)`. */
  predicate Plausible(p: Piece) {
    match p
    case Plain(text) => '[' !in text
    case Link(text, url) =>
      text != [] && '[' !in text && ']' !in text && url != [] && '[' !in url && ')' !in url
    case Image(alt, src) => '[' !in alt && '[' !in src
  }

  /** Every piece is plausible, and no plain run ending in `!` is followed
      by a `[`, which would turn the hyperlink after it into an image. */
  predicate Pieces(ps: seq<Piece>) {
    ps != [] ==>
      && Plausible(ps[0])
      && Pieces(ps[1..])
      && var x, y := Written(ps[0]), Spell(ps[1..]);
         !(x != [] && y != [] && x[|x| - 1] == '!' && y[0] == '[')
  }

  /** `remove_links` on text made of such pieces replaces each hyperlink by
      its anchor text and keeps everything else. */
  lemma {:induction false} RemovesEachLink(ps: seq<Piece>)
    requires Pieces(ps)
    ensures RemoveLinks(Spell(ps)) == Unlinked(ps)
  {
    if ps != [] {
      RemovesEachLink(ps[1..]);
      var r := Spell(ps[1..]);
      match ps[0]
      case Plain(text) => PlainThen(text, r);
      case Link(text, url) => LinkThen(text, url, r);
      case Image(alt, src) => ImageThen(alt, src, r);
    }
  }

  lemma PlainThen(p: string, r: string)
    requires '[' !in p
    requires !(p != [] && r != [] && p[|p| - 1] == '!' && r[0] == '[')
    ensures RemoveLinks(p + r) == p + RemoveLinks(r)
  {
    forall i | 0 <= i < |p| ensures LinkAt(p + r, i).None? {
      assert (p + r)[i] == p[i];
    }
    Concat(p, r);
    NoBracketUnchanged(p);
  }

  lemma LinkThen(t: string, u: string, r: string)
    requires t != [] && '[' !in t && ']' !in t
    requires u != [] && '[' !in u && ')' !in u
    ensures RemoveLinks("[" + t + "](" + u + ")" + r) == t + RemoveLinks(r)
  {
    var x := "[" + t + "](" + u + ")";
    LinkEndsWithin(t, u, r);
    Concat(x, r);
    LinkAlone(t, u);
  }

  /** The only link matched inside `[t](u)`, whatever follows, is the
      whole of it. */
  lemma LinkEndsWithin(t: string, u: string, r: string)
    requires t != [] && '[' !in t && ']' !in t
    requires u != [] && '[' !in u && ')' !in u
    ensures LinksEndWithin("[" + t + "](" + u + ")", r)
  {
    var x := "[" + t + "](" + u + ")";
    var s := x + r;
    LinkShape(t, u);
    assert s[0..|x|] == x;
    LinkAtShape(s, 0, t, u);
    forall i | 0 < i < |x| ensures LinkAt(s, i).None? {
      assert s[i] == x[i];
      if i <= |t| { assert x[i] == t[i - 1]; }
      else if |t| + 3 <= i < |x| - 1 { assert x[i] == u[i - |t| - 3]; }
    }
  }

  /** A hyperlink on its own collapses to its anchor text. */
  lemma LinkAlone(t: string, u: string)
    requires t != [] && ']' !in t
    requires u != [] && ')' !in u
    ensures RemoveLinks("[" + t + "](" + u + ")") == t
  {
    var x := "[" + t + "](" + u + ")";
    LinkShape(t, u);
    assert x[0..|x|] == x;
    LinkBetween(x, 0, t, u);
    assert x[..0] == [] && x[|x|..] == [];
  }

  lemma ImageThen(t: string, u: string, r: string)
    requires '[' !in t && '[' !in u
    ensures RemoveLinks("![" + t + "](" + u + ")" + r) == "![" + t + "](" + u + ")" + RemoveLinks(r)
  {
    var x := "![" + t + "](" + u + ")";
    var s := x + r;
    forall i | 0 <= i < |x| ensures LinkAt(s, i).None? {
      assert s[i] == x[i];
      if 2 <= i < |t| + 2 { assert x[i] == t[i - 2]; }
      else if |t| + 4 <= i < |x| - 1 { assert x[i] == u[i - |t| - 4]; }
    }
    Concat(x, r);
    ImageKept([], t, u, []);
    assert [] + "![" + t + "](" + u + ")" + [] == x;
  }
}
