/**
 * Character-level helpers shared by the text normaliser, the link remover and
 * the image pass: fixed patterns in which an unescaped `.` is a wildcard,
 * forward scans for a character, and Python's `str.replace`.
 */
module Text {
  import opened Wrappers

  /** One pattern character against one text character; `.` is the regex wildcard,
      which only matches a newline when the pattern is compiled with DOTALL. */
  predicate CharMatches(p: char, c: char, dotall: bool) {
    if p == '.' then dotall || c != '\n' else c == p
  }

  /** The fixed pattern `pat` matches the text `s` at offset `i`. */
  predicate PatAt(s: string, i: nat, pat: string, dotall: bool)
    decreases |pat|
  {
    if pat == [] then i <= |s|
    else i < |s| && CharMatches(pat[0], s[i], dotall) && PatAt(s, i + 1, pat[1..], dotall)
  }

  /** The character-by-character reading of a pattern match. */
  lemma {:induction false} PatAtChars(s: string, i: nat, pat: string, dotall: bool)
    ensures PatAt(s, i, pat, dotall) <==>
      i + |pat| <= |s| && forall k :: 0 <= k < |pat| ==> CharMatches(pat[k], s[i + k], dotall)
    decreases |pat|
  {
    if pat != [] {
      PatAtChars(s, i + 1, pat[1..], dotall);
      if i + |pat| <= |s| && forall k :: 0 <= k < |pat| ==> CharMatches(pat[k], s[i + k], dotall) {
        forall k | 0 <= k < |pat| - 1 ensures CharMatches(pat[1..][k], s[i + 1 + k], dotall) {
          assert pat[1..][k] == pat[k + 1];
        }
      }
    }
  }

  /** A pattern without wildcards matching at `i` is the literal occurring at `i`. */
  lemma LiteralPatAt(s: string, i: nat, pat: string, dotall: bool)
    requires '.' !in pat
    ensures PatAt(s, i, pat, dotall) <==> i + |pat| <= |s| && s[i..i + |pat|] == pat
  {
    PatAtChars(s, i, pat, dotall);
    if i + |pat| <= |s| && s[i..i + |pat|] == pat {
      forall k | 0 <= k < |pat| ensures CharMatches(pat[k], s[i + k], dotall) {
        assert s[i..i + |pat|][k] == s[i + k];
      }
    }
    if PatAt(s, i, pat, dotall) {
      forall k | 0 <= k < |pat| ensures s[i..i + |pat|][k] == pat[k] {
        assert pat[k] != '.' by { assert pat[k] in pat; }
      }
    }
  }

  /** A pattern match at `i` only depends on the characters it covers. */
  lemma PatAtPrefix(s: string, t: string, i: nat, pat: string, dotall: bool)
    requires i + |pat| <= |t| <= |s| && t == s[..|t|]
    ensures PatAt(t, i, pat, dotall) <==> PatAt(s, i, pat, dotall)
  {
    PatAtChars(s, i, pat, dotall);
    PatAtChars(t, i, pat, dotall);
    assert forall k :: 0 <= k < |pat| ==>
      (CharMatches(pat[k], t[i + k], dotall) <==> CharMatches(pat[k], s[i + k], dotall));
  }

  /** A match needs the whole pattern inside the text. */
  lemma PatAtFits(s: string, i: nat, pat: string, dotall: bool)
    requires PatAt(s, i, pat, dotall)
    ensures i + |pat| <= |s|
  {
    PatAtChars(s, i, pat, dotall);
  }

  /** The first index at or after `from` holding the character `c`. */
  function FindFrom(s: string, c: char, from: nat): (r: Option<nat>)
    decreases |s| - from
    ensures r.Some? ==> from <= r.value < |s| && s[r.value] == c
  {
    if from >= |s| then None
    else if s[from] == c then Some(from)
    else FindFrom(s, c, from + 1)
  }

  /** Scanning `x + y` from inside `y` is scanning `y`, shifted by `|x|`. */
  lemma {:induction false} FindFromShift(x: string, y: string, c: char, from: nat)
    ensures FindFrom(x + y, c, |x| + from) ==
      match FindFrom(y, c, from) case None => None case Some(j) => Some(|x| + j)
    decreases |y| - from
  {
    if from < |y| {
      assert (x + y)[|x| + from] == y[from];
      FindFromShift(x, y, c, from + 1);
    }
  }

  /** A scan of `x` that finds `c` finds it at the same place in `x + y`, and
      a scan of `x + y` that stops inside `x` is the scan of `x`. */
  lemma {:induction false} FindFromPrefix(x: string, y: string, c: char, from: nat)
    ensures FindFrom(x, c, from).Some? ==> FindFrom(x + y, c, from) == FindFrom(x, c, from)
    ensures FindFrom(x + y, c, from).Some? && FindFrom(x + y, c, from).value < |x| ==>
      FindFrom(x, c, from) == FindFrom(x + y, c, from)
    decreases |x| - from
  {
    if from < |x| {
      assert (x + y)[from] == x[from];
      FindFromPrefix(x, y, c, from + 1);
    }
  }

  /** `FindFrom` stops at the first `c`, and finds none only when there is none. */
  lemma {:induction false} FindFromIsFirst(s: string, c: char, from: nat)
    ensures FindFrom(s, c, from).Some? ==> forall k :: from <= k < FindFrom(s, c, from).value ==> s[k] != c
    ensures FindFrom(s, c, from).None? ==> forall k :: from <= k < |s| ==> s[k] != c
    decreases |s| - from
  {
    if from < |s| && s[from] != c {
      FindFromIsFirst(s, c, from + 1);
    }
  }

  /** The scan for `c` from `from` stops at `j` when `j` is its first occurrence. */
  lemma FirstAt(s: string, c: char, from: nat, j: nat)
    requires from <= j < |s| && s[j] == c
    requires forall x :: from <= x < j ==> s[x] != c
    ensures FindFrom(s, c, from) == Some(j)
  {
    FindFromIsFirst(s, c, from);
  }

  /** The end of the line containing offset `from`: the index of the next
      newline, or the end of the text.  This is where a non-DOTALL `.*` stops. */
  function LineEnd(s: string, from: nat): (r: nat)
    requires from <= |s|
    ensures from <= r <= |s|
    ensures r < |s| ==> s[r] == '\n'
  {
    match FindFrom(s, '\n', from)
    case Some(j) => j
    case None => |s|
  }

  /** No line break comes before the end of the line. */
  lemma LineEndNoBreak(s: string, from: nat)
    requires from <= |s|
    ensures forall k :: from <= k < LineEnd(s, from) ==> s[k] != '\n'
  {
    FindFromIsFirst(s, '\n', from);
  }

  /** The number of occurrences of `c` in `s`. */
  function Count(s: string, c: char): nat {
    if s == [] then 0 else (if s[0] == c then 1 else 0) + Count(s[1..], c)
  }

  /** A stretch holding no `c` adds nothing to the count. */
  lemma {:induction false} CountSkip(s: string, c: char, i: nat, e: nat)
    requires i <= e <= |s|
    requires forall k :: i <= k < e ==> s[k] != c
    ensures Count(s[i..], c) == Count(s[e..], c)
    decreases e - i
  {
    if i < e {
      assert s[i..][1..] == s[i + 1..];
      CountSkip(s, c, i + 1, e);
    }
  }

  /** `f` applied to every element, in order. */
  function Map<A, B>(f: A -> B, xs: seq<A>): (ys: seq<B>)
    ensures |ys| == |xs|
    ensures forall q :: 0 <= q < |xs| ==> ys[q] == f(xs[q])
  {
    if xs == [] then [] else [f(xs[0])] + Map(f, xs[1..])
  }

  /** Mapping commutes with dropping one element. */
  lemma MapDrop<A, B>(f: A -> B, xs: seq<A>, b: nat)
    requires b < |xs|
    ensures Map(f, xs[..b] + xs[b + 1..]) == Map(f, xs)[..b] + Map(f, xs)[b + 1..]
  {
    var short := xs[..b] + xs[b + 1..];
    var m := Map(f, xs);
    var ms := Map(f, short);
    var want := m[..b] + m[b + 1..];
    forall q | 0 <= q < |ms| ensures ms[q] == want[q] {
      if q < b {
        assert short[q] == xs[q];
      } else {
        assert short[q] == xs[q + 1];
      }
    }
  }

  /** The first offset in `[lo, hi)` where `P` holds: the scan behind every
      `re.search` of the model. */
  function FirstWhere(P: nat -> bool, lo: nat, hi: nat): (r: Option<nat>)
    decreases hi - lo
    ensures r.Some? ==> lo <= r.value < hi && P(r.value)
  {
    if lo >= hi then None
    else if P(lo) then Some(lo)
    else FirstWhere(P, lo + 1, hi)
  }

  /** `FirstWhere` finds the leftmost offset, and finds none only when there is none. */
  lemma {:induction false} FirstWhereIsLeftmost(P: nat -> bool, lo: nat, hi: nat)
    ensures FirstWhere(P, lo, hi).Some? ==> forall k :: lo <= k < FirstWhere(P, lo, hi).value ==> !P(k)
    ensures FirstWhere(P, lo, hi).None? ==> forall k :: lo <= k < hi ==> !P(k)
    decreases hi - lo
  {
    if lo < hi && !P(lo) {
      FirstWhereIsLeftmost(P, lo + 1, hi);
      var r := FirstWhere(P, lo + 1, hi);
      if r.Some? {
        forall k | lo <= k < r.value ensures !P(k) {
          if k > lo { assert lo + 1 <= k; }
        }
      } else {
        forall k | lo <= k < hi ensures !P(k) {
          if k > lo { assert lo + 1 <= k; }
        }
      }
    }
  }

  /** A slice of a slice is a slice of the whole. */
  lemma SliceOfSlice<T>(s: seq<T>, i: nat, j: nat, m: nat, n: nat)
    requires i <= j <= |s| && m <= n <= j - i
    ensures s[i..j][m..n] == s[i + m..i + n]
  {
    var w := s[i..j];
    forall k | 0 <= k < n - m ensures w[m..n][k] == s[i + m..i + n][k] {
      assert w[m..n][k] == w[m + k] == s[i + m + k];
    }
  }

  /** A stretch of `x + y` past `x` is a stretch of `y`. */
  lemma ShiftSlice<T>(x: seq<T>, y: seq<T>, a: nat, b: nat)
    requires a <= b <= |y|
    ensures (x + y)[|x| + a..|x| + b] == y[a..b]
    ensures a < |y| ==> (x + y)[|x| + a] == y[a]
  {
  }

  /** A stretch of `x + y` inside `x` is a stretch of `x`. */
  lemma PrefixSlice<T>(x: seq<T>, y: seq<T>, a: nat, b: nat)
    requires a <= b <= |x|
    ensures (x + y)[a..b] == x[a..b]
    ensures a < |x| ==> (x + y)[a] == x[a]
  {
  }

  /** A character put in front of the rest of a stretch gives the stretch. */
  lemma ConsGlue<T>(s: seq<T>, i: nat, j: nat, x: seq<T>, y: seq<T>, z: seq<T>)
    requires i < j <= |s| && x == [s[i]] + y && y == s[i + 1..j] + z
    ensures x == s[i..j] + z
  {
    assert s[i..j] == [s[i]] + s[i + 1..j];
  }

  /** `key` occurs in `s` starting at offset `i`. */
  predicate OccursAt(s: string, key: string, i: nat) {
    i + |key| <= |s| && s[i..i + |key|] == key
  }

  predicate Contains(s: string, key: string) {
    exists i: nat | i <= |s| :: OccursAt(s, key, i)
  }

  /** Python's `str.split(key)` for a non-empty separator: leftmost,
      non-overlapping occurrences, scanned from the left. */
  function Split(s: string, key: string): (parts: seq<string>)
    requires key != []
    ensures |parts| >= 1
  {
    if |s| < |key| then [s]
    else if s[..|key|] == key then [[]] + Split(s[|key|..], key)
    else
      var rest := Split(s[1..], key);
      [[s[0]] + rest[0]] + rest[1..]
  }

  /** Python's `sep.join(parts)`. */
  function Join(parts: seq<string>, sep: string): string {
    if parts == [] then []
    else if |parts| == 1 then parts[0]
    else parts[0] + sep + Join(parts[1..], sep)
  }

  /** Python's `s.replace(key, val)`: every leftmost non-overlapping occurrence
      of `key` is replaced; an empty `key` inserts `val` before every character
      and once more at the end. */
  function ReplaceAll(s: string, key: string, val: string): string {
    if key == [] then Interleave(s, val) else ReplaceFrom(s, key, val)
  }

  function Interleave(s: string, val: string): string {
    if s == [] then val else val + [s[0]] + Interleave(s[1..], val)
  }

  /** An empty key inserts `val` once per character and once more at the
      end, and the result opens with `val`. */
  lemma {:induction false} EmptyKeyFloods(s: string, val: string)
    ensures |ReplaceAll(s, [], val)| == |s| + (|s| + 1) * |val|
    ensures ReplaceAll(s, [], val)[..|val|] == val
  {
    if s != [] {
      EmptyKeyFloods(s[1..], val);
      assert (|s| - 1 + 1) * |val| == |s| * |val|;
      assert (|s| + 1) * |val| == |s| * |val| + |val|;
    }
  }

  function ReplaceFrom(s: string, key: string, val: string): string
    requires key != []
  {
    if |s| < |key| then s
    else if s[..|key|] == key then val + ReplaceFrom(s[|key|..], key, val)
    else [s[0]] + ReplaceFrom(s[1..], key, val)
  }

  lemma JoinCons(p: string, rest: seq<string>, sep: string)
    requires |rest| >= 1
    ensures Join([p] + rest, sep) == p + sep + Join(rest, sep)
  {
    assert ([p] + rest)[1..] == rest;
  }

  lemma JoinHeadExtend(c: char, rest: seq<string>, sep: string)
    requires |rest| >= 1
    ensures Join([[c] + rest[0]] + rest[1..], sep) == [c] + Join(rest, sep)
  {
    if |rest| == 1 {
    } else {
      var q := [[c] + rest[0]] + rest[1..];
      assert q[1..] == rest[1..];
      assert Join(rest, sep) == rest[0] + sep + Join(rest[1..], sep);
    }
  }

  /** `str.replace` with a non-empty key is `val.join(s.split(key))`. */
  lemma {:induction false} ReplaceIsSplitJoin(s: string, key: string, val: string)
    requires key != []
    ensures ReplaceAll(s, key, val) == Join(Split(s, key), val)
    decreases |s|
  {
    if |s| < |key| {
    } else if s[..|key|] == key {
      var t := s[|key|..];
      var rest := Split(t, key);
      ReplaceIsSplitJoin(t, key, val);
      assert Split(s, key) == [[]] + rest;
      assert ReplaceAll(s, key, val) == val + ReplaceAll(t, key, val);
      JoinCons([], rest, val);
    } else {
      var t := s[1..];
      var rest := Split(t, key);
      ReplaceIsSplitJoin(t, key, val);
      assert Split(s, key) == [[s[0]] + rest[0]] + rest[1..];
      assert ReplaceAll(s, key, val) == [s[0]] + ReplaceAll(t, key, val);
      JoinHeadExtend(s[0], rest, val);
    }
  }

  /** Splitting on a separator and joining with it again gives back the text. */
  lemma {:induction false} JoinSplit(s: string, key: string)
    requires key != []
    ensures Join(Split(s, key), key) == s
    decreases |s|
  {
    if |s| < |key| {
    } else if s[..|key|] == key {
      var t := s[|key|..];
      var rest := Split(t, key);
      JoinSplit(t, key);
      calc {
        Join(Split(s, key), key);
        { assert Split(s, key) == [[]] + rest; }
        Join([[]] + rest, key);
        { JoinCons([], rest, key); }
        [] + key + Join(rest, key);
        [] + key + t;
        { assert s == s[..|key|] + t; }
        s;
      }
    } else {
      var t := s[1..];
      var rest := Split(t, key);
      JoinSplit(t, key);
      calc {
        Join(Split(s, key), key);
        { assert Split(s, key) == [[s[0]] + rest[0]] + rest[1..]; }
        Join([[s[0]] + rest[0]] + rest[1..], key);
        { JoinHeadExtend(s[0], rest, key); }
        [s[0]] + Join(rest, key);
        [s[0]] + t;
        { assert [s[0]] + t == s; }
        s;
      }
    }
  }

  /** Replacing a key that does not occur changes nothing. */
  lemma ReplaceAbsent(s: string, key: string, val: string)
    requires key != [] && !Contains(s, key)
    ensures ReplaceAll(s, key, val) == s
  {
    ReplaceIsSplitJoin(s, key, val);
    SplitAbsent(s, key);
  }

  /** Replacing a key that occurs once only, at `pos`, splices `val` in
      there and leaves the rest of the text alone. */
  lemma {:induction false} ReplaceOnce(s: string, key: string, val: string, pos: nat)
    requires key != [] && OccursAt(s, key, pos)
    requires forall k: nat :: OccursAt(s, key, k) ==> k == pos
    ensures ReplaceAll(s, key, val) == s[..pos] + val + s[pos + |key|..]
    decreases pos
  {
    if pos == 0 {
      ReplaceAtHead(s, key, val);
      SpliceAtHead(s, |key|, ReplaceAll(s, key, val), val);
    } else {
      var t := s[1..];
      OnceInTail(s, key, pos);
      ReplaceOnce(t, key, val, pos - 1);
      ReplacePastHead(s, key, val);
      ConsSplice(s, pos, |key|, ReplaceAll(s, key, val), ReplaceAll(t, key, val), val);
    }
  }

  /** A splice at offset 0 has nothing before it. */
  lemma SpliceAtHead<T>(s: seq<T>, n: nat, r: seq<T>, val: seq<T>)
    requires n <= |s| && r == val + s[n..]
    ensures r == s[..0] + val + s[0 + n..]
  {
    assert s[..0] + val == val;
  }

  /** The first element put in front of a splice into the rest of `s` is
      the same splice into `s`. */
  lemma ConsSplice<T>(s: seq<T>, pos: nat, n: nat, r: seq<T>, rt: seq<T>, val: seq<T>)
    requires 0 < pos && pos + n <= |s|
    requires r == [s[0]] + rt && rt == s[1..][..pos - 1] + val + s[1..][pos - 1 + n..]
    ensures r == s[..pos] + val + s[pos + n..]
  {
    var t := s[1..];
    assert s[..pos] == [s[0]] + t[..pos - 1];
    assert s[pos + n..] == t[pos - 1 + n..];
  }

  /** A text that does not start with `key` keeps its first character. */
  lemma ReplacePastHead(s: string, key: string, val: string)
    requires key != [] && |key| <= |s| && !OccursAt(s, key, 0)
    ensures ReplaceAll(s, key, val) == [s[0]] + ReplaceAll(s[1..], key, val)
  {
    assert s[..|key|] != key;
  }

  /** The only occurrence of `key`, at the head of the text, is the one replaced. */
  lemma ReplaceAtHead(s: string, key: string, val: string)
    requires key != [] && OccursAt(s, key, 0)
    requires forall k: nat :: OccursAt(s, key, k) ==> k == 0
    ensures ReplaceAll(s, key, val) == val + s[|key|..]
  {
    var n := |key|;
    var t := s[n..];
    forall k: nat | OccursAt(t, key, k) ensures OccursAt(s, key, k + n) {
      assert t[k..k + n] == s[k + n..k + n + n];
    }
    ReplaceAbsent(t, key, val);
    assert s[..n] == key;
  }

  /** Dropping the first character moves the single occurrence one place left. */
  lemma OnceInTail(s: string, key: string, pos: nat)
    requires key != [] && 0 < pos && OccursAt(s, key, pos)
    requires forall k: nat :: OccursAt(s, key, k) ==> k == pos
    ensures OccursAt(s[1..], key, pos - 1)
    ensures forall k: nat :: OccursAt(s[1..], key, k) ==> k == pos - 1
  {
    var n := |key|;
    var t := s[1..];
    assert t[pos - 1..pos - 1 + n] == s[pos..pos + n];
    forall k: nat | OccursAt(t, key, k) ensures k == pos - 1 {
      assert t[k..k + n] == s[k + 1..k + 1 + n];
      assert OccursAt(s, key, k + 1);
    }
  }

  lemma {:induction false} SplitAbsent(s: string, key: string)
    requires key != [] && !Contains(s, key)
    ensures Split(s, key) == [s]
    decreases |s|
  {
    if |s| < |key| {
    } else {
      assert !OccursAt(s, key, 0);
      assert !Contains(s[1..], key) by {
        forall i: nat | OccursAt(s[1..], key, i) ensures false {
          assert s[1..][i..i + |key|] == s[i + 1..i + 1 + |key|];
          assert OccursAt(s, key, i + 1);
        }
      }
      SplitAbsent(s[1..], key);
      assert s[..|key|] != key;
      assert [s[0]] + s[1..] == s;
    }
  }
}
