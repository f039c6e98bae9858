// Choosing the cover image of a feed item (mdnews/feed.py:24-31 and
// mdnews.py:56-63): a running maximum over the enclosures' `length`
// attributes read with Python's `int()`, where `<=` lets a later enclosure
// of equal length replace the current one.

module Enclosures {
  import opened Wrappers
  import opened Articles

  // ---------------------------------------------------------------------
  // Python's int() on a decimal text
  // ---------------------------------------------------------------------

  /** The ASCII characters Python counts as white space, which `int()` and
      `str.strip()` remove around the text: tab, line feed, vertical tab,
      form feed, carriage return, the separators U+001C to U+001F, and
      space. */
  predicate IsSpace(c: char) {
    || c == ' ' || c == '\t' || c == '\n' || c == '\r' || c == 11 as char || c == 12 as char
    || (28 as char <= c <= 31 as char)
  }

  /** The first position from `i` on that is not whitespace. */
  function SkipSpace(s: string, i: nat): (j: nat)
    requires i <= |s|
    ensures i <= j <= |s| && (j == |s| || !IsSpace(s[j]))
    ensures forall k :: i <= k < j ==> IsSpace(s[k])
    decreases |s| - i
  {
    if i == |s| || !IsSpace(s[i]) then i else SkipSpace(s, i + 1)
  }

  /** The end of `s[lo..j]` once its trailing whitespace is gone. */
  function SkipSpaceBack(s: string, lo: nat, j: nat): (e: nat)
    requires lo <= j <= |s|
    ensures lo <= e <= j && (e == lo || !IsSpace(s[e - 1]))
    ensures forall k :: e <= k < j ==> IsSpace(s[k])
    decreases j
  {
    if j == lo || !IsSpace(s[j - 1]) then j else SkipSpaceBack(s, lo, j - 1)
  }

  /** `str.strip()`: `s` without its leading and trailing whitespace. */
  function Trim(s: string): (t: string)
    ensures t == [] || (!IsSpace(t[0]) && !IsSpace(t[|t| - 1]))
  {
    var a := SkipSpace(s, 0);
    s[a..SkipSpaceBack(s, a, |s|)]
  }

  /** Digits, with single underscores allowed between two digits. */
  predicate WellFormedDigits(t: string)
    ensures WellFormedDigits(t) ==> t != [] && IsDigit(t[0])
  {
    && t != [] && IsDigit(t[|t| - 1])
    && (|| |t| == 1
        || WellFormedDigits(t[..|t| - 1])
        || (|t| >= 3 && t[|t| - 2] == '_' && WellFormedDigits(t[..|t| - 2])))
  }

  /** A run of plain digits is well formed. */
  lemma {:induction false} DigitsWellFormed(t: string)
    requires t != [] && forall k :: 0 <= k < |t| ==> IsDigit(t[k])
    ensures WellFormedDigits(t)
    decreases |t|
  {
    if |t| > 1 {
      var init := t[..|t| - 1];
      assert forall k :: 0 <= k < |init| ==> init[k] == t[k];
      DigitsWellFormed(init);
    }
  }

  /** The value of the digits of `t`, underscores skipped. */
  function DigitsValue(t: string): int {
    if t == [] then 0
    else if t[|t| - 1] == '_' then DigitsValue(t[..|t| - 1])
    else 10 * DigitsValue(t[..|t| - 1]) + DigitValue(t[|t| - 1])
  }

  /** `int(s)` for a base-10 text: surrounding whitespace, an optional sign,
      digits. Anything else raises, which is `None` here. */
  function ParseInt(s: string): Option<int> {
    ParseSigned(Trim(s))
  }

  /** `int()` once the whitespace is gone. */
  function ParseSigned(t: string): Option<int> {
    if t == [] then None
    else if t[0] == '-' || t[0] == '+' then
      (if WellFormedDigits(t[1..]) then Some(if t[0] == '-' then -DigitsValue(t[1..]) else DigitsValue(t[1..])) else None)
    else if WellFormedDigits(t) then Some(DigitsValue(t))
    else None
  }

  /** `str(n)` for a non-negative integer. */
  function ShowNat(n: nat): (s: string)
    ensures s != [] && forall k :: 0 <= k < |s| ==> IsDigit(s[k])
  {
    if n < 10 then [Digit(n)] else ShowNat(n / 10) + [Digit(n % 10)]
  }

  /** `str(n)`. */
  function ShowInt(n: int): string {
    if n < 0 then "-" + ShowNat(-n) else ShowNat(n)
  }

  lemma {:induction false} ShowNatValue(n: nat)
    ensures DigitsValue(ShowNat(n)) == n
    decreases n
  {
    if n >= 10 {
      var s := ShowNat(n);
      ShowNatValue(n / 10);
      assert s[..|s| - 1] == ShowNat(n / 10);
      assert s[|s| - 1] == Digit(n % 10);
    }
  }

  lemma TrimNoSpace(s: string)
    requires s != [] && !IsSpace(s[0]) && !IsSpace(s[|s| - 1])
    ensures Trim(s) == s
  {
    assert SkipSpace(s, 0) == 0;
    assert SkipSpaceBack(s, 0, |s|) == |s|;
  }

  lemma ParseShowNat(d: nat)
    ensures ParseInt(ShowNat(d)) == Some(d)
  {
    var t := ShowNat(d);
    assert IsDigit(t[0]) && IsDigit(t[|t| - 1]);
    TrimNoSpace(t);
    ShowNatValue(d);
    DigitsWellFormed(t);
    assert ParseSigned(t) == Some(d);
  }

  lemma ParseMinus(digits: string, v: int)
    requires WellFormedDigits(digits) && DigitsValue(digits) == v
    ensures ParseSigned("-" + digits) == Some(-v)
  {
    var t := "-" + digits;
    assert t[1..] == digits;
  }

  lemma ParseShowNegative(d: nat)
    ensures ParseInt("-" + ShowNat(d)) == Some(-(d as int))
  {
    var digits := ShowNat(d);
    var t := "-" + digits;
    assert t[|t| - 1] == digits[|digits| - 1];
    TrimNoSpace(t);
    DigitsWellFormed(digits);
    ShowNatValue(d);
    ParseMinus(digits, d);
  }

  /** `int(str(n)) == n`. */
  lemma IntRoundTrip(n: int)
    ensures ParseInt(ShowInt(n)) == Some(n)
  {
    if n < 0 {
      var d: nat := -n;
      assert ShowInt(n) == "-" + ShowNat(d);
      ParseShowNegative(d);
    } else {
      ParseShowNat(n);
    }
  }

  /** `int()` only accepts texts with at least one digit. */
  lemma ParseIntNeedsDigit(s: string)
    requires ParseInt(s).Some?
    ensures exists k :: 0 <= k < |s| && IsDigit(s[k])
  {
    var a := SkipSpace(s, 0);
    var t := Trim(s);
    assert ParseSigned(t).Some?;
    var k := if t[0] == '-' || t[0] == '+' then 1 else 0;
    assert IsDigit(t[k]);
    assert s[a + k] == t[k];
  }

  // ---------------------------------------------------------------------
  // The enclosure choice
  // ---------------------------------------------------------------------

  datatype Enclosure = Enclosure(attributes: map<string, string>)

  /** `int(enc.attributes.get("length", "0"))`. */
  function Length(e: Enclosure): Option<int> {
    if "length" in e.attributes then ParseInt(e.attributes["length"]) else Some(0)
  }

  /** `found.attributes.get('url')`; a missing URL reads as `""`, which
      every later use treats like Python's `None`. */
  function Url(e: Enclosure): string {
    if "url" in e.attributes then e.attributes["url"] else ""
  }

  const BadLength := "invalid literal for int() with base 10"

  /** The enclosure loop with the length read by `len`: `Ok(None)` for no
      enclosures, the chosen enclosure, or the error reading a length
      raises. */
  function ChooseBy(encs: seq<Enclosure>, len: Enclosure -> Option<int>): (r: Result<Option<Enclosure>, string>)
    ensures r.Ok? && r.value.Some? ==> r.value.value in encs
    ensures r.Err? ==> r.error == BadLength
  {
    if encs == [] then Ok(None)
    else
      var last := encs[|encs| - 1];
      match ChooseBy(encs[..|encs| - 1], len)
      case Err(e) => Err(e)
      case Ok(None) => Ok(Some(last))
      case Ok(Some(found)) =>
        if len(found).None? || len(last).None? then Err(BadLength)
        else if len(found).value <= len(last).value then Ok(Some(last))
        else Ok(Some(found))
  }

  /** The enclosure loop of `__parse_item` / `parse_item`, lengths read with
      `int()`. */
  function Choose(encs: seq<Enclosure>): Result<Option<Enclosure>, string> {
    ChooseBy(encs, Length)
  }

  /** The enclosure loop, step by step; `__parse_item` runs it with `len`
      being `Length`. */
  method ChooseEnclosure(encs: seq<Enclosure>, len: Enclosure -> Option<int>)
    returns (r: Result<Option<Enclosure>, string>)
    ensures r == ChooseBy(encs, len)
  {
    var found: Option<Enclosure> := None;
    var i := 0;
    while i < |encs|
      invariant i <= |encs|
      invariant ChooseBy(encs[..i], len) == Ok(found)
    {
      var enc := encs[i];
      assert encs[..i + 1][..i] == encs[..i];
      if found.None? {
        found := Some(enc);
      } else {
        var a := len(found.value);
        var b := len(enc);
        if a.None? || b.None? {
          ChooseErrPersists(encs, len, i + 1);
          return Err(BadLength);
        }
        if a.value <= b.value {
          found := Some(enc);
        }
      }
      i := i + 1;
    }
    assert encs[..i] == encs;
    r := Ok(found);
  }

  /** Once the loop has raised, it has raised for good. */
  lemma {:induction false} ChooseErrPersists(encs: seq<Enclosure>, len: Enclosure -> Option<int>, j: nat)
    requires j <= |encs| && ChooseBy(encs[..j], len).Err?
    ensures ChooseBy(encs, len) == Err(BadLength)
    decreases |encs| - j
  {
    if j == |encs| {
      assert encs[..j] == encs;
    } else {
      var init := encs[..|encs| - 1];
      assert init[..j] == encs[..j];
      ChooseErrPersists(init, len, j);
    }
  }

  /** Every length reads. */
  predicate AllLengths(encs: seq<Enclosure>, len: Enclosure -> Option<int>) {
    forall k :: 0 <= k < |encs| ==> len(encs[k]).Some?
  }

  /** The lengths, once they all read. */
  function LengthList(encs: seq<Enclosure>, len: Enclosure -> Option<int>): (xs: seq<int>)
    requires AllLengths(encs, len)
    ensures |xs| == |encs| && forall k :: 0 <= k < |encs| ==> xs[k] == len(encs[k]).value
  {
    if encs == [] then []
    else
      var init := encs[..|encs| - 1];
      assert forall k :: 0 <= k < |init| ==> init[k] == encs[k];
      LengthList(init, len) + [len(encs[|encs| - 1]).value]
  }

  /** The largest value, as an independent reference. */
  function MaxOf(xs: seq<int>): (m: int)
    requires xs != []
    ensures forall k :: 0 <= k < |xs| ==> xs[k] <= m
  {
    var last := xs[|xs| - 1];
    if |xs| == 1 then last
    else
      var m := MaxOf(xs[..|xs| - 1]);
      if m <= last then last else m
  }

  /** The position of the last largest value. */
  function LastMaxOf(xs: seq<int>): (k: nat)
    requires xs != []
    ensures k < |xs| && xs[k] == MaxOf(xs)
    ensures forall j :: k < j < |xs| ==> xs[j] < MaxOf(xs)
  {
    if xs[|xs| - 1] == MaxOf(xs) then |xs| - 1
    else LastMaxOf(xs[..|xs| - 1])
  }

  /** Appending one value moves the last maximum to it exactly when it is at
      least the old maximum. */
  lemma LastMaxStep(xs: seq<int>)
    requires |xs| > 1
    ensures var ys := xs[..|xs| - 1];
      LastMaxOf(xs) == if ys[LastMaxOf(ys)] <= xs[|xs| - 1] then |xs| - 1 else LastMaxOf(ys)
  {
  }

  /** The chosen enclosure is the last one of largest length. */
  lemma {:induction false} ChooseIsLastMax(encs: seq<Enclosure>, len: Enclosure -> Option<int>)
    requires encs != [] && AllLengths(encs, len)
    ensures ChooseBy(encs, len) == Ok(Some(encs[LastMaxOf(LengthList(encs, len))]))
    decreases |encs|
  {
    var xs := LengthList(encs, len);
    if |encs| > 1 {
      var init := encs[..|encs| - 1];
      assert forall j :: 0 <= j < |init| ==> init[j] == encs[j];
      ChooseIsLastMax(init, len);
      var ys := LengthList(init, len);
      assert xs[..|xs| - 1] == ys;
      LastMaxStep(xs);
    }
  }

  lemma AllLengthsSplit(encs: seq<Enclosure>, len: Enclosure -> Option<int>)
    requires encs != []
    ensures AllLengths(encs, len) <==> AllLengths(encs[..|encs| - 1], len) && len(encs[|encs| - 1]).Some?
  {
    var init := encs[..|encs| - 1];
    assert forall j :: 0 <= j < |init| ==> init[j] == encs[j];
  }

  lemma ChooseSingle(encs: seq<Enclosure>, len: Enclosure -> Option<int>)
    requires |encs| == 1
    ensures ChooseBy(encs, len) == Ok(Some(encs[0]))
  {
    assert encs[..0] == [];
  }

  /** No enclosure gives no image, and only then. */
  lemma ChooseNoneIff(encs: seq<Enclosure>, len: Enclosure -> Option<int>)
    ensures ChooseBy(encs, len) == Ok(None) <==> encs == []
  {
    if encs != [] {
      match ChooseBy(encs[..|encs| - 1], len)
      case Err(_) =>
      case Ok(None) =>
      case Ok(Some(f)) =>
    }
  }

  /** The loop raises exactly when there are at least two enclosures and one
      of them has a length that does not read; a lone enclosure's length is
      never read. */
  lemma {:induction false} ChooseFailsIff(encs: seq<Enclosure>, len: Enclosure -> Option<int>)
    ensures ChooseBy(encs, len).Err? <==> |encs| >= 2 && !AllLengths(encs, len)
    decreases |encs|
  {
    if |encs| >= 2 {
      var init := encs[..|encs| - 1];
      ChooseFailsIff(init, len);
      AllLengthsSplit(encs, len);
      ChooseNoneIff(init, len);
      if |init| == 1 {
        ChooseSingle(init, len);
      } else if ChooseBy(init, len).Ok? {
        var f := ChooseBy(init, len).value.value;
        var k :| 0 <= k < |init| && init[k] == f;
      }
    } else if |encs| == 1 {
      ChooseSingle(encs, len);
    }
  }
}
