/** Hand-written matchers for the four regular expressions of the script:
    `\d+` (percentages, size numbers), `\d{3}cm` (size in centimetres),
    `\d+/\d+` (waist/inseam size) and `\d+\.?\d+` (price). Each has a predicate
    "a match starts at j", the text matched there, and a search that returns the
    leftmost match, as Python's `re.search` and the first item of `re.findall` do. */
module Scanners {
  import opened Wrappers
  import opened Strings

  /** The leftmost position in [lo, hi) where `at` holds. */
  function Leftmost(lo: nat, hi: nat, at: nat -> bool): (r: Option<nat>)
    requires lo <= hi
    ensures r.Some? ==> lo <= r.value < hi && at(r.value) && forall j :: lo <= j < r.value ==> !at(j)
    ensures r.None? ==> forall j :: lo <= j < hi ==> !at(j)
    decreases hi - lo
  {
    if lo == hi then None
    else if at(lo) then Some(lo)
    else Leftmost(lo + 1, hi, at)
  }

  /** End of the run of digits starting at `i`: where a greedy `\d*` stops. */
  function DigitRunEnd(s: string, i: nat): (e: nat)
    requires i <= |s|
    ensures i <= e <= |s|
    ensures AllDigits(s[i..e])
    ensures e == |s| || !IsDigit(s[e])
    decreases |s| - i
  {
    if i < |s| && IsDigit(s[i]) then
      var e := DigitRunEnd(s, i + 1);
      assert forall k :: i + 1 <= k < e ==> s[i + 1..e][k - i - 1] == s[k];
      assert forall k :: 0 <= k < e - i ==> s[i..e][k] == s[i + k];
      e
    else i
  }

  lemma DigitRunEndAcross(s: string, i: nat, k: nat)
    requires i + k <= |s| && AllDigits(s[i..i + k]) && (i + k == |s| || !IsDigit(s[i + k]))
    ensures DigitRunEnd(s, i) == i + k
    decreases k
  {
    if k > 0 {
      assert s[i..i + k][0] == s[i];
      assert s[i + 1..i + k] == s[i..i + k][1..];
      DigitRunEndAcross(s, i + 1, k - 1);
    }
  }

  // ---- \d+ ----

  predicate DigitAt(s: string, j: nat) { j < |s| && IsDigit(s[j]) }

  /** The text `\d+` matches at `j`: the whole digit run, since `+` is greedy. */
  function DigitsMatch(s: string, j: nat): (t: string)
    requires DigitAt(s, j)
    ensures |t| > 0 && AllDigits(t) && OccursAt(s, t, j)
    ensures j + |t| == |s| || !IsDigit(s[j + |t|])
  {
    s[j..DigitRunEnd(s, j)]
  }

  /** `re.search(r'\d+', s)`: the leftmost run of digits, or None when `s` has no digit. */
  function FirstDigitRun(s: string): (r: Option<string>)
    ensures r.None? <==> forall j :: 0 <= j < |s| ==> !IsDigit(s[j])
    ensures r.Some? ==> exists j :: 0 <= j < |s| && DigitAt(s, j) && (forall i :: 0 <= i < j ==> !IsDigit(s[i])) && r.value == DigitsMatch(s, j)
  {
    var at := (j: nat) => DigitAt(s, j);
    match Leftmost(0, |s|, at)
    case None =>
      assert forall j :: 0 <= j < |s| ==> !IsDigit(s[j]) by {
        forall j | 0 <= j < |s| ensures !IsDigit(s[j]) { assert !at(j); }
      }
      None
    case Some(j) =>
      assert forall i :: 0 <= i < j ==> !IsDigit(s[i]) by {
        forall i | 0 <= i < j ensures !IsDigit(s[i]) { assert !at(i); }
      }
      Some(DigitsMatch(s, j))
  }

  function Pow10(n: nat): (p: nat)
    ensures p >= 1
  {
    if n == 0 then 1 else 10 * Pow10(n - 1)
  }

  /** Python's `int(d)` for a string of decimal digits. */
  function DigitsValue(d: string): (n: nat)
    requires AllDigits(d)
    ensures n < Pow10(|d|)
  {
    if d == [] then 0
    else
      var init := d[..|d| - 1];
      assert AllDigits(init) by {
        assert forall k :: 0 <= k < |init| ==> init[k] == d[k];
      }
      var m := DigitsValue(init);
      var x := d[|d| - 1] as int - '0' as int;
      assert m * 10 <= (Pow10(|init|) - 1) * 10;
      m * 10 + x
  }

  // ---- \d{3}cm ----

  /** `\d{3}cm` matches at `j`: three digits followed by "cm". */
  predicate CmAt(s: string, j: nat) {
    j + 5 <= |s| && AllDigits(s[j..j + 3]) && s[j + 3..j + 5] == "cm"
  }

  /** `re.search(r'\d{3}cm', s)`: the position of the leftmost match. */
  function CmSearch(s: string): (r: Option<nat>)
    ensures r.None? <==> forall j :: 0 <= j < |s| ==> !CmAt(s, j)
    ensures r.Some? ==> CmAt(s, r.value) && forall j :: 0 <= j < r.value ==> !CmAt(s, j)
  {
    var at := (j: nat) => CmAt(s, j);
    var r := Leftmost(0, |s|, at);
    assert r.None? ==> forall j :: 0 <= j < |s| ==> !CmAt(s, j) by {
      if r.None? {
        forall j | 0 <= j < |s| ensures !CmAt(s, j) { assert !at(j); }
      }
    }
    assert r.Some? ==> forall j :: 0 <= j < r.value ==> !CmAt(s, j) by {
      if r.Some? {
        forall j | 0 <= j < r.value ensures !CmAt(s, j) { assert !at(j); }
      }
    }
    r
  }

  /** Applied to a `\d{3}cm` match, `\d+` returns its three digits. */
  lemma DigitsOfCmToken(s: string, j: nat)
    requires CmAt(s, j)
    ensures FirstDigitRun(s[j..j + 5]) == Some(s[j..j + 3])
  {
    var t := s[j..j + 5];
    assert t[..3] == s[j..j + 3];
    assert t[3] == 'c' by { assert t[3] == s[j + 3..j + 5][0]; }
    DigitRunEndAcross(t, 0, 3);
    assert DigitAt(t, 0);
    assert Leftmost(0, |t|, (i: nat) => DigitAt(t, i)) == Some(0);
  }

  // ---- \d+/\d+ ----

  /** `t` is in the language of `\d+/\d+`. */
  ghost predicate IsRatio(t: string) {
    exists k :: 0 < k < |t| - 1 && t[k] == '/' && AllDigits(t[..k]) && AllDigits(t[k + 1..])
  }

  /** `\d+/\d+` matches at `j`: the digit run from `j` is followed by '/' and a digit. */
  predicate RatioAt(s: string, j: nat) {
    j < |s| && IsDigit(s[j]) &&
    var e := DigitRunEnd(s, j);
    e + 1 < |s| && s[e] == '/' && IsDigit(s[e + 1])
  }

  /** The text `\d+/\d+` matches at `j`, both runs taken greedily. */
  function RatioMatch(s: string, j: nat): (t: string)
    requires RatioAt(s, j)
    ensures IsRatio(t) && OccursAt(s, t, j)
    ensures j + |t| == |s| || !IsDigit(s[j + |t|])
  {
    var e := DigitRunEnd(s, j);
    var f := DigitRunEnd(s, e + 1);
    var t := s[j..f];
    assert t[e - j] == '/';
    assert t[..e - j] == s[j..e];
    assert t[e - j + 1..] == s[e + 1..f];
    t
  }

  /** The matcher agrees with the regular expression: a match starts at `j`
      exactly when some string of the language occurs at `j`. */
  lemma RatioAtIsOccurrence(s: string, j: nat)
    ensures RatioAt(s, j) <==> exists t :: IsRatio(t) && OccursAt(s, t, j)
  {
    if RatioAt(s, j) {
      var t := RatioMatch(s, j);
      assert IsRatio(t) && OccursAt(s, t, j);
    }
    if exists t :: IsRatio(t) && OccursAt(s, t, j) {
      var t :| IsRatio(t) && OccursAt(s, t, j);
      var k :| 0 < k < |t| - 1 && t[k] == '/' && AllDigits(t[..k]) && AllDigits(t[k + 1..]);
      SlashRatioAt(s, j, t, k);
    }
  }

  lemma SlashRatioAt(s: string, j: nat, t: string, k: nat)
    requires 0 < k < |t| - 1 && t[k] == '/' && AllDigits(t[..k]) && AllDigits(t[k + 1..])
    requires OccursAt(s, t, j)
    ensures RatioAt(s, j)
  {
    assert s[j..j + k] == t[..k];
    assert s[j + k] == t[k];
    assert s[j + k + 1] == t[k + 1..][0];
    assert s[j] == t[..k][0];
    DigitRunEndAcross(s, j, k);
  }

  /** `str.extract(r'(\d+/\d+)')`: the leftmost ratio token, or None. */
  function SearchRatio(s: string): (r: Option<string>)
    ensures r.None? <==> forall j :: 0 <= j < |s| ==> !RatioAt(s, j)
    ensures r.Some? ==> exists j :: 0 <= j < |s| && RatioAt(s, j) && (forall i :: 0 <= i < j ==> !RatioAt(s, i)) && r.value == RatioMatch(s, j)
  {
    var at := (j: nat) => RatioAt(s, j);
    match Leftmost(0, |s|, at)
    case None =>
      assert forall j :: 0 <= j < |s| ==> !RatioAt(s, j) by {
        forall j | 0 <= j < |s| ensures !RatioAt(s, j) { assert !at(j); }
      }
      None
    case Some(j) =>
      assert forall i :: 0 <= i < j ==> !RatioAt(s, i) by {
        forall i | 0 <= i < j ensures !RatioAt(s, i) { assert !at(i); }
      }
      Some(RatioMatch(s, j))
  }

  // ---- \d+\.?\d+ ----

  /** `t` is in the language of `\d+\.?\d+`. */
  ghost predicate IsPrice(t: string) {
    (|t| >= 2 && AllDigits(t)) ||
    exists k :: 0 < k < |t| - 1 && t[k] == '.' && AllDigits(t[..k]) && AllDigits(t[k + 1..])
  }

  /** A decimal point at `e` followed by a digit. */
  predicate PointThenDigit(s: string, e: nat) {
    e + 1 < |s| && s[e] == '.' && IsDigit(s[e + 1])
  }

  /** `\d+\.?\d+` matches at `j`: the digit run there has two digits, or is followed by a point and a digit. */
  predicate PriceAt(s: string, j: nat) {
    j < |s| && IsDigit(s[j]) &&
    var e := DigitRunEnd(s, j);
    e - j >= 2 || PointThenDigit(s, e)
  }

  /** The text `\d+\.?\d+` matches at `j`: it takes the point and the digits after it when there are any. */
  function PriceMatch(s: string, j: nat): (t: string)
    requires PriceAt(s, j)
    ensures IsPrice(t) && OccursAt(s, t, j)
    ensures j + |t| == |s| || !IsDigit(s[j + |t|])
    ensures '.' !in t ==> !PointThenDigit(s, j + |t|)
  {
    var e := DigitRunEnd(s, j);
    if PointThenDigit(s, e) then
      var f := DigitRunEnd(s, e + 1);
      PointPrice(s, j, e, f);
      s[j..f]
    else
      s[j..e]
  }

  /** Two digit runs joined by a point, as found in `s`, form a price. */
  lemma PointPrice(s: string, j: nat, e: nat, f: nat)
    requires j < e && e + 1 < f <= |s| && s[e] == '.'
    requires AllDigits(s[j..e]) && AllDigits(s[e + 1..f])
    ensures IsPrice(s[j..f]) && '.' in s[j..f]
  {
    var t := s[j..f];
    assert t[e - j] == '.';
    assert t[..e - j] == s[j..e];
    assert t[e - j + 1..] == s[e + 1..f];
  }

  lemma DigitsPriceAt(s: string, j: nat, t: string)
    requires |t| >= 2 && AllDigits(t) && OccursAt(s, t, j)
    ensures PriceAt(s, j)
  {
    assert s[j] == t[0] && s[j + 1] == t[1];
    assert DigitRunEnd(s, j) == DigitRunEnd(s, j + 1) == DigitRunEnd(s, j + 2);
  }

  lemma PointPriceAt(s: string, j: nat, t: string, k: nat)
    requires 0 < k < |t| - 1 && t[k] == '.' && AllDigits(t[..k]) && AllDigits(t[k + 1..])
    requires OccursAt(s, t, j)
    ensures PriceAt(s, j)
  {
    assert s[j..j + k] == t[..k];
    assert s[j + k] == t[k];
    assert s[j + k + 1] == t[k + 1..][0];
    assert s[j] == t[..k][0];
    DigitRunEndAcross(s, j, k);
  }

  lemma PriceAtIsOccurrence(s: string, j: nat)
    ensures PriceAt(s, j) <==> exists t :: IsPrice(t) && OccursAt(s, t, j)
  {
    if PriceAt(s, j) {
      var t := PriceMatch(s, j);
      assert IsPrice(t) && OccursAt(s, t, j);
    }
    if exists t :: IsPrice(t) && OccursAt(s, t, j) {
      var t :| IsPrice(t) && OccursAt(s, t, j);
      if |t| >= 2 && AllDigits(t) {
        DigitsPriceAt(s, j, t);
      } else {
        var k :| 0 < k < |t| - 1 && t[k] == '.' && AllDigits(t[..k]) && AllDigits(t[k + 1..]);
        PointPriceAt(s, j, t, k);
      }
    }
  }

  /** `re.findall(r'\d+\.?\d+', s)[0]`: findall lists matches from the left, so its first item is the leftmost match. */
  function SearchPrice(s: string): (r: Option<string>)
    ensures r.None? <==> forall j :: 0 <= j < |s| ==> !PriceAt(s, j)
    ensures r.Some? ==> exists j :: 0 <= j < |s| && PriceAt(s, j) && (forall i :: 0 <= i < j ==> !PriceAt(s, i)) && r.value == PriceMatch(s, j)
  {
    var at := (j: nat) => PriceAt(s, j);
    match Leftmost(0, |s|, at)
    case None =>
      assert forall j :: 0 <= j < |s| ==> !PriceAt(s, j) by {
        forall j | 0 <= j < |s| ensures !PriceAt(s, j) { assert !at(j); }
      }
      None
    case Some(j) =>
      assert forall i :: 0 <= i < j ==> !PriceAt(s, i) by {
        forall i | 0 <= i < j ensures !PriceAt(s, i) { assert !at(i); }
      }
      Some(PriceMatch(s, j))
  }
}
