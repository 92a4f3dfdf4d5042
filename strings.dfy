/** The Python string operations the script relies on: `in`, `str.split(sep)`,
    `sep.join(parts)`, `str.replace(old, new)` and `str.lower()`. */
module Strings {
  import opened Wrappers

  predicate IsDigit(c: char) { '0' <= c <= '9' }

  predicate AllDigits(s: string) { forall i :: 0 <= i < |s| ==> IsDigit(s[i]) }

  predicate IsUpper(c: char) { 'A' <= c <= 'Z' }

  /** `p` occurs in `s` starting at index `i`. */
  predicate OccursAt(s: string, p: string, i: nat) {
    i + |p| <= |s| && s[i..i + |p|] == p
  }

  /** Python's `p in s`. */
  predicate Contains(s: string, p: string) {
    exists i: nat :: i <= |s| && OccursAt(s, p, i)
  }

  lemma OccursShift(s: string, p: string, i: nat)
    requires |s| > 0
    ensures OccursAt(s, p, i + 1) <==> OccursAt(s[1..], p, i)
  {
    if i + 1 + |p| <= |s| {
      assert s[i + 1..i + 1 + |p|] == s[1..][i..i + |p|];
    }
  }

  lemma OccursInPrefix(s: string, p: string, n: nat, i: nat)
    requires n <= |s| && OccursAt(s[..n], p, i)
    ensures OccursAt(s, p, i)
  {
    assert s[..n][i..i + |p|] == s[i..i + |p|];
  }

  lemma OccursInSuffix(s: string, p: string, n: nat, i: nat)
    requires n <= |s| && OccursAt(s[n..], p, i)
    ensures OccursAt(s, p, n + i)
  {
    assert s[n..][i..i + |p|] == s[n + i..n + i + |p|];
  }

  /** A one-character pattern occurs exactly where that character is. */
  lemma ContainsChar(s: string, c: char)
    ensures Contains(s, [c]) <==> c in s
  {
    if c in s {
      var i :| 0 <= i < |s| && s[i] == c;
      assert OccursAt(s, [c], i);
    }
    if Contains(s, [c]) {
      var i: nat :| i <= |s| && OccursAt(s, [c], i);
      assert s[i] == s[i..i + 1][0];
    }
  }

  /** A pattern made of one character repeated cannot occur where that character is absent. */
  lemma NotContainsDoubled(s: string, c: char)
    requires c !in s
    ensures !Contains(s, [c, c])
  {
    forall i: nat | i <= |s| ensures !OccursAt(s, [c, c], i) {
      if i + 2 <= |s| {
        assert s[i..i + 2][0] == s[i];
      }
    }
  }

  /** Leftmost occurrence of `p` in `s` (Python's `s.find(p)`, with None for -1). */
  function Find(s: string, p: string): (r: Option<nat>)
    ensures r.Some? ==> OccursAt(s, p, r.value) && forall j: nat :: j < r.value ==> !OccursAt(s, p, j)
    ensures r.None? ==> !Contains(s, p)
    decreases |s|
  {
    if |s| < |p| then None
    else if s[..|p|] == p then Some(0)
    else
      match Find(s[1..], p)
      case None =>
        assert !OccursAt(s, p, 0);
        assert forall j: nat :: OccursAt(s, p, j + 1) ==> OccursAt(s[1..], p, j) by {
          forall j: nat | OccursAt(s, p, j + 1) ensures OccursAt(s[1..], p, j) { OccursShift(s, p, j); }
        }
        assert forall j: nat :: !OccursAt(s, p, j) by {
          forall j: nat ensures !OccursAt(s, p, j) {
            if j > 0 { OccursShift(s, p, j - 1); }
          }
        }
        None
      case Some(i) =>
        OccursShift(s, p, i);
        assert forall j: nat :: j < i + 1 ==> !OccursAt(s, p, j) by {
          forall j: nat | j < i + 1 ensures !OccursAt(s, p, j) {
            if j > 0 { OccursShift(s, p, j - 1); }
          }
        }
        Some(i + 1)
  }

  /** An occurrence with none before it is the one `Find` returns. */
  lemma FindLeftmost(s: string, p: string, i: nat)
    requires OccursAt(s, p, i) && forall j: nat :: j < i ==> !OccursAt(s, p, j)
    ensures Find(s, p) == Some(i)
  {
    var r := Find(s, p);
    assert r.Some?;
    assert !(r.value < i) && !(i < r.value);
  }

  /** Python's `s.split(sep)` for a non-empty separator (an empty one raises ValueError). */
  function Split(s: string, sep: string): (r: seq<string>)
    requires |sep| > 0
    ensures |r| >= 1
    decreases |s|
  {
    match Find(s, sep)
    case None => [s]
    case Some(i) => [s[..i]] + Split(s[i + |sep|..], sep)
  }

  /** No piece of a split contains the separator. */
  lemma {:induction false} SplitPiecesFree(s: string, sep: string)
    requires |sep| > 0
    ensures forall k :: 0 <= k < |Split(s, sep)| ==> !Contains(Split(s, sep)[k], sep)
    decreases |s|
  {
    match Find(s, sep)
    case None =>
    case Some(i) =>
      var rest := Split(s[i + |sep|..], sep);
      SplitPiecesFree(s[i + |sep|..], sep);
      assert !Contains(s[..i], sep) by {
        forall j: nat | OccursAt(s[..i], sep, j) ensures false {
          OccursInPrefix(s, sep, i, j);
        }
      }
      assert Split(s, sep) == [s[..i]] + rest;
      assert forall k :: 1 <= k < |[s[..i]] + rest| ==> ([s[..i]] + rest)[k] == rest[k - 1];
  }

  /** Python's `sep.join(parts)`. */
  function Join(parts: seq<string>, sep: string): string
    requires |parts| >= 1
  {
    if |parts| == 1 then parts[0] else parts[0] + sep + Join(parts[1..], sep)
  }

  /** Python's `s.replace(p, r)`: every non-overlapping occurrence of `p`, scanning from the left, becomes `r`. */
  function ReplaceAll(s: string, p: string, r: string): (out: string)
    requires |p| > 0
    ensures !Contains(s, p) ==> out == s
    ensures forall c :: c in out ==> c in s || c in r
    ensures r == "" ==> |out| <= |s|
    ensures r == "" && Contains(s, p) ==> |out| + |p| <= |s|
    decreases |s|
  {
    if |s| < |p| then s
    else if s[..|p|] == p then
      assert OccursAt(s, p, 0);
      r + ReplaceAll(s[|p|..], p, r)
    else
      if !Contains(s, p) then
        assert !Contains(s[1..], p) by {
          forall j: nat | OccursAt(s[1..], p, j) ensures false { OccursShift(s, p, j); }
        }
        [s[0]] + ReplaceAll(s[1..], p, r)
      else
        assert Contains(s[1..], p) by {
          var j: nat :| j <= |s| && OccursAt(s, p, j);
          assert j != 0;
          OccursShift(s, p, j - 1);
        }
        [s[0]] + ReplaceAll(s[1..], p, r)
  }

  /** Deleting (or replacing by something without it) a one-character pattern leaves none of that character. */
  lemma ReplaceCharRemoves(s: string, c: char, r: string)
    requires c !in r
    ensures c !in ReplaceAll(s, [c], r)
    decreases |s|
  {
    if |s| >= 1 && s[..1] != [c] {
      ReplaceCharRemoves(s[1..], c, r);
    } else if |s| >= 1 {
      ReplaceCharRemoves(s[1..], c, r);
    }
  }

  /** Replacing one character by another is a pointwise character map. */
  lemma {:induction false} ReplaceCharPointwise(s: string, c: char, d: char)
    ensures ReplaceAll(s, [c], [d]) == seq(|s|, i requires 0 <= i < |s| => if s[i] == c then d else s[i])
    decreases |s|
  {
    if |s| > 0 {
      ReplaceCharPointwise(s[1..], c, d);
    }
  }

  /** The split pieces glued back with the separator give the original string. */
  lemma {:induction false} JoinSplit(s: string, sep: string)
    requires |sep| > 0
    ensures Join(Split(s, sep), sep) == s
    decreases |s|
  {
    match Find(s, sep)
    case None =>
    case Some(i) =>
      var rest := Split(s[i + |sep|..], sep);
      assert Split(s, sep) == [s[..i]] + rest;
      JoinSplit(s[i + |sep|..], sep);
      assert ([s[..i]] + rest)[1..] == rest;
      assert s == s[..i] + sep + s[i + |sep|..];
  }

  /** Without a match at index 0, the leftmost match is one past the leftmost match in the tail. */
  lemma FindUnshifted(s: string, p: string)
    requires |p| > 0 && |s| > 0 && !OccursAt(s, p, 0)
    ensures Find(s[1..], p).None? ==> Find(s, p).None?
    ensures Find(s[1..], p).Some? ==> Find(s, p) == Some(Find(s[1..], p).value + 1)
  {
    if |s| >= |p| {
      assert s[..|p|] != p;
    }
  }

  /** One step of `Split`: the piece before the leftmost separator, then the split of the rest. */
  lemma SplitStep(s: string, sep: string, i: nat)
    requires |sep| > 0 && Find(s, sep) == Some(i)
    ensures Split(s, sep) == [s[..i]] + Split(s[i + |sep|..], sep)
  {
  }

  lemma SplitNone(s: string, sep: string)
    requires |sep| > 0 && Find(s, sep).None?
    ensures Split(s, sep) == [s]
  {
  }

  lemma ConsPrefix(s: string, n: nat)
    requires 0 < n <= |s|
    ensures s[..n] == [s[0]] + s[1..][..n - 1]
  {
  }

  lemma SplitUnshiftedFound(s: string, p: string, i: nat)
    requires |p| > 0 && |s| > 0 && Find(s, p) == Some(i + 1) && Find(s[1..], p) == Some(i)
    ensures Split(s, p) == [[s[0]] + Split(s[1..], p)[0]] + Split(s[1..], p)[1..]
  {
    var t := s[1..];
    var rest := Split(s[i + 1 + |p|..], p);
    assert s[i + 1 + |p|..] == t[i + |p|..];
    SplitStep(t, p, i);
    SplitStep(s, p, i + 1);
    assert Split(t, p) == [t[..i]] + rest;
    ConsPrefix(s, i + 1);
    assert Split(t, p)[1..] == rest;
  }

  lemma SplitUnshifted(s: string, p: string)
    requires |p| > 0 && |s| > 0 && !OccursAt(s, p, 0)
    ensures Split(s, p) == [[s[0]] + Split(s[1..], p)[0]] + Split(s[1..], p)[1..]
  {
    FindUnshifted(s, p);
    if Find(s[1..], p).Some? {
      SplitUnshiftedFound(s, p, Find(s[1..], p).value);
    } else {
      SplitNone(s[1..], p);
      SplitNone(s, p);
      assert s == [s[0]] + s[1..];
    }
  }

  lemma JoinCons(part: string, parts: seq<string>, sep: string)
    requires |parts| >= 1
    ensures Join([part] + parts, sep) == part + sep + Join(parts, sep)
  {
    assert ([part] + parts)[1..] == parts;
  }

  lemma JoinHead(c: char, parts: seq<string>, sep: string)
    requires |parts| >= 1
    ensures Join([[c] + parts[0]] + parts[1..], sep) == [c] + Join(parts, sep)
  {
    var q := [[c] + parts[0]] + parts[1..];
    if |parts| > 1 {
      assert q[1..] == parts[1..];
    }
  }

  lemma ReplaceHead(s: string, p: string, r: string)
    requires |p| > 0 && OccursAt(s, p, 0)
    ensures ReplaceAll(s, p, r) == r + ReplaceAll(s[|p|..], p, r)
  {
  }

  lemma ReplaceSkip(s: string, p: string, r: string)
    requires |p| > 0 && |s| > 0 && !OccursAt(s, p, 0)
    ensures ReplaceAll(s, p, r) == [s[0]] + ReplaceAll(s[1..], p, r)
  {
    if |s| < |p| {
      assert |s[1..]| < |p|;
    }
  }

  /** `s.replace(p, r)` is the same as `r.join(s.split(p))`: each occurrence found by the split becomes `r`. */
  lemma {:induction false} ReplaceIsJoinSplit(s: string, p: string, r: string)
    requires |p| > 0
    ensures ReplaceAll(s, p, r) == Join(Split(s, p), r)
    decreases |s|
  {
    if |s| == 0 {
      assert Find(s, p).None?;
      SplitNone(s, p);
    } else if OccursAt(s, p, 0) {
      ReplaceHead(s, p, r);
      ReplaceIsJoinSplit(s[|p|..], p, r);
      assert Find(s, p) == Some(0);
      SplitStep(s, p, 0);
      JoinCons(s[..0], Split(s[|p|..], p), r);
    } else {
      ReplaceSkip(s, p, r);
      ReplaceIsJoinSplit(s[1..], p, r);
      SplitUnshifted(s, p);
      JoinHead(s[0], Split(s[1..], p), r);
    }
  }

  function LowerChar(c: char): char {
    if IsUpper(c) then (c as int + 32) as char else c
  }

  /** Python's `s.lower()` restricted to ASCII letters. */
  function Lower(s: string): (r: string)
    ensures |r| == |s|
    ensures forall i :: 0 <= i < |s| ==> !IsUpper(r[i])
    ensures forall i :: 0 <= i < |s| && !IsUpper(s[i]) ==> r[i] == s[i]
    ensures forall i :: 0 <= i < |s| && IsUpper(s[i]) ==> r[i] == (s[i] as int + 32) as char
  {
    seq(|s|, i requires 0 <= i < |s| => LowerChar(s[i]))
  }

  lemma LowerIdempotent(s: string)
    ensures Lower(Lower(s)) == Lower(s)
  {
  }

  lemma LowerKeepsAbsent(s: string, c: char)
    requires !IsUpper(c) && !('a' <= c <= 'z') && c !in s
    ensures c !in Lower(s)
  {
  }
}
