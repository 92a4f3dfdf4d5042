/** The normaliser `data_cleaning` (etl_StarJeans.py:155-280): keyless rows dropped,
    text columns normalised, size and fibre columns parsed out of free text, fibre
    percentages aggregated per key, raw columns dropped, one row kept per key. */
module Cleaning {
  import opened Wrappers
  import opened Strings
  import opened Scanners
  import opened Extractor

  // ---- text normalisation (lines 160-163, 178, 181) ----

  /** Lines 160-163 on a present name: delete newlines, tabs and double spaces,
      turn the remaining spaces into underscores, lower-case. */
  function CleanName(s: string): (r: string)
    ensures ' ' !in r && '\t' !in r && '\n' !in r
    ensures forall i :: 0 <= i < |r| ==> !IsUpper(r[i])
  {
    var a := ReplaceAll(s, "\n", "");
    var b := ReplaceAll(a, "\t", "");
    var c := ReplaceAll(b, "  ", "");
    var d := ReplaceAll(c, " ", "_");
    ReplaceCharRemoves(s, '\n', "");
    ReplaceCharRemoves(a, '\t', "");
    ReplaceCharRemoves(c, ' ', "_");
    LowerKeepsAbsent(d, ' ');
    LowerKeepsAbsent(d, '\t');
    LowerKeepsAbsent(d, '\n');
    Lower(d)
  }

  /** The `product_name` column: NaN stays NaN. */
  function NormalizeName(name: Option<string>): (r: Option<string>)
    ensures r.None? <==> name.None?
    ensures r.Some? ==> ' ' !in r.value && '\t' !in r.value && '\n' !in r.value
  {
    match name
    case None => None
    case Some(s) => Some(CleanName(s))
  }

  /** Line 178 on a present colour name: spaces to underscores, then lower case. */
  function CleanColor(s: string): (r: string)
    ensures |r| == |s| && ' ' !in r
    ensures forall i :: 0 <= i < |r| ==> !IsUpper(r[i])
  {
    var a := ReplaceAll(s, " ", "_");
    ReplaceCharPointwise(s, ' ', '_');
    ReplaceCharRemoves(s, ' ', "_");
    LowerKeepsAbsent(a, ' ');
    Lower(a)
  }

  /** Line 181 on a present fit: lower case, then spaces to underscores. */
  function CleanFit(s: string): (r: string)
    ensures |r| == |s| && ' ' !in r
    ensures forall i :: 0 <= i < |r| ==> !IsUpper(r[i])
  {
    var a := Lower(s);
    ReplaceCharPointwise(a, ' ', '_');
    ReplaceCharRemoves(a, ' ', "_");
    ReplaceAll(a, " ", "_")
  }

  function NormalizeColor(c: Option<string>): (r: Option<string>)
    ensures r.None? <==> c.None?
    ensures r.Some? ==> |r.value| == |c.value| && ' ' !in r.value
  {
    match c
    case None => None
    case Some(s) => Some(CleanColor(s))
  }

  /** The `fit` column: the lambda skips NaN (`if pd.notnull(x) else x`). */
  function NormalizeFit(f: Option<string>): (r: Option<string>)
    ensures r.None? <==> f.None?
    ensures r.Some? ==> |r.value| == |f.value| && ' ' !in r.value
  {
    match f
    case None => None
    case Some(s) => Some(CleanFit(s))
  }

  /** Colour and fit normalisation map each character on its own: a space becomes '_',
      an upper-case letter its lower-case form; the two orders of the steps agree. */
  lemma ColorAndFitPointwise(s: string)
    ensures CleanColor(s) == CleanFit(s)
    ensures forall i :: 0 <= i < |s| ==> CleanColor(s)[i] == (if s[i] == ' ' then '_' else LowerChar(s[i]))
  {
    ReplaceCharPointwise(s, ' ', '_');
    ReplaceCharPointwise(Lower(s), ' ', '_');
  }

  lemma LowerOfLowered(s: string)
    requires forall i :: 0 <= i < |s| ==> !IsUpper(s[i])
    ensures Lower(s) == s
  {
  }

  /** Cleaning an already cleaned name changes nothing. */
  lemma CleanNameIdempotent(s: string)
    ensures CleanName(CleanName(s)) == CleanName(s)
  {
    var t := CleanName(s);
    ContainsChar(t, '\n');
    ContainsChar(t, '\t');
    NotContainsDoubled(t, ' ');
    ContainsChar(t, ' ');
    assert "\n" == ['\n'] && "\t" == ['\t'] && " " == [' '] && "  " == [' ', ' '];
    LowerOfLowered(t);
  }

  lemma NormalizeNameIdempotent(name: Option<string>)
    ensures NormalizeName(NormalizeName(name)) == NormalizeName(name)
  {
    if name.Some? { CleanNameIdempotent(name.value); }
  }

  /** Cleaning an already cleaned colour name or fit changes nothing. */
  lemma ColorAndFitIdempotent(s: string)
    ensures CleanColor(CleanColor(s)) == CleanColor(s)
    ensures CleanFit(CleanFit(s)) == CleanFit(s)
  {
    var c := CleanColor(s);
    var f := CleanFit(s);
    ContainsChar(c, ' ');
    ContainsChar(f, ' ');
    assert " " == [' '];
    LowerOfLowered(c);
    LowerOfLowered(f);
  }

  // ---- sizes (lines 184-188) ----

  /** Lines 184-185: `\d{3}cm` searched in a present size text, then `\d+` in the match.
      NaN stays NaN; a size text without such a token raises. */
  function SizeNumber(size: Option<string>): (r: Result<Option<string>, Failure>)
    ensures size.None? ==> r == Ok(None)
    ensures size.Some? ==> (r == Err(SizeTokenMissing) <==> forall j :: 0 <= j < |size.value| ==> !CmAt(size.value, j))
    ensures size.Some? ==> (r.Err? ==> r == Err(SizeTokenMissing))
    ensures size.Some? && r.Ok? ==>
      (r.value.Some? && |r.value.value| == 3 && AllDigits(r.value.value) &&
       exists j :: 0 <= j < |size.value| && CmAt(size.value, j) && (forall i :: 0 <= i < j ==> !CmAt(size.value, i)) &&
         r.value.value == size.value[j..j + 3])
  {
    match size
    case None => Ok(None)
    case Some(s) =>
      match CmSearch(s)
      case None => Err(SizeTokenMissing)
      case Some(j) =>
        DigitsOfCmToken(s, j);
        Ok(FirstDigitRun(s[j..j + 5]))
  }

  /** Line 188: `str.extract(r'(\d+/\d+)')`, NaN when the text is NaN or has no such token. */
  function SizeModel(size: Option<string>): (r: Option<string>)
    ensures size.None? ==> r.None?
    ensures size.Some? ==> (r.None? <==> forall j :: 0 <= j < |size.value| ==> !RatioAt(size.value, j))
    ensures r.Some? ==>
      (size.Some? && IsRatio(r.value) &&
       exists j :: 0 <= j < |size.value| && RatioAt(size.value, j) && (forall i :: 0 <= i < j ==> !RatioAt(size.value, i)) &&
         OccursAt(size.value, r.value, j) && r.value == RatioMatch(size.value, j))
  {
    match size
    case None => None
    case Some(s) => SearchRatio(s)
  }

  // ---- fibres (lines 205-267) ----

  datatype Fibre = Cotton | Polyester | Elastane | Elasterell

  /** The case-sensitive name `str.contains` looks for. */
  function FibreName(f: Fibre): string {
    match f
    case Cotton => "Cotton"
    case Polyester => "Polyester"
    case Elastane => "Elastane"
    case Elasterell => "Elasterell"
  }

  /** The comma-split positions scanned for each fibre, in the order `combine_first` prefers them. */
  function Positions(f: Fibre): seq<nat> {
    match f
    case Cotton => [0, 1]
    case Polyester => [0, 1]
    case Elastane => [1, 2, 3]
    case Elasterell => [1]
  }

  /** Segment `k` exists and names the fibre. */
  predicate Hit(segs: seq<string>, name: string, k: nat) {
    k < |segs| && Contains(segs[k], name)
  }

  /** The first listed position whose segment names the fibre; a missing segment is NaN and never counts. */
  function ChooseSegment(segs: seq<string>, name: string, positions: seq<nat>): (r: Option<string>)
    ensures r.None? <==> forall n :: 0 <= n < |positions| ==> !Hit(segs, name, positions[n])
    ensures r.Some? ==>
      exists n :: (0 <= n < |positions| && Hit(segs, name, positions[n]) &&
        r.value == segs[positions[n]] && forall m :: 0 <= m < n ==> !Hit(segs, name, positions[m]))
  {
    if positions == [] then None
    else
      var k := positions[0];
      if k < |segs| && Find(segs[k], name).Some? then
        assert Hit(segs, name, positions[0]);
        Some(segs[k])
      else
        var rest := ChooseSegment(segs, name, positions[1..]);
        assert forall n :: 1 <= n < |positions| ==> positions[n] == positions[1..][n - 1];
        rest
  }

  /** The raw segment the script keeps for fibre `f` (before the percentage is read). */
  function FibreText(composition: string, f: Fibre): Option<string> {
    ChooseSegment(Split(composition, ","), FibreName(f), Positions(f))
  }

  lemma FindIffContains(s: string, p: string)
    ensures Find(s, p).Some? <==> Contains(s, p)
  {
    var r := Find(s, p);
    if r.Some? {
      assert OccursAt(s, p, r.value);
    }
  }

  /** One step of the choice: the first listed position wins when its segment names the fibre. */
  lemma ChooseStep(segs: seq<string>, name: string, positions: seq<nat>)
    requires positions != []
    ensures ChooseSegment(segs, name, positions) ==
      if Hit(segs, name, positions[0]) then Some(segs[positions[0]]) else ChooseSegment(segs, name, positions[1..])
  {
    if positions[0] < |segs| {
      FindIffContains(segs[positions[0]], name);
    }
  }

  lemma ChooseNone(segs: seq<string>, name: string)
    ensures ChooseSegment(segs, name, []) == None
  {
  }

  /** Which comma-separated segment each fibre is read from. */
  lemma FibreSegments(composition: string)
    ensures var segs := Split(composition, ",");
      && FibreText(composition, Cotton) ==
           (if Hit(segs, "Cotton", 0) then Some(segs[0])
            else if Hit(segs, "Cotton", 1) then Some(segs[1]) else None)
      && FibreText(composition, Polyester) ==
           (if Hit(segs, "Polyester", 0) then Some(segs[0])
            else if Hit(segs, "Polyester", 1) then Some(segs[1]) else None)
      && FibreText(composition, Elastane) ==
           (if Hit(segs, "Elastane", 1) then Some(segs[1])
            else if Hit(segs, "Elastane", 2) then Some(segs[2])
            else if Hit(segs, "Elastane", 3) then Some(segs[3]) else None)
      && FibreText(composition, Elasterell) ==
           (if Hit(segs, "Elasterell", 1) then Some(segs[1]) else None)
  {
    var segs := Split(composition, ",");
    var zeroOne: seq<nat> := [0, 1];
    var one: seq<nat> := [1];
    var oneTwoThree: seq<nat> := [1, 2, 3];
    var twoThree: seq<nat> := [2, 3];
    var three: seq<nat> := [3];
    assert zeroOne[1..] == one && one[1..] == [];
    assert oneTwoThree[1..] == twoThree && twoThree[1..] == three && three[1..] == [];
    ChooseNone(segs, "Cotton");
    ChooseStep(segs, "Cotton", one);
    ChooseStep(segs, "Cotton", zeroOne);
    ChooseNone(segs, "Polyester");
    ChooseStep(segs, "Polyester", one);
    ChooseStep(segs, "Polyester", zeroOne);
    ChooseNone(segs, "Elastane");
    ChooseStep(segs, "Elastane", three);
    ChooseStep(segs, "Elastane", twoThree);
    ChooseStep(segs, "Elastane", oneTwoThree);
    ChooseNone(segs, "Elasterell");
    ChooseStep(segs, "Elasterell", one);
  }

  /** Lines 264-267: `int(re.search(r'\d+', x).group(0))` on a chosen segment, as a whole
      percentage; NaN stays NaN, and a segment without a digit raises. */
  function Percent(seg: Option<string>): (r: Result<Option<nat>, Failure>)
    ensures seg.None? ==> r == Ok(None)
    ensures seg.Some? ==> (r.Err? <==> forall j :: 0 <= j < |seg.value| ==> !IsDigit(seg.value[j]))
    ensures r.Err? ==> r == Err(PercentMissing)
    ensures seg.Some? && r.Ok? ==>
      (r.value.Some? &&
       exists j :: 0 <= j < |seg.value| && DigitAt(seg.value, j) && (forall i :: 0 <= i < j ==> !IsDigit(seg.value[i])) &&
         r.value.value == DigitsValue(DigitsMatch(seg.value, j)))
  {
    match seg
    case None => Ok(None)
    case Some(s) =>
      match FirstDigitRun(s)
      case None => Err(PercentMissing)
      case Some(d) => Ok(Some(DigitsValue(d)))
  }

  /** The four fibre columns of one row, as whole percentages (NaN when not found). */
  datatype Fibres = Fibres(cotton: Option<nat>, polyester: Option<nat>, elastane: Option<nat>, elasterell: Option<nat>)
  {
    function Get(f: Fibre): Option<nat> {
      match f
      case Cotton => cotton
      case Polyester => polyester
      case Elastane => elastane
      case Elasterell => elasterell
    }
  }

  function FibreIndex(f: Fibre): (i: nat)
    ensures i < 4
  {
    match f
    case Cotton => 0
    case Polyester => 1
    case Elastane => 2
    case Elasterell => 3
  }

  /** One fibre column of one row: NaN compositions give NaN. */
  function ScanFibre(composition: Option<string>, f: Fibre): Result<Option<nat>, Failure> {
    match composition
    case None => Ok(None)
    case Some(c) => Percent(FibreText(c, f))
  }

  /** The four columns of a row together; the first column that fails is the failure raised. */
  function Combine(c: Result<Option<nat>, Failure>, p: Result<Option<nat>, Failure>,
                   e: Result<Option<nat>, Failure>, l: Result<Option<nat>, Failure>): (r: Result<Fibres, Failure>)
    ensures r.Ok? <==> c.Ok? && p.Ok? && e.Ok? && l.Ok?
    ensures r.Ok? ==> r.value == Fibres(c.value, p.value, e.value, l.value)
    ensures c.Err? ==> r == Err(c.error)
    ensures c.Ok? && p.Err? ==> r == Err(p.error)
    ensures c.Ok? && p.Ok? && e.Err? ==> r == Err(e.error)
    ensures c.Ok? && p.Ok? && e.Ok? && l.Err? ==> r == Err(l.error)
  {
    match (c, p, e, l)
    case (Ok(c), Ok(p), Ok(e), Ok(l)) => Ok(Fibres(c, p, e, l))
    case (Err(x), _, _, _) => Err(x)
    case (_, Err(x), _, _) => Err(x)
    case (_, _, Err(x), _) => Err(x)
    case (_, _, _, Err(x)) => Err(x)
  }

  /** Lines 205-267 for one row. */
  function ScanFibres(composition: Option<string>): (r: Result<Fibres, Failure>)
    ensures r.Ok? <==> forall f: Fibre :: ScanFibre(composition, f).Ok?
    ensures r.Ok? ==> forall f: Fibre :: ScanFibre(composition, f) == Ok(r.value.Get(f))
  {
    var c := ScanFibre(composition, Cotton);
    var p := ScanFibre(composition, Polyester);
    var e := ScanFibre(composition, Elastane);
    var l := ScanFibre(composition, Elasterell);
    var r := Combine(c, p, e, l);
    assert forall f: Fibre :: ScanFibre(composition, f) == [c, p, e, l][FibreIndex(f)];
    r
  }

  /** A pattern with a character the text lacks does not occur in it. */
  lemma NotContainsByChar(s: string, p: string, c: char)
    requires c in p && c !in s
    ensures !Contains(s, p)
  {
  }

  /** The leftmost occurrence of a one-character separator is the first place it appears. */
  lemma FindChar(s: string, c: char, i: nat)
    requires i < |s| && s[i] == c && c !in s[..i]
    ensures Find(s, [c]) == Some(i)
  {
    assert OccursAt(s, [c], i);
    forall j: nat | j < i ensures !OccursAt(s, [c], j) {
      assert s[..i][j] == s[j];
    }
    FindLeftmost(s, [c], i);
  }

  /** `re.search(r'\d+', s)` returns the run `s[j..e]` when it is the first digit run. */
  lemma FirstDigitRunAt(s: string, j: nat, e: nat)
    requires j < e <= |s| && AllDigits(s[j..e]) && (e == |s| || !IsDigit(s[e]))
    requires forall i :: 0 <= i < j ==> !IsDigit(s[i])
    ensures FirstDigitRun(s) == Some(s[j..e])
  {
    assert IsDigit(s[j]) by { assert s[j..e][0] == s[j]; }
    DigitRunEndAcross(s, j, e - j);
  }

  /** The example lemmas below take each literal as a parameter pinned by `requires`, so the
      verifier reasons about one named string instead of re-expanding the literal at every step. */
  const ExampleComposition := "Cotton 80%, Elastane 20%"

  lemma SplitTwo(c: string, i: nat)
    requires i < |c| && c[i] == ',' && ',' !in c[..i] && ',' !in c[i + 1..]
    ensures Split(c, ",") == [c[..i], c[i + 1..]]
  {
    FindChar(c, ',', i);
    ContainsChar(c[i + 1..], ',');
    assert Find(c[i + 1..], ",") == None;
  }

  lemma ExampleSplit(c: string, a: string, b: string)
    requires c == ExampleComposition && a == "Cotton 80%" && b == " Elastane 20%"
    ensures Split(c, ",") == [a, b]
  {
    assert c[..10] == a && c[11..] == b;
    SplitTwo(c, 10);
  }

  /** Where each fibre's text comes from when the composition has two segments,
      cotton named in the first, elastane in the second and nothing else named. */
  lemma CottonElastaneSegments(c: string, a: string, b: string)
    requires Split(c, ",") == [a, b]
    requires Contains(a, "Cotton") && Contains(b, "Elastane")
    requires !Contains(a, "Polyester") && !Contains(b, "Polyester") && !Contains(b, "Elasterell")
    ensures FibreText(c, Cotton) == Some(a)
    ensures FibreText(c, Polyester) == None
    ensures FibreText(c, Elastane) == Some(b)
    ensures FibreText(c, Elasterell) == None
  {
    FibreSegments(c);
  }

  lemma ExampleNames(a: string, b: string)
    requires a == "Cotton 80%" && b == " Elastane 20%"
    ensures Contains(a, "Cotton") && Contains(b, "Elastane")
    ensures !Contains(a, "Polyester") && !Contains(b, "Polyester") && !Contains(b, "Elasterell")
  {
    assert OccursAt(a, "Cotton", 0);
    assert OccursAt(b, "Elastane", 1);
    NotContainsByChar(a, "Polyester", 'P');
    NotContainsByChar(b, "Polyester", 'P');
    NotContainsByChar(b, "Elasterell", 'r');
  }

  lemma ExampleSegments(c: string, a: string, b: string)
    requires c == ExampleComposition && a == "Cotton 80%" && b == " Elastane 20%"
    ensures FibreText(c, Cotton) == Some(a)
    ensures FibreText(c, Polyester) == None
    ensures FibreText(c, Elastane) == Some(b)
    ensures FibreText(c, Elasterell) == None
  {
    ExampleSplit(c, a, b);
    ExampleNames(a, b);
    CottonElastaneSegments(c, a, b);
  }

  /** A segment whose first digit run is `s[j..e]` reads as that run's value. */
  lemma PercentAt(s: string, j: nat, e: nat)
    requires j < e <= |s| && AllDigits(s[j..e]) && (e == |s| || !IsDigit(s[e]))
    requires forall i :: 0 <= i < j ==> !IsDigit(s[i])
    ensures Percent(Some(s)) == Ok(Some(DigitsValue(s[j..e])))
  {
    FirstDigitRunAt(s, j, e);
  }

  lemma CottonPercent(a: string)
    requires a == "Cotton 80%"
    ensures Percent(Some(a)) == Ok(Some(80))
  {
    assert a[7..9] == "80";
    NoDigitsBetween(a, 0, 7, "Cotton ");
    PercentAt(a, 7, 9);
    assert DigitsValue("80") == 80;
  }

  lemma ElastanePercent(b: string)
    requires b == " Elastane 20%"
    ensures Percent(Some(b)) == Ok(Some(20))
  {
    assert b[10..12] == "20";
    NoDigitsBetween(b, 0, 10, " Elastane ");
    PercentAt(b, 10, 12);
    assert DigitsValue("20") == 20;
  }

  /** The composition from the worked example: 80% cotton, 20% elastane, nothing else. */
  lemma ScanExample()
    ensures ScanFibres(Some(ExampleComposition)) == Ok(Fibres(Some(80), None, Some(20), None))
  {
    ExampleSegments(ExampleComposition, "Cotton 80%", " Elastane 20%");
    CottonPercent("Cotton 80%");
    ElastanePercent(" Elastane 20%");
  }

  // ---- aggregation (lines 261-272) ----

  /** `groupby('product_id').max().fillna(0)` for one key and one fibre: the largest
      percentage among that key's rows, 0 when none of them has the fibre. */
  function FibreMax(ids: seq<string>, fibres: seq<Fibres>, id: string, f: Fibre): nat
    requires |ids| == |fibres|
  {
    if ids == [] then 0
    else
      var rest := FibreMax(ids[1..], fibres[1..], id, f);
      var here := fibres[0].Get(f);
      if ids[0] == id && here.Some? && here.value >= rest then here.value else rest
  }

  /** The maximum bounds every present percentage of the key, is 0 when the key has none,
      and otherwise is one of them. */
  lemma {:induction false} FibreMaxBounds(ids: seq<string>, fibres: seq<Fibres>, id: string, f: Fibre)
    requires |ids| == |fibres|
    ensures var m := FibreMax(ids, fibres, id, f);
      && (forall i :: 0 <= i < |ids| && ids[i] == id && fibres[i].Get(f).Some? ==> fibres[i].Get(f).value <= m)
      && ((forall i :: 0 <= i < |ids| && ids[i] == id ==> fibres[i].Get(f).None?) ==> m == 0)
      && (m == 0 || exists i :: 0 <= i < |ids| && ids[i] == id && fibres[i].Get(f) == Some(m))
  {
    if ids != [] {
      var rest := FibreMax(ids[1..], fibres[1..], id, f);
      FibreMaxBounds(ids[1..], fibres[1..], id, f);
      assert forall i :: 1 <= i < |ids| ==> ids[i] == ids[1..][i - 1] && fibres[i] == fibres[1..][i - 1];
      if rest != 0 {
        var j :| 0 <= j < |ids[1..]| && ids[1..][j] == id && fibres[1..][j].Get(f) == Some(rest);
        assert ids[j + 1] == id && fibres[j + 1].Get(f) == Some(rest);
      }
    }
  }

  // ---- the cleaned record and the whole stage ----

  /** The columns left after line 275 (exactly those stored at lines 283-297). */
  datatype CleanRecord = CleanRecord(
    productId: string,
    productName: Option<string>,
    productPrice: Option<string>,
    scrapyDatetime: string,
    styleId: Option<string>,
    colorId: Option<string>,
    colorName: Option<string>,
    fit: Option<string>,
    sustainable: Option<string>,
    sizeNumber: Option<string>,
    sizeModel: Option<string>,
    cotton: nat,
    polyester: nat,
    elastane: nat,
    elasterell: nat)
  {
    function Total(f: Fibre): nat {
      match f
      case Cotton => cotton
      case Polyester => polyester
      case Elastane => elastane
      case Elasterell => elasterell
    }
  }

  /** Line 157: `dropna(subset = ['product_id'])`. */
  function DropNullKeys(data: seq<DetailRecord>): (r: seq<DetailRecord>)
    ensures forall k :: 0 <= k < |r| ==> r[k].productId.Some?
    ensures forall x :: x in r ==> x in data
  {
    if data == [] then []
    else
      var rest := DropNullKeys(data[1..]);
      if data[0].productId.Some? then [data[0]] + rest else rest
  }

  /** Every row with a key is kept. */
  lemma {:induction false} DropNullKeysKeeps(data: seq<DetailRecord>, n: nat)
    requires n < |data| && data[n].productId.Some?
    ensures data[n] in DropNullKeys(data)
  {
    if n > 0 {
      DropNullKeysKeeps(data[1..], n - 1);
    }
  }

  /** A cleaned row built from keyed row `d`, given its size number and its key's fibre totals. */
  function Assemble(d: DetailRecord, sizeNumber: Option<string>, ids: seq<string>, fibres: seq<Fibres>): CleanRecord
    requires d.productId.Some? && |ids| == |fibres|
  {
    var id := d.productId.value;
    CleanRecord(id, NormalizeName(d.productName), d.productPrice, d.scrapyDatetime, d.styleId, d.colorId,
                NormalizeColor(d.colorName), NormalizeFit(d.fit), d.sustainable, sizeNumber, SizeModel(d.size),
                FibreMax(ids, fibres, id, Cotton), FibreMax(ids, fibres, id, Polyester),
                FibreMax(ids, fibres, id, Elastane), FibreMax(ids, fibres, id, Elasterell))
  }

  function Keys(rows: seq<CleanRecord>): set<string> {
    set r | r in rows :: r.productId
  }

  /** No later row has the same key as row `i`. */
  predicate LastWithKey(rows: seq<CleanRecord>, i: nat)
    requires i < |rows|
  {
    forall j :: i < j < |rows| ==> rows[j].productId != rows[i].productId
  }

  /** Line 278: `drop_duplicates(subset = ['product_id'], keep = 'last')`: a row survives
      when no later row has its key. */
  function DedupKeepLast(rows: seq<CleanRecord>): (r: seq<CleanRecord>)
    ensures |r| <= |rows|
  {
    if rows == [] then []
    else
      var rest := DedupKeepLast(rows[1..]);
      if rows[0].productId in Keys(rows[1..]) then rest else [rows[0]] + rest
  }

  /** Deduplication only drops rows: every row it leaves was in the input. */
  lemma {:induction false} DedupSubset(rows: seq<CleanRecord>)
    ensures forall x :: x in DedupKeepLast(rows) ==> x in rows
  {
    if rows != [] {
      DedupSubset(rows[1..]);
      assert forall x :: x in rows[1..] ==> x in rows;
    }
  }

  lemma DedupShift(rows: seq<CleanRecord>)
    requires rows != []
    ensures forall i :: 1 <= i < |rows| ==> rows[i] == rows[1..][i - 1]
    ensures forall i :: 1 <= i < |rows| ==> (LastWithKey(rows, i) <==> LastWithKey(rows[1..], i - 1))
    ensures Keys(rows) == {rows[0].productId} + Keys(rows[1..])
    ensures LastWithKey(rows, 0) <==> rows[0].productId !in Keys(rows[1..])
  {
    var t := rows[1..];
    assert forall x :: x in rows ==> x == rows[0] || x in t;
    if rows[0].productId in Keys(t) {
      var x :| x in t && x.productId == rows[0].productId;
      var j :| 0 <= j < |t| && t[j] == x;
      assert rows[j + 1] == x;
    } else {
      forall j | 0 < j < |rows| ensures rows[j].productId != rows[0].productId {
        assert rows[j] in t;
      }
    }
  }

  /** Deduplication keeps every key and leaves each key once. */
  lemma {:induction false} DedupKeysUnique(rows: seq<CleanRecord>)
    ensures Keys(DedupKeepLast(rows)) == Keys(rows)
    ensures var r := DedupKeepLast(rows);
      forall a, b :: 0 <= a < b < |r| ==> r[a].productId != r[b].productId
  {
    if rows != [] {
      var t := rows[1..];
      var rest := DedupKeepLast(t);
      DedupKeysUnique(t);
      DedupShift(rows);
      if rows[0].productId !in Keys(t) {
        var r := [rows[0]] + rest;
        assert forall k :: 1 <= k < |r| ==> r[k] == rest[k - 1];
        assert Keys(r) == {rows[0].productId} + Keys(rest) by {
          assert forall x :: x in r ==> x == rows[0] || x in rest;
        }
        forall a, b | 0 <= a < b < |r| ensures r[a].productId != r[b].productId {
          if a == 0 {
            assert r[b] in rest;
          }
        }
      }
    }
  }

  /** Every surviving row is, unchanged, the last input row with its key. */
  lemma {:induction false} DedupSurvivorsAreLast(rows: seq<CleanRecord>)
    ensures forall k :: 0 <= k < |DedupKeepLast(rows)| ==>
      exists i :: 0 <= i < |rows| && rows[i] == DedupKeepLast(rows)[k] && LastWithKey(rows, i)
  {
    if rows != [] {
      var t := rows[1..];
      var rest := DedupKeepLast(t);
      DedupSurvivorsAreLast(t);
      DedupShift(rows);
      var r := DedupKeepLast(rows);
      var dropped := rows[0].productId in Keys(t);
      assert dropped ==> r == rest;
      assert !dropped ==> r == [rows[0]] + rest;
      forall k | 0 <= k < |r| ensures exists i :: 0 <= i < |rows| && rows[i] == r[k] && LastWithKey(rows, i) {
        if !dropped && k == 0 {
          assert rows[0] == r[0];
        } else {
          var k' := if dropped then k else k - 1;
          assert r[k] == rest[k'];
          var i :| 0 <= i < |t| && t[i] == rest[k'] && LastWithKey(t, i);
          assert rows[i + 1] == r[k] && LastWithKey(rows, i + 1);
        }
      }
    } else {
      assert |DedupKeepLast(rows)| == 0;
    }
  }

  /** The last input row of every key survives. */
  lemma {:induction false} DedupKeepsLastRows(rows: seq<CleanRecord>)
    ensures forall i :: 0 <= i < |rows| && LastWithKey(rows, i) ==> rows[i] in DedupKeepLast(rows)
  {
    if rows != [] {
      var t := rows[1..];
      var rest := DedupKeepLast(t);
      DedupKeepsLastRows(t);
      DedupShift(rows);
      assert rest <= DedupKeepLast(rows) || DedupKeepLast(rows) == [rows[0]] + rest;
      forall i | 0 <= i < |rows| && LastWithKey(rows, i) ensures rows[i] in DedupKeepLast(rows) {
        if i > 0 {
          assert t[i - 1] in rest;
        }
      }
    }
  }

  /** Lines 211-243 read comma-split columns `df1[0]` to `df1[3]`, which all exist only
      when some kept row's composition has three or more commas; otherwise indexing the
      frame raises at the first missing one. */
  predicate HasFourSegmentColumns(data: seq<DetailRecord>) {
    exists k :: 0 <= k < |data| && data[k].productId.Some? && data[k].composition.Some? &&
      multiset(data[k].composition.value)[','] >= 3
  }

  /** `s.split(c)` has one piece more than `s` has separators. */
  lemma {:induction false} SplitCount(s: string, c: char)
    ensures |Split(s, [c])| == multiset(s)[c] + 1
    decreases |s|
  {
    match Find(s, [c])
    case None =>
      ContainsChar(s, c);
    case Some(i) =>
      assert s[i] == s[i..i + 1][0];
      assert c !in s[..i] by {
        forall j | 0 <= j < i ensures s[..i][j] != c {
          assert !OccursAt(s, [c], j);
          assert s[j..j + 1] == [s[j]];
        }
      }
      assert s == s[..i] + [c] + s[i + 1..];
      SplitCount(s[i + 1..], c);
  }

  /** The four-column condition says exactly that a kept row splits into four or more pieces. */
  lemma FourColumns(data: seq<DetailRecord>)
    ensures HasFourSegmentColumns(data) <==>
      exists k :: 0 <= k < |data| && data[k].productId.Some? && data[k].composition.Some? &&
        |Split(data[k].composition.value, ",")| >= 4
  {
    forall k | 0 <= k < |data| && data[k].composition.Some? {
      SplitCount(data[k].composition.value, ',');
    }
  }

  function SizeResults(rows: seq<DetailRecord>): (rs: seq<Result<Option<string>, Failure>>)
    ensures |rs| == |rows| && forall i :: 0 <= i < |rows| ==> rs[i] == SizeNumber(rows[i].size)
  {
    seq(|rows|, i requires 0 <= i < |rows| => SizeNumber(rows[i].size))
  }

  function FibreResults(rows: seq<DetailRecord>): (rs: seq<Result<Fibres, Failure>>)
    ensures |rs| == |rows| && forall i :: 0 <= i < |rows| ==> rs[i] == ScanFibres(rows[i].composition)
  {
    seq(|rows|, i requires 0 <= i < |rows| => ScanFibres(rows[i].composition))
  }

  function KeysOf(rows: seq<DetailRecord>): (ids: seq<string>)
    requires forall k :: 0 <= k < |rows| ==> rows[k].productId.Some?
    ensures |ids| == |rows| && forall k :: 0 <= k < |rows| ==> Some(ids[k]) == rows[k].productId
  {
    seq(|rows|, k requires 0 <= k < |rows| => rows[k].productId.value)
  }

  /** Line 270 and the per-row columns: one cleaned row per kept row, before deduplication. */
  function AssembleAll(rows: seq<DetailRecord>, sizes: seq<Option<string>>, fibres: seq<Fibres>): (a: seq<CleanRecord>)
    requires forall k :: 0 <= k < |rows| ==> rows[k].productId.Some?
    requires |sizes| == |rows| && |fibres| == |rows|
    ensures |a| == |rows|
  {
    var ids := KeysOf(rows);
    seq(|rows|, i requires 0 <= i < |rows| => Assemble(rows[i], sizes[i], ids, fibres))
  }

  lemma AssembleAllAt(rows: seq<DetailRecord>, sizes: seq<Option<string>>, fibres: seq<Fibres>, i: nat)
    requires forall k :: 0 <= k < |rows| ==> rows[k].productId.Some?
    requires |sizes| == |rows| && |fibres| == |rows| && i < |rows|
    ensures AssembleAll(rows, sizes, fibres)[i] == Assemble(rows[i], sizes[i], KeysOf(rows), fibres)
  {
  }

  /** `data_cleaning` as a whole. The size column is parsed first (line 184), the split
      columns `df1[0]` to `df1[3]` are indexed next (lines 211-258) and the percentages are read last (lines 264-267):
      the first of these to fail is the failure reported. */
  function Clean(data: seq<DetailRecord>): (r: Result<seq<CleanRecord>, Failure>)
    ensures r.Err? ==> r.error == SizeTokenMissing || r.error == SegmentColumnMissing || r.error == PercentMissing
  {
    var rows := DropNullKeys(data);
    match AllOk(SizeResults(rows))
    case Err(e) => SizesOkIff(data); Err(e)
    case Ok(sizes) =>
      if !HasFourSegmentColumns(data) then Err(SegmentColumnMissing)
      else match AllOk(FibreResults(rows))
      case Err(e) => FibreFailureRow(data); Err(e)
      case Ok(fibres) => Ok(DedupKeepLast(AssembleAll(rows, sizes, fibres)))
  }

  // ---- what the stage promises ----

  /** No later row has the same key as row `i`. */
  predicate LastKeyed(rows: seq<DetailRecord>, i: nat)
    requires i < |rows|
  {
    forall j :: i < j < |rows| ==> rows[j].productId != rows[i].productId
  }

  /** One fibre's column of the parsed fibre table. */
  function Column(fibres: seq<Fibres>, f: Fibre): (vals: seq<Option<nat>>)
    ensures |vals| == |fibres| && forall j :: 0 <= j < |fibres| ==> vals[j] == fibres[j].Get(f)
  {
    seq(|fibres|, j requires 0 <= j < |fibres| => fibres[j].Get(f))
  }

  /** `m` is what `groupby('product_id').max().fillna(0)` gives key `id` for a column of
      percentages: no row of the key exceeds it, and it is 0 or some row's percentage. */
  predicate IsGroupMax(ids: seq<string>, vals: seq<Option<nat>>, id: string, m: nat) {
    && (forall j :: 0 <= j < |ids| && j < |vals| && ids[j] == id && vals[j].Some? ==> vals[j].value <= m)
    && (m == 0 || exists j :: 0 <= j < |ids| && j < |vals| && ids[j] == id && vals[j] == Some(m))
  }

  /** The per-row columns of cleaned row `r` come from row `d`. */
  predicate DerivedFrom(d: DetailRecord, r: CleanRecord) {
    && d.productId == Some(r.productId)
    && r.productName == NormalizeName(d.productName)
    && r.productPrice == d.productPrice
    && r.scrapyDatetime == d.scrapyDatetime
    && r.styleId == d.styleId
    && r.colorId == d.colorId
    && r.colorName == NormalizeColor(d.colorName)
    && r.fit == NormalizeFit(d.fit)
    && r.sustainable == d.sustainable
    && SizeNumber(d.size) == Ok(r.sizeNumber)
    && r.sizeModel == SizeModel(d.size)
  }

  /** Cleaned row `r` comes from kept row `i`, the last with its key: its per-row columns
      are that row's, and each fibre column is its key's group maximum. */
  predicate BuiltFrom(rows: seq<DetailRecord>, fibres: seq<Fibres>, i: nat, r: CleanRecord)
    requires forall k :: 0 <= k < |rows| ==> rows[k].productId.Some?
    requires i < |rows|
  {
    && LastKeyed(rows, i)
    && DerivedFrom(rows[i], r)
    && forall f: Fibre :: IsGroupMax(KeysOf(rows), Column(fibres, f), r.productId, r.Total(f))
  }

  /** The aggregation computes the group maximum of the column. */
  lemma FibreMaxIsGroupMax(ids: seq<string>, fibres: seq<Fibres>, id: string, f: Fibre)
    requires |ids| == |fibres|
    ensures IsGroupMax(ids, Column(fibres, f), id, FibreMax(ids, fibres, id, f))
  {
    FibreMaxBounds(ids, fibres, id, f);
    var m := FibreMax(ids, fibres, id, f);
    var vals := Column(fibres, f);
    if m != 0 {
      var i :| 0 <= i < |ids| && ids[i] == id && fibres[i].Get(f) == Some(m);
      assert vals[i] == Some(m);
    }
  }

  /** Each row left by deduplication is the assembled form of a kept row that is last with its key. */
  lemma SurvivorsOfAssembled(rows: seq<DetailRecord>, sizes: seq<Option<string>>, fibres: seq<Fibres>)
    requires forall k :: 0 <= k < |rows| ==> rows[k].productId.Some?
    requires |sizes| == |rows| && |fibres| == |rows|
    ensures forall r :: r in DedupKeepLast(AssembleAll(rows, sizes, fibres)) ==>
      exists i :: 0 <= i < |rows| && LastKeyed(rows, i) && r == Assemble(rows[i], sizes[i], KeysOf(rows), fibres)
  {
    var assembled := AssembleAll(rows, sizes, fibres);
    var out := DedupKeepLast(assembled);
    DedupSurvivorsAreLast(assembled);
    forall r | r in out
      ensures exists i :: 0 <= i < |rows| && LastKeyed(rows, i) && r == Assemble(rows[i], sizes[i], KeysOf(rows), fibres)
    {
      var k :| 0 <= k < |out| && out[k] == r;
      var i :| 0 <= i < |assembled| && assembled[i] == out[k] && LastWithKey(assembled, i);
      AssembleAllAt(rows, sizes, fibres, i);
      forall j | i < j < |rows| ensures rows[j].productId != rows[i].productId {
        AssembleAllAt(rows, sizes, fibres, j);
        assert assembled[j].productId != assembled[i].productId;
      }
      assert LastKeyed(rows, i);
    }
  }

  lemma AssembleDerived(d: DetailRecord, sizeNumber: Option<string>, ids: seq<string>, fibres: seq<Fibres>)
    requires d.productId.Some? && |ids| == |fibres|
    requires SizeNumber(d.size) == Ok(sizeNumber)
    ensures DerivedFrom(d, Assemble(d, sizeNumber, ids, fibres))
  {
  }

  lemma AssembleTotal(d: DetailRecord, sizeNumber: Option<string>, ids: seq<string>, fibres: seq<Fibres>, f: Fibre)
    requires d.productId.Some? && |ids| == |fibres|
    ensures Assemble(d, sizeNumber, ids, fibres).productId == d.productId.value
    ensures Assemble(d, sizeNumber, ids, fibres).Total(f) == FibreMax(ids, fibres, d.productId.value, f)
  {
  }

  /** The row assembled from kept row `i` carries its per-row columns and its key's fibre maxima. */
  lemma AssembledRow(rows: seq<DetailRecord>, sizes: seq<Option<string>>, fibres: seq<Fibres>, i: nat)
    requires forall k :: 0 <= k < |rows| ==> rows[k].productId.Some?
    requires |sizes| == |rows| && |fibres| == |rows| && i < |rows|
    requires SizeNumber(rows[i].size) == Ok(sizes[i])
    ensures var r := Assemble(rows[i], sizes[i], KeysOf(rows), fibres);
      DerivedFrom(rows[i], r) && forall f: Fibre :: IsGroupMax(KeysOf(rows), Column(fibres, f), r.productId, r.Total(f))
    ensures LastKeyed(rows, i) ==> BuiltFrom(rows, fibres, i, Assemble(rows[i], sizes[i], KeysOf(rows), fibres))
  {
    var ids := KeysOf(rows);
    var r := Assemble(rows[i], sizes[i], ids, fibres);
    AssembleDerived(rows[i], sizes[i], ids, fibres);
    forall f: Fibre ensures IsGroupMax(ids, Column(fibres, f), r.productId, r.Total(f)) {
      AssembleTotal(rows[i], sizes[i], ids, fibres, f);
      FibreMaxIsGroupMax(ids, fibres, ids[i], f);
    }
  }

  /** The parsed fibre table holds each kept row's scan. */
  lemma FibresParsed(rows: seq<DetailRecord>)
    requires AllOk(FibreResults(rows)).Ok?
    ensures var fibres := AllOk(FibreResults(rows)).value;
      |fibres| == |rows| && forall j :: 0 <= j < |rows| ==> ScanFibres(rows[j].composition) == Ok(fibres[j])
  {
  }

  /** The size table holds each kept row's size number. */
  lemma SizesParsed(rows: seq<DetailRecord>)
    requires AllOk(SizeResults(rows)).Ok?
    ensures var sizes := AllOk(SizeResults(rows)).value;
      |sizes| == |rows| && forall j :: 0 <= j < |rows| ==> SizeNumber(rows[j].size) == Ok(sizes[j])
  {
  }

  /** What a successful run is made of. */
  lemma CleanOk(data: seq<DetailRecord>)
    requires Clean(data).Ok?
    ensures AllOk(SizeResults(DropNullKeys(data))).Ok? && AllOk(FibreResults(DropNullKeys(data))).Ok?
    ensures Clean(data).value ==
      DedupKeepLast(AssembleAll(DropNullKeys(data), AllOk(SizeResults(DropNullKeys(data))).value, AllOk(FibreResults(DropNullKeys(data))).value))
  {
  }

  /** Every row of `out` is built from some kept row that is last with its key. */
  predicate AllBuiltFrom(rows: seq<DetailRecord>, fibres: seq<Fibres>, out: seq<CleanRecord>)
    requires forall k :: 0 <= k < |rows| ==> rows[k].productId.Some?
  {
    forall r :: r in out ==> exists i :: 0 <= i < |rows| && BuiltFrom(rows, fibres, i, r)
  }

  /** Each deduplicated row carries the per-row columns of a kept row that is last with its
      key, and its key's fibre maxima. */
  lemma AssembledRowsFromLast(rows: seq<DetailRecord>, sizes: seq<Option<string>>, fibres: seq<Fibres>)
    requires forall k :: 0 <= k < |rows| ==> rows[k].productId.Some?
    requires |sizes| == |rows| && |fibres| == |rows|
    requires forall j :: 0 <= j < |rows| ==> SizeNumber(rows[j].size) == Ok(sizes[j])
    ensures AllBuiltFrom(rows, fibres, DedupKeepLast(AssembleAll(rows, sizes, fibres)))
  {
    var out := DedupKeepLast(AssembleAll(rows, sizes, fibres));
    SurvivorsOfAssembled(rows, sizes, fibres);
    forall r | r in out
      ensures exists i :: 0 <= i < |rows| && BuiltFrom(rows, fibres, i, r)
    {
      var i :| 0 <= i < |rows| && LastKeyed(rows, i) && r == Assemble(rows[i], sizes[i], KeysOf(rows), fibres);
      AssembledRow(rows, sizes, fibres, i);
    }
  }

  /** Every cleaned row is built from the last kept row with its key: its per-row columns
      come from that row, and its fibre columns are the maxima, over all rows of the key,
      of the parsed fibre table (which holds each row's scan, by `FibresParsed`). */
  lemma CleanRowsFromLast(data: seq<DetailRecord>)
    ensures Clean(data).Ok? ==>
      var rows := DropNullKeys(data);
      var fibres := AllOk(FibreResults(rows)).value;
      var out := Clean(data).value;
      && |fibres| == |rows|
      && AllBuiltFrom(rows, fibres, out)
  {
    if Clean(data).Ok? {
      CleanOk(data);
      var rows := DropNullKeys(data);
      SizesParsed(rows);
      FibresParsed(rows);
      AssembledRowsFromLast(rows, AllOk(SizeResults(rows)).value, AllOk(FibreResults(rows)).value);
    }
  }

  /** Deduplicating the assembled rows leaves unique keys, exactly the keys of the input rows that have one. */
  lemma AssembledKeys(data: seq<DetailRecord>, sizes: seq<Option<string>>, fibres: seq<Fibres>)
    requires |sizes| == |DropNullKeys(data)| && |fibres| == |DropNullKeys(data)|
    ensures var out := DedupKeepLast(AssembleAll(DropNullKeys(data), sizes, fibres));
      && (forall a, b :: 0 <= a < b < |out| ==> out[a].productId != out[b].productId)
      && Keys(out) == set d | d in data && d.productId.Some? :: d.productId.value
  {
    var rows := DropNullKeys(data);
    var assembled := AssembleAll(rows, sizes, fibres);
    DedupKeysUnique(assembled);
    var want := set d | d in data && d.productId.Some? :: d.productId.value;
    assert Keys(assembled) == want by {
      forall x | x in Keys(assembled) ensures x in want {
        var r :| r in assembled && r.productId == x;
        var i :| 0 <= i < |assembled| && assembled[i] == r;
        AssembleAllAt(rows, sizes, fibres, i);
        assert rows[i] in data;
      }
      forall x | x in want ensures x in Keys(assembled) {
        var d :| d in data && d.productId.Some? && d.productId.value == x;
        var n :| 0 <= n < |data| && data[n] == d;
        DropNullKeysKeeps(data, n);
        var i :| 0 <= i < |rows| && rows[i] == d;
        AssembleAllAt(rows, sizes, fibres, i);
        assert assembled[i] in assembled;
      }
    }
  }

  /** Keys are unique after cleaning, and every key of a kept row is still present. */
  lemma CleanKeys(data: seq<DetailRecord>)
    ensures Clean(data).Ok? ==>
      var out := Clean(data).value;
      && (forall a, b :: 0 <= a < b < |out| ==> out[a].productId != out[b].productId)
      && Keys(out) == set d | d in data && d.productId.Some? :: d.productId.value
  {
    if Clean(data).Ok? {
      CleanOk(data);
      var rows := DropNullKeys(data);
      AssembledKeys(data, AllOk(SizeResults(rows)).value, AllOk(FibreResults(rows)).value);
    }
  }

  lemma AllOkErrIff<T, E>(rs: seq<Result<T, E>>)
    ensures AllOk(rs).Err? <==> exists i :: 0 <= i < |rs| && rs[i].Err?
  {
  }

  /** The four ways the stage ends. */
  lemma CleanOutcome(data: seq<DetailRecord>)
    ensures var rows := DropNullKeys(data);
      var sr := AllOk(SizeResults(rows));
      var fr := AllOk(FibreResults(rows));
      var wide := HasFourSegmentColumns(data);
      && (sr.Err? ==> Clean(data) == Err(sr.error))
      && (sr.Ok? && !wide ==> Clean(data) == Err(SegmentColumnMissing))
      && (sr.Ok? && wide && fr.Err? ==> Clean(data) == Err(fr.error))
      && (sr.Ok? && wide && fr.Ok? ==> Clean(data) == Ok(DedupKeepLast(AssembleAll(rows, sr.value, fr.value))))
  {
  }

  /** A kept row fails to parse exactly when some input row with a key does. */
  lemma FailingRows(data: seq<DetailRecord>)
    ensures var rows := DropNullKeys(data);
      (exists i :: 0 <= i < |rows| && (SizeResults(rows)[i].Err? || FibreResults(rows)[i].Err?)) <==>
      exists d :: d in data && d.productId.Some? && (SizeNumber(d.size).Err? || ScanFibres(d.composition).Err?)
  {
    var rows := DropNullKeys(data);
    var sr := SizeResults(rows);
    var fr := FibreResults(rows);
    if exists d :: d in data && d.productId.Some? && (SizeNumber(d.size).Err? || ScanFibres(d.composition).Err?) {
      var d :| d in data && d.productId.Some? && (SizeNumber(d.size).Err? || ScanFibres(d.composition).Err?);
      var n :| 0 <= n < |data| && data[n] == d;
      DropNullKeysKeeps(data, n);
      var i :| 0 <= i < |rows| && rows[i] == d;
      assert sr[i].Err? || fr[i].Err?;
    }
    if exists i :: 0 <= i < |rows| && (sr[i].Err? || fr[i].Err?) {
      var i :| 0 <= i < |rows| && (sr[i].Err? || fr[i].Err?);
      assert rows[i] in rows;
    }
  }

  /** A size failure in any row with a key makes the size step raise the size error. */
  lemma SizeStepFails(data: seq<DetailRecord>)
    requires exists d :: d in data && d.productId.Some? && SizeNumber(d.size).Err?
    ensures AllOk(SizeResults(DropNullKeys(data))) == Err(SizeTokenMissing)
  {
    var rows := DropNullKeys(data);
    var sr := SizeResults(rows);
    var d :| d in data && d.productId.Some? && SizeNumber(d.size).Err?;
    var n :| 0 <= n < |data| && data[n] == d;
    DropNullKeysKeeps(data, n);
    var i :| 0 <= i < |rows| && rows[i] == d;
    assert sr[i].Err?;
    AllOkErrIff(sr);
    var j :| 0 <= j < |sr| && sr[j] == Err(AllOk(sr).error);
    assert SizeNumber(rows[j].size) == Err(AllOk(sr).error);
  }

  /** The stage fails exactly when some kept row's size or fibre text cannot be parsed or
      no composition splits into four columns; a size failure is the one reported when there
      is one, and the missing column comes next. */
  lemma CleanFailure(data: seq<DetailRecord>)
    ensures Clean(data).Err? <==>
      !HasFourSegmentColumns(data) ||
      exists d :: d in data && d.productId.Some? && (SizeNumber(d.size).Err? || ScanFibres(d.composition).Err?)
    ensures (exists d :: d in data && d.productId.Some? && SizeNumber(d.size).Err?) ==> Clean(data) == Err(SizeTokenMissing)
    ensures (forall d :: d in data && d.productId.Some? ==> SizeNumber(d.size).Ok?) && !HasFourSegmentColumns(data) ==>
      Clean(data) == Err(SegmentColumnMissing)
  {
    var rows := DropNullKeys(data);
    CleanOutcome(data);
    AllOkErrIff(SizeResults(rows));
    AllOkErrIff(FibreResults(rows));
    FailingRows(data);
    if exists d :: d in data && d.productId.Some? && SizeNumber(d.size).Err? {
      SizeStepFails(data);
    }
  }

  /** A fibre scan can only fail on a chosen segment without a digit. */
  lemma ScanFibresFailure(composition: Option<string>)
    ensures ScanFibres(composition).Err? ==> ScanFibres(composition) == Err(PercentMissing)
  {
  }

  /** The size step succeeds exactly when every keyed row's size parses. */
  lemma SizesOkIff(data: seq<DetailRecord>)
    ensures AllOk(SizeResults(DropNullKeys(data))).Ok? <==>
      forall d :: d in data && d.productId.Some? ==> SizeNumber(d.size).Ok?
    ensures AllOk(SizeResults(DropNullKeys(data))).Err? ==> AllOk(SizeResults(DropNullKeys(data))).error == SizeTokenMissing
  {
    var rows := DropNullKeys(data);
    AllOkErrIff(SizeResults(rows));
    if exists d :: d in data && d.productId.Some? && SizeNumber(d.size).Err? {
      SizeStepFails(data);
    }
    if exists i :: 0 <= i < |rows| && SizeResults(rows)[i].Err? {
      var i :| 0 <= i < |rows| && SizeResults(rows)[i].Err?;
      assert rows[i] in rows;
    }
  }

  /** The fibre step fails exactly when some keyed row's scan does, and then on a missing percentage. */
  lemma FibresErrIff(data: seq<DetailRecord>)
    ensures AllOk(FibreResults(DropNullKeys(data))).Err? <==>
      exists d :: d in data && d.productId.Some? && ScanFibres(d.composition).Err?
    ensures AllOk(FibreResults(DropNullKeys(data))).Err? ==> AllOk(FibreResults(DropNullKeys(data))).error == PercentMissing
  {
    if exists d :: d in data && d.productId.Some? && ScanFibres(d.composition).Err? {
      var d :| d in data && d.productId.Some? && ScanFibres(d.composition).Err?;
      var n :| 0 <= n < |data| && data[n] == d;
      FibreRowFails(data, n);
    }
    if AllOk(FibreResults(DropNullKeys(data))).Err? {
      FibreFailureRow(data);
    }
  }

  lemma FibreRowFails(data: seq<DetailRecord>, n: int)
    requires 0 <= n < |data| && data[n].productId.Some? && ScanFibres(data[n].composition).Err?
    ensures AllOk(FibreResults(DropNullKeys(data))).Err?
  {
    var rows := DropNullKeys(data);
    var fr := FibreResults(rows);
    DropNullKeysKeeps(data, n);
    var i :| 0 <= i < |rows| && rows[i] == data[n];
    AllOkErrIff(fr);
    assert fr[i].Err?;
  }

  lemma FibreFailureRow(data: seq<DetailRecord>)
    requires AllOk(FibreResults(DropNullKeys(data))).Err?
    ensures AllOk(FibreResults(DropNullKeys(data))).error == PercentMissing
    ensures exists d :: d in data && d.productId.Some? && ScanFibres(d.composition).Err?
  {
    var rows := DropNullKeys(data);
    var fr := FibreResults(rows);
    AllOkErrIff(fr);
    var j :| 0 <= j < |fr| && fr[j] == Err(AllOk(fr).error);
    ScanFibresFailure(rows[j].composition);
    assert rows[j] in rows;
  }

  /** The stage reports a missing percentage exactly when every keyed size parses, the split
      columns exist, and some keyed row's chosen fibre segment has no digit. */
  lemma CleanPercentFailure(data: seq<DetailRecord>)
    ensures Clean(data) == Err(PercentMissing) <==>
      && (forall d :: d in data && d.productId.Some? ==> SizeNumber(d.size).Ok?)
      && HasFourSegmentColumns(data)
      && exists d :: d in data && d.productId.Some? && ScanFibres(d.composition).Err?
  {
    CleanOutcome(data);
    SizesOkIff(data);
    FibresErrIff(data);
  }

  /** A run whose only row has the two-segment example composition ends at line 240:
      `df1` has columns 0 and 1 only, so `df1[2]` raises. */
  lemma TwoSegmentRunFails(d: DetailRecord)
    requires d.productId.Some? && d.size.None? && d.composition == Some(ExampleComposition)
    ensures Clean([d]) == Err(SegmentColumnMissing)
  {
    OneComma(d.composition.value);
    NarrowRunFails(d);
  }

  /** One keyed row with no size and fewer than three commas in its composition. */
  lemma NarrowRunFails(d: DetailRecord)
    requires d.productId.Some? && d.size.None? && d.composition.Some? && multiset(d.composition.value)[','] < 3
    ensures Clean([d]) == Err(SegmentColumnMissing)
  {
    assert !HasFourSegmentColumns([d]) by {
      forall k | 0 <= k < 1 ensures [d][k] == d { }
    }
    SizesOkIff([d]);
    CleanOutcome([d]);
  }

  lemma OneComma(c: string)
    requires c == ExampleComposition
    ensures multiset(c)[','] == 1
  {
    ExampleSplit(c, "Cotton 80%", " Elastane 20%");
    SplitCount(c, ',');
  }

  lemma DropNullKeysStep(data: seq<DetailRecord>)
    requires data != []
    ensures data[0].productId.Some? ==> DropNullKeys(data) == [data[0]] + DropNullKeys(data[1..])
    ensures data[0].productId.None? ==> DropNullKeys(data) == DropNullKeys(data[1..])
  {
  }

  /** A kept head row with no later kept row of its key has no later input row of its key. */
  lemma DropNullKeysHeadLast(data: seq<DetailRecord>)
    requires data != [] && data[0].productId.Some?
    requires forall m :: 0 <= m < |DropNullKeys(data[1..])| ==> DropNullKeys(data[1..])[m].productId != data[0].productId
    ensures LastKeyed(data, 0)
  {
    var t := data[1..];
    forall j | 0 < j < |data| ensures data[j].productId != data[0].productId {
      if data[j].productId.Some? {
        DropNullKeysKeeps(t, j - 1);
        var m :| 0 <= m < |DropNullKeys(t)| && DropNullKeys(t)[m] == data[j];
      }
    }
  }

  lemma LastKeyedSuffix(rows: seq<DetailRecord>, shift: nat, i: nat)
    requires shift <= i < |rows|
    ensures LastKeyed(rows, i) <==> LastKeyed(rows[shift..], i - shift)
  {
    assert forall j :: shift <= j < |rows| ==> rows[j] == rows[shift..][j - shift];
  }

  /** A row kept last in the filtered table was the last row with its key in the input. */
  lemma {:induction false} DropNullKeysLast(data: seq<DetailRecord>, i: nat)
    requires i < |DropNullKeys(data)| && LastKeyed(DropNullKeys(data), i)
    ensures exists n :: 0 <= n < |data| && data[n] == DropNullKeys(data)[i] && LastKeyed(data, n)
  {
    var t := data[1..];
    var rows := DropNullKeys(data);
    DropNullKeysStep(data);
    var shift := if data[0].productId.Some? then 1 else 0;
    assert rows[shift..] == DropNullKeys(t);
    if shift == 1 && i == 0 {
      assert forall m :: 0 <= m < |DropNullKeys(t)| ==> DropNullKeys(t)[m] == rows[m + 1];
      DropNullKeysHeadLast(data);
      assert data[0] == rows[i];
    } else {
      LastKeyedSuffix(rows, shift, i);
      DropNullKeysLast(t, i - shift);
      var n :| 0 <= n < |t| && t[n] == DropNullKeys(t)[i - shift] && LastKeyed(t, n);
      LastKeyedSuffix(data, 1, n + 1);
      assert data[n + 1] == rows[i];
    }
  }

  // ---- the size example ----

  const SizeExampleText := "Model wears size 170cm, waist 32/32"

  /** A `\d{3}cm` token with no digit before it is the one the size number comes from. */
  lemma FirstCmToken(s: string, j: nat)
    requires CmAt(s, j) && forall i :: 0 <= i < j ==> !IsDigit(s[i])
    ensures SizeNumber(Some(s)) == Ok(Some(s[j..j + 3]))
  {
    assert IsDigit(s[j]) by { assert s[j..j + 3][0] == s[j]; }
    forall i | 0 <= i < |s| && CmAt(s, i) ensures j <= i {
      assert s[i..i + 3][0] == s[i];
    }
  }

  /** A ratio token with no ratio token before it is the model size. */
  lemma FirstRatioToken(s: string, j: nat)
    requires RatioAt(s, j) && forall i :: 0 <= i < j ==> !RatioAt(s, i)
    ensures SizeModel(Some(s)) == Some(RatioMatch(s, j))
  {
  }

  lemma NoDigitsBetween(s: string, lo: nat, hi: nat, t: string)
    requires lo <= hi <= |s| && s[lo..hi] == t && forall k :: 0 <= k < |t| ==> !IsDigit(t[k])
    ensures forall i :: lo <= i < hi ==> !IsDigit(s[i])
  {
    assert forall i :: lo <= i < hi ==> s[i] == t[i - lo];
  }

  lemma SizeNumberExample(s: string)
    requires s == SizeExampleText
    ensures SizeNumber(Some(s)) == Ok(Some("170"))
  {
    assert s[17..20] == "170" && s[20..22] == "cm";
    NoDigitsBetween(s, 0, 17, "Model wears size ");
    assert CmAt(s, 17);
    FirstCmToken(s, 17);
  }

  /** A ratio token needs a '/' right after its first digit run, so none starts at or before
      a non-digit that comes before the first '/'. */
  lemma NoRatioBefore(s: string, k: nat, m: nat)
    requires k < m <= |s| && '/' !in s[..m] && !IsDigit(s[k])
    ensures forall i :: 0 <= i <= k ==> !RatioAt(s, i)
  {
  }

  lemma ExampleNoEarlierRatio(s: string)
    requires s == SizeExampleText
    ensures forall i :: 0 <= i < 30 ==> !RatioAt(s, i)
  {
    assert s[..32] == "Model wears size 170cm, waist 32";
    NoRatioBefore(s, 29, 32);
  }

  lemma ExampleRatio(s: string)
    requires s == SizeExampleText
    ensures RatioAt(s, 30) && RatioMatch(s, 30) == "32/32"
  {
    assert |s| == 35 && s[30..32] == "32" && s[33..35] == "32" && s[32] == '/';
    DigitRunEndAcross(s, 30, 2);
    DigitRunEndAcross(s, 33, 2);
    assert s[30..35] == "32/32";
  }

  lemma SizeModelExample(s: string)
    requires s == SizeExampleText
    ensures SizeModel(Some(s)) == Some("32/32")
  {
    ExampleNoEarlierRatio(s);
    ExampleRatio(s);
    FirstRatioToken(s, 30);
  }

  /** The size text from the worked example: 170 cm tall, waist/inseam 32/32. */
  lemma SizeExample(s: string)
    requires s == SizeExampleText
    ensures SizeNumber(Some(s)) == Ok(Some("170"))
    ensures SizeModel(Some(s)) == Some("32/32")
  {
    SizeNumberExample(s);
    SizeModelExample(s);
  }
}
