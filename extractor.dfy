/** The detail extractor `get_product_details` (etl_StarJeans.py:54-151) with the
    fetching and HTML queries taken out: each colour variant's page arrives as the
    texts the script reads from it (headline, price line, description blocks). */
module Extractor {
  import opened Wrappers
  import opened Strings
  import opened Scanners
  import opened Attributes
  import opened VariantKey

  /** Why the script stops. It has no exception handler, so the first failure ends the run. */
  datatype Failure =
    | PriceTokenMissing   // line 99: `re.findall(...)[0]` on a price text without a number
    | NoAttributeText     // line 112: `iloc[0]` of a frame with no rows
    | CompositionMissing  // line 118: `df_composition['Composition']` without that column
    | UnexpectedLabels    // lines 123-126: the labels do not fit the six-column template; a repeated
                          // Composition label already raises at line 118, where `.str` meets a frame
    | NullProductId       // line 142: `x[:-3]` on a NaN key
    | SizeTokenMissing    // line 184: `re.search(r'\d{3}cm', x).group(0)` with no match
    | SegmentColumnMissing // lines 211, 214, 240, 243: `df1[0]` to `df1[3]` when no composition splits that far
    | PercentMissing      // lines 264-267: `re.search(r'\d+', x).group(0)` with no digit
    | NoVariantPages      // line 142: `df_compositions['product_id']` on the empty frame of line 57

  /** One row of the description table, named as after the rename at line 126. */
  datatype AttributeRow = AttributeRow(
    productId: Option<string>,
    composition: Option<string>,
    fit: Option<string>,
    productSafety: Option<string>,
    size: Option<string>,
    sustainable: Option<string>)

  /** One entry of the product page's colour list (lines 71-82). */
  datatype ColorOption = ColorOption(productId: Option<string>, colorName: Option<string>)

  /** What the script reads from a colour variant's page (lines 94-103). */
  datatype VariantPage = VariantPage(headline: string, priceText: string, blocks: seq<string>)

  /** A colour-list entry together with the page fetched for its article code (lines 84-91). */
  datatype ColorVariant = ColorVariant(option: ColorOption, page: VariantPage)

  /** A listed product: its colour list, each entry with its page. */
  datatype ProductPage = ProductPage(variants: seq<ColorVariant>)

  /** A table row with the page's name and price and the colour from the left join. */
  datatype VariantRow = VariantRow(attrs: AttributeRow, productName: string, productPrice: string, colorName: Option<string>)

  /** A row of the extractor's output, columns lower-cased (line 149). */
  datatype DetailRecord = DetailRecord(
    productId: Option<string>,
    composition: Option<string>,
    fit: Option<string>,
    productSafety: Option<string>,
    size: Option<string>,
    sustainable: Option<string>,
    productName: Option<string>,
    productPrice: Option<string>,
    colorName: Option<string>,
    styleId: Option<string>,
    colorId: Option<string>,
    scrapyDatetime: string)

  /** The rows of the description table under the template's column names. */
  function AttributeRows(t: Table): (rows: seq<AttributeRow>)
    requires t.WellFormed()
    ensures |rows| == t.height
    ensures forall i :: 0 <= i < t.height ==>
      && rows[i].productId == Cell(t, ArtNo, i)
      && rows[i].composition == Cell(t, CompositionLabel, i)
      && rows[i].fit == Cell(t, FitLabel, i)
      && rows[i].productSafety == Cell(t, SafetyLabel, i)
      && rows[i].size == Cell(t, SizeLabel, i)
      && rows[i].sustainable == Cell(t, SustainableLabel, i)
  {
    seq(t.height, i requires 0 <= i < t.height =>
      AttributeRow(Cell(t, ArtNo, i), Cell(t, CompositionLabel, i), Cell(t, FitLabel, i),
                   Cell(t, SafetyLabel, i), Cell(t, SizeLabel, i), Cell(t, SustainableLabel, i)))
  }

  /** The colour-list entries whose article code equals `id`, in list order. */
  function Matching(colors: seq<ColorOption>, id: Option<string>): (r: seq<ColorOption>)
    ensures forall k :: 0 <= k < |r| ==> r[k] in colors && r[k].productId == id
    ensures forall c :: c in colors && c.productId == id ==> c in r
    ensures |r| <= |colors|
  {
    if colors == [] then []
    else
      var rest := Matching(colors[1..], id);
      assert forall c :: c in colors ==> c == colors[0] || c in colors[1..];
      if colors[0].productId == id then [colors[0]] + rest else rest
  }

  /** One colour entry matches itself alone, or nothing. */
  lemma MatchingSingle(c: ColorOption, id: Option<string>)
    ensures Matching([c], id) == if c.productId == id then [c] else []
  {
    assert [c][1..] == [];
  }

  /** Matching a concatenated list is matching each part in turn: the entries keep the
      list's order and each appears as often as it is listed. */
  lemma {:induction false} MatchingConcat(a: seq<ColorOption>, b: seq<ColorOption>, id: Option<string>)
    ensures Matching(a + b, id) == Matching(a, id) + Matching(b, id)
  {
    if a == [] {
      assert a + b == b;
    } else {
      assert (a + b)[1..] == a[1..] + b;
      MatchingConcat(a[1..], b, id);
    }
  }

  /** The left merge of one table row with the colour list on `product_id` (line 136):
      one output row per matching entry, or the row with a NaN colour when none matches. */
  function JoinRow(row: AttributeRow, name: string, price: string, colors: seq<ColorOption>): (r: seq<VariantRow>)
    ensures |r| >= 1
    ensures forall k :: 0 <= k < |r| ==> r[k].attrs == row && r[k].productName == name && r[k].productPrice == price
    ensures (forall c :: c in colors ==> c.productId != row.productId) ==> r == [VariantRow(row, name, price, None)]
    ensures (exists c :: c in colors && c.productId == row.productId) ==>
      forall k :: 0 <= k < |r| ==> exists c :: c in colors && c.productId == row.productId && r[k].colorName == c.colorName
    ensures var ms := Matching(colors, row.productId);
      ms != [] ==> |r| == |ms| && forall k :: 0 <= k < |r| ==> r[k].colorName == ms[k].colorName
  {
    var ms := Matching(colors, row.productId);
    if ms == [] then [VariantRow(row, name, price, None)]
    else
      assert ms[0] in colors;
      seq(|ms|, k requires 0 <= k < |ms| => VariantRow(row, name, price, ms[k].colorName))
  }

  function LeftJoin(rows: seq<AttributeRow>, name: string, price: string, colors: seq<ColorOption>): (r: seq<VariantRow>)
    ensures |r| >= |rows|
    ensures forall k :: 0 <= k < |r| ==> r[k].attrs in rows && r[k].productName == name && r[k].productPrice == price
  {
    if rows == [] then []
    else
      var rest := LeftJoin(rows[1..], name, price, colors);
      var head := JoinRow(rows[0], name, price, colors);
      JoinedRows(rows, name, price, head, rest);
      head + rest
  }

  lemma JoinedRows(rows: seq<AttributeRow>, name: string, price: string, head: seq<VariantRow>, rest: seq<VariantRow>)
    requires rows != [] && |head| >= 1 && |rest| >= |rows| - 1
    requires forall k :: 0 <= k < |head| ==> head[k].attrs == rows[0] && head[k].productName == name && head[k].productPrice == price
    requires forall k :: 0 <= k < |rest| ==> rest[k].attrs in rows[1..] && rest[k].productName == name && rest[k].productPrice == price
    ensures forall k :: 0 <= k < |head + rest| ==>
      (head + rest)[k].attrs in rows && (head + rest)[k].productName == name && (head + rest)[k].productPrice == price
  {
    var r := head + rest;
    forall k | 0 <= k < |r| ensures r[k].attrs in rows && r[k].productName == name && r[k].productPrice == price {
      if k >= |head| {
        assert r[k] == rest[k - |head|];
        assert r[k].attrs in rows[1..];
      }
    }
  }

  /** Merging concatenated rows concatenates their merges, so the output keeps the input order. */
  lemma {:induction false} LeftJoinConcat(a: seq<AttributeRow>, b: seq<AttributeRow>, name: string, price: string, colors: seq<ColorOption>)
    ensures LeftJoin(a + b, name, price, colors) == LeftJoin(a, name, price, colors) + LeftJoin(b, name, price, colors)
    decreases |a|
  {
    if a == [] {
      assert a + b == b;
    } else {
      var t := a[1..];
      assert (a + b)[1..] == t + b;
      LeftJoinConcat(t, b, name, price, colors);
      ConcatAssoc(JoinRow(a[0], name, price, colors), LeftJoin(t, name, price, colors), LeftJoin(b, name, price, colors));
    }
  }

  /** Every input row is merged in place: its output rows come after those of the rows
      before it and before those of the rows after it. */
  lemma LeftJoinAt(rows: seq<AttributeRow>, i: nat, name: string, price: string, colors: seq<ColorOption>)
    requires i < |rows|
    ensures LeftJoin(rows, name, price, colors) ==
      LeftJoin(rows[..i], name, price, colors) + JoinRow(rows[i], name, price, colors) + LeftJoin(rows[i + 1..], name, price, colors)
  {
    var tail := [rows[i]] + rows[i + 1..];
    assert rows == rows[..i] + tail;
    LeftJoinConcat(rows[..i], tail, name, price, colors);
    assert tail[1..] == rows[i + 1..];
  }

  /** Article codes in the colour list are pairwise distinct. */
  predicate DistinctCodes(colors: seq<ColorOption>) {
    forall i, j :: 0 <= i < j < |colors| ==> colors[i].productId != colors[j].productId
  }

  /** The colour name listed for `id`, if any. */
  function ColorFor(colors: seq<ColorOption>, id: Option<string>): Option<string> {
    if colors == [] then None
    else if colors[0].productId == id then colors[0].colorName
    else ColorFor(colors[1..], id)
  }

  lemma {:induction false} MatchingDistinct(colors: seq<ColorOption>, id: Option<string>)
    requires DistinctCodes(colors)
    ensures var ms := Matching(colors, id);
      && (ms == [] <==> forall c :: c in colors ==> c.productId != id)
      && (ms == [] ==> ColorFor(colors, id).None?)
      && (ms != [] ==> ms == [ColorOption(id, ColorFor(colors, id))])
  {
    if colors != [] {
      assert DistinctCodes(colors[1..]) by {
        forall i, j | 0 <= i < j < |colors[1..]| ensures colors[1..][i].productId != colors[1..][j].productId {
          assert colors[1..][i] == colors[i + 1] && colors[1..][j] == colors[j + 1];
        }
      }
      MatchingDistinct(colors[1..], id);
      if colors[0].productId == id {
        assert forall c :: c in colors[1..] ==> c.productId != id by {
          forall c | c in colors[1..] ensures c.productId != id {
            var j :| 0 <= j < |colors[1..]| && colors[1..][j] == c;
            assert colors[j + 1] == c;
          }
        }
      }
    }
  }

  /** With distinct article codes in the colour list (the usual case) the left merge keeps
      the table's rows one for one, each with the colour listed for its code or NaN. */
  lemma {:induction false} LeftJoinDistinct(rows: seq<AttributeRow>, name: string, price: string, colors: seq<ColorOption>)
    requires DistinctCodes(colors)
    ensures var r := LeftJoin(rows, name, price, colors);
      |r| == |rows| &&
      forall k :: 0 <= k < |rows| ==> r[k] == VariantRow(rows[k], name, price, ColorFor(colors, rows[k].productId))
  {
    if rows != [] {
      LeftJoinDistinct(rows[1..], name, price, colors);
      JoinRowDistinct(rows[0], name, price, colors);
      LeftJoinStep(rows, name, price, colors);
      var rest := LeftJoin(rows[1..], name, price, colors);
      var head := [VariantRow(rows[0], name, price, ColorFor(colors, rows[0].productId))];
      assert forall k :: 1 <= k < |rows| ==> (head + rest)[k] == rest[k - 1];
    }
  }

  lemma LeftJoinStep(rows: seq<AttributeRow>, name: string, price: string, colors: seq<ColorOption>)
    requires rows != []
    ensures LeftJoin(rows, name, price, colors) == JoinRow(rows[0], name, price, colors) + LeftJoin(rows[1..], name, price, colors)
  {
  }

  /** With distinct article codes, a row meets at most one colour entry. */
  lemma JoinRowDistinct(row: AttributeRow, name: string, price: string, colors: seq<ColorOption>)
    requires DistinctCodes(colors)
    ensures JoinRow(row, name, price, colors) == [VariantRow(row, name, price, ColorFor(colors, row.productId))]
  {
    MatchingDistinct(colors, row.productId);
  }

  function Options(vs: seq<ColorVariant>): (r: seq<ColorOption>)
    ensures |r| == |vs| && forall k :: 0 <= k < |vs| ==> r[k] == vs[k].option
  {
    seq(|vs|, k requires 0 <= k < |vs| => vs[k].option)
  }

  /** Lines 93-136 for one colour variant: price token, description table, marker removal,
      template columns, name and price on every row, left merge with the colour list. */
  function VariantRows(page: VariantPage, colors: seq<ColorOption>): (r: Result<seq<VariantRow>, Failure>)
    ensures SearchPrice(page.priceText).None? ==> r == Err(PriceTokenMissing)
    ensures SearchPrice(page.priceText).Some? && Tabulate(page.blocks).None? ==> r == Err(NoAttributeText)
    ensures SearchPrice(page.priceText).Some? && Tabulate(page.blocks).Some? ==>
      var labels := Tabulate(page.blocks).value.labels;
      && (Some(CompositionLabel) !in labels ==> r == Err(CompositionMissing))
      && (Some(CompositionLabel) in labels && !LabelsFit(labels) ==> r == Err(UnexpectedLabels))
      && (Some(CompositionLabel) in labels && LabelsFit(labels) ==> r.Ok?)
    ensures r.Ok? ==> SearchPrice(page.priceText).Some? && Tabulate(page.blocks).Some?
    ensures r.Ok? ==> forall k :: 0 <= k < |r.value| ==>
      r.value[k].productName == page.headline && r.value[k].productPrice == SearchPrice(page.priceText).value
  {
    match SearchPrice(page.priceText)
    case None => Err(PriceTokenMissing)
    case Some(price) =>
      match Tabulate(page.blocks)
      case None => Err(NoAttributeText)
      case Some(t) =>
        if Some(CompositionLabel) !in t.labels then Err(CompositionMissing)
        else if !LabelsFit(t.labels) then Err(UnexpectedLabels)
        else Ok(LeftJoin(AttributeRows(StripComposition(t)), page.headline, price, colors))
  }

  /** Row `k` of the table under the template's names: each field is the cell of its label. */
  predicate FromTable(t: Table, k: nat, a: AttributeRow)
    requires t.WellFormed() && k < t.height
  {
    && a.productId == Cell(t, ArtNo, k)
    && a.composition == (match Cell(t, CompositionLabel, k) case None => None case Some(s) => Some(RemoveMarkers(s)))
    && a.fit == Cell(t, FitLabel, k)
    && a.productSafety == Cell(t, SafetyLabel, k)
    && a.size == Cell(t, SizeLabel, k)
    && a.sustainable == Cell(t, SustainableLabel, k)
  }

  /** With distinct article codes, a page's rows are its table's rows in order: the
      composition without its markers, every other field its labelled cell, the page's
      headline and price, and the colour listed for the row's code. */
  lemma VariantRowsContent(page: VariantPage, colors: seq<ColorOption>)
    requires DistinctCodes(colors) && VariantRows(page, colors).Ok?
    ensures var t := Tabulate(page.blocks).value;
      var rows := VariantRows(page, colors).value;
      && LabelsFit(t.labels)
      && |rows| == t.height
      && forall k :: 0 <= k < t.height ==>
        && FromTable(t, k, rows[k].attrs)
        && rows[k].productName == page.headline
        && rows[k].productPrice == SearchPrice(page.priceText).value
        && rows[k].colorName == ColorFor(colors, rows[k].attrs.productId)
  {
    var t := Tabulate(page.blocks).value;
    var attrs := AttributeRows(StripComposition(t));
    var rows := VariantRows(page, colors).value;
    LeftJoinDistinct(attrs, page.headline, SearchPrice(page.priceText).value, colors);
    forall k | 0 <= k < t.height ensures FromTable(t, k, rows[k].attrs) {
      StripCell(t, ArtNo, k);
      StripCell(t, CompositionLabel, k);
      StripCell(t, FitLabel, k);
      StripCell(t, SafetyLabel, k);
      StripCell(t, SizeLabel, k);
      StripCell(t, SustainableLabel, k);
    }
  }

  /** The failures a variant page can raise (lines 99-126). */
  predicate PageFailure(e: Failure) {
    e.PriceTokenMissing? || e.NoAttributeText? || e.CompositionMissing? || e.UnexpectedLabels?
  }

  /** Inner loop (lines 84-139) over the first |vs| colour variants of a product whose
      full colour list is `colors`: rows concatenated in order, the first failure kept. */
  function GatherVariants(vs: seq<ColorVariant>, colors: seq<ColorOption>): (r: Result<seq<VariantRow>, Failure>)
    ensures r.Err? ==> PageFailure(r.error)
  {
    if vs == [] then Ok([])
    else
      match GatherVariants(vs[..|vs| - 1], colors)
      case Err(e) => Err(e)
      case Ok(prev) =>
        match VariantRows(vs[|vs| - 1].page, colors)
        case Err(e) => Err(e)
        case Ok(cur) => Ok(prev + cur)
  }

  /** Outer loop (lines 60-139) over the listed products. */
  function GatherProducts(ps: seq<ProductPage>): (r: Result<seq<VariantRow>, Failure>)
    ensures r.Err? ==> PageFailure(r.error)
  {
    if ps == [] then Ok([])
    else
      match GatherProducts(ps[..|ps| - 1])
      case Err(e) => Err(e)
      case Ok(prev) =>
        var last := ps[|ps| - 1].variants;
        match GatherVariants(last, Options(last))
        case Err(e) => Err(e)
        case Ok(cur) => Ok(prev + cur)
  }

  /** Lines 142-146 for one row: the key split into style and colour, and the run's timestamp. */
  function KeyRow(v: VariantRow, timestamp: string): (r: Result<DetailRecord, Failure>)
    ensures v.attrs.productId.None? <==> r == Err(NullProductId)
    ensures r.Ok? ==> var d := r.value;
      && d.productId == v.attrs.productId
      && d.styleId.Some? && d.colorId.Some?
      && d.styleId.value + d.colorId.value == d.productId.value
      && d.colorId.value == ColorId(d.productId.value)
      && d.composition == v.attrs.composition && d.size == v.attrs.size && d.fit == v.attrs.fit
      && d.productSafety == v.attrs.productSafety && d.sustainable == v.attrs.sustainable
      && d.productName == Some(v.productName) && d.productPrice == Some(v.productPrice)
      && d.colorName == v.colorName && d.scrapyDatetime == timestamp
  {
    match v.attrs.productId
    case None => Err(NullProductId)
    case Some(id) =>
      KeyRejoins(id);
      var a := v.attrs;
      Ok(DetailRecord(a.productId, a.composition, a.fit, a.productSafety, a.size, a.sustainable,
                      Some(v.productName), Some(v.productPrice), v.colorName,
                      Some(StyleId(id)), Some(ColorId(id)), timestamp))
  }

  function AddVariantKeys(rows: seq<VariantRow>, timestamp: string): (r: Result<seq<DetailRecord>, Failure>)
    ensures r.Ok? ==> |r.value| == |rows| && forall k :: 0 <= k < |rows| ==> KeyRow(rows[k], timestamp) == Ok(r.value[k])
    ensures r.Err? <==> exists k :: 0 <= k < |rows| && rows[k].attrs.productId.None?
  {
    var r := AllOk(seq(|rows|, k requires 0 <= k < |rows| => KeyRow(rows[k], timestamp)));
    assert r.Err? ==> exists k :: 0 <= k < |rows| && rows[k].attrs.productId.None?;
    r
  }

  /** No listed product has a colour variant, so the loops read no page. */
  predicate NoVariants(ps: seq<ProductPage>) {
    forall k :: 0 <= k < |ps| ==> ps[k].variants == []
  }

  /** `get_product_details` as a whole, `datetime.now()` passed in as `timestamp`. When the
      loops read no page the frame of line 57 has no columns and line 142 raises. */
  function ExtractDetails(ps: seq<ProductPage>, timestamp: string): (r: Result<seq<DetailRecord>, Failure>)
    ensures r.Err? ==> PageFailure(r.error) || r.error == NullProductId || r.error == NoVariantPages
    ensures r.Ok? ==> exists k :: 0 <= k < |ps| && ps[k].variants != []
  {
    match GatherProducts(ps)
    case Err(e) => Err(e)
    case Ok(rows) => if NoVariants(ps) then Err(NoVariantPages) else AddVariantKeys(rows, timestamp)
  }

  /** Some product before the `p`-th has a colour variant. */
  predicate VariantBefore(ps: seq<ProductPage>, p: nat) {
    exists k :: 0 <= k < p && k < |ps| && ps[k].variants != []
  }

  lemma VariantBeforeStep(ps: seq<ProductPage>, p: nat)
    requires p < |ps|
    ensures VariantBefore(ps, p + 1) <==> VariantBefore(ps, p) || ps[p].variants != []
  {
  }

  /** What the extraction makes of the gathered rows. */
  lemma ExtractGathered(ps: seq<ProductPage>, timestamp: string, rows: seq<VariantRow>)
    requires GatherProducts(ps) == Ok(rows)
    ensures ExtractDetails(ps, timestamp) ==
      if VariantBefore(ps, |ps|) then AddVariantKeys(rows, timestamp) else Err(NoVariantPages)
  {
  }

  lemma {:induction false} GatherNoVariants(ps: seq<ProductPage>)
    requires NoVariants(ps)
    ensures GatherProducts(ps) == Ok([])
    decreases |ps|
  {
    if ps != [] {
      var init := ps[..|ps| - 1];
      assert forall k :: 0 <= k < |init| ==> init[k] == ps[k];
      GatherNoVariants(init);
      var none: seq<VariantRow> := [];
      assert none + none == none;
      assert GatherProducts(ps) == Ok(none + none);
    }
  }

  /** The extraction succeeds only when some product has a colour variant; a run whose
      products list none ends with the failure at line 142. */
  lemma ExtractNeedsVariant(ps: seq<ProductPage>, timestamp: string)
    ensures ExtractDetails(ps, timestamp).Ok? ==> exists p :: p in ps && p.variants != []
    ensures (forall p :: p in ps ==> p.variants == []) ==> ExtractDetails(ps, timestamp) == Err(NoVariantPages)
  {
    if NoVariants(ps) {
      GatherNoVariants(ps);
    } else {
      var k :| 0 <= k < |ps| && ps[k].variants != [];
      assert ps[k] in ps;
    }
  }

  /** Every extracted row has a key, and the key is its style id followed by its colour id,
      the colour id being the key's last three characters. */
  lemma ExtractedKeysSplit(ps: seq<ProductPage>, timestamp: string)
    requires ExtractDetails(ps, timestamp).Ok?
    ensures forall d :: d in ExtractDetails(ps, timestamp).value ==>
      d.productId.Some? && d.styleId.Some? && d.colorId.Some? &&
      d.styleId.value + d.colorId.value == d.productId.value &&
      |d.colorId.value| == (if |d.productId.value| < 3 then |d.productId.value| else 3)
  {
    var rows := GatherProducts(ps).value;
    var out := ExtractDetails(ps, timestamp).value;
    forall d | d in out
      ensures d.productId.Some? && d.styleId.Some? && d.colorId.Some? &&
        d.styleId.value + d.colorId.value == d.productId.value &&
        |d.colorId.value| == (if |d.productId.value| < 3 then |d.productId.value| else 3)
    {
      var k :| 0 <= k < |out| && out[k] == d;
      assert KeyRow(rows[k], timestamp) == Ok(d);
    }
  }

  lemma {:induction false} GatherVariantsErrPersists(vs: seq<ColorVariant>, colors: seq<ColorOption>, n: nat)
    requires n <= |vs| && GatherVariants(vs[..n], colors).Err?
    ensures GatherVariants(vs, colors) == GatherVariants(vs[..n], colors)
    decreases |vs| - n
  {
    if n < |vs| {
      assert vs[..n + 1][..n] == vs[..n];
      GatherVariantsErrPersists(vs, colors, n + 1);
    } else {
      assert vs[..n] == vs;
    }
  }

  lemma {:induction false} GatherProductsErrPersists(ps: seq<ProductPage>, n: nat)
    requires n <= |ps| && GatherProducts(ps[..n]).Err?
    ensures GatherProducts(ps) == GatherProducts(ps[..n])
    decreases |ps| - n
  {
    if n < |ps| {
      assert ps[..n + 1][..n] == ps[..n];
      GatherProductsErrPersists(ps, n + 1);
    } else {
      assert ps[..n] == ps;
    }
  }

  lemma GatherVariantsStep(vs: seq<ColorVariant>, colors: seq<ColorOption>, q: nat)
    requires q < |vs| && GatherVariants(vs[..q], colors).Ok?
    ensures GatherVariants(vs[..q + 1], colors) ==
      match VariantRows(vs[q].page, colors)
      case Err(e) => Err(e)
      case Ok(cur) => Ok(GatherVariants(vs[..q], colors).value + cur)
  {
    assert vs[..q + 1][..q] == vs[..q];
  }

  lemma GatherProductsStep(ps: seq<ProductPage>, p: nat)
    requires p < |ps| && GatherProducts(ps[..p]).Ok?
    ensures GatherProducts(ps[..p + 1]) ==
      match GatherVariants(ps[p].variants, Options(ps[p].variants))
      case Err(e) => Err(e)
      case Ok(cur) => Ok(GatherProducts(ps[..p]).value + cur)
  {
    assert ps[..p + 1][..p] == ps[..p];
  }

  /** A variant that fails ends the whole extraction with its failure. */
  lemma VariantFailureEndsRun(ps: seq<ProductPage>, p: nat, q: nat, timestamp: string)
    requires p < |ps| && q < |ps[p].variants|
    requires GatherProducts(ps[..p]).Ok?
    requires GatherVariants(ps[p].variants[..q], Options(ps[p].variants)).Ok?
    requires VariantRows(ps[p].variants[q].page, Options(ps[p].variants)).Err?
    ensures ExtractDetails(ps, timestamp) == Err(VariantRows(ps[p].variants[q].page, Options(ps[p].variants)).error)
  {
    var vs := ps[p].variants;
    var colors := Options(vs);
    GatherVariantsStep(vs, colors, q);
    GatherVariantsErrPersists(vs, colors, q + 1);
    GatherProductsStep(ps, p);
    GatherProductsErrPersists(ps, p + 1);
  }

  lemma ConcatAssoc<T>(a: seq<T>, b: seq<T>, c: seq<T>)
    ensures (a + b) + c == a + (b + c)
  {
  }

  /** The inner loop (lines 84-139) for one product: each colour variant's rows appended, in
      order, to the table built so far, or the first variant's failure. */
  method AppendVariants(acc: seq<VariantRow>, vs: seq<ColorVariant>) returns (r: Result<seq<VariantRow>, Failure>)
    ensures r == match GatherVariants(vs, Options(vs)) case Err(e) => Err(e) case Ok(rows) => Ok(acc + rows)
  {
    var colors := Options(vs);
    var compositions := acc;
    var q := 0;
    while q < |vs|
      invariant 0 <= q <= |vs|
      invariant GatherVariants(vs[..q], colors).Ok?
      invariant compositions == acc + GatherVariants(vs[..q], colors).value
    {
      var rows := VariantRows(vs[q].page, colors);
      GatherVariantsStep(vs, colors, q);
      if rows.Err? {
        GatherVariantsErrPersists(vs, colors, q + 1);
        return Err(rows.error);
      }
      ConcatAssoc(acc, GatherVariants(vs[..q], colors).value, rows.value);
      compositions := compositions + rows.value;
      q := q + 1;
    }
    assert vs[..q] == vs;
    r := Ok(compositions);
  }

  /** The nested loops of lines 60-139 followed by lines 142-146: rows are appended to one
      growing table, variant after variant, and the key split runs once at the end, on a
      table that has columns only when some variant page was read. */
  method CollectDetails(ps: seq<ProductPage>, timestamp: string) returns (r: Result<seq<DetailRecord>, Failure>)
    ensures r == ExtractDetails(ps, timestamp)
  {
    var compositions: seq<VariantRow> := [];
    var visited := false;
    var p := 0;
    while p < |ps|
      invariant 0 <= p <= |ps|
      invariant GatherProducts(ps[..p]) == Ok(compositions)
      invariant visited <==> VariantBefore(ps, p)
    {
      var vs := ps[p].variants;
      var step := AppendVariants(compositions, vs);
      GatherProductsStep(ps, p);
      VariantBeforeStep(ps, p);
      if step.Err? {
        GatherProductsErrPersists(ps, p + 1);
        return Err(step.error);
      }
      compositions := step.value;
      visited := visited || vs != [];
      p := p + 1;
    }
    assert ps[..p] == ps;
    ExtractGathered(ps, timestamp, compositions);
    if !visited {
      r := Err(NoVariantPages);
    } else {
      r := AddVariantKeys(compositions, timestamp);
    }
  }
}
