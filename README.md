# StarJeans ETL: the record transformations, modelled in Dafny

The StarJeans script (`etl_StarJeans.py`) scrapes jeans listings from a retailer's web
shop. It reads each product's colour variants, turns their description blocks into
attribute rows (`get_product_details`), and then normalises those rows (`data_cleaning`)
before storing them. This project models the deterministic part of that pipeline and
proves what it does:

- `wrappers.dfy` (module `Wrappers`): `Option` stands for a pandas NaN and `Result` for a
  raised exception. `AllOk` collects a column of results, and the first failure wins.
- `strings.dfy` (module `Strings`): leftmost search, `str.split`, `'sep'.join`,
  `str.replace` and ASCII `lower` on strings.
- `scanners.dfy` (module `Scanners`): hand-written matchers for the regular expressions
  the script uses. These are `\d+\.?\d+` (price), `\d{3}cm` and `\d+` (size number),
  and `\d+/\d+` (size model). Each finds the leftmost match, and `+` is greedy.
- `variant_key.dfy` (module `VariantKey`): the split of an article code into `style_id`
  (all but the last three characters) and `color_id` (the last three).
- `attributes.dfy` (module `Attributes`): the description blocks of one page.
  - Each block is split on newlines and empty pieces are dropped.
  - The first piece is the column label and the rest are values.
  - Columns are padded and forward-filled.
  - The layer markers are removed from the Composition column.
  - Cells are looked up by label.
- `extractor.dfy` (module `Extractor`): `get_product_details` without the fetching.
  - Each colour variant arrives as the texts the script reads from its page.
  - The rows of a page are left-joined to the product's colour list.
  - Rows accumulate over variants and products in the imperative loop `CollectDetails`,
    which is proved equal to the recursive definition `ExtractDetails`.
  - Every row gets its variant key and the scrape timestamp.
- `cleaning.dfy` (module `Cleaning`): `data_cleaning` from start to end.
  - Rows without a key are dropped.
  - Name, colour and fit are normalised.
  - The size number and size model are parsed.
  - The positional fibre scan runs over the comma-split composition. The first digit run
    of the chosen segment is read as a whole percentage.
  - Fibre columns are aggregated per key with a maximum and a 0 default.
  - The raw columns are dropped. `CleanRecord` has no `size`, `product_safety` or
    `composition` field.
  - Only the last row of each key is kept.

The script has no exception handler, so every exception ends the run. The model follows
the code here: each place that raises is a `Failure` value (see `Extractor.Failure`), and
the first failure in program order is the result.
- A NaN key raises at line 142 (`x[:-3]`). This is `NullProductId`.
- A parse failure raises at line 99, 184 or 264-267.
- A run that reads no colour variant page leaves `df_compositions` as the empty frame of
  line 57, and `df_compositions['product_id']` raises at line 142. This is
  `NoVariantPages` (`Extractor.ExtractNeedsVariant`).
- A run in which no kept composition splits into four comma pieces lacks some of the
  columns `df1[0]` to `df1[3]`. It raises at line 211, 214, 240 or 243, whichever column is
  missing first. This is `SegmentColumnMissing` (`Cleaning.TwoSegmentRunFails`).

## Model

Functions that only compute a value have no row of their own. The rows name the lemmas
that state what they compute:
- `Strings.Split` and `Strings.Join`: JoinSplit, SplitPiecesFree and SplitCount.
- `Attributes.PadColumn` and `Attributes.FFill`: TabulateCells and FFillAt.
- `Cleaning.HasFourSegmentColumns`: FourColumns, NarrowRunFails and TwoSegmentRunFails.
- `Cleaning.FibreText` and `Cleaning.ScanFibre`: FibreSegments, ChooseSegment and Percent.
- `Cleaning.FibreMax`: FibreMaxBounds and FibreMaxIsGroupMax.
- `Cleaning.Assemble` and `Cleaning.AssembleAll`: AssembledRow.
- `Cleaning.DedupKeepLast`: DedupSubset, DedupKeysUnique, DedupSurvivorsAreLast and
  DedupKeepsLastRows.

| member | source | states |
|---|---|---|
| Wrappers.AllOk | etl_StarJeans.py:184-185 | applying a parse to a column: success gives every row's value in order; failure is the first failing row's failure, with every earlier row parsed |
| Strings.ReplaceAll | etl_StarJeans.py:118-120 | text without the pattern is returned unchanged; every output character comes from the input or the replacement; deleting a pattern that occurs makes the text strictly shorter |
| Strings.ReplaceIsJoinSplit | etl_StarJeans.py:118-120 | replacing every occurrence equals splitting on the pattern and joining with the replacement (how `str.replace` is specified) |
| Strings.JoinSplit | etl_StarJeans.py:205 | joining the pieces of `s.split(sep)` with `sep` gives back `s` |
| Strings.SplitPiecesFree | etl_StarJeans.py:205 | no piece of a split contains the separator |
| Strings.Find | etl_StarJeans.py:211 | the leftmost occurrence of a pattern, or none when the text does not contain it (`str.contains`) |
| Strings.Lower | etl_StarJeans.py:163 | lower-casing keeps the length, maps each upper-case letter to its lower-case letter, leaves every other character alone and leaves no upper-case letter |
| Strings.LowerIdempotent | etl_StarJeans.py:163 | lower-casing twice is the same as lower-casing once |
| Scanners.FirstDigitRun | etl_StarJeans.py:185 | `\d+` search: none exactly when the text has no digit; otherwise the whole digit run starting at the first digit |
| Scanners.CmSearch | etl_StarJeans.py:184 | `\d{3}cm` search: the leftmost position with three digits followed by `cm`, none exactly when no position has one |
| Scanners.DigitsOfCmToken | etl_StarJeans.py:184-185 | `\d+` applied to a `\d{3}cm` match gives its three digits |
| Scanners.RatioAtIsOccurrence | etl_StarJeans.py:188 | a `\d+/\d+` match starts at `j` exactly when some digits/digits token occurs there |
| Scanners.SearchRatio | etl_StarJeans.py:188 | `\d+/\d+` search: none exactly when no position starts a match; otherwise the greedy match at the leftmost such position |
| Scanners.PriceAtIsOccurrence | etl_StarJeans.py:99 | a `\d+\.?\d+` match starts at `j` exactly when some price token (two or more digits, or digits-point-digits) occurs there |
| Scanners.PriceMatch | etl_StarJeans.py:99 | the greedy match at a start position is a price token occurring there, and it is not followed by a digit |
| Scanners.SearchPrice | etl_StarJeans.py:99 | the first element of `re.findall(r'\d+\.?\d+', ...)`: the match at the leftmost start, none exactly when there is no match |
| VariantKey.StyleId | etl_StarJeans.py:142 | `x[:-3]`: a prefix of the code, three characters shorter (empty for codes of three characters or fewer) |
| VariantKey.ColorId | etl_StarJeans.py:143 | `x[-3:]`: three characters, or the whole code when it is shorter |
| VariantKey.KeyRejoins | etl_StarJeans.py:142-143 | `style_id + color_id == product_id`, and `color_id` is the last min(3, len) characters |
| VariantKey.KeyPartsInjective | etl_StarJeans.py:142-143 | two codes with the same style and colour ids are the same code |
| Attributes.NonEmpty | etl_StarJeans.py:106 | `filter(None, ...)` keeps exactly the non-empty pieces, as a membership statement |
| Attributes.NonEmptyConcat | etl_StarJeans.py:106 | filtering a concatenation is the concatenation of the filtered parts, so order and repetitions are kept |
| Attributes.Pieces | etl_StarJeans.py:106 | every piece is non-empty and free of newlines; a text without a newline is its only piece, or has none when empty |
| Attributes.PiecesLine | etl_StarJeans.py:106 | the pieces of `line + "\n" + rest` are the line (unless it is empty) followed by the pieces of the rest, in order |
| Attributes.FFillAt | etl_StarJeans.py:115 | forward fill: cell `i` is the last present value at or above `i` |
| Attributes.MaxLen | etl_StarJeans.py:109 | the length of the longest block: no block is longer, and some block has that length unless it is 0 |
| Attributes.Tabulate | etl_StarJeans.py:106-115 | no table exactly when every block is empty; otherwise one labelled column per block |
| Attributes.TabulatedCell | etl_StarJeans.py:106-115 | looking up a block's label in the table gives, at row i, value i of that block or its forward-filled last value |
| Attributes.TabulateCells | etl_StarJeans.py:106-115 | the labels are the first pieces of the blocks; there are as many rows as the longest block has values; cell (i, b) is value i of block b if it exists, else the block's last value; a label-only block stays null |
| Attributes.RemoveMarkers | etl_StarJeans.py:118-120 | a composition without any of the three markers is unchanged; one with a marker gets shorter |
| Attributes.RemoveMarkersBySplit | etl_StarJeans.py:118-120 | the removal deletes every `Pocket lining: `, then every `Shell: `, then every `Lining: ` |
| Attributes.ColumnIndex | etl_StarJeans.py:123-126 | finds a column with the given label, none when no column has it |
| Attributes.Cell | etl_StarJeans.py:123-126 | a missing column reads as NaN; otherwise the cell of the column with that label |
| Attributes.StripComposition | etl_StarJeans.py:118-120 | only the Composition column changes, and each present cell has its markers removed |
| Attributes.StripCell | etl_StarJeans.py:118-120 | after the marker removal, a Composition cell is the old cell with its markers removed and every other cell is unchanged |
| Extractor.AttributeRows | etl_StarJeans.py:123-126 | one row per table row, and each of the six fields (code, composition, fit, safety, size, sustainable materials) is the cell of its label |
| Extractor.Matching | etl_StarJeans.py:136 | every entry returned has the row's article code, and every such entry is returned |
| Extractor.MatchingSingle | etl_StarJeans.py:136 | a one-entry colour list matches itself when the codes agree, and nothing otherwise |
| Extractor.MatchingConcat | etl_StarJeans.py:136 | matching a concatenated colour list is matching each part in turn, so the matches keep the list's order and repetitions |
| Extractor.JoinRow | etl_StarJeans.py:136 | left merge of one row: a row without a match is kept once with a null colour; a matched row gets exactly one row per matching entry, in the colour list's order, each with that entry's colour |
| Extractor.LeftJoin | etl_StarJeans.py:136 | at least one output row per input row, each carrying an input row with the page's name and price |
| Extractor.LeftJoinConcat | etl_StarJeans.py:136 | merging a concatenation of rows is the concatenation of the merges, so the merge keeps the input order |
| Extractor.LeftJoinAt | etl_StarJeans.py:136 | the merge of row i sits between the merges of the rows before and after it |
| Extractor.MatchingDistinct | etl_StarJeans.py:136 | with distinct article codes, a row matches at most one colour entry |
| Extractor.LeftJoinDistinct | etl_StarJeans.py:136 | with distinct article codes, the merge keeps the rows in order, one for one, each with its colour or NaN |
| Extractor.Options | etl_StarJeans.py:81-82 | the colour list holds each variant's code and colour, in page order |
| Extractor.VariantRows | etl_StarJeans.py:99-136 | a page without a price token fails with `PriceTokenMissing`; with a price, no description text fails with `NoAttributeText`, a table without a Composition label with `CompositionMissing`, labels outside the six or repeated with `UnexpectedLabels`, and otherwise the page succeeds; every row of a page that succeeds carries the headline and the first price token |
| Extractor.VariantRowsContent | etl_StarJeans.py:99-136 | with distinct article codes, a successful page has one row per table row, each field is that row's cell (Composition with markers removed), and the colour is the one listed for its code |
| Extractor.KeyRow | etl_StarJeans.py:142-146 | a NaN key is the failure; otherwise style and colour ids rejoin to the key, and every other column (composition, fit, size, product safety, sustainable materials, name, price, colour) and the timestamp are carried over |
| Extractor.AddVariantKeys | etl_StarJeans.py:142-146 | fails exactly when some row has a NaN key; otherwise each output row is its input row with keys added |
| Extractor.ExtractedKeysSplit | etl_StarJeans.py:142-143 | every extracted row has a key, and its style and colour ids rejoin to it |
| Extractor.GatherVariants | etl_StarJeans.py:84-139 | the inner loop as a recursive definition; it can only fail with a page failure (lines 99-126) |
| Extractor.GatherProducts | etl_StarJeans.py:60-139 | the outer loop as a recursive definition; it can only fail with a page failure (lines 99-126) |
| Extractor.ExtractDetails | etl_StarJeans.py:54-151 | `get_product_details` without the fetching: a success read some variant page, and a failure is a page failure, a NaN key or `NoVariantPages` |
| Extractor.GatherVariantsErrPersists | etl_StarJeans.py:84-139 | once a colour variant fails, later variants do not change the outcome |
| Extractor.GatherProductsErrPersists | etl_StarJeans.py:60-139 | once a product fails, later products do not change the outcome |
| Extractor.VariantFailureEndsRun | etl_StarJeans.py:60-151 | the first failing variant's failure is the result of the whole extraction |
| Extractor.AppendVariants | etl_StarJeans.py:84-139 | the inner loop appends each colour variant's rows, in order, to the table built so far, or returns the first variant's failure |
| Extractor.CollectDetails | etl_StarJeans.py:57-151 | the nested accumulation loop computes the extraction: rows of every variant of every product in order, or the first failure, or `NoVariantPages` when no variant page was read |
| Extractor.ExtractNeedsVariant | etl_StarJeans.py:57-142 | a successful extraction read at least one variant page; when no product has a variant the result is `NoVariantPages` |
| Cleaning.Clean | etl_StarJeans.py:155-280 | `data_cleaning`: it can only fail with `SizeTokenMissing`, `SegmentColumnMissing` or `PercentMissing`; its outcome is stated by the Clean rows below |
| Cleaning.CleanName | etl_StarJeans.py:160-163 | a normalised name has no space, tab, newline or upper-case letter |
| Cleaning.NormalizeName | etl_StarJeans.py:160-163 | NaN stays NaN; a present name has no space, tab or newline |
| Cleaning.CleanNameIdempotent | etl_StarJeans.py:160-163 | normalising a name twice is the same as once |
| Cleaning.NormalizeNameIdempotent | etl_StarJeans.py:160-163 | normalising the name column twice is the same as once |
| Cleaning.CleanColor | etl_StarJeans.py:178 | same length, no space, no upper-case letter |
| Cleaning.CleanFit | etl_StarJeans.py:181 | same length, no space, no upper-case letter |
| Cleaning.NormalizeColor | etl_StarJeans.py:178 | NaN colour stays NaN; a present colour keeps its length and loses its spaces |
| Cleaning.NormalizeFit | etl_StarJeans.py:181 | NaN fit stays NaN; a present fit keeps its length and loses its spaces |
| Cleaning.ColorAndFitPointwise | etl_StarJeans.py:178-181 | colour and fit are normalised alike: each space becomes `_` and every other character is lower-cased |
| Cleaning.ColorAndFitIdempotent | etl_StarJeans.py:178-181 | normalising a colour or fit twice is the same as once |
| Cleaning.SizeNumber | etl_StarJeans.py:184-185 | NaN gives NaN; a size text fails exactly when it has no `\d{3}cm` token; otherwise the three digits of the leftmost token |
| Cleaning.SizeModel | etl_StarJeans.py:188 | NaN exactly when there is no size text or no `\d+/\d+` match; otherwise the greedy digits/digits match at the leftmost match position |
| Cleaning.SizeExample | etl_StarJeans.py:184-188 | `Model wears size 170cm, waist 32/32` gives size number `170` and size model `32/32` |
| Cleaning.ChooseSegment | etl_StarJeans.py:211-258 | `combine_first` over the listed positions: the first existing segment that names the fibre, NaN when none does |
| Cleaning.FibreSegments | etl_StarJeans.py:205-258 | cotton and polyester come from segment 0, else 1; elastane from 1, else 2, else 3; elasterell only from 1; the name match is case-sensitive |
| Cleaning.Percent | etl_StarJeans.py:264-267 | NaN stays NaN; a chosen segment without a digit fails; otherwise the value of its first digit run |
| Cleaning.Combine | etl_StarJeans.py:264-267 | the four fibre columns of a row succeed together, and otherwise the first failing column is the failure |
| Cleaning.ScanFibres | etl_StarJeans.py:205-267 | a row's fibre scan succeeds exactly when every fibre's scan does, with each fibre's value |
| Cleaning.ScanExample | etl_StarJeans.py:205-267 | `Cotton 80%, Elastane 20%` gives cotton 80, polyester NaN, elastane 20, elasterell NaN |
| Cleaning.FibreMaxBounds | etl_StarJeans.py:270 | the per-key total bounds every percentage of the key, is 0 when the key has none, and otherwise is one of them |
| Cleaning.FibreMaxIsGroupMax | etl_StarJeans.py:270 | the per-key total is the group maximum with a 0 default |
| Cleaning.DropNullKeys | etl_StarJeans.py:157 | every kept row has a key, and every kept row comes from the input |
| Cleaning.DropNullKeysKeeps | etl_StarJeans.py:157 | every row with a key is kept |
| Cleaning.DropNullKeysLast | etl_StarJeans.py:157 | a kept row that is the last of its key is also the last of its key in the input |
| Cleaning.DedupSubset | etl_StarJeans.py:278 | deduplication only keeps input rows |
| Cleaning.DedupKeysUnique | etl_StarJeans.py:278 | after deduplication the keys are pairwise distinct and no key is lost |
| Cleaning.DedupSurvivorsAreLast | etl_StarJeans.py:278 | each surviving row is an input row that no later row shares its key with |
| Cleaning.DedupKeepsLastRows | etl_StarJeans.py:278 | each input row that is the last of its key survives |
| Cleaning.SplitCount | etl_StarJeans.py:205 | splitting on a character gives one more piece than the text has separators |
| Cleaning.FourColumns | etl_StarJeans.py:205-243 | the columns `df1[1]` to `df1[3]` exist exactly when some kept composition splits into four or more pieces |
| Cleaning.AssembledRow | etl_StarJeans.py:157-275 | an assembled row keeps its source row's normalised columns and parsed sizes, and each fibre column is its key's group maximum |
| Cleaning.CleanRowsFromLast | etl_StarJeans.py:155-280 | every output row is built from the last input row with its key: that row's normalised and parsed columns, plus the key's fibre maxima |
| Cleaning.CleanKeys | etl_StarJeans.py:155-280 | output keys are unique, and they are exactly the non-null keys of the input |
| Cleaning.FailingRows | etl_StarJeans.py:157-267 | a kept row fails to parse exactly when some keyed input row has an unparseable size or fibre segment |
| Cleaning.SizesOkIff | etl_StarJeans.py:184-185 | the size step succeeds exactly when every keyed size parses, and otherwise fails with `SizeTokenMissing` |
| Cleaning.FibresErrIff | etl_StarJeans.py:264-267 | the fibre step fails exactly when some keyed row's fibre scan fails, and then with `PercentMissing` |
| Cleaning.FibreRowFails | etl_StarJeans.py:264-267 | one keyed row whose fibre scan fails makes the fibre step fail |
| Cleaning.FibreFailureRow | etl_StarJeans.py:264-267 | a failing fibre step reports `PercentMissing` and has a keyed row whose scan fails |
| Cleaning.CleanPercentFailure | etl_StarJeans.py:184-267 | the stage reports a missing percentage exactly when every keyed size parses, the split columns exist, and some keyed row's fibre scan fails |
| Cleaning.NarrowRunFails | etl_StarJeans.py:205-243 | a run whose one keyed row has no size and a composition with fewer than three commas fails with `SegmentColumnMissing` |
| Cleaning.TwoSegmentRunFails | etl_StarJeans.py:205-240 | a run whose one keyed row has the two-segment composition `Cotton 80%, Elastane 20%` and no size fails at `df1[2]` |
| Cleaning.CleanFailure | etl_StarJeans.py:155-280 | the stage fails exactly when the split columns are missing or some keyed row's size or fibres do not parse; a bad size is always reported as the size failure |

## Left out

- Fetching and parsing HTML (`requests.get`, BeautifulSoup) are left out. This covers
  all of `get_showroom_data` (lines 19-51) and the page queries of `get_product_details`
  (lines 61-103). Each page arrives as the texts the script reads from it: headline,
  price line, description blocks and colour list.
- The `tqdm` progress bar (line 60) is left out. The `aux` column list (line 133) is
  built but never read, so it is left out too.
- `datetime.now()` (line 146) is a timestamp parameter. Lower-casing the column names
  (line 149) is fixed in the record field names.
- `data_insert` (lines 282 onwards, the projection and the sqlite append) is storage
  I/O and is not part of this model.
- The commented-out lines 169-175 and 190-202 are not modelled.
- Cleaning.Percent: the percentage is the whole number read from the text. The source
  divides it by 100 into a float, and floats are not modelled. The code does not clamp
  values to 100, and neither does the model.
- Cleaning.Clean: `astype(float)` on the price (line 166) is not modelled. The price
  stays the digit text chosen by `Scanners.SearchPrice`, which is always a valid
  decimal literal.
- Cleaning.Clean: the four exceptions from the missing columns `df1[0]` (line 211),
  `df1[1]` (line 214), `df1[2]` (line 240) and `df1[3]` (line 243) are modelled as a single
  failure, `SegmentColumnMissing`.
- Cleaning.DedupKeepLast: `drop_duplicates(keep = 'last')` (line 278) keeps the surviving
  rows in input order. The definition keeps that order too, but no lemma states it. The
  lemmas state which rows survive and that their keys are unique.
- Attributes.Cell: the concatenation with the empty six-column template and the
  positional rename (lines 123-126) are modelled as lookup by label.
  - Labels outside the six, or repeated labels, are the failure `UnexpectedLabels`. A
    repeated Composition label already raises at line 118, where `.str` meets a frame.
    The run ends in both cases, but the model reports this one as `UnexpectedLabels`.
  - The column order of the renamed frame is not modelled.
- Pandas index alignment (`reset_index`, the positional concat at line 261) is modelled
  as row position. A failure that depends only on a column's dtype, such as `.str` on a
  column with no text at all, is not modelled.
- Strings.Lower: only ASCII letters are lower-cased, while Python also folds non-ASCII
  letters. In the same way, `\d` matches only ASCII digits here.
- Strings.ReplaceAll: `str.replace(..., regex = True)` is modelled as a literal
  replacement. The three markers and the patterns at lines 160-163 contain no regular
  expression metacharacters, so both readings agree.
