/** The description list of a product page turned into a table
    (etl_StarJeans.py:106-120): each block's text is cut into lines, the first
    line of a block names a column and the remaining lines fill it, shorter
    columns are forward-filled, and the layer markers are deleted from the
    Composition column. */
module Attributes {
  import opened Wrappers
  import opened Strings

  /** `list(filter(None, xs))`: the non-empty strings of `xs`, in order. */
  function NonEmpty(xs: seq<string>): (r: seq<string>)
    ensures forall k :: 0 <= k < |r| ==> r[k] != "" && r[k] in xs
    ensures forall x :: x in xs && x != "" ==> x in r
    ensures |r| <= |xs|
  {
    if xs == [] then []
    else
      var rest := NonEmpty(xs[1..]);
      assert forall x :: x in xs[1..] ==> x in xs;
      assert forall x :: x in xs ==> x == xs[0] || x in xs[1..];
      if xs[0] == "" then rest else [xs[0]] + rest
  }

  /** The lines of one description block: `text.split('\n')` with the empty pieces dropped. */
  function Pieces(text: string): (ps: seq<string>)
    ensures forall k :: 0 <= k < |ps| ==> ps[k] != "" && '\n' !in ps[k]
    ensures '\n' !in text ==> ps == (if text == "" then [] else [text])
  {
    var parts := Split(text, "\n");
    var ps := NonEmpty(parts);
    SplitPiecesFree(text, "\n");
    assert forall k :: 0 <= k < |ps| ==> '\n' !in ps[k] by {
      forall k | 0 <= k < |ps| ensures '\n' !in ps[k] {
        var j :| 0 <= j < |parts| && parts[j] == ps[k];
        ContainsChar(ps[k], '\n');
      }
    }
    if '\n' !in text then
      ContainsChar(text, '\n');
      ps
    else ps
  }

  /** `filter` distributes over concatenation: the kept strings stay in order, each as often as it occurs. */
  lemma {:induction false} NonEmptyConcat(a: seq<string>, b: seq<string>)
    ensures NonEmpty(a + b) == NonEmpty(a) + NonEmpty(b)
    decreases |a|
  {
    if a == [] {
      assert a + b == b;
    } else {
      assert (a + b)[1..] == a[1..] + b;
      NonEmptyConcat(a[1..], b);
    }
  }

  /** A block's first line leads its pieces (unless it is empty) and the rest of the block follows. */
  lemma PiecesLine(a: string, b: string)
    requires '\n' !in a
    ensures Pieces(a + "\n" + b) == (if a == "" then [] else [a]) + Pieces(b)
  {
    var s := a + "\n" + b;
    assert s[|a|..|a| + 1] == "\n";
    forall j: nat | j < |a| ensures !OccursAt(s, "\n", j) {
      assert s[j..j + 1][0] == a[j];
    }
    FindLeftmost(s, "\n", |a|);
    SplitStep(s, "\n", |a|);
    assert s[..|a|] == a && s[|a| + 1..] == b;
    NonEmptyConcat([a], Split(b, "\n"));
  }

  /** One column of the transposed frame: the block's lines, padded with NaN to `width` rows. */
  function PadColumn(ps: seq<string>, width: nat): (c: seq<Option<string>>)
    requires |ps| <= width
    ensures |c| == width
  {
    seq(width, i requires 0 <= i < width => if i < |ps| then Some(ps[i]) else None)
  }

  /** `fillna(method = 'ffill')` on one column, carrying `prev` in from above. */
  function FFillFrom<T>(col: seq<Option<T>>, prev: Option<T>): (r: seq<Option<T>>)
    ensures |r| == |col|
  {
    if col == [] then []
    else
      var cur := if col[0].Some? then col[0] else prev;
      [cur] + FFillFrom(col[1..], cur)
  }

  function FFill<T>(col: seq<Option<T>>): (r: seq<Option<T>>)
    ensures |r| == |col|
  {
    FFillFrom(col, None)
  }

  /** Reference meaning of forward fill: the nearest present cell at or above row `i`. */
  function LastPresent<T>(col: seq<Option<T>>, i: nat): Option<T>
    requires i < |col|
  {
    if col[i].Some? then col[i] else if i == 0 then None else LastPresent(col, i - 1)
  }

  lemma {:induction false} LastPresentShift<T>(col: seq<Option<T>>, i: nat)
    requires 1 <= i < |col|
    ensures LastPresent(col, i) ==
      if LastPresent(col[1..], i - 1).Some? then LastPresent(col[1..], i - 1) else LastPresent(col, 0)
  {
    if col[i].None? && i > 1 {
      LastPresentShift(col, i - 1);
    }
  }

  lemma {:induction false} FFillFromAt<T>(col: seq<Option<T>>, prev: Option<T>, i: nat)
    requires i < |col|
    ensures FFillFrom(col, prev)[i] == if LastPresent(col, i).Some? then LastPresent(col, i) else prev
  {
    var cur := if col[0].Some? then col[0] else prev;
    if i > 0 {
      FFillFromAt(col[1..], cur, i - 1);
      LastPresentShift(col, i);
    }
  }

  /** Forward fill gives every row the nearest present value at or above it. */
  lemma FFillAt<T>(col: seq<Option<T>>, i: nat)
    requires i < |col|
    ensures FFill(col)[i] == LastPresent(col, i)
  {
    FFillFromAt(col, None, i);
  }

  /** The longest of a list of blocks (the row count of the padded frame). */
  function MaxLen(pss: seq<seq<string>>): (m: nat)
    ensures forall b :: 0 <= b < |pss| ==> |pss[b]| <= m
    ensures m == 0 || exists b :: 0 <= b < |pss| && |pss[b]| == m
  {
    if pss == [] then 0
    else
      var m := MaxLen(pss[1..]);
      assert forall b :: 1 <= b < |pss| ==> pss[b] == pss[1..][b - 1];
      if |pss[0]| >= m then |pss[0]| else m
  }

  /** The transposed frame with its first row taken as column labels: `labels[b]` names
      column `b`, and `columns[b]` holds its `height` data rows. */
  datatype Table = Table(labels: seq<Option<string>>, columns: seq<seq<Option<string>>>, height: nat)
  {
    ghost predicate WellFormed() {
      |labels| == |columns| && forall b :: 0 <= b < |columns| ==> |columns[b]| == height
    }
  }

  function BlockPieces(blocks: seq<string>): (pss: seq<seq<string>>)
    ensures |pss| == |blocks|
    ensures forall b :: 0 <= b < |blocks| ==> pss[b] == Pieces(blocks[b])
  {
    seq(|blocks|, b requires 0 <= b < |blocks| => Pieces(blocks[b]))
  }

  /** Lines 106-115: pad the blocks into a frame, transpose, take row 0 as the labels,
      drop it and forward-fill the rest. None where pandas raises: when no block has
      any line, the frame has no row 0. */
  function Tabulate(blocks: seq<string>): (r: Option<Table>)
    ensures r.None? <==> forall b :: 0 <= b < |blocks| ==> Pieces(blocks[b]) == []
    ensures r.Some? ==> r.value.WellFormed() && |r.value.labels| == |blocks|
  {
    var pss := BlockPieces(blocks);
    var width := MaxLen(pss);
    if width == 0 then None
    else
      var cols := seq(|blocks|, b requires 0 <= b < |blocks| => PadColumn(pss[b], width));
      var t := Table(seq(|cols|, b requires 0 <= b < |cols| => cols[b][0]),
                     seq(|cols|, b requires 0 <= b < |cols| => FFill(cols[b][1..])),
                     width - 1);
      assert t.WellFormed();
      Some(t)
  }

  /** What the source makes of cell (i, b): the block's line i+1 if it has one, else its
      last line, and NaN for a block that holds only its label. */
  function ExpectedCell(ps: seq<string>, i: nat): Option<string> {
    if i + 1 < |ps| then Some(ps[i + 1])
    else if |ps| >= 2 then Some(ps[|ps| - 1])
    else None
  }

  lemma {:induction false} PaddedLastPresent(ps: seq<string>, width: nat, i: nat)
    requires |ps| <= width && i + 1 < width
    ensures LastPresent(PadColumn(ps, width)[1..], i) == ExpectedCell(ps, i)
  {
    var c := PadColumn(ps, width)[1..];
    assert c[i] == if i + 1 < |ps| then Some(ps[i + 1]) else None;
    if i + 1 >= |ps| && i > 0 {
      PaddedLastPresent(ps, width, i - 1);
    }
  }

  /** The table the source builds: one column per block, labelled by its first line;
      as many data rows as the longest block has lines after its label; each cell the
      block's next line or, past its end, its last line (forward fill). */
  lemma TabulateCells(blocks: seq<string>)
    requires Tabulate(blocks).Some?
    ensures var t := Tabulate(blocks).value;
      && |t.labels| == |blocks| && t.WellFormed()
      && (forall b :: 0 <= b < |blocks| ==> |Pieces(blocks[b])| <= t.height + 1)
      && (exists b :: 0 <= b < |blocks| && |Pieces(blocks[b])| == t.height + 1)
      && (forall b :: 0 <= b < |blocks| ==>
            t.labels[b] == if Pieces(blocks[b]) == [] then None else Some(Pieces(blocks[b])[0]))
      && (forall b, i :: 0 <= b < |blocks| && 0 <= i < t.height ==>
            t.columns[b][i] == ExpectedCell(Pieces(blocks[b]), i))
  {
    var t := Tabulate(blocks).value;
    var pss := BlockPieces(blocks);
    var width := MaxLen(pss);
    forall b, i | 0 <= b < |blocks| && 0 <= i < t.height
      ensures t.columns[b][i] == ExpectedCell(Pieces(blocks[b]), i)
    {
      var col := PadColumn(pss[b], width)[1..];
      assert t.columns[b] == FFill(col);
      FFillAt(col, i);
      PaddedLastPresent(pss[b], width, i);
    }
  }

  const PocketLining := "Pocket lining: "
  const Shell := "Shell: "
  const Lining := "Lining: "

  /** Lines 118-120: delete every "Pocket lining: ", then every "Shell: ", then every "Lining: ".
      The text changes exactly when it holds one of the markers, and then it gets shorter. */
  function RemoveMarkers(s: string): (r: string)
    ensures (!Contains(s, PocketLining) && !Contains(s, Shell) && !Contains(s, Lining)) ==> r == s
    ensures (Contains(s, PocketLining) || Contains(s, Shell) || Contains(s, Lining)) ==> |r| < |s|
  {
    var a := ReplaceAll(s, PocketLining, "");
    var b := ReplaceAll(a, Shell, "");
    ReplaceAll(b, Lining, "")
  }

  /** Each marker removal is a split on the marker joined back with nothing in between. */
  lemma RemoveMarkersBySplit(s: string)
    ensures RemoveMarkers(s) ==
      Join(Split(Join(Split(Join(Split(s, PocketLining), ""), Shell), ""), Lining), "")
  {
    var a := ReplaceAll(s, PocketLining, "");
    var b := ReplaceAll(a, Shell, "");
    ReplaceIsJoinSplit(s, PocketLining, "");
    ReplaceIsJoinSplit(a, Shell, "");
    ReplaceIsJoinSplit(b, Lining, "");
  }

  /** The column labels the script's template frame expects, in its order (line 55). */
  const ArtNo := "Art. No."
  const CompositionLabel := "Composition"
  const FitLabel := "Fit"
  const SafetyLabel := "Product safety"
  const SizeLabel := "Size"
  const SustainableLabel := "More sustainable materials"
  const Expected: seq<string> := [ArtNo, CompositionLabel, FitLabel, SafetyLabel, SizeLabel, SustainableLabel]

  /** The page's labels fit the template: each is one of the six, none twice.
      Otherwise the positional rename at line 126 sees the wrong number of columns. */
  predicate LabelsFit(labels: seq<Option<string>>) {
    && (forall b :: 0 <= b < |labels| ==> labels[b].Some? && labels[b].value in Expected)
    && (forall b, c :: 0 <= b < c < |labels| ==> labels[b] != labels[c])
  }

  /** Index of the first column labelled `name`. */
  function ColumnIndex(labels: seq<Option<string>>, name: string): (r: Option<nat>)
    ensures r.Some? ==> r.value < |labels| && labels[r.value] == Some(name)
    ensures r.None? ==> Some(name) !in labels
  {
    if labels == [] then None
    else if labels[0] == Some(name) then Some(0)
    else
      match ColumnIndex(labels[1..], name)
      case None => None
      case Some(i) => Some(i + 1)
  }

  /** `df[name][i]` after the concatenation with the template: NaN for a label the page lacks. */
  function Cell(t: Table, name: string, i: nat): (r: Option<string>)
    requires t.WellFormed() && i < t.height
    ensures Some(name) !in t.labels ==> r.None?
    ensures forall b :: 0 <= b < |t.labels| && t.labels[b] == Some(name) && LabelsFit(t.labels) ==> r == t.columns[b][i]
  {
    match ColumnIndex(t.labels, name)
    case None => None
    case Some(b) => t.columns[b][i]
  }

  /** Under fitting labels, cell `i` of column `name` is line `i + 1` of the block that `name`
      heads, or that block's last line when it is shorter (the forward fill). */
  lemma TabulatedCell(blocks: seq<string>, name: string, b: nat, i: nat)
    requires Tabulate(blocks).Some? && LabelsFit(Tabulate(blocks).value.labels)
    requires b < |blocks| && Pieces(blocks[b]) != [] && Pieces(blocks[b])[0] == name
    requires i < Tabulate(blocks).value.height
    ensures Cell(Tabulate(blocks).value, name, i) == ExpectedCell(Pieces(blocks[b]), i)
  {
    TabulateCells(blocks);
  }

  /** Lines 118-120 applied to the table: the Composition column's present cells lose their markers. */
  function StripComposition(t: Table): (r: Table)
    requires t.WellFormed()
    ensures r.WellFormed() && r.labels == t.labels && r.height == t.height
    ensures forall b :: 0 <= b < |t.labels| && t.labels[b] != Some(CompositionLabel) ==> r.columns[b] == t.columns[b]
    ensures forall b, i :: 0 <= b < |t.labels| && t.labels[b] == Some(CompositionLabel) && 0 <= i < t.height ==>
      r.columns[b][i] == (match t.columns[b][i] case None => None case Some(s) => Some(RemoveMarkers(s)))
  {
    var cols := seq(|t.columns|, b requires 0 <= b < |t.columns| =>
      if t.labels[b] == Some(CompositionLabel) then
        seq(|t.columns[b]|, i requires 0 <= i < |t.columns[b]| =>
          match t.columns[b][i] case None => None case Some(s) => Some(RemoveMarkers(s)))
      else t.columns[b]);
    Table(t.labels, cols, t.height)
  }

  /** After the marker removal, the Composition cell is the old cell without its markers
      and every other cell is unchanged. */
  lemma StripCell(t: Table, name: string, i: nat)
    requires t.WellFormed() && LabelsFit(t.labels) && i < t.height
    ensures name == CompositionLabel ==>
      Cell(StripComposition(t), name, i) == (match Cell(t, name, i) case None => None case Some(s) => Some(RemoveMarkers(s)))
    ensures name != CompositionLabel ==> Cell(StripComposition(t), name, i) == Cell(t, name, i)
  {
    var r := StripComposition(t);
    if Some(name) in t.labels {
      var b :| 0 <= b < |t.labels| && t.labels[b] == Some(name);
      assert r.columns[b][i] == Cell(r, name, i);
    }
  }
}
