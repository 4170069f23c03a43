/** The desktop "justified rows" layout of the gallery (layoutJustified in
    js/gallery.js). Items are given by their aspect ratios (width / height);
    a greedy single pass groups them into rows, then every row but the last
    is given the height that makes it fill the container exactly, and every
    item the width that keeps its aspect ratio.

    Numbers are modelled as exact reals: the floating-point rounding of the
    running sums and the final Math.round of the rendered sizes are not. */
module JustifiedLayout {

  /** The inputs that layoutJustified reads from the page: the gallery's
      clientWidth, the target row height and row gap passed in its options,
      and the horizontal padding plus border of one item's frame. */
  datatype Params = Params(containerWidth: real, targetRowHeight: real, gap: real, frameExtraX: real)

  /** One laid-out row: the ratios of its items, the height shared by all of
      them and the width given to each. */
  datatype SizedRow = SizedRow(ratios: seq<real>, height: real, widths: seq<real>)

  /** What one call of layoutJustified does with the gallery. */
  datatype LayoutOutcome =
    | Untouched                       // clientWidth is 0: the gallery is left as it was
    | FrameProbeFails                 // no items: reading the frame of items[0] throws
    | Laid(rows: seq<SizedRow>)       // the gallery is rebuilt from these rows

  predicate AllPositive(s: seq<real>)
  {
    forall i :: 0 <= i < |s| ==> s[i] > 0.0
  }

  /** The sum of a sequence, accumulated left to right as the loop and
      Array.prototype.reduce do. */
  function Sum(s: seq<real>): real
  {
    if s == [] then 0.0 else Sum(s[..|s| - 1]) + s[|s| - 1]
  }

  /** A non-empty sequence of positive ratios has a positive sum. */
  lemma {:induction false} SumPositive(s: seq<real>)
    requires AllPositive(s) && s != []
    ensures Sum(s) > 0.0
    decreases |s|
  {
    if |s| > 1 {
      SumPositive(s[..|s| - 1]);
    }
  }

  /** The concatenation of the rows, in order. */
  function Flatten(rows: seq<seq<real>>): seq<real>
  {
    if rows == [] then [] else rows[0] + Flatten(rows[1..])
  }

  /** The width that the gaps and frames of a row of `n` items take:
      gap * (n - 1) + frameExtraX * n, built up one item at a time. */
  function Overhead(p: Params, n: nat): real
  {
    if n == 0 then -p.gap else Overhead(p, n - 1) + p.gap + p.frameExtraX
  }

  /** Overhead is the code's formula for the reserved width. */
  lemma {:induction false} OverheadFormula(p: Params, n: nat)
    ensures Overhead(p, n) == p.gap * ((n - 1) as real) + p.frameExtraX * (n as real)
  {
    if n > 0 {
      OverheadFormula(p, n - 1);
      assert p.gap * ((n - 1) as real) == p.gap * ((n - 2) as real) + p.gap;
      assert p.frameExtraX * (n as real) == p.frameExtraX * ((n - 1) as real) + p.frameExtraX;
    }
  }

  /** The width of a row's images, all drawn at height `h`, given the sum of
      their aspect ratios. */
  function ImagesWidth(ratioSum: real, h: real): real
  {
    ratioSum * h
  }

  /** The estimate is the code's sum of image widths, gaps and frames. */
  lemma EstimateFormula(p: Params, row: seq<real>)
    ensures Estimate(p, row) ==
      Sum(row) * p.targetRowHeight + p.gap * ((|row| - 1) as real) + p.frameExtraX * (|row| as real)
  {
    OverheadFormula(p, |row|);
  }

  /** The estimated width of a pending row when drawn at the target height:
      images, the gaps between them and one frame per item. */
  function Estimate(p: Params, row: seq<real>): real
  {
    ImagesWidth(Sum(row), p.targetRowHeight) + Overhead(p, |row|)
  }

  /** The condition on which the grouping loop closes its pending row. */
  predicate Closes(p: Params, row: seq<real>)
  {
    Estimate(p, row) >= p.containerWidth && |row| > 1
  }

  // ---------------------------------------------------------------------
  // Grouping

  /** The greedy pass as a function: `pending` is the row being filled and
      `rest` the items not yet visited. */
  function GroupFrom(p: Params, pending: seq<real>, rest: seq<real>): seq<seq<real>>
    decreases |rest|
  {
    if rest == [] then
      (if pending == [] then [] else [pending])
    else
      var row := pending + [rest[0]];
      if Closes(p, row) then [row] + GroupFrom(p, [], rest[1..])
      else GroupFrom(p, row, rest[1..])
  }

  /** The rows the grouping loop emits for `items`. */
  function Group(p: Params, items: seq<real>): seq<seq<real>>
  {
    GroupFrom(p, [], items)
  }

  /** A declarative description of the grouping: the rows partition the items
      in order, no row is empty, every row but the last met the closing
      condition, and no row could have been closed earlier. */
  predicate ValidGrouping(p: Params, items: seq<real>, rows: seq<seq<real>>)
  {
    Flatten(rows) == items &&
    (forall i :: 0 <= i < |rows| ==> rows[i] != []) &&
    (forall i :: 0 <= i < |rows| - 1 ==> Closes(p, rows[i])) &&
    (forall i, k :: 0 <= i < |rows| && 1 <= k < |rows[i]| ==> !Closes(p, rows[i][..k]))
  }

  /** No non-empty prefix of `row`, the row itself included, meets the closing condition. */
  predicate NeverClosed(p: Params, row: seq<real>)
  {
    forall k :: 1 <= k <= |row| ==> !Closes(p, row[..k])
  }

  /** The grouping loop of layoutJustified. */
  method GroupRows(p: Params, items: seq<real>) returns (rows: seq<seq<real>>)
    ensures rows == Group(p, items)
  {
    rows := [];
    var row: seq<real> := [];
    var rowAspectSum := 0.0;
    for i := 0 to |items|
      invariant rowAspectSum == Sum(row)
      invariant rows + GroupFrom(p, row, items[i..]) == Group(p, items)
    {
      assert (row + [items[i]])[..|row|] == row;
      assert items[i..][1..] == items[i + 1..];
      row := row + [items[i]];
      rowAspectSum := rowAspectSum + items[i];
      var estImgWidth := rowAspectSum * p.targetRowHeight;
      var estGap := p.gap * ((|row| - 1) as real);
      var estFrames := p.frameExtraX * (|row| as real);
      var estTotal := estImgWidth + estGap + estFrames;
      EstimateFormula(p, row);
      if estTotal >= p.containerWidth && |row| > 1 {
        rows := rows + [row];
        row := [];
        rowAspectSum := 0.0;
      }
    }
    if |row| > 0 {
      rows := rows + [row];
    }
  }

  /** The greedy pass produces a grouping of the kind ValidGrouping describes,
      once the pending row is one that was never closed. */
  lemma {:induction false} GroupFromValid(p: Params, pending: seq<real>, rest: seq<real>)
    requires NeverClosed(p, pending)
    ensures ValidGrouping(p, pending + rest, GroupFrom(p, pending, rest))
    decreases |rest|
  {
    var rows := GroupFrom(p, pending, rest);
    if rest == [] {
      assert pending + rest == pending;
      if pending != [] {
        assert rows == [pending];
        assert Flatten(rows) == pending + Flatten([]);
      }
    } else {
      var row := pending + [rest[0]];
      assert row + rest[1..] == pending + rest;
      assert forall k :: 1 <= k <= |pending| ==> row[..k] == pending[..k];
      if Closes(p, row) {
        GroupFromValid(p, [], rest[1..]);
        var tail := GroupFrom(p, [], rest[1..]);
        assert [] + rest[1..] == rest[1..];
        assert rows == [row] + tail;
        assert rows[1..] == tail;
        assert Flatten(rows) == row + Flatten(tail);
        forall i, k | 0 <= i < |rows| && 1 <= k < |rows[i]|
          ensures !Closes(p, rows[i][..k])
        {
          if i > 0 {
            assert rows[i] == tail[i - 1];
          }
        }
      } else {
        assert row[..|row|] == row;
        assert NeverClosed(p, row);
        GroupFromValid(p, row, rest[1..]);
      }
    }
  }

  /** Group's rows partition the items in order, are non-empty, every row
      but the last met the threshold with at least two items, and every row
      is the shortest that could have closed. */
  lemma GroupIsValid(p: Params, items: seq<real>)
    ensures ValidGrouping(p, items, Group(p, items))
  {
    assert [] + items == items;
    GroupFromValid(p, [], items);
  }

  /** A valid grouping splits into its first row, a prefix of the items, and
      a valid grouping of the items after it. */
  lemma SplitFirstRow(p: Params, items: seq<real>, rows: seq<seq<real>>)
    requires ValidGrouping(p, items, rows) && rows != []
    ensures |rows[0]| <= |items| && rows[0] == items[..|rows[0]|]
    ensures ValidGrouping(p, items[|rows[0]|..], rows[1..])
  {
    assert Flatten(rows) == rows[0] + Flatten(rows[1..]);
    assert forall i :: 0 <= i < |rows| - 1 ==> rows[1..][i] == rows[i + 1];
  }

  /** In a valid grouping of a never-closed pending row followed by more
      items, the first row reaches past the pending row; with no more items,
      the pending row is the only row. */
  lemma FirstRowPastPending(p: Params, pending: seq<real>, rest: seq<real>, rows: seq<seq<real>>)
    requires NeverClosed(p, pending)
    requires ValidGrouping(p, pending + rest, rows) && rows != []
    ensures rest == [] ==> rows == [pending]
    ensures rest != [] ==> |rows[0]| > |pending| && rows[0][..|pending| + 1] == pending + [rest[0]]
  {
    var all := pending + rest;
    SplitFirstRow(p, all, rows);
    var first := rows[0];
    // A first row that ends inside `pending` is a prefix of `pending`, which
    // never closed, so it is also the last row and holds all the items.
    assert |first| <= |pending| ==> first == pending[..|first|] && !Closes(p, first);
    assert |rows| >= 2 ==> Closes(p, first);
    assert |rows| == 1 ==> rows[1..] == [] && all[|first|..] == [] && first == all;
    assert rest == [] ==> all == pending;
  }

  /** Conversely, the greedy grouping is the only grouping with these
      properties: ValidGrouping determines the rows completely. */
  lemma {:induction false} GroupFromUnique(p: Params, pending: seq<real>, rest: seq<real>, rows: seq<seq<real>>)
    requires NeverClosed(p, pending)
    requires ValidGrouping(p, pending + rest, rows)
    ensures rows == GroupFrom(p, pending, rest)
    decreases |rest|
  {
    var all := pending + rest;
    if rows == [] {
      assert all == [];
    } else {
      FirstRowPastPending(p, pending, rest, rows);
      if rest != [] {
        var row := pending + [rest[0]];
        if Closes(p, row) {
          // `row` closes, so it cannot be a proper prefix of the first row.
          SplitFirstRow(p, all, rows);
          assert rows[0] == row;
          assert all[|row|..] == rest[1..];
          assert [] + rest[1..] == rest[1..];
          GroupFromUnique(p, [], rest[1..], rows[1..]);
          assert rows == [row] + rows[1..];
        } else {
          forall k | 1 <= k <= |row|
            ensures !Closes(p, row[..k])
          {
            if k <= |pending| {
              assert row[..k] == pending[..k];
            } else {
              assert row[..k] == row;
            }
          }
          assert row + rest[1..] == all;
          GroupFromUnique(p, row, rest[1..], rows);
        }
      }
    }
  }

  lemma GroupIsUnique(p: Params, items: seq<real>, rows: seq<seq<real>>)
    requires ValidGrouping(p, items, rows)
    ensures rows == Group(p, items)
  {
    assert [] + items == items;
    GroupFromUnique(p, [], items, rows);
  }

  // ---------------------------------------------------------------------
  // Sizing

  /** The width left for the images of a row once its gaps and frames are reserved. */
  function Available(p: Params, row: seq<real>): real
  {
    p.containerWidth - Overhead(p, |row|)
  }

  /** The height of a row: the last row keeps the target height, every other
      row is stretched (or shrunk) so that it fills the container. */
  function RowHeight(p: Params, row: seq<real>, isLastRow: bool): (h: real)
    requires isLastRow || Sum(row) != 0.0
    ensures isLastRow ==> h == p.targetRowHeight
    ensures !isLastRow ==> ImagesWidth(Sum(row), h) + Overhead(p, |row|) == p.containerWidth
  {
    if isLastRow then p.targetRowHeight else Available(p, row) / Sum(row)
  }

  /** A stretched row of positive ratios has a positive height exactly when
      its gaps and frames leave some width for the images. */
  lemma StretchedHeightPositive(p: Params, row: seq<real>)
    requires Sum(row) > 0.0
    ensures RowHeight(p, row, false) > 0.0 <==> Available(p, row) > 0.0
  {
    var h, s := RowHeight(p, row, false), Sum(row);
    assert ImagesWidth(s, h) == h * s == Available(p, row);
    if h > 0.0 {
      assert h * s > 0.0;
    }
    if h <= 0.0 {
      assert h * s <= 0.0;
    }
  }

  /** The width of each item of a row drawn at height `h`. */
  function ItemWidths(row: seq<real>, h: real): (w: seq<real>)
    ensures |w| == |row|
    ensures forall j :: 0 <= j < |row| ==> w[j] == row[j] * h
  {
    seq(|row|, j requires 0 <= j < |row| => row[j] * h)
  }

  /** Widths that are the ratios of a row scaled by its height add up to its
      ratio sum times that height. */
  lemma {:induction false} SumOfWidths(row: seq<real>, h: real, widths: seq<real>)
    requires |widths| == |row|
    requires forall j :: 0 <= j < |row| ==> widths[j] == row[j] * h
    ensures Sum(widths) == ImagesWidth(Sum(row), h)
    decreases |row|
  {
    if row != [] {
      var n := |row|;
      SumOfWidths(row[..n - 1], h, widths[..n - 1]);
      var a, x := Sum(row[..n - 1]), row[n - 1];
      assert Sum(widths) == a * h + x * h;
      assert a * h + x * h == (a + x) * h;
    }
  }

  /** Width over height gives back each item's aspect ratio. */
  lemma AspectPreserved(row: seq<real>, h: real, j: int)
    requires h != 0.0 && 0 <= j < |row|
    ensures ItemWidths(row, h)[j] / h == row[j]
  {
  }

  /** The horizontal space a sized row occupies: its images, the gaps between
      them and one frame per item. */
  function RowWidth(p: Params, sr: SizedRow): real
  {
    Sum(sr.widths) + Overhead(p, |sr.ratios|)
  }

  /** All items of the row share its height, and each is as wide as its ratio
      times that height. */
  predicate SharedHeight(sr: SizedRow)
  {
    |sr.widths| == |sr.ratios| &&
    forall j :: 0 <= j < |sr.ratios| ==> sr.widths[j] == sr.ratios[j] * sr.height
  }

  /** The last row, drawn at the target height with widths that add up to
      its ratio sum times that height, takes exactly its estimated width. */
  lemma LastRowMatchesEstimate(p: Params, row: seq<real>, widths: seq<real>)
    requires Sum(widths) == ImagesWidth(Sum(row), p.targetRowHeight)
    ensures RowWidth(p, SizedRow(row, p.targetRowHeight, widths)) == Estimate(p, row)
  {
  }

  /** A stretched row, drawn at a height whose product with its ratio sum
      fills the width its gaps and frames leave, fills the container. */
  lemma StretchedRowFills(p: Params, row: seq<real>, h: real, widths: seq<real>)
    requires Sum(widths) == ImagesWidth(Sum(row), h)
    requires ImagesWidth(Sum(row), h) + Overhead(p, |row|) == p.containerWidth
    ensures RowWidth(p, SizedRow(row, h, widths)) == p.containerWidth
  {
  }

  /** One row as the sizing loop lays it out. */
  function SizeRow(p: Params, row: seq<real>, isLastRow: bool): (sr: SizedRow)
    requires isLastRow || Sum(row) != 0.0
    ensures sr.ratios == row && SharedHeight(sr)
    ensures isLastRow ==> sr.height == p.targetRowHeight && RowWidth(p, sr) == Estimate(p, row)
    ensures !isLastRow ==> RowWidth(p, sr) == p.containerWidth
  {
    var h := RowHeight(p, row, isLastRow);
    var widths := ItemWidths(row, h);
    SumOfWidths(row, h, widths);
    if isLastRow then
      LastRowMatchesEstimate(p, row, widths);
      SizedRow(row, h, widths)
    else
      StretchedRowFills(p, row, h, widths);
      SizedRow(row, h, widths)
  }

  /** The ratios of the sized rows, row by row. */
  function Ratios(sized: seq<SizedRow>): seq<seq<real>>
  {
    seq(|sized|, i requires 0 <= i < |sized| => sized[i].ratios)
  }

  /** Every row of the layout is sized; only the last keeps the target height. */
  function SizeRows(p: Params, rows: seq<seq<real>>): (sized: seq<SizedRow>)
    requires forall i :: 0 <= i < |rows| ==> rows[i] != [] && AllPositive(rows[i])
    ensures Ratios(sized) == rows
    ensures forall i :: 0 <= i < |sized| ==> SharedHeight(sized[i])
    ensures forall i :: 0 <= i < |sized| - 1 ==> RowWidth(p, sized[i]) == p.containerWidth
    ensures sized != [] ==>
      sized[|sized| - 1].height == p.targetRowHeight &&
      RowWidth(p, sized[|sized| - 1]) == Estimate(p, rows[|rows| - 1])
  {
    seq(|rows|, i requires 0 <= i < |rows| =>
      SumPositive(rows[i]);
      SizeRow(p, rows[i], i == |rows| - 1))
  }

  /** Every row of a grouping of positive ratios is made of positive ratios. */
  lemma {:induction false} FlattenPositive(rows: seq<seq<real>>)
    requires AllPositive(Flatten(rows))
    ensures forall i :: 0 <= i < |rows| ==> AllPositive(rows[i])
    decreases |rows|
  {
    if rows != [] {
      var f := Flatten(rows);
      assert f == rows[0] + Flatten(rows[1..]);
      assert forall j :: 0 <= j < |rows[0]| ==> rows[0][j] == f[j];
      assert forall j :: 0 <= j < |Flatten(rows[1..])| ==> Flatten(rows[1..])[j] == f[|rows[0]| + j];
      FlattenPositive(rows[1..]);
      assert forall i :: 1 <= i < |rows| ==> rows[i] == rows[1..][i - 1];
    }
  }

  /** The rows that layoutJustified groups and sizes for a list of items:
      no rows for no items. */
  function Pack(p: Params, items: seq<real>): (sized: seq<SizedRow>)
    requires AllPositive(items)
    ensures Ratios(sized) == Group(p, items)
    ensures ValidGrouping(p, items, Ratios(sized))
    ensures sized == [] <==> items == []
    ensures forall i :: 0 <= i < |sized| ==> SharedHeight(sized[i])
    ensures forall i :: 0 <= i < |sized| - 1 ==> RowWidth(p, sized[i]) == p.containerWidth
    ensures sized != [] ==> sized[|sized| - 1].height == p.targetRowHeight
  {
    var rows := Group(p, items);
    GroupIsValid(p, items);
    FlattenPositive(rows);
    SizeRows(p, rows)
  }

  /** layoutJustified: nothing happens in a container of zero width; with no
      items the frame probe on items[0] throws; otherwise the gallery is
      rebuilt from the rows of Pack. */
  method LayoutJustified(p: Params, items: seq<real>) returns (outcome: LayoutOutcome)
    requires AllPositive(items)
    ensures outcome == Untouched <==> p.containerWidth == 0.0
    ensures outcome == FrameProbeFails <==> p.containerWidth != 0.0 && items == []
    ensures outcome.Laid? ==> outcome.rows == Pack(p, items) && outcome.rows != []
  {
    if p.containerWidth == 0.0 {
      return Untouched;
    }
    if items == [] {
      return FrameProbeFails;
    }
    var rows := GroupRows(p, items);
    GroupIsValid(p, items);
    FlattenPositive(rows);
    outcome := Laid(SizeRows(p, rows));
  }
}
