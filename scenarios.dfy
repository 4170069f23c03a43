/** Worked examples of the justified layout, checked against the model. */
module Scenarios {
  import opened JustifiedLayout

  /** Three squares that never reach a 900-pixel container form one
      unstretched row at the target height of 240. */
  lemma ThreeSquaresStayOneRow()
    ensures var out := Pack(Params(900.0, 240.0, 10.0, 0.0), [1.0, 1.0, 1.0]);
      |out| == 1 && out[0].ratios == [1.0, 1.0, 1.0] &&
      out[0].height == 240.0 && out[0].widths == [240.0, 240.0, 240.0]
  {
    var p := Params(900.0, 240.0, 10.0, 0.0);
    var row := [1.0, 1.0, 1.0];
    OverheadFormula(p, 1);
    OverheadFormula(p, 2);
    OverheadFormula(p, 3);
    assert Sum(row[..1]) == 1.0;
    assert Sum(row[..2]) == 2.0;
    assert Sum(row) == 3.0;
    var none: seq<seq<real>> := [];
    assert Flatten([row]) == row + Flatten(none);
    assert ValidGrouping(p, row, [row]);
    GroupIsUnique(p, row, [row]);
    var out := Pack(p, row);
    assert out[0].widths == [240.0, 240.0, 240.0];
  }

  /** Six squares in a 600-pixel container at a target of 200 close a row at
      exactly 600, after three of them. */
  lemma SixSquaresGroupInThrees()
    ensures Group(Params(600.0, 200.0, 0.0, 0.0), [1.0, 1.0, 1.0, 1.0, 1.0, 1.0]) ==
      [[1.0, 1.0, 1.0], [1.0, 1.0, 1.0]]
  {
    var p := Params(600.0, 200.0, 0.0, 0.0);
    var items := [1.0, 1.0, 1.0, 1.0, 1.0, 1.0];
    var row := [1.0, 1.0, 1.0];
    var rows := [row, row];
    OverheadFormula(p, 1);
    OverheadFormula(p, 2);
    OverheadFormula(p, 3);
    assert Sum(row[..1]) == 1.0;
    assert Sum(row[..2]) == 2.0;
    assert Sum(row) == 3.0;
    assert Closes(p, row) && !Closes(p, row[..1]) && !Closes(p, row[..2]);
    var none: seq<seq<real>> := [];
    assert rows[1..] == [row] && rows[1..][1..] == none;
    assert Flatten(rows) == row + (row + Flatten(none));
    assert ValidGrouping(p, items, rows);
    GroupIsUnique(p, items, rows);
  }

  /** A row of three squares stretched into a 600-pixel container with no
      gaps or frames is drawn at height 200, each square 200 wide. */
  lemma ThreeSquaresStretchTo200()
    ensures Sum([1.0, 1.0, 1.0]) == 3.0
    ensures var sr := SizeRow(Params(600.0, 200.0, 0.0, 0.0), [1.0, 1.0, 1.0], false);
      sr.height == 200.0 && sr.widths == [200.0, 200.0, 200.0]
  {
    var p := Params(600.0, 200.0, 0.0, 0.0);
    var row := [1.0, 1.0, 1.0];
    assert Sum(row[..1]) == 1.0;
    assert Sum(row[..2]) == 2.0;
    assert Sum(row) == 3.0;
    OverheadFormula(p, 3);
    var sr := SizeRow(p, row, false);
    assert sr.height * 3.0 == 600.0;
  }

  /** Both rows of three squares are drawn at exactly 200: the first is
      stretched to fill 600 exactly, the last keeps the target height. */
  lemma SixSquaresFillExactly()
    ensures var out := Pack(Params(600.0, 200.0, 0.0, 0.0), [1.0, 1.0, 1.0, 1.0, 1.0, 1.0]);
      |out| == 2 &&
      out[0].ratios == [1.0, 1.0, 1.0] && out[1].ratios == [1.0, 1.0, 1.0] &&
      out[0].height == 200.0 && out[1].height == 200.0 &&
      out[0].widths == [200.0, 200.0, 200.0]
  {
    var p := Params(600.0, 200.0, 0.0, 0.0);
    var items := [1.0, 1.0, 1.0, 1.0, 1.0, 1.0];
    var row := [1.0, 1.0, 1.0];
    SixSquaresGroupInThrees();
    ThreeSquaresStretchTo200();
    assert SizeRows(p, [row, row])[0] == SizeRow(p, row, false);
  }

  /** A panorama wider than the container does not close a row on its own:
      it shares its row with the next square, and the last square is left over. */
  lemma PanoramaSharesItsRow()
    ensures Group(Params(400.0, 240.0, 0.0, 0.0), [3.5, 1.0, 1.0]) == [[3.5, 1.0], [1.0]]
  {
    var p := Params(400.0, 240.0, 0.0, 0.0);
    var items := [3.5, 1.0, 1.0];
    var rows := [[3.5, 1.0], [1.0]];
    OverheadFormula(p, 1);
    OverheadFormula(p, 2);
    assert Sum([3.5, 1.0][..1]) == 3.5;
    assert Sum([3.5, 1.0]) == 4.5;
    var none: seq<seq<real>> := [];
    assert rows[1..] == [[1.0]] && rows[1..][1..] == none;
    assert Flatten(rows) == [3.5, 1.0] + ([1.0] + Flatten(none));
    assert ValidGrouping(p, items, rows);
    GroupIsUnique(p, items, rows);
  }
}
