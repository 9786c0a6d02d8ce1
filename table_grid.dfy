/**
 * One reconstructed table: the pivot of a run of text fragments on their row and
 * column indices, where texts sharing a cell are joined with single spaces and
 * cells without a fragment hold the empty string.
 */
module TableGrid {
  import opened Ordered
  import opened Text

  /** One entry of the backend's `tables` list: a text placed at a row and a column. */
  datatype Fragment = Fragment(text: string, row: int, col: int)

  /**
   * A pivoted table: its row keys and column keys in ascending order, and the text of
   * every (row, column) cell.
   */
  datatype Grid = Grid(rows: seq<int>, cols: seq<int>, cells: map<(int, int), string>)

  /** Selects the fragments placed at row `r` and column `c`. */
  function AtCell(r: int, c: int): Fragment -> bool
  {
    (f: Fragment) => f.row == r && f.col == c
  }

  /** The texts of the fragments at (r, c), in the order the fragments come. */
  function TextsAt(seg: seq<Fragment>, r: int, c: int): (ts: seq<string>)
    ensures |ts| <= |seg|
    ensures ts == [] <==> forall i :: 0 <= i < |seg| ==> !(seg[i].row == r && seg[i].col == c)
  {
    if seg == [] then []
    else (if seg[0].row == r && seg[0].col == c then [seg[0].text] else []) + TextsAt(seg[1..], r, c)
  }

  /** The texts of the fragments at the given indices, in the order of the indices. */
  function TextsOf(seg: seq<Fragment>, ps: seq<nat>): seq<string>
    requires forall k :: 0 <= k < |ps| ==> ps[k] < |seg|
  {
    if ps == [] then [] else [seg[ps[0]].text] + TextsOf(seg, ps[1..])
  }

  /** The `RowIndex` column of a run of fragments. */
  function RowIndices(seg: seq<Fragment>): (rs: seq<int>)
    ensures |rs| == |seg| && forall i :: 0 <= i < |seg| ==> rs[i] == seg[i].row
    ensures forall r :: r in rs <==> exists i :: 0 <= i < |seg| && seg[i].row == r
  {
    var rs := seq(|seg|, i requires 0 <= i < |seg| => seg[i].row);
    assert forall i :: 0 <= i < |seg| ==> rs[i] in rs;
    rs
  }

  /** The `ColumnIndex` column of a run of fragments. */
  function ColumnIndices(seg: seq<Fragment>): (cs: seq<int>)
    ensures |cs| == |seg| && forall i :: 0 <= i < |seg| ==> cs[i] == seg[i].col
    ensures forall c :: c in cs <==> exists i :: 0 <= i < |seg| && seg[i].col == c
  {
    var cs := seq(|seg|, i requires 0 <= i < |seg| => seg[i].col);
    assert forall i :: 0 <= i < |seg| ==> cs[i] in cs;
    cs
  }

  /**
   * `pivot_table(index='RowIndex', columns='ColumnIndex', values='Text',
   * aggfunc=' '.join).fillna('')` over one run of fragments: rows and columns are the
   * distinct indices present, ascending, and every (row, column) pair has a cell.
   */
  function Pivot(seg: seq<Fragment>): (g: Grid)
    ensures StrictlyIncreasing(g.rows) && StrictlyIncreasing(g.cols)
    ensures forall r :: r in g.rows <==> exists i :: 0 <= i < |seg| && seg[i].row == r
    ensures forall c :: c in g.cols <==> exists i :: 0 <= i < |seg| && seg[i].col == c
    ensures forall r, c :: (r, c) in g.cells <==> r in g.rows && c in g.cols
  {
    var rows := SortedDistinct(RowIndices(seg));
    var cols := SortedDistinct(ColumnIndices(seg));
    Grid(rows, cols, map r, c | r in rows && c in cols :: (r, c) := Join(TextsAt(seg, r, c)))
  }

  lemma {:induction false} TextsAtFrom(seg: seq<Fragment>, r: int, c: int, i: nat)
    requires i <= |seg|
    ensures TextsAt(seg[i..], r, c) == TextsOf(seg, PositionsFrom(seg, AtCell(r, c), i))
    decreases |seg| - i
  {
    if i < |seg| {
      TextsAtFrom(seg, r, c, i + 1);
      var rest := PositionsFrom(seg, AtCell(r, c), i + 1);
      assert seg[i..][0] == seg[i] && seg[i..][1..] == seg[i + 1..];
      if seg[i].row == r && seg[i].col == c {
        assert ([i] + rest)[0] == i && ([i] + rest)[1..] == rest;
      }
    }
  }

  /**
   * Cell contents: for a row and a column present in the run (those of fragments i and
   * j), the cell holds the texts of exactly the fragments at that row and column, in
   * their original relative order, joined with single spaces.
   */
  lemma PivotCell(seg: seq<Fragment>, i: nat, j: nat)
    requires i < |seg| && j < |seg|
    ensures (seg[i].row, seg[j].col) in Pivot(seg).cells
    ensures Pivot(seg).cells[(seg[i].row, seg[j].col)] ==
      Join(TextsOf(seg, Positions(seg, AtCell(seg[i].row, seg[j].col))))
  {
    var r, c := seg[i].row, seg[j].col;
    assert r in Pivot(seg).rows && c in Pivot(seg).cols by {
      assert seg[i].row == r && seg[j].col == c;
    }
    TextsAtFrom(seg, r, c, 0);
    assert seg[0..] == seg;
  }

  /** A row/column combination that no fragment occupies holds the empty string. */
  lemma PivotEmptyCell(seg: seq<Fragment>, i: nat, j: nat)
    requires i < |seg| && j < |seg|
    requires forall k :: 0 <= k < |seg| ==> !(seg[k].row == seg[i].row && seg[k].col == seg[j].col)
    ensures Pivot(seg).cells[(seg[i].row, seg[j].col)] == ""
  {
    PivotCell(seg, i, j);
    assert Positions(seg, AtCell(seg[i].row, seg[j].col)) == [];
  }

  /** A cell that exactly one fragment occupies holds that fragment's text unchanged. */
  lemma PivotSingleCell(seg: seq<Fragment>, i: nat)
    requires i < |seg|
    requires forall j :: 0 <= j < |seg| && j != i ==> !(seg[j].row == seg[i].row && seg[j].col == seg[i].col)
    ensures (seg[i].row, seg[i].col) in Pivot(seg).cells
    ensures Pivot(seg).cells[(seg[i].row, seg[i].col)] == seg[i].text
  {
    var r, c := seg[i].row, seg[i].col;
    PivotCell(seg, i, i);
    var ps := Positions(seg, AtCell(r, c));
    assert i in ps;
    forall k | 0 <= k < |ps| ensures ps[k] == i {
      assert ps[k] in ps;
    }
    SingleMember(ps, i);
    assert TextsOf(seg, [i]) == [seg[i].text];
  }

  /** The fragments at (2, 1) in the worked case of the join are the last two. */
  lemma ExampleCellPositions(seg: seq<Fragment>)
    requires seg == [Fragment("Item", 2, 0), Fragment("B", 2, 1), Fragment("C", 2, 1)]
    ensures Positions(seg, AtCell(2, 1)) == [1, 2]
  {
    var p := AtCell(2, 1);
    assert !p(seg[0]) && p(seg[1]) && p(seg[2]);
    assert PositionsFrom(seg, p, 3) == [];
    assert PositionsFrom(seg, p, 2) == [2];
    assert PositionsFrom(seg, p, 1) == [1, 2];
    assert PositionsFrom(seg, p, 0) == [1, 2];
  }

  /** The joined texts at (2, 1) in the worked case of the join. */
  lemma ExampleCellText(seg: seq<Fragment>)
    requires seg == [Fragment("Item", 2, 0), Fragment("B", 2, 1), Fragment("C", 2, 1)]
    ensures Join(TextsOf(seg, Positions(seg, AtCell(2, 1)))) == "B C"
  {
    ExampleCellPositions(seg);
    var ps: seq<nat> := [1, 2];
    assert ps[1..] == [2] && [2][1..] == [];
    assert TextsOf(seg, [2]) == ["C"];
    assert TextsOf(seg, ps) == ["B", "C"];
    assert Join(["B", "C"]) == "B C";
  }

  /** A worked case of the join: "B" and "C" share cell (2, 1), which holds "B C". */
  lemma ExampleJoinedCell(seg: seq<Fragment>)
    requires seg == [Fragment("Item", 2, 0), Fragment("B", 2, 1), Fragment("C", 2, 1)]
    ensures (2, 1) in Pivot(seg).cells && Pivot(seg).cells[(2, 1)] == "B C"
  {
    assert seg[1].row == 2 && seg[1].col == 1;
    PivotCell(seg, 1, 1);
    ExampleCellText(seg);
  }
}
