/**
 * The table step of `display_dataframes`: the flat fragment list is cut at the marker
 * fragments into runs, and every run is pivoted into one grid.
 */
module Segmentation {
  import opened Wrappers
  import opened Ordered
  import opened TableGrid

  /** The texts that open a new table region. */
  const TableMarkers: seq<string> := ["Date:", "Item"]

  /**
   * A fragment is a marker when its text is one of the markers exactly (`isin`): no
   * trimming and no case folding.
   */
  predicate IsMarker(f: Fragment)
    ensures IsMarker(f) <==> f.text == "Date:" || f.text == "Item"
  {
    f.text in TableMarkers
  }

  /** Marker scan: the indices of the marker fragments, in ascending order. */
  function MarkerPositions(frags: seq<Fragment>): (ps: seq<nat>)
    ensures StrictlyIncreasing(ps)
    ensures forall k :: 0 <= k < |ps| ==> ps[k] < |frags|
    ensures forall i :: i in ps <==> 0 <= i < |frags| && IsMarker(frags[i])
  {
    Positions(frags, IsMarker)
  }

  /**
   * The cut points of the segmentation loop for marker positions `ps` in a list of
   * length `n`: 0, every marker position but the first, and `n`.
   */
  function CutPoints(ps: seq<nat>, n: nat): (cuts: seq<nat>)
    requires StrictlyIncreasing(ps)
    requires forall k :: 0 <= k < |ps| ==> ps[k] < n
    ensures |cuts| == (if |ps| == 0 then 2 else |ps| + 1)
    ensures cuts[0] == 0 && cuts[|cuts| - 1] == n
    ensures forall k :: 0 < k < |cuts| - 1 ==> cuts[k] == ps[k]
    ensures forall j, k :: 0 <= j <= k < |cuts| ==> cuts[j] <= cuts[k]
  {
    var cuts := [0] + (if ps == [] then [] else ps[1..]) + [n];
    assert forall k :: 0 < k < |cuts| - 1 ==> cuts[k] == ps[k];
    assert forall j, k :: 0 <= j <= k < |cuts| ==> cuts[j] <= cuts[k] by {
      forall j, k | 0 <= j <= k < |cuts| ensures cuts[j] <= cuts[k] {
        if j > 0 && k < |cuts| - 1 && j < k {
          assert ps[j] < ps[k];
        }
      }
    }
    cuts
  }

  /** The cut points for a fragment list. Run k is `frags[cuts[k]..cuts[k + 1]]`. */
  function Cuts(frags: seq<Fragment>): (cuts: seq<nat>)
    ensures |cuts| == (if |MarkerPositions(frags)| == 0 then 2 else |MarkerPositions(frags)| + 1)
    ensures cuts[0] == 0 && cuts[|cuts| - 1] == |frags|
    ensures forall k :: 0 < k < |cuts| - 1 ==> cuts[k] == MarkerPositions(frags)[k]
    ensures forall j, k :: 0 <= j <= k < |cuts| ==> cuts[j] <= cuts[k]
  {
    CutPoints(MarkerPositions(frags), |frags|)
  }

  /** The runs between consecutive cut points. */
  function Slices<T>(s: seq<T>, cuts: seq<nat>): (runs: seq<seq<T>>)
    requires forall j, k :: 0 <= j <= k < |cuts| ==> cuts[j] <= cuts[k]
    requires forall k :: 0 <= k < |cuts| ==> cuts[k] <= |s|
    ensures |runs| == if |cuts| == 0 then 0 else |cuts| - 1
    ensures forall k :: 0 <= k < |runs| ==> runs[k] == s[cuts[k]..cuts[k + 1]]
  {
    if |cuts| < 2 then [] else [s[cuts[0]..cuts[1]]] + Slices(s, cuts[1..])
  }

  /**
   * The fragment runs `iloc[start:end]`, one per table: one run when there is no
   * marker, one per marker otherwise.
   */
  function Segments(frags: seq<Fragment>): (runs: seq<seq<Fragment>>)
    ensures |runs| == (if |MarkerPositions(frags)| == 0 then 1 else |MarkerPositions(frags)|)
    ensures forall k :: 0 <= k < |runs| ==> runs[k] == frags[Cuts(frags)[k]..Cuts(frags)[k + 1]]
  {
    Slices(frags, Cuts(frags))
  }

  function Concat<T>(runs: seq<seq<T>>): seq<T>
  {
    if runs == [] then [] else runs[0] + Concat(runs[1..])
  }

  /** Why the table step fails: an empty list gives a frame without a `Text` column. */
  datatype TableError = MissingTextColumn

  /** The grids `display_dataframes` builds from the fragment list. */
  function Reconstruct(frags: seq<Fragment>): (r: Result<seq<Grid>, TableError>)
    ensures r.Failure? <==> frags == []
  {
    if frags == [] then Failure(MissingTextColumn)
    else
      var runs := Segments(frags);
      Success(seq(|runs|, k requires 0 <= k < |runs| => Pivot(runs[k])))
  }

  /**
   * The segmentation loop: cut the list at every marker but the first and append the
   * pivot of each run to the list of tables.
   */
  method ReconstructTables(frags: seq<Fragment>) returns (r: Result<seq<Grid>, TableError>)
    ensures r == Reconstruct(frags)
  {
    if |frags| == 0 {
      return Failure(MissingTextColumn);
    }
    var ends := RunEnds(frags);
    ghost var cuts := Cuts(frags);
    var tables: seq<Grid> := [];
    var start := 0;
    for j := 0 to |ends|
      invariant |tables| == j
      invariant start == cuts[j]
      invariant forall k :: 0 <= k < j ==> tables[k] == Pivot(frags[cuts[k]..cuts[k + 1]])
    {
      var end := ends[j];
      assert end == cuts[j + 1] && start <= end <= |frags|;
      tables := tables + [Pivot(frags[start..end])];
      start := end;
    }
    ReconstructByCuts(frags, tables);
    r := Success(tables);
  }

  /**
   * `marker_indices[1:] + [len(tables)]`: where each run ends, which is every cut point
   * but the first.
   */
  function RunEnds(frags: seq<Fragment>): (ends: seq<nat>)
    ensures ends == Cuts(frags)[1..]
  {
    var ps := MarkerPositions(frags);
    var ends := (if |ps| == 0 then [] else ps[1..]) + [|frags|];
    var cuts := Cuts(frags);
    assert |ends| == |cuts| - 1;
    assert forall k :: 0 <= k < |ends| ==> ends[k] == cuts[k + 1] by {
      forall k | 0 <= k < |ends| ensures ends[k] == cuts[k + 1] {
        if k + 1 < |cuts| - 1 {
          assert ends[k] == ps[k + 1];
        }
      }
    }
    ends
  }

  /** A list of grids that pivots run k at position k is the reconstruction. */
  lemma ReconstructByCuts(frags: seq<Fragment>, tables: seq<Grid>)
    requires frags != []
    requires |tables| == |Cuts(frags)| - 1
    requires forall k :: 0 <= k < |tables| ==> tables[k] == Pivot(frags[Cuts(frags)[k]..Cuts(frags)[k + 1]])
    ensures Reconstruct(frags) == Success(tables)
  {
    var runs := Segments(frags);
    forall k | 0 <= k < |runs| ensures tables[k] == Pivot(runs[k]) {
      assert runs[k] == frags[Cuts(frags)[k]..Cuts(frags)[k + 1]];
    }
    var grids := Reconstruct(frags).value;
    assert |grids| == |runs|;
    assert forall k :: 0 <= k < |grids| ==> grids[k] == Pivot(runs[k]);
    assert grids == tables;
  }

  /**
   * Grid count: one grid per marker fragment when there is a marker, and a single grid
   * over the whole list when there is none.
   */
  lemma GridCount(frags: seq<Fragment>)
    requires frags != []
    ensures Count(frags, IsMarker) == 0 ==> Reconstruct(frags).value == [Pivot(frags)]
    ensures Count(frags, IsMarker) > 0 ==> |Reconstruct(frags).value| == Count(frags, IsMarker)
  {
    PositionsCount(frags, IsMarker);
    if Count(frags, IsMarker) == 0 {
      var runs := Segments(frags);
      assert |runs| == 1;
      assert runs[0] == frags[0..|frags|] == frags;
      assert Reconstruct(frags).value == [Pivot(runs[0])];
    }
  }

  lemma {:induction false} ConcatSlices<T>(s: seq<T>, cuts: seq<nat>)
    requires |cuts| >= 1
    requires forall j, k :: 0 <= j <= k < |cuts| ==> cuts[j] <= cuts[k]
    requires forall k :: 0 <= k < |cuts| ==> cuts[k] <= |s|
    ensures Concat(Slices(s, cuts)) == s[cuts[0]..cuts[|cuts| - 1]]
  {
    if |cuts| >= 2 {
      ConcatSlices(s, cuts[1..]);
      assert Slices(s, cuts)[1..] == Slices(s, cuts[1..]);
      assert s[cuts[0]..cuts[1]] + s[cuts[1]..cuts[|cuts| - 1]] == s[cuts[0]..cuts[|cuts| - 1]];
    }
  }

  /**
   * The runs partition the list: concatenated they give it back, so nothing is
   * dropped, including the fragments before the first marker.
   */
  lemma SegmentsPartition(frags: seq<Fragment>)
    ensures Concat(Segments(frags)) == frags
  {
    ConcatSlices(frags, Cuts(frags));
    assert frags[0..|frags|] == frags;
  }

  /**
   * The cut points strictly increase on a non-empty list, so every run is non-empty
   * and the grids come in the order of their runs' start positions.
   */
  lemma CutsIncrease(frags: seq<Fragment>)
    requires frags != []
    ensures StrictlyIncreasing(Cuts(frags))
    ensures forall k :: 0 <= k < |Segments(frags)| ==> Segments(frags)[k] != []
  {
    var ps := MarkerPositions(frags);
    var cuts := Cuts(frags);
    forall j, k | 0 <= j < k < |cuts| ensures cuts[j] < cuts[k] {
      if 0 < j && k < |cuts| - 1 {
        assert ps[j] < ps[k];
      } else if j == 0 && 0 < k < |cuts| - 1 {
        assert ps[0] < ps[k];
      }
    }
    var runs := Segments(frags);
    forall k | 0 <= k < |runs| ensures runs[k] != [] {
      assert cuts[k] < cuts[k + 1];
    }
  }

  /**
   * Where the markers of a list fall among its cut points: index `i` of run `k` is a
   * marker position exactly when it is the first marker (run 0) or the run's start.
   */
  lemma CutPointsLocate(ps: seq<nat>, n: nat, k: nat, i: nat)
    requires StrictlyIncreasing(ps)
    requires forall m :: 0 <= m < |ps| ==> ps[m] < n
    requires k < |CutPoints(ps, n)| - 1
    requires CutPoints(ps, n)[k] <= i < CutPoints(ps, n)[k + 1]
    ensures i in ps <==> |ps| > 0 && i == ps[k]
  {
    var cuts := CutPoints(ps, n);
    if i in ps {
      var m :| 0 <= m < |ps| && ps[m] == i;
    }
  }

  /** Element j of run k is the fragment at cut point k plus j. */
  lemma SegmentAt(frags: seq<Fragment>, k: nat, j: nat)
    requires k < |Segments(frags)| && j < |Segments(frags)[k]|
    ensures Cuts(frags)[k] + j < Cuts(frags)[k + 1]
    ensures Segments(frags)[k][j] == frags[Cuts(frags)[k] + j]
  {
    var cuts := Cuts(frags);
    assert Segments(frags)[k] == frags[cuts[k]..cuts[k + 1]];
  }

  /**
   * Segment starts and contents: every run after the first begins with a marker and
   * holds no other; the first run holds only the first marker, wherever it stands.
   */
  lemma SegmentMarkers(frags: seq<Fragment>, k: nat, j: nat)
    requires k < |Segments(frags)| && j < |Segments(frags)[k]|
    ensures IsMarker(Segments(frags)[k][j]) <==>
      var ps := MarkerPositions(frags);
      |ps| > 0 && (if k == 0 then j == ps[0] else j == 0)
  {
    var ps := MarkerPositions(frags);
    var cuts := Cuts(frags);
    SegmentAt(frags, k, j);
    var i := cuts[k] + j;
    CutPointsLocate(ps, |frags|, k, i);
    assert IsMarker(frags[i]) <==> i in ps;
    if k == 0 {
      assert i == j;
    } else {
      assert k < |ps| && cuts[k] == ps[k];
    }
  }

  /** Every run after the first is non-empty and begins with a marker fragment. */
  lemma SegmentStarts(frags: seq<Fragment>, k: nat)
    requires 0 < k < |Segments(frags)|
    ensures Segments(frags)[k] != [] && IsMarker(Segments(frags)[k][0])
  {
    CutsIncrease(frags);
    SegmentMarkers(frags, k, 0);
  }

  /** A worked case of the marker scan: a title, a dated row and an item row. */
  lemma ExampleMarkers(frags: seq<Fragment>)
    requires frags == [Fragment("Invoice", 0, 0), Fragment("Date:", 1, 0), Fragment("A", 1, 1),
                       Fragment("Item", 2, 0), Fragment("B", 2, 1), Fragment("C", 2, 1)]
    ensures MarkerPositions(frags) == [1, 3]
  {
    assert !IsMarker(frags[0]) && IsMarker(frags[1]) && !IsMarker(frags[2]);
    assert IsMarker(frags[3]) && !IsMarker(frags[4]) && !IsMarker(frags[5]);
    assert PositionsFrom(frags, IsMarker, 6) == [];
    assert PositionsFrom(frags, IsMarker, 5) == [];
    assert PositionsFrom(frags, IsMarker, 4) == [];
    assert PositionsFrom(frags, IsMarker, 3) == [3];
    assert PositionsFrom(frags, IsMarker, 2) == [3];
    assert PositionsFrom(frags, IsMarker, 1) == [1, 3];
    assert PositionsFrom(frags, IsMarker, 0) == [1, 3];
  }

  /**
   * The same case cut into runs: the title before the first marker stays in the first
   * run and only the second marker cuts, so the runs are `frags[0..3]` (title and date
   * row) and `frags[3..6]` (item row).
   */
  lemma ExampleCuts(frags: seq<Fragment>)
    requires frags == [Fragment("Invoice", 0, 0), Fragment("Date:", 1, 0), Fragment("A", 1, 1),
                       Fragment("Item", 2, 0), Fragment("B", 2, 1), Fragment("C", 2, 1)]
    ensures Cuts(frags) == [0, 3, 6]
  {
    ExampleMarkers(frags);
    assert [1, 3][1..] == [3];
    assert CutPoints([1, 3], 6) == [0, 3, 6];
  }

  /**
   * The same case as whole tables: two grids, the pivots of the two runs in order; in
   * the second, "B" and "C" share cell (2, 1), which holds "B C".
   */
  lemma ExampleTables(frags: seq<Fragment>)
    requires frags == [Fragment("Invoice", 0, 0), Fragment("Date:", 1, 0), Fragment("A", 1, 1),
                       Fragment("Item", 2, 0), Fragment("B", 2, 1), Fragment("C", 2, 1)]
    ensures Reconstruct(frags) == Success([Pivot(frags[0..3]), Pivot(frags[3..6])])
    ensures (2, 1) in Pivot(frags[3..6]).cells && Pivot(frags[3..6]).cells[(2, 1)] == "B C"
  {
    ExampleCuts(frags);
    ReconstructByCuts(frags, [Pivot(frags[0..3]), Pivot(frags[3..6])]);
    assert frags[3..6] == [Fragment("Item", 2, 0), Fragment("B", 2, 1), Fragment("C", 2, 1)];
    ExampleJoinedCell(frags[3..6]);
  }
}
