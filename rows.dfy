/** Row clustering shared by both front ends: a walk over bubbles already
    sorted by y that keeps adding to the current row while each bubble lies
    within the tolerance of the previous one (`last_y` follows every appended
    bubble), and closes the row otherwise. Each closed row is sorted by x. */
module Rows {
  import opened Bubbles
  import opened StableSort

  function Abs(n: int): nat
  {
    if n < 0 then -n else n
  }

  /** The rows the walk forms over `s`, before the x-sort: one row per maximal
      run of neighbours whose y values differ by less than `tol`. */
  function Segments(s: seq<Bubble>, tol: nat): (rows: seq<seq<Bubble>>)
    ensures (rows == []) == (s == [])
    ensures forall i :: 0 <= i < |rows| ==> rows[i] != []
  {
    if s == [] then []
    else
      var rows := Segments(s[..|s| - 1], tol);
      var b := Last(s);
      if |s| == 1 then [[b]]
      else if Abs(b.y - s[|s| - 2].y) < tol then rows[..|rows| - 1] + [Last(rows) + [b]]
      else rows + [[b]]
  }

  /** Inside `row` every step in y is below `tol`. */
  ghost predicate Tight(row: seq<Bubble>, tol: nat)
  {
    forall j :: 0 < j < |row| ==> Abs(row[j].y - row[j - 1].y) < tol
  }

  lemma SegmentsSnoc(t: seq<Bubble>, b: Bubble, tol: nat)
    ensures t == [] ==> Segments(t + [b], tol) == [[b]]
    ensures t != [] && Abs(b.y - Last(t).y) < tol ==>
      Segments(t + [b], tol) == Segments(t, tol)[..|Segments(t, tol)| - 1] + [Last(Segments(t, tol)) + [b]]
    ensures t != [] && Abs(b.y - Last(t).y) >= tol ==> Segments(t + [b], tol) == Segments(t, tol) + [[b]]
  {
    var s := t + [b];
    assert s[..|s| - 1] == t;
    if t != [] {
      assert s[|s| - 2] == Last(t);
      SegmentsLast(s, tol);
    }
  }

  /** The walk's last step, read off the last two bubbles of `s`. */
  lemma SegmentsLast(s: seq<Bubble>, tol: nat)
    requires |s| >= 2
    ensures Abs(Last(s).y - s[|s| - 2].y) < tol ==>
      Segments(s, tol) == Segments(s[..|s| - 1], tol)[..|Segments(s[..|s| - 1], tol)| - 1] + [Last(Segments(s[..|s| - 1], tol)) + [Last(s)]]
    ensures Abs(Last(s).y - s[|s| - 2].y) >= tol ==> Segments(s, tol) == Segments(s[..|s| - 1], tol) + [[Last(s)]]
  {
  }

  /** `rows` cuts `s` into non-empty consecutive pieces; inside a piece every
      step in y is below `tol`, and between pieces the step is at least `tol`. */
  ghost predicate ChainedRows(s: seq<Bubble>, rows: seq<seq<Bubble>>, tol: nat)
  {
    && Flatten(rows) == s
    && (forall i :: 0 <= i < |rows| ==> rows[i] != [] && Tight(rows[i], tol))
    && (forall i :: 0 < i < |rows| ==> Abs(rows[i][0].y - Last(rows[i - 1]).y) >= tol)
  }

  lemma {:induction false} FlattenLast(rows: seq<seq<Bubble>>)
    requires rows != [] && Last(rows) != []
    ensures Flatten(rows) != [] && Last(Flatten(rows)) == Last(Last(rows))
  {
  }

  lemma {:induction false} FlattenNonEmpty(rows: seq<seq<Bubble>>)
    requires forall i :: 0 <= i < |rows| ==> rows[i] != []
    ensures (Flatten(rows) == []) == (rows == [])
  {
    if rows != [] {
      FlattenLast(rows);
    }
  }

  lemma TightAppend(row: seq<Bubble>, b: Bubble, tol: nat)
    requires row != [] && Tight(row, tol) && Abs(b.y - Last(row).y) < tol
    ensures Tight(row + [b], tol)
  {
    var row' := row + [b];
    forall j | 0 < j < |row'| ensures Abs(row'[j].y - row'[j - 1].y) < tol {
      if j < |row| {
        assert row'[j] == row[j] && row'[j - 1] == row[j - 1];
      }
    }
  }

  lemma TightTrim(row: seq<Bubble>, tol: nat)
    requires row != [] && Tight(row, tol)
    ensures Tight(row[..|row| - 1], tol)
  {
    var row' := row[..|row| - 1];
    forall j | 0 < j < |row'| ensures Abs(row'[j].y - row'[j - 1].y) < tol {
      assert row'[j] == row[j] && row'[j - 1] == row[j - 1];
    }
  }

  lemma {:induction false} SegmentsChained(s: seq<Bubble>, tol: nat)
    ensures ChainedRows(s, Segments(s, tol), tol)
  {
    if s != [] {
      var init := s[..|s| - 1];
      SegmentsChained(init, tol);
      assert s == init + [Last(s)];
      SegmentsChainedStep(init, Last(s), tol);
    }
  }

  /** One step of the walk keeps the cut chained. */
  lemma SegmentsChainedStep(init: seq<Bubble>, b: Bubble, tol: nat)
    requires ChainedRows(init, Segments(init, tol), tol)
    ensures ChainedRows(init + [b], Segments(init + [b], tol), tol)
  {
    var rows := Segments(init, tol);
    SegmentsSnoc(init, b, tol);
    if init == [] {
      assert Flatten([[b]]) == Flatten([]) + [b];
    } else {
      FlattenLast(rows);
      if Abs(b.y - Last(init).y) < tol {
        MergeChained(init, rows, b, tol);
      } else {
        SplitChained(init, rows, b, tol);
      }
    }
  }

  lemma MergeChained(init: seq<Bubble>, rows: seq<seq<Bubble>>, b: Bubble, tol: nat)
    requires ChainedRows(init, rows, tol) && rows != []
    requires Abs(b.y - Last(Last(rows)).y) < tol
    ensures ChainedRows(init + [b], rows[..|rows| - 1] + [Last(rows) + [b]], tol)
  {
    var n := |rows|;
    var rows': seq<seq<Bubble>> := rows[..n - 1] + [Last(rows) + [b]];
    assert rows'[..n - 1] == rows[..n - 1];
    assert Flatten(rows) == Flatten(rows[..n - 1]) + Last(rows);
    assert Flatten(rows') == Flatten(rows[..n - 1]) + (Last(rows) + [b]);
    TightAppend(Last(rows), b, tol);
    forall i | 0 <= i < n ensures rows'[i] != [] && Tight(rows'[i], tol) {
      if i < n - 1 {
        assert rows'[i] == rows[i];
      }
    }
    forall i | 0 < i < n ensures Abs(rows'[i][0].y - Last(rows'[i - 1]).y) >= tol {
      assert rows'[i - 1] == rows[i - 1];
      assert rows'[i][0] == rows[i][0];
    }
  }

  lemma SplitChained(init: seq<Bubble>, rows: seq<seq<Bubble>>, b: Bubble, tol: nat)
    requires ChainedRows(init, rows, tol) && rows != []
    requires Abs(b.y - Last(Last(rows)).y) >= tol
    ensures ChainedRows(init + [b], rows + [[b]], tol)
  {
    var rows': seq<seq<Bubble>> := rows + [[b]];
    assert rows'[..|rows|] == rows;
    forall i | 0 <= i < |rows'| ensures rows'[i] != [] && Tight(rows'[i], tol) {
      if i < |rows| {
        assert rows'[i] == rows[i];
      }
    }
  }

  /** The walk's rows are the only cut of `s` with the chaining property. */
  lemma {:induction false} ChainedIsSegments(s: seq<Bubble>, rows: seq<seq<Bubble>>, tol: nat)
    requires ChainedRows(s, rows, tol)
    ensures rows == Segments(s, tol)
    decreases |s|
  {
    if s == [] {
      FlattenNonEmpty(rows);
    } else {
      var s0, rows0 := ShrinkChained(s, rows, tol);
      ChainedIsSegments(s0, rows0, tol);
    }
  }

  /** A chained cut without its last bubble is again a chained cut, and when
      that smaller cut is the walk's, so is the original. */
  lemma ShrinkChained(s: seq<Bubble>, rows: seq<seq<Bubble>>, tol: nat)
    returns (s0: seq<Bubble>, rows0: seq<seq<Bubble>>)
    requires ChainedRows(s, rows, tol) && s != []
    ensures |s0| < |s| && ChainedRows(s0, rows0, tol)
    ensures rows0 == Segments(s0, tol) ==> rows == Segments(s, tol)
  {
    FlattenNonEmpty(rows);
    s0 := s[..|s| - 1];
    if |Last(rows)| == 1 {
      DropChained(s, rows, tol);
      rows0 := rows[..|rows| - 1];
      if rows0 == Segments(s0, tol) {
        SplitIsSegments(s, rows, tol);
      }
    } else {
      TrimChained(s, rows, tol);
      var last := Last(rows);
      rows0 := rows[..|rows| - 1] + [last[..|last| - 1]];
      if rows0 == Segments(s0, tol) {
        LastRowTail(s, rows, tol);
        MergeIsSegments(s, rows, tol);
      }
    }
  }

  /** A run whose every step is below `tol` is a single row. */
  lemma SingleSegment(row: seq<Bubble>, tol: nat)
    requires row != [] && Tight(row, tol)
    ensures Segments(row, tol) == [row]
  {
    var rows := [row];
    assert rows[..0] == [];
    assert Flatten(rows) == Flatten([]) + row;
    ChainedIsSegments(row, rows, tol);
  }

  lemma SplitIsSegments(s: seq<Bubble>, rows: seq<seq<Bubble>>, tol: nat)
    requires ChainedRows(s, rows, tol) && s != [] && rows != [] && |Last(rows)| == 1
    requires rows[..|rows| - 1] == Segments(s[..|s| - 1], tol)
    ensures rows == Segments(s, tol)
  {
    var n := |rows|;
    var init := s[..|s| - 1];
    var rows0 := rows[..n - 1];
    assert Flatten(rows) == Flatten(rows0) + Last(rows);
    assert s == init + [Last(s)];
    assert Last(rows) == [Last(s)];
    assert rows == rows0 + [[Last(s)]];
    if init != [] {
      FlattenLast(rows0);
      assert Last(rows[n - 2]) == s[|s| - 2];
      assert Abs(rows[n - 1][0].y - Last(rows[n - 2]).y) >= tol;
    }
  }

  /** The last two bubbles of a chained cut whose last row holds two or more
      both lie in that row, a step below `tol` apart. */
  lemma LastRowTail(s: seq<Bubble>, rows: seq<seq<Bubble>>, tol: nat)
    requires ChainedRows(s, rows, tol) && rows != [] && |Last(rows)| >= 2
    ensures |s| >= 2
    ensures Last(s) == Last(Last(rows))
    ensures s[|s| - 2] == Last(rows)[|Last(rows)| - 2]
    ensures Abs(Last(s).y - s[|s| - 2].y) < tol
  {
    var n := |rows|;
    var last := Last(rows);
    assert Flatten(rows) == Flatten(rows[..n - 1]) + last;
    assert Tight(rows[n - 1], tol);
    assert Abs(last[|last| - 1].y - last[|last| - 2].y) < tol;
  }

  lemma MergeIsSegments(s: seq<Bubble>, rows: seq<seq<Bubble>>, tol: nat)
    requires rows != [] && |Last(rows)| >= 2 && |s| >= 2
    requires Last(s) == Last(Last(rows)) && Abs(Last(s).y - s[|s| - 2].y) < tol
    requires rows[..|rows| - 1] + [Last(rows)[..|Last(rows)| - 1]] == Segments(s[..|s| - 1], tol)
    ensures rows == Segments(s, tol)
  {
    var n := |rows|;
    var last := Last(rows);
    var rows1 := rows[..n - 1] + [last[..|last| - 1]];
    SegmentsLast(s, tol);
    assert rows1[..n - 1] == rows[..n - 1];
    assert last == Last(rows1) + [Last(s)];
    assert rows == rows1[..n - 1] + [Last(rows1) + [Last(s)]];
  }

  /** Dropping a final row of one bubble keeps the cut chained. */
  lemma DropChained(s: seq<Bubble>, rows: seq<seq<Bubble>>, tol: nat)
    requires ChainedRows(s, rows, tol) && rows != [] && |Last(rows)| == 1
    ensures s != []
    ensures ChainedRows(s[..|s| - 1], rows[..|rows| - 1], tol)
  {
    var n := |rows|;
    assert Flatten(rows) == Flatten(rows[..n - 1]) + Last(rows);
    assert Flatten(rows[..n - 1]) == s[..|s| - 1];
    var rows0 := rows[..n - 1];
    forall i | 0 <= i < |rows0| ensures rows0[i] != [] && Tight(rows0[i], tol) {
      assert rows0[i] == rows[i];
    }
  }

  /** Dropping the final bubble from a last row of two or more keeps the cut chained. */
  lemma TrimChained(s: seq<Bubble>, rows: seq<seq<Bubble>>, tol: nat)
    requires ChainedRows(s, rows, tol) && rows != [] && |Last(rows)| >= 2
    ensures s != []
    ensures ChainedRows(s[..|s| - 1], rows[..|rows| - 1] + [Last(rows)[..|Last(rows)| - 1]], tol)
  {
    var n := |rows|;
    var last := Last(rows);
    var rows1 := rows[..n - 1] + [last[..|last| - 1]];
    assert Flatten(rows) == Flatten(rows[..n - 1]) + last;
    assert rows1[..n - 1] == rows[..n - 1];
    assert last == last[..|last| - 1] + [Last(last)];
    assert Flatten(rows1) == Flatten(rows[..n - 1]) + last[..|last| - 1];
    assert Flatten(rows1) == s[..|s| - 1];
    TightTrim(last, tol);
    forall i | 0 <= i < n ensures rows1[i] != [] && Tight(rows1[i], tol) {
      if i < n - 1 {
        assert rows1[i] == rows[i];
      }
    }
    forall i | 0 < i < n ensures Abs(rows1[i][0].y - Last(rows1[i - 1]).y) >= tol {
      assert rows1[i - 1] == rows[i - 1];
      assert rows1[i][0] == rows[i][0];
    }
  }

  /** Inside `row` y never decreases and each step is below `tol`. */
  ghost predicate Rising(row: seq<Bubble>, tol: nat)
  {
    forall j :: 0 < j < |row| ==> row[j - 1].y <= row[j].y < row[j - 1].y + tol
  }

  lemma RisingAppend(row: seq<Bubble>, b: Bubble, tol: nat)
    requires row != [] && Rising(row, tol) && Last(row).y <= b.y < Last(row).y + tol
    ensures Rising(row + [b], tol)
  {
    var row' := row + [b];
    forall j | 0 < j < |row'| ensures row'[j - 1].y <= row'[j].y < row'[j - 1].y + tol {
      if j < |row| {
        assert row'[j] == row[j] && row'[j - 1] == row[j - 1];
      }
    }
  }

  /** Rows that ascend: inside a row each step in y is in [0, tol), and a
      new row starts at least `tol` below the last bubble of the previous one. */
  ghost predicate AscendingRows(rows: seq<seq<Bubble>>, tol: nat)
    requires forall i :: 0 <= i < |rows| ==> rows[i] != []
  {
    && (forall i :: 0 <= i < |rows| ==> Rising(rows[i], tol))
    && (forall i :: 0 < i < |rows| ==> Last(rows[i - 1]).y + tol <= rows[i][0].y)
  }

  /** Extending the last row by a bubble that rises less than `tol` keeps
      the rows ascending. */
  lemma AscendingMerge(rows: seq<seq<Bubble>>, b: Bubble, rows': seq<seq<Bubble>>, tol: nat)
    requires rows != [] && forall i :: 0 <= i < |rows| ==> rows[i] != []
    requires AscendingRows(rows, tol)
    requires Last(Last(rows)).y <= b.y < Last(Last(rows)).y + tol
    requires rows' == rows[..|rows| - 1] + [Last(rows) + [b]]
    ensures forall i :: 0 <= i < |rows'| ==> rows'[i] != []
    ensures AscendingRows(rows', tol)
  {
    var n := |rows|;
    RisingAppend(Last(rows), b, tol);
    forall i | 0 <= i < n ensures rows'[i] != [] && Rising(rows'[i], tol) {
      if i < n - 1 {
        assert rows'[i] == rows[i];
      }
    }
    forall i | 0 < i < n ensures Last(rows'[i - 1]).y + tol <= rows'[i][0].y {
      assert rows'[i - 1] == rows[i - 1];
      assert rows'[i][0] == rows[i][0];
    }
  }

  /** Opening a row with a bubble at least `tol` below the last one keeps the
      rows ascending. */
  lemma AscendingSplit(rows: seq<seq<Bubble>>, b: Bubble, rows': seq<seq<Bubble>>, tol: nat)
    requires rows != [] && forall i :: 0 <= i < |rows| ==> rows[i] != []
    requires AscendingRows(rows, tol)
    requires Last(Last(rows)).y + tol <= b.y
    requires rows' == rows + [[b]]
    ensures forall i :: 0 <= i < |rows'| ==> rows'[i] != []
    ensures AscendingRows(rows', tol)
  {
    var n := |rows|;
    forall i | 0 <= i < n + 1 ensures rows'[i] != [] && Rising(rows'[i], tol) {
      if i < n {
        assert rows'[i] == rows[i];
      }
    }
    forall i | 0 < i < n + 1 ensures Last(rows'[i - 1]).y + tol <= rows'[i][0].y {
      if i < n {
        assert rows'[i] == rows[i];
      }
    }
  }

  /** On y-sorted input the walk's rows ascend. */
  lemma {:induction false} SegmentsAscending(s: seq<Bubble>, tol: nat)
    requires SortedBy(s, Y)
    ensures AscendingRows(Segments(s, tol), tol)
  {
    if |s| > 1 {
      var init := s[..|s| - 1];
      var b := Last(s);
      var rows := Segments(init, tol);
      assert SortedBy(init, Y);
      SegmentsAscending(init, tol);
      SegmentsChained(init, tol);
      FlattenLast(rows);
      assert Last(init) == s[|s| - 2];
      assert s[|s| - 2].y <= b.y;
      SegmentsLast(s, tol);
      if Abs(b.y - s[|s| - 2].y) < tol {
        AscendingMerge(rows, b, Segments(s, tol), tol);
      } else {
        AscendingSplit(rows, b, Segments(s, tol), tol);
      }
    }
  }

  /** Every row sorted by x, as the program does before emitting it. */
  function SortEach(rows: seq<seq<Bubble>>): seq<seq<Bubble>>
  {
    seq(|rows|, i requires 0 <= i < |rows| => Sort(rows[i], X))
  }

  lemma SortEachSingle(row: seq<Bubble>)
    ensures SortEach([row]) == [Sort(row, X)]
  {
    assert [row][..0] == [];
  }

  lemma {:induction false} SortEachFlatten(rows: seq<seq<Bubble>>)
    ensures multiset(Flatten(SortEach(rows))) == multiset(Flatten(rows))
  {
    if rows != [] {
      var init := rows[..|rows| - 1];
      SortEachFlatten(init);
      var sorted := SortEach(rows);
      assert sorted[..|sorted| - 1] == SortEach(init);
    }
  }

  /** The row walk (`line`, `last_y`) over a y-sorted column, emitting each
      finished row sorted by x. */
  method SplitRows(s: seq<Bubble>, tol: nat) returns (rows: seq<seq<Bubble>>)
    ensures rows == SortEach(Segments(s, tol))
  {
    rows := [];
    var line: seq<Bubble> := [];
    var lastY: Option<int> := None;
    ghost var closed: seq<seq<Bubble>> := [];
    for i := 0 to |s|
      invariant rows == SortEach(closed)
      invariant i == 0 ==> line == [] && closed == [] && lastY == None
      invariant i > 0 ==> lastY == Some(s[i - 1].y) && Segments(s[..i], tol) == closed + [line]
    {
      var b := s[i];
      WalkStep(s, i, closed, line, tol);
      if lastY.None? || Abs(b.y - lastY.value) < tol {
        line := line + [b];
        lastY := Some(b.y);
      } else {
        SortEachSnoc(closed, line);
        rows := rows + [Sort(line, X)];
        closed := closed + [line];
        line := [b];
        lastY := Some(b.y);
      }
    }
    assert s[..|s|] == s;
    assert s != [] ==> Segments(s, tol)[|closed|] == line;
    if line != [] {
      SortEachSnoc(closed, line);
      rows := rows + [Sort(line, X)];
      closed := closed + [line];
    }
  }

  /** One step of the walk, in terms of the rows formed so far. */
  lemma WalkStep(s: seq<Bubble>, i: nat, closed: seq<seq<Bubble>>, line: seq<Bubble>, tol: nat)
    requires i < |s|
    requires i == 0 ==> line == [] && closed == []
    requires i > 0 ==> Segments(s[..i], tol) == closed + [line]
    ensures Segments(s[..i + 1], tol) ==
      if i == 0 || Abs(s[i].y - s[i - 1].y) < tol then closed + [line + [s[i]]]
      else closed + [line] + [[s[i]]]
  {
    var t := s[..i];
    assert s[..i + 1] == t + [s[i]];
    SegmentsSnoc(t, s[i], tol);
    if i > 0 {
      var rows := closed + [line];
      assert Last(t) == s[i - 1];
      assert rows[..|rows| - 1] == closed;
      assert Last(rows) == line;
    }
  }

  lemma SortEachSnoc(rows: seq<seq<Bubble>>, row: seq<Bubble>)
    ensures SortEach(rows + [row]) == SortEach(rows) + [Sort(row, X)]
  {
    assert (rows + [row])[..|rows|] == rows;
  }

  /** Rows as the scorers need them: none empty, each sorted by x. */
  ghost predicate WellFormed(rows: seq<seq<Bubble>>)
  {
    forall i :: 0 <= i < |rows| ==> rows[i] != [] && SortedBy(rows[i], X)
  }

  lemma WellFormedConcat(a: seq<seq<Bubble>>, b: seq<seq<Bubble>>)
    requires WellFormed(a) && WellFormed(b)
    ensures WellFormed(a + b)
  {
    forall i | 0 <= i < |a + b| ensures (a + b)[i] != [] && SortedBy((a + b)[i], X) {
      if i < |a| {
        assert (a + b)[i] == a[i];
      } else {
        assert (a + b)[i] == b[i - |a|];
      }
    }
  }

  /** What the walk promises: the rows regroup exactly the input, none is
      empty, and each is sorted by x. */
  lemma SplitRowsSpec(s: seq<Bubble>, tol: nat)
    ensures multiset(Flatten(SortEach(Segments(s, tol)))) == multiset(s)
    ensures (SortEach(Segments(s, tol)) == []) == (s == [])
    ensures WellFormed(SortEach(Segments(s, tol)))
  {
    SegmentsChained(s, tol);
    SortEachFlatten(Segments(s, tol));
  }
}
