/** How far the grouping depends on the order in which contours arrive. The
    sorts are stable, so bubbles with equal keys keep that order; the row
    walk never cuts between equal y values, and the x-sort of a y-sorted row
    orders equal x values by y. So the rows depend only on which bubbles
    there are, as long as no two of them share both x and y. */
module Determinism {
  import opened Bubbles
  import opened StableSort
  import opened Rows

  /** No two different bubbles of `s` sit at the same (x, y). */
  ghost predicate Positioned(s: seq<Bubble>)
  {
    forall b, c :: b in s && c in s && b.x == c.x && b.y == c.y ==> b == c
  }

  /** `s` and `t` have the same y at every index. */
  ghost predicate SameYs(s: seq<Bubble>, t: seq<Bubble>)
  {
    |s| == |t| && forall i :: 0 <= i < |s| ==> s[i].y == t[i].y
  }

  // ------------------------------------------------- sorted by y, same bubbles

  /** Taking out a bubble that shares the largest y keeps the rest sorted,
      and leaves the y values at every earlier index unchanged. */
  lemma DropTopAt(s: seq<Bubble>, j: nat)
    requires SortedBy(s, Y) && j < |s| && s[j].y == Last(s).y
    ensures SortedBy(s[..j] + s[j + 1..], Y)
    ensures forall i :: 0 <= i < |s| - 1 ==> (s[..j] + s[j + 1..])[i].y == s[i].y
    ensures multiset(s[..j] + s[j + 1..]) == multiset(s) - multiset{s[j]}
  {
    var s0 := s[..j] + s[j + 1..];
    DropIndex(s, j, s0);
    TopBlock(s, j);
    DropSorted(s, j, s0);
    DropYs(s, j, s0);
    DropMultiset(s, j, s0);
  }

  lemma DropSorted(s: seq<Bubble>, j: nat, s0: seq<Bubble>)
    requires SortedBy(s, Y) && j < |s| && |s0| == |s| - 1
    requires forall i :: 0 <= i < j ==> s0[i] == s[i]
    requires forall i :: j <= i < |s0| ==> s0[i] == s[i + 1]
    ensures SortedBy(s0, Y)
  {
    forall a, b | 0 <= a < b < |s0| ensures Key(s0[a], Y) <= Key(s0[b], Y) {
      var a', b' := if a < j then a else a + 1, if b < j then b else b + 1;
      assert s0[a] == s[a'] && s0[b] == s[b'] && a' < b';
    }
  }

  lemma DropYs(s: seq<Bubble>, j: nat, s0: seq<Bubble>)
    requires j < |s| && |s0| == |s| - 1
    requires forall i :: 0 <= i < j ==> s0[i] == s[i]
    requires forall i :: j <= i < |s0| ==> s0[i] == s[i + 1]
    requires forall i :: j <= i < |s| ==> s[i].y == s[j].y
    ensures forall i :: 0 <= i < |s0| ==> s0[i].y == s[i].y
  {
    forall i | 0 <= i < |s0| ensures s0[i].y == s[i].y {
      if j <= i {
        assert s0[i] == s[i + 1];
      }
    }
  }

  lemma DropMultiset(s: seq<Bubble>, j: nat, s0: seq<Bubble>)
    requires j < |s| && s0 == s[..j] + s[j + 1..]
    ensures multiset(s0) == multiset(s) - multiset{s[j]}
  {
    assert s == s[..j] + [s[j]] + s[j + 1..];
  }

  lemma DropIndex(s: seq<Bubble>, j: nat, s0: seq<Bubble>)
    requires j < |s| && s0 == s[..j] + s[j + 1..]
    ensures |s0| == |s| - 1
    ensures forall i :: 0 <= i < j ==> s0[i] == s[i]
    ensures forall i :: j <= i < |s0| ==> s0[i] == s[i + 1]
  {
  }

  /** From a bubble sharing the largest y to the end, every y is that y. */
  lemma TopBlock(s: seq<Bubble>, j: nat)
    requires SortedBy(s, Y) && j < |s| && s[j].y == Last(s).y
    ensures forall i :: j <= i < |s| ==> s[i].y == s[j].y
  {
    forall i | j <= i < |s| ensures s[i].y == s[j].y {
      if j < i {
        assert Key(s[j], Y) <= Key(s[i], Y);
      }
      if i < |s| - 1 {
        assert Key(s[i], Y) <= Key(Last(s), Y);
      }
    }
  }

  /** Two y-sorted arrangements of the same bubbles agree in y everywhere. */
  lemma {:induction false} SortedYs(s: seq<Bubble>, t: seq<Bubble>)
    requires SortedBy(s, Y) && SortedBy(t, Y) && multiset(s) == multiset(t)
    ensures SameYs(s, t)
    decreases |s|
  {
    assert |s| == |t| by {
      assert |s| == |multiset(s)|;
    }
    if s != [] {
      var j := TopShared(s, t);
      DropTopAt(s, j);
      SortedInit(t);
      var s0 := s[..j] + s[j + 1..];
      SortedYs(s0, t[..|t| - 1]);
      SameYsSnoc(s, s0, t);
    }
  }

  /** Without its last bubble a y-sorted sequence stays sorted. */
  lemma SortedInit(t: seq<Bubble>)
    requires SortedBy(t, Y) && t != []
    ensures SortedBy(t[..|t| - 1], Y)
    ensures multiset(t[..|t| - 1]) == multiset(t) - multiset{Last(t)}
  {
    assert t == t[..|t| - 1] + [Last(t)];
  }

  lemma SameYsSnoc(s: seq<Bubble>, s0: seq<Bubble>, t: seq<Bubble>)
    requires |s| == |t| && s != [] && Last(s).y == Last(t).y
    requires |s0| == |s| - 1 && forall i :: 0 <= i < |s0| ==> s0[i].y == s[i].y
    requires SameYs(s0, t[..|t| - 1])
    ensures SameYs(s, t)
  {
    forall i | 0 <= i < |s| ensures s[i].y == t[i].y {
      if i < |s0| {
        assert s0[i].y == t[..|t| - 1][i].y == t[i].y;
      }
    }
  }

  /** The last bubble of `t` sits in `s` at an index whose y is the largest. */
  lemma TopShared(s: seq<Bubble>, t: seq<Bubble>) returns (j: nat)
    requires SortedBy(s, Y) && SortedBy(t, Y) && multiset(s) == multiset(t) && t != []
    ensures j < |s| && s[j] == Last(t) && s[j].y == Last(s).y == Last(t).y
  {
    assert Last(t) in multiset(s);
    j :| 0 <= j < |s| && s[j] == Last(t);
    assert Last(s) in multiset(t);
    var k :| 0 <= k < |t| && t[k] == Last(s);
    assert Key(t[k], Y) <= Key(Last(t), Y) && Key(s[j], Y) <= Key(Last(s), Y);
  }

  // ------------------------------------------------------- the walk's cuts

  /** Same number of rows, and row by row the same first and last y. */
  ghost predicate SameEnds(r: seq<seq<Bubble>>, q: seq<seq<Bubble>>)
  {
    |r| == |q| &&
    forall k :: 0 <= k < |r| ==>
      r[k] != [] && q[k] != [] && r[k][0].y == q[k][0].y && Last(r[k]).y == Last(q[k]).y
  }

  /** The walk decides from y values alone, so it cuts sequences that agree
      in y at the same places. */
  lemma {:induction false} SegmentsSameEnds(s: seq<Bubble>, t: seq<Bubble>, tol: nat)
    requires SameYs(s, t)
    ensures SameEnds(Segments(s, tol), Segments(t, tol))
    decreases |s|
  {
    if |s| == 1 {
      assert Segments(s, tol) == [[s[0]]] && Segments(t, tol) == [[t[0]]];
    } else if |s| >= 2 {
      var s0, t0 := s[..|s| - 1], t[..|t| - 1];
      assert SameYs(s0, t0) by {
        assert forall i :: 0 <= i < |s0| ==> s0[i] == s[i] && t0[i] == t[i];
      }
      SegmentsSameEnds(s0, t0, tol);
      SegmentsLast(s, tol);
      SegmentsLast(t, tol);
      var r, q := Segments(s0, tol), Segments(t0, tol);
      assert s[|s| - 2].y == t[|t| - 2].y && Last(s).y == Last(t).y;
      if Abs(Last(s).y - s[|s| - 2].y) < tol {
        SameEndsMerge(r, q, Last(s), Last(t), Segments(s, tol), Segments(t, tol));
      } else {
        SameEndsSplit(r, q, Last(s), Last(t), Segments(s, tol), Segments(t, tol));
      }
    }
  }

  lemma SameEndsMerge(r: seq<seq<Bubble>>, q: seq<seq<Bubble>>, a: Bubble, b: Bubble,
                      r': seq<seq<Bubble>>, q': seq<seq<Bubble>>)
    requires SameEnds(r, q) && r != [] && a.y == b.y
    requires r' == r[..|r| - 1] + [Last(r) + [a]] && q' == q[..|q| - 1] + [Last(q) + [b]]
    ensures SameEnds(r', q')
  {
    forall k | 0 <= k < |r'|
      ensures r'[k] != [] && q'[k] != [] && r'[k][0].y == q'[k][0].y && Last(r'[k]).y == Last(q'[k]).y
    {
      if k < |r| - 1 {
        assert r'[k] == r[k] && q'[k] == q[k];
      } else {
        assert r'[k] == Last(r) + [a] && q'[k] == Last(q) + [b];
      }
    }
  }

  lemma SameEndsSplit(r: seq<seq<Bubble>>, q: seq<seq<Bubble>>, a: Bubble, b: Bubble,
                      r': seq<seq<Bubble>>, q': seq<seq<Bubble>>)
    requires SameEnds(r, q) && a.y == b.y
    requires r' == r + [[a]] && q' == q + [[b]]
    ensures SameEnds(r', q')
  {
    forall k | 0 <= k < |r'|
      ensures r'[k] != [] && q'[k] != [] && r'[k][0].y == q'[k][0].y && Last(r'[k]).y == Last(q'[k]).y
    {
      if k < |r| {
        assert r'[k] == r[k] && q'[k] == q[k];
      }
    }
  }

  /** Every row is sorted by y. */
  ghost predicate RowsSorted(rows: seq<seq<Bubble>>)
  {
    forall k :: 0 <= k < |rows| ==> SortedBy(rows[k], Y)
  }

  /** Every bubble of an earlier row lies strictly above every bubble of a
      later row. */
  ghost predicate Separated(rows: seq<seq<Bubble>>)
  {
    forall k, l, e, f :: 0 <= k < l < |rows| && e in rows[k] && f in rows[l] ==> e.y < f.y
  }

  /** A bubble of a y-sorted row lies between the row's first and last y. */
  lemma SortedBounds(row: seq<Bubble>, e: Bubble)
    requires SortedBy(row, Y) && e in row
    ensures row[0].y <= e.y <= Last(row).y
  {
    var i :| 0 <= i < |row| && row[i] == e;
    if 0 < i {
      assert Key(row[0], Y) <= Key(row[i], Y);
    }
    if i < |row| - 1 {
      assert Key(row[i], Y) <= Key(Last(row), Y);
    }
  }

  /** The walk's last row ends with the last bubble. */
  lemma SegmentsEnd(s: seq<Bubble>, tol: nat)
    requires s != []
    ensures Last(Last(Segments(s, tol))) == Last(s)
  {
    if |s| >= 2 {
      SegmentsLast(s, tol);
    }
  }

  /** On y-sorted input with a positive tolerance, the rows are y-sorted and
      lie strictly one above the other. */
  lemma {:induction false} SegmentsSeparated(s: seq<Bubble>, tol: nat)
    requires tol > 0 && SortedBy(s, Y)
    ensures RowsSorted(Segments(s, tol)) && Separated(Segments(s, tol))
    decreases |s|
  {
    if |s| == 1 {
      assert Segments(s, tol) == [[s[0]]];
    } else if |s| >= 2 {
      var s0 := s[..|s| - 1];
      assert SortedBy(s0, Y);
      SegmentsSeparated(s0, tol);
      SegmentsLast(s, tol);
      SegmentsEnd(s0, tol);
      var r := Segments(s0, tol);
      assert Key(Last(s0), Y) <= Key(Last(s), Y);
      if Abs(Last(s).y - s[|s| - 2].y) < tol {
        SeparatedMerge(r, Last(s), Segments(s, tol));
      } else {
        SeparatedSplit(r, Last(s), Segments(s, tol));
      }
    }
  }

  lemma SeparatedMerge(r: seq<seq<Bubble>>, b: Bubble, r': seq<seq<Bubble>>)
    requires r != [] && (forall k :: 0 <= k < |r| ==> r[k] != [])
    requires RowsSorted(r) && Separated(r) && Last(Last(r)).y <= b.y
    requires r' == r[..|r| - 1] + [Last(r) + [b]]
    ensures RowsSorted(r') && Separated(r')
  {
    var n := |r|;
    forall k | 0 <= k < n ensures SortedBy(r'[k], Y) {
      if k < n - 1 {
        assert r'[k] == r[k];
      } else {
        SortedSnoc(Last(r), b);
      }
    }
    forall k, l, e, f | 0 <= k < l < n && e in r'[k] && f in r'[l] ensures e.y < f.y {
      assert r'[k] == r[k];
      if l < n - 1 {
        assert r'[l] == r[l];
      } else if f == b {
        assert Last(Last(r)) in r[n - 1];
      } else {
        assert f in r[n - 1];
      }
    }
  }

  /** A y-sorted row stays sorted under a bubble at or below its last one. */
  lemma SortedSnoc(row: seq<Bubble>, b: Bubble)
    requires row != [] && SortedBy(row, Y) && Last(row).y <= b.y
    ensures SortedBy(row + [b], Y)
  {
    forall i | 0 <= i < |row| ensures row[i].y <= b.y {
      SortedBounds(row, row[i]);
    }
  }

  lemma SeparatedSplit(r: seq<seq<Bubble>>, b: Bubble, r': seq<seq<Bubble>>)
    requires r != [] && (forall k :: 0 <= k < |r| ==> r[k] != [])
    requires RowsSorted(r) && Separated(r) && Last(Last(r)).y < b.y
    requires r' == r + [[b]]
    ensures RowsSorted(r') && Separated(r')
  {
    var n := |r|;
    forall k | 0 <= k < n + 1 ensures SortedBy(r'[k], Y) {
      if k < n {
        assert r'[k] == r[k];
      }
    }
    forall k, l, e, f | 0 <= k < l < n + 1 && e in r'[k] && f in r'[l] ensures e.y < f.y {
      assert r'[k] == r[k];
      if l < n {
        assert r'[l] == r[l];
      } else {
        assert f == b;
        BelowLast(r, k, e);
      }
    }
  }

  /** Every bubble of the rows lies at or above the last row's last y. */
  lemma BelowLast(r: seq<seq<Bubble>>, k: nat, e: Bubble)
    requires r != [] && (forall i :: 0 <= i < |r| ==> r[i] != [])
    requires RowsSorted(r) && Separated(r)
    requires k < |r| && e in r[k]
    ensures e.y <= Last(Last(r)).y
  {
    var n := |r|;
    if k < n - 1 {
      assert Last(Last(r)) in r[n - 1];
    } else {
      SortedBounds(r[k], e);
    }
  }

  // ------------------------------------------------------ the rows' contents

  /** Separated rows share no bubble, so a bubble of row `k` occurs in the
      flattened rows exactly as often as in row `k`. */
  lemma {:induction false} CountInRow(r: seq<seq<Bubble>>, k: nat, e: Bubble)
    requires Separated(r) && k < |r| && e in r[k]
    ensures multiset(Flatten(r))[e] == multiset(r[k])[e]
  {
    var n := |r|;
    var r0 := r[..n - 1];
    assert forall i :: 0 <= i < n - 1 ==> r0[i] == r[i];
    if k == n - 1 {
      forall l | 0 <= l < n - 1 ensures e !in r0[l] {
        assert r0[l] == r[l];
      }
      FlattenLacks(r0, e);
    } else {
      assert e !in Last(r) by {
        assert Last(r) == r[n - 1];
      }
      assert Separated(r0);
      CountInRow(r0, k, e);
    }
  }

  /** A bubble lies in row `k` on one side exactly when it lies in row `k`
      on the other. */
  lemma InSameRow(r: seq<seq<Bubble>>, q: seq<seq<Bubble>>, k: nat, e: Bubble)
    requires multiset(Flatten(r)) == multiset(Flatten(q)) && SameEnds(r, q)
    requires RowsSorted(r) && Separated(r) && RowsSorted(q) && Separated(q)
    requires k < |r|
    ensures e in r[k] <==> e in q[k]
  {
    if e in r[k] {
      ToSameRow(r, q, k, e);
    }
    if e in q[k] {
      SameEndsSym(r, q);
      ToSameRow(q, r, k, e);
    }
  }

  lemma SameEndsSym(r: seq<seq<Bubble>>, q: seq<seq<Bubble>>)
    requires SameEnds(r, q)
    ensures SameEnds(q, r)
  {
  }

  lemma ToSameRow(r: seq<seq<Bubble>>, q: seq<seq<Bubble>>, k: nat, e: Bubble)
    requires multiset(Flatten(r)) == multiset(Flatten(q)) && SameEnds(r, q)
    requires RowsSorted(r) && Separated(q)
    requires k < |r| && e in r[k]
    ensures e in q[k]
  {
    assert q[k][0].y <= e.y <= Last(q[k]).y by {
      SortedBounds(r[k], e);
    }
    assert e in Flatten(q) by {
      FlattenHas(r, k, e);
      assert e in multiset(Flatten(r));
    }
    var l := FlattenMember(q, e);
    RowByY(q, l, k, e);
  }

  /** Among separated rows, the row a bubble lies in is fixed by its y. */
  lemma RowByY(q: seq<seq<Bubble>>, l: nat, k: nat, e: Bubble)
    requires Separated(q) && l < |q| && k < |q| && e in q[l]
    requires q[k] != [] && q[k][0].y <= e.y <= Last(q[k]).y
    ensures l == k
  {
    assert q[k][0] in q[k] && Last(q[k]) in q[k];
  }

  /** Rows cut at the same places from the same bubbles hold the same
      bubbles, row by row. */
  lemma RowMultiset(r: seq<seq<Bubble>>, q: seq<seq<Bubble>>, k: nat)
    requires multiset(Flatten(r)) == multiset(Flatten(q)) && SameEnds(r, q)
    requires RowsSorted(r) && Separated(r) && RowsSorted(q) && Separated(q)
    requires k < |r|
    ensures multiset(r[k]) == multiset(q[k])
  {
    forall e ensures multiset(r[k])[e] == multiset(q[k])[e] {
      RowCount(r, q, k, e);
    }
  }

  lemma RowCount(r: seq<seq<Bubble>>, q: seq<seq<Bubble>>, k: nat, e: Bubble)
    requires multiset(Flatten(r)) == multiset(Flatten(q)) && SameEnds(r, q)
    requires RowsSorted(r) && Separated(r) && RowsSorted(q) && Separated(q)
    requires k < |r|
    ensures multiset(r[k])[e] == multiset(q[k])[e]
  {
    InSameRow(r, q, k, e);
    if e in r[k] {
      CountInRow(r, k, e);
      CountInRow(q, k, e);
    }
  }

  /** A bubble in no row is not in the flattened rows. */
  lemma {:induction false} FlattenLacks(rows: seq<seq<Bubble>>, e: Bubble)
    requires forall i :: 0 <= i < |rows| ==> e !in rows[i]
    ensures e !in Flatten(rows)
  {
    if rows != [] {
      var init := rows[..|rows| - 1];
      forall i | 0 <= i < |init| ensures e !in init[i] {
        assert init[i] == rows[i];
      }
      FlattenLacks(init, e);
      assert e !in rows[|rows| - 1];
    }
  }

  // ------------------------------------------------- the x-sort of each row

  /** `a` comes no later than `b` in the order by x, then y. */
  predicate LexLe(a: Bubble, b: Bubble)
  {
    a.x < b.x || (a.x == b.x && a.y <= b.y)
  }

  ghost predicate LexSorted(s: seq<Bubble>)
  {
    forall i, j :: 0 <= i < j < |s| ==> LexLe(s[i], s[j])
  }

  lemma LexTail(r: seq<Bubble>)
    requires LexSorted(r) && r != []
    ensures LexSorted(r[1..])
    ensures forall i :: 0 <= i < |r[1..]| ==> LexLe(r[0], r[1..][i])
  {
    forall i | 0 <= i < |r[1..]| ensures LexLe(r[0], r[1..][i]) {
      assert r[1..][i] == r[i + 1];
    }
    forall i, j | 0 <= i < j < |r[1..]| ensures LexLe(r[1..][i], r[1..][j]) {
      assert r[1..][i] == r[i + 1] && r[1..][j] == r[j + 1];
    }
  }

  lemma ConsLex(x: Bubble, t: seq<Bubble>)
    requires LexSorted(t)
    requires forall i :: 0 <= i < |t| ==> LexLe(x, t[i])
    ensures LexSorted([x] + t)
  {
    var t' := [x] + t;
    forall i, j | 0 <= i < j < |t'| ensures LexLe(t'[i], t'[j]) {
      assert t'[j] == t[j - 1];
      if i > 0 {
        assert t'[i] == t[i - 1];
      }
    }
  }

  /** A lower bound in the (x, y) order on every element and on `e` bounds
      the insertion by x too. */
  lemma {:induction false} InsertLexAbove(r: seq<Bubble>, e: Bubble, lo: Bubble)
    requires forall i :: 0 <= i < |r| ==> LexLe(lo, r[i])
    requires LexLe(lo, e)
    ensures forall i :: 0 <= i < |Insert(r, e, X)| ==> LexLe(lo, Insert(r, e, X)[i])
  {
    if r == [] || e.x < r[0].x {
      assert Insert(r, e, X) == [e] + r;
    } else {
      InsertLexAbove(r[1..], e, lo);
      assert Insert(r, e, X) == [r[0]] + Insert(r[1..], e, X);
    }
  }

  /** Inserting by x a bubble at or below every other keeps the (x, y)
      order: it lands after the bubbles with its x. */
  lemma {:induction false} InsertLex(r: seq<Bubble>, e: Bubble)
    requires LexSorted(r)
    requires forall i :: 0 <= i < |r| ==> r[i].y <= e.y
    ensures LexSorted(Insert(r, e, X))
  {
    if r == [] {
    } else if e.x < r[0].x {
      LexTail(r);
      forall i | 0 <= i < |r| ensures LexLe(e, r[i]) {
        if i > 0 {
          assert r[1..][i - 1] == r[i];
        }
      }
      ConsLex(e, r);
    } else {
      var rest := r[1..];
      LexTail(r);
      assert forall i :: 0 <= i < |rest| ==> rest[i] == r[i + 1];
      InsertLex(rest, e);
      InsertLexAbove(rest, e, r[0]);
      ConsLex(r[0], Insert(rest, e, X));
      assert Insert(r, e, X) == [r[0]] + Insert(rest, e, X);
    }
  }

  /** The stable x-sort of a y-sorted row orders it by x, then y. */
  lemma {:induction false} SortLex(s: seq<Bubble>)
    requires SortedBy(s, Y)
    ensures LexSorted(Sort(s, X))
  {
    if s != [] {
      var init := s[..|s| - 1];
      assert SortedBy(init, Y);
      SortLex(init);
      SortSnoc(s, X);
      forall j | 0 <= j < |init| ensures init[j].y <= Last(s).y {
        assert Key(s[j], Y) <= Key(Last(s), Y);
      }
      SortBelow(init, Last(s).y);
      InsertLex(Sort(init, X), Last(s));
    }
  }

  /** Sorting keeps an upper bound on y. */
  lemma SortBelow(s: seq<Bubble>, top: int)
    requires forall j :: 0 <= j < |s| ==> s[j].y <= top
    ensures forall i :: 0 <= i < |Sort(s, X)| ==> Sort(s, X)[i].y <= top
  {
    var sorted := Sort(s, X);
    forall i | 0 <= i < |sorted| ensures sorted[i].y <= top {
      assert sorted[i] in multiset(s);
    }
  }

  /** With no two bubbles at one position, the (x, y) order leaves no
      choice: two ordered arrangements of the same bubbles are equal. */
  lemma {:induction false} LexUnique(a: seq<Bubble>, b: seq<Bubble>)
    requires LexSorted(a) && LexSorted(b) && multiset(a) == multiset(b) && Positioned(a)
    ensures a == b
    decreases |a|
  {
    assert |a| == |multiset(a)| == |b|;
    if a != [] {
      LexHead(a, b);
      LexTail(a);
      LexTail(b);
      LexUnique(a[1..], b[1..]);
      assert a == [a[0]] + a[1..] && b == [b[0]] + b[1..];
    }
  }

  /** Both arrangements start with the same bubble, and what follows holds
      the same bubbles. */
  lemma LexHead(a: seq<Bubble>, b: seq<Bubble>)
    requires LexSorted(a) && LexSorted(b) && multiset(a) == multiset(b) && Positioned(a)
    requires a != []
    ensures b != [] && a[0] == b[0]
    ensures multiset(a[1..]) == multiset(b[1..]) && Positioned(a[1..])
  {
    assert a[0] in multiset(b) && b[0] in multiset(a);
    var j :| 0 <= j < |b| && b[j] == a[0];
    var i :| 0 <= i < |a| && a[i] == b[0];
    assert LexLe(b[0], a[0]) by {
      if j > 0 {
        assert LexLe(b[0], b[j]);
      }
    }
    assert LexLe(a[0], b[0]) by {
      if i > 0 {
        assert LexLe(a[0], a[i]);
      }
    }
    assert a[0] in a && b[0] in a;
    TailMultiset(a, b);
    PositionedTail(a);
  }

  lemma TailMultiset(a: seq<Bubble>, b: seq<Bubble>)
    requires a != [] && b != [] && a[0] == b[0] && multiset(a) == multiset(b)
    ensures multiset(a[1..]) == multiset(b[1..])
  {
    assert a == [a[0]] + a[1..] && b == [b[0]] + b[1..];
    assert multiset(a[1..]) == multiset(a) - multiset{a[0]};
    assert multiset(b[1..]) == multiset(b) - multiset{b[0]};
  }

  lemma PositionedTail(a: seq<Bubble>)
    requires a != [] && Positioned(a)
    ensures Positioned(a[1..])
  {
    forall c, d | c in a[1..] && d in a[1..] && c.x == d.x && c.y == d.y ensures c == d {
      assert c in a && d in a;
    }
  }

  // ------------------------------------------------------------ the theorem

  /** Distinct positions hold for any part of the bubbles. */
  lemma PositionedSub(s: seq<Bubble>, u: seq<Bubble>)
    requires Positioned(s) && forall z :: z in u ==> z in s
    ensures Positioned(u)
  {
  }

  /** The rows the walk and the per-row x-sort make of y-sorted bubbles
      depend only on which bubbles there are, provided the tolerance is
      positive and no two bubbles share a position. */
  lemma WalkDetermined(s: seq<Bubble>, t: seq<Bubble>, tol: nat)
    requires tol > 0 && multiset(s) == multiset(t) && Positioned(s)
    ensures SortEach(Segments(Sort(s, Y), tol)) == SortEach(Segments(Sort(t, Y), tol))
  {
    var ys, yt := Sort(s, Y), Sort(t, Y);
    var r, q := Segments(ys, tol), Segments(yt, tol);
    CutsAgree(ys, yt, tol);
    assert multiset(Flatten(r)) == multiset(s) by {
      SegmentsChained(ys, tol);
    }
    forall k | 0 <= k < |r| ensures Sort(r[k], X) == Sort(q[k], X) {
      RowSortsAgree(s, r, q, k);
    }
    SortEachAgree(r, q);
  }

  /** The walk over two y-sorted arrangements of the same bubbles cuts
      them into rows with the same ends, y-sorted and separated. */
  lemma CutsAgree(ys: seq<Bubble>, yt: seq<Bubble>, tol: nat)
    requires tol > 0 && SortedBy(ys, Y) && SortedBy(yt, Y) && multiset(ys) == multiset(yt)
    ensures SameEnds(Segments(ys, tol), Segments(yt, tol))
    ensures RowsSorted(Segments(ys, tol)) && Separated(Segments(ys, tol))
    ensures RowsSorted(Segments(yt, tol)) && Separated(Segments(yt, tol))
    ensures multiset(Flatten(Segments(ys, tol))) == multiset(Flatten(Segments(yt, tol)))
  {
    SortedYs(ys, yt);
    SegmentsSameEnds(ys, yt, tol);
    SegmentsSeparated(ys, tol);
    SegmentsSeparated(yt, tol);
    SegmentsChained(ys, tol);
    SegmentsChained(yt, tol);
  }

  lemma SortEachAgree(r: seq<seq<Bubble>>, q: seq<seq<Bubble>>)
    requires |r| == |q| && forall k :: 0 <= k < |r| ==> Sort(r[k], X) == Sort(q[k], X)
    ensures SortEach(r) == SortEach(q)
  {
  }

  /** Row `k` on both sides sorts by x to the same sequence. */
  lemma RowSortsAgree(s: seq<Bubble>, r: seq<seq<Bubble>>, q: seq<seq<Bubble>>, k: nat)
    requires Positioned(s) && multiset(Flatten(r)) == multiset(s)
    requires multiset(Flatten(r)) == multiset(Flatten(q)) && SameEnds(r, q)
    requires RowsSorted(r) && Separated(r) && RowsSorted(q) && Separated(q)
    requires k < |r|
    ensures Sort(r[k], X) == Sort(q[k], X)
  {
    RowMultiset(r, q, k);
    SortLex(r[k]);
    SortLex(q[k]);
    forall z | z in Sort(r[k], X) ensures z in s {
      assert z in multiset(r[k]);
      FlattenHas(r, k, z);
      assert z in multiset(s);
    }
    PositionedSub(s, Sort(r[k], X));
    LexUnique(Sort(r[k], X), Sort(q[k], X));
  }
}
