/** The web front end (app.py): candidate filter, grouping by columns then
    rows, the five-alternative resolver, and the tally against the answer key. */
module App {
  import opened Bubbles
  import opened StableSort
  import opened Detector
  import opened Rows
  import opened Resolver
  import opened Tally
  import opened Determinism

  /** 300 < area < 3000 and 0.8 <= w/h <= 1.2, i.e. 4h <= 5w <= 6h. */
  const BAND := ShapeBand(300.0, 3000.0, 4, 5, 6)
  /** The default number of answer columns on the sheet. */
  const NUM_COLUMNS: Pos := 4
  /** The gap added to each column width. */
  const COLUMN_GAP := 5
  /** Vertical tolerance between neighbours of one row. */
  const ROW_TOLERANCE: nat := 25
  /** A question is answerable only with exactly this many alternatives. */
  const ALTERNATIVES := 5

  // ---------------------------------------------------------------- detection

  method DetectBubbles(cands: seq<Bubble>) returns (bubbles: seq<Bubble>)
    ensures bubbles == Keep(cands, AcceptedBy(BAND))
    ensures forall b :: b in bubbles <==> b in cands && 300.0 < b.area < 3000.0 && 4 * b.h <= 5 * b.w <= 6 * b.h
    ensures bubbles == [] <==> forall b :: b in cands ==> !Accepted(BAND, b)
  {
    bubbles := FilterCandidates(cands, BAND);
    FilterExact(cands, BAND);
    if bubbles != [] {
      assert bubbles[0] in bubbles;
    }
  }

  // ----------------------------------------------------------------- columns

  /** `min(int((x - min_x) / (col_width + 5)), n - 1)` with
      `col_width = span / n`, computed in integers: the quotient equals
      ((x - min_x) * n) / (span + 5n), whose denominator is positive. */
  function ColumnIndex(x: int, minX: int, span: nat, n: Pos): (c: int)
    ensures c < n
    ensures minX <= x ==> 0 <= c
  {
    var den: Pos := span + COLUMN_GAP * n;
    var raw := ((x - minX) * n) / den;
    assert minX <= x ==> 0 <= raw by {
      if minX <= x {
        QuotientNonNeg(x - minX, n, den);
      }
    }
    if raw < n - 1 then raw else n - 1
  }

  lemma QuotientNonNeg(a: nat, n: Pos, d: Pos)
    ensures 0 <= (a * n) / d
  {
    assert 0 <= a * n;
  }

  /** On every x the program meets (min_x <= x <= max_x) the integer index
      is the floor of the exact quotient, and the clamp to n - 1 never acts. */
  lemma ColumnIndexExact(x: int, minX: int, span: nat, n: Pos)
    requires minX <= x <= minX + span
    ensures var colWidth := span as real / n as real;
      ColumnIndex(x, minX, span, n) == ((x - minX) as real / (colWidth + COLUMN_GAP as real)).Floor
    ensures ((x - minX) * n) / (span + COLUMN_GAP * n) <= n - 1
  {
    var a: nat := x - minX;
    var d: Pos := span + COLUMN_GAP * n;
    var v := a as real / (span as real / n as real + COLUMN_GAP as real);
    ScaledQuotient(a, span, n, v);
    FloorOfQuotient(a * n, d, (a * n) / d, v);
    ClampInactive(a, span, n);
  }

  /** The quotient over col_width + 5 equals a*n over span + 5n. */
  lemma ScaledQuotient(a: nat, span: nat, n: Pos, v: real)
    requires v == a as real / (span as real / n as real + COLUMN_GAP as real)
    ensures v * (span + COLUMN_GAP * n) as real == (a * n) as real
  {
    var colWidth := span as real / n as real;
    var g := colWidth + COLUMN_GAP as real;
    assert colWidth * n as real == span as real;
    assert g * n as real == (span + COLUMN_GAP * n) as real;
    assert v * g == a as real;
    assert v * (g * n as real) == (v * g) * n as real;
  }

  /** x <= max_x keeps the raw index below n. */
  lemma ClampInactive(a: nat, span: nat, n: Pos)
    requires a <= span
    ensures (a * n) / (span + COLUMN_GAP * n) <= n - 1
  {
    var d: Pos := span + COLUMN_GAP * n;
    var q := (a * n) / d;
    assert q * d <= a * n;
    assert a * n <= span * n;
    assert span * n < d * n;
    LessFactor(q, n, d);
  }

  lemma LessFactor(q: int, n: int, d: Pos)
    requires q * d < n * d
    ensures q < n
  {
  }

  lemma FloorOfQuotient(m: int, d: Pos, q: int, v: real)
    requires q == m / d && v * d as real == m as real
    ensures v.Floor == q
  {
    var r := m % d;
    assert m == q * d + r && 0 <= r < d;
    var t := v - q as real;
    assert t * d as real == r as real by {
      assert (q * d) as real == q as real * d as real;
      assert t * d as real == v * d as real - q as real * d as real;
    }
    UnitFraction(t, d as real, r as real);
    assert q as real <= v < (q + 1) as real;
  }

  /** t * D == r with 0 <= r < D puts t in [0, 1). */
  lemma UnitFraction(t: real, dd: real, r: real)
    requires dd > 0.0 && t * dd == r && 0.0 <= r < dd
    ensures 0.0 <= t < 1.0
  {
  }

  /** The columns after the bucketing loop over `s`: each bubble appended,
      in the order of `s`, to the column its x falls in. */
  function Bucketed(s: seq<Bubble>, minX: int, span: nat, n: Pos): (cols: seq<seq<Bubble>>)
    requires forall i :: 0 <= i < |s| ==> minX <= s[i].x
    ensures |cols| == n
  {
    if s == [] then seq(n, _ => [])
    else
      var cols := Bucketed(s[..|s| - 1], minX, span, n);
      var k := ColumnIndex(Last(s).x, minX, span, n);
      cols[k := cols[k] + [Last(s)]]
  }

  /** Every bubble lies in the column its index names. */
  ghost predicate InColumns(cols: seq<seq<Bubble>>, minX: int, span: nat, n: Pos)
  {
    forall k, b :: 0 <= k < |cols| && b in cols[k] ==> ColumnIndex(b.x, minX, span, n) == k
  }

  lemma {:induction false} FlattenOfEmptyRows(n: nat)
    ensures Flatten(seq(n, _ => [])) == []
  {
    if n > 0 {
      FlattenOfEmptyRows(n - 1);
      var rows: seq<seq<Bubble>> := seq(n, _ => []);
      assert rows[..n - 1] == seq(n - 1, _ => []);
    }
  }

  /** The bucketing distributes every bubble into exactly one column. */
  lemma {:induction false} BucketedPartition(s: seq<Bubble>, minX: int, span: nat, n: Pos)
    requires forall i :: 0 <= i < |s| ==> minX <= s[i].x
    ensures multiset(Flatten(Bucketed(s, minX, span, n))) == multiset(s)
  {
    if s == [] {
      FlattenOfEmptyRows(n);
    } else {
      var init := s[..|s| - 1];
      BucketedPartition(init, minX, span, n);
      FlattenAppendAt(Bucketed(init, minX, span, n), ColumnIndex(Last(s).x, minX, span, n), Last(s));
      SnocLast(s);
    }
  }

  /** Each column holds only bubbles whose index names it. */
  lemma {:induction false} BucketedInColumns(s: seq<Bubble>, minX: int, span: nat, n: Pos)
    requires forall i :: 0 <= i < |s| ==> minX <= s[i].x
    ensures InColumns(Bucketed(s, minX, span, n), minX, span, n)
  {
    if s != [] {
      var init := s[..|s| - 1];
      var cols := Bucketed(init, minX, span, n);
      BucketedInColumns(init, minX, span, n);
      var k := ColumnIndex(Last(s).x, minX, span, n);
      var cols' := cols[k := cols[k] + [Last(s)]];
      forall j, b: Bubble | 0 <= j < n && b in cols'[j] ensures ColumnIndex(b.x, minX, span, n) == j {
        if j != k {
          assert cols'[j] == cols[j];
        } else if b != Last(s) {
          assert b in cols[k];
        }
      }
    }
  }

  // -------------------------------------------------------------------- rows

  /** The rows of one column: y-sorted, walked, each row sorted by x. */
  function ColumnRows(col: seq<Bubble>): seq<seq<Bubble>>
  {
    SortEach(Segments(Sort(col, Y), ROW_TOLERANCE))
  }

  /** All rows of column 0, then all rows of column 1, and so on. */
  function QuestionsOf(cols: seq<seq<Bubble>>): seq<seq<Bubble>>
  {
    if cols == [] then [] else QuestionsOf(cols[..|cols| - 1]) + ColumnRows(Last(cols))
  }

  /** The value `group_bubbles_by_columns` returns. */
  function Grouped(bubbles: seq<Bubble>, n: Pos): seq<seq<Bubble>>
  {
    if bubbles == [] then [] else GroupedSorted(Sort(bubbles, X), n)
  }

  /** Grouping of x-sorted bubbles: the columns spread from the smallest x
      to the largest. */
  function GroupedSorted(s: seq<Bubble>, n: Pos): seq<seq<Bubble>>
    requires s != []
  {
    QuestionsOf(Bucketed(s, MinX(s), Span(s), n))
  }

  /** `max_x - min_x`. */
  function Span(s: seq<Bubble>): (span: nat)
    requires s != []
    ensures forall i :: 0 <= i < |s| ==> MinX(s) <= s[i].x <= MinX(s) + span
  {
    MaxX(s) - MinX(s)
  }

  /** A column's rows regroup the column, none is empty, each is sorted by x,
      and within the y-sorted column they are the chained, ascending rows. */
  lemma ColumnRowsSpec(col: seq<Bubble>)
    ensures multiset(Flatten(ColumnRows(col))) == multiset(col)
    ensures (ColumnRows(col) == []) == (col == [])
    ensures WellFormed(ColumnRows(col))
    ensures ChainedRows(Sort(col, Y), Segments(Sort(col, Y), ROW_TOLERANCE), ROW_TOLERANCE)
    ensures AscendingRows(Segments(Sort(col, Y), ROW_TOLERANCE), ROW_TOLERANCE)
  {
    SplitRowsSpec(Sort(col, Y), ROW_TOLERANCE);
    SegmentsChained(Sort(col, Y), ROW_TOLERANCE);
    SegmentsAscending(Sort(col, Y), ROW_TOLERANCE);
  }

  /** A bubble of a row of `col` is a bubble of `col`. */
  lemma ColumnRowsMembers(col: seq<Bubble>, i: int, b: Bubble)
    requires 0 <= i < |ColumnRows(col)| && b in ColumnRows(col)[i]
    ensures b in col
  {
    var segs := Segments(Sort(col, Y), ROW_TOLERANCE);
    assert b in multiset(Sort(segs[i], X));
    SegmentsChained(Sort(col, Y), ROW_TOLERANCE);
    FlattenHas(segs, i, b);
    assert b in multiset(Sort(col, Y));
  }

  /** Grouping regroups exactly the columns' bubbles into non-empty, x-sorted questions. */
  lemma {:induction false} QuestionsPartition(cols: seq<seq<Bubble>>)
    ensures multiset(Flatten(QuestionsOf(cols))) == multiset(Flatten(cols))
    ensures WellFormed(QuestionsOf(cols))
  {
    if cols != [] {
      var init := cols[..|cols| - 1];
      var qs := QuestionsOf(init);
      var rows := ColumnRows(Last(cols));
      QuestionsPartition(init);
      ColumnRowsSpec(Last(cols));
      assert QuestionsOf(cols) == qs + rows;
      FlattenConcat(qs, rows);
      WellFormedConcat(qs, rows);
      assert Flatten(cols) == Flatten(init) + Last(cols);
    }
  }

  /** Every bubble of `qs` falls in column `k`. */
  ghost predicate AllInColumn(qs: seq<seq<Bubble>>, k: int, minX: int, span: nat, n: Pos)
  {
    forall i, b :: 0 <= i < |qs| && b in qs[i] ==> ColumnIndex(b.x, minX, span, n) == k
  }

  /** Every bubble of `qs` falls in a column before `m`. */
  ghost predicate AllBefore(qs: seq<seq<Bubble>>, m: int, minX: int, span: nat, n: Pos)
  {
    forall i, b :: 0 <= i < |qs| && b in qs[i] ==> 0 <= ColumnIndex(b.x, minX, span, n) < m
  }

  /** Column-major order: no question holds a bubble of a later column than
      a bubble of a question after it. */
  ghost predicate ColumnMajor(qs: seq<seq<Bubble>>, minX: int, span: nat, n: Pos)
  {
    forall i, j, b, c :: 0 <= i < j < |qs| && b in qs[i] && c in qs[j] ==>
      ColumnIndex(b.x, minX, span, n) <= ColumnIndex(c.x, minX, span, n)
  }

  /** The rows of a column stay in that column. */
  lemma ColumnRowsInColumn(col: seq<Bubble>, k: int, minX: int, span: nat, n: Pos)
    requires forall b :: b in col ==> ColumnIndex(b.x, minX, span, n) == k
    ensures AllInColumn(ColumnRows(col), k, minX, span, n)
  {
    forall i, b | 0 <= i < |ColumnRows(col)| && b in ColumnRows(col)[i]
      ensures ColumnIndex(b.x, minX, span, n) == k
    {
      ColumnRowsMembers(col, i, b);
    }
  }

  /** Appending the rows of column `m` after the rows of columns 0..m-1 keeps
      the order column-major. */
  lemma ColumnMajorAppend(q0: seq<seq<Bubble>>, rs: seq<seq<Bubble>>, m: nat, minX: int, span: nat, n: Pos)
    requires ColumnMajor(q0, minX, span, n) && AllBefore(q0, m, minX, span, n)
    requires AllInColumn(rs, m, minX, span, n)
    ensures ColumnMajor(q0 + rs, minX, span, n) && AllBefore(q0 + rs, m + 1, minX, span, n)
  {
    var qs := q0 + rs;
    forall i, b: Bubble | 0 <= i < |qs| && b in qs[i] ensures 0 <= ColumnIndex(b.x, minX, span, n) <= m {
      if i < |q0| {
        assert qs[i] == q0[i];
      } else {
        assert qs[i] == rs[i - |q0|];
      }
    }
    forall i, j, b: Bubble, c: Bubble | 0 <= i < j < |qs| && b in qs[i] && c in qs[j]
      ensures ColumnIndex(b.x, minX, span, n) <= ColumnIndex(c.x, minX, span, n)
    {
      if j < |q0| {
        assert qs[i] == q0[i] && qs[j] == q0[j];
      } else if i < |q0| {
        assert qs[i] == q0[i] && qs[j] == rs[j - |q0|];
      } else {
        assert qs[i] == rs[i - |q0|] && qs[j] == rs[j - |q0|];
      }
    }
  }

  /** Columns laid out by index give column-major questions. */
  lemma {:induction false} QuestionsColumnMajor(cols: seq<seq<Bubble>>, minX: int, span: nat, n: Pos)
    requires InColumns(cols, minX, span, n)
    ensures ColumnMajor(QuestionsOf(cols), minX, span, n)
    ensures AllBefore(QuestionsOf(cols), |cols|, minX, span, n)
  {
    if cols != [] {
      var m := |cols| - 1;
      var init := cols[..m];
      assert InColumns(init, minX, span, n) by {
        forall k, b: Bubble | 0 <= k < m && b in init[k] ensures ColumnIndex(b.x, minX, span, n) == k {
          assert init[k] == cols[k];
        }
      }
      QuestionsColumnMajor(init, minX, span, n);
      ColumnRowsInColumn(cols[m], m, minX, span, n);
      ColumnMajorAppend(QuestionsOf(init), ColumnRows(cols[m]), m, minX, span, n);
    }
  }

  /** The minimum x does not depend on the order of the bubbles. */
  lemma MinXPermutation(s: seq<Bubble>, t: seq<Bubble>)
    requires s != [] && multiset(s) == multiset(t)
    ensures t != [] && MinX(s) == MinX(t) && MaxX(s) == MaxX(t)
  {
    assert s[0] in multiset(t);
    InBoth(s, t);
    InBoth(t, s);
  }

  lemma InBoth(s: seq<Bubble>, t: seq<Bubble>)
    requires s != [] && t != [] && multiset(s) == multiset(t)
    ensures MinX(t) <= MinX(s) && MaxX(s) <= MaxX(t)
  {
    var i :| 0 <= i < |s| && s[i].x == MinX(s);
    assert s[i] in multiset(t);
    var j :| 0 <= j < |t| && t[j] == s[i];
    var i' :| 0 <= i' < |s| && s[i'].x == MaxX(s);
    assert s[i'] in multiset(t);
    var j' :| 0 <= j' < |t| && t[j'] == s[i'];
  }

  /** One more bubble appended to the column its index names. */
  lemma BucketedStep(s: seq<Bubble>, i: nat, minX: int, span: nat, n: Pos)
    requires i < |s| && forall j :: 0 <= j < |s| ==> minX <= s[j].x
    ensures var cols := Bucketed(s[..i], minX, span, n);
      var k := ColumnIndex(s[i].x, minX, span, n);
      0 <= k < n && Bucketed(s[..i + 1], minX, span, n) == cols[k := cols[k] + [s[i]]]
  {
    assert s[..i + 1][..i] == s[..i] && Last(s[..i + 1]) == s[i];
  }

  /** The rows of one more column appended after the earlier ones. */
  lemma QuestionsStep(cols: seq<seq<Bubble>>, k: nat)
    requires k < |cols|
    ensures QuestionsOf(cols[..k + 1]) == QuestionsOf(cols[..k]) + ColumnRows(cols[k])
  {
    assert cols[..k + 1][..k] == cols[..k] && Last(cols[..k + 1]) == cols[k];
  }

  /** The grouping loop of `group_bubbles_by_columns`: sort by x, bucket into
      columns, then walk each column's y-sorted bubbles into rows. */
  method GroupBubblesByColumns(bubbles: seq<Bubble>, numColumns: Pos) returns (questions: seq<seq<Bubble>>)
    ensures questions == Grouped(bubbles, numColumns)
  {
    if bubbles == [] {
      return [];
    }
    var s := Sort(bubbles, X);
    var minX, maxX := MinX(s), MaxX(s);
    var span: nat := maxX - minX;
    assert span == Span(s);
    var columns := Bucket(s, minX, span, numColumns);
    questions := [];
    for k := 0 to numColumns
      invariant questions == QuestionsOf(columns[..k])
    {
      QuestionsStep(columns, k);
      var colSorted := Sort(columns[k], Y);
      var rows := SplitRows(colSorted, ROW_TOLERANCE);
      questions := questions + rows;
    }
    assert columns[..numColumns] == columns;
    GroupedSortedUnfold(s, numColumns);
  }

  /** The first loop of `group_bubbles_by_columns`: each bubble, in x order,
      appended to the column its index names. */
  method Bucket(s: seq<Bubble>, minX: int, span: nat, n: Pos) returns (columns: seq<seq<Bubble>>)
    requires forall j :: 0 <= j < |s| ==> minX <= s[j].x
    ensures columns == Bucketed(s, minX, span, n)
  {
    columns := seq(n, _ => []);
    for i := 0 to |s|
      invariant columns == Bucketed(s[..i], minX, span, n)
    {
      BucketedStep(s, i, minX, span, n);
      var colIndex := ColumnIndex(s[i].x, minX, span, n);
      columns := columns[colIndex := columns[colIndex] + [s[i]]];
    }
    assert s[..|s|] == s;
  }

  /** Bucketing, then walking each column, regroups exactly the bubbles
      into non-empty, x-sorted questions. */
  lemma BucketedQuestions(s: seq<Bubble>, minX: int, span: nat, n: Pos)
    requires forall i :: 0 <= i < |s| ==> minX <= s[i].x
    ensures multiset(Flatten(QuestionsOf(Bucketed(s, minX, span, n)))) == multiset(s)
    ensures WellFormed(QuestionsOf(Bucketed(s, minX, span, n)))
    ensures QuestionsOf(Bucketed(s, minX, span, n)) == [] <==> s == []
  {
    var cols := Bucketed(s, minX, span, n);
    BucketedPartition(s, minX, span, n);
    QuestionsPartition(cols);
    FlattenNonEmpty(QuestionsOf(cols));
  }

  /** Bucketing, then walking each column, lists the questions column by column. */
  lemma BucketedColumnMajor(s: seq<Bubble>, minX: int, span: nat, n: Pos)
    requires forall i :: 0 <= i < |s| ==> minX <= s[i].x
    ensures ColumnMajor(QuestionsOf(Bucketed(s, minX, span, n)), minX, span, n)
  {
    BucketedInColumns(s, minX, span, n);
    QuestionsColumnMajor(Bucketed(s, minX, span, n), minX, span, n);
  }

  lemma GroupedSortedUnfold(s: seq<Bubble>, n: Pos)
    requires s != []
    ensures GroupedSorted(s, n) == QuestionsOf(Bucketed(s, MinX(s), Span(s), n))
  {
  }

  lemma GroupedSortedSpec(s: seq<Bubble>, n: Pos)
    requires s != []
    ensures multiset(Flatten(GroupedSorted(s, n))) == multiset(s)
    ensures WellFormed(GroupedSorted(s, n)) && GroupedSorted(s, n) != []
  {
    GroupedSortedUnfold(s, n);
    BucketedQuestions(s, MinX(s), Span(s), n);
  }

  lemma GroupedSortedColumnMajor(s: seq<Bubble>, n: Pos)
    requires s != []
    ensures ColumnMajor(GroupedSorted(s, n), MinX(s), Span(s), n)
  {
    GroupedSortedUnfold(s, n);
    BucketedColumnMajor(s, MinX(s), Span(s), n);
  }

  /** What grouping promises: a partition of the bubbles into non-empty,
      x-sorted questions; nothing detected gives no questions. */
  lemma GroupedSpec(bubbles: seq<Bubble>, n: Pos)
    ensures multiset(Flatten(Grouped(bubbles, n))) == multiset(bubbles)
    ensures (Grouped(bubbles, n) == []) == (bubbles == [])
    ensures WellFormed(Grouped(bubbles, n))
  {
    if bubbles != [] {
      GroupedSortedSpec(Sort(bubbles, X), n);
    }
  }

  /** Grouping lists the questions column by column, with columns measured
      from the smallest to the largest x of the bubbles. */
  lemma GroupedColumnMajor(bubbles: seq<Bubble>, n: Pos)
    requires bubbles != []
    ensures ColumnMajor(Grouped(bubbles, n), MinX(bubbles), Span(bubbles), n)
  {
    var s := Sort(bubbles, X);
    GroupedSortedColumnMajor(s, n);
    MinXPermutation(s, bubbles);
    assert MinX(s) == MinX(bubbles) && Span(s) == Span(bubbles);
  }

  /** Each bubble sits in its own column as often as it was given, and in
      no other column. */
  lemma {:induction false} BucketedCount(s: seq<Bubble>, minX: int, span: nat, n: Pos, k: nat, e: Bubble)
    requires forall i :: 0 <= i < |s| ==> minX <= s[i].x
    requires k < n
    ensures multiset(Bucketed(s, minX, span, n)[k])[e] ==
      if ColumnIndex(e.x, minX, span, n) == k then multiset(s)[e] else 0
  {
    if s != [] {
      var init := s[..|s| - 1];
      BucketedCount(init, minX, span, n, k, e);
      SnocLast(s);
    }
  }

  /** Columns bucketed from the same bubbles hold the same bubbles, whatever
      their order. */
  lemma BucketedPermutation(s: seq<Bubble>, t: seq<Bubble>, minX: int, span: nat, n: Pos, k: nat)
    requires forall i :: 0 <= i < |s| ==> minX <= s[i].x
    requires forall i :: 0 <= i < |t| ==> minX <= t[i].x
    requires multiset(s) == multiset(t) && k < n
    ensures multiset(Bucketed(s, minX, span, n)[k]) == multiset(Bucketed(t, minX, span, n)[k])
    ensures forall e :: e in Bucketed(s, minX, span, n)[k] ==> e in s
  {
    forall e ensures multiset(Bucketed(s, minX, span, n)[k])[e] == multiset(Bucketed(t, minX, span, n)[k])[e] {
      BucketedCount(s, minX, span, n, k, e);
      BucketedCount(t, minX, span, n, k, e);
    }
    forall e | e in Bucketed(s, minX, span, n)[k] ensures e in s {
      BucketedCount(s, minX, span, n, k, e);
      assert e in multiset(Bucketed(s, minX, span, n)[k]);
    }
  }

  /** Columns with the same rows give the same questions. */
  lemma {:induction false} QuestionsAgree(a: seq<seq<Bubble>>, b: seq<seq<Bubble>>)
    requires |a| == |b| && forall k :: 0 <= k < |a| ==> ColumnRows(a[k]) == ColumnRows(b[k])
    ensures QuestionsOf(a) == QuestionsOf(b)
  {
    if a != [] {
      var a0, b0 := a[..|a| - 1], b[..|b| - 1];
      forall k | 0 <= k < |a0| ensures ColumnRows(a0[k]) == ColumnRows(b0[k]) {
        assert a0[k] == a[k] && b0[k] == b[k];
      }
      QuestionsAgree(a0, b0);
      assert ColumnRows(Last(a)) == ColumnRows(Last(b)) by {
        assert Last(a) == a[|a| - 1] && Last(b) == b[|b| - 1];
      }
      assert QuestionsOf(a) == QuestionsOf(a0) + ColumnRows(Last(a));
      assert QuestionsOf(b) == QuestionsOf(b0) + ColumnRows(Last(b));
    }
  }

  /** Grouping depends only on which bubbles were detected, not on the
      order of the contours, as long as no two bubbles share both x and y:
      the stable sorts keep input order only among equal keys. */
  lemma GroupedPermutation(s: seq<Bubble>, t: seq<Bubble>, n: Pos)
    requires multiset(s) == multiset(t) && Positioned(s)
    ensures Grouped(s, n) == Grouped(t, n)
  {
    assert |s| == |multiset(s)| == |t|;
    if s != [] {
      GroupedSortedPermutation(s, Sort(s, X), Sort(t, X), n);
    }
  }

  /** The same for the x-sorted bubbles the bucketing starts from. */
  lemma GroupedSortedPermutation(s: seq<Bubble>, sx: seq<Bubble>, tx: seq<Bubble>, n: Pos)
    requires Positioned(s) && sx != [] && multiset(sx) == multiset(s) && multiset(tx) == multiset(s)
    ensures tx != [] && GroupedSorted(sx, n) == GroupedSorted(tx, n)
  {
    MinXPermutation(sx, tx);
    var minX, span := MinX(sx), Span(sx);
    assert MinX(tx) == minX && Span(tx) == span;
    var a, b := Bucketed(sx, minX, span, n), Bucketed(tx, minX, span, n);
    forall k | 0 <= k < n ensures ColumnRows(a[k]) == ColumnRows(b[k]) {
      ColumnPermutation(s, sx, tx, minX, span, n, k);
    }
    QuestionsAgree(a, b);
    assert GroupedSorted(sx, n) == QuestionsOf(a) by {
      GroupedSortedUnfold(sx, n);
    }
    assert GroupedSorted(tx, n) == QuestionsOf(b) by {
      GroupedSortedUnfold(tx, n);
    }
  }

  /** Column `k` walks into the same rows from either order of the bubbles. */
  lemma ColumnPermutation(s: seq<Bubble>, sx: seq<Bubble>, tx: seq<Bubble>, minX: int, span: nat, n: Pos, k: nat)
    requires Positioned(s) && multiset(sx) == multiset(s) && multiset(tx) == multiset(s)
    requires forall i :: 0 <= i < |sx| ==> minX <= sx[i].x
    requires forall i :: 0 <= i < |tx| ==> minX <= tx[i].x
    requires k < n
    ensures ColumnRows(Bucketed(sx, minX, span, n)[k]) == ColumnRows(Bucketed(tx, minX, span, n)[k])
  {
    var col := Bucketed(sx, minX, span, n)[k];
    BucketedPermutation(sx, tx, minX, span, n, k);
    forall e | e in col ensures e in s {
      assert e in multiset(sx);
    }
    PositionedSub(s, col);
    WalkDetermined(col, Bucketed(tx, minX, span, n)[k], ROW_TOLERANCE);
  }

  // ---------------------------------------------------------------- resolver

  /** `get_marked_alternatives`: no answer for a question without exactly five
      alternatives, otherwise the first most-filled alternative. */
  method GetMarkedAlternatives(questions: seq<seq<Bubble>>) returns (answers: seq<Option<nat>>)
    ensures |answers| == |questions|
    ensures forall i :: 0 <= i < |questions| ==> (answers[i].None? <==> |questions[i]| != ALTERNATIVES)
    ensures forall i :: 0 <= i < |questions| && answers[i].Some? ==> IsFirstMax(Fills(questions[i]), answers[i].value)
    ensures forall i :: 0 <= i < |questions| && answers[i].Some? ==> answers[i].value < |OPTIONS|
  {
    answers := [];
    for i := 0 to |questions|
      invariant |answers| == i
      invariant forall j :: 0 <= j < i ==> (answers[j].None? <==> |questions[j]| != ALTERNATIVES)
      invariant forall j :: 0 <= j < i && answers[j].Some? ==> IsFirstMax(Fills(questions[j]), answers[j].value)
    {
      var q := questions[i];
      if |q| != ALTERNATIVES {
        answers := answers + [None];
      } else {
        var marked := MarkedAlternative(q);
        answers := answers + [Some(marked)];
      }
    }
  }

  // ------------------------------------------------------------------ scorer

  /** Question `num` scores when it has an answer, the key has an entry for
      it, and the answer's letter is that entry. */
  predicate Hit(ans: Option<nat>, num: int, key: map<int, string>)
  {
    ans.Some? && ans.value < |OPTIONS| && num in key && OPTIONS[ans.value] == key[num]
  }

  function Hits(answers: seq<Option<nat>>, key: map<int, string>): seq<bool>
  {
    seq(|answers|, i requires 0 <= i < |answers| => Hit(answers[i], i + 1, key))
  }

  /** The counting loop of `avaliar_e_desenhar` (its drawing is left out). */
  method Score(answers: seq<Option<nat>>, key: map<int, string>) returns (acertos: nat)
    requires forall i :: 0 <= i < |answers| && answers[i].Some? ==> answers[i].value < |OPTIONS|
    ensures acertos == |Numbered(Hits(answers, key))|
    ensures acertos <= |key|
  {
    acertos := 0;
    for i := 0 to |answers|
      invariant acertos == |Numbered(Hits(answers[..i], key))|
    {
      assert Hits(answers[..i + 1], key) == Hits(answers[..i], key) + [Hit(answers[i], i + 1, key)];
      NumberedSnoc(Hits(answers[..i], key), Hit(answers[i], i + 1, key));
      var ans := answers[i];
      var numQuestao := i + 1;
      if ans.None? || numQuestao !in key {
        continue;
      }
      var marcado := OPTIONS[ans.value];
      var correto := key[numQuestao];
      if marcado == correto {
        acertos := acertos + 1;
      }
    }
    assert answers[..|answers|] == answers;
    ScoreBound(answers, key);
  }

  /** Only keyed questions can score, so the score never exceeds the key's size. */
  lemma ScoreBound(answers: seq<Option<nat>>, key: map<int, string>)
    ensures Numbered(Hits(answers, key)) <= key.Keys
    ensures |Numbered(Hits(answers, key))| <= |key|
    ensures |Numbered(Hits(answers, key))| <= |answers|
  {
    NumberedWithin(Hits(answers, key), key.Keys);
    NumberedBound(Hits(answers, key));
  }

  // ---------------------------------------------------------------- pipeline

  datatype Outcome = NothingDetected | Graded(questions: seq<seq<Bubble>>, answers: seq<Option<nat>>, acertos: nat)

  /** From the detected contours to the score, as the upload handler runs it,
      including the "nothing detected" branch. */
  method Grade(cands: seq<Bubble>, key: map<int, string>) returns (r: Outcome)
    ensures r.NothingDetected? <==> forall b :: b in cands ==> !Accepted(BAND, b)
    ensures r.Graded? ==> r.questions == Grouped(Keep(cands, AcceptedBy(BAND)), NUM_COLUMNS)
    ensures r.Graded? ==> |r.answers| == |r.questions| && r.acertos == |Numbered(Hits(r.answers, key))| <= |key|
    ensures r.Graded? ==> forall i :: 0 <= i < |r.questions| ==>
      (r.answers[i].None? <==> |r.questions[i]| != ALTERNATIVES)
    ensures r.Graded? ==> forall i :: 0 <= i < |r.questions| && r.answers[i].Some? ==>
      IsFirstMax(Fills(r.questions[i]), r.answers[i].value)
  {
    var bubbles := DetectBubbles(cands);
    var questions := GroupBubblesByColumns(bubbles, NUM_COLUMNS);
    GroupedSpec(bubbles, NUM_COLUMNS);
    if questions == [] {
      return NothingDetected;
    }
    var answers := GetMarkedAlternatives(questions);
    var acertos := Score(answers, key);
    r := Graded(questions, answers, acertos);
  }
}
