/** Python's `sorted(..., key=...)`, which the program uses on the x and y
    coordinates, modelled as a stable insertion sort. */
module StableSort {
  import opened Bubbles

  ghost predicate SortedBy(s: seq<Bubble>, axis: Axis)
  {
    forall i, j :: 0 <= i < j < |s| ==> Key(s[i], axis) <= Key(s[j], axis)
  }

  /** Places `e` after every element of `r` whose key is not larger than its own. */
  function Insert(r: seq<Bubble>, e: Bubble, axis: Axis): (t: seq<Bubble>)
    ensures |t| == |r| + 1
    ensures multiset(t) == multiset(r) + multiset{e}
  {
    if r == [] || Key(e, axis) < Key(r[0], axis) then [e] + r
    else
      assert r == [r[0]] + r[1..];
      [r[0]] + Insert(r[1..], e, axis)
  }

  /** A lower bound on every element and on `e` bounds the insertion too. */
  lemma {:induction false} InsertAbove(r: seq<Bubble>, e: Bubble, axis: Axis, lo: int)
    requires forall i :: 0 <= i < |r| ==> lo <= Key(r[i], axis)
    requires lo <= Key(e, axis)
    ensures forall i :: 0 <= i < |Insert(r, e, axis)| ==> lo <= Key(Insert(r, e, axis)[i], axis)
  {
    if r == [] || Key(e, axis) < Key(r[0], axis) {
      assert Insert(r, e, axis) == [e] + r;
    } else {
      InsertAbove(r[1..], e, axis, lo);
      assert Insert(r, e, axis) == [r[0]] + Insert(r[1..], e, axis);
    }
  }

  lemma {:induction false} InsertSorted(r: seq<Bubble>, e: Bubble, axis: Axis)
    requires SortedBy(r, axis)
    ensures SortedBy(Insert(r, e, axis), axis)
  {
    if r == [] || Key(e, axis) < Key(r[0], axis) {
    } else {
      var rest := r[1..];
      SortedTail(r, axis);
      InsertSorted(rest, e, axis);
      InsertAbove(rest, e, axis, Key(r[0], axis));
      ConsSorted(r[0], Insert(rest, e, axis), axis);
      assert Insert(r, e, axis) == [r[0]] + Insert(rest, e, axis);
    }
  }

  /** The tail of a sorted sequence is sorted and bounded below by the head. */
  lemma SortedTail(r: seq<Bubble>, axis: Axis)
    requires SortedBy(r, axis) && r != []
    ensures SortedBy(r[1..], axis)
    ensures forall i :: 0 <= i < |r[1..]| ==> Key(r[0], axis) <= Key(r[1..][i], axis)
  {
    forall i | 0 <= i < |r[1..]| ensures Key(r[0], axis) <= Key(r[1..][i], axis) {
      assert r[1..][i] == r[i + 1];
    }
    forall i, j | 0 <= i < j < |r[1..]| ensures Key(r[1..][i], axis) <= Key(r[1..][j], axis) {
      assert r[1..][i] == r[i + 1] && r[1..][j] == r[j + 1];
    }
  }

  /** A sorted sequence stays sorted under a head no larger than any element. */
  lemma ConsSorted(x: Bubble, t: seq<Bubble>, axis: Axis)
    requires SortedBy(t, axis)
    requires forall i :: 0 <= i < |t| ==> Key(x, axis) <= Key(t[i], axis)
    ensures SortedBy([x] + t, axis)
  {
    var t' := [x] + t;
    forall i, j | 0 <= i < j < |t'| ensures Key(t'[i], axis) <= Key(t'[j], axis) {
      assert t'[j] == t[j - 1];
      if i > 0 {
        assert t'[i] == t[i - 1];
      }
    }
  }

  function Sort(s: seq<Bubble>, axis: Axis): (r: seq<Bubble>)
    ensures |r| == |s|
    ensures SortedBy(r, axis)
    ensures multiset(r) == multiset(s)
  {
    if s == [] then []
    else
      assert s == s[..|s| - 1] + [Last(s)];
      InsertSorted(Sort(s[..|s| - 1], axis), Last(s), axis);
      Insert(Sort(s[..|s| - 1], axis), Last(s), axis)
  }

  /** Sorting inserts the last element into the sorted front. */
  lemma SortSnoc(s: seq<Bubble>, axis: Axis)
    requires s != []
    ensures Sort(s, axis) == Insert(Sort(s[..|s| - 1], axis), Last(s), axis)
  {
  }

  /** An element no smaller than any other goes to the end. */
  lemma {:induction false} InsertLast(r: seq<Bubble>, e: Bubble, axis: Axis)
    requires forall i :: 0 <= i < |r| ==> Key(r[i], axis) <= Key(e, axis)
    ensures Insert(r, e, axis) == r + [e]
  {
    if r != [] {
      InsertLast(r[1..], e, axis);
      assert Insert(r, e, axis) == [r[0]] + Insert(r[1..], e, axis);
      assert r == [r[0]] + r[1..];
    }
  }

  /** Sorting an already sorted sequence leaves it as it is. */
  lemma {:induction false} SortOfSorted(s: seq<Bubble>, axis: Axis)
    requires SortedBy(s, axis)
    ensures Sort(s, axis) == s
  {
    if s != [] {
      var init := s[..|s| - 1];
      assert SortedBy(init, axis);
      SortOfSorted(init, axis);
      SortSnoc(s, axis);
      InsertLast(init, Last(s), axis);
      SnocLast(s);
    }
  }

  /** Selects the elements whose key along `axis` is `k`. */
  function HasKey(axis: Axis, k: int): Bubble -> bool
  {
    b => Key(b, axis) == k
  }

  lemma {:induction false} KeepNone(s: seq<Bubble>, p: Bubble -> bool)
    requires forall i :: 0 <= i < |s| ==> !p(s[i])
    ensures Keep(s, p) == []
  {
    if s != [] {
      KeepNone(s[1..], p);
    }
  }

  /** `e` goes in front of a sorted `r` whose keys all exceed its own. */
  lemma FrontStable(r: seq<Bubble>, e: Bubble, axis: Axis, k: int)
    requires SortedBy(r, axis) && r != [] && Key(e, axis) < Key(r[0], axis)
    ensures Keep([e] + r, HasKey(axis, k)) == Keep(r, HasKey(axis, k)) + Keep([e], HasKey(axis, k))
  {
    var p := HasKey(axis, k);
    KeepConcat([e], r, p);
    if Key(e, axis) == k {
      forall i | 0 <= i < |r| ensures !p(r[i]) {
        assert i == 0 || Key(r[0], axis) <= Key(r[i], axis);
      }
      KeepNone(r, p);
    } else {
      assert Keep([e], p) == [] + Keep([], p);
    }
  }

  lemma {:induction false} InsertStable(r: seq<Bubble>, e: Bubble, axis: Axis, k: int)
    requires SortedBy(r, axis)
    ensures Keep(Insert(r, e, axis), HasKey(axis, k)) == Keep(r, HasKey(axis, k)) + Keep([e], HasKey(axis, k))
  {
    var p := HasKey(axis, k);
    if r == [] {
      assert Insert(r, e, axis) == [e];
    } else if Key(e, axis) < Key(r[0], axis) {
      assert Insert(r, e, axis) == [e] + r;
      FrontStable(r, e, axis, k);
    } else {
      var t' := Insert(r[1..], e, axis);
      assert Insert(r, e, axis) == [r[0]] + t';
      InsertStable(r[1..], e, axis, k);
      ConsStable(r, t', e, p);
    }
  }

  lemma ConsStable(r: seq<Bubble>, t': seq<Bubble>, e: Bubble, p: Bubble -> bool)
    requires r != [] && Keep(t', p) == Keep(r[1..], p) + Keep([e], p)
    ensures Keep([r[0]] + t', p) == Keep(r, p) + Keep([e], p)
  {
    assert r == [r[0]] + r[1..];
    KeepConcat([r[0]], t', p);
    KeepConcat([r[0]], r[1..], p);
  }

  /** Stability: among elements with equal keys, the sorted order is the input order. */
  lemma {:induction false} SortStable(s: seq<Bubble>, axis: Axis, k: int)
    ensures Keep(Sort(s, axis), HasKey(axis, k)) == Keep(s, HasKey(axis, k))
  {
    if s != [] {
      var p := HasKey(axis, k);
      var init := s[..|s| - 1];
      var e := Last(s);
      var sorted := Sort(init, axis);
      SortSnoc(s, axis);
      SortStable(init, axis, k);
      InsertStable(sorted, e, axis, k);
      KeepSnoc(s, p);
    }
  }
}
