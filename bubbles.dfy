/** Bubble candidates as the program sees them once the image calls have run,
    and the sequence helpers every stage shares. */
module Bubbles {

  type Pos = n: int | n > 0 witness 1

  /** One outer contour found in the thresholded image. `id` stands for the
      contour itself; (x, y, w, h) is its bounding rectangle (never empty, so
      w and h are positive); `area` is the area it encloses; `fill` is the mean
      of the thresholded image inside it (the bubble's fill level). */
  datatype Bubble = Bubble(id: nat, x: int, y: int, w: Pos, h: Pos, area: real, fill: real)

  datatype Option<T> = None | Some(value: T)

  /** The two sort keys the program uses: the first and second tuple entries. */
  datatype Axis = X | Y

  function Key(b: Bubble, axis: Axis): int
  {
    match axis
    case X => b.x
    case Y => b.y
  }

  function Last<T>(s: seq<T>): T
    requires s != []
  {
    s[|s| - 1]
  }

  lemma SnocLast<T>(s: seq<T>)
    requires s != []
    ensures s[..|s| - 1] + [Last(s)] == s
  {
  }

  /** The elements of `s` that satisfy `p`, in their order in `s`. */
  function Keep(s: seq<Bubble>, p: Bubble -> bool): (r: seq<Bubble>)
    ensures |r| <= |s|
  {
    if s == [] then [] else (if p(s[0]) then [s[0]] else []) + Keep(s[1..], p)
  }

  /** Keeping selects exactly the elements that satisfy `p`. */
  lemma {:induction false} KeepMembers(s: seq<Bubble>, p: Bubble -> bool)
    ensures forall b :: b in Keep(s, p) <==> b in s && p(b)
  {
    if s != [] {
      KeepMembers(s[1..], p);
      assert s == [s[0]] + s[1..];
    }
  }

  /** Keeping changes nothing when every element satisfies `p`. */
  lemma {:induction false} KeepAll(s: seq<Bubble>, p: Bubble -> bool)
    requires forall i :: 0 <= i < |s| ==> p(s[i])
    ensures Keep(s, p) == s
  {
    if s != [] {
      KeepAll(s[1..], p);
      assert s == [s[0]] + s[1..];
    }
  }

  /** Keeping distributes over concatenation: the order of `s` survives. */
  lemma {:induction false} KeepConcat(a: seq<Bubble>, b: seq<Bubble>, p: Bubble -> bool)
    ensures Keep(a + b, p) == Keep(a, p) + Keep(b, p)
  {
    if a == [] {
      assert a + b == b;
    } else {
      var head := if p(a[0]) then [a[0]] else [];
      assert (a + b)[0] == a[0];
      assert (a + b)[1..] == a[1..] + b;
      assert Keep(a + b, p) == head + Keep(a[1..] + b, p);
      KeepConcat(a[1..], b, p);
    }
  }

  lemma KeepSnoc(s: seq<Bubble>, p: Bubble -> bool)
    requires s != []
    ensures Keep(s, p) == Keep(s[..|s| - 1], p) + Keep([Last(s)], p)
  {
    assert s == s[..|s| - 1] + [Last(s)];
    KeepConcat(s[..|s| - 1], [Last(s)], p);
  }

  /** All rows laid end to end. */
  function Flatten(rows: seq<seq<Bubble>>): (s: seq<Bubble>)
  {
    if rows == [] then [] else Flatten(rows[..|rows| - 1]) + Last(rows)
  }

  lemma {:induction false} FlattenConcat(a: seq<seq<Bubble>>, b: seq<seq<Bubble>>)
    ensures Flatten(a + b) == Flatten(a) + Flatten(b)
  {
    if b == [] {
      assert a + b == a;
    } else {
      assert (a + b)[..|a + b| - 1] == a + b[..|b| - 1];
      FlattenConcat(a, b[..|b| - 1]);
    }
  }

  /** A bubble of a row is a bubble of the flattened rows, and conversely. */
  lemma {:induction false} FlattenHas(rows: seq<seq<Bubble>>, i: int, b: Bubble)
    requires 0 <= i < |rows| && b in rows[i]
    ensures b in Flatten(rows)
  {
    if i < |rows| - 1 {
      FlattenHas(rows[..|rows| - 1], i, b);
    }
  }

  lemma {:induction false} FlattenMember(rows: seq<seq<Bubble>>, b: Bubble) returns (i: nat)
    requires b in Flatten(rows)
    ensures i < |rows| && b in rows[i]
  {
    var init := rows[..|rows| - 1];
    if b in Last(rows) {
      i := |rows| - 1;
    } else {
      i := FlattenMember(init, b);
      assert rows[i] == init[i];
    }
  }

  /** Appending `e` to row `k` adds exactly `e` to the flattened contents. */
  lemma {:induction false} FlattenAppendAt(rows: seq<seq<Bubble>>, k: nat, e: Bubble)
    requires k < |rows|
    ensures multiset(Flatten(rows[k := rows[k] + [e]])) == multiset(Flatten(rows)) + multiset{e}
  {
    var rows' := rows[k := rows[k] + [e]];
    var n := |rows|;
    if k == n - 1 {
      assert rows'[..n - 1] == rows[..n - 1];
    } else {
      assert rows'[..n - 1] == rows[..n - 1][k := rows[k] + [e]];
      FlattenAppendAt(rows[..n - 1], k, e);
    }
  }

  /** The position of the leftmost and rightmost bounding box. */
  function MinX(s: seq<Bubble>): (m: int)
    requires s != []
    ensures exists i :: 0 <= i < |s| && s[i].x == m
    ensures forall i :: 0 <= i < |s| ==> m <= s[i].x
  {
    if |s| == 1 then s[0].x
    else
      var m := MinX(s[..|s| - 1]);
      assert forall i :: 0 <= i < |s| - 1 ==> s[..|s| - 1][i] == s[i];
      if Last(s).x < m then Last(s).x else m
  }

  function MaxX(s: seq<Bubble>): (m: int)
    requires s != []
    ensures exists i :: 0 <= i < |s| && s[i].x == m
    ensures forall i :: 0 <= i < |s| ==> s[i].x <= m
  {
    if |s| == 1 then s[0].x
    else
      var m := MaxX(s[..|s| - 1]);
      assert forall i :: 0 <= i < |s| - 1 ==> s[..|s| - 1][i] == s[i];
      if Last(s).x > m then Last(s).x else m
  }
}
