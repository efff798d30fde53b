/** The candidate filter both front ends run over the detected outer contours. */
module Detector {
  import opened Bubbles

  /** An acceptance band: the enclosed area lies strictly between `minArea` and
      `maxArea`, and the width/height ratio lies in the closed interval
      [lo/den, hi/den]. The ratio test is kept in integers by cross-multiplying
      with the (positive) height. */
  datatype ShapeBand = ShapeBand(minArea: real, maxArea: real, lo: nat, den: Pos, hi: nat)

  predicate Accepted(band: ShapeBand, b: Bubble)
  {
    && band.minArea < b.area < band.maxArea
    && band.lo * b.h <= band.den * b.w <= band.hi * b.h
  }

  function AcceptedBy(band: ShapeBand): Bubble -> bool
  {
    b => Accepted(band, b)
  }

  /** The ratio test in integers agrees with the test on the exact quotient w/h. */
  lemma RatioExact(band: ShapeBand, w: Pos, h: Pos)
    ensures (band.lo * h <= band.den * w) <==> (band.lo as real / band.den as real <= w as real / h as real)
    ensures (band.den * w <= band.hi * h) <==> (w as real / h as real <= band.hi as real / band.den as real)
  {
    CrossMultiply(band.lo, band.den, w, h);
    CrossMultiply(w, h, band.hi, band.den);
  }

  /** a/d <= c/e exactly when a*e <= c*d, for positive denominators. */
  lemma CrossMultiply(a: int, d: Pos, c: int, e: Pos)
    ensures (a * e <= c * d) <==> (a as real / d as real <= c as real / e as real)
  {
    var l := a as real / d as real;
    var r := c as real / e as real;
    var m := d as real * e as real;
    assert l * d as real == a as real;
    assert r * e as real == c as real;
    assert l * m == (l * d as real) * e as real;
    assert r * m == (r * e as real) * d as real;
    assert l * m == (a * e) as real;
    assert r * m == (c * d) as real;
    if l <= r {
      assert (r - l) * m >= 0.0;
    } else {
      assert (l - r) * m > 0.0;
    }
  }

  /** The filter loop: walks the candidates in detection order and appends
      each one whose area and then whose ratio pass. */
  method FilterCandidates(cands: seq<Bubble>, band: ShapeBand) returns (bubbles: seq<Bubble>)
    ensures bubbles == Keep(cands, AcceptedBy(band))
  {
    bubbles := [];
    for i := 0 to |cands|
      invariant bubbles == Keep(cands[..i], AcceptedBy(band))
    {
      var c := cands[i];
      assert cands[..i + 1] == cands[..i] + [c];
      KeepConcat(cands[..i], [c], AcceptedBy(band));
      if band.minArea < c.area < band.maxArea {
        if band.lo * c.h <= band.den * c.w <= band.hi * c.h {
          bubbles := bubbles + [c];
        }
      }
    }
    assert cands[..|cands|] == cands;
  }

  /** Exactly the accepted candidates survive, each as often as it was
      detected, and in detection order. */
  lemma {:induction false} FilterExact(cands: seq<Bubble>, band: ShapeBand)
    ensures forall b :: b in Keep(cands, AcceptedBy(band)) <==> b in cands && Accepted(band, b)
    ensures forall b :: multiset(Keep(cands, AcceptedBy(band)))[b] == if Accepted(band, b) then multiset(cands)[b] else 0
  {
    KeepMembers(cands, AcceptedBy(band));
    if cands != [] {
      FilterExact(cands[1..], band);
      assert cands == [cands[0]] + cands[1..];
    }
  }
}
