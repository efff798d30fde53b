/** Picking the marked alternative of a question: the alternative whose
    contour has the highest mean fill, the first one on a tie (`np.argmax`). */
module Resolver {
  import opened Bubbles

  /** The letters of the alternatives, left to right. */
  const OPTIONS: seq<string> := ["A", "B", "C", "D", "E"]

  /** The fill levels of a question's alternatives, left to right. */
  function Fills(q: seq<Bubble>): seq<real>
  {
    seq(|q|, i requires 0 <= i < |q| => q[i].fill)
  }

  /** `k` indexes a maximum of `v`, and no earlier entry reaches it. */
  ghost predicate IsFirstMax(v: seq<real>, k: int)
  {
    && 0 <= k < |v|
    && (forall j :: 0 <= j < |v| ==> v[j] <= v[k])
    && (forall j :: 0 <= j < k ==> v[j] < v[k])
  }

  /** The first maximum is determined by the values alone. */
  lemma FirstMaxUnique(v: seq<real>, k1: int, k2: int)
    requires IsFirstMax(v, k1) && IsFirstMax(v, k2)
    ensures k1 == k2
  {
    assert v[k1] <= v[k2] && v[k2] <= v[k1];
  }

  /** The masked mean of each alternative, collected in order. */
  method Intensities(q: seq<Bubble>) returns (v: seq<real>)
    ensures |v| == |q|
    ensures forall i :: 0 <= i < |q| ==> v[i] == q[i].fill
  {
    v := [];
    for i := 0 to |q|
      invariant |v| == i
      invariant forall j :: 0 <= j < i ==> v[j] == q[j].fill
    {
      v := v + [q[i].fill];
    }
  }

  /** `np.argmax`: scans left to right and moves only on a strictly larger value. */
  method ArgMax(v: seq<real>) returns (k: nat)
    requires |v| > 0
    ensures IsFirstMax(v, k)
  {
    k := 0;
    for i := 1 to |v|
      invariant k < i
      invariant forall j :: 0 <= j < i ==> v[j] <= v[k]
      invariant forall j :: 0 <= j < k ==> v[j] < v[k]
    {
      if v[i] > v[k] {
        k := i;
      }
    }
  }

  /** The alternative a question resolves to: its first most-filled bubble. */
  method MarkedAlternative(q: seq<Bubble>) returns (k: nat)
    requires q != []
    ensures IsFirstMax(Fills(q), k)
  {
    var intensities := Intensities(q);
    assert intensities == Fills(q);
    k := ArgMax(intensities);
  }
}
