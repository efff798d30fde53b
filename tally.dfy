/** Counting questions by their 1-based numbers, as both scorers do with
    their `acertos` counter. */
module Tally {

  /** The 1-based numbers of the positions whose flag is set. */
  ghost function Numbered(flags: seq<bool>): set<int>
  {
    set i | 0 <= i < |flags| && flags[i] :: i + 1
  }

  lemma NumberedSnoc(flags: seq<bool>, f: bool)
    ensures |flags| + 1 !in Numbered(flags)
    ensures Numbered(flags + [f]) == Numbered(flags) + (if f then {|flags| + 1} else {})
  {
    var flags' := flags + [f];
    forall n | n in Numbered(flags) ensures n <= |flags| {
      var i :| 0 <= i < |flags| && flags[i] && n == i + 1;
    }
    if f {
      assert flags'[|flags|];
      assert |flags| + 1 in Numbered(flags');
    }
    forall n | n in Numbered(flags') ensures n in Numbered(flags) + (if f then {|flags| + 1} else {}) {
      var i :| 0 <= i < |flags'| && flags'[i] && n == i + 1;
      if i < |flags| {
        assert flags[i];
      }
    }
    forall n | n in Numbered(flags) ensures n in Numbered(flags') {
      var i :| 0 <= i < |flags| && flags[i] && n == i + 1;
      assert flags'[i];
    }
  }

  /** Never more numbers than positions. */
  lemma {:induction false} NumberedBound(flags: seq<bool>)
    ensures |Numbered(flags)| <= |flags|
  {
    if flags != [] {
      var init := flags[..|flags| - 1];
      NumberedBound(init);
      assert flags == init + [flags[|flags| - 1]];
      NumberedSnoc(init, flags[|flags| - 1]);
    }
  }

  /** When every flagged number is drawn from `keys`, the flagged numbers
      are at most as many as the keys. */
  lemma NumberedWithin(flags: seq<bool>, keys: set<int>)
    requires forall i :: 0 <= i < |flags| && flags[i] ==> i + 1 in keys
    ensures Numbered(flags) <= keys
    ensures |Numbered(flags)| <= |keys|
  {
    var ns := Numbered(flags);
    forall n | n in ns ensures n in keys {
      var i :| 0 <= i < |flags| && flags[i] && n == i + 1;
    }
    assert keys == ns + (keys - ns);
    assert ns * (keys - ns) == {};
  }

  /** Setting more flags never loses a number. */
  lemma NumberedMono(flags: seq<bool>, more: seq<bool>)
    requires |flags| == |more|
    requires forall i :: 0 <= i < |flags| && flags[i] ==> more[i]
    ensures Numbered(flags) <= Numbered(more)
  {
    forall n | n in Numbered(flags) ensures n in Numbered(more) {
      var i :| 0 <= i < |flags| && flags[i] && n == i + 1;
      assert more[i];
    }
  }
}
