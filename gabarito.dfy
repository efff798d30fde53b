/** The webcam scanner (gabarito.py): a stricter candidate filter, a single
    top-to-bottom row walk, an unguarded resolver, and a tally that falls back
    to the placeholder "?" on both sides of the comparison. */
module Gabarito {
  import opened Bubbles
  import opened StableSort
  import opened Detector
  import opened Rows
  import opened Resolver
  import opened Tally
  import opened Determinism

  /** 400 < area < 2000 and 0.9 <= w/h <= 1.1, i.e. 9h <= 10w <= 11h. */
  const BAND := ShapeBand(400.0, 2000.0, 9, 10, 11)
  /** Vertical tolerance between neighbours of one row. */
  const ROW_TOLERANCE: nat := 20
  /** What the scorer compares when it has no letter or no key entry. */
  const PLACEHOLDER := "?"

  // ---------------------------------------------------------------- detection

  method DetectBubbles(cands: seq<Bubble>) returns (bubbles: seq<Bubble>)
    ensures bubbles == Keep(cands, AcceptedBy(BAND))
    ensures forall b :: b in bubbles <==> b in cands && 400.0 < b.area < 2000.0 && 9 * b.h <= 10 * b.w <= 11 * b.h
  {
    bubbles := FilterCandidates(cands, BAND);
    FilterExact(cands, BAND);
  }

  // ------------------------------------------------------------------- rows

  /** The value `group_bubbles` returns. */
  function Grouped(bubbles: seq<Bubble>): seq<seq<Bubble>>
  {
    SortEach(Segments(Sort(bubbles, Y), ROW_TOLERANCE))
  }

  /** `group_bubbles`: sort by y, then walk the rows. */
  method GroupBubbles(bubbles: seq<Bubble>) returns (questions: seq<seq<Bubble>>)
    ensures questions == Grouped(bubbles)
  {
    var sorted := Sort(bubbles, Y);
    questions := SplitRows(sorted, ROW_TOLERANCE);
  }

  /** The rows regroup exactly the bubbles, none is empty, each is sorted by
      x; before the per-row sort they are the chained, ascending cut of the
      y-sorted bubbles. */
  lemma GroupedSpec(bubbles: seq<Bubble>)
    ensures multiset(Flatten(Grouped(bubbles))) == multiset(bubbles)
    ensures (Grouped(bubbles) == []) == (bubbles == [])
    ensures WellFormed(Grouped(bubbles))
    ensures ChainedRows(Sort(bubbles, Y), Segments(Sort(bubbles, Y), ROW_TOLERANCE), ROW_TOLERANCE)
    ensures AscendingRows(Segments(Sort(bubbles, Y), ROW_TOLERANCE), ROW_TOLERANCE)
  {
    SplitRowsSpec(Sort(bubbles, Y), ROW_TOLERANCE);
    SegmentsChained(Sort(bubbles, Y), ROW_TOLERANCE);
    SegmentsAscending(Sort(bubbles, Y), ROW_TOLERANCE);
  }

  /** The rows depend only on which bubbles were detected, not on the
      order of the contours, as long as no two bubbles share both x and y. */
  lemma GroupedPermutation(s: seq<Bubble>, t: seq<Bubble>)
    requires multiset(s) == multiset(t) && Positioned(s)
    ensures Grouped(s) == Grouped(t)
  {
    WalkDetermined(s, t, ROW_TOLERANCE);
  }

  /** Two contours with the same bounding-box corner but different fills. */
  const UNDER := Bubble(0, 0, 100, 30, 30, 700.0, 10.0)
  const OVER := Bubble(1, 0, 100, 30, 30, 700.0, 200.0)

  /** Bubbles at one position are the exception: their row keeps the order
      in which they were detected. */
  lemma SharedPositionOrder()
    ensures Grouped([UNDER, OVER]) == [[UNDER, OVER]]
    ensures Grouped([OVER, UNDER]) == [[OVER, UNDER]]
  {
    PairRow(UNDER, OVER);
    PairRow(OVER, UNDER);
  }

  /** Two bubbles at one position form one row, in the given order. */
  lemma PairRow(a: Bubble, b: Bubble)
    requires a.x == b.x && a.y == b.y
    ensures Grouped([a, b]) == [[a, b]]
  {
    var row := [a, b];
    assert SortedBy(row, X);
    SingleRow(row);
  }

  // --------------------------------------------------------------- resolver

  /** `get_marked_alternatives`: every question resolves to its first
      most-filled bubble, whatever its number of bubbles (the rows are never
      empty, which `np.argmax` needs). */
  method GetMarkedAlternatives(questions: seq<seq<Bubble>>) returns (answers: seq<nat>)
    requires forall i :: 0 <= i < |questions| ==> questions[i] != []
    ensures |answers| == |questions|
    ensures forall i :: 0 <= i < |questions| ==> IsFirstMax(Fills(questions[i]), answers[i])
  {
    answers := [];
    for i := 0 to |questions|
      invariant |answers| == i
      invariant forall j :: 0 <= j < i ==> IsFirstMax(Fills(questions[j]), answers[j])
    {
      var marked := MarkedAlternative(questions[i]);
      answers := answers + [marked];
    }
  }

  // ----------------------------------------------------------------- scorer

  /** `options[ans] if ans < len(options) else "?"`. */
  function Label(ans: nat): string
  {
    if ans < |OPTIONS| then OPTIONS[ans] else PLACEHOLDER
  }

  /** `gabarito.get(num, "?")`. */
  function Expected(key: map<int, string>, num: int): string
  {
    if num in key then key[num] else PLACEHOLDER
  }

  /** The comparison the scorer makes: the label against the key's entry,
      both falling back to the placeholder. */
  predicate Match(ans: nat, num: int, key: map<int, string>)
  {
    Label(ans) == Expected(key, num)
  }

  function Matches(answers: seq<nat>, key: map<int, string>): seq<bool>
  {
    seq(|answers|, i requires 0 <= i < |answers| => Match(answers[i], i + 1, key))
  }

  lemma MatchesSnoc(answers: seq<nat>, key: map<int, string>, i: nat)
    requires i < |answers|
    ensures |Numbered(Matches(answers[..i + 1], key))| ==
      |Numbered(Matches(answers[..i], key))| + if Match(answers[i], i + 1, key) then 1 else 0
  {
    assert Matches(answers[..i + 1], key) == Matches(answers[..i], key) + [Match(answers[i], i + 1, key)];
    NumberedSnoc(Matches(answers[..i], key), Match(answers[i], i + 1, key));
  }

  /** The counting loop of `evaluate_and_draw` (its drawing is left out):
      the score is the number of questions whose label matches. */
  method EvaluateScore(answers: seq<nat>, key: map<int, string>) returns (acertos: nat)
    ensures acertos == |Numbered(Matches(answers, key))|
    ensures acertos <= |answers|
  {
    acertos := 0;
    for i := 0 to |answers|
      invariant acertos == |Numbered(Matches(answers[..i], key))|
    {
      MatchesSnoc(answers, key, i);
      var ans := answers[i];
      var marcado := Label(ans);
      var certo := Expected(key, i + 1);
      if marcado == certo {
        acertos := acertos + 1;
      }
    }
    assert answers[..|answers|] == answers;
    NumberedBound(Matches(answers, key));
  }

  /** Every key entry is one of the letters. */
  ghost predicate LetterKey(key: map<int, string>)
  {
    forall k :: k in key ==> key[k] in OPTIONS
  }

  /** The reference comparison: question `num` scores when the key has an
      entry for it and the answer is that entry's letter. */
  predicate Hit(ans: nat, num: int, key: map<int, string>)
  {
    num in key && ans < |OPTIONS| && OPTIONS[ans] == key[num]
  }

  function Hits(answers: seq<nat>, key: map<int, string>): seq<bool>
  {
    seq(|answers|, i requires 0 <= i < |answers| => Hit(answers[i], i + 1, key))
  }

  /** With a key of letters, the scorer's comparison holds exactly for the
      reference hits and for every unkeyed question whose answer has no
      letter ("?" == "?"). */
  lemma MatchExact(ans: nat, num: int, key: map<int, string>)
    requires LetterKey(key)
    ensures Match(ans, num, key) <==> Hit(ans, num, key) || (num !in key && ans >= |OPTIONS|)
  {
    if num in key {
      assert key[num] != PLACEHOLDER;
    } else if ans < |OPTIONS| {
      assert OPTIONS[ans] != PLACEHOLDER;
    }
  }

  /** A question row of six bubbles side by side, the sixth (past "E") the
      most filled. */
  const OVERFLOW_ROW: seq<Bubble> := [
    Bubble(0, 0, 100, 30, 30, 700.0, 10.0),
    Bubble(1, 40, 100, 30, 30, 700.0, 10.0),
    Bubble(2, 80, 100, 30, 30, 700.0, 10.0),
    Bubble(3, 120, 100, 30, 30, 700.0, 10.0),
    Bubble(4, 160, 100, 30, 30, 700.0, 10.0),
    Bubble(5, 200, 100, 30, 30, 700.0, 200.0)]

  /** Bubbles on one level, left to right, form a single row. */
  lemma SingleRow(row: seq<Bubble>)
    requires row != []
    requires forall i :: 0 <= i < |row| ==> row[i].y == row[0].y
    requires SortedBy(row, X)
    ensures Grouped(row) == [row]
  {
    assert Sort(row, Y) == row by {
      assert SortedBy(row, Y);
      SortOfSorted(row, Y);
    }
    assert Segments(row, ROW_TOLERANCE) == [row] by {
      forall j | 0 < j < |row| ensures Abs(row[j].y - row[j - 1].y) < ROW_TOLERANCE {
        assert row[j].y == row[0].y && row[j - 1].y == row[0].y;
      }
      SingleSegment(row, ROW_TOLERANCE);
    }
    assert SortEach([row]) == [row] by {
      SortEachSingle(row);
      SortOfSorted(row, X);
    }
  }

  /** The six bubbles pass the webcam filter. */
  lemma OverflowRowAccepted()
    ensures Keep(OVERFLOW_ROW, AcceptedBy(BAND)) == OVERFLOW_ROW
  {
    AcceptedRowKept(OVERFLOW_ROW);
  }

  /** The six bubbles group into that one row. */
  lemma OverflowRowIsOneQuestion()
    ensures Grouped(OVERFLOW_ROW) == [OVERFLOW_ROW]
  {
    SingleRow(OVERFLOW_ROW);
  }

  /** A row of bubbles that all pass the webcam filter survives it whole. */
  lemma AcceptedRowKept(row: seq<Bubble>)
    requires forall i :: 0 <= i < |row| ==> Accepted(BAND, row[i])
    ensures Keep(row, AcceptedBy(BAND)) == row
  {
    KeepAll(row, AcceptedBy(BAND));
  }

  /** The resolver answers 5 on that row, and under a key without question
      1 the scorer counts it although no question is keyed. */
  lemma OverflowRowScores(answers: seq<nat>)
    requires |answers| == 1 && IsFirstMax(Fills(OVERFLOW_ROW), answers[0])
    ensures answers == [5]
    ensures |Numbered(Matches(answers, map[]))| == 1
    ensures |Numbered(Hits(answers, map[]))| == 0
  {
    var v := Fills(OVERFLOW_ROW);
    assert v == [10.0, 10.0, 10.0, 10.0, 10.0, 200.0];
    assert IsFirstMax(v, 5);
    FirstMaxUnique(v, answers[0], 5);
    assert answers == [5];
    var flags := Matches(answers, map[]);
    assert flags == [] + [true];
    NumberedSnoc([], true);
    var fixed := Hits(answers, map[]);
    assert fixed == [] + [false];
    NumberedSnoc([], false);
  }

  /** The placeholder collision, end to end: a capture whose only contours
      are that row, resolved as `GradeCapture` promises, is one question
      answered 5, and under a key without question 1 the scorer counts 1
      although no question is keyed. */
  lemma UnkeyedOverflowScores(questions: seq<seq<Bubble>>, answers: seq<nat>)
    requires questions == Grouped(Keep(OVERFLOW_ROW, AcceptedBy(BAND)))
    requires |answers| == |questions|
    requires forall i :: 0 <= i < |questions| ==> IsFirstMax(Fills(questions[i]), answers[i])
    ensures questions == [OVERFLOW_ROW]
    ensures answers == [5]
    ensures |Numbered(Matches(answers, map[]))| == 1
    ensures |Numbered(Hits(answers, map[]))| == 0
  {
    assert questions == [OVERFLOW_ROW] by {
      OverflowRowAccepted();
      OverflowRowIsOneQuestion();
    }
    assert IsFirstMax(Fills(OVERFLOW_ROW), answers[0]) by {
      assert questions[0] == OVERFLOW_ROW;
    }
    OverflowRowScores(answers);
  }

  /** Against a key of letters the score counts every reference hit, and
      the reference hits are never more than the key's entries. */
  lemma ScoreCoversHits(answers: seq<nat>, key: map<int, string>)
    requires LetterKey(key)
    ensures Numbered(Hits(answers, key)) <= Numbered(Matches(answers, key))
    ensures |Numbered(Hits(answers, key))| <= |key|
  {
    forall i | 0 <= i < |answers| && Hits(answers, key)[i] ensures Matches(answers, key)[i] {
      MatchExact(answers[i], i + 1, key);
    }
    NumberedMono(Hits(answers, key), Matches(answers, key));
    NumberedWithin(Hits(answers, key), key.Keys);
  }

  /** When every answer names a letter (no row has more than five bubbles),
      the score is exactly the reference count. */
  lemma ScoreIsHitsOnLetters(answers: seq<nat>, key: map<int, string>)
    requires LetterKey(key)
    requires forall i :: 0 <= i < |answers| ==> answers[i] < |OPTIONS|
    ensures Matches(answers, key) == Hits(answers, key)
  {
    forall i | 0 <= i < |answers| ensures Hits(answers, key)[i] == Matches(answers, key)[i] {
      MatchExact(answers[i], i + 1, key);
    }
  }

  // --------------------------------------------------------------- pipeline

  /** From the detected contours of one captured frame to the score. */
  method GradeCapture(cands: seq<Bubble>, key: map<int, string>)
    returns (questions: seq<seq<Bubble>>, answers: seq<nat>, acertos: nat)
    ensures questions == Grouped(Keep(cands, AcceptedBy(BAND)))
    ensures |answers| == |questions|
    ensures forall i :: 0 <= i < |questions| ==> IsFirstMax(Fills(questions[i]), answers[i])
    ensures acertos == |Numbered(Matches(answers, key))| && acertos <= |answers|
  {
    var bubbles := DetectBubbles(cands);
    questions := GroupBubbles(bubbles);
    GroupedSpec(bubbles);
    answers := GetMarkedAlternatives(questions);
    acertos := EvaluateScore(answers, key);
  }
}
