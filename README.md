# Answer-sheet reader: recognition and scoring core in Dafny

This project models the decision logic of a small optical-mark-recognition
reader of multiple-choice answer sheets. It exists in two front ends:

- `app.py` is the web version. It filters contours, groups them into four
  columns of rows, resolves five-alternative questions, and scores them
  against a key.
- `gabarito.py` is the webcam version. It uses a stricter filter, a single
  top-to-bottom row walk, an unguarded resolver, and a scorer with "?"
  fallbacks.

The OpenCV calls are reduced to given values. Each detected contour becomes a
`Bubble(id, x, y, w, h, area, fill)`:

- `x`, `y`, `w`, `h` are its bounding box;
- `area` is its contour area;
- `fill` is the mean of the thresholded image under its mask;
- `id` keeps apart contours with equal geometry.

## Modules

- `Bubbles` (`bubbles.dfy`) holds the shared record and the list helpers:
  - `Keep`, an order-preserving filter;
  - `Flatten`, the concatenation of rows;
  - `MinX` and `MaxX`.
- `StableSort` (`stable_sort.dfy`) models Python's `sorted(..., key=...)` on
  x or y as a stable insertion sort. It is proved sorted, a permutation, and
  stable.
- `Detector` (`detector.dfy`) is the candidate filter loop, parameterised by
  an area band and a ratio band. The ratio test `lo/den <= w/h <= hi/den` is
  kept in integers as `lo*h <= den*w <= hi*h`, and `RatioExact` proves this
  agrees with the exact quotient.
- `Rows` (`rows.dfy`) is the row walk that both front ends run over
  y-sorted bubbles. `last_y` moves to every appended bubble, so a row is a
  chain of neighbours closer than the tolerance. The walk is specified by
  `Segments`, which is characterised two ways:
  - `ChainedRows`: the cut into tight rows separated by gaps of at least the
    tolerance, which is unique;
  - `AscendingRows`: on y-sorted input, each row rises by less than the
    tolerance per step, and each row starts at least one tolerance below the
    previous row's last bubble.
- `Resolver` (`resolver.dfy`) is `np.argmax` over the fill levels: the first
  index of a maximum.
- `Tally` (`tally.dfy`) counts questions by their 1-based numbers, as both
  `acertos` counters do.
- `App` (`app.dfy`) models `app.py` in these stages:
  - the 300–3000 / 0.8–1.2 filter;
  - column bucketing with `min(int((x-min_x)/(col_width+5)), n-1)`,
    computed in integers as `((x-min_x)*n) / (span+5n)`. `ColumnIndexExact`
    proves this is the floor of the exact quotient, and that the clamp never
    acts;
  - the per-column row walk with tolerance 25;
  - the `len(q) != 5 → None` resolver;
  - the keyed scorer;
  - the "nothing detected" branch.
- `Gabarito` (`gabarito.dfy`) models `gabarito.py` in these stages:
  - the 400–2000 / 0.9–1.1 filter;
  - the single row walk with tolerance 20;
  - the resolver on every row;
  - the scorer that compares `options[ans] if ans < 5 else "?"` with
    `gabarito.get(i, "?")`.
- `Determinism` (`determinism.dfy`) shows how far the grouping depends on
  the order of the contours. The answer is: only among bubbles at one
  position.
  - Two y-sorted arrangements of the same bubbles agree in y at every index.
  - The walk cuts both at the same places, and each row holds the same
    bubbles.
  - The stable x-sort of a y-sorted row orders it by x, then y. With
    distinct positions, that order is unique.

Two facts about the code shape the model:

- **Row walk.** A candidate joins the current row when its y is within the
  tolerance of the previous bubble's y (`app.py:48-50`, `gabarito.py:41-43`).
  It is not compared with the row's first bubble. A row is therefore a chain
  of neighbours and can drift by more than the tolerance overall.
- **Order of the input.** The sorts are stable, so bubbles with equal keys
  keep their input order.
  - A tie in y alone is undone by the row's x-sort (`app.py:52`, `app.py:56`,
    `gabarito.py:45`, `gabarito.py:49`).
  - A tie in x alone is undone by the y-sort (`app.py:42`, `gabarito.py:34`).
  - So the questions depend on the input order only through bubbles that
    share both x and y. `App.GroupedPermutation` and
    `Gabarito.GroupedPermutation` prove this.
  - `Gabarito.SharedPositionOrder` shows two such bubbles keeping their
    input order.

## Model

| member | source | states |
|---|---|---|
| StableSort.Sort | app.py:30 | `sorted(bubbles, key=...)`: the result is sorted on the key and is a permutation of the input |
| StableSort.SortStable | app.py:42 | the sort is stable: bubbles with equal key keep their input order |
| Detector.RatioExact | app.py:21-22 | the integer cross-multiplied ratio test holds exactly when the bound on the real quotient `w / float(h)` does |
| Detector.FilterCandidates | app.py:17-23 | the filter loop appends, in contour order, exactly the candidates that pass the area test and then the ratio test |
| Detector.FilterExact | gabarito.py:19-29 | a bubble survives the filter iff it was a candidate and passes both bands, and it is kept as often as it was detected |
| App.DetectBubbles | app.py:14-24 | the web filter keeps, in order, exactly the candidates with `300 < area < 3000` and `4h <= 5w <= 6h`; it keeps none iff no candidate passes |
| App.ColumnIndex | app.py:37 | the column index of an x at or right of `min_x` lies in `[0, n-1]`, also when every x is equal |
| App.ColumnIndexExact | app.py:32-37 | for `min_x <= x <= max_x`, the integer index equals the floor of `(x-min_x)/(col_width+5)` with `col_width=(max_x-min_x)/n`, and the clamp to `n-1` never changes it |
| App.Bucket | app.py:34-38 | the bucketing loop leaves the columns that appending each bubble, in x order, to the column its index names produces |
| App.BucketedPartition | app.py:34-38 | the columns hold exactly the input bubbles, each once |
| App.BucketedInColumns | app.py:35-38 | every bubble lies in the column its index names |
| App.ColumnRowsSpec | app.py:41-56 | a column's rows regroup the column, none empty and each sorted by x; they are the chained cut of the y-sorted column (gaps below 25 inside a row, at least 25 between rows) and ascend in y |
| App.GroupBubblesByColumns | app.py:26-58 | the grouping method returns the grouping of the bubbles: x-sort, bucket, then walk each column's y-sorted bubbles into x-sorted rows, column after column |
| App.GroupedSpec | app.py:27-56 | grouping is a partition of the bubbles into non-empty, x-sorted questions; no bubbles gives no questions and only then |
| App.GroupedColumnMajor | app.py:40-56 | the questions come column by column: a bubble of an earlier question never lies in a later column than a bubble of a later question |
| App.GetMarkedAlternatives | app.py:60-74 | one answer per question; it is None exactly when the question does not have 5 bubbles, otherwise the first index of the highest fill, so a letter always exists |
| App.Score | app.py:76-94 | the score is the number of questions with an answer, a key entry, and that entry's letter; it never exceeds the key's size |
| App.ScoreBound | app.py:101 | only keyed questions score, so `acertos <= len(gabarito)` and `acertos <= len(answers)` |
| App.Grade | app.py:147-160 | the pipeline reports "nothing detected" exactly when no candidate passes the filter; otherwise the questions are the grouping of the filtered bubbles, a question has no answer exactly when it does not have 5 bubbles and otherwise answers the first index of its highest fill, and the score is the keyed count, at most the key's size |
| Rows.SegmentsChained | app.py:43-56 | the row walk's cut flattens back to its input, has only non-empty rows with gaps below the tolerance, and starts a row only at a gap of at least the tolerance |
| Rows.ChainedIsSegments | gabarito.py:39-49 | any cut with those three properties is the walk's cut, so they characterise it |
| Rows.SegmentsAscending | gabarito.py:34-47 | on y-sorted input each row rises by less than the tolerance per step, and each row starts at least one tolerance below the previous row's last bubble |
| Rows.SplitRows | gabarito.py:35-49 | the walk loop with `line` and `last_y` returns the x-sorted rows of the chained cut |
| Rows.SplitRowsSpec | app.py:43-56 | the walk's rows regroup the input exactly, are non-empty and x-sorted, and are empty only for empty input |
| Resolver.Intensities | app.py:66-71 | one fill level per alternative, in order |
| Resolver.ArgMax | app.py:72 | `np.argmax`: the returned index holds a maximum and every earlier entry is strictly smaller |
| Resolver.FirstMaxUnique | gabarito.py:62 | the first maximum is determined by the values alone |
| Resolver.MarkedAlternative | gabarito.py:56-63 | a question resolves to the first of its most-filled bubbles |
| Gabarito.DetectBubbles | gabarito.py:15-30 | the webcam filter keeps, in order, exactly the candidates with `400 < area < 2000` and `9h <= 10w <= 11h` |
| Gabarito.GroupBubbles | gabarito.py:32-50 | the rows are the y-sorted bubbles walked with tolerance 20, each row sorted by x |
| Gabarito.GroupedSpec | gabarito.py:34-50 | the rows partition the bubbles, none empty, each x-sorted, empty only for no bubbles; they are the chained, ascending cut of the y-sorted bubbles |
| Gabarito.GetMarkedAlternatives | gabarito.py:52-64 | one answer per question: the first index of the highest fill, whatever the row's length |
| Gabarito.EvaluateScore | gabarito.py:66-78 | the score is the number of questions whose label equals the key's entry, both falling back to "?", and at most `len(answers)` |
| Gabarito.MatchExact | gabarito.py:72-76 | with a key of letters, a question scores iff its answer is its keyed letter, or it is unkeyed and its answer index is 5 or more ("?" == "?") |
| Gabarito.SingleRow | gabarito.py:32-50 | bubbles on one level, listed left to right, come out as one row, unchanged |
| Gabarito.OverflowRowAccepted | gabarito.py:19-29 | the six bubbles of the example row all pass the webcam filter |
| Gabarito.OverflowRowIsOneQuestion | gabarito.py:32-50 | the six bubbles of the example row form a single question |
| Gabarito.OverflowRowScores | gabarito.py:62-78 | on that row the resolver answers 5; with an empty key the scorer counts 1 ("?" == "?") while the keyed count is 0 |
| Gabarito.UnkeyedOverflowScores | gabarito.py:137-143 | a capture whose contours are just that row, grouped and resolved as the pipeline does, is one question answered 5 and scores 1 against an empty key, with no keyed hit |
| Gabarito.ScoreCoversHits | gabarito.py:71-78 | with a key of letters, every keyed correct answer scores, and those are at most the key's size |
| Gabarito.ScoreIsHitsOnLetters | gabarito.py:72-77 | when every answer names a letter, the scorer counts exactly the keyed correct answers |
| Gabarito.GroupedPermutation | gabarito.py:32-50 | reordering the bubbles leaves the rows unchanged when no two bubbles share both x and y |
| Gabarito.SharedPositionOrder | gabarito.py:34-49 | two bubbles at one position form one row in their input order, so swapping them changes the rows |
| App.BucketedPermutation | app.py:34-38 | the bucketing puts the same bubbles into each column, whatever their order |
| App.GroupedPermutation | app.py:26-58 | reordering the bubbles leaves the questions unchanged when no two bubbles share both x and y |
| Determinism.SortedYs | app.py:42 | two y-sorted arrangements of the same bubbles have the same y at every index |
| Determinism.SegmentsSameEnds | app.py:46-56 | sequences that agree in y are cut into the same number of rows, with the same first and last y row by row |
| Determinism.SegmentsSeparated | gabarito.py:39-49 | on y-sorted input with a positive tolerance, each row is y-sorted and lies strictly above the next |
| Determinism.RowMultiset | gabarito.py:39-49 | rows cut at the same places from the same bubbles hold the same bubbles, row by row |
| Determinism.SortLex | app.py:56 | the stable x-sort of a y-sorted row orders it by x, then by y |
| Determinism.LexUnique | gabarito.py:49 | two arrangements ordered by x, then y, of the same bubbles are equal when no two share a position |
| Determinism.WalkDetermined | app.py:42-56 | the y-sort, the walk and the per-row x-sort together depend only on which bubbles there are, when positions are distinct |
| Gabarito.GradeCapture | gabarito.py:137-143 | from one frame's contours: the rows of the filtered bubbles, one first-maximum answer per row, and the "?"-fallback score, at most the number of answers |

## Left out

- `preprocess_image` (grayscale, blur, fixed or Otsu threshold) in both files is not modelled. It is raster processing by OpenCV.
- `cv2.findContours`, `cv2.contourArea`, `cv2.boundingRect`, `cv2.drawContours` and `cv2.mean` are not modelled. Their results are the given `x`, `y`, `w`, `h`, `area` and `fill` of each bubble, and contours and masks are not represented.
- `w` and `h` are positive by type. A bounding box of a contour is never empty.
- Drawing is not modelled: rectangles, labels, colours, the score text, and the `questions[i][ans]` lookup that only feeds the drawing.
- The Streamlit page is not modelled: upload, decode, the resize to 1000 px, display, and download. The webcam loop is not modelled either: ROI, `imshow`, `waitKey`.
- The hard-coded answer keys are left out. The key is a parameter.
- Area and fill are exact reals, so floating-point rounding and NaN fills are not modelled.
- The column quotient is exact in floating point for the default `n = 4`. There `col_width` is a quarter of an integer, and the true quotient is never within rounding distance of an integer unless it is one.
- App.ColumnIndex: an x left of `min_x` is outside the source's domain, since `min_x` is the minimum. There the model only guarantees an index below `n`.
- App.Score: requires every present answer to be below 5. The resolver guarantees this for the web front end (`App.GetMarkedAlternatives`), and otherwise `options[ans]` would raise.
- Gabarito.GetMarkedAlternatives: requires non-empty questions, because `np.argmax` raises on an empty list. `group_bubbles` never emits an empty row (`Gabarito.GroupedSpec`).
- Python's `sorted` is a builtin. It is modelled as a stable insertion sort, which has the same result.
- App.GroupedPermutation: assumes no two bubbles share both x and y, because two such bubbles keep their input order (`Gabarito.SharedPositionOrder`).
- Gabarito.GroupedPermutation: assumes no two bubbles share both x and y, for the same reason.
