/**
 Learned index models (mod/learned_index.cpp, and PLR::train of mod/plr.cpp).

 A file model is trained on the keys of a table, a level model on the smallest
 and largest keys of the files of a level in turn.  Keys are the numbers the
 fixed-width decimal key strings spell (module Keys).
 */
module LearnedIndex {
  import opened Plr

  ghost predicate StrictlyIncreasing(keys: seq<nat>) {
    forall i, j :: 0 <= i < j < |keys| ==> keys[i] < keys[j]
  }

  /** The training points: key number i goes to position i. */
  ghost function Points(keys: seq<nat>): (pts: seq<Point>)
    ensures |pts| == |keys|
  {
    seq(|keys|, i requires 0 <= i < |keys| => Point(keys[i] as real, i as real))
  }

  lemma PointsSlice(keys: seq<nat>, c: nat, i: nat)
    requires c <= i < |keys|
    ensures Points(keys)[c..i] + [Point(keys[i] as real, i as real)] == Points(keys)[c..i + 1]
    ensures Points(keys)[i..i + 1] == [Point(keys[i] as real, i as real)]
    ensures c < i ==> [Points(keys)[c..i][i - 1 - c], Point(keys[i] as real, i as real)] == Points(keys)[i - 1..i + 1]
  {
  }

  ghost predicate AllEven(s: seq<nat>) {
    forall i :: 0 <= i < |s| ==> s[i] % 2 == 0
  }

  lemma EvenAppend(s: seq<nat>, c: nat)
    requires AllEven(s) && c % 2 == 0
    ensures AllEven(s + [c])
  {
  }

  /** Where the segment that starts after a break at point `i` begins. */
  ghost function RestartAt(i: nat, file: bool): (c: nat)
    ensures c <= i <= c + 1
    ensures !file ==> c % 2 == 0
  {
    if !file && i % 2 == 1 then i - 1 else i
  }

  /** `seg` starts at key `first`, never slopes down, and predicts the position
      of every key from `first` up to `end` within `gamma`. */
  ghost predicate SegmentTrained(seg: Segment, first: nat, end: nat, keys: seq<nat>, gamma: real)
  {
    && first < end <= |keys|
    && seg.x == keys[first]
    && seg.k >= 0.0
    && forall p {:trigger seg.Predict(keys[p])} :: first <= p < end ==> Near(seg.Predict(keys[p]), p as real, gamma)
  }

  /** Segment `i` is trained on the keys from `cuts[i]` up to `cuts[i + 1]`. */
  ghost predicate Trained(segs: seq<Segment>, cuts: seq<nat>, keys: seq<nat>, gamma: real) {
    && |cuts| == |segs| + 1
    && cuts[0] == 0
    && forall i {:trigger segs[i]} :: 0 <= i < |segs| ==> SegmentTrained(segs[i], cuts[i], cuts[i + 1], keys, gamma)
  }

  /** The model covers all the keys. */
  ghost predicate Complete(segs: seq<Segment>, cuts: seq<nat>, keys: seq<nat>, gamma: real) {
    && Trained(segs, cuts, keys, gamma)
    && segs != []
    && cuts[|segs|] == |keys|
  }

  /** Each point from the third on could join those before it. */
  ghost predicate Grown(pts: seq<Point>, first: nat, end: nat, gamma: real) {
    && first < end <= |pts|
    && forall k :: first + 2 <= k < end ==> Joins(pts[first..k], gamma, pts[k])
  }

  /** The stretch was grown as far as it goes: the point at its end could not join. */
  ghost predicate Maximal(pts: seq<Point>, first: nat, end: nat, gamma: real) {
    && Grown(pts, first, end, gamma)
    && (end < |pts| ==> first + 2 <= end && !Joins(pts[first..end], gamma, pts[end]))
  }

  /** Segment `i` was grown from key `cuts[i]` to the key `breaks[i]` that could not join,
      and is the mean of the lines that the points of these keys admit. */
  ghost predicate Closed(seg: Segment, first: nat, end: nat, pts: seq<Point>, gamma: real) {
    && Maximal(pts, first, end, gamma)
    && (first + 2 <= end ==> IsMean(seg, pts[first..end], gamma))
  }

  /** The segments so far, and where they end. */
  ghost predicate Cut(segs: seq<Segment>, cuts: seq<nat>, breaks: seq<nat>, keys: seq<nat>, file: bool, gamma: real) {
    && |cuts| == |segs| + 1 && |breaks| == |segs|
    && (forall i {:trigger breaks[i]} :: 0 <= i < |segs| ==>
          && Closed(segs[i], cuts[i], breaks[i], Points(keys), gamma)
          && breaks[i] < |keys| && cuts[i + 1] == RestartAt(breaks[i], file))
  }

  /** The segments cover all keys, each as far as it could be grown. */
  ghost predicate Greedy(segs: seq<Segment>, cuts: seq<nat>, breaks: seq<nat>, keys: seq<nat>, file: bool,
                         gamma: real) {
    && |cuts| == |segs| + 1 && |breaks| == |segs| > 0
    && cuts[0] == 0 && breaks[|segs| - 1] == |keys|
    && (forall i {:trigger breaks[i]} :: 0 <= i < |segs| ==>
          && Closed(segs[i], cuts[i], breaks[i], Points(keys), gamma)
          && (i < |segs| - 1 ==> breaks[i] < |keys| && cuts[i + 1] == RestartAt(breaks[i], file)))
  }

  // ---------------------------------------------------------------- training

  /** The compaction counter is found raised at one of the polls of the first `n` keys. */
  ghost predicate GivesUp(awaiting: nat -> bool, n: nat) {
    exists i :: 0 <= i < n && (i + 1) % 10 == 0 && awaiting(i)
  }

  /** PLR::train.  `awaiting(i)` is what the compaction counter reads when it is
      polled after key `i`; level training polls it every ten keys and gives up. */
  method Train(gamma: real, keys: seq<nat>, file: bool, awaiting: nat -> bool)
    returns (segs: seq<Segment>, ghost cuts: seq<nat>, ghost breaks: seq<nat>)
    requires gamma > 0.0 && StrictlyIncreasing(keys)
    ensures segs != [] ==> Complete(segs, cuts, keys, gamma)
    // Each segment is as long as it could be grown.
    ensures segs != [] ==> Greedy(segs, cuts, breaks, keys, file, gamma)
    // A segment of several keys slopes up; only a lone last key gets a flat one.
    ensures forall i :: 0 <= i < |segs| && segs[i].k == 0.0 ==> i == |segs| - 1 && cuts[i] == |keys| - 1
    // In level mode segments start only at smallest keys of files.
    ensures segs != [] && !file ==> AllEven(cuts[..|segs|])
    // Nothing is returned after an abort, and for the lone key 0, which is mistaken for "no segment".
    ensures segs == [] <==> keys == [] || keys == [0] || (!file && GivesUp(awaiting, |keys|))
  {
    hide GreedyPlr.ConeInvariant, Progress, Trained, Fits, Cut, Growing, IsMean, Joins, Greedy;
    segs, cuts, breaks := [], [0], [];
    var plr := new GreedyPlr(gamma);
    ProgressInit(keys, file, gamma);
    CutInit(keys, file, gamma);
    var i := 0;
    while i < |keys|
      invariant 0 <= i <= |keys| && fresh(plr) && plr.gamma == gamma
      invariant plr.Valid() && !plr.state.Finished? && (0 < i <==> plr.absorbed != [])
      invariant Progress(segs, cuts, plr.absorbed, keys, i, file, gamma)
      invariant Growing(segs, cuts, breaks, keys, i, file, gamma)
      invariant file || !GivesUp(awaiting, i)
      decreases |keys| - i
    {
      segs, cuts, breaks := TrainStep(plr, segs, cuts, breaks, keys, i, file);
      if !file && (i + 1) % 10 == 0 && awaiting(i) {
        return [], [], [];
      }
      i := i + 1;
    }
    var last := plr.Finish();
    if keys != [] {
      ProgressFinish(segs, cuts, plr.absorbed, last, keys, file, gamma);
      ProgressFacts(segs, cuts, plr.absorbed, keys, |keys|, file, gamma);
      CutFinish(segs, cuts, breaks, plr.absorbed, last, keys, file, gamma);
    } else {
      ProgressEmpty(segs, cuts, plr.absorbed, keys, file, gamma);
    }
    if last != NO_SEGMENT {
      segs, cuts, breaks := segs + [last], cuts + [|keys|], breaks + [|keys|];
    }
  }

  /** After `i` keys the stretch under construction holds the points from the last cut on. */
  ghost predicate Growing(segs: seq<Segment>, cuts: seq<nat>, breaks: seq<nat>, keys: seq<nat>, i: nat, file: bool,
                          gamma: real) {
    && Cut(segs, cuts, breaks, keys, file, gamma)
    && cuts[0] == 0 && (0 < i ==> Grown(Points(keys), cuts[|segs|], i, gamma))
  }

  lemma CutInit(keys: seq<nat>, file: bool, gamma: real)
    ensures Growing([], [0], [], keys, 0, file, gamma)
  {
  }

  lemma CutAbsorb(segs: seq<Segment>, cuts: seq<nat>, breaks: seq<nat>, absorbed: seq<Point>, keys: seq<nat>, i: nat,
                  file: bool, gamma: real)
    requires i < |keys| && Growing(segs, cuts, breaks, keys, i, file, gamma)
    requires cuts[|segs|] <= i && absorbed == Points(keys)[cuts[|segs|]..i]
    requires |absorbed| >= 2 ==> Joins(absorbed, gamma, Points(keys)[i])
    ensures Growing(segs, cuts, breaks, keys, i + 1, file, gamma)
  {
    hide Joins, Points, Closed;
    var c := cuts[|segs|];
    assert i >= c + 2 ==> Joins(Points(keys)[c..i], gamma, Points(keys)[i]);
  }

  lemma CutEmit(segs: seq<Segment>, cuts: seq<nat>, breaks: seq<nat>, absorbed: seq<Point>, seg: Segment,
                keys: seq<nat>, i: nat, file: bool, gamma: real)
    requires i < |keys| && Growing(segs, cuts, breaks, keys, i, file, gamma)
    requires cuts[|segs|] <= i && absorbed == Points(keys)[cuts[|segs|]..i] && |absorbed| >= 2
    requires !Joins(absorbed, gamma, Points(keys)[i]) && IsMean(seg, absorbed, gamma)
    ensures Growing(segs + [seg], cuts + [RestartAt(i, file)], breaks + [i], keys, i + 1, file, gamma)
  {
    hide Joins, IsMean, Points, Grown;
    var (segs', cuts', breaks') := (segs + [seg], cuts + [RestartAt(i, file)], breaks + [i]);
    assert Closed(seg, cuts[|segs|], i, Points(keys), gamma);
    forall j | 0 <= j < |segs'|
      ensures Closed(segs'[j], cuts'[j], breaks'[j], Points(keys), gamma)
      ensures breaks'[j] < |keys| && cuts'[j + 1] == RestartAt(breaks'[j], file)
    {
      if j < |segs| {
        assert segs'[j] == segs[j] && cuts'[j] == cuts[j] && cuts'[j + 1] == cuts[j + 1] && breaks'[j] == breaks[j];
      }
    }
    ShortIsGrown(Points(keys), RestartAt(i, file), i + 1, gamma);
  }

  lemma ShortIsGrown(pts: seq<Point>, first: nat, end: nat, gamma: real)
    requires first < end <= |pts| && end <= first + 2
    ensures Grown(pts, first, end, gamma)
  {
  }

  lemma CutFinish(segs: seq<Segment>, cuts: seq<nat>, breaks: seq<nat>, absorbed: seq<Point>, last: Segment,
                  keys: seq<nat>, file: bool, gamma: real)
    requires keys != [] && Growing(segs, cuts, breaks, keys, |keys|, file, gamma)
    requires cuts[|segs|] <= |keys| && absorbed == Points(keys)[cuts[|segs|]..|keys|]
    requires |absorbed| >= 2 ==> IsMean(last, absorbed, gamma)
    ensures Greedy(segs + [last], cuts + [|keys|], breaks + [|keys|], keys, file, gamma)
  {
    hide Joins, IsMean, Points, Grown;
    var (segs', cuts', breaks') := (segs + [last], cuts + [|keys|], breaks + [|keys|]);
    forall j | 0 <= j < |segs'|
      ensures Closed(segs'[j], cuts'[j], breaks'[j], Points(keys), gamma)
      ensures j < |segs'| - 1 ==> breaks'[j] < |keys| && cuts'[j + 1] == RestartAt(breaks'[j], file)
    {
      if j < |segs| {
        assert segs'[j] == segs[j] && cuts'[j] == cuts[j] && cuts'[j + 1] == cuts[j + 1] && breaks'[j] == breaks[j];
      }
    }
  }

  lemma ProgressFacts(segs: seq<Segment>, cuts: seq<nat>, absorbed: seq<Point>, keys: seq<nat>, i: nat, file: bool,
                      gamma: real)
    requires i <= |keys| && Progress(segs, cuts, absorbed, keys, i, file, gamma)
    ensures |cuts| == |segs| + 1 && cuts[|segs|] <= i && absorbed == Points(keys)[cuts[|segs|]..i]
  {
    hide Points, AllEven;
  }

  lemma ProgressInit(keys: seq<nat>, file: bool, gamma: real)
    ensures Progress([], [0], [], keys, 0, file, gamma)
  {
  }

  lemma ProgressEmpty(segs: seq<Segment>, cuts: seq<nat>, absorbed: seq<Point>, keys: seq<nat>, file: bool, gamma: real)
    requires keys == [] && Progress(segs, cuts, absorbed, keys, 0, file, gamma)
    ensures segs == []
  {
  }

  /** The last segment completes the model, unless it is that of the lone key 0. */
  lemma ProgressFinish(segs: seq<Segment>, cuts: seq<nat>, absorbed: seq<Point>, last: Segment, keys: seq<nat>,
                       file: bool, gamma: real)
    requires keys != [] && Progress(segs, cuts, absorbed, keys, |keys|, file, gamma)
    requires Fits(last, absorbed, gamma)
    requires if |absorbed| == 1 then last == Segment(absorbed[0].x.Floor, 0.0, absorbed[0].y) else last.k > 0.0
    ensures last == NO_SEGMENT <==> keys == [0]
    ensures last == NO_SEGMENT ==> segs == []
    ensures var (segs', cuts') := (segs + [last], cuts + [|keys|]);
      && Complete(segs', cuts', keys, gamma)
      && (!file ==> AllEven(cuts'[..|segs'|]))
      && forall i :: 0 <= i < |segs'| && segs'[i].k == 0.0 ==> i == |segs'| - 1 && cuts'[i] == |keys| - 1
  {
    var c := cuts[|segs|];
    assert absorbed[0] == Point(keys[c] as real, c as real);
    FitsIsTrained(last, c, |keys|, |keys|, keys, gamma);
    Emit(segs, cuts, |keys|, last, keys, gamma);
    assert (cuts + [|keys|])[..|segs| + 1] == cuts;
  }

  /** The segments emitted after `i` keys, and the points absorbed since. */
  ghost predicate Progress(segs: seq<Segment>, cuts: seq<nat>, absorbed: seq<Point>, keys: seq<nat>, i: nat, file: bool,
                           gamma: real)
    requires i <= |keys|
  {
    && Trained(segs, cuts, keys, gamma)
    && (forall s <- segs :: s.k > 0.0)
    && (segs != [] ==> 0 < cuts[|segs|])
    && (!file ==> AllEven(cuts))
    && cuts[|segs|] <= i
    && (0 < i ==> cuts[|segs|] < i)
    && absorbed == Points(keys)[cuts[|segs|]..i]
  }

  method TrainStep(plr: GreedyPlr, segs: seq<Segment>, ghost cuts: seq<nat>, ghost breaks: seq<nat>, keys: seq<nat>,
                   i: nat, file: bool)
    returns (segs': seq<Segment>, ghost cuts': seq<nat>, ghost breaks': seq<nat>)
    requires i < |keys| && StrictlyIncreasing(keys)
    requires plr.Valid() && !plr.state.Finished?
    requires Progress(segs, cuts, plr.absorbed, keys, i, file, plr.gamma)
    requires Growing(segs, cuts, breaks, keys, i, file, plr.gamma)
    modifies plr
    ensures plr.Valid() && !plr.state.Finished? && plr.absorbed != []
    ensures Progress(segs', cuts', plr.absorbed, keys, i + 1, file, plr.gamma)
    ensures Growing(segs', cuts', breaks', keys, i + 1, file, plr.gamma)
  {
    hide GreedyPlr.ConeInvariant, Near, Growing, Joins, IsMean;
    var pt := Point(keys[i] as real, i as real);
    assert plr.Follows(pt);
    ghost var absorbed := plr.absorbed;
    var seg := plr.Process(pt, file);
    if seg != NO_SEGMENT {
      segs', cuts', breaks' := segs + [seg], cuts + [RestartAt(i, file)], breaks + [i];
      CutEmit(segs, cuts, breaks, absorbed, seg, keys, i, file, plr.gamma);
      ProgressEmit(segs, cuts, absorbed, seg, plr.absorbed, keys, i, file, plr.gamma);
    } else {
      segs', cuts', breaks' := segs, cuts, breaks;
      CutAbsorb(segs, cuts, breaks, absorbed, keys, i, file, plr.gamma);
      ProgressAbsorb(segs, cuts, absorbed, keys, i, file, plr.gamma);
    }
  }

  lemma ProgressAbsorb(segs: seq<Segment>, cuts: seq<nat>, absorbed: seq<Point>, keys: seq<nat>, i: nat, file: bool,
                       gamma: real)
    requires i < |keys| && Progress(segs, cuts, absorbed, keys, i, file, gamma)
    ensures Progress(segs, cuts, absorbed + [Point(keys[i] as real, i as real)], keys, i + 1, file, gamma)
  {
    PointsSlice(keys, cuts[|segs|], i);
  }

  lemma ProgressEmit(segs: seq<Segment>, cuts: seq<nat>, absorbed: seq<Point>, seg: Segment, absorbed': seq<Point>,
                     keys: seq<nat>, i: nat, file: bool, gamma: real)
    requires i < |keys|
    requires Progress(segs, cuts, absorbed, keys, i, file, gamma) && |absorbed| >= 2
    requires Fits(seg, absorbed, gamma) && seg.k > 0.0
    requires absorbed' == (var pt := Point(keys[i] as real, i as real);
                           if !file && i % 2 == 1 then [absorbed[|absorbed| - 1], pt] else [pt])
    ensures Progress(segs + [seg], cuts + [RestartAt(i, file)], absorbed', keys, i + 1, file, gamma)
  {
    var next := RestartAt(i, file);
    PointsSlice(keys, cuts[|segs|], i);
    FitsIsTrained(seg, cuts[|segs|], next, i, keys, gamma);
    Emit(segs, cuts, next, seg, keys, gamma);
    if !file { EvenAppend(cuts, next); }
  }

  /** A segment that fits the points of keys `first..i` is trained on any shorter range. */
  lemma FitsIsTrained(seg: Segment, first: nat, next: nat, i: nat, keys: seq<nat>, gamma: real)
    requires first < next <= i <= |keys|
    requires Fits(seg, Points(keys)[first..i], gamma) && seg.k >= 0.0
    ensures SegmentTrained(seg, first, next, keys, gamma)
  {
    var pts := Points(keys)[first..i];
    assert pts[0] == Point(keys[first] as real, first as real);
    forall p | first <= p < next
      ensures Near(seg.Predict(keys[p]), p as real, gamma)
    {
      assert pts[p - first] == Point(keys[p] as real, p as real);
    }
  }

  lemma Emit(segs: seq<Segment>, cuts: seq<nat>, next: nat, seg: Segment, keys: seq<nat>, gamma: real)
    requires Trained(segs, cuts, keys, gamma)
    requires SegmentTrained(seg, cuts[|segs|], next, keys, gamma)
    ensures Trained(segs + [seg], cuts + [next], keys, gamma)
  {
    var (segs', cuts') := (segs + [seg], cuts + [next]);
    forall j | 0 <= j < |segs'|
      ensures SegmentTrained(segs'[j], cuts'[j], cuts'[j + 1], keys, gamma)
    {
      if j < |segs| {
        assert segs'[j] == segs[j] && cuts'[j] == cuts[j] && cuts'[j + 1] == cuts[j + 1];
      }
    }
  }

  // ---------------------------------------------------------------- lookup

  function Ceil(r: real): (c: int)
    ensures (c - 1) as real < r <= c as real
  {
    -((-r).Floor)
  }

  /** The last segment that starts at or before the target; the final segment is
      a dummy that only bounds the search. */
  method FindSegment(segs: seq<Segment>, target: nat) returns (left: nat)
    requires |segs| > 1
    requires segs[0].x <= target
    ensures left < |segs| - 1 && segs[left].x <= target
    ensures left + 1 < |segs| - 1 ==> target < segs[left + 1].x
  {
    left := 0;
    var right := |segs| - 1;
    while left != right - 1
      invariant 0 <= left < right < |segs|
      invariant segs[left].x <= target
      invariant right < |segs| - 1 ==> target < segs[right].x
    {
      var mid := (right + left) / 2;
      if target < segs[mid].x {
        right := mid;
      } else {
        left := mid;
      }
    }
  }

  /** The interval around a predicted position, within a model of `size` positions. */
  function Window(result: real, error: nat, size: nat): (w: (nat, nat))
    requires result + error as real >= 0.0 && size > 0
    ensures w == (size, size) || w.0 <= w.1 < size
    ensures w.1 - w.0 <= 2 * error + 1
  {
    var lower := if result - error as real > 0.0 then (result - error as real).Floor else 0;
    var upper := Ceil(result + error as real);
    if lower >= size then (size, size) else (lower, if upper < size then upper else size - 1)
  }

  /** A position within the error of the prediction is inside the interval. */
  lemma WindowContains(result: real, error: nat, size: nat, p: nat)
    requires result + error as real >= 0.0 && p < size
    requires Near(result, p as real, error as real)
    ensures Window(result, error, size).0 <= p <= Window(result, error, size).1
  {
  }

  lemma PredictMonotone(seg: Segment, a: nat, b: nat)
    requires seg.k >= 0.0 && a <= b
    ensures seg.Predict(a) <= seg.Predict(b)
  {
    MulMonotone(a as real, b as real, seg.k);
  }

  /** The segment chosen for a trained key is the one trained on it. */
  lemma ChosenSegment(segs: seq<Segment>, cuts: seq<nat>, keys: seq<nat>, gamma: real, left: nat, p: nat)
    requires StrictlyIncreasing(keys) && Complete(segs, cuts, keys, gamma)
    requires left < |segs| && p < |keys|
    requires segs[left].x <= keys[p] && (left + 1 < |segs| ==> keys[p] < segs[left + 1].x)
    ensures cuts[left] <= p < cuts[left + 1]
  {
    assert SegmentTrained(segs[left], cuts[left], cuts[left + 1], keys, gamma);
    if left + 1 < |segs| {
      assert SegmentTrained(segs[left + 1], cuts[left + 1], cuts[left + 2], keys, gamma);
    }
  }

  /** No prediction inside the trained range undercuts position 0 by more than the error. */
  lemma PredictionBound(segs: seq<Segment>, cuts: seq<nat>, keys: seq<nat>, gamma: real, left: nat, target: nat)
    requires Complete(segs, cuts, keys, gamma) && left < |segs| && segs[left].x <= target
    ensures segs[left].Predict(target) + gamma >= 0.0
  {
    var seg := segs[left];
    assert SegmentTrained(seg, cuts[left], cuts[left + 1], keys, gamma);
    assert Near(seg.Predict(keys[cuts[left]]), cuts[left] as real, gamma);
    PredictMonotone(seg, keys[cuts[left]], target);
  }

  /** In a level model, any key between the smallest and the largest key of file
      `j`, trained or not, is predicted between their two positions, give or take
      gamma. */
  lemma LevelPrediction(segs: seq<Segment>, cuts: seq<nat>, keys: seq<nat>, gamma: real, left: nat, target: nat, j: nat)
    requires StrictlyIncreasing(keys) && Complete(segs, cuts, keys, gamma)
    requires AllEven(cuts[..|segs|]) && |keys| % 2 == 0
    requires left < |segs| && segs[left].x <= target && (left + 1 < |segs| ==> target < segs[left + 1].x)
    requires 2 * j + 1 < |keys| && keys[2 * j] <= target <= keys[2 * j + 1]
    ensures (2 * j) as real - gamma <= segs[left].Predict(target) <= (2 * j + 1) as real + gamma
  {
    var seg := segs[left];
    assert SegmentTrained(seg, cuts[left], cuts[left + 1], keys, gamma);
    assert left + 1 < |segs| ==> SegmentTrained(segs[left + 1], cuts[left + 1], cuts[left + 2], keys, gamma);
    SameFile(segs, cuts, keys, gamma, left, target, j);
    assert Near(seg.Predict(keys[2 * j]), (2 * j) as real, gamma);
    assert Near(seg.Predict(keys[2 * j + 1]), (2 * j + 1) as real, gamma);
    PredictMonotone(seg, keys[2 * j], target);
    PredictMonotone(seg, target, keys[2 * j + 1]);
  }

  /** A segment boundary never falls between the two keys of a file. */
  lemma SameFile(segs: seq<Segment>, cuts: seq<nat>, keys: seq<nat>, gamma: real, left: nat, target: nat, j: nat)
    requires StrictlyIncreasing(keys) && Complete(segs, cuts, keys, gamma)
    requires AllEven(cuts[..|segs|]) && |keys| % 2 == 0
    requires left < |segs| && segs[left].x <= target && (left + 1 < |segs| ==> target < segs[left + 1].x)
    requires 2 * j + 1 < |keys| && keys[2 * j] <= target <= keys[2 * j + 1]
    ensures cuts[left] <= 2 * j && 2 * j + 1 < cuts[left + 1]
  {
    var c := cuts[left];
    assert SegmentTrained(segs[left], c, cuts[left + 1], keys, gamma);
    assert cuts[..|segs|][left] == c;
    assert c % 2 == 0;
    var d := cuts[left + 1];
    if left + 1 < |segs| {
      assert SegmentTrained(segs[left + 1], d, cuts[left + 2], keys, gamma);
      assert cuts[..|segs|][left + 1] == d;
      assert d % 2 == 0;
    }
  }

  // ---------------------------------------------------------------- the model object

  class LearnedIndexData {
    const error: nat
    const isLevel: bool
    var learned: bool
    var stringKeys: seq<nat>
    var stringSegments: seq<Segment>
    var minKey: nat
    var maxKey: nat
    var size: nat
    var served: nat

    /** Where the segments cut the keys the model was trained on, and which keys broke them off. */
    ghost var trainedOn: seq<nat>
    ghost var cuts: seq<nat>
    ghost var breaks: seq<nat>

    /** What a learned model knows about the keys it was trained on. */
    ghost predicate Valid()
      reads `learned, `stringSegments, `minKey, `maxKey, `size, `trainedOn, `cuts, `breaks
    {
      && error >= 1
      && (learned ==>
            && StrictlyIncreasing(trainedOn) && trainedOn != []
            && |stringSegments| > 1
            && Complete(stringSegments[..|stringSegments| - 1], cuts, trainedOn, error as real)
            && Greedy(stringSegments[..|stringSegments| - 1], cuts, breaks, trainedOn, !isLevel, error as real)
            && minKey == trainedOn[0] && maxKey == trainedOn[|trainedOn| - 1] && size == |trainedOn|
            && (isLevel && size % 2 == 0 ==> AllEven(cuts[..|stringSegments| - 1])))
    }

    constructor (error: nat, isLevel: bool)
      requires error >= 1
      ensures Valid() && !learned && stringKeys == []
      ensures this.error == error && this.isLevel == isLevel
    {
      this.error, this.isLevel := error, isLevel;
      learned, stringKeys, served := false, [], 0;
      size := 0;
    }

    /** Trains on `stringKeys`.  It fails only when level training is aborted, or
        on the lone key 0, whose segment looks like "no segment". */
    method Learn(awaiting: nat -> bool) returns (ok: bool)
      requires error >= 1 && stringKeys != [] && StrictlyIncreasing(stringKeys)
      modifies this
      ensures stringKeys == old(stringKeys) && served == old(served)
      ensures ok ==> Valid() && learned && trainedOn == stringKeys
      ensures !ok ==> learned == old(learned)
      ensures ok <==> stringKeys != [0] && (isLevel ==> !GivesUp(awaiting, |stringKeys|))
    {
      hide Complete, StrictlyIncreasing, AllEven, Greedy, GivesUp;
      var temp := stringKeys[|stringKeys| - 1];
      minKey := stringKeys[0];
      maxKey := stringKeys[|stringKeys| - 1];
      size := |stringKeys|;
      var segs, c, b := Train(error as real, stringKeys, !isLevel, awaiting);
      if segs == [] {
        return false;
      }
      stringSegments := segs + [Segment(temp, 0.0, 0.0)];
      trainedOn, cuts, breaks := stringKeys, c, b;
      assert stringSegments[..|stringSegments| - 1] == segs;
      learned := true;
      ok := true;
    }

    /** The interval of positions the target can have.  That the upper end is a
        position at all (a natural number) holds for every key in range. */
    method GetPosition(target: nat) returns (lower: nat, upper: nat)
      requires Valid() && learned
      modifies `served
      ensures Valid() && served == old(served) + 1
      ensures (lower, upper) == (size, size) || lower <= upper < size
      ensures target < minKey || target > maxKey ==> lower == size
      ensures upper - lower <= 2 * error + 1
      // File model: a trained key is inside its interval.
      ensures !isLevel ==> forall p :: 0 <= p < size && trainedOn[p] == target ==> lower <= p <= upper
      // Level model: so is the file of every key, trained or not, that lies in a file.
      ensures isLevel && size % 2 == 0 ==>
        forall j: nat {:trigger InFile(trainedOn, j, target)} :: InFile(trainedOn, j, target) ==> lower <= j <= upper
    {
      hide Complete, AllEven, InFile, Greedy;
      served := served + 1;
      if target > maxKey || target < minKey {
        NotTrained(trainedOn, target);
        return size, size;
      }
      lower, upper := Interval(target);
    }

    /** The part of GetPosition for a key in range. */
    method Interval(target: nat) returns (lower: nat, upper: nat)
      requires Valid() && learned && minKey <= target <= maxKey
      ensures (lower, upper) == (size, size) || lower <= upper < size
      ensures upper - lower <= 2 * error + 1
      ensures !isLevel ==> forall p :: 0 <= p < size && trainedOn[p] == target ==> lower <= p <= upper
      ensures isLevel && size % 2 == 0 ==>
        forall j: nat {:trigger InFile(trainedOn, j, target)} :: InFile(trainedOn, j, target) ==> lower <= j <= upper
    {
      hide Greedy;
      ghost var segs := stringSegments[..|stringSegments| - 1];
      assert segs[0] == stringSegments[0] && SegmentTrained(segs[0], cuts[0], cuts[1], trainedOn, error as real);
      var left := FindSegment(stringSegments, target);
      assert left + 1 < |segs| ==> segs[left + 1] == stringSegments[left + 1];
      PredictionBound(segs, cuts, trainedOn, error as real, left, target);
      var result := stringSegments[left].Predict(target);
      if isLevel {
        result := result / 2.0;
        LevelWindow(segs, cuts, trainedOn, error, left, target);
      } else {
        FileWindow(segs, cuts, trainedOn, error, left, target);
      }
      var w := Window(result, error, size);
      lower, upper := w.0, w.1;
    }
  }

  lemma NotTrained(keys: seq<nat>, target: nat)
    requires StrictlyIncreasing(keys) && keys != [] && (target < keys[0] || target > keys[|keys| - 1])
    ensures forall p :: 0 <= p < |keys| ==> keys[p] != target
    ensures forall j: nat {:trigger InFile(keys, j, target)} :: !InFile(keys, j, target)
  {
  }

  /** `target` lies between the two keys that file `j` contributed to a level model. */
  ghost predicate InFile(keys: seq<nat>, j: nat, target: nat) {
    2 * j + 1 < |keys| && keys[2 * j] <= target <= keys[2 * j + 1]
  }

  lemma FileWindow(segs: seq<Segment>, cuts: seq<nat>, keys: seq<nat>, error: nat, left: nat, target: nat)
    requires StrictlyIncreasing(keys) && Complete(segs, cuts, keys, error as real)
    requires left < |segs| && segs[left].x <= target && (left + 1 < |segs| ==> target < segs[left + 1].x)
    requires segs[left].Predict(target) + error as real >= 0.0
    ensures forall p :: 0 <= p < |keys| && keys[p] == target ==>
      var w := Window(segs[left].Predict(target), error, |keys|); w.0 <= p <= w.1
  {
    forall p | 0 <= p < |keys| && keys[p] == target
      ensures var w := Window(segs[left].Predict(target), error, |keys|); w.0 <= p <= w.1
    {
      ChosenSegment(segs, cuts, keys, error as real, left, p);
      assert SegmentTrained(segs[left], cuts[left], cuts[left + 1], keys, error as real);
      assert Near(segs[left].Predict(keys[p]), p as real, error as real);
      WindowContains(segs[left].Predict(target), error, |keys|, p);
    }
  }

  lemma LevelWindow(segs: seq<Segment>, cuts: seq<nat>, keys: seq<nat>, error: nat, left: nat, target: nat)
    requires StrictlyIncreasing(keys) && Complete(segs, cuts, keys, error as real) && error >= 1
    requires left < |segs| && segs[left].x <= target && (left + 1 < |segs| ==> target < segs[left + 1].x)
    requires segs[left].Predict(target) + error as real >= 0.0
    ensures |keys| % 2 == 0 && AllEven(cuts[..|segs|]) ==>
      forall j: nat {:trigger InFile(keys, j, target)} :: InFile(keys, j, target) ==>
        var w := Window(segs[left].Predict(target) / 2.0, error, |keys|); w.0 <= j <= w.1
  {
    if |keys| % 2 == 0 && AllEven(cuts[..|segs|]) {
      forall j: nat | InFile(keys, j, target)
        ensures var w := Window(segs[left].Predict(target) / 2.0, error, |keys|); w.0 <= j <= w.1
      {
        LevelPrediction(segs, cuts, keys, error as real, left, target, j);
        WindowContains(segs[left].Predict(target) / 2.0, error, |keys|, j);
      }
    }
  }
}
