/** Candidate masks from labelled address pairs, and the greedy choice among them. */
module Calibration {
  import opened FiniteSets
  import opened Gf2Vectors
  import opened Gf2Space
  import opened Gf2Elimination
  import opened DramMapping

  datatype PairRecord = PairRecord(diff: Vec, labelConflict: bool)

  // ----- Active bit positions

  /** The positions of `v` below `n`, in increasing order. */
  function ActiveBits(v: Vec, n: nat): (positions: seq<nat>)
    ensures forall i: nat :: i in positions <==> i in v && i < n
    ensures forall i :: 0 <= i < |positions| ==> positions[i] < n
    ensures Increasing(positions)
  {
    if n == 0 then []
    else
      var rest := ActiveBits(v, n - 1);
      if n - 1 in v then rest + [n - 1] else rest
  }

  predicate Increasing(positions: seq<nat>) {
    forall i, j :: 0 <= i < j < |positions| ==> positions[i] < positions[j]
  }

  /** Bit `j` of the result is the bit of `diff` at `positions[j]`. */
  function Compress(diff: Vec, positions: seq<nat>): Vec {
    set j | 0 <= j < |positions| && positions[j] in diff
  }

  /** Bit `j` of `mask` moved to `positions[j]`. */
  function Expand(mask: Vec, positions: seq<nat>): Vec {
    set j | j in mask && j < |positions| :: positions[j]
  }

  method CompressDiff(diff: Vec, positions: seq<nat>) returns (out: Vec)
    ensures out == Compress(diff, positions)
  {
    out := {};
    for j := 0 to |positions|
      invariant out == set k | 0 <= k < j && positions[k] in diff
    {
      if positions[j] in diff {
        out := out + {j};
      }
    }
  }

  method ExpandMask(mask: Vec, positions: seq<nat>) returns (out: Vec)
    ensures out == Expand(mask, positions)
  {
    out := {};
    for j := 0 to |positions|
      invariant out == set k | k in mask && k < j :: positions[k]
    {
      if j in mask {
        out := out + {positions[j]};
      }
    }
  }

  lemma ExpandHas(mask: Vec, positions: seq<nat>, j: nat)
    requires Increasing(positions) && j < |positions|
    ensures positions[j] in Expand(mask, positions) <==> j in mask
  {
    if positions[j] in Expand(mask, positions) {
      var k :| k in mask && k < |positions| && positions[k] == positions[j];
      assert k == j;
    }
  }

  /** Compression undoes expansion on masks over the active positions. */
  lemma CompressExpand(mask: Vec, positions: seq<nat>)
    requires Increasing(positions) && Below(mask, |positions|)
    ensures Compress(Expand(mask, positions), positions) == mask
  {
    forall j: nat | j < |positions|
      ensures j in Compress(Expand(mask, positions), positions) <==> j in mask
    {
      ExpandHas(mask, positions, j);
    }
  }

  /** Expansion undoes compression up to the inactive positions. */
  lemma ExpandCompress(diff: Vec, positions: seq<nat>)
    requires Increasing(positions)
    ensures Expand(Compress(diff, positions), positions) == diff * Members(positions)
  {
    forall i | i in diff * Members(positions)
      ensures i in Expand(Compress(diff, positions), positions)
    {
      var j :| 0 <= j < |positions| && positions[j] == i;
      assert j in Compress(diff, positions);
    }
  }

  /** Parity against a difference can be computed on the compressed side. */
  lemma {:induction false} ExpandDot(mask: Vec, diff: Vec, positions: seq<nat>)
    requires Increasing(positions) && Below(mask, |positions|)
    ensures Dot(Expand(mask, positions), diff) == Dot(mask, Compress(diff, positions))
    decreases |mask|
  {
    if mask == {} {
      assert Expand(mask, positions) * diff == {} && mask * Compress(diff, positions) == {};
    } else {
      var j := TopBit(mask);
      var rest := mask - {j};
      ExpandDot(rest, diff, positions);
      ExpandDotNext(mask, rest, j, diff, positions);
    }
  }

  lemma ExpandDotNext(mask: Vec, rest: Vec, j: nat, diff: Vec, positions: seq<nat>)
    requires Increasing(positions) && j < |positions| && j in mask && rest == mask - {j}
    requires Dot(Expand(rest, positions), diff) == Dot(rest, Compress(diff, positions))
    ensures Dot(Expand(mask, positions), diff) == Dot(mask, Compress(diff, positions))
  {
    ExpandDotOne(j, diff, positions);
    assert mask == Xor(rest, {j});
    assert Dot(mask, Compress(diff, positions))
        == (Dot(rest, Compress(diff, positions)) != Dot({j}, Compress(diff, positions))) by {
      DotXor(rest, {j}, Compress(diff, positions));
    }
    assert Dot(Expand(mask, positions), diff)
        == (Dot(Expand(rest, positions), diff) != Dot(Expand({j}, positions), diff)) by {
      ExpandXor(rest, {j}, positions);
      DotXor(Expand(rest, positions), Expand({j}, positions), diff);
    }
  }

  lemma ExpandDotOne(j: nat, diff: Vec, positions: seq<nat>)
    requires j < |positions|
    ensures Dot(Expand({j}, positions), diff) == Dot({j}, Compress(diff, positions))
  {
    assert Expand({j}, positions) == {positions[j]};
    DotSingle({positions[j]}, diff, positions[j]);
    DotSingle({j}, Compress(diff, positions), j);
  }

  lemma ExpandXor(x: Vec, y: Vec, positions: seq<nat>)
    requires Increasing(positions)
    ensures Expand(Xor(x, y), positions) == Xor(Expand(x, positions), Expand(y, positions))
  {
    forall j | 0 <= j < |positions|
      ensures positions[j] in Expand(Xor(x, y), positions) <==>
              positions[j] in Xor(Expand(x, positions), Expand(y, positions))
    {
      ExpandHas(x, positions, j);
      ExpandHas(y, positions, j);
      ExpandHas(Xor(x, y), positions, j);
    }
  }

  // ----- The masks one sampling round counts

  function CompressAll(diffs: seq<Vec>, positions: seq<nat>): seq<Vec> {
    seq(|diffs|, i requires 0 <= i < |diffs| => Compress(diffs[i], positions))
  }

  function ExpandAll(masks: seq<Vec>, positions: seq<nat>): seq<Vec> {
    seq(|masks|, i requires 0 <= i < |masks| => Expand(masks[i], positions))
  }

  lemma {:induction false} ExpandIntoSpan(basis: seq<Vec>, positions: seq<nat>, y: Vec)
    requires Increasing(positions) && y in Span(basis)
    ensures Expand(y, positions) in Span(ExpandAll(basis, positions))
  {
    var all := ExpandAll(basis, positions);
    if basis == [] {
      assert Expand(y, positions) == {};
    } else {
      var front, last := basis[..|basis| - 1], basis[|basis| - 1];
      assert all[..|basis| - 1] == ExpandAll(front, positions);
      SpanStep(basis, y);
      SpanStep(all, Expand(y, positions));
      if y in Span(front) {
        ExpandIntoSpan(front, positions, y);
      } else {
        ExpandIntoSpan(front, positions, Xor(y, last));
        ExpandXor(y, last, positions);
      }
    }
  }

  lemma {:induction false} SpanFromExpanded(basis: seq<Vec>, positions: seq<nat>, x: Vec) returns (y: Vec)
    requires Increasing(positions) && x in Span(ExpandAll(basis, positions))
    ensures y in Span(basis) && Expand(y, positions) == x
  {
    var all := ExpandAll(basis, positions);
    if basis == [] {
      y := {};
      assert Expand(y, positions) == {};
    } else {
      var front, last := basis[..|basis| - 1], basis[|basis| - 1];
      assert all[..|basis| - 1] == ExpandAll(front, positions);
      SpanStep(all, x);
      if x in Span(all[..|basis| - 1]) {
        y := SpanFromExpanded(front, positions, x);
        SpanStep(basis, y);
      } else {
        var y' := SpanFromExpanded(front, positions, Xor(x, all[|basis| - 1]));
        y := Xor(y', last);
        XorCancel(y', last);
        SpanStep(basis, y);
        ExpandXor(y', last, positions);
        XorCancel(x, all[|basis| - 1]);
      }
    }
  }

  lemma AnnihilatesExpanded(y: Vec, diffs: seq<Vec>, positions: seq<nat>)
    requires Increasing(positions) && Below(y, |positions|)
    ensures Annihilates(Expand(y, positions), diffs) <==> Annihilates(y, CompressAll(diffs, positions))
  {
    forall i | 0 <= i < |diffs|
      ensures Dot(Expand(y, positions), diffs[i]) == Dot(y, CompressAll(diffs, positions)[i])
    {
      ExpandDot(y, diffs[i], positions);
    }
    if Annihilates(y, CompressAll(diffs, positions)) {
      forall i | 0 <= i < |diffs|
        ensures !Dot(Expand(y, positions), diffs[i])
      {
        assert !Dot(y, CompressAll(diffs, positions)[i]);
      }
    }
  }

  /** The expanded nullspace basis of a sample spans exactly the masks over the active positions that
      have even parity with every sampled difference. */
  lemma RoundCandidates(diffs: seq<Vec>, positions: seq<nat>, basis: seq<Vec>)
    requires Increasing(positions)
    requires forall v :: v in Span(basis) <==> Below(v, |positions|) && Annihilates(v, CompressAll(diffs, positions))
    ensures forall m :: m in Span(ExpandAll(basis, positions)) <==> m <= Members(positions) && Annihilates(m, diffs)
  {
    forall m
      ensures m in Span(ExpandAll(basis, positions)) <==> m <= Members(positions) && Annihilates(m, diffs)
    {
      if m in Span(ExpandAll(basis, positions)) {
        var y := SpanFromExpanded(basis, positions, m);
        AnnihilatesExpanded(y, diffs, positions);
      }
      if m <= Members(positions) && Annihilates(m, diffs) {
        var y := Compress(m, positions);
        ExpandCompress(m, positions);
        assert m * Members(positions) == m;
        AnnihilatesExpanded(y, diffs, positions);
        ExpandIntoSpan(basis, positions, y);
      }
    }
  }

  // ----- Evaluation of a mask set

  datatype Metrics = Metrics(tp: nat, tn: nat, fp: nat, fn: nat, accuracy: real, precision: real, recall: real,
      f1: real)

  function Ratio(part: nat, whole: nat): real {
    if whole > 0 then part as real / whole as real else 0.0
  }

  function ScoreCounts(tp: nat, tn: nat, fp: nat, fn: nat): Metrics {
    var precision, recall := Ratio(tp, tp + fp), Ratio(tp, tp + fn);
    var f1 := if precision + recall != 0.0 then 2.0 * precision * recall / (precision + recall) else 0.0;
    Metrics(tp, tn, fp, fn, Ratio(tp + tn, tp + tn + fp + fn), precision, recall, f1)
  }

  /** The records with this prediction and this label. */
  ghost function Outcomes(records: seq<PairRecord>, masks: seq<Vec>, predicted: bool, conflict: bool): set<int> {
    Passing(records, (r: PairRecord) => IsOutcome(r, masks, predicted, conflict))
  }

  predicate IsOutcome(record: PairRecord, masks: seq<Vec>, predicted: bool, conflict: bool) {
    PredictSameBank(record.diff, masks) == predicted && record.labelConflict == conflict
  }

  ghost predicate Counts(m: Metrics, records: seq<PairRecord>, masks: seq<Vec>) {
    && m.tp == |Outcomes(records, masks, true, true)|
    && m.fp == |Outcomes(records, masks, true, false)|
    && m.fn == |Outcomes(records, masks, false, true)|
    && m.tn == |Outcomes(records, masks, false, false)|
  }

  /** The metrics of a mask set as a function of the set and the records. */
  ghost function MetricsOf(records: seq<PairRecord>, masks: seq<Vec>): Metrics {
    ScoreCounts(
      |Outcomes(records, masks, true, true)|, |Outcomes(records, masks, false, false)|,
      |Outcomes(records, masks, true, false)|, |Outcomes(records, masks, false, true)|)
  }

  lemma OutcomesStep(records: seq<PairRecord>, n: nat, masks: seq<Vec>, predicted: bool, conflict: bool)
    requires n < |records|
    ensures |Outcomes(records[..n + 1], masks, predicted, conflict)|
         == |Outcomes(records[..n], masks, predicted, conflict)|
          + if IsOutcome(records[n], masks, predicted, conflict) then 1 else 0
  {
    PassingStep(records, n, (r: PairRecord) => IsOutcome(r, masks, predicted, conflict));
  }

  method Evaluate(records: seq<PairRecord>, masks: seq<Vec>) returns (m: Metrics)
    ensures m == MetricsOf(records, masks)
    ensures Counts(m, records, masks)
  {
    var tp, tn, fp, fn := 0, 0, 0, 0;
    for n := 0 to |records|
      invariant tp == |Outcomes(records[..n], masks, true, true)|
      invariant fp == |Outcomes(records[..n], masks, true, false)|
      invariant fn == |Outcomes(records[..n], masks, false, true)|
      invariant tn == |Outcomes(records[..n], masks, false, false)|
    {
      OutcomesStep(records, n, masks, true, true);
      OutcomesStep(records, n, masks, true, false);
      OutcomesStep(records, n, masks, false, true);
      OutcomesStep(records, n, masks, false, false);
      var predicted := PredictSameBank(records[n].diff, masks);
      var actual := records[n].labelConflict;
      if predicted && actual {
        tp := tp + 1;
      } else if predicted && !actual {
        fp := fp + 1;
      } else if !predicted && actual {
        fn := fn + 1;
      } else {
        tn := tn + 1;
      }
    }
    assert records[..|records|] == records;
    m := ScoreCounts(tp, tn, fp, fn);
  }

  /** What the ratios are: the share of the records predicted right, of the predicted conflicts that are conflicts, and
      of the conflicts that are predicted; F1 is twice the true positives over these plus the predicted plus the
      labelled conflicts. */
  lemma MetricsMean(records: seq<PairRecord>, masks: seq<Vec>)
    ensures var m := MetricsOf(records, masks);
            var right, predicted, conflicts := m.tp + m.tn, m.tp + m.fp, m.tp + m.fn;
            && right + m.fp + m.fn == |records|
            && IsShare(m.accuracy, right, |records|) && IsShare(m.precision, m.tp, predicted)
            && IsShare(m.recall, m.tp, conflicts) && IsShare(m.f1, 2 * m.tp, predicted + conflicts)
  {
    var m := MetricsOf(records, masks);
    OutcomesTotal(records, masks);
    RatioTimes(m.tp + m.tn, |records|);
    RatioTimes(m.tp, m.tp + m.fp);
    RatioTimes(m.tp, m.tp + m.fn);
    HarmonicMean(m.tp, m.tn, m.fp, m.fn);
  }

  /** The share that a part is of a whole; of nothing it is zero. */
  predicate IsShare(share: real, part: nat, whole: nat) {
    share * whole as real == part as real && (whole == 0 ==> share == 0.0)
  }

  lemma RatioTimes(part: nat, whole: nat)
    requires part <= whole
    ensures IsShare(Ratio(part, whole), part, whole)
  {
  }

  /** The harmonic mean of precision and recall. */
  lemma HarmonicMean(tp: nat, tn: nat, fp: nat, fn: nat)
    ensures IsShare(ScoreCounts(tp, tn, fp, fn).f1, 2 * tp, (tp + fp) + (tp + fn))
  {
    if tp > 0 {
      var t, a, b := tp as real, (tp + fp) as real, (tp + fn) as real;
      Harmonic(t, a, b, t / a, t / b);
      assert ((tp + fp) + (tp + fn)) as real == a + b;
    }
  }

  lemma Harmonic(t: real, a: real, b: real, p: real, r: real)
    requires t > 0.0 && a > 0.0 && b > 0.0 && p == t / a && r == t / b
    ensures p + r > 0.0 && 2.0 * p * r / (p + r) * (a + b) == 2.0 * t
  {
    assert p * a == t && r * b == t;
    assert (p + r) * t == p * r * (a + b) by {
      assert p * t == p * r * b && r * t == r * p * a;
    }
    var f := 2.0 * p * r / (p + r);
    assert f * (p + r) == 2.0 * p * r;
    assert f * (a + b) * (p + r) == 2.0 * (p + r) * t;
  }

  lemma {:induction false} OutcomesTotal(records: seq<PairRecord>, masks: seq<Vec>)
    ensures |Outcomes(records, masks, true, true)| + |Outcomes(records, masks, true, false)|
          + |Outcomes(records, masks, false, true)| + |Outcomes(records, masks, false, false)| == |records|
  {
    if records == [] {
      assert Outcomes(records, masks, true, true) == Outcomes(records, masks, true, false) == {};
      assert Outcomes(records, masks, false, true) == Outcomes(records, masks, false, false) == {};
    } else {
      var n := |records| - 1;
      OutcomesTotal(records[..n], masks);
      OutcomesStep(records, n, masks, true, true);
      OutcomesStep(records, n, masks, true, false);
      OutcomesStep(records, n, masks, false, true);
      OutcomesStep(records, n, masks, false, false);
      assert records[..n + 1] == records;
    }
  }

  /** Masks that annihilate every conflict never miss one. */
  lemma NoFalseNegatives(records: seq<PairRecord>, masks: seq<Vec>)
    requires masks != []
    requires forall i, k :: 0 <= i < |records| && records[i].labelConflict && 0 <= k < |masks| ==>
             !Dot(masks[k], records[i].diff)
    ensures MetricsOf(records, masks).fn == 0
    ensures (exists i :: 0 <= i < |records| && records[i].labelConflict) ==> MetricsOf(records, masks).recall == 1.0
  {
    forall i | 0 <= i < |records| && records[i].labelConflict
      ensures PredictSameBank(records[i].diff, masks)
    {
      forall k | 0 <= k < |masks|
        ensures !Dot(records[i].diff, masks[k])
      {
        DotSymmetric(records[i].diff, masks[k]);
      }
    }
    assert Outcomes(records, masks, false, true) == {};
    if i :| 0 <= i < |records| && records[i].labelConflict {
      assert i in Outcomes(records, masks, true, true);
      RatioWhole(|Outcomes(records, masks, true, true)|);
    }
  }

  lemma RatioWhole(n: nat)
    requires n > 0
    ensures Ratio(n, n) == 1.0
  {
  }
}
