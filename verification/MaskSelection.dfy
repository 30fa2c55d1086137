/** The greedy choice of independent masks, and what the chosen masks mean for the bank map. */
module MaskSelection {
  import opened Gf2Vectors
  import opened Gf2Space
  import opened Gf2Elimination
  import opened Calibration
  import opened CandidateMasks
  import opened DramMapping

  // ----- The ranking of a possible next mask

  datatype Key = Key(f1: real, precision: real, recall: real, frequency: nat, negWeight: int)

  /** Tuple comparison `a > b`. */
  predicate Better(a: Key, b: Key) {
    if a.f1 != b.f1 then a.f1 > b.f1
    else if a.precision != b.precision then a.precision > b.precision
    else if a.recall != b.recall then a.recall > b.recall
    else if a.frequency != b.frequency then a.frequency > b.frequency
    else a.negWeight > b.negWeight
  }

  function MakeKey(metrics: Metrics, counts: map<Vec, nat>, mask: Vec): Key {
    Key(metrics.f1, metrics.precision, metrics.recall, Frequency(counts, mask), -|mask|)
  }

  /** The metrics of a mask set on the tuning records, as a function of the set.  The facts about the
      greedy choice hold for any way of scoring mask sets. */
  ghost function Scorer(tune: seq<PairRecord>): seq<Vec> -> Metrics {
    masks => MetricsOf(tune, masks)
  }

  ghost function KeyOf(score: seq<Vec> -> Metrics, counts: map<Vec, nat>, selected: seq<Vec>, mask: Vec): Key {
    MakeKey(score(selected + [mask]), counts, mask)
  }

  /** `mask` adds to the rank of the selection, and no other mask that does has a better key. */
  ghost predicate BestChoice(candidates: seq<Vec>, score: seq<Vec> -> Metrics, counts: map<Vec, nat>,
      selected: seq<Vec>, mask: Vec) {
    && mask in candidates && mask !in Span(selected)
    && forall c :: c in candidates && c !in Span(selected) ==>
        !Better(KeyOf(score, counts, selected, c), KeyOf(score, counts, selected, mask))
  }

  /** Of the masks outside the span, none scores higher than the best choice: by F1, then precision, then recall, then
      how often it was counted, then how few bits it has. */
  lemma BestMeans(candidates: seq<Vec>, score: seq<Vec> -> Metrics, counts: map<Vec, nat>, selected: seq<Vec>,
      mask: Vec, c: Vec)
    requires BestChoice(candidates, score, counts, selected, mask) && c in candidates && c !in Span(selected)
    ensures var m, n := score(selected + [mask]), score(selected + [c]);
            var equal := (m.f1, m.precision, m.recall) == (n.f1, n.precision, n.recall);
            && m.f1 >= n.f1
            && (m.f1 == n.f1 ==> m.precision >= n.precision)
            && (m.f1 == n.f1 && m.precision == n.precision ==> m.recall >= n.recall)
            && (equal ==> Frequency(counts, mask) >= Frequency(counts, c))
            && (equal && Frequency(counts, mask) == Frequency(counts, c) ==> |mask| <= |c|)
  {
  }

  /** The mask is at `i`, and every mask before it that adds to the rank has a worse key. */
  ghost predicate FirstAt(candidates: seq<Vec>, score: seq<Vec> -> Metrics, counts: map<Vec, nat>, selected: seq<Vec>,
      mask: Vec, i: nat) {
    && i < |candidates| && candidates[i] == mask
    && forall c :: c in candidates[..i] && c !in Span(selected) ==>
        Better(KeyOf(score, counts, selected, mask), KeyOf(score, counts, selected, c))
  }

  // ----- One round of the choice

  datatype Best = NoBest | Best(mask: Vec, metrics: Metrics, key: Key)

  ghost predicate BestSoFar(best: Best, seen: seq<Vec>, score: seq<Vec> -> Metrics, counts: map<Vec, nat>,
      selected: seq<Vec>) {
    match best
    case NoBest => forall c :: c in seen ==> c in Span(selected)
    case Best(mask, metrics, key) =>
      && metrics == score(selected + [mask])
      && key == KeyOf(score, counts, selected, mask)
      && BestChoice(seen, score, counts, selected, mask)
      && exists i: nat :: FirstAt(seen, score, counts, selected, mask, i)
  }

  /** Keys are totally ordered, so replacing the best by a better one keeps it best. */
  lemma BetterOrder(a: Key, b: Key, c: Key)
    ensures !(Better(a, b) && Better(b, a))
    ensures !Better(a, b) && !Better(b, c) ==> !Better(a, c)
    ensures Better(a, b) && !Better(c, b) ==> Better(a, c)
  {
  }

  /** The best mask after looking at one more. */
  ghost predicate Considered(best: Best, next: Best, mask: Vec, score: seq<Vec> -> Metrics, counts: map<Vec, nat>,
      selected: seq<Vec>) {
    var key := KeyOf(score, counts, selected, mask);
    next ==
      if mask !in Span(selected) && (best.NoBest? || Better(key, best.key))
      then Best(mask, score(selected + [mask]), key)
      else best
  }

  lemma BestStep(best: Best, next: Best, seen: seq<Vec>, mask: Vec, score: seq<Vec> -> Metrics, counts: map<Vec, nat>,
      selected: seq<Vec>)
    requires BestSoFar(best, seen, score, counts, selected)
    requires Considered(best, next, mask, score, counts, selected)
    ensures BestSoFar(next, seen + [mask], score, counts, selected)
  {
    forall c | c in seen + [mask] && c !in Span(selected)
      ensures next.Best? && !Better(KeyOf(score, counts, selected, c), next.key)
    {
      if c in seen && next != best && best.Best? {
        BetterOrder(KeyOf(score, counts, selected, c), best.key, next.key);
        BetterOrder(best.key, next.key, next.key);
      }
    }
    if next.Best? {
      FirstStep(best, next, seen, mask, score, counts, selected);
    }
  }

  lemma FirstStep(best: Best, next: Best, seen: seq<Vec>, mask: Vec, score: seq<Vec> -> Metrics, counts: map<Vec, nat>,
      selected: seq<Vec>)
    requires BestSoFar(best, seen, score, counts, selected) && next.Best?
    requires Considered(best, next, mask, score, counts, selected)
    ensures exists i: nat :: FirstAt(seen + [mask], score, counts, selected, next.mask, i)
  {
    var seen' := seen + [mask];
    if next == best {
      var i: nat :| FirstAt(seen, score, counts, selected, best.mask, i);
      assert seen'[..i] == seen[..i];
      assert FirstAt(seen', score, counts, selected, next.mask, i);
    } else {
      assert seen'[..|seen|] == seen;
      forall c | c in seen && c !in Span(selected)
        ensures Better(next.key, KeyOf(score, counts, selected, c))
      {
        BetterOrder(next.key, best.key, KeyOf(score, counts, selected, c));
      }
      assert FirstAt(seen', score, counts, selected, next.mask, |seen|);
    }
  }

  lemma BestOfPrefix(
    best: Best, next: Best, remaining: seq<Vec>, i: nat, score: seq<Vec> -> Metrics, counts: map<Vec, nat>,
    selected: seq<Vec>)
    requires i < |remaining| && BestSoFar(best, remaining[..i], score, counts, selected)
    requires Considered(best, next, remaining[i], score, counts, selected)
    ensures BestSoFar(next, remaining[..i + 1], score, counts, selected)
  {
    PrefixNext(remaining, i);
    BestStep(best, next, remaining[..i], remaining[i], score, counts, selected);
  }

  method Consider(best: Best, mask: Vec, currentRank: nat, tune: seq<PairRecord>, counts: map<Vec, nat>,
      selected: seq<Vec>)
    returns (next: Best)
    requires currentRank == Rank(selected)
    ensures Considered(best, next, mask, Scorer(tune), counts, selected)
  {
    SpanAppend(selected, mask);
    var rank := Gf2Rank(selected + [mask]);
    if rank == currentRank {
      return best;
    }
    var metrics := Evaluate(tune, selected + [mask]);
    var key := MakeKey(metrics, counts, mask);
    next := if best.NoBest? || Better(key, best.key) then Best(mask, metrics, key) else best;
  }

  method ChooseBest(remaining: seq<Vec>, tune: seq<PairRecord>, counts: map<Vec, nat>, selected: seq<Vec>)
      returns (best: Best)
    ensures BestSoFar(best, remaining, Scorer(tune), counts, selected)
  {
    best := NoBest;
    var currentRank := Gf2Rank(selected);
    for i := 0 to |remaining|
      invariant BestSoFar(best, remaining[..i], Scorer(tune), counts, selected)
    {
      var next := Consider(best, remaining[i], currentRank, tune, counts, selected);
      BestOfPrefix(best, next, remaining, i, Scorer(tune), counts, selected);
      best := next;
    }
    assert remaining[..|remaining|] == remaining;
  }

  /** `list.remove`: drops the first occurrence. */
  function Without(s: seq<Vec>, x: Vec): seq<Vec> {
    if s == [] then [] else if s[0] == x then s[1..] else [s[0]] + Without(s[1..], x)
  }

  lemma {:induction false} WithoutMembers(s: seq<Vec>, x: Vec, y: Vec)
    ensures y in Without(s, x) ==> y in s
    ensures y in s ==> y in Without(s, x) || y == x
  {
    if s != [] {
      WithoutMembers(s[1..], x, y);
      assert s == [s[0]] + s[1..];
    }
  }

  // ----- The whole selection

  /** Every step took a best choice and raised F1 by the required amount. */
  ghost predicate GreedyRun(
    selected: seq<Vec>, candidates: seq<Vec>, score: seq<Vec> -> Metrics, counts: map<Vec, nat>, minImprovement: real)
  {
    selected == [] ||
    var front, last := selected[..|selected| - 1], selected[|selected| - 1];
    && GreedyRun(front, candidates, score, counts, minImprovement)
    && BestChoice(candidates, score, counts, front, last)
    && score(selected).f1 >= score(front).f1 + minImprovement
  }

  lemma GreedyRunStep(
    selected: seq<Vec>, mask: Vec, candidates: seq<Vec>, score: seq<Vec> -> Metrics, counts: map<Vec, nat>,
    minImprovement: real)
    requires GreedyRun(selected, candidates, score, counts, minImprovement)
    requires BestChoice(candidates, score, counts, selected, mask)
    requires score(selected + [mask]).f1 >= score(selected).f1 + minImprovement
    ensures GreedyRun(selected + [mask], candidates, score, counts, minImprovement)
  {
    assert (selected + [mask])[..|selected|] == selected;
  }

  /** A greedy selection is independent. */
  lemma {:induction false} GreedyRunFacts(
    selected: seq<Vec>, candidates: seq<Vec>, score: seq<Vec> -> Metrics, counts: map<Vec, nat>, minImprovement: real)
    requires GreedyRun(selected, candidates, score, counts, minImprovement)
    ensures Independent(selected) && forall k :: 0 <= k < |selected| ==> selected[k] in candidates
  {
    if selected != [] {
      var front, last := selected[..|selected| - 1], selected[|selected| - 1];
      assert last in candidates && last !in Span(front);
      GreedyRunFacts(front, candidates, score, counts, minImprovement);
      assert selected == front + [last];
    }
  }

  /** The selection stops at the limit, or when no mask that adds to the rank raises F1 by the required amount. */
  method SelectMasksGreedy(
    candidates: seq<Vec>, counts: map<Vec, nat>, tune: seq<PairRecord>, maxMasks: nat, minImprovement: real)
    returns (selected: seq<Vec>)
    ensures |selected| <= maxMasks
    ensures Independent(selected) && forall k :: 0 <= k < |selected| ==> selected[k] in candidates
    ensures GreedyRun(selected, candidates, Scorer(tune), counts, minImprovement)
    ensures |selected| == maxMasks
         || forall c :: c in candidates && c !in Span(selected) ==>
              Scorer(tune)(selected + [c]).f1 < Scorer(tune)(selected).f1 + minImprovement
  {
    selected := [];
    var current := Evaluate(tune, selected);
    var remaining := candidates;
    for round := 0 to maxMasks
      invariant |selected| == round
      invariant current == Scorer(tune)(selected)
      invariant GreedyRun(selected, candidates, Scorer(tune), counts, minImprovement)
      invariant forall c :: c in remaining ==> c in candidates
      invariant forall c :: c in candidates ==> c in remaining || c in Span(selected)
    {
      GreedyRunFacts(selected, candidates, Scorer(tune), counts, minImprovement);
      var best := ChooseBest(remaining, tune, counts, selected);
      if best.NoBest? {
        break;
      }
      if best.metrics.f1 < current.f1 + minImprovement {
        break;
      }
      GreedyRunStep(selected, best.mask, candidates, Scorer(tune), counts, minImprovement);
      forall c | c in candidates
        ensures c in Without(remaining, best.mask) || c in Span(selected + [best.mask])
      {
        WithoutMembers(remaining, best.mask, c);
        SpanAppend(selected, best.mask);
        SpanRow(selected + [best.mask], |selected|);
      }
      forall c | c in Without(remaining, best.mask)
        ensures c in candidates
      {
        WithoutMembers(remaining, best.mask, c);
      }
      selected := selected + [best.mask];
      remaining := Without(remaining, best.mask);
      current := best.metrics;
    }
    GreedyRunFacts(selected, candidates, Scorer(tune), counts, minImprovement);
  }

  // ----- What a selection gives the daemon

  /** Selected masks pass the daemon's mask checks whenever there are between 1 and 32 of them, and the
      bank map they define reaches every class. */
  lemma SelectionAccepted(
    selected: seq<Vec>, candidates: seq<Vec>, score: seq<Vec> -> Metrics, counts: map<Vec, nat>, minImprovement: real,
    result: CalibrationResult, width: nat)
    requires GreedyRun(selected, candidates, score, counts, minImprovement)
    requires result.bankMasks == selected && 1 <= |selected| <= MAX_MASKS
    requires result.statusSuccess && result.acceptancePassed && 0 < |result.maskSetId| < MASK_SET_ID_MAX
    requires forall i :: 0 <= i < |candidates| ==> Below(candidates[i], width)
    ensures Verdict(result) == MappingRc.Ok
    ensures forall c :: Below(c, |selected|) ==> HasAddress(selected, c, width)
  {
    GreedyRunFacts(selected, candidates, score, counts, minImprovement);
    IndependentMasksValid(selected);
    MaskVerdictOk(selected);
    forall i | 0 <= i < |selected|
      ensures Below(selected[i], width)
    {
      var j :| 0 <= j < |candidates| && candidates[j] == selected[i];
    }
    ClassesOntoIffIndependent(selected, width);
  }

  /** When discovery saw every conflict of the fit set, any nonempty selection predicts all of them: no
      false negatives there, and the daemon puts each conflicting pair of addresses in one class. */
  lemma FitConflictsShareClass(
    fit: seq<PairRecord>, candidates: seq<Vec>, maxCandidates: nat, minRate: real,
    score: seq<Vec> -> Metrics, counts: map<Vec, nat>, selected: seq<Vec>, minImprovement: real)
    requires CompleteCandidates(candidates, fit, maxCandidates, minRate)
    requires GreedyRun(selected, candidates, score, counts, minImprovement) && selected != []
    ensures MetricsOf(fit, selected).fn == 0
    ensures Conflicts(fit) != [] ==> MetricsOf(fit, selected).recall == 1.0
    ensures forall i, a, b :: 0 <= i < |fit| && fit[i].labelConflict && fit[i].diff == Xor(a, b) ==>
              ClassOf(selected, a) == ClassOf(selected, b)
  {
    GreedyRunFacts(selected, candidates, score, counts, minImprovement);
    forall i, k | 0 <= i < |fit| && fit[i].labelConflict && 0 <= k < |selected|
      ensures !Dot(selected[k], fit[i].diff)
    {
      ConflictsMembers(fit, i);
      var j :| 0 <= j < |Conflicts(fit)| && Conflicts(fit)[j] == fit[i].diff;
      assert Separates(selected[k], ActiveUnion(fit), Conflicts(fit));
    }
    NoFalseNegatives(fit, selected);
    if Conflicts(fit) != [] {
      var i := SomeConflict(fit);
    }
    forall i, a, b | 0 <= i < |fit| && fit[i].labelConflict && fit[i].diff == Xor(a, b)
      ensures ClassOf(selected, a) == ClassOf(selected, b)
    {
      forall k | 0 <= k < |selected|
        ensures !Dot(Xor(a, b), selected[k])
      {
        DotSymmetric(selected[k], fit[i].diff);
      }
      SameClassIffPredicted(selected, a, b);
    }
  }
}
