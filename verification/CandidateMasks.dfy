/** Discovery of candidate masks by repeated subsampling of the conflicting pairs. */
module CandidateMasks {
  import opened FiniteSets
  import opened Gf2Vectors
  import opened Gf2Space
  import opened Gf2Elimination
  import opened Calibration
  import opened Sorting
  import opened Words

  datatype Discovery =
    | Discovered(candidates: seq<Vec>, counts: map<Vec, nat>, positions: seq<nat>)
    | CalibrationError

  /** The differences of the records labelled as conflicts. */
  function Conflicts(fit: seq<PairRecord>): seq<Vec> {
    if fit == [] then []
    else
      var rest := Conflicts(fit[..|fit| - 1]);
      if fit[|fit| - 1].labelConflict then rest + [fit[|fit| - 1].diff] else rest
  }

  lemma {:induction false} ConflictsMembers(fit: seq<PairRecord>, i: nat)
    requires i < |fit| && fit[i].labelConflict
    ensures fit[i].diff in Conflicts(fit)
  {
    var n := |fit| - 1;
    if i == n {
      assert Conflicts(fit)[|Conflicts(fit)| - 1] == fit[i].diff;
    } else {
      ConflictsMembers(fit[..n], i);
    }
  }

  /** The positions at which some record's difference has a one bit. */
  function ActiveUnion(fit: seq<PairRecord>): Vec {
    if fit == [] then {} else ActiveUnion(fit[..|fit| - 1]) + fit[|fit| - 1].diff
  }

  lemma {:induction false} ActiveUnionHas(fit: seq<PairRecord>, b: nat)
    ensures b in ActiveUnion(fit) <==> exists i :: 0 <= i < |fit| && b in fit[i].diff
  {
    if fit != [] {
      var n := |fit| - 1;
      ActiveUnionHas(fit[..n], b);
      if i :| 0 <= i < |fit| && b in fit[i].diff {
        assert i < n ==> fit[..n][i] == fit[i];
      }
    }
  }

  function ActivePositions(fit: seq<PairRecord>): seq<nat> {
    var union := ActiveUnion(fit);
    ActiveBits(union, if BitLength(union) > 1 then BitLength(union) else 1)
  }

  /** The positions are those at which some difference has a one bit, in increasing order. */
  lemma ActivePositionsMembers(fit: seq<PairRecord>)
    ensures Members(ActivePositions(fit)) == ActiveUnion(fit)
    ensures Increasing(ActivePositions(fit))
  {
  }

  /** The conflicts a round looks at: all of them, or the ones drawn. */
  function Sample(conflicts: seq<Vec>, subsample: int, draw: seq<nat>): seq<Vec>
    requires forall k :: 0 <= k < |draw| ==> draw[k] < |conflicts|
  {
    if subsample >= |conflicts| then conflicts
    else seq(|draw|, k requires 0 <= k < |draw| => conflicts[draw[k]])
  }

  /** What `random.sample` may return for each round. */
  predicate ValidDraws(conflicts: seq<Vec>, draws: seq<seq<nat>>) {
    forall d, k :: 0 <= d < |draws| && 0 <= k < |draws[d]| ==> draws[d][k] < |conflicts|
  }

  /** A nonzero mask over the active positions with even parity against every difference given. */
  predicate Separates(mask: Vec, active: Vec, diffs: seq<Vec>) {
    mask != {} && mask <= active && forall i :: 0 <= i < |diffs| ==> !Dot(mask, diffs[i])
  }

  // ----- Scores

  /** The share of the records with this label to which the mask gives even parity. */
  ghost function ZeroRate(mask: Vec, records: seq<PairRecord>, conflict: bool): real {
    Ratio(|Zeros(mask, records, conflict)|, |Labelled(records, conflict)|)
  }

  ghost function Labelled(records: seq<PairRecord>, conflict: bool): set<int> {
    Passing(records, (r: PairRecord) => r.labelConflict == conflict)
  }

  ghost function Zeros(mask: Vec, records: seq<PairRecord>, conflict: bool): set<int> {
    Passing(records, (r: PairRecord) => IsZero(mask, r, conflict))
  }

  predicate IsZero(mask: Vec, record: PairRecord, conflict: bool) {
    record.labelConflict == conflict && !Dot(record.diff, mask)
  }

  /** The rate times the number of records with the label is the number of those to which the mask gives even parity. */
  lemma RateIsShare(mask: Vec, records: seq<PairRecord>, conflict: bool)
    ensures IsShare(ZeroRate(mask, records, conflict), |Zeros(mask, records, conflict)|, |Labelled(records, conflict)|)
    ensures forall i :: i in Zeros(mask, records, conflict) <==>
              0 <= i < |records| && records[i].labelConflict == conflict && |records[i].diff * mask| % 2 == 0
  {
    SubsetCount(Zeros(mask, records, conflict), Labelled(records, conflict));
    RatioTimes(|Zeros(mask, records, conflict)|, |Labelled(records, conflict)|);
  }

  method MaskQuality(mask: Vec, records: seq<PairRecord>) returns (posZero: real, negZero: real)
    ensures posZero == ZeroRate(mask, records, true)
    ensures negZero == ZeroRate(mask, records, false)
  {
    var positives, negatives, posZeros, negZeros := 0, 0, 0, 0;
    for n := 0 to |records|
      invariant positives == |Labelled(records[..n], true)| && negatives == |Labelled(records[..n], false)|
      invariant posZeros == |Zeros(mask, records[..n], true)| && negZeros == |Zeros(mask, records[..n], false)|
    {
      LabelledStep(records, n, true);
      LabelledStep(records, n, false);
      ZerosStep(mask, records, n, true);
      ZerosStep(mask, records, n, false);
      var zero := if Dot(records[n].diff, mask) then 0 else 1;
      if records[n].labelConflict {
        positives, posZeros := positives + 1, posZeros + zero;
      } else {
        negatives, negZeros := negatives + 1, negZeros + zero;
      }
    }
    assert records[..|records|] == records;
    posZero, negZero := Ratio(posZeros, positives), Ratio(negZeros, negatives);
  }

  lemma LabelledStep(records: seq<PairRecord>, n: nat, conflict: bool)
    requires n < |records|
    ensures |Labelled(records[..n + 1], conflict)|
         == |Labelled(records[..n], conflict)| + if records[n].labelConflict == conflict then 1 else 0
  {
    PassingStep(records, n, (r: PairRecord) => r.labelConflict == conflict);
  }

  lemma ZerosStep(mask: Vec, records: seq<PairRecord>, n: nat, conflict: bool)
    requires n < |records|
    ensures |Zeros(mask, records[..n + 1], conflict)|
         == |Zeros(mask, records[..n], conflict)| + if IsZero(mask, records[n], conflict) then 1 else 0
  {
    PassingStep(records, n, (r: PairRecord) => IsZero(mask, r, conflict));
  }

  datatype Score = Score(posZero: real, frequency: nat, weight: nat, imbalance: real, mask: Vec)

  /** Tuple order: higher rate, then higher frequency, fewer bits, closer balance, smaller mask. */
  predicate ScoreLeq(a: Score, b: Score) {
    if a.posZero != b.posZero then a.posZero > b.posZero
    else if a.frequency != b.frequency then a.frequency > b.frequency
    else if a.weight != b.weight then a.weight < b.weight
    else if a.imbalance != b.imbalance then a.imbalance < b.imbalance
    else Value(a.mask) <= Value(b.mask)
  }

  lemma ScoreOrder()
    ensures TotalPreorder(ScoreLeq)
  {
    assert forall a, b :: ScoreLeq(a, b) || ScoreLeq(b, a);
  }

  ghost function ScoreOf(mask: Vec, frequency: nat, fit: seq<PairRecord>): Score {
    var off := ZeroRate(mask, fit, false) - 0.5;
    Score(ZeroRate(mask, fit, true), frequency, |mask|, if off < 0.0 then -off else off, mask)
  }

  /** How far the rate on the other records is from one half. */
  ghost function OffBalance(mask: Vec, fit: seq<PairRecord>): real {
    var rate := ZeroRate(mask, fit, false);
    if rate < 0.5 then 0.5 - rate else rate - 0.5
  }

  /** Mask `a` comes before mask `b`: a higher rate on the conflicts, or at equal rates a higher count, or at equal
      counts fewer bits, or at as many bits a rate on the others closer to one half, or else the smaller number. */
  ghost predicate RankedBefore(a: Vec, b: Vec, counts: map<Vec, nat>, fit: seq<PairRecord>) {
    var rateA, rateB := ZeroRate(a, fit, true), ZeroRate(b, fit, true);
    var countA, countB := Frequency(counts, a), Frequency(counts, b);
    && rateA >= rateB
    && (rateA == rateB ==> countA >= countB)
    && (rateA == rateB && countA == countB ==> |a| <= |b|)
    && (rateA == rateB && countA == countB && |a| == |b| ==> OffBalance(a, fit) <= OffBalance(b, fit))
    && (rateA == rateB && countA == countB && |a| == |b| && OffBalance(a, fit) == OffBalance(b, fit) ==>
          Value(a) < Value(b))
  }

  lemma ScoreRanks(a: Vec, b: Vec, counts: map<Vec, nat>, fit: seq<PairRecord>)
    requires a in counts && b in counts && a != b
    requires ScoreLeq(ScoreOf(a, counts[a], fit), ScoreOf(b, counts[b], fit))
    ensures RankedBefore(a, b, counts, fit)
  {
    if Value(a) == Value(b) {
      ValueInjective(a, b);
    }
  }

  /** Exactly the keys that pass the rate filter are scored, each once. */
  ghost predicate ScoredAll(fit: seq<PairRecord>, keys: seq<Vec>, counts: map<Vec, nat>, minRate: real,
      scored: seq<Score>) {
    && (forall s :: s in scored ==>
          s.mask in keys && s.mask in counts && s == ScoreOf(s.mask, counts[s.mask], fit) && s.posZero >= minRate)
    && (forall m :: m in keys && m in counts && ZeroRate(m, fit, true) >= minRate ==>
          ScoreOf(m, counts[m], fit) in scored)
    && (forall i, j :: 0 <= i < j < |scored| ==> scored[i].mask != scored[j].mask)
  }

  lemma ScoredNext(fit: seq<PairRecord>, keys: seq<Vec>, n: nat, counts: map<Vec, nat>, minRate: real,
      scored: seq<Score>)
    requires n < |keys| && keys[n] in counts && forall i, j :: 0 <= i < j < |keys| ==> keys[i] != keys[j]
    requires ScoredAll(fit, keys[..n], counts, minRate, scored)
    ensures var s := ScoreOf(keys[n], counts[keys[n]], fit);
            ScoredAll(fit, keys[..n + 1], counts, minRate, if s.posZero >= minRate then scored + [s] else scored)
  {
    PrefixNext(keys, n);
    ScoredOneMore(fit, keys[..n], counts, minRate, scored, keys[n]);
  }

  lemma ScoredOneMore(fit: seq<PairRecord>, keys: seq<Vec>, counts: map<Vec, nat>, minRate: real, scored: seq<Score>,
      mask: Vec)
    requires ScoredAll(fit, keys, counts, minRate, scored) && mask !in keys && mask in counts
    ensures var s := ScoreOf(mask, counts[mask], fit);
            ScoredAll(fit, keys + [mask], counts, minRate, if s.posZero >= minRate then scored + [s] else scored)
  {
    forall i | 0 <= i < |scored|
      ensures scored[i].mask != mask
    {
      assert scored[i] in scored;
    }
  }

  method ScoreMask(mask: Vec, frequency: nat, fit: seq<PairRecord>) returns (score: Score)
    ensures score == ScoreOf(mask, frequency, fit)
  {
    var posZero, negZero := MaskQuality(mask, fit);
    var off := negZero - 0.5;
    score := Score(posZero, frequency, |mask|, if off < 0.0 then -off else off, mask);
  }

  method ScoreMasks(fit: seq<PairRecord>, keys: seq<Vec>, counts: map<Vec, nat>, minRate: real)
      returns (scored: seq<Score>)
    requires forall i :: 0 <= i < |keys| ==> keys[i] in counts
    requires forall i, j :: 0 <= i < j < |keys| ==> keys[i] != keys[j]
    ensures ScoredAll(fit, keys, counts, minRate, scored)
  {
    scored := [];
    for n := 0 to |keys|
      invariant ScoredAll(fit, keys[..n], counts, minRate, scored)
    {
      ScoredNext(fit, keys, n, counts, minRate, scored);
      var score := ScoreMask(keys[n], counts[keys[n]], fit);
      if score.posZero >= minRate {
        scored := scored + [score];
      }
    }
    assert keys[..|keys|] == keys;
  }

  // ----- Counting the masks of all rounds

  /** The counter's keys, in insertion order. */
  ghost predicate CounterOf(keys: seq<Vec>, counts: map<Vec, nat>) {
    && counts.Keys == (set m | m in keys)
    && (forall i, j :: 0 <= i < j < |keys| ==> keys[i] != keys[j])
    && (forall m :: m in keys ==> Frequency(counts, m) > 0)
  }

  /** How often a mask was counted. */
  function Frequency(counts: map<Vec, nat>, mask: Vec): nat {
    if mask in counts then counts[mask] else 0
  }

  /** How often a mask occurs in the lists of all rounds. */
  ghost function Occurrences(rounds: seq<seq<Vec>>, m: Vec): nat {
    if rounds == [] then 0 else Occurrences(rounds[..|rounds| - 1], m) + multiset(rounds[|rounds| - 1])[m]
  }

  /** The counter after the masks listed so far were added to it. */
  ghost predicate Counted(keys: seq<Vec>, counts: map<Vec, nat>, listed: seq<Vec>, keys': seq<Vec>,
      counts': map<Vec, nat>) {
    && CounterOf(keys', counts') && keys <= keys'
    && (forall m :: m in keys' <==> m in keys || (m in listed && m != {}))
    && (forall m :: m != {} ==> Frequency(counts', m) == Frequency(counts, m) + multiset(listed)[m])
  }

  lemma CountedZero(keys: seq<Vec>, counts: map<Vec, nat>, listed: seq<Vec>, keys': seq<Vec>,
      counts': map<Vec, nat>)
    requires Counted(keys, counts, listed, keys', counts')
    ensures Counted(keys, counts, listed + [{}], keys', counts')
  {
    assert multiset(listed + [{}]) == multiset(listed) + multiset{{}};
  }

  lemma CountedOneMore(keys: seq<Vec>, counts: map<Vec, nat>, listed: seq<Vec>, keys': seq<Vec>,
      counts': map<Vec, nat>, mask: Vec)
    requires mask != {} && Counted(keys, counts, listed, keys', counts')
    ensures Counted(keys, counts, listed + [mask], if mask in counts' then keys' else keys' + [mask],
              counts'[mask := Frequency(counts', mask) + 1])
  {
    var keys'', counts'' := if mask in counts' then keys' else keys' + [mask],
        counts'[mask := Frequency(counts', mask) + 1];
    CounterNext(keys', counts', mask);
    CountNext(listed, mask);
    forall m | m != {}
      ensures Frequency(counts'', m) == Frequency(counts, m) + multiset(listed + [mask])[m]
    {
      assert Frequency(counts'', m) == Frequency(counts', m) + if m == mask then 1 else 0;
    }
  }

  lemma CounterNext(keys: seq<Vec>, counts: map<Vec, nat>, mask: Vec)
    requires CounterOf(keys, counts)
    ensures var keys' := if mask in counts then keys else keys + [mask];
            && CounterOf(keys', counts[mask := Frequency(counts, mask) + 1])
            && keys <= keys' && forall m :: m in keys' <==> m in keys || m == mask
  {
  }

  lemma CountNext(listed: seq<Vec>, mask: Vec)
    ensures forall m :: multiset(listed + [mask])[m] == multiset(listed)[m] + if m == mask then 1 else 0
    ensures forall m :: m in listed + [mask] <==> m in listed || m == mask
  {
    assert multiset(listed + [mask]) == multiset(listed) + multiset{mask};
  }

  /** Counts one mask of the list, unless it is zero. */
  method CountMask(
    mask: Vec, keys: seq<Vec>, counts: map<Vec, nat>, ghost keys0: seq<Vec>, ghost counts0: map<Vec, nat>,
    ghost all: seq<Vec>, ghost n: nat)
    returns (keys': seq<Vec>, counts': map<Vec, nat>)
    requires n < |all| && mask == all[n] && Counted(keys0, counts0, all[..n], keys, counts)
    ensures Counted(keys0, counts0, all[..n + 1], keys', counts')
  {
    keys', counts' := keys, counts;
    PrefixNext(all, n);
    if mask == {} {
      CountedZero(keys0, counts0, all[..n], keys, counts);
    } else {
      CountedOneMore(keys0, counts0, all[..n], keys, counts, mask);
      keys' := if mask in counts then keys else keys + [mask];
      counts' := counts[mask := Frequency(counts, mask) + 1];
    }
  }

  /** Adds one round's expanded basis to the counter. */
  method CountRound(basis: seq<Vec>, positions: seq<nat>, keys: seq<Vec>, counts: map<Vec, nat>)
    returns (keys': seq<Vec>, counts': map<Vec, nat>)
    requires CounterOf(keys, counts)
    ensures Counted(keys, counts, ExpandAll(basis, positions), keys', counts')
  {
    keys', counts' := keys, counts;
    ghost var all := ExpandAll(basis, positions);
    assert all[..0] == [];
    for i := 0 to |basis|
      invariant Counted(keys, counts, all[..i], keys', counts')
    {
      var mask := ExpandMask(basis[i], positions);
      keys', counts' := CountMask(mask, keys', counts', keys, counts, all, i);
    }
    assert all[..|basis|] == all;
  }

  /** What the counter holds after some rounds. */
  ghost predicate CountedMasks(
    keys: seq<Vec>, active: Vec, conflicts: seq<Vec>, subsample: int, draws: seq<seq<nat>>, rounds: nat)
    requires ValidDraws(conflicts, draws) && rounds <= |draws|
  {
    && (forall m :: m in keys ==>
        exists d :: 0 <= d < rounds && Separates(m, active, Sample(conflicts, subsample, draws[d])))
    && (forall d, m :: 0 <= d < rounds && Separates(m, active, Sample(conflicts, subsample, draws[d])) ==>
        m in Span(keys))
  }

  lemma CountedStep(
    keys: seq<Vec>, keys': seq<Vec>, basis: seq<Vec>, positions: seq<nat>, active: Vec,
    conflicts: seq<Vec>, subsample: int, draws: seq<seq<nat>>, round: nat)
    requires ValidDraws(conflicts, draws) && round < |draws|
    requires Increasing(positions) && Members(positions) == active
    requires CountedMasks(keys, active, conflicts, subsample, draws, round)
    requires keys <= keys'
    requires forall m :: m in keys' <==> m in keys || (m in ExpandAll(basis, positions) && m != {})
    requires var diffs := Sample(conflicts, subsample, draws[round]);
             forall v :: v in Span(basis) <==> Below(v, |positions|) && Annihilates(v, CompressAll(diffs, positions))
    ensures CountedMasks(keys', active, conflicts, subsample, draws, round + 1)
  {
    var diffs := Sample(conflicts, subsample, draws[round]);
    var all := ExpandAll(basis, positions);
    RoundCandidates(diffs, positions, basis);
    forall m | m in keys'
      ensures exists d :: 0 <= d < round + 1 && Separates(m, active, Sample(conflicts, subsample, draws[d]))
    {
      if m in all && m != {} {
        var i :| 0 <= i < |all| && all[i] == m;
        SpanRow(all, i);
        assert Separates(m, active, Sample(conflicts, subsample, draws[round]));
      }
    }
    SpanIncluded(all, keys');
    SpanIncluded(keys, keys');
    forall d, m | 0 <= d < round + 1 && Separates(m, active, Sample(conflicts, subsample, draws[d]))
      ensures m in Span(keys')
    {
      if d == round {
        assert m in Span(all);
      } else {
        assert m in Span(keys);
      }
    }
  }

  lemma SpanIncluded(rows: seq<Vec>, other: seq<Vec>)
    requires forall i :: 0 <= i < |rows| ==> rows[i] in other || rows[i] == {}
    ensures Span(rows) <= Span(other)
  {
    SpanZero(other);
    forall i | 0 <= i < |rows|
      ensures rows[i] in Span(other)
    {
      if rows[i] in other {
        var j :| 0 <= j < |other| && other[j] == rows[i];
        SpanRow(other, j);
      }
    }
    SpanLeast(rows, other);
  }

  // ----- Discovery

  /** Every candidate is a nonzero mask over the active positions that annihilates all conflicts of some
      round's sample and passes the rate filter; the list is in rank order, and every counted mask left out ranks
      behind every member. */
  ghost predicate FaithfulCandidates(
    candidates: seq<Vec>, counts: map<Vec, nat>, fit: seq<PairRecord>, subsample: int, draws: seq<seq<nat>>,
    minRate: real)
    requires ValidDraws(Conflicts(fit), draws)
  {
    && (forall m :: m in candidates ==> m in counts)
    && (forall i, j :: 0 <= i < j < |candidates| ==>
          candidates[i] != candidates[j] && RankedBefore(candidates[i], candidates[j], counts, fit))
    && (forall m :: m in candidates ==>
          && ZeroRate(m, fit, true) >= minRate
          && exists d ::
               0 <= d < |draws| && Separates(m, ActiveUnion(fit), Sample(Conflicts(fit), subsample, draws[d])))
    && (forall m, k :: m in candidates && k in counts && k !in candidates ==> RankedBefore(m, k, counts, fit))
  }

  /** With every conflict in the sample, the candidates annihilate all conflicts, and unless the list was
      cut off they span every mask that does. */
  ghost predicate CompleteCandidates(candidates: seq<Vec>, fit: seq<PairRecord>, maxCandidates: nat, minRate: real) {
    && (forall m :: m in candidates ==> Separates(m, ActiveUnion(fit), Conflicts(fit)))
    && (|candidates| < maxCandidates && minRate <= 1.0 ==>
          forall m :: Separates(m, ActiveUnion(fit), Conflicts(fit)) ==> m in Span(candidates))
  }

  lemma SameSample(conflicts: seq<Vec>, subsample: int, draws: seq<seq<nat>>, d: nat)
    requires ValidDraws(conflicts, draws) && d < |draws| && subsample >= |conflicts|
    ensures Sample(conflicts, subsample, draws[d]) == conflicts
  {
  }

  /** The scored masks in rank order, cut off at the limit. */
  ghost predicate RankedMasks(
    candidates: seq<Vec>, keys: seq<Vec>, counts: map<Vec, nat>, fit: seq<PairRecord>, minRate: real, limit: nat)
    requires CounterOf(keys, counts)
  {
    && Distinct(candidates) && |candidates| <= limit
    && (forall m :: m in candidates ==> m in counts)
    && (forall i, j :: 0 <= i < j < |candidates| ==> RankedBefore(candidates[i], candidates[j], counts, fit))
    && (forall m :: m in candidates ==> m in keys && ZeroRate(m, fit, true) >= minRate)
    && (forall m, k :: m in candidates && k in keys && k !in candidates ==> RankedBefore(m, k, counts, fit))
    && (|candidates| < limit ==> forall k :: k in keys && ZeroRate(k, fit, true) >= minRate ==> k in candidates)
  }

  lemma SortedScores(fit: seq<PairRecord>, keys: seq<Vec>, counts: map<Vec, nat>, minRate: real, scored: seq<Score>,
      sorted: seq<Score>)
    requires CounterOf(keys, counts)
    requires forall s :: s in scored ==>
             s.mask in keys && s == ScoreOf(s.mask, counts[s.mask], fit) && s.posZero >= minRate
    requires forall m :: m in keys && ZeroRate(m, fit, true) >= minRate ==> ScoreOf(m, counts[m], fit) in scored
    requires forall i, j :: 0 <= i < j < |scored| ==> scored[i].mask != scored[j].mask
    requires multiset(sorted) == multiset(scored)
    ensures forall i :: 0 <= i < |sorted| ==>
              && sorted[i].mask in keys && sorted[i].posZero >= minRate
              && sorted[i] == ScoreOf(sorted[i].mask, counts[sorted[i].mask], fit)
    ensures forall m :: m in keys && ZeroRate(m, fit, true) >= minRate ==> ScoreOf(m, counts[m], fit) in sorted
    ensures forall i, j :: 0 <= i < j < |sorted| ==> sorted[i].mask != sorted[j].mask
  {
    assert forall s :: s in sorted <==> s in multiset(sorted);
    assert forall s :: s in scored <==> s in multiset(scored);
    forall i | 0 <= i < |sorted|
      ensures sorted[i] in scored
    {
      assert sorted[i] in sorted;
    }
    DistinctPermuted(scored, sorted);
  }

  lemma KeepRanked(
    fit: seq<PairRecord>, keys: seq<Vec>, counts: map<Vec, nat>, minRate: real, sorted: seq<Score>, limit: nat,
    candidates: seq<Vec>)
    requires CounterOf(keys, counts)
    requires Sorted(sorted, ScoreLeq)
    requires forall i :: 0 <= i < |sorted| ==>
               && sorted[i].mask in keys && sorted[i].posZero >= minRate
               && sorted[i] == ScoreOf(sorted[i].mask, counts[sorted[i].mask], fit)
    requires forall m :: m in keys && ZeroRate(m, fit, true) >= minRate ==> ScoreOf(m, counts[m], fit) in sorted
    requires forall i, j :: 0 <= i < j < |sorted| ==> sorted[i].mask != sorted[j].mask
    requires |candidates| == (if |sorted| < limit then |sorted| else limit)
    requires forall i :: 0 <= i < |candidates| ==> candidates[i] == sorted[i].mask
    ensures RankedMasks(candidates, keys, counts, fit, minRate, limit)
  {
    forall k | k in keys && ZeroRate(k, fit, true) >= minRate && k !in candidates
      ensures |candidates| == limit
      ensures forall m :: m in candidates ==> RankedBefore(m, k, counts, fit)
    {
      assert ScoreOf(k, counts[k], fit) in sorted;
      var j :| 0 <= j < |sorted| && sorted[j] == ScoreOf(k, counts[k], fit);
      assert forall i :: 0 <= i < |candidates| ==> candidates[i] in candidates;
      assert j >= |candidates|;
      forall m | m in candidates
        ensures RankedBefore(m, k, counts, fit)
      {
        var i :| 0 <= i < |candidates| && candidates[i] == m;
        SortedRanks(fit, counts, sorted, i, j);
      }
    }
    forall i, j | 0 <= i < j < |candidates|
      ensures RankedBefore(candidates[i], candidates[j], counts, fit)
    {
      SortedRanks(fit, counts, sorted, i, j);
    }
  }

  lemma SortedRanks(fit: seq<PairRecord>, counts: map<Vec, nat>, sorted: seq<Score>, i: nat, j: nat)
    requires i < j < |sorted| && Sorted(sorted, ScoreLeq) && sorted[i].mask != sorted[j].mask
    requires forall i :: 0 <= i < |sorted| ==>
               sorted[i].mask in counts && sorted[i] == ScoreOf(sorted[i].mask, counts[sorted[i].mask], fit)
    ensures RankedBefore(sorted[i].mask, sorted[j].mask, counts, fit)
  {
    assert ScoreLeq(sorted[i], sorted[j]);
    ScoreRanks(sorted[i].mask, sorted[j].mask, counts, fit);
  }

  lemma FaithfulFromRanked(
    candidates: seq<Vec>, keys: seq<Vec>, counts: map<Vec, nat>, fit: seq<PairRecord>, subsample: int,
    draws: seq<seq<nat>>, minRate: real, limit: nat)
    requires ValidDraws(Conflicts(fit), draws) && CounterOf(keys, counts)
    requires CountedMasks(keys, ActiveUnion(fit), Conflicts(fit), subsample, draws, |draws|)
    requires RankedMasks(candidates, keys, counts, fit, minRate, limit)
    ensures FaithfulCandidates(candidates, counts, fit, subsample, draws, minRate)
  {
  }

  /** A mask that annihilates every conflict has a perfect rate on the conflicts. */
  lemma PerfectRate(m: Vec, fit: seq<PairRecord>)
    requires Conflicts(fit) != []
    requires Separates(m, ActiveUnion(fit), Conflicts(fit))
    ensures ZeroRate(m, fit, true) == 1.0
  {
    forall i | 0 <= i < |fit| && fit[i].labelConflict
      ensures !Dot(fit[i].diff, m)
    {
      ConflictsMembers(fit, i);
      var j :| 0 <= j < |Conflicts(fit)| && Conflicts(fit)[j] == fit[i].diff;
      DotSymmetric(m, Conflicts(fit)[j]);
    }
    assert Zeros(m, fit, true) == Labelled(fit, true);
    var i := SomeConflict(fit);
    assert i in Labelled(fit, true);
    RatioWhole(|Labelled(fit, true)|);
  }

  lemma {:induction false} SomeConflict(fit: seq<PairRecord>) returns (i: nat)
    requires Conflicts(fit) != []
    ensures i < |fit| && fit[i].labelConflict
  {
    if fit[|fit| - 1].labelConflict {
      i := |fit| - 1;
    } else {
      i := SomeConflict(fit[..|fit| - 1]);
    }
  }

  /** With every conflict in the sample, the counter is nonempty exactly when some mask annihilates them all. */
  lemma CountedFromAll(
    keys: seq<Vec>, active: Vec, conflicts: seq<Vec>, subsample: int, draws: seq<seq<nat>>)
    requires ValidDraws(conflicts, draws) && subsample >= |conflicts|
    requires CountedMasks(keys, active, conflicts, subsample, draws, |draws|)
    ensures forall m :: m in keys ==> Separates(m, active, conflicts)
    ensures draws != [] ==> forall m :: Separates(m, active, conflicts) ==> m in Span(keys)
    ensures draws != [] ==> (keys != [] <==> exists m :: Separates(m, active, conflicts))
  {
    forall d | 0 <= d < |draws|
      ensures Sample(conflicts, subsample, draws[d]) == conflicts
    {
      SameSample(conflicts, subsample, draws, d);
    }
    if draws != [] {
      forall m | Separates(m, active, conflicts)
        ensures m in Span(keys) && keys != []
      {
        assert Separates(m, active, Sample(conflicts, subsample, draws[0]));
      }
    }
    if keys != [] {
      assert keys[0] in keys;
    }
  }

  lemma CompleteFromRanked(
    candidates: seq<Vec>, keys: seq<Vec>, counts: map<Vec, nat>, fit: seq<PairRecord>, subsample: int,
    draws: seq<seq<nat>>, minRate: real, limit: nat)
    requires ValidDraws(Conflicts(fit), draws) && CounterOf(keys, counts)
    requires subsample >= |Conflicts(fit)| > 0
    requires CountedMasks(keys, ActiveUnion(fit), Conflicts(fit), subsample, draws, |draws|)
    requires RankedMasks(candidates, keys, counts, fit, minRate, limit)
    requires keys != []
    ensures CompleteCandidates(candidates, fit, limit, minRate)
    ensures minRate <= 1.0 && limit > 0 ==> candidates != []
  {
    var active, conflicts := ActiveUnion(fit), Conflicts(fit);
    CountedFromAll(keys, active, conflicts, subsample, draws);
    forall m | m in keys
      ensures ZeroRate(m, fit, true) == 1.0
    {
      PerfectRate(m, fit);
    }
    assert keys[0] in keys;
    if |candidates| < limit && minRate <= 1.0 {
      SpanIncluded(keys, candidates);
    }
  }

  /** The masks of each round span exactly what annihilates that round's sample. */
  ghost predicate RoundMasks(
    rounds: seq<seq<Vec>>, active: Vec, conflicts: seq<Vec>, subsample: int, draws: seq<seq<nat>>)
    requires ValidDraws(conflicts, draws) && |rounds| <= |draws|
  {
    rounds == [] ||
    var n := |rounds| - 1;
    && RoundMasks(rounds[..n], active, conflicts, subsample, draws)
    && SpansAnnihilators(rounds[n], active, Sample(conflicts, subsample, draws[n]))
  }

  ghost predicate SpansAnnihilators(masks: seq<Vec>, active: Vec, diffs: seq<Vec>) {
    forall m :: m in Span(masks) <==> m <= active && Annihilates(m, diffs)
  }

  lemma RoundMasksNext(
    rounds: seq<seq<Vec>>, basis: seq<Vec>, positions: seq<nat>, active: Vec, conflicts: seq<Vec>, subsample: int,
    draws: seq<seq<nat>>)
    requires ValidDraws(conflicts, draws) && |rounds| < |draws|
             && RoundMasks(rounds, active, conflicts, subsample, draws)
    requires Increasing(positions) && Members(positions) == active
    requires var diffs := Sample(conflicts, subsample, draws[|rounds|]);
             forall v :: v in Span(basis) <==> Below(v, |positions|) && Annihilates(v, CompressAll(diffs, positions))
    ensures RoundMasks(rounds + [ExpandAll(basis, positions)], active, conflicts, subsample, draws)
  {
    RoundCandidates(Sample(conflicts, subsample, draws[|rounds|]), positions, basis);
    assert (rounds + [ExpandAll(basis, positions)])[..|rounds|] == rounds;
  }

  /** All rounds: each adds the expanded nullspace basis of its sample to the counter. */
  method CountRounds(
    conflicts: seq<Vec>, positions: seq<nat>, subsample: int, draws: seq<seq<nat>>, ghost active: Vec)
    returns (keys: seq<Vec>, counts: map<Vec, nat>, ghost rounds: seq<seq<Vec>>)
    requires ValidDraws(conflicts, draws) && Increasing(positions) && Members(positions) == active
    ensures CounterOf(keys, counts) && CountedMasks(keys, active, conflicts, subsample, draws, |draws|)
    ensures |rounds| == |draws| && RoundMasks(rounds, active, conflicts, subsample, draws)
    ensures forall m :: m != {} ==> Frequency(counts, m) == Occurrences(rounds, m)
  {
    keys, counts, rounds := [], map[], [];
    for round := 0 to |draws|
      invariant CounterOf(keys, counts)
      invariant CountedMasks(keys, active, conflicts, subsample, draws, round)
      invariant |rounds| == round && RoundMasks(rounds, active, conflicts, subsample, draws)
      invariant forall m :: m != {} ==> Frequency(counts, m) == Occurrences(rounds, m)
    {
      var sample := Sample(conflicts, subsample, draws[round]);
      var basis := Gf2Nullspace(CompressAll(sample, positions), |positions|);
      ghost var before := keys;
      keys, counts := CountRound(basis, positions, keys, counts);
      RoundMasksNext(rounds, basis, positions, active, conflicts, subsample, draws);
      rounds := rounds + [ExpandAll(basis, positions)];
      CountedStep(before, keys, basis, positions, active, conflicts, subsample, draws, round);
    }
  }

  /** Scores, sorts and cuts off the counted masks. */
  method RankCandidates(
    fit: seq<PairRecord>, keys: seq<Vec>, counts: map<Vec, nat>, minRate: real, maxCandidates: nat)
    returns (candidates: seq<Vec>)
    requires CounterOf(keys, counts)
    ensures RankedMasks(candidates, keys, counts, fit, minRate, maxCandidates)
  {
    var scored := ScoreMasks(fit, keys, counts, minRate);
    var sorted := Sort(scored, ScoreLeq);
    ScoreOrder();
    SortCorrect(scored, ScoreLeq);
    SortedScores(fit, keys, counts, minRate, scored, sorted);
    var count := if |sorted| < maxCandidates then |sorted| else maxCandidates;
    candidates := seq(count, i requires 0 <= i < count => sorted[i].mask);
    KeepRanked(fit, keys, counts, minRate, sorted, maxCandidates, candidates);
  }

  /** Some nonzero mask listed in the rounds passes the rate filter. */
  ghost predicate SomeListed(rounds: seq<seq<Vec>>, fit: seq<PairRecord>, minRate: real) {
    exists m :: m != {} && Occurrences(rounds, m) > 0 && ZeroRate(m, fit, true) >= minRate
  }

  /** Ranking keeps something exactly when the limit allows it and some listed mask passes the filter. */
  lemma RankedIffListed(
    candidates: seq<Vec>, keys: seq<Vec>, counts: map<Vec, nat>, fit: seq<PairRecord>, minRate: real, limit: nat,
    rounds: seq<seq<Vec>>)
    requires CounterOf(keys, counts) && RankedMasks(candidates, keys, counts, fit, minRate, limit)
    requires {} !in keys && forall m :: m != {} ==> Frequency(counts, m) == Occurrences(rounds, m)
    ensures candidates != [] <==> limit > 0 && SomeListed(rounds, fit, minRate)
  {
    if candidates != [] {
      var m := candidates[0];
      assert m in candidates && Occurrences(rounds, m) > 0;
    }
    if limit > 0 && SomeListed(rounds, fit, minRate) {
      var m :| m != {} && Occurrences(rounds, m) > 0 && ZeroRate(m, fit, true) >= minRate;
      assert Frequency(counts, m) > 0 && m in keys;
    }
  }

  /** The number of rounds and the masks of each are ghost results: a count is the number of occurrences in them. */
  method DiscoverCandidates(
    fit: seq<PairRecord>, draws: seq<seq<nat>>, subsample: int, minRate: real, maxCandidates: nat)
    returns (r: Discovery, ghost rounds: seq<seq<Vec>>)
    requires ValidDraws(Conflicts(fit), draws)
    ensures if Conflicts(fit) != [] && ActiveUnion(fit) != {} && subsample > 0
              then |rounds| == |draws| && RoundMasks(rounds, ActiveUnion(fit), Conflicts(fit), subsample, draws)
              else rounds == []
    ensures r.Discovered? ==> forall m :: m != {} ==> Frequency(r.counts, m) == Occurrences(rounds, m)
    ensures r.Discovered? <==> maxCandidates > 0 && SomeListed(rounds, fit, minRate)
    ensures r.Discovered? ==>
              && 0 < |r.candidates| <= maxCandidates
              && r.positions == ActivePositions(fit)
              && FaithfulCandidates(r.candidates, r.counts, fit, subsample, draws, minRate)
    ensures r.Discovered? && subsample >= |Conflicts(fit)| ==>
            CompleteCandidates(r.candidates, fit, maxCandidates, minRate)
    ensures subsample >= |Conflicts(fit)| && draws != [] && maxCandidates > 0 && minRate <= 1.0 ==>
              (r.Discovered? <==> Conflicts(fit) != [] && exists m :: Separates(m, ActiveUnion(fit), Conflicts(fit)))
  {
    var conflicts := Conflicts(fit);
    if conflicts == [] {
      return CalibrationError, [];
    }
    var positions := ActivePositions(fit);
    ActivePositionsMembers(fit);
    if positions == [] {
      assert ActiveUnion(fit) == {};
      return CalibrationError, [];
    }
    assert positions[0] in ActiveUnion(fit);
    if subsample <= 0 {
      return CalibrationError, [];
    }
    ghost var active := ActiveUnion(fit);
    var keys, counts;
    keys, counts, rounds := CountRounds(conflicts, positions, subsample, draws, active);
    if subsample >= |conflicts| {
      CountedFromAll(keys, active, conflicts, subsample, draws);
    }
    assert {} !in keys;
    if keys == [] {
      assert forall m :: m != {} ==> Frequency(counts, m) == 0;
      return CalibrationError, rounds;
    }
    var candidates := RankCandidates(fit, keys, counts, minRate, maxCandidates);
    RankedIffListed(candidates, keys, counts, fit, minRate, maxCandidates, rounds);
    FaithfulFromRanked(candidates, keys, counts, fit, subsample, draws, minRate, maxCandidates);
    if subsample >= |conflicts| {
      CompleteFromRanked(candidates, keys, counts, fit, subsample, draws, minRate, maxCandidates);
    }
    if candidates == [] {
      return CalibrationError, rounds;
    }
    r := Discovered(candidates, counts, positions);
  }
}
