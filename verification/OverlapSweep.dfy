/** One overlap level of the sweep, end to end: the structural overlap check on the rebuilt histograms cannot fail. */
module OverlapSweep {
  import opened LineVisits
  import opened LineSelection
  import opened Histograms
  import opened PageClasses
  import opened Shuffle
  import opened Sorting
  import opened Gf2Vectors
  import opened Arithmetic
  import opened Gf2Space

  /** The order in which the collector visits a pool. */
  function VisitOrder(rng: Generator, pool: Pool, lines: nat, pageSeed: nat, lineSeed: nat): seq<Line> {
    Visit(Shuffled(rng, Identity(|pool.pfns|), pageSeed), Shuffled(rng, Identity(lines), lineSeed))
  }

  lemma VisitOrderLines(rng: Generator, pool: Pool, lines: nat, pageSeed: nat, lineSeed: nat)
    requires lines * CACHELINE_BYTES == pool.pageSize
    ensures Distinct(VisitOrder(rng, pool, lines, pageSeed, lineSeed))
    ensures forall line :: line in VisitOrder(rng, pool, lines, pageSeed, lineSeed) ==>
              line.page < |pool.pfns| && line.index * CACHELINE_BYTES < pool.pageSize
  {
    var po, lo := Shuffled(rng, Identity(|pool.pfns|), pageSeed), Shuffled(rng, Identity(lines), lineSeed);
    ShuffledIdentity(rng, |pool.pfns|, pageSeed);
    ShuffledIdentity(rng, lines, lineSeed);
    VisitDistinct(po, lo);
    forall line | line in Visit(po, lo)
      ensures line.page < |pool.pfns| && line.index < lines
    {
      VisitMembers(po, lo, line);
    }
  }

  /** The counts taken in address order tell how many lines of a class any visiting order finds. */
  lemma CountsPredictVisit(
    rng: Generator, pool: Pool, lines: nat, pageSeed: nat, lineSeed: nat, counts: seq<nat>, cls: Classifier, c: nat)
    requires CountsOf(counts, NaturalVisit(pool, lines), cls) && c < |counts|
    ensures |OfClass(VisitOrder(rng, pool, lines, pageSeed, lineSeed), cls, c)| == counts[c]
  {
    ShuffledIdentity(rng, |pool.pfns|, pageSeed);
    ShuffledIdentity(rng, lines, lineSeed);
    IdentityPermutation(|pool.pfns|);
    IdentityPermutation(lines);
    OfClassCountIndependent(
      |pool.pfns|, lines, Identity(|pool.pfns|), Identity(lines),
      Shuffled(rng, Identity(|pool.pfns|), pageSeed), Shuffled(rng, Identity(lines), lineSeed), cls, c);
  }

  /** Classes that are eligible in a pool can always be collected from it. */
  lemma EligibleCollectable(
    rng: Generator, pool: Pool, lines: nat, pageSeed: nat, lineSeed: nat, counts: seq<seq<nat>>, p: nat,
    cls: Classifier,
    classes: seq<nat>, quota: nat)
    requires p < |counts| && CountsOf(counts[p], NaturalVisit(pool, lines), cls)
    requires Distinct(classes) && forall c :: c in classes ==> c < |counts[p]| && Eligible(counts, quota, c)
    ensures Collectable(VisitOrder(rng, pool, lines, pageSeed, lineSeed), cls, classes, quota, |counts[p]|)
  {
    forall s | 0 <= s < |classes|
      ensures classes[s] < |counts[p]|
              && |OfClass(VisitOrder(rng, pool, lines, pageSeed, lineSeed), cls, classes[s])| >= quota
    {
      assert classes[s] in classes;
      CountsPredictVisit(rng, pool, lines, pageSeed, lineSeed, counts[p], cls, classes[s]);
    }
  }

  /** The lines chosen for a class are the same whatever other classes are asked for along with it. */
  lemma SelectionStable(
    visit: seq<Line>, cls: Classifier, pool: Pool, quota: nat, k: nat,
    addresses: seq<nat>, classes: seq<nat>, slot: nat, addresses': seq<nat>, classes': seq<nat>, slot': nat)
    requires FirstLines(addresses, visit, cls, pool, classes, quota)
             && FirstLines(addresses', visit, cls, pool, classes', quota)
    requires slot < |classes| && slot' < |classes'| && classes[slot] == classes'[slot'] && k < quota
    ensures Position(slot, k, quota) < |addresses| && Position(slot', k, quota) < |addresses'|
    ensures addresses[Position(slot, k, quota)] == addresses'[Position(slot', k, quota)]
  {
  }

  /** No line is selected twice. */
  lemma SelectionDistinct(
    visit: seq<Line>, cls: Classifier, pool: Pool, quota: nat, addresses: seq<nat>, classes: seq<nat>)
    requires FirstLines(addresses, visit, cls, pool, classes, quota)
    requires Distinct(visit) && Distinct(classes)
    requires forall line :: line in visit ==> line.index * CACHELINE_BYTES < pool.pageSize
    ensures Distinct(addresses)
  {
    forall i, j | 0 <= i < j < |addresses|
      ensures addresses[i] != addresses[j]
    {
      var s, k := SplitPosition(i, |classes|, quota);
      var t, l := SplitPosition(j, |classes|, quota);
      var a, b := OfClass(visit, cls, classes[s])[k], OfClass(visit, cls, classes[t])[l];
      OfClassMembers(visit, cls, classes[s], a);
      OfClassMembers(visit, cls, classes[t], b);
      OfClassDistinct(visit, cls, classes[s]);
      assert a != b by {
        if s == t {
          assert k != l;
        }
      }
      LineAddressInjective(pool, a, b);
    }
  }

  lemma LineAddressInjective(pool: Pool, a: Line, b: Line)
    requires a != b
    requires a.index * CACHELINE_BYTES < pool.pageSize && b.index * CACHELINE_BYTES < pool.pageSize
    ensures LineAddress(pool, a) != LineAddress(pool, b)
  {
    var x, y := a.page * pool.pageSize + a.index * CACHELINE_BYTES, b.page * pool.pageSize + b.index * CACHELINE_BYTES;
    DivMod(x, a.page, pool.pageSize, a.index * CACHELINE_BYTES);
    DivMod(y, b.page, pool.pageSize, b.index * CACHELINE_BYTES);
  }

  /** The histogram rebuilt from a collected set has the quota on the requested classes and zero elsewhere. */
  lemma CollectedHistogram(
    addresses: seq<nat>, visit: seq<Line>, pool: Pool, masks: seq<Vec>, classes: seq<nat>, quota: nat, space: nat)
    requires GoodPageSize(pool.pageSize)
    requires forall line :: line in visit ==> line.page < |pool.pfns| && line.index * CACHELINE_BYTES < pool.pageSize
    requires FirstLines(addresses, visit, FastClass(masks, pool), pool, classes, quota)
    requires Distinct(classes) && forall c :: c in classes ==> c < space
    ensures Classified(addresses, Rebuilt(pool, masks), space)
    ensures forall c: nat ::
            multiset(ClassList(addresses, Rebuilt(pool, masks)))[c] == if c in classes then quota else 0
  {
    CollectedClasses(addresses, visit, pool, masks, classes, quota);
    assert ClassList(addresses, Rebuilt(pool, masks)) == BlockClasses(classes, quota);
    forall i | 0 <= i < |addresses|
      ensures BlockClasses(classes, quota)[i] in classes
    {
      var slot, k := SplitPosition(i, |classes|, quota);
      BlockClassesAt(classes, quota, slot, k);
    }
    forall c: nat
      ensures multiset(BlockClasses(classes, quota))[c] == if c in classes then quota else 0
    {
      BlockClassesCount(classes, quota, c);
    }
  }

  // ----- The level

  /** Collects from one pool and rebuilds the histogram; eligible classes never run short. */
  method CollectAndCount(
    rng: Generator, pool: Pool, masks: seq<Vec>, table: seq<nat>, classes: seq<nat>, quota: nat, pageSeed: nat,
    lineSeed: nat,
    group: nat, ghost counts: seq<seq<nat>>, ghost p: nat)
    returns (addresses: seq<nat>, histogram: seq<nat>)
    requires GoodPageSize(pool.pageSize) && |table| * CACHELINE_BYTES == pool.pageSize && OffsetTable(masks, table)
    requires p < |counts| && |counts[p]| == Pow2(|masks|)
    requires CountsOf(counts[p], NaturalVisit(pool, |table|), FastClass(masks, pool))
    requires |classes| == group > 0 && quota > 0
    requires Distinct(classes) && forall c :: c in classes ==> c < Pow2(|masks|) && Eligible(counts, quota, c)
    ensures Distinct(addresses) && |addresses| == group * quota
    ensures FirstLines(addresses, VisitOrder(rng, pool, |table|, pageSeed, lineSeed), FastClass(masks, pool), pool,
            classes, quota)
    ensures |histogram| == Pow2(|masks|) && ExactHistogram(histogram, classes, quota)
  {
    ghost var visit := VisitOrder(rng, pool, |table|, pageSeed, lineSeed);
    ghost var cls := FastClass(masks, pool);
    VisitOrderLines(rng, pool, |table|, pageSeed, lineSeed);
    EligibleCollectable(rng, pool, |table|, pageSeed, lineSeed, counts, p, cls, classes, quota);
    var collected := CollectLineSet(rng, pool, masks, table, classes, quota, pageSeed, lineSeed);
    addresses := collected.value;
    CollectedHistogram(addresses, visit, pool, masks, classes, quota, Pow2(|masks|));
    SelectionDistinct(visit, cls, pool, quota, addresses, classes);
    var counted := new nat[Pow2(|masks|)];
    var ok := BuildHistogram(addresses, pool, masks, counted);
    histogram := counted[..];
  }

  /** How many lines of each class the pool has. */
  ghost function PoolCounts(pool: Pool, masks: seq<Vec>, lines: nat): seq<nat> {
    seq(Pow2(|masks|), c requires 0 <= c < Pow2(|masks|) => |OfClass(NaturalVisit(pool, lines),
        FastClass(masks, pool), c)|)
  }

  method CountPool(pool: Pool, masks: seq<Vec>, table: seq<nat>) returns (counts: seq<nat>)
    requires OffsetTable(masks, table)
    ensures counts == PoolCounts(pool, masks, |table|)
    ensures CountsOf(counts, NaturalVisit(pool, |table|), FastClass(masks, pool))
  {
    var counted := new nat[Pow2(|masks|)];
    CountLineClasses(pool, masks, table, counted);
    counts := counted[..];
  }

  /** What the structural overlap check demands of two rebuilt histograms. */
  ghost predicate LevelPasses(victim: seq<nat>, other: seq<nat>, group: nat, quota: nat, shared: nat)
    requires shared <= group
  {
    && Sum(UsedAt(victim), |victim|) == group && Sum(UsedAt(other), |other|) == group
    && Sum(SharedAt(victim, other), |victim|) == shared
    && Sum(MinAt(victim, other), |victim|) == shared * quota
    && Sum(MaxAt(victim, other), |victim|) == (2 * group - shared) * quota
  }

  /** The structural overlap check on two histograms, and their weighted overlap. */
  method CheckLevel(victim: seq<nat>, other: seq<nat>, group: nat, quota: nat, shared: nat)
      returns (ok: bool, jaccard: real)
    requires |victim| == |other| && shared <= group
    ensures ok <==> LevelPasses(victim, other, group, quota, shared)
    ensures var union := Sum(MaxAt(victim, other), |victim|);
            jaccard == if union == 0 then 0.0 else Sum(MinAt(victim, other), |victim|) as real / union as real
  {
    var uniqueVictim := UniqueClasses(victim);
    var uniqueOther := UniqueClasses(other);
    var intersection, union, j := HistogramJaccard(victim, other);
    var actualShared := SharedClasses(victim, other);
    jaccard := j;
    ok := uniqueVictim == group && uniqueOther == group && actualShared == shared
          && intersection == shared * quota && union == (2 * group - shared) * quota;
  }

  /** Histograms rebuilt from collected line sets always pass, and their overlap is the one requested. */
  lemma CollectedLevelPasses(victim: seq<nat>, other: seq<nat>, sets: ClassSets, group: nat, quota: nat, shared: nat)
    requires LevelHistograms(victim, other, sets, shared, quota) && |sets.victim| == group > 0
    ensures LevelPasses(victim, other, group, quota, shared)
    ensures Sum(MaxAt(victim, other), |victim|) > 0
    ensures Sum(MinAt(victim, other), |victim|) as real / Sum(MaxAt(victim, other), |victim|) as real
            == Requested(group, shared)
  {
    OverlapTotals(victim, other, sets, shared, quota);
    QuotaCancels(shared, 2 * group - shared, quota);
  }

  /** The check never fails on collected line sets. */
  method CheckCollected(victim: seq<nat>, other: seq<nat>, group: nat, quota: nat, shared: nat, ghost sets: ClassSets)
    returns (ok: bool, overlap: real)
    requires LevelHistograms(victim, other, sets, shared, quota) && |sets.victim| == group > 0
    ensures ok && overlap == Requested(group, shared)
  {
    ok, overlap := CheckLevel(victim, other, group, quota, shared);
    CollectedLevelPasses(victim, other, sets, group, quota, shared);
  }

  /** The overlap asked for. */
  function Requested(group: nat, shared: nat): real
    requires 0 < group && shared <= group
  {
    shared as real / (2 * group - shared) as real
  }

  function RequestedAll(group: nat, shared: seq<nat>): seq<real>
    requires 0 < group && forall i :: 0 <= i < |shared| ==> shared[i] <= group
  {
    if shared == [] then [] else RequestedAll(group, shared[..|shared| - 1]) + [Requested(group, shared[|shared| - 1])]
  }

  /** Every class set is chosen among the classes eligible in all pools. */
  ghost predicate EnoughClasses(pools: seq<Pool>, masks: seq<Vec>, group: nat, quota: nat)
    requires forall p :: 0 <= p < |pools| ==> GoodPageSize(pools[p].pageSize)
  {
    |EligibleClasses(AllCounts(pools, masks), quota, Pow2(|masks|))| >= 2 * group
  }

  ghost function AllCounts(pools: seq<Pool>, masks: seq<Vec>): seq<seq<nat>> {
    seq(|pools|, p requires 0 <= p < |pools| => PoolCounts(pools[p], masks, pools[p].pageSize / CACHELINE_BYTES))
  }

  method CountPools(pools: seq<Pool>, masks: seq<Vec>, table: seq<nat>) returns (counts: seq<seq<nat>>)
    requires OffsetTable(masks, table) && forall p :: 0 <= p < |pools| ==>
             |table| == pools[p].pageSize / CACHELINE_BYTES
    ensures counts == AllCounts(pools, masks)
  {
    counts := [];
    for p := 0 to |pools|
      invariant |counts| == p && forall k :: 0 <= k < p ==> counts[k] == PoolCounts(pools[k], masks, |table|)
    {
      var counted := CountPool(pools[p], masks, table);
      counts := counts + [counted];
    }
  }

  lemma CountsRight(pools: seq<Pool>, masks: seq<Vec>, p: nat, lines: nat)
    requires p < |pools| && lines == pools[p].pageSize / CACHELINE_BYTES
    ensures |AllCounts(pools, masks)[p]| == Pow2(|masks|)
    ensures CountsOf(AllCounts(pools, masks)[p], NaturalVisit(pools[p], lines), FastClass(masks, pools[p]))
  {
  }

  datatype SweepResult =
    | NotEnoughClasses
    | Rejected
    | Accepted(sets: ClassSets, victim: seq<nat>, others: seq<seq<nat>>, overlaps: seq<real>)

  /** The shared classes of candidate `i` of the control experiment. */
  function CandidateShared(i: nat, group: nat): (shared: nat)
    ensures shared <= group
  {
    match i
    case 0 => 0
    case 1 => group / 4
    case 2 => group / 2
    case 3 => group * 3 / 4
    case 4 => group
    case _ => 0
  }

  /** The five candidates share none, a quarter, a half, three quarters and all of the group. */
  lemma SharedQuarters(i: nat, group: nat)
    requires i < 5
    ensures CandidateShared(i, group) == i * group / 4
  {
  }

  /** The lines selected from a pool: for each class the first in the visiting order that the seeds determine. */
  ghost predicate PoolLines(
    lines: seq<nat>, rng: Generator, pool: Pool, masks: seq<Vec>, classes: seq<nat>, quota: nat, seeds: (nat, nat))
  {
    && |lines| == |classes| * quota && Distinct(lines)
    && FirstLines(lines, VisitOrder(rng, pool, pool.pageSize / CACHELINE_BYTES, seeds.0, seeds.1),
        FastClass(masks, pool), pool, classes, quota)
  }

  /** What all levels have in common. */
  ghost predicate Prepared(pools: seq<Pool>, masks: seq<Vec>, table: seq<nat>, sets: ClassSets, group: nat,
      quota: nat) {
    && OffsetTable(masks, table) && group > 0 && quota > 0 && |sets.victim| == group
    && (forall p :: 0 <= p < |pools| ==>
        GoodPageSize(pools[p].pageSize) && |table| * CACHELINE_BYTES == pools[p].pageSize)
    && GoodSets(sets, Pow2(|masks|))
    && forall c :: c in sets.victim + sets.disjoint ==> Eligible(AllCounts(pools, masks), quota, c)
  }

  /** Collects the lines of one level from its pool and rebuilds the histogram. */
  method CollectLevel(
    rng: Generator, pools: seq<Pool>, p: nat, masks: seq<Vec>, table: seq<nat>, sets: ClassSets, group: nat, quota: nat,
    shared: nat, seeds: (nat, nat))
    returns (lines: seq<nat>, histogram: seq<nat>)
    requires p < |pools| && Prepared(pools, masks, table, sets, group, quota) && shared <= group
    ensures PoolLines(lines, rng, pools[p], masks, OverlapClasses(sets, shared), quota, seeds)
    ensures |histogram| == Pow2(|masks|) && ExactHistogram(histogram, OverlapClasses(sets, shared), quota)
  {
    var classes := BuildOverlapClasses(sets, shared);
    GoodSetsMembers(sets, shared, Pow2(|masks|));
    LevelClasses(sets, shared, AllCounts(pools, masks), Pow2(|masks|), quota);
    CountsRight(pools, masks, p, |table|);
    lines, histogram := CollectAndCount(
      rng, pools[p], masks, table, classes.value, quota, seeds.0, seeds.1, group, AllCounts(pools, masks), p);
  }

  /** Collects one level and checks its histogram against the victim's. */
  method RunLevel(
    rng: Generator, pools: seq<Pool>, p: nat, masks: seq<Vec>, table: seq<nat>, sets: ClassSets, victimHist: seq<nat>,
    group: nat, quota: nat, shared: nat, seeds: (nat, nat))
    returns (ok: bool, lines: seq<nat>, overlap: real)
    requires p < |pools| && Prepared(pools, masks, table, sets, group, quota) && shared <= group
    requires |victimHist| == Pow2(|masks|) && ExactHistogram(victimHist, sets.victim, quota)
    ensures ok && overlap == Requested(group, shared)
    ensures PoolLines(lines, rng, pools[p], masks, OverlapClasses(sets, shared), quota, seeds)
  {
    var histogram;
    lines, histogram := CollectLevel(rng, pools, p, masks, table, sets, group, quota, shared, seeds);
    ok, overlap := CheckCollected(victimHist, histogram, group, quota, shared, sets);
  }

  /** The lines of the levels after the victim's, level by level, each from the next pool. */
  ghost predicate LevelLines(
    others: seq<seq<nat>>, rng: Generator, pools: seq<Pool>, masks: seq<Vec>, sets: ClassSets, quota: nat,
    shared: seq<nat>, seeds: seq<(nat, nat)>)
    requires |others| <= |shared| && |pools| == |seeds| == |shared| + 1 && |sets.victim| == |sets.disjoint|
    requires forall i :: 0 <= i < |shared| ==> shared[i] <= |sets.victim|
  {
    others == [] ||
    var n := |others| - 1;
    && LevelLines(others[..n], rng, pools, masks, sets, quota, shared, seeds)
    && PoolLines(others[n], rng, pools[n + 1], masks, OverlapClasses(sets, shared[n]), quota, seeds[n + 1])
  }

  lemma {:induction false} LevelLinesAt(
    others: seq<seq<nat>>, rng: Generator, pools: seq<Pool>, masks: seq<Vec>, sets: ClassSets, quota: nat,
    shared: seq<nat>,
    seeds: seq<(nat, nat)>, i: nat)
    requires i < |others| <= |shared| && |pools| == |seeds| == |shared| + 1 && |sets.victim| == |sets.disjoint|
    requires forall i :: 0 <= i < |shared| ==> shared[i] <= |sets.victim|
    requires LevelLines(others, rng, pools, masks, sets, quota, shared, seeds)
    ensures PoolLines(others[i], rng, pools[i + 1], masks, OverlapClasses(sets, shared[i]), quota, seeds[i + 1])
  {
    if i < |others| - 1 {
      LevelLinesAt(others[..|others| - 1], rng, pools, masks, sets, quota, shared, seeds, i);
    }
  }

  /** Two levels drawn from the same pool with the same seeds select the same lines for a class they share. */
  lemma SharedClassKeepsLines(
    others: seq<seq<nat>>, rng: Generator, pools: seq<Pool>, masks: seq<Vec>, sets: ClassSets, quota: nat,
    shared: seq<nat>,
    seeds: seq<(nat, nat)>, i: nat, j: nat, slot: nat, slot': nat, k: nat)
    requires i < |others| && j < |others| <= |shared| && |pools| == |seeds| == |shared| + 1
             && |sets.victim| == |sets.disjoint|
    requires forall i :: 0 <= i < |shared| ==> shared[i] <= |sets.victim|
    requires LevelLines(others, rng, pools, masks, sets, quota, shared, seeds)
    requires pools[i + 1] == pools[j + 1] && seeds[i + 1] == seeds[j + 1] && k < quota
    requires slot < |OverlapClasses(sets, shared[i])| && slot' < |OverlapClasses(sets, shared[j])|
    requires OverlapClasses(sets, shared[i])[slot] == OverlapClasses(sets, shared[j])[slot']
    ensures Position(slot, k, quota) < |others[i]| && Position(slot', k, quota) < |others[j]|
    ensures others[i][Position(slot, k, quota)] == others[j][Position(slot', k, quota)]
  {
    LevelLinesAt(others, rng, pools, masks, sets, quota, shared, seeds, i);
    LevelLinesAt(others, rng, pools, masks, sets, quota, shared, seeds, j);
    var pool := pools[i + 1];
    SelectionStable(
      VisitOrder(rng, pool, pool.pageSize / CACHELINE_BYTES, seeds[i + 1].0, seeds[i + 1].1), FastClass(masks, pool),
      pool, quota, k,
      others[i], OverlapClasses(sets, shared[i]), slot, others[j], OverlapClasses(sets, shared[j]), slot');
  }

  /** Collects and checks every level after the victim's. */
  method RunLevels(
    rng: Generator, pools: seq<Pool>, masks: seq<Vec>, table: seq<nat>, sets: ClassSets, victimHist: seq<nat>,
    group: nat, quota: nat,
    shared: seq<nat>, seeds: seq<(nat, nat)>)
    returns (ok: bool, others: seq<seq<nat>>, overlaps: seq<real>)
    requires |pools| == |seeds| == |shared| + 1 && Prepared(pools, masks, table, sets, group, quota)
    requires forall i :: 0 <= i < |shared| ==> shared[i] <= group
    requires |victimHist| == Pow2(|masks|) && ExactHistogram(victimHist, sets.victim, quota)
    ensures ok && |others| == |shared| && overlaps == RequestedAll(group, shared)
    ensures LevelLines(others, rng, pools, masks, sets, quota, shared, seeds)
  {
    others, overlaps := [], [];
    for i := 0 to |shared|
      invariant |others| == i && overlaps == RequestedAll(group, shared[..i])
      invariant LevelLines(others, rng, pools, masks, sets, quota, shared, seeds)
    {
      var passes, lines, overlap := RunLevel(
        rng, pools, i + 1, masks, table, sets, victimHist, group, quota, shared[i], seeds[i + 1]);
      if !passes {
        return false, others, overlaps;
      }
      assert shared[..i + 1][..i] == shared[..i] && (others + [lines])[..i] == others;
      others, overlaps := others + [lines], overlaps + [overlap];
    }
    assert shared[..|shared|] == shared;
    ok := true;
  }

  /** Counts all pools, chooses the class sets, collects the victim's lines from the first pool and those of every
      other pool at its level of overlap, and checks the rebuilt histograms.  Runs are accepted exactly when enough
      classes are eligible in all pools; the structural overlap check never rejects one. */
  method RunSweep(
    rng: Generator, pools: seq<Pool>, masks: seq<Vec>, group: nat, quota: nat, shared: seq<nat>, choiceSeed: nat,
    seeds: seq<(nat, nat)>)
    returns (r: SweepResult)
    requires |pools| == |seeds| == |shared| + 1 && group > 0 && quota > 0
    requires forall p :: 0 <= p < |pools| ==> pools[p].pageSize == pools[0].pageSize && GoodPageSize(pools[p].pageSize)
    requires forall i :: 0 <= i < |shared| ==> shared[i] <= group
    ensures !r.Rejected? && (r.Accepted? <==> EnoughClasses(pools, masks, group, quota))
    ensures r.Accepted? ==>
              && r.sets.victim + r.sets.disjoint
                 == Shuffled(rng, EligibleClasses(AllCounts(pools, masks), quota, Pow2(|masks|)),
                     choiceSeed)[..2 * group]
              && |r.sets.victim| == |r.sets.disjoint| == group
              && PoolLines(r.victim, rng, pools[0], masks, r.sets.victim, quota, seeds[0])
              && |r.others| == |shared|
              && r.overlaps == RequestedAll(group, shared)
              && LevelLines(r.others, rng, pools, masks, r.sets, quota, shared, seeds)
  {
    var offsets := BuildOffsetClasses(masks, pools[0].pageSize);
    var table := offsets.value;
    var counts := CountPools(pools, masks, table);
    var chosen := ChooseClassSets(rng, counts, Pow2(|masks|), group, quota, choiceSeed);
    if chosen.None? {
      return NotEnoughClasses;
    }
    var sets := chosen.value;
    assert OverlapClasses(sets, group) == sets.victim;
    var victim, victimHist := CollectLevel(rng, pools, 0, masks, table, sets, group, quota, group, seeds[0]);
    var ok, others, overlaps := RunLevels(rng, pools, masks, table, sets, victimHist, group, quota, shared, seeds);
    r := if ok then Accepted(sets, victim, others, overlaps) else Rejected;
  }

  lemma QuotaCancels(m: nat, n: nat, quota: nat)
    requires n > 0 && quota > 0
    ensures n * quota > 0
    ensures (m * quota) as real / (n * quota) as real == m as real / n as real
  {
    var a, b, q := m as real, n as real, quota as real;
    assert (m * quota) as real == a * q && (n * quota) as real == b * q;
    assert a * q == (a / b) * (b * q);
  }

  lemma LevelClasses(sets: ClassSets, shared: nat, counts: seq<seq<nat>>, space: nat, quota: nat)
    requires GoodSets(sets, space) && 0 < |sets.victim| && shared <= |sets.victim|
    requires forall c :: c in sets.victim + sets.disjoint ==> Eligible(counts, quota, c)
    ensures OverlapClasses(sets, shared) != [] && |OverlapClasses(sets, shared)| == |sets.victim|
    ensures forall c :: c in sets.victim || c in OverlapClasses(sets, shared) ==>
            c < space && Eligible(counts, quota, c)
  {
    var both := sets.victim + sets.disjoint;
    assert forall c :: c in sets.victim ==> c in both;
    assert forall c :: c in sets.disjoint ==> c in both;
    assert forall c :: c in sets.victim[..shared] ==> c in sets.victim;
    assert forall c :: c in sets.disjoint[..|sets.victim| - shared] ==> c in sets.disjoint;
  }
}
