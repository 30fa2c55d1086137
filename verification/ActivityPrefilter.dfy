/** The cheap first screening: the K most active processes go on to bank profiling. */
module ActivityPrefilter {
  import opened FiniteSets
  import opened Sorting

  datatype Sample = Sample(valid: bool, pid: int, state: char, rssPages: int)

  datatype Delta = Delta(
    valid: bool, pid: int, cpuTicks: nat, minorFaults: nat, majorFaults: nat, cpuScore: real, faultScore: real,
    rssScore: real)

  datatype Observation = Observation(pid: int, sample: Sample, delta: Delta)

  datatype Config = Config(maxCandidates: nat, minRssPages: nat)

  datatype Candidate = Candidate(pid: int, score: real, delta: Delta)

  datatype Stats = Stats(
    observations: nat, valid: nat, zombie: nat, smallRss: nat, noSignal: nat, eligible: nat, selected: nat)

  datatype Rc = Ok | NoSpace

  function Max3(a: real, b: real, c: real): (m: real)
    ensures m >= a && m >= b && m >= c && (m == a || m == b || m == c)
  {
    var m := if b > a then b else a;
    if c > m then c else m
  }

  predicate ValidObservation(o: Observation) {
    o.pid > 0 && o.sample.valid && o.delta.valid && o.sample.pid == o.pid && o.delta.pid == o.pid
  }

  predicate HasSignal(o: Observation) {
    o.delta.cpuTicks > 0 || o.delta.minorFaults > 0 || o.delta.majorFaults > 0 || o.sample.state == 'R'
        || o.sample.state == 'D'
  }

  predicate SmallRss(cfg: Config, o: Observation) {
    o.sample.rssPages <= 0 || o.sample.rssPages < cfg.minRssPages
  }

  predicate IsEligible(cfg: Config, o: Observation) {
    ValidObservation(o) && o.sample.state != 'Z' && !SmallRss(cfg, o) && HasSignal(o)
  }

  function CandidateOf(o: Observation): Candidate {
    Candidate(o.pid, Max3(o.delta.cpuScore, o.delta.faultScore, o.delta.rssScore), o.delta)
  }

  /** The order of the ranking: higher scores first, then lower pids. */
  predicate Before(a: Candidate, b: Candidate) {
    a.score > b.score || (a.score == b.score && a.pid <= b.pid)
  }

  type Accepts = Observation -> bool

  /** The observations a test accepts. */
  function Where(observations: seq<Observation>, accepts: Accepts): seq<Observation> {
    if observations == [] then []
    else
      var n := |observations| - 1;
      Where(observations[..n], accepts) + if accepts(observations[n]) then [observations[n]] else []
  }

  function Candidates(observations: seq<Observation>): seq<Candidate> {
    seq(|observations|, i requires 0 <= i < |observations| => CandidateOf(observations[i]))
  }

  /** All eligible candidates, in order of observation. */
  function Screened(cfg: Config, observations: seq<Observation>): seq<Candidate> {
    Candidates(Where(observations, o => IsEligible(cfg, o)))
  }

  /** How many candidates are wanted; a limit of zero means all. */
  function Wanted(cfg: Config, eligible: nat): nat {
    if cfg.maxCandidates > 0 && eligible > cfg.maxCandidates then cfg.maxCandidates else eligible
  }

  function TopK(cfg: Config, observations: seq<Observation>): seq<Candidate> {
    var ranked := Sort(Screened(cfg, observations), Before);
    if Wanted(cfg, |Screened(cfg, observations)|) <= |ranked|
        then ranked[..Wanted(cfg, |Screened(cfg, observations)|)] else ranked
  }

  lemma BeforeIsTotal()
    ensures TotalPreorder(Before)
  {
  }

  lemma RankedLength(s: seq<Candidate>)
    ensures |Sort(s, Before)| == |s|
  {
    BeforeIsTotal();
    SortCorrect(s, Before);
    assert |multiset(Sort(s, Before))| == |multiset(s)|;
  }

  /** A prefix of a sorted sequence is sorted, and nothing left out comes before anything in it. */
  lemma PrefixBest<T(!new)>(all: multiset<T>, ranked: seq<T>, k: nat, leq: (T, T) -> bool)
    requires multiset(ranked) == all && Sorted(ranked, leq) && k <= |ranked|
    ensures Sorted(ranked[..k], leq) && multiset(ranked[..k]) <= all
    ensures forall kept, dropped :: kept in ranked[..k] && dropped in all - multiset(ranked[..k]) ==> leq(kept, dropped)
  {
    var top, rest := ranked[..k], ranked[k..];
    assert ranked == top + rest;
    assert all - multiset(top) == multiset(rest);
    forall kept, dropped | kept in top && dropped in all - multiset(top)
      ensures leq(kept, dropped)
    {
      assert dropped in rest;
      var i :| 0 <= i < |top| && top[i] == kept;
      var j :| 0 <= j < |rest| && rest[j] == dropped;
      assert ranked[i] == kept && ranked[k + j] == dropped;
    }
  }

  /** The selection goes from higher scores to lower, and at equal scores from lower pids to higher; it is taken from
      the eligible candidates, it is as long as the limit allows, zero meaning no limit, and no eligible candidate left
      out has a higher score, or an equal score and a lower pid, than one of those selected. */
  lemma TopKBest(cfg: Config, observations: seq<Observation>)
    ensures var top, all := TopK(cfg, observations), Screened(cfg, observations);
            && |top| == (if cfg.maxCandidates == 0 || |all| < cfg.maxCandidates then |all| else cfg.maxCandidates)
            && (forall i, j :: 0 <= i < j < |top| ==>
                  top[i].score > top[j].score || (top[i].score == top[j].score && top[i].pid <= top[j].pid))
            && multiset(top) <= multiset(all)
            && (forall kept, dropped :: kept in top && dropped in multiset(all) - multiset(top) ==>
                  kept.score > dropped.score || (kept.score == dropped.score && kept.pid <= dropped.pid))
  {
    TopKRanked(cfg, observations);
  }

  lemma TopKRanked(cfg: Config, observations: seq<Observation>)
    ensures var top, all := TopK(cfg, observations), Screened(cfg, observations);
            && |top| == Wanted(cfg, |all|) && multiset(top) <= multiset(all)
            && (forall i, j :: 0 <= i < j < |top| ==> Before(top[i], top[j]))
            && forall kept, dropped :: kept in top && dropped in multiset(all) - multiset(top) ==> Before(kept, dropped)
  {
    var all := Screened(cfg, observations);
    BeforeIsTotal();
    SortCorrect(all, Before);
    RankedLength(all);
    PrefixBest(multiset(all), Sort(all, Before), Wanted(cfg, |all|), Before);
  }

  // ----- Which observations are screened in

  /** The observation is whole and about one live pid. */
  predicate Sound(o: Observation) {
    o.sample.valid && o.delta.valid && o.pid > 0 && o.pid == o.sample.pid == o.delta.pid
  }

  predicate LargeEnough(cfg: Config, o: Observation) {
    o.sample.rssPages >= 1 && o.sample.rssPages >= cfg.minRssPages
  }

  /** The process used the processor, faulted, or is running or waiting for the disk. */
  predicate ShowsActivity(o: Observation) {
    o.delta.cpuTicks + o.delta.minorFaults + o.delta.majorFaults != 0 || o.sample.state in {'R', 'D'}
  }

  predicate Passes(cfg: Config, o: Observation) {
    Sound(o) && o.sample.state != 'Z' && LargeEnough(cfg, o) && ShowsActivity(o)
  }

  /** The candidate made of an observation: its score is the highest of the three. */
  predicate MadeOf(c: Candidate, o: Observation) {
    && c.pid == o.pid && c.delta == o.delta
    && c.score >= o.delta.cpuScore && c.score >= o.delta.faultScore && c.score >= o.delta.rssScore
    && c.score in {o.delta.cpuScore, o.delta.faultScore, o.delta.rssScore}
  }

  /** The eligible candidates are made of exactly the observations that pass, in order. */
  lemma {:induction false} ScreenedAre(cfg: Config, observations: seq<Observation>) returns (at: seq<nat>)
    ensures |at| == |Screened(cfg, observations)| && forall i, j :: 0 <= i < j < |at| ==> at[i] < at[j]
    ensures forall i: nat :: i in at <==> i < |observations| && Passes(cfg, observations[i])
    ensures forall k :: 0 <= k < |at| ==>
              at[k] < |observations| && MadeOf(Screened(cfg, observations)[k], observations[at[k]])
  {
    if observations == [] {
      at := [];
    } else {
      var n := |observations| - 1;
      at := ScreenedAre(cfg, observations[..n]);
      if Passes(cfg, observations[n]) {
        at := at + [n];
      }
    }
  }

  lemma {:induction false} WherePassing(observations: seq<Observation>, accepts: Accepts)
    ensures |Where(observations, accepts)| == |Passing(observations, accepts)|
  {
    if observations == [] {
      assert Passing(observations, accepts) == {};
    } else {
      var n := |observations| - 1;
      WherePassing(observations[..n], accepts);
      PassingStep(observations, n, accepts);
      assert observations[..n + 1] == observations;
    }
  }

  lemma SamePassing(observations: seq<Observation>, accepts: Accepts, accepts': Accepts)
    requires forall o :: accepts(o) <==> accepts'(o)
    ensures |Where(observations, accepts)| == |Passing(observations, accepts')|
  {
    WherePassing(observations, accepts);
    assert Passing(observations, accepts) == Passing(observations, accepts');
  }

  /** What the counters count. */
  lemma CountedAre(cfg: Config, observations: seq<Observation>, stats: Stats)
    requires Counted(cfg, observations, stats)
    ensures stats.valid == |Passing(observations, o => Sound(o))|
    ensures stats.zombie == |Passing(observations, o => Sound(o) && o.sample.state == 'Z')|
    ensures stats.smallRss == |Passing(observations, o => Sound(o) && o.sample.state != 'Z' && !LargeEnough(cfg, o))|
    ensures stats.noSignal
         == |Passing(observations,
               o => Sound(o) && o.sample.state != 'Z' && LargeEnough(cfg, o) && !ShowsActivity(o))|
  {
    SamePassing(observations, ValidObservation, o => Sound(o));
    SamePassing(observations, o => IsZombie(o), o => Sound(o) && o.sample.state == 'Z');
    SamePassing(observations, o => IsSmall(cfg, o),
      o => Sound(o) && o.sample.state != 'Z' && !LargeEnough(cfg, o));
    SamePassing(observations, o => IsIdle(cfg, o),
      o => Sound(o) && o.sample.state != 'Z' && LargeEnough(cfg, o) && !ShowsActivity(o));
  }

  /** Every eligible observation is screened in as often as it occurs, and nothing else is. */
  lemma {:induction false} WhereCounts(observations: seq<Observation>, accepts: Accepts)
    ensures forall o :: multiset(Where(observations, accepts))[o] == if accepts(o) then multiset(observations)[o] else 0
  {
    if observations != [] {
      var n := |observations| - 1;
      WhereCounts(observations[..n], accepts);
      assert observations == observations[..n] + [observations[n]];
    }
  }

  /** An observation falls into exactly one class. */
  lemma {:induction false} ClassesPartition(cfg: Config, observations: seq<Observation>)
    ensures |Where(observations, ValidObservation)|
         == |Where(observations, o => IsZombie(o))| + |Where(observations, o => IsSmall(cfg, o))|
          + |Where(observations, o => IsIdle(cfg, o))| + |Where(observations, o => IsEligible(cfg, o))|
  {
    if observations != [] {
      ClassesPartition(cfg, observations[..|observations| - 1]);
    }
  }

  predicate IsZombie(o: Observation) {
    ValidObservation(o) && o.sample.state == 'Z'
  }

  predicate IsSmall(cfg: Config, o: Observation) {
    ValidObservation(o) && o.sample.state != 'Z' && SmallRss(cfg, o)
  }

  predicate IsIdle(cfg: Config, o: Observation) {
    ValidObservation(o) && o.sample.state != 'Z' && !SmallRss(cfg, o) && !HasSignal(o)
  }

  /** The counters say how many observations fell into each class. */
  ghost predicate Counted(cfg: Config, observations: seq<Observation>, stats: Stats) {
    && stats.valid == |Where(observations, ValidObservation)|
    && stats.zombie == |Where(observations, o => IsZombie(o))|
    && stats.smallRss == |Where(observations, o => IsSmall(cfg, o))|
    && stats.noSignal == |Where(observations, o => IsIdle(cfg, o))|
  }

  /** One pass over the observations. */
  method Screen(observations: seq<Observation>, cfg: Config) returns (eligible: seq<Candidate>, stats: Stats)
    ensures eligible == Screened(cfg, observations) && Counted(cfg, observations, stats)
    ensures stats.observations == |observations| && stats.eligible == stats.selected == 0
  {
    eligible, stats := [], Stats(|observations|, 0, 0, 0, 0, 0, 0);
    for i := 0 to |observations|
      invariant eligible == Screened(cfg, observations[..i]) && Counted(cfg, observations[..i], stats)
      invariant stats.observations == |observations| && stats.eligible == stats.selected == 0
    {
      var o := observations[i];
      assert observations[..i + 1][..i] == observations[..i];
      if !ValidObservation(o) {
        continue;
      }
      stats := stats.(valid := stats.valid + 1);
      if o.sample.state == 'Z' {
        stats := stats.(zombie := stats.zombie + 1);
        continue;
      }
      if o.sample.rssPages <= 0 || o.sample.rssPages < cfg.minRssPages {
        stats := stats.(smallRss := stats.smallRss + 1);
        continue;
      }
      if !HasSignal(o) {
        stats := stats.(noSignal := stats.noSignal + 1);
        continue;
      }
      eligible := eligible + [CandidateOf(o)];
    }
    assert observations[..|observations|] == observations;
  }

  /** Writes the selection to `out`, or nothing at all when it does not fit. */
  method SelectTopK(observations: seq<Observation>, cfg: Config, out: array<Candidate>)
      returns (rc: Rc, count: nat, stats: Stats)
    modifies out
    ensures var top := TopK(cfg, observations);
            && rc == (if out.Length < |top| then NoSpace else Ok)
            && count == (if rc == Ok then |top| else 0) && stats.selected == count <= out.Length
            && out[..count] == (if rc == Ok then top else []) && out[count..] == old(out[count..])
    ensures Counted(cfg, observations, stats) && stats.eligible == |Screened(cfg, observations)|
            && stats.observations == |observations|
    ensures stats.valid == stats.zombie + stats.smallRss + stats.noSignal + stats.eligible
  {
    var eligible;
    eligible, stats := Screen(observations, cfg);
    ClassesPartition(cfg, observations);
    RankedLength(eligible);
    var ranked := Sort(eligible, Before);
    stats := stats.(eligible := |eligible|);
    var selected := |eligible|;
    if cfg.maxCandidates > 0 && selected > cfg.maxCandidates {
      selected := cfg.maxCandidates;
    }
    if out.Length < selected {
      return NoSpace, 0, stats;
    }
    for i := 0 to selected
      invariant out[..i] == ranked[..i] && out[selected..] == old(out[selected..])
    {
      out[i] := ranked[i];
    }
    return Ok, selected, stats.(selected := selected);
  }
}
