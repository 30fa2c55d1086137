/** Who is throttled and who is released, in one round and over whole runs, in terms of the records alone. */
module ThrottleLaws {
  import opened Options
  import opened ThrottleRecords
  import opened ThrottleController
  import opened ThrottleRuns
  import opened ProcessSlots
  import opened Histories

  // ----- Time

  const NS_PER_MS: nat := 1_000_000
  const LAST_NS: nat := 0xFFFF_FFFF_FFFF_FFFF

  /** So many milliseconds have passed since `start`; spans of more nanoseconds than fit in 64 bits count as the longest
      span that fits. */
  predicate Over(start: nat, ms: nat, now: nat) {
    start + (if ms * NS_PER_MS <= LAST_NS then ms * NS_PER_MS else LAST_NS) <= now
  }

  // ----- One round

  /** The process may be throttled: it is new, normal, or past its cooldown. */
  predicate Free(cfg: Config, m: Records, pid: int, now: nat) {
    pid in m ==> m[pid].state == Normal || (m[pid].state == Cooldown && Over(m[pid].entered, cfg.cooldownMs, now))
  }

  predicate IsThrottled(m: Records, pid: int) {
    pid in m && m[pid].state == State.Throttled
  }

  /** The detector asks for the process of the candidate to be throttled. */
  predicate Asks(cfg: Config, c: Candidate) {
    c.active && c.shouldThrottle && c.finalScore >= cfg.highScore
  }

  /** The move of the process takes effect, or no moves are made. */
  predicate Moves(cfg: Config, outcome: MoveOutcome, pid: int) {
    cfg.dryRun || outcome(pid)
  }

  /** The throttled process is due for release: it has been throttled for long enough, and its candidate has a low score
      or it has not been a candidate for long enough. */
  ghost predicate Due(cfg: Config, m: Records, candidates: seq<Candidate>, pid: int, now: nat) {
    && IsThrottled(m, pid) && Over(m[pid].entered, cfg.minThrottleMs, now)
    && if exists c :: c in candidates && c.pid == pid
       then exists c :: c in candidates && c.pid == pid && c.finalScore <= cfg.lowScore
       else Over(m[pid].lastSeen, cfg.staleMs, now)
  }

  /** The process of a candidate that is free ends up throttled exactly when the detector asks for it and the move
      succeeds. */
  lemma ThrottledIff(cfg: Config, m: Records, candidates: seq<Candidate>, now: nat, outcome: MoveOutcome, m': Records,
      c: Candidate)
    requires ValidCandidates(candidates) && Applied(cfg, m, candidates, now, outcome, m')
    requires c in candidates && Free(cfg, m, c.pid, now)
    ensures c.pid in m'
    ensures IsThrottled(m', c.pid) <==> Asks(cfg, c) && Moves(cfg, outcome, c.pid)
    ensures !IsThrottled(m', c.pid) ==> m'[c.pid].state == Normal
  {
    CandidateIs(candidates, c);
    assert Lookup(m', c.pid) == ApplyAt(cfg, m, candidates, now, outcome, c.pid).0;
  }

  lemma CandidateIs(candidates: seq<Candidate>, c: Candidate)
    requires ValidCandidates(candidates) && c in candidates
    ensures CandidateFor(candidates, c.pid) == Some(c)
    ensures forall d :: d in candidates && d.pid == c.pid ==> d == c
  {
    var i :| 0 <= i < |candidates| && candidates[i] == c;
    CandidateForAt(candidates, i);
  }

  lemma NoCandidate(candidates: seq<Candidate>, pid: int)
    requires !exists c :: c in candidates && c.pid == pid
    ensures CandidateFor(candidates, pid) == None && pid !in CandidatePids(candidates)
  {
    CandidateForNone(candidates, pid);
  }

  /** A throttled process stops being throttled exactly when it is due and the move succeeds; then its cooldown begins,
      and otherwise it has been throttled since the same time. */
  lemma ReleasedIff(cfg: Config, m: Records, candidates: seq<Candidate>, now: nat, outcome: MoveOutcome, m': Records,
      pid: int)
    requires ValidCandidates(candidates) && Applied(cfg, m, candidates, now, outcome, m') && IsThrottled(m, pid)
    ensures pid in m'
    ensures !IsThrottled(m', pid) <==> Due(cfg, m, candidates, pid, now) && Moves(cfg, outcome, pid)
    ensures if IsThrottled(m', pid) then m'[pid].entered == m[pid].entered
            else m'[pid].state == Cooldown && m'[pid].entered == now
  {
    if c :| c in candidates && c.pid == pid {
      CandidateIs(candidates, c);
    } else {
      NoCandidate(candidates, pid);
    }
    assert Lookup(m', pid) == ApplyAt(cfg, m, candidates, now, outcome, pid).0;
  }

  /** A process in its cooldown stays in it until the time is over. */
  lemma CooldownKept(cfg: Config, m: Records, candidates: seq<Candidate>, now: nat, outcome: MoveOutcome, m': Records,
      pid: int)
    requires ValidCandidates(candidates) && Applied(cfg, m, candidates, now, outcome, m')
    requires pid in m && m[pid].state == Cooldown && !Over(m[pid].entered, cfg.cooldownMs, now)
    ensures pid in m' && m'[pid].state == Cooldown && m'[pid].entered == m[pid].entered
  {
    if c :| c in candidates && c.pid == pid {
      CandidateIs(candidates, c);
    } else {
      NoCandidate(candidates, pid);
    }
    assert Lookup(m', pid) == ApplyAt(cfg, m, candidates, now, outcome, pid).0;
  }

  /** A process that no candidate names is never throttled, and a free one is normal afterwards; without a record it
      gets none. */
  lemma UnnamedNotThrottled(cfg: Config, m: Records, candidates: seq<Candidate>, now: nat, outcome: MoveOutcome,
      m': Records, pid: int)
    requires Applied(cfg, m, candidates, now, outcome, m') && !exists c :: c in candidates && c.pid == pid
    ensures pid in m' <==> pid in m
    ensures IsThrottled(m', pid) ==> IsThrottled(m, pid)
    ensures pid in m && Free(cfg, m, pid, now) ==> m'[pid].state == Normal
  {
    NoCandidate(candidates, pid);
    assert Lookup(m', pid) == ApplyAt(cfg, m, candidates, now, outcome, pid).0;
  }

  /** What a round remembers of a candidate: what the detector said, and when. */
  lemma Remembered(cfg: Config, m: Records, candidates: seq<Candidate>, now: nat, outcome: MoveOutcome, m': Records,
      c: Candidate)
    requires ValidCandidates(candidates) && Applied(cfg, m, candidates, now, outcome, m') && c in candidates
    ensures c.pid in m'
    ensures var r := m'[c.pid];
            && r.seen && r.lastSeen == now && r.firstSeen == (if c.pid in m then m[c.pid].firstSeen else now)
            && r.activity == c.activity && r.overlap == c.overlap && r.finalScore == c.finalScore
            && r.commonPages == c.commonPages && r.shouldThrottle == c.shouldThrottle
  {
    CandidateIs(candidates, c);
    assert Lookup(m', c.pid) == ApplyAt(cfg, m, candidates, now, outcome, c.pid).0;
  }

  /** Of a process that no candidate names, a round forgets nothing but the mark. */
  lemma NotForgotten(cfg: Config, m: Records, candidates: seq<Candidate>, now: nat, outcome: MoveOutcome, m': Records,
      pid: int)
    requires Applied(cfg, m, candidates, now, outcome, m') && pid in m && !exists c :: c in candidates && c.pid == pid
    ensures pid in m' && !m'[pid].seen
    ensures var r, r' := m[pid], m'[pid];
            && r'.lastSeen == r.lastSeen && r'.firstSeen == r.firstSeen && r'.activity == r.activity
            && r'.overlap == r.overlap && r'.finalScore == r.finalScore && r'.commonPages == r.commonPages
            && r'.shouldThrottle == r.shouldThrottle
  {
    NoCandidate(candidates, pid);
    assert Lookup(m', pid) == ApplyAt(cfg, m, candidates, now, outcome, pid).0;
  }

  /** A round stamps the records it throttles or releases with its time, and marks those whose move failed. */
  lemma Stamped(cfg: Config, m: Records, candidates: seq<Candidate>, now: nat, outcome: MoveOutcome, m': Records,
      pid: int)
    requires ValidCandidates(candidates) && Applied(cfg, m, candidates, now, outcome, m') && pid in m'
    ensures IsThrottled(m', pid) != IsThrottled(m, pid) ==>
              m'[pid].entered == m'[pid].lastAction == now && m'[pid].lastError == Ok
    ensures IsThrottled(m', pid) == IsThrottled(m, pid) ==>
              m'[pid].lastAction == if pid in m then m[pid].lastAction else 0
    ensures m'[pid].lastError == CgroupError ==>
              !Moves(cfg, outcome, pid) || (pid in m && m[pid].lastError == CgroupError)
  {
    if c :| c in candidates && c.pid == pid {
      CandidateIs(candidates, c);
    } else {
      NoCandidate(candidates, pid);
    }
    assert Lookup(m', pid) == ApplyAt(cfg, m, candidates, now, outcome, pid).0;
  }

  // ----- What a round does about each process

  ghost predicate Named(candidates: seq<Candidate>, pid: int) {
    exists c :: c in candidates && c.pid == pid
  }

  /** The detector asks for a process that is free. */
  ghost predicate Wanted(cfg: Config, m: Records, candidates: seq<Candidate>, pid: int, now: nat) {
    Free(cfg, m, pid, now) && exists c :: c in candidates && c.pid == pid && Asks(cfg, c)
  }

  /** Every action has its cause. */
  ghost predicate Explained(cfg: Config, m: Records, candidates: seq<Candidate>, now: nat, outcome: MoveOutcome,
      pid: int) {
    var a := ApplyAt(cfg, m, candidates, now, outcome, pid).1;
    var wanted, due := Wanted(cfg, m, candidates, pid, now), Due(cfg, m, candidates, pid, now);
    && (a == ThrottleDone <==> wanted && Moves(cfg, outcome, pid))
    && (a == ThrottleFailed <==> wanted && !Moves(cfg, outcome, pid))
    && (a == ReleaseDone(false) <==> due && Moves(cfg, outcome, pid) && Named(candidates, pid))
    && (a == ReleaseDone(true) <==> due && Moves(cfg, outcome, pid) && !Named(candidates, pid))
    && (a == ReleaseFailed <==> due && !Moves(cfg, outcome, pid))
    && (a == Kept <==> IsThrottled(m, pid) && !due)
    && (a == LowScore <==> Named(candidates, pid) && Free(cfg, m, pid, now) && !wanted)
    && (a == CoolingDown <==> Named(candidates, pid) && !Free(cfg, m, pid, now) && !IsThrottled(m, pid))
  }

  lemma Causes(cfg: Config, m: Records, candidates: seq<Candidate>, now: nat, outcome: MoveOutcome, pid: int)
    requires ValidCandidates(candidates)
    ensures Explained(cfg, m, candidates, now, outcome, pid)
  {
    if c :| c in candidates && c.pid == pid {
      CausesNamed(cfg, m, candidates, now, outcome, c);
    } else {
      CausesUnnamed(cfg, m, candidates, now, outcome, pid);
    }
  }

  lemma CausesNamed(cfg: Config, m: Records, candidates: seq<Candidate>, now: nat, outcome: MoveOutcome, c: Candidate)
    requires ValidCandidates(candidates) && c in candidates
    ensures Explained(cfg, m, candidates, now, outcome, c.pid)
  {
    CandidateIs(candidates, c);
    assert Named(candidates, c.pid);
  }

  lemma CausesUnnamed(cfg: Config, m: Records, candidates: seq<Candidate>, now: nat, outcome: MoveOutcome, pid: int)
    requires !Named(candidates, pid)
    ensures Explained(cfg, m, candidates, now, outcome, pid)
  {
    NoCandidate(candidates, pid);
  }

  /** What a round counts: over some processes, those with each cause. */
  ghost predicate CountsCauses(cfg: Config, m: Records, candidates: seq<Candidate>, now: nat, outcome: MoveOutcome,
      stats: Stats, pids: set<int>) {
    var wanted := set pid | pid in pids && Wanted(cfg, m, candidates, pid, now);
    var due := set pid | pid in pids && Due(cfg, m, candidates, pid, now);
    var stuck := set pid | pid in pids && !Moves(cfg, outcome, pid);
    var unnamed := set pid | pid in pids && !Named(candidates, pid);
    var free := set pid | pid in pids && Free(cfg, m, pid, now);
    var throttled := set pid | pid in pids && IsThrottled(m, pid);
    && stats.throttleActions == |wanted - stuck|
    && stats.releaseActions == |due - stuck - unnamed| + |due - stuck - (due - unnamed)|
    && stats.staleReleases == |due - stuck - (due - unnamed)|
    && stats.errors == |wanted * stuck| + |due * stuck|
    && stats.keptThrottled == |throttled - due|
    && stats.skippedLowScore == |free - unnamed - wanted|
    && stats.skippedCooldown == |pids - unnamed - free - throttled|
  }

  /** The statistics of a round are the numbers of processes, recorded or named, with each cause. */
  lemma StatsMean(cfg: Config, m: Records, candidates: seq<Candidate>, now: nat, outcome: MoveOutcome, stats: Stats,
      pids: set<int>)
    requires ValidCandidates(candidates) && Tallied(stats, ApplyActions(cfg, m, candidates, now, outcome), pids)
    ensures CountsCauses(cfg, m, candidates, now, outcome, stats, pids)
  {
    var act := ApplyActions(cfg, m, candidates, now, outcome);
    forall pid
      ensures Explained(cfg, m, candidates, now, outcome, pid)
    {
      Causes(cfg, m, candidates, now, outcome, pid);
    }
    DoersWanted(cfg, m, candidates, now, outcome, pids);
    DoersDue(cfg, m, candidates, now, outcome, pids);
    DoersIdle(cfg, m, candidates, now, outcome, pids);
  }

  lemma DoersWanted(cfg: Config, m: Records, candidates: seq<Candidate>, now: nat, outcome: MoveOutcome,
      pids: set<int>)
    requires forall pid :: Explained(cfg, m, candidates, now, outcome, pid)
    ensures var act := ApplyActions(cfg, m, candidates, now, outcome);
            var wanted := set pid | pid in pids && Wanted(cfg, m, candidates, pid, now);
            var stuck := set pid | pid in pids && !Moves(cfg, outcome, pid);
            Doing(act, pids, ThrottleDone) == wanted - stuck && Doing(act, pids, ThrottleFailed) == wanted * stuck
  {
    assert forall pid :: pid in pids ==> Explained(cfg, m, candidates, now, outcome, pid);
  }

  lemma DoersDue(cfg: Config, m: Records, candidates: seq<Candidate>, now: nat, outcome: MoveOutcome, pids: set<int>)
    requires forall pid :: Explained(cfg, m, candidates, now, outcome, pid)
    ensures var act := ApplyActions(cfg, m, candidates, now, outcome);
            var due := set pid | pid in pids && Due(cfg, m, candidates, pid, now);
            var stuck := set pid | pid in pids && !Moves(cfg, outcome, pid);
            var unnamed := set pid | pid in pids && !Named(candidates, pid);
            && Doing(act, pids, ReleaseDone(false)) == due - stuck - unnamed
            && Doing(act, pids, ReleaseDone(true)) == due - stuck - (due - unnamed)
            && Doing(act, pids, ReleaseFailed) == due * stuck
  {
    assert forall pid :: pid in pids ==> Explained(cfg, m, candidates, now, outcome, pid);
  }

  lemma DoersIdle(cfg: Config, m: Records, candidates: seq<Candidate>, now: nat, outcome: MoveOutcome, pids: set<int>)
    requires forall pid :: Explained(cfg, m, candidates, now, outcome, pid)
    ensures var act := ApplyActions(cfg, m, candidates, now, outcome);
            var wanted := set pid | pid in pids && Wanted(cfg, m, candidates, pid, now);
            var due := set pid | pid in pids && Due(cfg, m, candidates, pid, now);
            var unnamed := set pid | pid in pids && !Named(candidates, pid);
            var free := set pid | pid in pids && Free(cfg, m, pid, now);
            var throttled := set pid | pid in pids && IsThrottled(m, pid);
            && Doing(act, pids, Kept) == throttled - due
            && Doing(act, pids, LowScore) == free - unnamed - wanted
            && Doing(act, pids, CoolingDown) == pids - unnamed - free - throttled
  {
    assert forall pid :: pid in pids ==> Explained(cfg, m, candidates, now, outcome, pid);
  }

  // ----- Refusals, rollbacks and moves

  /** A refused call counts nothing but its error, and not even that before initialization. */
  lemma RefusedCounts(rc: Rc)
    ensures Refused(rc) == Stats(0, 0, 0, 0, 0, 0, 0, 0, if rc == NotInitialized then 0 else 1,
        if rc == NotInitialized then Ok else rc)
  {
  }

  /** A configuration is accepted exactly when its three groups are the three groups that processes can be put in, in
      any order, the low threshold is not above the high one and both are shares, there is room for a record, and the
      control values to be written are lines of 1 to 63 characters. */
  lemma ConfigMeans(cfg: Config)
    ensures ValidConfig(cfg) <==>
      && {cfg.normalGroup, cfg.throttledGroup, cfg.protectedGroup} == {Protected, Background, Group.Throttled}
      && 0.0 <= cfg.lowScore <= cfg.highScore <= 1.0
      && cfg.maxRecords >= 1
      && forall v :: Some(v) == cfg.cpuMax || Some(v) == cfg.memoryLow ==>
           1 <= |v| <= 63 && '\n' !in v && '\r' !in v
  {
    var three := {Protected, Background, Group.Throttled};
    var groups := {cfg.normalGroup, cfg.throttledGroup, cfg.protectedGroup};
    if groups == three {
      assert Protected in groups && Background in groups && Group.Throttled in groups;
    }
    if ValidConfig(cfg) {
      assert groups == three;
    }
    forall v: string
      ensures ValidControlValue(v) <==> 1 <= |v| <= 63 && '\n' !in v && '\r' !in v
    {
    }
  }

  /** A round is refused for a candidate with a bad pid or score, for two candidates of one pid, for want of room for
      the new pids, or for want of a clock reading, in this order; and for nothing else. */
  lemma RefusedIff(m: Records, candidates: seq<Candidate>, capacity: nat, clock: Option<nat>)
    ensures var good := (forall c :: c in candidates ==>
                  c.pid > 0 && 0.0 <= c.activity <= 1.0 && 0.0 <= c.overlap <= 1.0 && 0.0 <= c.finalScore <= 1.0)
                && forall i, j :: 0 <= i < j < |candidates| ==> candidates[i].pid != candidates[j].pid;
            var added := set c | c in candidates && c.pid !in m :: c.pid;
            Verdict(m, candidates, capacity, clock)
              == if !good then InvalidArg else if |m| + |added| > capacity then NoSpace
                 else if clock == None then TimeError else Ok
  {
    assert (set c | c in candidates && c.pid !in m :: c.pid) == CandidatePids(candidates) - m.Keys;
    forall i | 0 <= i < |candidates|
      ensures candidates[i] in candidates
    {
    }
  }

  /** A rollback releases exactly the throttled processes whose move succeeds. */
  lemma RollbackIff(cfg: Config, m: Records, now: nat, outcome: MoveOutcome, m': Records, pid: int)
    requires RolledBack(cfg, m, now, outcome, m')
    ensures pid in m' <==> pid in m
    ensures IsThrottled(m, pid) && Moves(cfg, outcome, pid) ==> m'[pid].state == Cooldown && m'[pid].entered == now
    ensures IsThrottled(m, pid) && !Moves(cfg, outcome, pid) ==> m'[pid] == m[pid].(lastError := CgroupError)
    ensures pid in m && !IsThrottled(m, pid) ==> m'[pid] == m[pid]
  {
  }

  /** Where a round leaves the processes: those it throttles in the throttled group, those it releases in the normal
      group, and all others, and all of them in a dry run, where they were. */
  lemma MovedTo(cfg: Config, m: Records, candidates: seq<Candidate>, now: nat, outcome: MoveOutcome, before: Groups,
      after: Groups, pid: int)
    requires ValidCandidates(candidates)
    requires MovedAs(cfg, before, after, ApplyActions(cfg, m, candidates, now, outcome),
                     m.Keys + CandidatePids(candidates))
    ensures GroupOf(after, pid)
         == if cfg.dryRun || !outcome(pid) then GroupOf(before, pid)
            else if Wanted(cfg, m, candidates, pid, now) then Some(cfg.throttledGroup)
            else if Due(cfg, m, candidates, pid, now) then Some(cfg.normalGroup)
            else GroupOf(before, pid)
  {
    Causes(cfg, m, candidates, now, outcome, pid);
    CandidateForNone(candidates, pid);
    var act := ApplyActions(cfg, m, candidates, now, outcome);
    assert act(pid) == ApplyAt(cfg, m, candidates, now, outcome, pid).1;
    assert GroupOf(after, pid) == GroupAfter(cfg, GroupOf(before, pid),
        if pid in m.Keys + CandidatePids(candidates) then act(pid) else NoAction);
  }

  // ----- Whole runs

  /** Call `i` throttles the process: a round that is not refused, with a free candidate the detector asks for. */
  ghost predicate ThrottledBy(cfg: Config, m: Records, call: Call, pid: int) {
    && call.Round? && Proceeds(cfg, m, call)
    && Wanted(cfg, m, call.candidates, pid, call.clock.value) && Moves(cfg, call.outcome, pid)
  }

  /** Call `i` releases the process: a round for which it is due, or a rollback. */
  ghost predicate ReleasedBy(cfg: Config, m: Records, call: Call, pid: int) {
    && Proceeds(cfg, m, call) && Moves(cfg, call.outcome, pid)
    && if call.Round? then Due(cfg, m, call.candidates, pid, call.clock.value) else IsThrottled(m, pid)
  }

  lemma CallThrottles(cfg: Config, m: Records, call: Call, m': Records, pid: int)
    requires Effect(cfg, m, call, m')
    ensures IsThrottled(m', pid) <==>
            ThrottledBy(cfg, m, call, pid) || (IsThrottled(m, pid) && !ReleasedBy(cfg, m, call, pid))
  {
    if Proceeds(cfg, m, call) {
      match call
      case Round(candidates, clock, outcome) =>
        RoundThrottles(cfg, m, candidates, clock.value, outcome, m', pid);
      case Rollback(clock, outcome) =>
        RollbackIff(cfg, m, clock.value, outcome, m', pid);
    }
  }

  lemma RoundThrottles(cfg: Config, m: Records, candidates: seq<Candidate>, now: nat, outcome: MoveOutcome,
      m': Records, pid: int)
    requires ValidCandidates(candidates) && Applied(cfg, m, candidates, now, outcome, m')
    ensures IsThrottled(m', pid) <==>
            || (Wanted(cfg, m, candidates, pid, now) && Moves(cfg, outcome, pid))
            || (IsThrottled(m, pid) && !(Due(cfg, m, candidates, pid, now) && Moves(cfg, outcome, pid)))
  {
    if IsThrottled(m, pid) {
      ReleasedIff(cfg, m, candidates, now, outcome, m', pid);
    } else if c :| c in candidates && c.pid == pid {
      CandidateIs(candidates, c);
      if Free(cfg, m, pid, now) {
        ThrottledIff(cfg, m, candidates, now, outcome, m', c);
      } else {
        CooldownKept(cfg, m, candidates, now, outcome, m', pid);
      }
    } else {
      UnnamedNotThrottled(cfg, m, candidates, now, outcome, m', pid);
    }
  }

  ghost function Throttlings(cfg: Config, states: seq<Records>, calls: seq<Call>, pid: int): Steps
    requires |states| == |calls| + 1
  {
    (i: nat) => i < |calls| && ThrottledBy(cfg, states[i], calls[i], pid)
  }

  ghost function Releases(cfg: Config, states: seq<Records>, calls: seq<Call>, pid: int): Steps
    requires |states| == |calls| + 1
  {
    (i: nat) => i < |calls| && ReleasedBy(cfg, states[i], calls[i], pid)
  }

  /** Over every run a process is throttled exactly when some round throttled it, asked to by the detector, and it has
      not been due for release, or rolled back, with a move that succeeded, since. */
  lemma {:induction false} RunThrottles(cfg: Config, states: seq<Records>, calls: seq<Call>, pid: int, n: nat)
    requires IsRun(cfg, states, calls) && n <= |calls|
    ensures IsThrottled(states[n], pid) <==>
            Since(Throttlings(cfg, states, calls, pid), Releases(cfg, states, calls, pid), n)
  {
    if n > 0 {
      var k := n - 1;
      RunThrottles(cfg, states, calls, pid, k);
      CallThrottles(cfg, states[k], calls[k], states[n], pid);
      SinceNext(Throttlings(cfg, states, calls, pid), Releases(cfg, states, calls, pid), k);
      assert Throttlings(cfg, states, calls, pid)(k) == ThrottledBy(cfg, states[k], calls[k], pid);
      assert Releases(cfg, states, calls, pid)(k) == ReleasedBy(cfg, states[k], calls[k], pid);
    }
  }
}
