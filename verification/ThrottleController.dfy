/** The throttle controller: an array of records updated in place, refining the per-process steps. */
module ThrottleController {
  import opened Options
  import opened ThrottleRecords
  import opened ProcessSlots
  import opened FiniteSets

  // ----- The records as a map

  ghost predicate UniqueRecords(records: seq<Record>) {
    forall i, j :: 0 <= i < j < |records| ==> records[i].pid != records[j].pid
  }

  /** The records by pid. */
  ghost function RecordMap(records: seq<Record>): Records
    requires UniqueRecords(records)
  {
    map i | 0 <= i < |records| :: records[i].pid := records[i]
  }

  lemma RecordAt(records: seq<Record>, i: nat)
    requires UniqueRecords(records) && i < |records|
    ensures records[i].pid in RecordMap(records) && RecordMap(records)[records[i].pid] == records[i]
  {
  }

  lemma RecordIndex(records: seq<Record>, pid: int) returns (i: nat)
    requires UniqueRecords(records) && pid in RecordMap(records)
    ensures i < |records| && records[i].pid == pid && RecordMap(records)[pid] == records[i]
  {
    i :| 0 <= i < |records| && records[i].pid == pid;
  }

  lemma RecordReplace(records: seq<Record>, i: nat, r: Record)
    requires UniqueRecords(records) && i < |records| && r.pid == records[i].pid
    ensures UniqueRecords(records[i := r])
    ensures RecordMap(records[i := r]) == RecordMap(records)[r.pid := r]
  {
    var records' := records[i := r];
    var m, m' := RecordMap(records), RecordMap(records');
    RecordAt(records', i);
    forall pid
      ensures pid in m' <==> pid in m || pid == r.pid
      ensures pid in m' && pid != r.pid ==> m'[pid] == m[pid]
    {
      if pid in m {
        var j := RecordIndex(records, pid);
        RecordAt(records', j);
      }
      if pid in m' {
        var j := RecordIndex(records', pid);
        RecordAt(records, j);
      }
    }
  }

  lemma RecordAppend(records: seq<Record>, r: Record)
    requires UniqueRecords(records) && r.pid !in RecordMap(records)
    ensures UniqueRecords(records + [r])
    ensures RecordMap(records + [r]) == RecordMap(records)[r.pid := r]
  {
    forall i | 0 <= i < |records|
      ensures records[i].pid != r.pid
    {
      RecordAt(records, i);
    }
    var records' := records + [r];
    var m, m' := RecordMap(records), RecordMap(records');
    RecordAt(records', |records|);
    forall pid
      ensures pid in m' <==> pid in m || pid == r.pid
      ensures pid in m' && pid != r.pid ==> m'[pid] == m[pid]
    {
      if pid in m {
        var j := RecordIndex(records, pid);
        RecordAt(records', j);
      }
      if pid in m' && pid != r.pid {
        var j := RecordIndex(records', pid);
        RecordAt(records, j);
      }
    }
  }

  lemma {:induction false} RecordCount(records: seq<Record>)
    requires UniqueRecords(records)
    ensures |RecordMap(records)| == |records|
  {
    if records == [] {
      assert RecordMap(records) == map[];
    } else {
      var n := |records| - 1;
      RecordCount(records[..n]);
      assert records == records[..n] + [records[n]];
      assert records[n].pid !in RecordMap(records[..n]) by {
        if records[n].pid in RecordMap(records[..n]) {
          var i := RecordIndex(records[..n], records[n].pid);
        }
      }
      RecordAppend(records[..n], records[n]);
    }
  }

  // ----- Progress of a call

  ghost function Unmarked(m: Records): Records {
    map pid | pid in m :: m[pid].(seen := false)
  }

  ghost predicate OwnPids(m: Records) {
    forall pid :: pid in m ==> m[pid].pid == pid
  }

  /** The records during a call: those of `seen` were named by a candidate, those of `done` have taken their step,
      the others only lost their mark. */
  ghost predicate Progress(m: Records, seen: set<int>, done: set<int>, step: StepOf, current: Records) {
    && current.Keys == m.Keys + seen
    && (forall pid :: pid in current ==> current[pid].pid == pid && (current[pid].seen <==> pid in seen))
    && (forall pid :: pid in current && pid in done ==> Some(current[pid]) == step(pid).0)
    && (forall pid :: pid in current && pid !in done ==> pid in m && current[pid] == m[pid].(seen := false))
  }

  /** The records, the statistics and the moves of the steps taken so far. */
  ghost predicate Underway(cfg: Config, m: Records, seen: set<int>, done: set<int>, step: StepOf, current: Records,
      stats: Stats, before: Groups, groups: Groups) {
    && Progress(m, seen, done, step, current)
    && Tallied(stats, ActionsOf(step), done)
    && MovedAs(cfg, before, groups, ActionsOf(step), done)
  }

  /** The step of the process a candidate names. */
  ghost predicate SeenFits(cfg: Config, m: Records, c: Candidate, now: nat, outcome: MoveOutcome, step: StepOf) {
    var (r, a) := SeenStep(cfg, StartOf(Lookup(Unmarked(m), c.pid), c.pid, now), c, now, Moved(cfg, outcome, c.pid));
    r.pid == c.pid && r.seen && step(c.pid) == (Some(r), a)
  }

  /** The step of a process no candidate names. */
  ghost predicate UnseenFits(cfg: Config, m: Records, pid: int, now: nat, outcome: MoveOutcome, step: StepOf) {
    pid in m ==>
      var (r, a) := UnseenStep(cfg, m[pid].(seen := false), now, Moved(cfg, outcome, pid));
      r.pid == pid && !r.seen && step(pid) == (Some(r), a)
  }

  lemma CandidatePidsNext(candidates: seq<Candidate>, k: nat)
    requires k < |candidates|
    ensures CandidatePids(candidates[..k + 1]) == CandidatePids(candidates[..k]) + {candidates[k].pid}
    ensures candidates[k].pid in CandidatePids(candidates)
  {
  }

  lemma CandidateNew(candidates: seq<Candidate>, k: nat)
    requires k < |candidates| && ValidCandidates(candidates)
    ensures candidates[k].pid !in CandidatePids(candidates[..k])
    ensures CandidateFor(candidates, candidates[k].pid) == Some(candidates[k])
  {
    CandidateForAt(candidates, k);
  }

  /** The step of a candidate does not depend on the mark its record carries. */
  lemma SeenStepIgnoresMark(cfg: Config, r: Record, c: Candidate, now: nat, moved: bool)
    requires r.pid == c.pid
    ensures SeenStep(cfg, r.(seen := false), c, now, moved) == SeenStep(cfg, r, c, now, moved)
    ensures SeenStep(cfg, r, c, now, moved).0.pid == c.pid && SeenStep(cfg, r, c, now, moved).0.seen
  {
  }

  lemma UnseenStepIgnoresMark(cfg: Config, r: Record, now: nat, moved: bool)
    ensures UnseenStep(cfg, r.(seen := false), now, moved) == UnseenStep(cfg, r, now, moved)
    ensures UnseenStep(cfg, r, now, moved).0.pid == r.pid && !UnseenStep(cfg, r, now, moved).0.seen
  {
  }

  /** Every process that no candidate names takes its step. */
  ghost predicate UnseenFit(cfg: Config, m: Records, seen: set<int>, now: nat, outcome: MoveOutcome, step: StepOf) {
    forall pid :: pid !in seen ==> UnseenFits(cfg, m, pid, now, outcome, step)
  }

  /** The step of the call about a candidate's process is the candidate's step. */
  lemma ApplyFitsSeen(cfg: Config, m: Records, candidates: seq<Candidate>, k: nat, now: nat, outcome: MoveOutcome)
    requires k < |candidates| && ValidCandidates(candidates) && OwnPids(m)
    ensures SeenFits(cfg, m, candidates[k], now, outcome, ApplySteps(cfg, m, candidates, now, outcome))
  {
    var c := candidates[k];
    CandidateNew(candidates, k);
    SeenStepIgnoresMark(cfg, StartOf(Lookup(m, c.pid), c.pid, now), c, now, Moved(cfg, outcome, c.pid));
  }

  lemma ApplyFitsUnseen(cfg: Config, m: Records, candidates: seq<Candidate>, pid: int, now: nat, outcome: MoveOutcome)
    requires pid !in CandidatePids(candidates) && OwnPids(m)
    ensures UnseenFits(cfg, m, pid, now, outcome, ApplySteps(cfg, m, candidates, now, outcome))
  {
    CandidateForNone(candidates, pid);
    if pid in m {
      UnseenStepIgnoresMark(cfg, m[pid], now, Moved(cfg, outcome, pid));
    }
  }

  lemma UnseenNext(m: Records, seen: set<int>, done: set<int>, step: StepOf, current: Records, r: Record)
    requires Progress(m, seen, done, step, current) && r.pid in current && r.pid !in seen
    requires !r.seen && Some(r) == step(r.pid).0
    ensures Progress(m, seen, done + {r.pid}, step, current[r.pid := r])
  {
  }

  lemma ProgressDone(cfg: Config, m: Records, candidates: seq<Candidate>, done: set<int>, now: nat,
      outcome: MoveOutcome, current: Records)
    requires Progress(m, CandidatePids(candidates), done, ApplySteps(cfg, m, candidates, now, outcome), current)
    requires m.Keys + CandidatePids(candidates) <= done
    ensures Applied(cfg, m, candidates, now, outcome, current)
  {
    forall pid
      ensures Lookup(current, pid) == ApplyAt(cfg, m, candidates, now, outcome, pid).0
    {
      CandidateForNone(candidates, pid);
      if pid in current {
        assert Some(current[pid]) == ApplySteps(cfg, m, candidates, now, outcome)(pid).0;
      }
    }
  }

  // ----- Where the processes are

  type Groups = map<int, Group>

  function GroupOf(groups: Groups, pid: int): Option<Group> {
    if pid in groups then Some(groups[pid]) else None
  }

  /** Each process of `done` was moved as its action says, and no other was. */
  ghost predicate MovedAs(cfg: Config, before: Groups, after: Groups, act: ActionOf, done: set<int>) {
    forall pid :: GroupOf(after, pid)
        == GroupAfter(cfg, GroupOf(before, pid), if pid in done then act(pid) else NoAction)
  }

  function MoveTo(cfg: Config, groups: Groups, pid: int, action: Action): Groups {
    var g := GroupAfter(cfg, GroupOf(groups, pid), action);
    if g.Some? then groups[pid := g.value] else groups
  }

  lemma MovedNext(cfg: Config, before: Groups, after: Groups, act: ActionOf, done: set<int>, pid: int)
    requires MovedAs(cfg, before, after, act, done) && pid !in done
    ensures MovedAs(cfg, before, MoveTo(cfg, after, pid, act(pid)), act, done + {pid})
  {
    assert GroupOf(after, pid) == GroupOf(before, pid);
  }

  /** A record is throttled exactly when its process is in the throttled group, and the controller never puts a
      process in the protected group. */
  ghost predicate GroupsMatch(cfg: Config, m: Records, groups: Groups) {
    && (forall pid :: pid in groups && groups[pid] == cfg.throttledGroup <==>
        pid in m && m[pid].state == State.Throttled)
    && (forall pid :: pid in groups ==> groups[pid] == cfg.throttledGroup || groups[pid] == cfg.normalGroup)
  }

  lemma ActionMatchesState(cfg: Config, m: Records, candidates: seq<Candidate>, now: nat, outcome: MoveOutcome,
      pid: int)
    ensures var (r, a) := ApplyAt(cfg, m, candidates, now, outcome, pid);
            var was := pid in m && m[pid].state == State.Throttled;
            var throttled := r.Some? && r.value.state == State.Throttled;
            throttled == (match a case ThrottleDone => true case ReleaseDone(_) => false case _ => was)
  {
  }

  lemma GroupsMatchKept(
    cfg: Config, m: Records, candidates: seq<Candidate>, now: nat, outcome: MoveOutcome, m': Records, before: Groups,
    after: Groups)
    requires ValidConfig(cfg) && !cfg.dryRun
    requires Applied(cfg, m, candidates, now, outcome, m') && GroupsMatch(cfg, m, before)
    requires MovedAs(cfg, before, after, ApplyActions(cfg, m, candidates, now, outcome),
                     m.Keys + CandidatePids(candidates))
    ensures GroupsMatch(cfg, m', after)
  {
    forall pid
      ensures pid in after && after[pid] == cfg.throttledGroup <==> pid in m' && m'[pid].state == State.Throttled
      ensures pid in after ==> after[pid] == cfg.throttledGroup || after[pid] == cfg.normalGroup
    {
      ActionMatchesState(cfg, m, candidates, now, outcome, pid);
      CandidateForNone(candidates, pid);
      assert GroupOf(after, pid)
          == GroupAfter(cfg, GroupOf(before, pid), ApplyAt(cfg, m, candidates, now, outcome, pid).1);
      assert Lookup(m', pid) == ApplyAt(cfg, m, candidates, now, outcome, pid).0;
    }
  }

  ghost function RollbackSteps(cfg: Config, m: Records, now: nat, outcome: MoveOutcome): StepOf {
    (pid: int) =>
      if pid !in m then (None, NoAction)
      else var (r, a) := RollbackStep(m[pid], now, Moved(cfg, outcome, pid)); (Some(r), a)
  }

  /** Rollback: every throttled process takes a release step. */
  ghost predicate RolledBack(cfg: Config, m: Records, now: nat, outcome: MoveOutcome, m': Records) {
    && m'.Keys == m.Keys
    && forall pid :: pid in m ==> m'[pid] == RollbackStep(m[pid], now, Moved(cfg, outcome, pid)).0
  }

  ghost function RollbackActions(cfg: Config, m: Records, now: nat, outcome: MoveOutcome): ActionOf {
    ActionsOf(RollbackSteps(cfg, m, now, outcome))
  }

  lemma GroupsMatchRolledBack(
    cfg: Config, m: Records, now: nat, outcome: MoveOutcome, m': Records, before: Groups, after: Groups)
    requires ValidConfig(cfg) && !cfg.dryRun
    requires RolledBack(cfg, m, now, outcome, m') && GroupsMatch(cfg, m, before)
    requires MovedAs(cfg, before, after, RollbackActions(cfg, m, now, outcome), m.Keys)
    ensures GroupsMatch(cfg, m', after)
  {
    forall pid
      ensures pid in after && after[pid] == cfg.throttledGroup <==> pid in m' && m'[pid].state == State.Throttled
      ensures pid in after ==> after[pid] == cfg.throttledGroup || after[pid] == cfg.normalGroup
    {
      RollbackGroup(cfg, m, now, outcome, m', before, after, pid);
    }
  }

  lemma RollbackGroup(
    cfg: Config, m: Records, now: nat, outcome: MoveOutcome, m': Records, before: Groups, after: Groups, pid: int)
    requires cfg.throttledGroup != cfg.normalGroup && !cfg.dryRun
    requires m'.Keys == m.Keys
    requires pid in m ==> m'[pid] == RollbackStep(m[pid], now, Moved(cfg, outcome, pid)).0
    requires GroupsMatch(cfg, m, before)
    requires MovedAs(cfg, before, after, RollbackActions(cfg, m, now, outcome), m.Keys)
    ensures pid in after && after[pid] == cfg.throttledGroup <==> pid in m' && m'[pid].state == State.Throttled
    ensures pid in after ==> after[pid] == cfg.throttledGroup || after[pid] == cfg.normalGroup
  {
    assert GroupOf(after, pid) == GroupAfter(cfg, GroupOf(before, pid), RollbackActions(cfg, m, now, outcome)(pid));
  }

  /** The records during a rollback: those of `done` have taken their step. */
  ghost predicate Stepped(m: Records, done: set<int>, step: StepOf, current: Records) {
    && current.Keys == m.Keys
    && (forall pid :: pid in current ==> current[pid].pid == pid)
    && (forall pid :: pid in current && pid in done ==> Some(current[pid]) == step(pid).0)
    && (forall pid :: pid in current && pid !in done ==> current[pid] == m[pid])
  }

  ghost predicate RollbackFits(cfg: Config, r: Record, now: nat, outcome: MoveOutcome, step: StepOf) {
    var (r', a) := RollbackStep(r, now, Moved(cfg, outcome, r.pid));
    r'.pid == r.pid && step(r.pid) == (Some(r'), a)
  }

  lemma SteppedDone(cfg: Config, m: Records, now: nat, outcome: MoveOutcome, current: Records)
    requires Stepped(m, m.Keys, RollbackSteps(cfg, m, now, outcome), current)
    ensures RolledBack(cfg, m, now, outcome, current)
  {
    forall pid | pid in m
      ensures current[pid] == RollbackStep(m[pid], now, Moved(cfg, outcome, pid)).0
    {
      assert Some(current[pid]) == RollbackSteps(cfg, m, now, outcome)(pid).0;
    }
  }

  lemma RollbackKeeps(
    cfg: Config, m: Records, done: set<int>, now: nat, outcome: MoveOutcome, step: StepOf, current: Records,
    pid: int, r: Record, a: Action, stats: Stats, before: Groups, groups: Groups)
    requires Stepped(m, done, step, current) && pid in current && pid !in done
             && RollbackFits(cfg, m[pid], now, outcome, step)
    requires (r, a) == RollbackStep(current[pid], now, Moved(cfg, outcome, pid))
    requires Tallied(stats, ActionsOf(step), done) && MovedAs(cfg, before, groups, ActionsOf(step), done)
    ensures Stepped(m, done + {pid}, step, current[pid := r])
    ensures Tallied(Book(stats, a), ActionsOf(step), done + {pid})
    ensures MovedAs(cfg, before, MoveTo(cfg, groups, pid, a), ActionsOf(step), done + {pid})
  {
    assert step(pid) == (Some(r), a) && r.pid == pid;
    SteppedNext(m, done, step, current, r);
    TallyAdd(stats, ActionsOf(step), done, pid);
    MovedNext(cfg, before, groups, ActionsOf(step), done, pid);
  }

  lemma SteppedNext(m: Records, done: set<int>, step: StepOf, current: Records, r: Record)
    requires Stepped(m, done, step, current) && r.pid in current && r.pid !in done && Some(r) == step(r.pid).0
    ensures Stepped(m, done + {r.pid}, step, current[r.pid := r])
  {
  }

  /** The statistics of a call that was refused. */
  function Refused(rc: Rc): Stats {
    if rc == NotInitialized then CLEAR else SetError(CLEAR, rc)
  }

  /** What a completed decision round has done. */
  ghost predicate RoundDone(
    cfg: Config, m: Records, candidates: seq<Candidate>, now: nat, outcome: MoveOutcome, m': Records, stats: Stats,
    before: Groups, after: Groups)
  {
    && Applied(cfg, m, candidates, now, outcome, m')
    && Tallied(stats, ApplyActions(cfg, m, candidates, now, outcome), m.Keys + CandidatePids(candidates))
    && MovedAs(cfg, before, after, ApplyActions(cfg, m, candidates, now, outcome), m.Keys + CandidatePids(candidates))
    && stats.candidateCount == stats.recordsSeen == |candidates|
  }

  lemma RoundConcludes(
    cfg: Config, m: Records, candidates: seq<Candidate>, now: nat, outcome: MoveOutcome, m': Records, stats: Stats,
    before: Groups, after: Groups)
    requires ValidConfig(cfg) && (!cfg.dryRun ==> GroupsMatch(cfg, m, before))
    requires Underway(cfg, m, CandidatePids(candidates), m.Keys + CandidatePids(candidates),
                      ApplySteps(cfg, m, candidates, now, outcome), m', stats, before, after)
    requires stats.candidateCount == stats.recordsSeen == |candidates|
    ensures RoundDone(cfg, m, candidates, now, outcome, m', stats, before, after)
    ensures !cfg.dryRun ==> GroupsMatch(cfg, m', after)
    ensures stats.lastError == if stats.errors > 0 then CgroupError else Ok
  {
    ProgressDone(cfg, m, candidates, m.Keys + CandidatePids(candidates), now, outcome, m');
    if !cfg.dryRun {
      GroupsMatchKept(cfg, m, candidates, now, outcome, m', before, after);
    }
  }

  // ----- The controller

  class Controller {
    var initialized: bool
    var cfg: Config
    var records: array<Record>
    var count: nat
    /** The group each process was last successfully moved to. */
    ghost var groups: Groups

    ghost predicate Valid()
      reads this, records
    {
      initialized ==>
        && ValidConfig(cfg) && records.Length == cfg.maxRecords && count <= records.Length
        && UniqueRecords(records[..count])
        && (!cfg.dryRun ==> GroupsMatch(cfg, Contents(), groups))
    }

    ghost function Contents(): Records
      requires initialized ==> count <= records.Length && UniqueRecords(records[..count])
      reads this, records
    {
      if initialized then RecordMap(records[..count]) else map[]
    }

    constructor ()
      ensures Valid() && !initialized && fresh(records)
    {
      initialized, count, groups := false, 0, map[];
      cfg := Config(Unknown, Unknown, Unknown, 0.0, 0.0, 0, 0, 0, 0, false, None, None);
      records := new Record[0];
    }

    /** Starts with no records; the last two arguments are the outcomes of writing the control files. */
    method Init(config: Config, cpuMaxSet: bool, memoryLowSet: bool) returns (rc: Rc)
      modifies this
      ensures rc == if !ValidConfig(config) then InvalidArg
                    else if !config.dryRun && config.cpuMax.Some? && !cpuMaxSet then CgroupError
                    else if !config.dryRun && config.memoryLow.Some? && !memoryLowSet then CgroupError
                    else Ok
      ensures Valid() && (initialized <==> rc == Ok) && Contents() == map[] && fresh(records)
      ensures rc == Ok ==> cfg == config && groups == map[]
    {
      initialized, count, groups := false, 0, map[];
      records := new Record[0];
      if !ValidConfig(config) {
        return InvalidArg;
      }
      records := new Record[config.maxRecords](_ => NewRecord(-1, 0));
      cfg := config;
      if !config.dryRun && config.cpuMax.Some? && !cpuMaxSet {
        records := new Record[0];
        return CgroupError;
      }
      if !config.dryRun && config.memoryLow.Some? && !memoryLowSet {
        records := new Record[0];
        return CgroupError;
      }
      initialized := true;
      rc := Ok;
    }

    method FindRecord(pid: int) returns (found: Option<nat>)
      requires Indexed()
      ensures found.None? <==> pid !in Contents()
      ensures found.Some? ==>
              found.value < count && records[found.value].pid == pid && Contents()[pid] == records[found.value]
    {
      for i := 0 to count
        invariant forall k :: 0 <= k < i ==> records[k].pid != pid
      {
        if records[i].pid == pid {
          RecordAt(records[..count], i);
          return Some(i);
        }
      }
      if pid in Contents() {
        ghost var i := RecordIndex(records[..count], pid);
      }
      return None;
    }

    /** Exact validation of the candidates and of the room for new records. */
    method Prevalidate(candidates: seq<Candidate>) returns (rc: Rc)
      requires initialized && Valid()
      ensures rc == Verdict(Contents(), candidates, records.Length, Some(0))
    {
      var newRecords := 0;
      ghost var m := Contents();
      for i := 0 to |candidates|
        invariant ValidCandidates(candidates[..i])
        invariant newRecords == |CandidatePids(candidates[..i]) - m.Keys|
      {
        if !ValidCandidate(candidates[i]) {
          return InvalidArg;
        }
        var repeated := Repeats(candidates, i);
        if repeated {
          return InvalidArg;
        }
        FreshPidsStep(candidates, i, m.Keys);
        ValidNext(candidates, i);
        var found := FindRecord(candidates[i].pid);
        if found.None? {
          newRecords := newRecords + 1;
        }
      }
      assert candidates[..|candidates|] == candidates;
      RecordCount(records[..count]);
      if newRecords > records.Length - count {
        return NoSpace;
      }
      rc := Ok;
    }

    // ----- One record

    /** The records are in order, whatever the groups are. */
    ghost predicate Indexed()
      reads this, records
    {
      initialized && records.Length == cfg.maxRecords && count <= records.Length && UniqueRecords(records[..count])
    }

    method MovePid(pid: int, group: Group, outcome: MoveOutcome) returns (ok: bool)
      modifies this`groups
      ensures ok == Moved(cfg, outcome, pid)
      ensures groups == if !cfg.dryRun && ok then old(groups)[pid := group] else old(groups)
    {
      if cfg.dryRun {
        return true;
      }
      ok := outcome(pid);
      if ok {
        groups := groups[pid := group];
      }
    }

    method ThrottleRecord(i: nat, now: nat, outcome: MoveOutcome, stats: Stats) returns (rc: Rc, stats': Stats)
      requires i < records.Length
      modifies records, this`groups
      ensures var (r, a) := TryThrottle(old(records[i]), now, Moved(cfg, outcome, old(records[i].pid)));
              && records[..] == old(records[..])[i := r] && stats' == Book(stats, a) && rc == r.lastError
              && groups == MoveTo(cfg, old(groups), r.pid, a)
    {
      var moved := MovePid(records[i].pid, cfg.throttledGroup, outcome);
      if !moved {
        records[i] := records[i].(lastError := CgroupError);
        return CgroupError, SetError(stats, CgroupError);
      }
      records[i] := records[i].(state := State.Throttled, entered := now, lastAction := now, lastError := Ok);
      return Ok, stats.(throttleActions := stats.throttleActions + 1);
    }

    method ReleaseRecord(i: nat, now: nat, stale: bool, outcome: MoveOutcome, stats: Stats)
        returns (rc: Rc, stats': Stats)
      requires i < records.Length
      modifies records, this`groups
      ensures var (r, a) := TryRelease(old(records[i]), now, stale, Moved(cfg, outcome, old(records[i].pid)));
              && records[..] == old(records[..])[i := r] && stats' == Book(stats, a) && rc == r.lastError
              && groups == MoveTo(cfg, old(groups), r.pid, a)
    {
      var moved := MovePid(records[i].pid, cfg.normalGroup, outcome);
      if !moved {
        records[i] := records[i].(lastError := CgroupError);
        return CgroupError, SetError(stats, CgroupError);
      }
      records[i] := records[i].(state := Cooldown, entered := now, lastAction := now, lastError := Ok);
      return Ok, stats.(releaseActions := stats.releaseActions + 1,
                       staleReleases := stats.staleReleases + if stale then 1 else 0);
    }

    /** The step of a record whose process is a candidate. */
    method SeeRecord(i: nat, c: Candidate, now: nat, outcome: MoveOutcome, stats: Stats) returns (rc: Rc, stats': Stats)
      requires i < records.Length && records[i].pid == c.pid
      modifies records, this`groups
      ensures var (r, a) := SeenStep(cfg, old(records[i]), c, now, Moved(cfg, outcome, c.pid));
              && records[..] == old(records[..])[i := r] && stats' == Book(stats, a) && rc == FailureOf(a)
              && groups == MoveTo(cfg, old(groups), c.pid, a)
    {
      records[i] := records[i].(seen := true, lastSeen := now, activity := c.activity, overlap := c.overlap,
                                finalScore := c.finalScore, commonPages := c.commonPages,
                                shouldThrottle := c.shouldThrottle, lastError := Ok);
      rc, stats' := Ok, stats;
      match records[i].state
      case Normal =>
        if RequestsThrottle(cfg, c) {
          rc, stats' := ThrottleRecord(i, now, outcome, stats);
        } else {
          stats' := stats.(skippedLowScore := stats.skippedLowScore + 1);
        }
      case Throttled =>
        if records[i].finalScore <= cfg.lowScore && ElapsedAtLeast(now, records[i].entered, cfg.minThrottleMs) {
          rc, stats' := ReleaseRecord(i, now, false, outcome, stats);
        } else {
          stats' := stats.(keptThrottled := stats.keptThrottled + 1);
        }
      case Cooldown =>
        if !ElapsedAtLeast(now, records[i].entered, cfg.cooldownMs) {
          stats' := stats.(skippedCooldown := stats.skippedCooldown + 1);
        } else {
          records[i] := records[i].(state := Normal, entered := now);
          if RequestsThrottle(cfg, c) {
            rc, stats' := ThrottleRecord(i, now, outcome, stats);
          } else {
            stats' := stats.(skippedLowScore := stats.skippedLowScore + 1);
          }
        }
    }

    /** The step of a record whose process is not a candidate. */
    method SweepRecord(i: nat, now: nat, outcome: MoveOutcome, stats: Stats) returns (rc: Rc, stats': Stats)
      requires i < records.Length && !records[i].seen
      modifies records, this`groups
      ensures var (r, a) := UnseenStep(cfg, old(records[i]), now, Moved(cfg, outcome, old(records[i].pid)));
              && records[..] == old(records[..])[i := r] && stats' == Book(stats, a) && rc == FailureOf(a)
              && groups == MoveTo(cfg, old(groups), r.pid, a)
    {
      rc, stats' := Ok, stats;
      if records[i].state == State.Throttled {
        var staleDone := ElapsedAtLeast(now, records[i].lastSeen, cfg.staleMs);
        var minDone := ElapsedAtLeast(now, records[i].entered, cfg.minThrottleMs);
        if staleDone && minDone {
          rc, stats' := ReleaseRecord(i, now, true, outcome, stats);
        } else {
          stats' := stats.(keptThrottled := stats.keptThrottled + 1);
        }
      } else if records[i].state == Cooldown && ElapsedAtLeast(now, records[i].entered, cfg.cooldownMs) {
        records[i] := records[i].(state := Normal, entered := now);
      }
    }

    // ----- All records

    method ClearMarks()
      requires Indexed()
      modifies records
      ensures Indexed() && Contents() == Unmarked(old(Contents()))
    {
      ghost var before := records[..count];
      for i := 0 to count
        invariant forall k :: 0 <= k < count ==> records[k] == if k < i then before[k].(seen := false) else before[k]
      {
        records[i] := records[i].(seen := false);
      }
      UnmarkedRecords(before, records[..count]);
    }

    method CreateRecord(pid: int, now: nat) returns (i: nat)
      requires Indexed() && pid !in Contents() && |Contents()| < records.Length
      modifies this`count, records
      ensures Indexed() && i < count && records[i] == NewRecord(pid, now)
      ensures Contents() == old(Contents())[pid := NewRecord(pid, now)]
    {
      ghost var s := records[..count];
      var r := NewRecord(pid, now);
      RecordCount(s);
      RecordAppend(s, r);
      i := count;
      records[i] := r;
      count := count + 1;
      assert records[..count] == s + [r];
    }

    method FindOrCreate(pid: int, now: nat) returns (i: nat)
      requires Indexed() && (pid in Contents() || |Contents()| < records.Length)
      modifies this`count, records
      ensures Indexed() && i < count && records[i].pid == pid
      ensures records[i] == StartOf(Lookup(old(Contents()), pid), pid, now)
      ensures Contents() == old(Contents())[pid := records[i]]
    {
      var found := FindRecord(pid);
      if found.Some? {
        i := found.value;
      } else {
        i := CreateRecord(pid, now);
      }
    }

    method SeeIndexed(i: nat, c: Candidate, now: nat, outcome: MoveOutcome, stats: Stats)
      returns (rc: Rc, stats': Stats, ghost r: Record, ghost a: Action)
      requires Indexed() && i < count && records[i].pid == c.pid
      modifies this`groups, records
      ensures Indexed()
      ensures (r, a) == SeenStep(cfg, old(records[i]), c, now, Moved(cfg, outcome, c.pid))
      ensures r.pid == c.pid && Contents() == old(Contents())[c.pid := r]
      ensures stats' == Book(stats, a) && rc == FailureOf(a) && groups == MoveTo(cfg, old(groups), c.pid, a)
    {
      ghost var s, all := records[..count], records[..];
      ghost var taken := SeenStep(cfg, records[i], c, now, Moved(cfg, outcome, c.pid));
      r, a := taken.0, taken.1;
      SeenStepIgnoresMark(cfg, records[i], c, now, Moved(cfg, outcome, c.pid));
      RecordReplace(s, i, r);
      rc, stats' := SeeRecord(i, c, now, outcome, stats);
      assert records[..count] == all[i := r][..count] == s[i := r];
    }

    /** Looks up or creates the candidate's record and takes its step. */
    method SeeCandidate(c: Candidate, now: nat, outcome: MoveOutcome, stats: Stats)
      returns (rc: Rc, stats': Stats, ghost r: Record, ghost a: Action)
      requires Indexed() && (c.pid in Contents() || |Contents()| < records.Length)
      modifies this`count, this`groups, records
      ensures Indexed()
      ensures (r, a) == SeenStep(cfg, StartOf(Lookup(old(Contents()), c.pid), c.pid, now), c, now,
              Moved(cfg, outcome, c.pid))
      ensures r.pid == c.pid && Contents() == old(Contents())[c.pid := r]
      ensures stats' == Book(stats.(recordsSeen := stats.recordsSeen + 1), a) && rc == FailureOf(a)
      ensures groups == MoveTo(cfg, old(groups), c.pid, a)
    {
      ghost var m := Contents();
      var i := FindOrCreate(c.pid, now);
      ghost var start := records[i];
      rc, stats', r, a := SeeIndexed(i, c, now, outcome, stats.(recordsSeen := stats.recordsSeen + 1));
      UpdateTwice(m, c.pid, start, r);
    }

    method SweepIndexed(i: nat, now: nat, outcome: MoveOutcome, stats: Stats)
      returns (rc: Rc, stats': Stats, ghost r: Record, ghost a: Action)
      requires Indexed() && i < count && !records[i].seen
      modifies this`groups, records
      ensures Indexed()
      ensures SamePids(old(records[..count]), records[..count])
      ensures (r, a) == UnseenStep(cfg, old(records[i]), now, Moved(cfg, outcome, old(records[i].pid)))
      ensures r.pid == old(records[i].pid) && r.seen == old(records[i].seen)
              && Contents() == old(Contents())[r.pid := r]
      ensures stats' == Book(stats, a) && rc == FailureOf(a) && groups == MoveTo(cfg, old(groups), r.pid, a)
    {
      ghost var s, all := records[..count], records[..];
      ghost var taken := UnseenStep(cfg, records[i], now, Moved(cfg, outcome, records[i].pid));
      r, a := taken.0, taken.1;
      UnseenStepIgnoresMark(cfg, records[i], now, Moved(cfg, outcome, records[i].pid));
      RecordReplace(s, i, r);
      rc, stats' := SweepRecord(i, now, outcome, stats);
      assert records[..count] == all[i := r][..count] == s[i := r];
    }

    /** The step of one candidate. */
    method SeeOne(c: Candidate, now: nat, outcome: MoveOutcome, stats: Stats, ghost step: StepOf)
        returns (rc: Rc, stats': Stats)
      requires Indexed() && Takes(cfg, Contents(), c, now, outcome, step, records.Length)
      modifies this`count, this`groups, records
      ensures Indexed() && Contents() == old(Contents())[c.pid := step(c.pid).0.value]
      ensures stats' == Book(stats.(recordsSeen := stats.recordsSeen + 1), step(c.pid).1)
              && rc == FailureOf(step(c.pid).1)
      ensures groups == MoveTo(cfg, old(groups), c.pid, step(c.pid).1)
    {
      ghost var r, a;
      rc, stats', r, a := SeeCandidate(c, now, outcome, stats);
      assert (r, a) == (step(c.pid).0.value, step(c.pid).1);
    }

    /** One candidate of the pass. */
    method SeeNext(
      candidates: seq<Candidate>, k: nat, now: nat, outcome: MoveOutcome, stats: Stats, ghost m: Records,
      ghost step: StepOf,
      ghost clear: Stats, ghost before: Groups)
      returns (rc: Rc, stats': Stats)
      requires Indexed() && k < |candidates| && |m.Keys + CandidatePids(candidates)| <= records.Length
      requires SeenReady(cfg, m, candidates, now, outcome, step)
      requires Contents() == SeenRecords(m, step, candidates[..k])
      requires stats == SeenStats(clear, step, candidates[..k])
               && groups == SeenGroups(cfg, before, step, candidates[..k])
      modifies this`count, this`groups, records
      ensures Indexed() && Contents() == SeenRecords(m, step, candidates[..k + 1])
      ensures stats' == SeenStats(clear, step, candidates[..k + 1])
              && groups == SeenGroups(cfg, before, step, candidates[..k + 1])
      ensures rc == FailureOf(step(candidates[k].pid).1)
    {
      SeenHere(cfg, m, candidates, k, now, outcome, step, records.Length);
      SeenNext(cfg, m, candidates, k, clear, stats, before, step);
      rc, stats' := SeeOne(candidates[k], now, outcome, stats, step);
    }

    /** The pass over the candidates. */
    method SeeAll(candidates: seq<Candidate>, now: nat, outcome: MoveOutcome, stats: Stats, ghost m: Records,
        ghost step: StepOf)
      returns (rc: Rc, stats': Stats)
      requires Indexed() && Contents() == Unmarked(m) && |m.Keys + CandidatePids(candidates)| <= records.Length
      requires SeenReady(cfg, m, candidates, now, outcome, step) && stats.lastError == Ok
      modifies this`count, this`groups, records
      ensures Indexed() && Contents() == SeenRecords(m, step, candidates)
      ensures stats' == SeenStats(stats, step, candidates) && rc == stats'.lastError
      ensures groups == SeenGroups(cfg, old(groups), step, candidates)
    {
      rc, stats' := Ok, stats;
      ghost var before := groups;
      for k := 0 to |candidates|
        invariant Indexed() && Contents() == SeenRecords(m, step, candidates[..k])
        invariant stats' == SeenStats(stats, step, candidates[..k]) && rc == stats'.lastError
        invariant groups == SeenGroups(cfg, before, step, candidates[..k])
      {
        var failure;
        failure, stats' := SeeNext(candidates, k, now, outcome, stats', m, step, stats, before);
        SeenError(candidates, k, stats, step);
        if failure != Ok {
          rc := failure;
        }
      }
      assert candidates[..|candidates|] == candidates;
    }

    /** The pass over the candidates, and what it promises. */
    method SeePass(candidates: seq<Candidate>, now: nat, outcome: MoveOutcome, stats: Stats, ghost m: Records,
        ghost seen: set<int>, ghost step: StepOf)
      returns (rc: Rc, stats': Stats)
      requires Indexed() && Contents() == m && |m.Keys + CandidatePids(candidates)| <= records.Length
      requires SeenReady(cfg, m, candidates, now, outcome, step) && seen == CandidatePids(candidates)
      requires OwnPids(m) && stats == CLEAR.(candidateCount := |candidates|)
      modifies this`count, this`groups, records
      ensures Indexed() && Underway(cfg, m, seen, seen, step, Contents(), stats', old(groups), groups)
      ensures stats'.candidateCount == stats'.recordsSeen == |candidates| && rc == stats'.lastError
    {
      ghost var before := groups;
      ClearMarks();
      rc, stats' := SeeAll(candidates, now, outcome, stats, m, step);
      SeenProgress(cfg, m, candidates, now, outcome, step);
      SeenTallied(cfg, m, candidates, now, outcome, step, stats);
      SeenMoved(cfg, m, candidates, now, outcome, step, before);
    }

    /** One record of the pass over the records no candidate named. */
    method SweepNext(
      i: nat, now: nat, outcome: MoveOutcome, stats: Stats, ghost m: Records, ghost seen: set<int>,
      ghost done: set<int>, ghost step: StepOf,
      ghost before: Groups)
      returns (rc: Rc, stats': Stats)
      requires Indexed() && i < count && Underway(cfg, m, seen, done, step, Contents(), stats, before, groups)
      requires !records[i].seen && UnseenFits(cfg, m, records[i].pid, now, outcome, step) && records[i].pid !in done
      modifies this`groups, records
      ensures Indexed() && SamePids(old(records[..count]), records[..count])
      ensures Underway(cfg, m, seen, done + {old(records[i].pid)}, step, Contents(), stats', before, groups)
      ensures stats'.candidateCount == stats.candidateCount && stats'.recordsSeen == stats.recordsSeen
      ensures stats'.lastError == if rc != Ok then rc else stats.lastError
    {
      ghost var current, moved, pid := Contents(), groups, records[i].pid;
      RecordAt(records[..count], i);
      ghost var r, a;
      rc, stats', r, a := SweepIndexed(i, now, outcome, stats);
      SweepKeeps(cfg, m, seen, done, now, outcome, step, current, pid, r, a, stats, before, moved);
      BookFrame(stats, a);
    }

    /** The pass over the records no candidate named. */
    method SweepAll(now: nat, outcome: MoveOutcome, stats: Stats, ghost m: Records, ghost seen: set<int>,
        ghost step: StepOf, ghost before: Groups)
      returns (rc: Rc, stats': Stats)
      requires Indexed() && OwnPids(m) && UnseenFit(cfg, m, seen, now, outcome, step)
      requires Underway(cfg, m, seen, seen, step, Contents(), stats, before, groups)
      modifies this`groups, records
      ensures Indexed() && Underway(cfg, m, seen, m.Keys + seen, step, Contents(), stats', before, groups)
      ensures stats'.candidateCount == stats.candidateCount && stats'.recordsSeen == stats.recordsSeen
              && rc == stats'.lastError
    {
      rc, stats' := stats.lastError, stats;
      ghost var done := seen;
      for i := 0 to count
        invariant Indexed() && Underway(cfg, m, seen, done, step, Contents(), stats', before, groups)
        invariant DoneUpTo(records[..count], i, seen, done)
        invariant stats'.candidateCount == stats.candidateCount && stats'.recordsSeen == stats.recordsSeen
                  && rc == stats'.lastError
      {
        ghost var s, pid := records[..count], records[i].pid;
        MarkIs(s, m, i, seen, done, step);
        if !records[i].seen {
          var failure;
          failure, stats' := SweepNext(i, now, outcome, stats', m, seen, done, step, before);
          if failure != Ok {
            rc := failure;
          }
        }
        DoneNext(s, records[..count], i, seen, done);
        done := done + {pid};
      }
      AllDone(records[..count], m.Keys + seen, seen, done);
    }

    /** One decision round. Validation is exact and atomic: unless it passes and the clock can be read, nothing changes.
        Afterwards every process has taken its own step and the statistics count exactly what was done. */
    method ApplyCandidates(candidates: seq<Candidate>, clock: Option<nat>, outcome: MoveOutcome)
        returns (rc: Rc, stats: Stats)
      requires Valid()
      modifies this`count, this`groups, records
      ensures Valid()
      ensures var verdict := old(Admission(candidates, clock));
              if verdict != Ok then
                && rc == verdict && stats == Refused(verdict) && Contents() == old(Contents()) && groups == old(groups)
              else
                && RoundDone(cfg, old(Contents()), candidates, clock.value, outcome, Contents(), stats, old(groups),
                    groups)
                && rc == if stats.errors > 0 then CgroupError else Ok
    {
      rc := Admit(candidates, clock);
      if rc != Ok {
        stats := Refused(rc);
      } else {
        rc, stats := ApplyValid(candidates, clock.value, outcome, CLEAR, Contents(), groups);
      }
    }

    /** What is checked before anything is changed: initialization, the candidates, the clock. */
    ghost function Admission(candidates: seq<Candidate>, clock: Option<nat>): Rc
      requires Valid()
      reads this, records
    {
      if initialized then Verdict(Contents(), candidates, records.Length, clock) else NotInitialized
    }

    method Admit(candidates: seq<Candidate>, clock: Option<nat>) returns (rc: Rc)
      requires Valid()
      ensures rc == Admission(candidates, clock)
    {
      if !initialized {
        return NotInitialized;
      }
      rc := Prevalidate(candidates);
      if rc == Ok && clock.None? {
        rc := TimeError;
      }
    }

    method ApplyValid(
      candidates: seq<Candidate>, now: nat, outcome: MoveOutcome, clear: Stats, ghost m: Records, ghost before: Groups)
      returns (rc: Rc, stats: Stats)
      requires initialized && Valid() && m == Contents() && before == groups && clear == CLEAR
      requires Verdict(m, candidates, records.Length, Some(now)) == Ok
      modifies this`count, this`groups, records
      ensures Valid() && initialized
      ensures RoundDone(cfg, m, candidates, now, outcome, Contents(), stats, before, groups)
      ensures rc == if stats.errors > 0 then CgroupError else Ok
    {
      OwnRecords(records[..count]);
      AllFit(cfg, m, candidates, now, outcome);
      ReadyFromValid(cfg, m, candidates, now, outcome, ApplySteps(cfg, m, candidates, now, outcome));
      RoomFor(m.Keys, CandidatePids(candidates), records.Length);
      rc, stats := ApplyPasses(candidates, now, outcome, clear, m, CandidatePids(candidates),
        ApplySteps(cfg, m, candidates, now, outcome));
      RoundConcludes(cfg, m, candidates, now, outcome, Contents(), stats, before, groups);
    }

    /** The passes of one round. */
    method ApplyPasses(candidates: seq<Candidate>, now: nat, outcome: MoveOutcome, clear: Stats, ghost m: Records,
        ghost seen: set<int>, ghost step: StepOf)
      returns (rc: Rc, stats: Stats)
      requires Indexed() && m == Contents() && OwnPids(m) && clear == CLEAR && seen == CandidatePids(candidates)
      requires SeenReady(cfg, m, candidates, now, outcome, step) && |m.Keys + seen| <= records.Length
      requires UnseenFit(cfg, m, seen, now, outcome, step)
      modifies this`count, this`groups, records
      ensures Indexed() && Underway(cfg, m, seen, m.Keys + seen, step, Contents(), stats, old(groups), groups)
      ensures stats.candidateCount == stats.recordsSeen == |candidates| && rc == stats.lastError
    {
      ghost var before := groups;
      stats := clear.(candidateCount := |candidates|);
      rc, stats := SeePass(candidates, now, outcome, stats, m, seen, step);
      rc, stats := SweepAll(now, outcome, stats, m, seen, step, before);
    }

    /** Rollback on daemon errors: every throttled process takes a release step. */
    method ReleaseAll(clock: Option<nat>, outcome: MoveOutcome) returns (rc: Rc, stats: Stats)
      requires Valid()
      modifies this`groups, records
      ensures Valid()
      ensures !old(initialized) ==> rc == NotInitialized && stats == CLEAR
      ensures old(initialized) && clock.None? ==> rc == TimeError && stats == SetError(CLEAR, TimeError)
      ensures !old(initialized) || clock.None? ==> Contents() == old(Contents()) && groups == old(groups)
      ensures old(initialized) && clock.Some? ==>
                && RolledBack(cfg, old(Contents()), clock.value, outcome, Contents())
                && Tallied(stats, RollbackActions(cfg, old(Contents()), clock.value, outcome), old(Contents().Keys))
                && MovedAs(cfg, old(groups), groups, RollbackActions(cfg, old(Contents()), clock.value, outcome),
                    old(Contents().Keys))
                && rc == if stats.errors > 0 then CgroupError else Ok
    {
      stats := CLEAR;
      if !initialized {
        return NotInitialized, stats;
      }
      if clock.None? {
        return TimeError, SetError(stats, TimeError);
      }
      var now := clock.value;
      ghost var m, before, step, done := Contents(), groups, RollbackSteps(cfg, Contents(), now, outcome), {};
      OwnRecords(records[..count]);
      RollbackFit(cfg, m, now, outcome);
      NobodyBusy(ActionsOf(step), {});
      rc := Ok;
      for i := 0 to count
        invariant Indexed() && Stepped(m, done, step, Contents()) && DoneUpTo(records[..count], i, {}, done)
        invariant Tallied(stats, ActionsOf(step), done) && MovedAs(cfg, before, groups, ActionsOf(step), done)
        invariant rc == stats.lastError
      {
        ghost var s, pid := records[..count], records[i].pid;
        assert s[i].pid == pid;
        var failure;
        failure, stats := RollbackNext(i, now, outcome, stats, m, done, step, before);
        DoneNext(s, records[..count], i, {}, done);
        if failure != Ok {
          rc := failure;
        }
        done := done + {pid};
      }
      AllDone(records[..count], m.Keys, {}, done);
      SteppedDone(cfg, m, now, outcome, Contents());
      if !cfg.dryRun {
        GroupsMatchRolledBack(cfg, m, now, outcome, Contents(), before, groups);
      }
    }

    /** The step of a record in a rollback. */
    method RollbackRecord(i: nat, now: nat, outcome: MoveOutcome, stats: Stats) returns (rc: Rc, stats': Stats)
      requires i < records.Length
      modifies records, this`groups
      ensures var (r, a) := RollbackStep(old(records[i]), now, Moved(cfg, outcome, old(records[i].pid)));
              && records[..] == old(records[..])[i := r] && stats' == Book(stats, a) && rc == FailureOf(a)
              && groups == MoveTo(cfg, old(groups), r.pid, a)
    {
      rc, stats' := Ok, stats;
      if records[i].state == State.Throttled {
        rc, stats' := ReleaseRecord(i, now, false, outcome, stats);
      }
    }

    method RollbackIndexed(i: nat, now: nat, outcome: MoveOutcome, stats: Stats)
      returns (rc: Rc, stats': Stats, ghost r: Record, ghost a: Action)
      requires Indexed() && i < count
      modifies this`groups, records
      ensures Indexed() && SamePids(old(records[..count]), records[..count])
      ensures (r, a) == RollbackStep(old(records[i]), now, Moved(cfg, outcome, old(records[i].pid)))
      ensures r.pid == old(records[i].pid) && Contents() == old(Contents())[r.pid := r]
      ensures stats' == Book(stats, a) && rc == FailureOf(a) && groups == MoveTo(cfg, old(groups), r.pid, a)
    {
      ghost var s, all := records[..count], records[..];
      ghost var taken := RollbackStep(s[i], now, Moved(cfg, outcome, s[i].pid));
      r, a := taken.0, taken.1;
      RecordReplace(s, i, r);
      rc, stats' := RollbackRecord(i, now, outcome, stats);
      assert records[..count] == all[i := r][..count] == s[i := r];
    }

    method RollbackNext(
      i: nat, now: nat, outcome: MoveOutcome, stats: Stats, ghost m: Records, ghost done: set<int>,
      ghost step: StepOf, ghost before: Groups)
      returns (rc: Rc, stats': Stats)
      requires Indexed() && i < count && Stepped(m, done, step, Contents()) && records[i].pid !in done
      requires forall pid :: pid in m ==> RollbackFits(cfg, m[pid], now, outcome, step)
      requires Tallied(stats, ActionsOf(step), done) && MovedAs(cfg, before, groups, ActionsOf(step), done)
      modifies this`groups, records
      ensures Indexed() && SamePids(old(records[..count]), records[..count])
      ensures var done' := done + {old(records[i].pid)};
              && Stepped(m, done', step, Contents())
              && Tallied(stats', ActionsOf(step), done') && MovedAs(cfg, before, groups, ActionsOf(step), done')
      ensures stats'.lastError == if rc != Ok then rc else stats.lastError
    {
      ghost var current, moved, pid := Contents(), groups, records[i].pid;
      RecordAt(records[..count], i);
      ghost var r, a;
      rc, stats', r, a := RollbackIndexed(i, now, outcome, stats);
      RollbackKeeps(cfg, m, done, now, outcome, step, current, pid, r, a, stats, before, moved);
      BookFrame(stats, a);
    }

    /** A copy of the record of a process. */
    method GetRecord(pid: int) returns (found: Option<Record>)
      requires Valid()
      ensures found == if initialized && pid > 0 then Lookup(Contents(), pid) else None
    {
      if !initialized || pid <= 0 {
        return None;
      }
      var i := FindRecord(pid);
      if i.None? {
        return None;
      }
      return Some(records[i.value]);
    }
  }

  lemma OwnRecords(records: seq<Record>)
    requires UniqueRecords(records)
    ensures OwnPids(RecordMap(records))
  {
  }

  lemma AllFit(cfg: Config, m: Records, candidates: seq<Candidate>, now: nat, outcome: MoveOutcome)
    requires ValidCandidates(candidates) && OwnPids(m)
    ensures forall k :: 0 <= k < |candidates| ==>
            SeenFits(cfg, m, candidates[k], now, outcome, ApplySteps(cfg, m, candidates, now, outcome))
    ensures UnseenFit(cfg, m, CandidatePids(candidates), now, outcome, ApplySteps(cfg, m, candidates, now, outcome))
  {
    forall k | 0 <= k < |candidates|
      ensures SeenFits(cfg, m, candidates[k], now, outcome, ApplySteps(cfg, m, candidates, now, outcome))
    {
      ApplyFitsSeen(cfg, m, candidates, k, now, outcome);
    }
    forall pid | pid !in CandidatePids(candidates)
      ensures UnseenFits(cfg, m, pid, now, outcome, ApplySteps(cfg, m, candidates, now, outcome))
    {
      ApplyFitsUnseen(cfg, m, candidates, pid, now, outcome);
    }
  }

  lemma RollbackFit(cfg: Config, m: Records, now: nat, outcome: MoveOutcome)
    requires OwnPids(m)
    ensures forall pid :: pid in m ==> RollbackFits(cfg, m[pid], now, outcome, RollbackSteps(cfg, m, now, outcome))
  {
  }

  lemma RoomFor(known: set<int>, named: set<int>, capacity: nat)
    requires |named - known| + |known| <= capacity
    ensures |known + named| <= capacity
  {
    assert known + named == known + (named - known);
  }

  lemma BookFrame(stats: Stats, a: Action)
    ensures var booked := Book(stats, a);
            && booked.candidateCount == stats.candidateCount && booked.recordsSeen == stats.recordsSeen
            && booked.lastError == if FailureOf(a) != Ok then FailureOf(a) else stats.lastError
  {
  }

  lemma RoomLeft(known: set<int>, candidates: seq<Candidate>, k: nat, current: Records)
    requires k < |candidates| && current.Keys == known + CandidatePids(candidates[..k])
    ensures candidates[k].pid in current || |current| < |known + CandidatePids(candidates)|
  {
    CandidatePidsNext(candidates, k);
    CandidatePidsPrefix(candidates, k + 1);
    MoreThan(current.Keys, candidates[k].pid, known + CandidatePids(candidates));
    assert |current| == |current.Keys|;
  }

  lemma CandidatePidsPrefix(candidates: seq<Candidate>, k: nat)
    requires k <= |candidates|
    ensures CandidatePids(candidates[..k]) <= CandidatePids(candidates)
  {
  }

  lemma MoreThan(pids: set<int>, pid: int, all: set<int>)
    requires pids + {pid} <= all
    ensures pid in pids || |pids| < |all|
  {
    SubsetCount(pids + {pid}, all);
  }

  /** No pid comes twice, and the call does about each candidate's process what the candidate's step is. */
  ghost predicate SeenReady(cfg: Config, m: Records, candidates: seq<Candidate>, now: nat, outcome: MoveOutcome,
      step: StepOf) {
    candidates == [] ||
    var n := |candidates| - 1;
    && SeenReady(cfg, m, candidates[..n], now, outcome, step)
    && candidates[n].pid !in CandidatePids(candidates[..n])
    && SeenFits(cfg, m, candidates[n], now, outcome, step)
  }

  lemma {:induction false} ReadyPrefix(
    cfg: Config, m: Records, candidates: seq<Candidate>, k: nat, now: nat, outcome: MoveOutcome, step: StepOf)
    requires SeenReady(cfg, m, candidates, now, outcome, step) && k <= |candidates|
    ensures SeenReady(cfg, m, candidates[..k], now, outcome, step)
  {
    if k < |candidates| {
      var n := |candidates| - 1;
      ReadyPrefix(cfg, m, candidates[..n], k, now, outcome, step);
      assert candidates[..n][..k] == candidates[..k];
    } else {
      assert candidates[..k] == candidates;
    }
  }

  lemma {:induction false} ReadyFromValid(cfg: Config, m: Records, candidates: seq<Candidate>, now: nat,
      outcome: MoveOutcome, step: StepOf)
    requires ValidCandidates(candidates)
    requires forall k :: 0 <= k < |candidates| ==> SeenFits(cfg, m, candidates[k], now, outcome, step)
    ensures SeenReady(cfg, m, candidates, now, outcome, step)
  {
    if candidates != [] {
      var n := |candidates| - 1;
      CandidateNew(candidates, n);
      ReadyFromValid(cfg, m, candidates[..n], now, outcome, step);
    }
  }

  /** The records, the statistics and the groups after the steps of some candidates. */
  ghost function SeenRecords(m: Records, step: StepOf, candidates: seq<Candidate>): Records {
    if candidates == [] then Unmarked(m)
    else
      var n := |candidates| - 1;
      var pid := candidates[n].pid;
      var r := step(pid).0;
      if r.Some? then SeenRecords(m, step, candidates[..n])[pid := r.value] else SeenRecords(m, step, candidates[..n])
  }

  ghost function SeenStats(stats: Stats, step: StepOf, candidates: seq<Candidate>): Stats {
    if candidates == [] then stats
    else
      var n := |candidates| - 1;
      var before := SeenStats(stats, step, candidates[..n]);
      Book(before.(recordsSeen := before.recordsSeen + 1), step(candidates[n].pid).1)
  }

  ghost function SeenGroups(cfg: Config, groups: Groups, step: StepOf, candidates: seq<Candidate>): Groups {
    if candidates == [] then groups
    else
      var n := |candidates| - 1;
      MoveTo(cfg, SeenGroups(cfg, groups, step, candidates[..n]), candidates[n].pid, step(candidates[n].pid).1)
  }

  lemma SeenNext(
    cfg: Config, m: Records, candidates: seq<Candidate>, k: nat, clear: Stats, stats: Stats, groups: Groups,
    step: StepOf)
    requires k < |candidates| && step(candidates[k].pid).0.Some? && stats == SeenStats(clear, step, candidates[..k])
    ensures var pid := candidates[k].pid;
            && SeenRecords(m, step, candidates[..k + 1])
                == SeenRecords(m, step, candidates[..k])[pid := step(pid).0.value]
            && SeenGroups(cfg, groups, step, candidates[..k + 1])
                == MoveTo(cfg, SeenGroups(cfg, groups, step, candidates[..k]), pid, step(pid).1)
    ensures SeenStats(clear, step, candidates[..k + 1])
            == Book(stats.(recordsSeen := stats.recordsSeen + 1), step(candidates[k].pid).1)
  {
    assert candidates[..k + 1][..k] == candidates[..k];
  }

  lemma SeenError(candidates: seq<Candidate>, k: nat, stats: Stats, step: StepOf)
    requires k < |candidates|
    ensures var a := step(candidates[k].pid).1;
            SeenStats(stats, step, candidates[..k + 1]).lastError ==
            if FailureOf(a) != Ok then FailureOf(a) else SeenStats(stats, step, candidates[..k]).lastError
  {
    assert candidates[..k + 1][..k] == candidates[..k];
    var before := SeenStats(stats, step, candidates[..k]);
    BookFrame(before.(recordsSeen := before.recordsSeen + 1), step(candidates[k].pid).1);
  }

  /** There is room for the candidate's record, and the candidate's step on the current records is its step of the
      call. */
  ghost predicate Takes(cfg: Config, current: Records, c: Candidate, now: nat, outcome: MoveOutcome, step: StepOf,
      capacity: nat) {
    && (c.pid in current || |current| < capacity)
    && step(c.pid).0.Some?
    && SeenStep(cfg, StartOf(Lookup(current, c.pid), c.pid, now), c, now, Moved(cfg, outcome, c.pid))
       == (step(c.pid).0.value, step(c.pid).1)
  }

  /** A candidate whose turn it is finds its record as it was, has room, and takes the step of the call. */
  lemma SeenHere(
    cfg: Config, m: Records, candidates: seq<Candidate>, k: nat, now: nat, outcome: MoveOutcome, step: StepOf,
    capacity: nat)
    requires k < |candidates| && SeenReady(cfg, m, candidates, now, outcome, step)
    requires |m.Keys + CandidatePids(candidates)| <= capacity
    ensures Takes(cfg, SeenRecords(m, step, candidates[..k]), candidates[k], now, outcome, step, capacity)
  {
    var c, current := candidates[k], SeenRecords(m, step, candidates[..k]);
    ReadyPrefix(cfg, m, candidates, k, now, outcome, step);
    ReadyPrefix(cfg, m, candidates, k + 1, now, outcome, step);
    assert candidates[..k + 1][..k] == candidates[..k];
    SeenElsewhere(cfg, m, candidates[..k], now, outcome, step);
    RoomLeft(m.Keys, candidates, k, current);
    assert Lookup(current, c.pid) == Lookup(Unmarked(m), c.pid);
  }

  /** The steps so far have not touched other processes. */
  lemma {:induction false} SeenElsewhere(
    cfg: Config, m: Records, candidates: seq<Candidate>, now: nat, outcome: MoveOutcome, step: StepOf)
    requires SeenReady(cfg, m, candidates, now, outcome, step)
    ensures var current := SeenRecords(m, step, candidates);
            && current.Keys == m.Keys + CandidatePids(candidates)
            && forall pid :: pid !in CandidatePids(candidates) ==> Lookup(current, pid) == Lookup(Unmarked(m), pid)
  {
    if candidates != [] {
      var n := |candidates| - 1;
      SeenElsewhere(cfg, m, candidates[..n], now, outcome, step);
      CandidatePidsLast(candidates);
    }
  }

  /** After the pass everything it promises holds. */
  lemma {:induction false} SeenProgress(
    cfg: Config, m: Records, candidates: seq<Candidate>, now: nat, outcome: MoveOutcome, step: StepOf)
    requires OwnPids(m) && SeenReady(cfg, m, candidates, now, outcome, step)
    ensures Progress(m, CandidatePids(candidates), CandidatePids(candidates), step, SeenRecords(m, step, candidates))
  {
    if candidates != [] {
      var n := |candidates| - 1;
      SeenProgress(cfg, m, candidates[..n], now, outcome, step);
      CandidatePidsLast(candidates);
      ProgressNext(m, CandidatePids(candidates[..n]), step, SeenRecords(m, step, candidates[..n]),
          step(candidates[n].pid).0.value);
    }
  }

  lemma {:induction false} SeenTallied(
    cfg: Config, m: Records, candidates: seq<Candidate>, now: nat, outcome: MoveOutcome, step: StepOf, stats: Stats)
    requires SeenReady(cfg, m, candidates, now, outcome, step)
             && stats == CLEAR.(candidateCount := stats.candidateCount)
    ensures var stats' := SeenStats(stats, step, candidates);
            && Tallied(stats', ActionsOf(step), CandidatePids(candidates))
            && stats'.recordsSeen == |candidates| && stats'.candidateCount == stats.candidateCount
  {
    if candidates == [] {
      NobodyBusy(ActionsOf(step), {});
    } else {
      var n := |candidates| - 1;
      var before, pid := SeenStats(stats, step, candidates[..n]), candidates[n].pid;
      SeenTallied(cfg, m, candidates[..n], now, outcome, step, stats);
      CandidatePidsLast(candidates);
      TallyAdd(before.(recordsSeen := n + 1), ActionsOf(step), CandidatePids(candidates[..n]), pid);
      BookFrame(before.(recordsSeen := n + 1), step(pid).1);
    }
  }

  lemma {:induction false} SeenMoved(
    cfg: Config, m: Records, candidates: seq<Candidate>, now: nat, outcome: MoveOutcome, step: StepOf, before: Groups)
    requires SeenReady(cfg, m, candidates, now, outcome, step)
    ensures MovedAs(cfg, before, SeenGroups(cfg, before, step, candidates), ActionsOf(step), CandidatePids(candidates))
  {
    if candidates != [] {
      var n := |candidates| - 1;
      SeenMoved(cfg, m, candidates[..n], now, outcome, step, before);
      CandidatePidsLast(candidates);
      MovedNext(cfg, before, SeenGroups(cfg, before, step, candidates[..n]), ActionsOf(step),
          CandidatePids(candidates[..n]), candidates[n].pid);
    }
  }

  lemma CandidatePidsLast(candidates: seq<Candidate>)
    requires candidates != []
    ensures CandidatePids(candidates)
            == CandidatePids(candidates[..|candidates| - 1]) + {candidates[|candidates| - 1].pid}
  {
    var n := |candidates| - 1;
    assert candidates[..n + 1] == candidates;
    CandidatePidsNext(candidates, n);
  }

  lemma ProgressNext(m: Records, seen: set<int>, step: StepOf, current: Records, r: Record)
    requires Progress(m, seen, seen, step, current) && r.pid !in seen
    requires r.seen && Some(r) == step(r.pid).0
    ensures Progress(m, seen + {r.pid}, seen + {r.pid}, step, current[r.pid := r])
  {
  }

  /** One unseen record's step keeps everything the pass promises. */
  lemma SweepKeeps(
    cfg: Config, m: Records, seen: set<int>, done: set<int>, now: nat, outcome: MoveOutcome, step: StepOf,
    current: Records,
    pid: int, r: Record, a: Action, stats: Stats, before: Groups, groups: Groups)
    requires Underway(cfg, m, seen, done, step, current, stats, before, groups)
    requires pid in current && pid !in seen && pid !in done && UnseenFits(cfg, m, pid, now, outcome, step)
    requires (r, a) == UnseenStep(cfg, current[pid], now, Moved(cfg, outcome, pid))
    ensures Underway(cfg, m, seen, done + {pid}, step, current[pid := r], Book(stats, a), before,
              MoveTo(cfg, groups, pid, a))
  {
    var act := ActionsOf(step);
    assert current[pid] == m[pid].(seen := false);
    assert step(pid) == (Some(r), a) && r.pid == pid && !r.seen;
    UnseenNext(m, seen, done, step, current, r);
    TallyAdd(stats, act, done, pid);
    MovedNext(cfg, before, groups, act, done, pid);
  }

  ghost predicate SamePids(s: seq<Record>, s': seq<Record>) {
    |s'| == |s| && forall j :: 0 <= j < |s| ==> s'[j].pid == s[j].pid
  }

  /** Only the recorded processes are done: the first `i` and the seen ones. */
  ghost predicate DoneUpTo(records: seq<Record>, i: nat, seen: set<int>, done: set<int>) {
    && (forall j :: 0 <= j < |records| ==> (records[j].pid in done <==> j < i || records[j].pid in seen))
    && (forall pid :: pid in done ==> pid in seen || exists j :: 0 <= j < |records| && records[j].pid == pid)
  }

  /** A record is marked exactly when a candidate named its process. */
  lemma MarkIs(records: seq<Record>, m: Records, i: nat, seen: set<int>, done: set<int>, step: StepOf)
    requires UniqueRecords(records) && i < |records|
    requires Progress(m, seen, done, step, RecordMap(records)) && DoneUpTo(records, i, seen, done)
    ensures records[i].seen <==> records[i].pid in seen
    ensures records[i].seen <==> records[i].pid in done
    ensures records[i].seen ==> done + {records[i].pid} == done
  {
    RecordAt(records, i);
  }

  lemma DoneNext(records: seq<Record>, records': seq<Record>, i: nat, seen: set<int>, done: set<int>)
    requires UniqueRecords(records) && SamePids(records, records') && i < |records| && DoneUpTo(records, i, seen, done)
    ensures DoneUpTo(records', i + 1, seen, done + {records[i].pid})
  {
    forall pid | pid in done + {records[i].pid} && pid !in seen
      ensures exists j :: 0 <= j < |records'| && records'[j].pid == pid
    {
      var j :| 0 <= j < |records| && records[j].pid == pid;
      assert records'[j].pid == pid;
    }
  }

  lemma AllDone(records: seq<Record>, pids: set<int>, seen: set<int>, done: set<int>)
    requires UniqueRecords(records) && RecordMap(records).Keys == pids && seen <= pids
    requires DoneUpTo(records, |records|, seen, done)
    ensures done == pids
  {
    forall pid
      ensures pid in done <==> pid in pids
    {
      if pid in pids {
        var i := RecordIndex(records, pid);
      }
      if pid in done && pid !in seen {
        var j :| 0 <= j < |records| && records[j].pid == pid;
        RecordAt(records, j);
      }
    }
  }

  lemma UpdateTwice(m: Records, pid: int, r: Record, r': Record)
    ensures m[pid := r][pid := r'] == m[pid := r']
  {
  }

  /** The error an action ends with. */
  function FailureOf(a: Action): Rc {
    if a == ThrottleFailed || a == ReleaseFailed then CgroupError else Ok
  }

  lemma UnmarkedRecords(before: seq<Record>, after: seq<Record>)
    requires UniqueRecords(before) && |after| == |before|
    requires forall k :: 0 <= k < |before| ==> after[k] == before[k].(seen := false)
    ensures UniqueRecords(after) && RecordMap(after) == Unmarked(RecordMap(before))
  {
    var m, m' := RecordMap(before), RecordMap(after);
    forall pid
      ensures pid in m' <==> pid in m
      ensures pid in m' ==> m'[pid] == m[pid].(seen := false)
    {
      if pid in m {
        var j := RecordIndex(before, pid);
        RecordAt(after, j);
      }
      if pid in m' {
        var j := RecordIndex(after, pid);
        RecordAt(before, j);
      }
    }
  }

  method Repeats(candidates: seq<Candidate>, i: nat) returns (repeated: bool)
    requires i < |candidates|
    ensures repeated <==> exists k :: 0 <= k < i && candidates[i].pid == candidates[k].pid
  {
    for j := 0 to i
      invariant forall k :: 0 <= k < j ==> candidates[i].pid != candidates[k].pid
    {
      if candidates[i].pid == candidates[j].pid {
        return true;
      }
    }
    return false;
  }

  lemma ValidNext(candidates: seq<Candidate>, i: nat)
    requires i < |candidates| && ValidCandidates(candidates[..i]) && ValidCandidate(candidates[i])
    requires forall k :: 0 <= k < i ==> candidates[i].pid != candidates[k].pid
    ensures ValidCandidates(candidates[..i + 1])
  {
  }

  lemma FreshPidsStep(candidates: seq<Candidate>, i: nat, known: set<int>)
    requires i < |candidates| && forall k :: 0 <= k < i ==> candidates[i].pid != candidates[k].pid
    ensures |CandidatePids(candidates[..i + 1]) - known|
            == |CandidatePids(candidates[..i]) - known| + if candidates[i].pid in known then 0 else 1
  {
    CandidatePidsNext(candidates, i);
    var before, pid := CandidatePids(candidates[..i]) - known, candidates[i].pid;
    assert pid !in CandidatePids(candidates[..i]);
    if pid in known {
      assert CandidatePids(candidates[..i + 1]) - known == before;
    } else {
      assert CandidatePids(candidates[..i + 1]) - known == before + {pid};
    }
  }
}
