/** The throttle controller's per-process state machine, one process at a time. */
module ThrottleRecords {
  import opened Options
  import opened ProcessSlots
  import opened FiniteSets

  datatype Rc = Ok | InvalidArg | NoSpace | TimeError | CgroupError | NotInitialized

  datatype State = Normal | Throttled | Cooldown

  /** A control value that is not to be configured is missing. */
  datatype Config = Config(
    normalGroup: Group, throttledGroup: Group, protectedGroup: Group,
    highScore: real, lowScore: real,
    minThrottleMs: nat, cooldownMs: nat, staleMs: nat, maxRecords: nat, dryRun: bool,
    cpuMax: Option<string>, memoryLow: Option<string>)

  datatype Candidate = Candidate(
    pid: int, activity: real, overlap: real, finalScore: real, commonPages: nat, active: bool, shouldThrottle: bool)

  datatype Record = Record(
    pid: int, state: State, firstSeen: nat, lastSeen: nat, entered: nat, lastAction: nat,
    activity: real, overlap: real, finalScore: real, commonPages: nat, seen: bool, shouldThrottle: bool, lastError: Rc)

  /** What was done about one process in one call. */
  datatype Action =
    NoAction | ThrottleDone | ThrottleFailed | ReleaseDone(stale: bool) | ReleaseFailed | Kept | LowScore | CoolingDown

  // ----- Configuration

  predicate ControlGroup(g: Group) {
    g == Protected || g == Background || g == Group.Throttled
  }

  const VALUE_MAX: nat := 64

  /** A text that can be written to a control file in one line. */
  predicate ValidControlValue(value: string) {
    0 < |value| < VALUE_MAX && forall i :: 0 <= i < |value| ==> value[i] != '\n' && value[i] != '\r'
  }

  predicate ValidConfig(cfg: Config) {
    && ControlGroup(cfg.normalGroup) && ControlGroup(cfg.throttledGroup) && ControlGroup(cfg.protectedGroup)
    && cfg.normalGroup != cfg.throttledGroup && cfg.normalGroup != cfg.protectedGroup
    && cfg.throttledGroup != cfg.protectedGroup
    && 0.0 <= cfg.lowScore <= cfg.highScore <= 1.0
    && cfg.maxRecords > 0
    && (cfg.cpuMax.Some? ==> ValidControlValue(cfg.cpuMax.value))
    && (cfg.memoryLow.Some? ==> ValidControlValue(cfg.memoryLow.value))
  }

  // ----- Time

  const UINT64_MAX: nat := 0xFFFF_FFFF_FFFF_FFFF

  /** Milliseconds to nanoseconds, saturating. */
  function MsToNs(ms: nat): nat {
    if ms > UINT64_MAX / 1000000 then UINT64_MAX else ms * 1000000
  }

  predicate ElapsedAtLeast(now: nat, start: nat, ms: nat) {
    now >= start && now - start >= MsToNs(ms)
  }

  // ----- One process

  predicate RequestsThrottle(cfg: Config, c: Candidate) {
    c.active && c.shouldThrottle && c.finalScore >= cfg.highScore
  }

  function NewRecord(pid: int, now: nat): Record {
    Record(pid, Normal, now, now, now, 0, 0.0, 0.0, 0.0, 0, false, false, Ok)
  }

  /** Remembers what the detector said. */
  function Observe(r: Record, c: Candidate, now: nat): Record {
    r.(seen := true, lastSeen := now, activity := c.activity, overlap := c.overlap, finalScore := c.finalScore,
       commonPages := c.commonPages, shouldThrottle := c.shouldThrottle, lastError := Ok)
  }

  /** The attempt to throttle; a failed move changes nothing but the error. */
  function TryThrottle(r: Record, now: nat, moved: bool): (Record, Action) {
    if moved then (r.(state := State.Throttled, entered := now, lastAction := now, lastError := Ok), ThrottleDone)
    else (r.(lastError := CgroupError), ThrottleFailed)
  }

  /** The attempt to release. */
  function TryRelease(r: Record, now: nat, stale: bool, moved: bool): (Record, Action) {
    if moved then (r.(state := Cooldown, entered := now, lastAction := now, lastError := Ok), ReleaseDone(stale))
    else (r.(lastError := CgroupError), ReleaseFailed)
  }

  /** The record a candidate's step starts from: its own, or a new one. */
  function StartOf(previous: Option<Record>, pid: int, now: nat): Record {
    if previous.Some? then previous.value else NewRecord(pid, now)
  }

  /** A process that is among the candidates. */
  function SeenStep(cfg: Config, start: Record, c: Candidate, now: nat, moved: bool): (Record, Action) {
    var r := Observe(start, c, now);
    match r.state
    case Normal =>
      if RequestsThrottle(cfg, c) then TryThrottle(r, now, moved) else (r, LowScore)
    case Throttled =>
      if c.finalScore <= cfg.lowScore
          && ElapsedAtLeast(now, r.entered, cfg.minThrottleMs) then TryRelease(r, now, false, moved)
      else (r, Kept)
    case Cooldown =>
      if !ElapsedAtLeast(now, r.entered, cfg.cooldownMs) then (r, CoolingDown)
      else
        var n := r.(state := Normal, entered := now);
        if RequestsThrottle(cfg, c) then TryThrottle(n, now, moved) else (n, LowScore)
  }

  /** A recorded process that is not among the candidates. */
  function UnseenStep(cfg: Config, previous: Record, now: nat, moved: bool): (Record, Action) {
    var r := previous.(seen := false);
    match r.state
    case Normal => (r, NoAction)
    case Throttled =>
      if ElapsedAtLeast(now, r.lastSeen, cfg.staleMs) && ElapsedAtLeast(now, r.entered, cfg.minThrottleMs)
      then TryRelease(r, now, true, moved)
      else (r, Kept)
    case Cooldown =>
      if ElapsedAtLeast(now, r.entered, cfg.cooldownMs) then (r.(state := Normal, entered := now), NoAction)
          else (r, NoAction)
  }

  /** The rollback on daemon errors. */
  function RollbackStep(r: Record, now: nat, moved: bool): (Record, Action) {
    if r.state == State.Throttled then TryRelease(r, now, false, moved) else (r, NoAction)
  }

  /** The group a process is in after an action. */
  function GroupAfter(cfg: Config, group: Option<Group>, action: Action): Option<Group> {
    if cfg.dryRun then group
    else match action
      case ThrottleDone => Some(cfg.throttledGroup)
      case ReleaseDone(_) => Some(cfg.normalGroup)
      case _ => group
  }

  // ----- All processes

  type Records = map<int, Record>

  type MoveOutcome = int -> bool

  function Lookup(m: Records, pid: int): Option<Record> {
    if pid in m then Some(m[pid]) else None
  }

  function CandidatePids(candidates: seq<Candidate>): set<int> {
    set i | 0 <= i < |candidates| :: candidates[i].pid
  }

  /** The candidate with this pid. */
  function CandidateFor(candidates: seq<Candidate>, pid: int): Option<Candidate> {
    if candidates == [] then None
    else if candidates[|candidates| - 1].pid == pid then Some(candidates[|candidates| - 1])
    else CandidateFor(candidates[..|candidates| - 1], pid)
  }

  /** Whether an attempted move of the process takes effect. */
  predicate Moved(cfg: Config, outcome: MoveOutcome, pid: int) {
    cfg.dryRun || outcome(pid)
  }

  /** What one call of apply does about one process: a function of its own record and candidate alone. */
  function PidStep(cfg: Config, previous: Option<Record>, c: Option<Candidate>, now: nat,
      moved: bool): (Option<Record>, Action) {
    match c
    case Some(candidate) => var (r, a) :=
        SeenStep(cfg, StartOf(previous, candidate.pid, now), candidate, now, moved); (Some(r), a)
    case None =>
      if previous.None? then (None, NoAction)
      else var (r, a) := UnseenStep(cfg, previous.value, now, moved); (Some(r), a)
  }

  function ApplyAt(cfg: Config, m: Records, candidates: seq<Candidate>, now: nat, outcome: MoveOutcome,
      pid: int): (Option<Record>, Action) {
    PidStep(cfg, Lookup(m, pid), CandidateFor(candidates, pid), now, Moved(cfg, outcome, pid))
  }

  /** The records after one call: every process takes its own step. */
  ghost predicate Applied(cfg: Config, m: Records, candidates: seq<Candidate>, now: nat, outcome: MoveOutcome,
      m': Records) {
    && m'.Keys == m.Keys + CandidatePids(candidates)
    && forall pid :: Lookup(m', pid) == ApplyAt(cfg, m, candidates, now, outcome, pid).0
  }

  // ----- Prevalidation

  predicate ValidCandidate(c: Candidate) {
    c.pid > 0 && 0.0 <= c.activity <= 1.0 && 0.0 <= c.overlap <= 1.0 && 0.0 <= c.finalScore <= 1.0
  }

  predicate ValidCandidates(candidates: seq<Candidate>) {
    && (forall i :: 0 <= i < |candidates| ==> ValidCandidate(candidates[i]))
    && (forall i, j :: 0 <= j < i < |candidates| ==> candidates[i].pid != candidates[j].pid)
  }

  /** The verdict on a call before anything is changed. */
  function Verdict(m: Records, candidates: seq<Candidate>, capacity: nat, clock: Option<nat>): Rc {
    if !ValidCandidates(candidates) then InvalidArg
    else if |CandidatePids(candidates) - m.Keys| + |m| > capacity then NoSpace
    else if clock.None? then TimeError
    else Ok
  }

  lemma {:induction false} CandidateForNone(candidates: seq<Candidate>, pid: int)
    ensures CandidateFor(candidates, pid).None? <==> pid !in CandidatePids(candidates)
    ensures CandidateFor(candidates, pid).Some? ==>
            CandidateFor(candidates, pid).value in candidates && CandidateFor(candidates, pid).value.pid == pid
  {
    if candidates != [] {
      var n := |candidates| - 1;
      CandidateForNone(candidates[..n], pid);
      assert CandidatePids(candidates) == CandidatePids(candidates[..n]) + {candidates[n].pid};
    }
  }

  /** With distinct pids, the candidate for a pid does not depend on the order of the list. */
  lemma {:induction false} CandidateForAt(candidates: seq<Candidate>, i: nat)
    requires i < |candidates|
    requires forall i, j :: 0 <= j < i < |candidates| ==> candidates[i].pid != candidates[j].pid
    ensures CandidateFor(candidates, candidates[i].pid) == Some(candidates[i])
  {
    var n := |candidates| - 1;
    if i < n {
      CandidateForAt(candidates[..n], i);
      assert candidates[n].pid != candidates[i].pid;
    }
  }

  /** Reordering the candidates does not change the effect of the call. */
  lemma OrderIrrelevant(
    cfg: Config, m: Records, candidates: seq<Candidate>, reordered: seq<Candidate>, now: nat, outcome: MoveOutcome,
    m': Records)
    requires ValidCandidates(candidates) && multiset(candidates) == multiset(reordered) && ValidCandidates(reordered)
    requires Applied(cfg, m, candidates, now, outcome, m')
    ensures Applied(cfg, m, reordered, now, outcome, m')
  {
    assert forall c :: c in candidates <==> c in multiset(candidates);
    assert forall c :: c in reordered <==> c in multiset(reordered);
    forall pid
      ensures CandidateFor(reordered, pid) == CandidateFor(candidates, pid)
      ensures pid in CandidatePids(reordered) <==> pid in CandidatePids(candidates)
    {
      CandidateForNone(candidates, pid);
      CandidateForNone(reordered, pid);
      if CandidateFor(candidates, pid).Some? {
        var c := CandidateFor(candidates, pid).value;
        var i :| 0 <= i < |reordered| && reordered[i] == c;
        CandidateForAt(reordered, i);
      }
    }
  }

  // ----- Statistics

  datatype Stats = Stats(
    candidateCount: nat, recordsSeen: nat, throttleActions: nat, releaseActions: nat, keptThrottled: nat,
    skippedLowScore: nat, skippedCooldown: nat, staleReleases: nat, errors: nat, lastError: Rc)

  const CLEAR := Stats(0, 0, 0, 0, 0, 0, 0, 0, 0, Ok)

  function SetError(stats: Stats, rc: Rc): Stats {
    stats.(errors := stats.errors + 1, lastError := rc)
  }

  /** How an action is booked. */
  function Book(stats: Stats, action: Action): Stats {
    match action
    case NoAction => stats
    case ThrottleDone => stats.(throttleActions := stats.throttleActions + 1)
    case ReleaseDone(stale) =>
      stats.(releaseActions := stats.releaseActions + 1, staleReleases := stats.staleReleases + if stale then 1 else 0)
    case ThrottleFailed => SetError(stats, CgroupError)
    case ReleaseFailed => SetError(stats, CgroupError)
    case Kept => stats.(keptThrottled := stats.keptThrottled + 1)
    case LowScore => stats.(skippedLowScore := stats.skippedLowScore + 1)
    case CoolingDown => stats.(skippedCooldown := stats.skippedCooldown + 1)
  }

  type ActionOf = int -> Action

  ghost function Doing(act: ActionOf, pids: set<int>, action: Action): set<int> {
    set pid | pid in pids && act(pid) == action
  }

  /** The statistics count exactly the processes to which each thing was done. */
  ghost predicate Tallied(stats: Stats, act: ActionOf, pids: set<int>) {
    && stats.throttleActions == |Doing(act, pids, ThrottleDone)|
    && stats.staleReleases == |Doing(act, pids, ReleaseDone(true))|
    && stats.releaseActions == |Doing(act, pids, ReleaseDone(true))| + |Doing(act, pids, ReleaseDone(false))|
    && stats.errors == |Doing(act, pids, ThrottleFailed)| + |Doing(act, pids, ReleaseFailed)|
    && stats.keptThrottled == |Doing(act, pids, Kept)|
    && stats.skippedLowScore == |Doing(act, pids, LowScore)|
    && stats.skippedCooldown == |Doing(act, pids, CoolingDown)|
    && stats.lastError == (if stats.errors > 0 then CgroupError else Ok)
  }

  lemma DoingAdd(act: ActionOf, pids: set<int>, pid: int, action: Action)
    requires pid !in pids
    ensures |Doing(act, pids + {pid}, action)| == |Doing(act, pids, action)| + if act(pid) == action then 1 else 0
  {
    if act(pid) == action {
      assert Doing(act, pids + {pid}, action) == Doing(act, pids, action) + {pid};
    } else {
      assert Doing(act, pids + {pid}, action) == Doing(act, pids, action);
    }
  }

  lemma TallyAdd(stats: Stats, act: ActionOf, pids: set<int>, pid: int)
    requires Tallied(stats, act, pids) && pid !in pids
    ensures Tallied(Book(stats, act(pid)), act, pids + {pid})
  {
    DoingAdd(act, pids, pid, ThrottleDone);
    DoingAdd(act, pids, pid, ReleaseDone(true));
    DoingAdd(act, pids, pid, ReleaseDone(false));
    DoingAdd(act, pids, pid, ThrottleFailed);
    DoingAdd(act, pids, pid, ReleaseFailed);
    DoingAdd(act, pids, pid, Kept);
    DoingAdd(act, pids, pid, LowScore);
    DoingAdd(act, pids, pid, CoolingDown);
  }

  /** The booked outcomes add up to the processes about which something had to be decided. */
  function Booked(stats: Stats): nat {
    stats.throttleActions + stats.releaseActions + stats.keptThrottled + stats.skippedLowScore + stats.skippedCooldown
        + stats.errors
  }

  ghost function Busy(act: ActionOf, pids: set<int>): set<int> {
    set pid | pid in pids && act(pid) != NoAction
  }

  lemma {:induction false} BusyCount(act: ActionOf, pids: set<int>)
    ensures |Busy(act, pids)| ==
            |Doing(act, pids, ThrottleDone)| + |Doing(act, pids, ReleaseDone(true))|
                + |Doing(act, pids, ReleaseDone(false))|
            + |Doing(act, pids, ThrottleFailed)| + |Doing(act, pids, ReleaseFailed)| + |Doing(act, pids, Kept)|
            + |Doing(act, pids, LowScore)| + |Doing(act, pids, CoolingDown)|
  {
    if pids == {} {
      NobodyBusy(act, pids);
    } else {
      var pid := AnyOf(pids);
      var rest := pids - {pid};
      BusyCount(act, rest);
      assert pids == rest + {pid};
      BusyAdd(act, rest, pid);
      DoingAdd(act, rest, pid, ThrottleDone);
      DoingAdd(act, rest, pid, ReleaseDone(true));
      DoingAdd(act, rest, pid, ReleaseDone(false));
      DoingAdd(act, rest, pid, ThrottleFailed);
      DoingAdd(act, rest, pid, ReleaseFailed);
      DoingAdd(act, rest, pid, Kept);
      DoingAdd(act, rest, pid, LowScore);
      DoingAdd(act, rest, pid, CoolingDown);
    }
  }

  lemma NobodyBusy(act: ActionOf, pids: set<int>)
    requires pids == {}
    ensures Busy(act, pids) == {} && forall action :: Doing(act, pids, action) == {}
  {
  }

  lemma BusyAdd(act: ActionOf, pids: set<int>, pid: int)
    requires pid !in pids
    ensures |Busy(act, pids + {pid})| == |Busy(act, pids)| + if act(pid) == NoAction then 0 else 1
  {
    if act(pid) == NoAction {
      assert Busy(act, pids + {pid}) == Busy(act, pids);
    } else {
      assert Busy(act, pids + {pid}) == Busy(act, pids) + {pid};
    }
  }

  lemma BookedBalance(stats: Stats, act: ActionOf, pids: set<int>)
    requires Tallied(stats, act, pids)
    ensures Booked(stats) == |Busy(act, pids)|
  {
    BusyCount(act, pids);
  }

  /** What a call does about each process. */
  type StepOf = int -> (Option<Record>, Action)

  ghost function ActionsOf(step: StepOf): ActionOf {
    (pid: int) => step(pid).1
  }

  ghost function ApplySteps(cfg: Config, m: Records, candidates: seq<Candidate>, now: nat,
      outcome: MoveOutcome): StepOf {
    (pid: int) => ApplyAt(cfg, m, candidates, now, outcome, pid)
  }

  ghost function ApplyActions(cfg: Config, m: Records, candidates: seq<Candidate>, now: nat,
      outcome: MoveOutcome): ActionOf {
    ActionsOf(ApplySteps(cfg, m, candidates, now, outcome))
  }

  /** The throttled processes that no candidate names. */
  ghost function UnseenThrottled(m: Records, candidates: seq<Candidate>): set<int> {
    set pid | pid in m && pid !in CandidatePids(candidates) && m[pid].state == State.Throttled
  }

  /** After a successful call the booked outcomes are the candidates plus the throttled records unseen. */
  lemma StatsBalance(cfg: Config, m: Records, candidates: seq<Candidate>, now: nat, outcome: MoveOutcome, stats: Stats)
    requires ValidCandidates(candidates)
    requires Tallied(stats, ApplyActions(cfg, m, candidates, now, outcome), m.Keys + CandidatePids(candidates))
    ensures Booked(stats) == |candidates| + |UnseenThrottled(m, candidates)|
  {
    var act := ApplyActions(cfg, m, candidates, now, outcome);
    var pids := m.Keys + CandidatePids(candidates);
    BookedBalance(stats, act, pids);
    forall pid | pid in pids
      ensures act(pid) != NoAction <==> pid in CandidatePids(candidates) + UnseenThrottled(m, candidates)
    {
      DecidedIff(cfg, m, candidates, now, outcome, pid);
    }
    assert Busy(act, pids) == CandidatePids(candidates) + UnseenThrottled(m, candidates);
    CandidatePidsCount(candidates);
  }

  lemma DecidedIff(cfg: Config, m: Records, candidates: seq<Candidate>, now: nat, outcome: MoveOutcome, pid: int)
    ensures ApplyAt(cfg, m, candidates, now, outcome, pid).1 != NoAction <==>
            pid in CandidatePids(candidates) || pid in UnseenThrottled(m, candidates)
  {
    CandidateForNone(candidates, pid);
  }

  lemma {:induction false} CandidatePidsCount(candidates: seq<Candidate>)
    requires forall i, j :: 0 <= j < i < |candidates| ==> candidates[i].pid != candidates[j].pid
    ensures |CandidatePids(candidates)| == |candidates|
  {
    if candidates != [] {
      var n := |candidates| - 1;
      CandidatePidsCount(candidates[..n]);
      assert CandidatePids(candidates) == CandidatePids(candidates[..n]) + {candidates[n].pid};
      assert candidates[n].pid !in CandidatePids(candidates[..n]);
    }
  }
}
