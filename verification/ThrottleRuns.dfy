/** Whole runs of the controller: how often one process can be throttled. */
module ThrottleRuns {
  import opened Options
  import opened Arithmetic
  import opened ThrottleRecords
  import opened ThrottleController

  /** A call of the controller, with the clock reading and the outcomes of the cgroup moves it meets. */
  datatype Call =
    | Round(candidates: seq<Candidate>, clock: Option<nat>, outcome: MoveOutcome)
    | Rollback(clock: Option<nat>, outcome: MoveOutcome)

  /** Whether the call gets past validation and the reading of the clock. */
  ghost predicate Proceeds(cfg: Config, m: Records, call: Call) {
    match call
    case Round(candidates, clock, _) => Verdict(m, candidates, cfg.maxRecords, clock) == Ok
    case Rollback(clock, _) => clock.Some?
  }

  /** The effect of a call on the records. */
  ghost predicate Effect(cfg: Config, m: Records, call: Call, m': Records) {
    if !Proceeds(cfg, m, call) then m' == m
    else match call
      case Round(candidates, clock, outcome) => Applied(cfg, m, candidates, clock.value, outcome, m')
      case Rollback(clock, outcome) => RolledBack(cfg, m, clock.value, outcome, m')
  }

  /** A run from an empty controller. */
  ghost predicate IsRun(cfg: Config, states: seq<Records>, calls: seq<Call>) {
    && |states| == |calls| + 1 && states[0] == map[]
    && forall i :: 0 <= i < |calls| ==> Effect(cfg, states[i], calls[i], states[i + 1])
  }

  /** The clock never goes back. */
  predicate Monotone(calls: seq<Call>) {
    forall i, j :: 0 <= i < j < |calls| && calls[i].clock.Some? && calls[j].clock.Some? ==>
        calls[i].clock.value <= calls[j].clock.value
  }

  function ClockOf(call: Call): nat {
    if call.clock.Some? then call.clock.value else 0
  }

  /** Whether the call throttles the process. */
  ghost predicate Throttles(cfg: Config, m: Records, call: Call, pid: int) {
    && call.Round? && Proceeds(cfg, m, call)
    && ApplyAt(cfg, m, call.candidates, call.clock.value, call.outcome, pid).1 == ThrottleDone
  }

  /** What matters of a call for one process. */
  datatype Mark = Mark(throttles: bool, rollback: bool, clock: nat)

  ghost function MarkOf(cfg: Config, m: Records, call: Call, pid: int): Mark {
    Mark(Throttles(cfg, m, call, pid), call.Rollback?, ClockOf(call))
  }

  ghost function Marks(cfg: Config, states: seq<Records>, calls: seq<Call>, pid: int): seq<Mark>
    requires |states| == |calls| + 1
  {
    seq(|calls|, i requires 0 <= i < |calls| => MarkOf(cfg, states[i], calls[i], pid))
  }

  /** Whether some call from `a` up to but not including `b` is a rollback. */
  predicate RollbackBetween(marks: seq<Mark>, a: nat, b: nat) {
    exists i :: a <= i < b && i < |marks| && marks[i].rollback
  }

  /** The calls that throttle the process, in order. */
  function ThrottleCalls(marks: seq<Mark>): seq<nat> {
    if marks == [] then []
    else
      var n := |marks| - 1;
      if marks[n].throttles then ThrottleCalls(marks[..n]) + [n] else ThrottleCalls(marks[..n])
  }

  ghost predicate Climbs(at: seq<nat>) {
    forall k :: 0 <= k < |at| - 1 ==> at[k] < at[k + 1]
  }

  lemma {:induction false} ThrottleCallsAre(marks: seq<Mark>)
    ensures var at := ThrottleCalls(marks);
            && (forall i: nat :: i in at <==> i < |marks| && marks[i].throttles)
            && (forall k :: 0 <= k < |at| ==> at[k] < |marks| && marks[at[k]].throttles)
            && Climbs(at)
  {
    if marks != [] {
      ThrottleCallsAre(marks[..|marks| - 1]);
    }
  }

  /** What a record says about the last time its process was throttled, when the latest clock reading is `latest`. */
  predicate Phase(r: Option<Record>, last: nat, minimum: nat, cooldown: nat, latest: nat) {
    && r.Some? && last <= latest
    && match r.value.state
       case Throttled => last <= r.value.entered
       case Cooldown => last + minimum <= r.value.entered
       case Normal => last + minimum + cooldown <= latest
  }

  /** The minimum duration, which a rollback cuts short. */
  function Minimum(cfg: Config, rollback: bool): nat {
    if rollback then 0 else MsToNs(cfg.minThrottleMs)
  }

  /** The least time between two throttle actions on one process. */
  function Spacing(cfg: Config, rollback: bool): nat {
    Minimum(cfg, rollback) + MsToNs(cfg.cooldownMs)
  }

  /** A throttle action starts the throttled state. */
  lemma ThrottleStarts(cfg: Config, r: Option<Record>, c: Option<Candidate>, now: nat, moved: bool)
    requires PidStep(cfg, r, c, now, moved).1 == ThrottleDone
    ensures forall minimum: nat, cooldown: nat :: Phase(PidStep(cfg, r, c, now, moved).0, now, minimum, cooldown, now)
  {
  }

  lemma SeenPhase(
    cfg: Config, r: Record, c: Candidate, now: nat, moved: bool, last: nat, minimum: nat, cooldown: nat, latest: nat)
    requires Phase(Some(r), last, minimum, cooldown, latest) && latest <= now
    requires minimum <= MsToNs(cfg.minThrottleMs) && cooldown == MsToNs(cfg.cooldownMs)
    ensures var (r', a) := SeenStep(cfg, r, c, now, moved);
            if a == ThrottleDone then last + minimum + cooldown <= now
            else Phase(Some(r'), last, minimum, cooldown, now)
  {
  }

  lemma UnseenPhase(
    cfg: Config, r: Record, now: nat, moved: bool, last: nat, minimum: nat, cooldown: nat, latest: nat)
    requires Phase(Some(r), last, minimum, cooldown, latest) && latest <= now
    requires minimum <= MsToNs(cfg.minThrottleMs) && cooldown == MsToNs(cfg.cooldownMs)
    ensures var (r', a) := UnseenStep(cfg, r, now, moved);
            a != ThrottleDone && Phase(Some(r'), last, minimum, cooldown, now)
  {
  }

  /** One process's step of a decision round respects its phase. */
  lemma PidStepPhase(
    cfg: Config, r: Option<Record>, c: Option<Candidate>, now: nat, moved: bool, last: nat, minimum: nat, latest: nat)
    requires Phase(r, last, minimum, MsToNs(cfg.cooldownMs), latest) && latest <= now
    requires minimum <= MsToNs(cfg.minThrottleMs)
    ensures var (r', a) := PidStep(cfg, r, c, now, moved);
            if a == ThrottleDone then last + minimum + MsToNs(cfg.cooldownMs) <= now
            else Phase(r', last, minimum, MsToNs(cfg.cooldownMs), now)
  {
    var cooldown := MsToNs(cfg.cooldownMs);
    match c
    case Some(candidate) =>
      SeenPhase(cfg, StartOf(r, candidate.pid, now), candidate, now, moved, last, minimum, cooldown, latest);
    case None =>
      UnseenPhase(cfg, r.value, now, moved, last, minimum, cooldown, latest);
  }

  lemma RollbackPhase(r: Record, now: nat, moved: bool, last: nat, minimum: nat, cooldown: nat, latest: nat)
    requires Phase(Some(r), last, minimum, cooldown, latest) && latest <= now
    ensures Phase(Some(RollbackStep(r, now, moved).0), last, 0, cooldown, now)
  {
  }

  lemma PhaseLater(r: Option<Record>, last: nat, minimum: nat, cooldown: nat, latest: nat, minimum': nat, now: nat)
    requires Phase(r, last, minimum, cooldown, latest) && latest <= now && minimum' <= minimum
    ensures Phase(r, last, minimum', cooldown, now)
  {
  }

  /** One call respects the phase of every process: it throttles the process only when the time has come. */
  lemma CallPhase(
    cfg: Config, m: Records, call: Call, m': Records, pid: int, last: nat, rollback: bool, latest: nat, now: nat)
    requires Effect(cfg, m, call, m') && latest <= now && (call.clock.Some? ==> latest <= call.clock.value <= now)
    requires Phase(Lookup(m, pid), last, Minimum(cfg, rollback), MsToNs(cfg.cooldownMs), latest)
    ensures if Throttles(cfg, m, call, pid) then last + Spacing(cfg, rollback) <= ClockOf(call)
            else Phase(Lookup(m', pid), last, Minimum(cfg, rollback || call.Rollback?), MsToNs(cfg.cooldownMs), now)
  {
    var cooldown := MsToNs(cfg.cooldownMs);
    var before, after := Minimum(cfg, rollback), Minimum(cfg, rollback || call.Rollback?);
    if !Proceeds(cfg, m, call) {
      PhaseLater(Lookup(m, pid), last, before, cooldown, latest, after, now);
    } else {
      var at := call.clock.value;
      match call
      case Round(candidates, clock, outcome) =>
        PidStepPhase(cfg, Lookup(m, pid), CandidateFor(candidates, pid), at, Moved(cfg, outcome, pid), last, before,
            latest);
      case Rollback(clock, outcome) =>
        RollbackPhase(m[pid], at, Moved(cfg, outcome, pid), last, before, cooldown, latest);
      if !Throttles(cfg, m, call, pid) {
        PhaseLater(Lookup(m', pid), last, after, cooldown, at, after, now);
      }
    }
  }

  lemma CallStarts(cfg: Config, m: Records, call: Call, m': Records, pid: int, rollback: bool, now: nat)
    requires Effect(cfg, m, call, m') && Throttles(cfg, m, call, pid) && call.clock.value <= now
    ensures Phase(Lookup(m', pid), ClockOf(call), Minimum(cfg, rollback), MsToNs(cfg.cooldownMs), now)
  {
    var at := call.clock.value;
    ThrottleStarts(cfg, Lookup(m, pid), CandidateFor(call.candidates, pid), at, Moved(cfg, call.outcome, pid));
    PhaseLater(Lookup(m', pid), at, Minimum(cfg, rollback), MsToNs(cfg.cooldownMs), at, Minimum(cfg, rollback), now);
  }

  // ----- From call to call

  /** The latest of the first `n` clock readings. */
  function Latest(calls: seq<Call>, n: nat): nat
    requires n <= |calls|
  {
    if n == 0 then 0 else if calls[n - 1].clock.Some? then calls[n - 1].clock.value else Latest(calls, n - 1)
  }

  lemma {:induction false} LatestReading(calls: seq<Call>, n: nat)
    requires n <= |calls|
    ensures Latest(calls, n) == 0 || exists i :: 0 <= i < n && calls[i].clock == Some(Latest(calls, n))
  {
    if n > 0 {
      LatestReading(calls, n - 1);
    }
  }

  lemma LatestGrows(calls: seq<Call>, n: nat)
    requires Monotone(calls) && n < |calls|
    ensures Latest(calls, n) <= Latest(calls, n + 1)
    ensures calls[n].clock.Some? ==> Latest(calls, n) <= calls[n].clock.value == Latest(calls, n + 1)
  {
    LatestReading(calls, n);
  }

  /** The record of a process between two calls, and the latest clock reading. */
  datatype Moment = Moment(record: Option<Record>, latest: nat)

  ghost function MomentAt(states: seq<Records>, calls: seq<Call>, pid: int, n: nat): Moment
    requires n < |states| && n <= |calls|
  {
    Moment(Lookup(states[n], pid), Latest(calls, n))
  }

  predicate AtPhase(cfg: Config, moment: Moment, last: nat, rollback: bool) {
    Phase(moment.record, last, Minimum(cfg, rollback), MsToNs(cfg.cooldownMs), moment.latest)
  }

  /** A call throttles the process only when the time has come, and otherwise keeps its phase. */
  ghost predicate Respects(cfg: Config, before: Moment, mark: Mark, after: Moment) {
    && (forall last: nat, rollback: bool :: AtPhase(cfg, before, last, rollback) ==>
          if mark.throttles then last + Spacing(cfg, rollback) <= mark.clock
          else AtPhase(cfg, after, last, rollback || mark.rollback))
    && (mark.throttles ==> !mark.rollback && AtPhase(cfg, after, mark.clock, false))
  }

  lemma CallRespects(cfg: Config, states: seq<Records>, calls: seq<Call>, pid: int, n: nat)
    requires |states| == |calls| + 1 && n < |calls| && Monotone(calls)
    requires Effect(cfg, states[n], calls[n], states[n + 1])
    ensures Respects(cfg, MomentAt(states, calls, pid, n), MarkOf(cfg, states[n], calls[n], pid),
            MomentAt(states, calls, pid, n + 1))
  {
    LatestGrows(calls, n);
    forall last: nat, rollback: bool | AtPhase(cfg, MomentAt(states, calls, pid, n), last, rollback)
      ensures if Throttles(cfg, states[n], calls[n], pid) then last + Spacing(cfg, rollback) <= ClockOf(calls[n])
              else AtPhase(cfg, MomentAt(states, calls, pid, n + 1), last, rollback || calls[n].Rollback?)
    {
      CallPhase(cfg, states[n], calls[n], states[n + 1], pid, last, rollback, Latest(calls, n), Latest(calls, n + 1));
    }
    if Throttles(cfg, states[n], calls[n], pid) {
      CallStarts(cfg, states[n], calls[n], states[n + 1], pid, false, Latest(calls, n + 1));
    }
  }

  /** The moments of a run: every call respects the phase. */
  lemma {:induction false} RunRespects(cfg: Config, states: seq<Records>, calls: seq<Call>, pid: int, n: nat)
      returns (moments: seq<Moment>)
    requires IsRun(cfg, states, calls) && Monotone(calls) && n <= |calls|
    ensures |moments| == n + 1 && moments[n] == MomentAt(states, calls, pid, n)
    ensures forall i :: 0 <= i < n ==> Respects(cfg, moments[i], Marks(cfg, states, calls, pid)[i], moments[i + 1])
  {
    if n == 0 {
      moments := [MomentAt(states, calls, pid, 0)];
    } else {
      moments := RunRespects(cfg, states, calls, pid, n - 1);
      CallRespects(cfg, states, calls, pid, n - 1);
      moments := moments + [MomentAt(states, calls, pid, n)];
    }
  }

  /** Consecutive throttle actions are far enough apart: by the minimum duration plus the cooldown, unless a rollback
      comes between them, and by the cooldown in any case. */
  ghost predicate PairsApart(cfg: Config, marks: seq<Mark>, at: seq<nat>)
    requires CallsBelow(at, |marks|)
  {
    forall k :: 0 <= k < |at| - 1 ==>
      marks[at[k]].clock + Spacing(cfg, RollbackBetween(marks, at[k], at[k + 1])) <= marks[at[k + 1]].clock
  }

  lemma SamePrefix(marks: seq<Mark>, n: nat, a: nat, b: nat)
    requires b <= n <= |marks|
    ensures RollbackBetween(marks[..n], a, b) <==> RollbackBetween(marks, a, b)
  {
    if RollbackBetween(marks, a, b) {
      var i :| a <= i < b && i < |marks| && marks[i].rollback;
      assert marks[..n][i] == marks[i];
    }
  }

  lemma PairsApartLonger(cfg: Config, marks: seq<Mark>, n: nat, at: seq<nat>)
    requires n <= |marks| && CallsBelow(at, n) && PairsApart(cfg, marks[..n], at)
    ensures PairsApart(cfg, marks, at)
  {
    forall k | 0 <= k < |at| - 1
      ensures RollbackBetween(marks[..n], at[k], at[k + 1]) <==> RollbackBetween(marks, at[k], at[k + 1])
    {
      SamePrefix(marks, n, at[k], at[k + 1]);
    }
  }

  /** Where every call respects the phase, throttle actions stay apart. */
  lemma {:induction false} StaysApart(cfg: Config, moments: seq<Moment>, marks: seq<Mark>)
    requires |moments| == |marks| + 1
    requires forall i :: 0 <= i < |marks| ==> Respects(cfg, moments[i], marks[i], moments[i + 1])
    ensures CallsBelow(ThrottleCalls(marks), |marks|) && PairsApart(cfg, marks, ThrottleCalls(marks))
    ensures LastPhase(cfg, marks, ThrottleCalls(marks), moments[|marks|])
    decreases |marks|
  {
    ThrottleCallsAre(marks);
    if marks != [] {
      var n := |marks| - 1;
      StaysApart(cfg, moments[..n + 1], marks[..n]);
      StaysApartNext(cfg, moments[n], marks, moments[n + 1], ThrottleCalls(marks[..n]));
    }
  }

  ghost predicate CallsBelow(at: seq<nat>, n: nat) {
    forall k :: 0 <= k < |at| ==> at[k] < n
  }

  /** The moment after some calls is in the phase that the last throttle action began. */
  predicate LastPhase(cfg: Config, marks: seq<Mark>, at: seq<nat>, moment: Moment)
    requires at != [] ==> at[|at| - 1] < |marks|
  {
    at != [] ==>
      var last := at[|at| - 1];
      AtPhase(cfg, moment, marks[last].clock, RollbackBetween(marks, last, |marks|))
  }

  lemma StaysApartNext(cfg: Config, before: Moment, marks: seq<Mark>, after: Moment, at: seq<nat>)
    requires marks != [] && Respects(cfg, before, marks[|marks| - 1], after)
    requires CallsBelow(at, |marks| - 1) && PairsApart(cfg, marks[..|marks| - 1], at)
    requires LastPhase(cfg, marks[..|marks| - 1], at, before)
    ensures var at' := if marks[|marks| - 1].throttles then at + [|marks| - 1] else at;
            PairsApart(cfg, marks, at') && LastPhase(cfg, marks, at', after)
  {
    var n := |marks| - 1;
    PairsApartLonger(cfg, marks, n, at);
    if at != [] {
      PhaseAfter(cfg, before, marks, after, at[|at| - 1]);
    }
    if marks[n].throttles {
      PairsApartNext(cfg, marks, at, n);
    }
  }

  /** The next call throttles in time or stays in the phase that an earlier throttle action began. */
  lemma PhaseAfter(cfg: Config, before: Moment, marks: seq<Mark>, after: Moment, last: nat)
    requires last < |marks| - 1 && Respects(cfg, before, marks[|marks| - 1], after)
    requires var front :=
             marks[..|marks| - 1]; AtPhase(cfg, before, front[last].clock, RollbackBetween(front, last, |front|))
    ensures var n := |marks| - 1;
            if marks[n].throttles
                then marks[last].clock + Spacing(cfg, RollbackBetween(marks, last, n)) <= marks[n].clock
            else AtPhase(cfg, after, marks[last].clock, RollbackBetween(marks, last, |marks|))
  {
    var n := |marks| - 1;
    SamePrefix(marks, n, last, n);
    assert AtPhase(cfg, before, marks[last].clock, RollbackBetween(marks, last, n));
    RollbackNext(marks, last, n);
  }

  lemma RollbackNext(marks: seq<Mark>, a: nat, n: nat)
    requires a <= n < |marks|
    ensures RollbackBetween(marks, a, n + 1) <==> RollbackBetween(marks, a, n) || marks[n].rollback
  {
  }

  lemma PairsApartNext(cfg: Config, marks: seq<Mark>, at: seq<nat>, n: nat)
    requires n < |marks| && CallsBelow(at, n) && PairsApart(cfg, marks, at)
    requires at != [] ==>
               var last := at[|at| - 1];
               marks[last].clock + Spacing(cfg, RollbackBetween(marks, last, n)) <= marks[n].clock
    ensures PairsApart(cfg, marks, at + [n])
  {
  }

  /** The throttle actions of a run on one process stay apart. */
  lemma RunPairsApart(cfg: Config, states: seq<Records>, calls: seq<Call>, pid: int)
    requires IsRun(cfg, states, calls) && Monotone(calls)
    ensures var marks := Marks(cfg, states, calls, pid);
            CallsBelow(ThrottleCalls(marks), |marks|) && PairsApart(cfg, marks, ThrottleCalls(marks))
  {
    var moments := RunRespects(cfg, states, calls, pid, |calls|);
    var marks := Marks(cfg, states, calls, pid);
    StaysApart(cfg, moments, marks);
    assert marks[..|marks|] == marks;
  }

  // ----- Stretches of a run

  lemma {:induction false} Ascends(at: seq<nat>, i: nat, j: nat)
    requires i <= j < |at| && Climbs(at)
    ensures at[i] <= at[j]
    decreases j - i
  {
    if i < j {
      Ascends(at, i, j - 1);
    }
  }

  /** Less of a run has fewer rollbacks. */
  lemma FewerRollbacks(marks: seq<Mark>, at: seq<nat>, i: nat, j: nat, k: nat)
    requires i <= k < j < |at| && Climbs(at)
    ensures RollbackBetween(marks, at[k], at[k + 1]) ==> RollbackBetween(marks, at[i], at[j])
  {
    Ascends(at, i, k);
    Ascends(at, k + 1, j);
    if RollbackBetween(marks, at[k], at[k + 1]) {
      var l :| at[k] <= l < at[k + 1] && l < |marks| && marks[l].rollback;
      assert at[i] <= l < at[j];
    }
  }

  lemma {:induction false} SpanOf(times: seq<nat>, i: nat, j: nat, gap: nat)
    requires i <= j < |times| && forall k :: i <= k < j ==> times[k] + gap <= times[k + 1]
    ensures times[i] + (j - i) * gap <= times[j]
    decreases j - i
  {
    if i < j {
      SpanOf(times, i, j - 1, gap);
      MulNext(j - 1 - i, gap);
    }
  }

  lemma StretchOfPairs(cfg: Config, marks: seq<Mark>, at: seq<nat>, i: nat, j: nat, a: nat, b: nat, gap: nat)
    requires CallsBelow(at, |marks|) && PairsApart(cfg, marks, at) && i <= j < |at| && at[i] == a && at[j] == b
    requires Climbs(at)
    requires gap == Spacing(cfg, RollbackBetween(marks, a, b))
    ensures marks[a].clock + (j - i) * gap <= marks[b].clock
  {
    var times := seq(|at|, k requires 0 <= k < |at| => marks[at[k]].clock);
    forall k | i <= k < j
      ensures times[k] + gap <= times[k + 1]
    {
      FewerRollbacks(marks, at, i, j, k);
      assert marks[at[k]].clock + Spacing(cfg, RollbackBetween(marks, at[k], at[k + 1])) <= marks[at[k + 1]].clock;
    }
    SpanOf(times, i, j, gap);
  }

  /** Any stretch of throttle actions on one process spans at least the minimum duration plus the cooldown for every
      repetition, however the cgroup moves fail; if a rollback comes during the stretch, at least the cooldown. */
  lemma AntiFlapping(cfg: Config, states: seq<Records>, calls: seq<Call>, pid: int, marks: seq<Mark>, i: nat, j: nat)
    requires IsRun(cfg, states, calls) && Monotone(calls) && marks == Marks(cfg, states, calls, pid)
    requires i <= j < |ThrottleCalls(marks)|
    ensures var at := ThrottleCalls(marks);
            && at[i] < |marks| && at[j] < |marks|
            && marks[at[i]].clock + (j - i) * Spacing(cfg, RollbackBetween(marks, at[i], at[j])) <= marks[at[j]].clock
  {
    RunPairsApart(cfg, states, calls, pid);
    ThrottleCallsAre(marks);
    var at := ThrottleCalls(marks);
    StretchOfPairs(cfg, marks, at, i, j, at[i], at[j], Spacing(cfg, RollbackBetween(marks, at[i], at[j])));
  }

  /** Two throttle actions on one process without a rollback between them are at least the minimum duration plus the
      cooldown apart, whatever else happens in the run. */
  lemma ThrottlesApart(cfg: Config, states: seq<Records>, calls: seq<Call>, pid: int, marks: seq<Mark>, a: nat, b: nat)
    requires IsRun(cfg, states, calls) && Monotone(calls) && marks == Marks(cfg, states, calls, pid)
    requires a < b < |marks| && marks[a].throttles && marks[b].throttles
    ensures marks[a].clock + Spacing(cfg, RollbackBetween(marks, a, b)) <= marks[b].clock
  {
    RunPairsApart(cfg, states, calls, pid);
    PairsOfMarks(cfg, marks, a, b);
  }

  lemma PairsOfMarks(cfg: Config, marks: seq<Mark>, a: nat, b: nat)
    requires CallsBelow(ThrottleCalls(marks), |marks|) && PairsApart(cfg, marks, ThrottleCalls(marks))
    requires a < b < |marks| && marks[a].throttles && marks[b].throttles
    ensures marks[a].clock + Spacing(cfg, RollbackBetween(marks, a, b)) <= marks[b].clock
  {
    var at, i, j := OrderOfCalls(marks, a, b);
    var gap := Spacing(cfg, RollbackBetween(marks, a, b));
    StretchOfPairs(cfg, marks, at, i, j, a, b, gap);
    AtLeastOnce(marks[a].clock, j - i, gap, marks[b].clock);
  }

  lemma AtLeastOnce(start: nat, times: nat, gap: nat, end: nat)
    requires times > 0 && start + times * gap <= end
    ensures start + gap <= end
  {
    MulMonotone(gap, 1, times);
  }

  lemma OrderOfCalls(marks: seq<Mark>, a: nat, b: nat) returns (at: seq<nat>, i: nat, j: nat)
    requires a < b < |marks| && marks[a].throttles && marks[b].throttles
    ensures at == ThrottleCalls(marks) && Climbs(at) && i < j < |at| && at[i] == a && at[j] == b
  {
    ThrottleCallsAre(marks);
    at := ThrottleCalls(marks);
    assert a in at && b in at;
    i :| 0 <= i < |at| && at[i] == a;
    j :| 0 <= j < |at| && at[j] == b;
    if j <= i {
      Ascends(at, j, i);
    }
  }

  // ----- Where the processes are

  /** What a call does about each process. */
  ghost function CallActions(cfg: Config, m: Records, call: Call): ActionOf {
    if !Proceeds(cfg, m, call) then (pid: int) => NoAction
    else match call
      case Round(candidates, clock, outcome) => ApplyActions(cfg, m, candidates, clock.value, outcome)
      case Rollback(clock, outcome) => RollbackActions(cfg, m, clock.value, outcome)
  }

  ghost function Concerned(m: Records, call: Call): set<int> {
    match call
    case Round(candidates, _, _) => m.Keys + CandidatePids(candidates)
    case Rollback(_, _) => m.Keys
  }

  /** The groups the processes were last successfully moved to along a run. */
  ghost predicate FollowsRun(cfg: Config, states: seq<Records>, calls: seq<Call>, groups: seq<Groups>) {
    && |states| == |groups| == |calls| + 1 && groups[0] == map[]
    && forall i :: 0 <= i < |calls| ==>
         MovedAs(cfg, groups[i], groups[i + 1], CallActions(cfg, states[i], calls[i]), Concerned(states[i], calls[i]))
  }

  lemma CallGroups(cfg: Config, m: Records, call: Call, m': Records, before: Groups, after: Groups)
    requires ValidConfig(cfg) && !cfg.dryRun && Effect(cfg, m, call, m') && GroupsMatch(cfg, m, before)
    requires MovedAs(cfg, before, after, CallActions(cfg, m, call), Concerned(m, call))
    ensures GroupsMatch(cfg, m', after)
  {
    if !Proceeds(cfg, m, call) {
      forall pid
        ensures GroupOf(after, pid) == GroupOf(before, pid)
      {
      }
      SameGroups(cfg, m, before, after);
    } else {
      match call
      case Round(candidates, clock, outcome) =>
        GroupsMatchKept(cfg, m, candidates, clock.value, outcome, m', before, after);
      case Rollback(clock, outcome) =>
        GroupsMatchRolledBack(cfg, m, clock.value, outcome, m', before, after);
    }
  }

  lemma SameGroups(cfg: Config, m: Records, before: Groups, after: Groups)
    requires GroupsMatch(cfg, m, before) && forall pid :: GroupOf(after, pid) == GroupOf(before, pid)
    ensures GroupsMatch(cfg, m, after)
  {
    forall pid
      ensures pid in after <==> pid in before
      ensures pid in after ==> after[pid] == before[pid]
    {
      assert GroupOf(after, pid) == GroupOf(before, pid);
    }
  }

  /** After every run a process is recorded as throttled exactly when its last successful move was to the throttled
      group, and no process is ever in the protected group. */
  lemma {:induction false} GroupsFollowRecords(cfg: Config, states: seq<Records>, calls: seq<Call>, groups: seq<Groups>)
    requires ValidConfig(cfg) && !cfg.dryRun && IsRun(cfg, states, calls) && FollowsRun(cfg, states, calls, groups)
    ensures GroupsMatch(cfg, states[|calls|], groups[|calls|])
    ensures forall pid :: pid in groups[|calls|] ==> groups[|calls|][pid] != cfg.protectedGroup
    decreases |calls|
  {
    if calls != [] {
      var n := |calls| - 1;
      GroupsFollowRecords(cfg, states[..n + 1], calls[..n], groups[..n + 1]);
      CallGroups(cfg, states[n], calls[n], states[n + 1], groups[n], groups[n + 1]);
    }
  }
}
