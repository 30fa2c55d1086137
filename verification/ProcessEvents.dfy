/** The daemon's handling of process events, and how protection passes from process to process over a run. */
module ProcessEvents {
  import opened ProcessSlots
  import opened ProcessTable

  /** The daemon's own pid and the command names of the protection list. */
  datatype Policy = Policy(daemonPid: int, protectedComms: set<string>)

  predicate PolicyProtects(policy: Policy, comm: string) {
    comm in policy.protectedComms
  }

  function DecideGroup(policy: Policy, p: ProcInfo): Group {
    if p.pid <= 2 || p.comm == "" then Ignored
    else if p.isProtected || PolicyProtects(policy, p.comm) then Protected
    else Background
  }

  predicate IsDaemons(policy: Policy, p: ProcInfo) {
    p.pid == policy.daemonPid || p.ppid == policy.daemonPid
  }

  /** The record after the policy was applied to it. */
  function Judge(policy: Policy, p: ProcInfo): ProcInfo {
    if IsDaemons(policy, p) then p
    else
      var q := p.(execSeen := true, isProtected := p.isProtected || PolicyProtects(policy, p.comm));
      q.(group := DecideGroup(policy, q))
  }

  /** What one event does to the recorded processes. */
  function Step(m: map<int, ProcInfo>, capacity: nat, policy: Policy, e: Event): map<int, ProcInfo> {
    match e.kind
    case Exec => if ExecStored(m, capacity, e) then m[e.pid := Judge(policy, ExecRecord(m, e))] else m
    case Fork => AfterFork(m, capacity, e)
    case Exit => m - {e.pid}
    case Other => m
  }

  /** The record leads to a move into the protected group. */
  predicate MovesProtected(policy: Policy, p: ProcInfo) {
    !IsDaemons(policy, p) && Judge(policy, p).group == Protected
  }

  /** The cgroup moves one event causes. */
  function MovesOf(m: map<int, ProcInfo>, capacity: nat, policy: Policy, e: Event): seq<(int, Group)> {
    match e.kind
    case Exec =>
      if ExecStored(m, capacity, e) && MovesProtected(policy, ExecRecord(m, e)) then [(e.pid, Protected)] else []
    case Fork => if ForkStored(m, capacity, e) && Inherits(m, e) then [(e.childPid, Protected)] else []
    case Exit => []
    case Other => []
  }

  /** Only processes that end up recorded as protected are moved. */
  lemma MovedAreProtected(m: map<int, ProcInfo>, capacity: nat, policy: Policy, e: Event)
    ensures forall move :: move in MovesOf(m, capacity, policy, e) ==>
              move.1 == Protected && move.0 in ProtectedPids(Step(m, capacity, policy, e))
  {
    if e.kind == Exec && ExecStored(m, capacity, e) && MovesProtected(policy, ExecRecord(m, e)) {
      JudgedGroup(policy, ExecRecord(m, e));
    }
  }

  /** Outside the daemon's own processes, the protected group goes to protected processes that have a name and are
      not the first two. */
  lemma JudgedGroup(policy: Policy, p: ProcInfo)
    requires !IsDaemons(policy, p)
    ensures Judge(policy, p).group == Protected <==> Judge(policy, p).isProtected && p.pid > 2 && p.comm != ""
  {
  }

  function Run(m: map<int, ProcInfo>, capacity: nat, policy: Policy, events: seq<Event>): map<int, ProcInfo> {
    if events == [] then m
    else Step(Run(m, capacity, policy, events[..|events| - 1]), capacity, policy, events[|events| - 1])
  }

  // ----- The handler

  class Daemon {
    const table: Table
    const policy: Policy
    var moves: seq<(int, Group)>

    constructor (capacity: nat, policy: Policy)
      requires capacity > 0
      ensures table.Valid() && table.capacity == capacity && table.Contents() == map[] && fresh(table)
      ensures fresh(table.slots) && fresh(table.states)
      ensures this.policy == policy && moves == []
    {
      this.policy := policy;
      table := new Table(capacity);
      moves := [];
    }

    /** Takes one step of the specification and makes the moves that go with it. */
    method HandleEvent(e: Event)
      requires table.Valid()
      modifies this, table, table.slots, table.states
      ensures table.Valid() && table.Contents() == Step(old(table.Contents()), table.capacity, policy, e)
      ensures moves == old(moves) + MovesOf(old(table.Contents()), table.capacity, policy, e)
    {
      match e.kind {
        case Exec =>
          HandleExec(e);
        case Fork =>
          HandleFork(e);
        case Exit =>
          table.Remove(e.pid);
        case Other =>
      }
    }

    method HandleExec(e: Event)
      requires table.Valid() && e.kind == Exec
      modifies this, table, table.slots, table.states
      ensures table.Valid() && table.Contents() == Step(old(table.Contents()), table.capacity, policy, e)
      ensures moves == old(moves) + MovesOf(old(table.Contents()), table.capacity, policy, e)
    {
      ghost var before, made := table.Contents(), MovesOf(table.Contents(), table.capacity, policy, e);
      var stored := table.UpsertExec(e);
      if stored.Absent? {
        assert made == [];
        return;
      }
      ModelHas(table.slots[..], table.states[..], stored.index, e.pid);
      assert made == if MovesProtected(policy, ExecRecord(before, e)) then [(e.pid, Protected)] else [];
      ApplyPolicy(stored.index);
      StoreTwice(before, e.pid, ExecRecord(before, e), Judge(policy, ExecRecord(before, e)));
    }

    /** The marks and the group that the policy gives a record. */
    method Judged(record: ProcInfo) returns (p: ProcInfo)
      requires !IsDaemons(policy, record)
      ensures p == Judge(policy, record)
    {
      p := record.(execSeen := true);
      if PolicyProtects(policy, p.comm) {
        p := p.(isProtected := true);
      }
      var g := DecideGroup(policy, p);
      p := p.(group := g);
    }

    /** Applies the policy to a record that was just stored. */
    method ApplyPolicy(i: nat)
      requires table.Valid() && i < table.capacity && table.states[i] == Occupied
      requires table.slots[i].pid in table.Contents() && table.Contents()[table.slots[i].pid] == table.slots[i]
      modifies this`moves, table, table.slots, table.states
      ensures table.Valid()
      ensures var p := old(table.slots[i]);
              && table.Contents() == old(table.Contents())[p.pid := Judge(policy, p)]
              && moves == old(moves) + if MovesProtected(policy, p) then [(p.pid, Protected)] else []
    {
      var p := table.slots[i];
      if p.pid == policy.daemonPid || p.ppid == policy.daemonPid {
        assert table.Contents() == table.Contents()[p.pid := p];
        return;
      }
      ghost var stored := p;
      p := Judged(p);
      assert p.pid == stored.pid && MovesProtected(policy, stored) == (p.group == Protected);
      table.Store(p, Existing(i));
      if p.group == Protected {
        moves := moves + [(p.pid, Protected)];
      }
    }

    method HandleFork(e: Event)
      requires table.Valid() && e.kind == Fork
      modifies this, table, table.slots, table.states
      ensures table.Valid() && table.Contents() == Step(old(table.Contents()), table.capacity, policy, e)
      ensures moves == old(moves) + MovesOf(old(table.Contents()), table.capacity, policy, e)
    {
      ghost var before, made := table.Contents(), MovesOf(table.Contents(), table.capacity, policy, e);
      var stored := table.UpsertFork(e);
      var parent := table.FindExisting(e.pid);
      if stored.Absent? {
        assert made == [];
        return;
      }
      ModelHas(table.slots[..], table.states[..], stored.index, e.childPid);
      ghost var inherits := Inherits(before, e);
      assert inherits == (parent.At? && table.slots[parent.index].isProtected);
      assert made == if inherits then [(e.childPid, Protected)] else [];
      if parent.At? && table.slots[parent.index].used && table.slots[parent.index].isProtected {
        MarkInherited(stored.index);
        StoreTwice(before, e.childPid, ForkRecord(before, e), ForkRecord(before, e));
      }
    }

    /** Marks a record as protected by inheritance. */
    method MarkInherited(i: nat)
      requires table.Valid() && i < table.capacity && table.states[i] == Occupied
      requires table.slots[i].pid in table.Contents() && table.Contents()[table.slots[i].pid] == table.slots[i]
      modifies this`moves, table, table.slots, table.states
      ensures table.Valid()
      ensures var p := old(table.slots[i]);
              && table.Contents()
                 == old(table.Contents())[p.pid :=
                      p.(isProtected := true, inheritedProtected := true, group := Protected)]
              && moves == old(moves) + [(p.pid, Protected)]
    {
      var child := table.slots[i].(isProtected := true, inheritedProtected := true, group := Protected);
      table.Store(child, Existing(i));
      moves := moves + [(child.pid, Protected)];
    }
  }

  // ----- Protection over runs

  /** Records are filed under their pid, and inherited protection is protection. */
  ghost predicate Consistent(m: map<int, ProcInfo>) {
    forall pid :: pid in m ==> m[pid].pid == pid && pid > 0 && (m[pid].inheritedProtected ==> m[pid].isProtected)
  }

  lemma StepConsistent(m: map<int, ProcInfo>, capacity: nat, policy: Policy, e: Event)
    requires Consistent(m)
    ensures Consistent(Step(m, capacity, policy, e))
  {
  }

  lemma {:induction false} RunConsistent(m: map<int, ProcInfo>, capacity: nat, policy: Policy, events: seq<Event>)
    requires Consistent(m)
    ensures Consistent(Run(m, capacity, policy, events))
  {
    if events != [] {
      RunConsistent(m, capacity, policy, events[..|events| - 1]);
      StepConsistent(Run(m, capacity, policy, events[..|events| - 1]), capacity, policy, events[|events| - 1]);
    }
  }

  /** The live protected processes. */
  ghost function ProtectedPids(m: map<int, ProcInfo>): set<int> {
    set pid | pid in m && m[pid].isProtected
  }

  /** Whether the table takes up what the event says. */
  predicate Stored(m: map<int, ProcInfo>, capacity: nat, e: Event) {
    match e.kind
    case Exec => ExecStored(m, capacity, e)
    case Fork => ForkStored(m, capacity, e)
    case Exit => true
    case Other => false
  }

  /** How the set of protected processes changes with an event that is taken up: a fork passes protection from a
      protected parent to another pid and takes it from the pid it names otherwise; exit ends it; exec can only add
      it, by name. */
  function ProtectedAfter(s: set<int>, policy: Policy, e: Event): set<int> {
    match e.kind
    case Exec =>
      if e.pid != policy.daemonPid && e.ppid != policy.daemonPid && PolicyProtects(policy, e.comm) then s + {e.pid}
      else s
    case Fork =>
      if e.pid in s && e.pid != e.childPid then s + {e.childPid} else s - {e.childPid}
    case Exit => s - {e.pid}
    case Other => s
  }

  /** The records implement exactly that rule; an event that is not taken up changes nothing. */
  lemma ProtectionStep(m: map<int, ProcInfo>, capacity: nat, policy: Policy, e: Event)
    ensures ProtectedPids(Step(m, capacity, policy, e))
         == if Stored(m, capacity, e) then ProtectedAfter(ProtectedPids(m), policy, e) else ProtectedPids(m)
  {
  }

  /** The event can end the protection of `pid`: its exit, or a fork that records it as a new process. */
  predicate Ends(e: Event, pid: int) {
    (e.kind == Exit && e.pid == pid) || (e.kind == Fork && e.childPid == pid)
  }

  /** A protected process stays protected through any run until its exit or a fork naming it as the child. */
  lemma {:induction false} ProtectionPersists(m: map<int, ProcInfo>, capacity: nat, policy: Policy,
      events: seq<Event>, pid: int)
    requires pid in ProtectedPids(m)
    requires forall i :: 0 <= i < |events| ==> !Ends(events[i], pid)
    ensures pid in ProtectedPids(Run(m, capacity, policy, events))
  {
    if events != [] {
      var front := events[..|events| - 1];
      ProtectionPersists(m, capacity, policy, front, pid);
      ProtectionStep(Run(m, capacity, policy, front), capacity, policy, events[|events| - 1]);
    }
  }

  lemma {:induction false} RunAppend(m: map<int, ProcInfo>, capacity: nat, policy: Policy, first: seq<Event>,
      second: seq<Event>)
    ensures Run(m, capacity, policy, first + second) == Run(Run(m, capacity, policy, first), capacity, policy, second)
  {
    if second == [] {
      assert first + second == first;
    } else {
      RunAppend(m, capacity, policy, first, second[..|second| - 1]);
      assert (first + second)[..|first + second| - 1] == first + second[..|second| - 1];
    }
  }

  /** Protection reaches a child forked while its parent is protected and stays with it, whatever happens before
      the fork, between, or afterwards (execs included), until the child exits or its pid is forked anew. */
  lemma ForkedChildProtected(
    m: map<int, ProcInfo>, capacity: nat, policy: Policy, before: seq<Event>, fork: Event, after: seq<Event>)
    requires fork.kind == Fork && fork.pid != fork.childPid
    requires var now := Run(m, capacity, policy, before);
             fork.pid in ProtectedPids(now) && ForkStored(now, capacity, fork)
    requires forall i :: 0 <= i < |after| ==> !Ends(after[i], fork.childPid)
    ensures fork.childPid in ProtectedPids(Run(m, capacity, policy, before + [fork] + after))
  {
    var now := Run(m, capacity, policy, before);
    assert (before + [fork])[..|before|] == before;
    ProtectionStep(now, capacity, policy, fork);
    ProtectionPersists(Run(m, capacity, policy, before + [fork]), capacity, policy, after, fork.childPid);
    RunAppend(m, capacity, policy, before + [fork], after);
  }

  /** A fork event naming one pid as parent and child takes that pid's protection away. */
  lemma SelfForkUnprotects(m: map<int, ProcInfo>, capacity: nat, policy: Policy, fork: Event)
    requires fork.kind == Fork && fork.pid == fork.childPid && fork.pid in ProtectedPids(m) && fork.pid > 0
    ensures fork.pid !in ProtectedPids(Step(m, capacity, policy, fork))
  {
    ProtectionStep(m, capacity, policy, fork);
  }

  /** A recorded child is protected exactly when its parent was and is another process. */
  lemma ForkInheritsIff(m: map<int, ProcInfo>, capacity: nat, policy: Policy, fork: Event)
    requires fork.kind == Fork && ForkStored(m, capacity, fork)
    ensures fork.childPid in ProtectedPids(Step(m, capacity, policy, fork)) <==>
            fork.pid in ProtectedPids(m) && fork.pid != fork.childPid
  {
    ProtectionStep(m, capacity, policy, fork);
  }
}
