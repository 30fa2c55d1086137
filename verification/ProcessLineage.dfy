/** What events write into the records, and where protection comes from over a whole run. */
module ProcessLineage {
  import opened ProcessSlots
  import opened ProcessTable
  import opened ProcessEvents
  import opened Histories

  // ----- What one event writes

  /** The process is the daemon itself or a child of its own. */
  predicate OfDaemon(policy: Policy, e: Event) {
    e.pid == policy.daemonPid || e.ppid == policy.daemonPid
  }

  /** An exec takes who and what the process is from the event, and keeps both marks of a known process: only the
      policy can add protection, by name.  The policy alone decides the group, except for the daemon's own processes. */
  lemma ExecWrites(m: map<int, ProcInfo>, capacity: nat, policy: Policy, e: Event)
    requires e.kind == Exec && e.pid > 0 && (e.pid in m || |m| < capacity)
    ensures var m' := Step(m, capacity, policy, e);
            var known := e.pid in m;
            && e.pid in m' && m' == m[e.pid := m'[e.pid]]
            && var r := m'[e.pid];
               && r.used && r.execSeen && !r.exited
               && (r.pid, r.ppid, r.uid) == (e.pid, e.ppid, e.uid)
               && (r.comm, r.exePath, r.cmdline) == (e.comm, e.exePath, e.cmdline)
               && (r.inheritedProtected <==> known && m[e.pid].inheritedProtected)
               && (r.isProtected <==>
                     (known && m[e.pid].isProtected) || (!OfDaemon(policy, e) && e.comm in policy.protectedComms))
               && (OfDaemon(policy, e) ==> r.group == if known then m[e.pid].group else Unknown)
               && (!OfDaemon(policy, e) ==>
                     && (r.group == Ignored <==> e.pid <= 2 || e.comm == "")
                     && (r.group == Protected <==> e.pid > 2 && e.comm != "" && r.isProtected)
                     && (r.group == Background <==> e.pid > 2 && e.comm != "" && !r.isProtected))
  {
  }

  /** A fork makes a new record under the child's pid, whatever was there: it is protected, by inheritance, exactly when
      the parent is protected and another process. */
  lemma ForkWrites(m: map<int, ProcInfo>, capacity: nat, policy: Policy, e: Event)
    requires e.kind == Fork && e.pid > 0 && e.childPid > 0 && (e.childPid in m || |m| < capacity)
    ensures var m' := Step(m, capacity, policy, e);
            var inherits := e.pid in m && m[e.pid].isProtected && e.pid != e.childPid;
            && e.childPid in m' && m' == m[e.childPid := m'[e.childPid]]
            && var r := m'[e.childPid];
               && r.used && !r.execSeen && !r.exited
               && (r.pid, r.ppid, r.uid) == (e.childPid, e.pid, e.uid)
               && (r.comm, r.exePath, r.cmdline) == (e.comm, "", "")
               && (r.isProtected <==> inherits) && (r.inheritedProtected <==> inherits)
               && r.group == if inherits then Protected else Unknown
  {
  }

  /** Nothing else is ever written: other events, bad pids and new pids in a full table leave the records alone, and
      an exit takes one away. */
  lemma OthersWrite(m: map<int, ProcInfo>, capacity: nat, policy: Policy, e: Event)
    ensures e.kind == Exit ==> Step(m, capacity, policy, e) == m - {e.pid}
    ensures e.kind == Other ==> Step(m, capacity, policy, e) == m
    ensures e.kind == Exec && (e.pid <= 0 || (e.pid !in m && |m| >= capacity)) ==> Step(m, capacity, policy, e) == m
    ensures e.kind == Fork && (e.pid <= 0 || e.childPid <= 0 || (e.childPid !in m && |m| >= capacity)) ==>
              Step(m, capacity, policy, e) == m
  {
  }

  /** The moves: a process goes to the protected group when an exec, not of the daemon's own, leaves its record in that
      group, or when a fork leaves it protected, and on no other occasion. */
  lemma MovesWritten(m: map<int, ProcInfo>, capacity: nat, policy: Policy, e: Event)
    ensures var m' := Step(m, capacity, policy, e);
            MovesOf(m, capacity, policy, e)
              == if e.kind == Exec && e.pid > 0 && (e.pid in m || |m| < capacity) && !OfDaemon(policy, e)
                    && m'[e.pid].group == Protected
                  then [(e.pid, Protected)]
                 else if e.kind == Fork && e.pid > 0 && e.childPid > 0 && (e.childPid in m || |m| < capacity)
                    && m'[e.childPid].isProtected
                  then [(e.childPid, Protected)]
                 else []
  {
  }

  // ----- Where protection comes from

  /** The records after the first `n` events, from an empty table. */
  ghost function RecordsAt(capacity: nat, policy: Policy, events: seq<Event>, n: nat): map<int, ProcInfo>
    requires n <= |events|
  {
    Run(map[], capacity, policy, events[..n])
  }

  lemma RecordsNext(capacity: nat, policy: Policy, events: seq<Event>, n: nat)
    requires n < |events|
    ensures RecordsAt(capacity, policy, events, n + 1)
            == Step(RecordsAt(capacity, policy, events, n), capacity, policy, events[n])
  {
    assert events[..n + 1][..n] == events[..n];
  }

  /** The event is a fork that records the pid as a child. */
  ghost predicate Born(m: map<int, ProcInfo>, capacity: nat, e: Event, pid: int) {
    e.kind == Fork && e.childPid == pid && e.pid > 0 && pid > 0 && (pid in m || |m| < capacity)
  }

  ghost predicate Dies(e: Event, pid: int) {
    e.kind == Exit && e.pid == pid
  }

  /** Event `i` starts or ends the life of the process. */
  ghost predicate Renews(capacity: nat, policy: Policy, events: seq<Event>, pid: int, i: nat)
    requires i < |events|
  {
    Born(RecordsAt(capacity, policy, events, i), capacity, events[i], pid) || Dies(events[i], pid)
  }

  /** Event `i` is a fork that records the pid as the child of a protected process other than itself. */
  ghost predicate Inherited(capacity: nat, policy: Policy, events: seq<Event>, pid: int, i: nat)
    requires i < |events|
  {
    var m, e := RecordsAt(capacity, policy, events, i), events[i];
    Born(m, capacity, e, pid) && e.pid in m && m[e.pid].isProtected && e.pid != pid
  }

  /** Event `i` is a recorded exec under a name on the protection list, not of the daemon's own. */
  ghost predicate Named(capacity: nat, policy: Policy, events: seq<Event>, pid: int, i: nat)
    requires i < |events|
  {
    var m, e := RecordsAt(capacity, policy, events, i), events[i];
    && e.kind == Exec && e.pid == pid && pid > 0 && (pid in m || |m| < capacity)
    && !OfDaemon(policy, e) && e.comm in policy.protectedComms
  }

  ghost predicate IsInherited(m: map<int, ProcInfo>, pid: int) {
    pid in m && m[pid].inheritedProtected
  }

  ghost predicate IsProtected(m: map<int, ProcInfo>, pid: int) {
    pid in m && m[pid].isProtected
  }

  ghost function Renewals(capacity: nat, policy: Policy, events: seq<Event>, pid: int): Steps {
    (i: nat) => i < |events| && Renews(capacity, policy, events, pid, i)
  }

  ghost function Inheritances(capacity: nat, policy: Policy, events: seq<Event>, pid: int): Steps {
    (i: nat) => i < |events| && Inherited(capacity, policy, events, pid, i)
  }

  ghost function Grants(capacity: nat, policy: Policy, events: seq<Event>, pid: int): Steps {
    (i: nat) => i < |events|
        && (Inherited(capacity, policy, events, pid, i) || Named(capacity, policy, events, pid, i))
  }

  /** The lineage law: a live process counts as protected by inheritance exactly when its last recorded fork named a
      protected parent other than itself, with no exit since.  Execs do not matter. */
  lemma {:induction false} InheritedIff(capacity: nat, policy: Policy, events: seq<Event>, pid: int, n: nat)
    requires n <= |events|
    ensures IsInherited(RecordsAt(capacity, policy, events, n), pid) <==>
            Since(Inheritances(capacity, policy, events, pid), Renewals(capacity, policy, events, pid), n)
  {
    if n > 0 {
      var k := n - 1;
      InheritedIff(capacity, policy, events, pid, k);
      RecordsNext(capacity, policy, events, k);
      InheritedStep(RecordsAt(capacity, policy, events, k), capacity, policy, events[k], pid);
      SinceNext(Inheritances(capacity, policy, events, pid), Renewals(capacity, policy, events, pid), k);
    }
  }

  lemma InheritedStep(m: map<int, ProcInfo>, capacity: nat, policy: Policy, e: Event, pid: int)
    ensures IsInherited(Step(m, capacity, policy, e), pid) <==>
            if Born(m, capacity, e, pid) then e.pid in m && m[e.pid].isProtected && e.pid != pid
            else IsInherited(m, pid) && !Dies(e, pid)
  {
  }

  /** Where protection comes from: a live process is protected exactly when in this life it was forked by a protected
      process or has executed under a protected name. */
  lemma {:induction false} ProtectedIff(capacity: nat, policy: Policy, events: seq<Event>, pid: int, n: nat)
    requires n <= |events|
    ensures IsProtected(RecordsAt(capacity, policy, events, n), pid) <==>
            Since(Grants(capacity, policy, events, pid), Renewals(capacity, policy, events, pid), n)
  {
    if n > 0 {
      var k := n - 1;
      ProtectedIff(capacity, policy, events, pid, k);
      RecordsNext(capacity, policy, events, k);
      ProtectedStep(RecordsAt(capacity, policy, events, k), capacity, policy, events[k], pid);
      SinceNext(Grants(capacity, policy, events, pid), Renewals(capacity, policy, events, pid), k);
    }
  }

  lemma ProtectedStep(m: map<int, ProcInfo>, capacity: nat, policy: Policy, e: Event, pid: int)
    ensures IsProtected(Step(m, capacity, policy, e), pid) <==>
            if Born(m, capacity, e, pid) then e.pid in m && m[e.pid].isProtected && e.pid != pid
            else
              || (IsProtected(m, pid) && !Dies(e, pid))
              || (e.kind == Exec && e.pid == pid && pid > 0 && (pid in m || |m| < capacity)
                    && !OfDaemon(policy, e) && e.comm in policy.protectedComms)
  {
  }
}
