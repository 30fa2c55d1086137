/** The daemon's process table: open addressing with tombstones, refining a finite map from pids to records. */
module ProcessTable {
  import opened ProcessSlots

  datatype EventType = Exec | Fork | Exit | Other

  /** A kernel event, with what /proc says about the process when it is handled. */
  datatype Event = Event(kind: EventType, pid: int, ppid: int, childPid: int, uid: nat, comm: string, exePath: string,
      cmdline: string)

  datatype Found = Absent | At(index: nat)

  datatype Target = Full | Existing(index: nat) | Vacant(index: nat)

  datatype SnapshotResult = Inconsistent | NoSpace | Records(records: seq<ProcInfo>)

  // ----- The effect of the operations on the map

  /** Exec refreshes the record but keeps protection, and keeps the group of a known process. */
  function ExecRecord(m: map<int, ProcInfo>, e: Event): ProcInfo {
    var known := e.pid in m;
    ProcInfo(
      true, e.pid, e.ppid, e.uid, true, false,
      known && m[e.pid].isProtected, known && m[e.pid].inheritedProtected, if known then m[e.pid].group else Unknown,
      e.comm, e.exePath, e.cmdline)
  }

  /** Whether a fork passes protection on: the parent is live, protected, and not the very pid being recorded. */
  predicate Inherits(m: map<int, ProcInfo>, e: Event) {
    e.pid in m && m[e.pid].isProtected && e.pid != e.childPid
  }

  function ForkRecord(m: map<int, ProcInfo>, e: Event): ProcInfo {
    var inherits := Inherits(m, e);
    ProcInfo(
      true, e.childPid, e.pid, e.uid, false, false, inherits, inherits, if inherits then Protected
      else Unknown, e.comm, "", "")
  }

  /** An upsert succeeds when the pid is already recorded or some slot is free. */
  predicate HasRoom(m: map<int, ProcInfo>, capacity: nat, pid: int) {
    pid in m || |m| < capacity
  }

  predicate ExecStored(m: map<int, ProcInfo>, capacity: nat, e: Event) {
    e.pid > 0 && HasRoom(m, capacity, e.pid)
  }

  predicate ForkStored(m: map<int, ProcInfo>, capacity: nat, e: Event) {
    e.pid > 0 && e.childPid > 0 && HasRoom(m, capacity, e.childPid)
  }

  function AfterExec(m: map<int, ProcInfo>, capacity: nat, e: Event): map<int, ProcInfo> {
    if ExecStored(m, capacity, e) then m[e.pid := ExecRecord(m, e)] else m
  }

  function AfterFork(m: map<int, ProcInfo>, capacity: nat, e: Event): map<int, ProcInfo> {
    if ForkStored(m, capacity, e) then m[e.childPid := ForkRecord(m, e)] else m
  }

  /** The slot may take the record of the pid. */
  ghost predicate Writable(slots: seq<ProcInfo>, states: seq<SlotState>, pid: int, target: Target)
    requires UniquePids(slots, states) && |slots| > 0
  {
    match target
    case Full => false
    case Existing(i) => Holds(slots, states, i, pid)
    case Vacant(i) =>
      pid !in Model(slots, states) && i < |slots| && states[i] != Occupied
      && Reachable(states, Hash(pid, |slots|), i)
  }

  /** Writing there keeps the table and files the record under its pid. */
  lemma WriteKeeps(slots: seq<ProcInfo>, states: seq<SlotState>, occupied: nat, record: ProcInfo, target: Target)
    requires TableOk(slots, states, occupied) && record.used && record.pid > 0
    requires Writable(slots, states, record.pid, target)
    ensures var slots', states' := slots[target.index := record], states[target.index := Occupied];
            && TableOk(slots', states', if target.Vacant? then occupied + 1 else occupied)
            && Model(slots', states') == Model(slots, states)[record.pid := record]
  {
    match target
    case Vacant(i) =>
      InsertKeeps(slots, states, occupied, i, record);
    case Existing(i) =>
      assert states[i := Occupied] == states;
      ReplaceKeeps(slots, states, occupied, i, record);
  }

  class Table {
    const capacity: nat
    const slots: array<ProcInfo>
    const states: array<SlotState>
    var occupied: nat

    ghost predicate Valid()
      reads this, slots, states
    {
      && slots.Length == states.Length == capacity > 0
      && TableOk(slots[..], states[..], occupied)
    }

    /** The records by pid. */
    ghost function Contents(): map<int, ProcInfo>
      requires Valid()
      reads this, slots, states
    {
      Model(slots[..], states[..])
    }

    constructor (n: nat)
      requires n > 0
      ensures Valid() && capacity == n && Contents() == map[] && fresh(slots) && fresh(states)
    {
      capacity := n;
      slots := new ProcInfo[n](_ => ZERO);
      states := new SlotState[n](_ => Empty);
      occupied := 0;
      new;
      assert OccupiedSlots(states[..]) == {};
    }

    method Reset()
      requires Valid()
      modifies this, slots, states
      ensures Valid() && Contents() == map[]
    {
      for i := 0 to capacity
        invariant forall k :: 0 <= k < i ==> slots[k] == ZERO && states[k] == Empty
      {
        slots[i], states[i] := ZERO, Empty;
      }
      occupied := 0;
      assert OccupiedSlots(states[..]) == {};
    }

    /** The occupancy counter is exact. */
    method Count() returns (n: nat)
      requires Valid()
      ensures n == |Contents()|
    {
      ModelSize(slots[..], states[..], occupied);
      n := occupied;
    }

    /** Stops at the first EMPTY slot; tombstones do not end the search. */
    method FindExisting(pid: int) returns (found: Found)
      requires Valid()
      ensures found.Absent? <==> pid !in Contents()
      ensures found.At? ==> Holds(slots[..], states[..], found.index, pid) && Contents()[pid] == slots[found.index]
    {
      if pid <= 0 {
        if pid in Contents() {
          ghost var i := SlotOf(slots[..], states[..], pid);
        }
        return Absent;
      }
      var start := Hash(pid, capacity);
      var probe := 0;
      while probe < capacity
        invariant probe <= capacity && Missed(slots[..], states[..], start, pid, probe)
      {
        var i := Probe(start, probe, capacity);
        if states[i] == Empty {
          break;
        }
        if states[i] == Occupied && slots[i].used && slots[i].pid == pid {
          ModelHas(slots[..], states[..], i, pid);
          return At(i);
        }
        probe := probe + 1;
      }
      MissedAbsent(slots[..], states[..], occupied, pid, probe);
      return Absent;
    }

    /** Finds the pid, or the free slot that an insertion should use: the first tombstone on the probe path if
        there is one, else the EMPTY slot ending it.  Fails exactly when the pid is absent and no slot is free. */
    method FindUpsert(pid: int) returns (target: Target)
      requires Valid() && pid > 0
      ensures target.Existing? <==> pid in Contents()
      ensures target.Existing? ==>
              Holds(slots[..], states[..], target.index, pid) && Contents()[pid] == slots[target.index]
      ensures target.Vacant? ==> target.index < capacity && FirstFree(states[..], Hash(pid, capacity), target.index)
      ensures !target.Full? ==> Writable(slots[..], states[..], pid, target)
      ensures target.Full? <==> !HasRoom(Contents(), capacity, pid)
    {
      var start := Hash(pid, capacity);
      var firstTombstone := capacity;
      ModelSize(slots[..], states[..], occupied);
      var probe := 0;
      while probe < capacity
        invariant probe <= capacity && UpsertScan(slots[..], states[..], start, pid, probe, firstTombstone)
      {
        var i := Probe(start, probe, capacity);
        if states[i] == Occupied {
          if slots[i].used && slots[i].pid == pid {
            ModelHas(slots[..], states[..], i, pid);
            return Existing(i);
          }
          ScanOccupied(slots[..], states[..], start, pid, probe, firstTombstone);
          probe := probe + 1;
          continue;
        }
        if states[i] == Tombstone {
          ScanTombstone(slots[..], states[..], start, pid, probe, firstTombstone);
          if firstTombstone == capacity {
            firstTombstone := i;
          }
          probe := probe + 1;
          continue;
        }
        MissedAbsent(slots[..], states[..], occupied, pid, probe);
        if firstTombstone != capacity {
          return Vacant(firstTombstone);
        }
        ScanFree(slots[..], states[..], start, pid, probe);
        return Vacant(i);
      }
      MissedAbsent(slots[..], states[..], occupied, pid, probe);
      if firstTombstone != capacity {
        return Vacant(firstTombstone);
      }
      ScanFull(slots[..], states[..], start, pid);
      return Full;
    }

    /** Stores a record under its pid. */
    method Store(record: ProcInfo, target: Target)
      requires Valid() && record.used && record.pid > 0
      requires Writable(slots[..], states[..], record.pid, target)
      modifies this, slots, states
      ensures Valid() && Contents() == old(Contents())[record.pid := record]
      ensures Holds(slots[..], states[..], target.index, record.pid) && slots[target.index] == record
      ensures forall j :: 0 <= j < capacity && j != target.index ==>
              slots[j] == old(slots[j]) && states[j] == old(states[j])
    {
      ghost var slots0, states0 := slots[..], states[..];
      var i := target.index;
      WriteKeeps(slots0, states0, occupied, record, target);
      if target.Vacant? {
        states[i] := Occupied;
        occupied := occupied + 1;
      }
      slots[i] := record;
      assert slots[..] == slots0[i := record];
      assert states[..] == states0[i := Occupied];
    }

    method UpsertExec(e: Event) returns (stored: Found)
      requires Valid()
      modifies this, slots, states
      ensures Valid() && Contents() == AfterExec(old(Contents()), capacity, e)
      ensures stored.At? <==> ExecStored(old(Contents()), capacity, e)
      ensures stored.At? ==> Holds(slots[..], states[..], stored.index, e.pid)
    {
      if e.pid <= 0 {
        return Absent;
      }
      var target := FindUpsert(e.pid);
      if target.Full? {
        return Absent;
      }
      var found := target.Existing?;
      var preserved := if found then slots[target.index] else ZERO;
      var record := ProcInfo(
        true, e.pid, e.ppid, e.uid, true, false,
        preserved.isProtected, preserved.inheritedProtected, if found then preserved.group else Unknown,
        e.comm, e.exePath, e.cmdline);
      Store(record, target);
      stored := At(target.index);
    }

    /** The parent's record is read after the child's has been cleared: a fork that names one pid twice loses
        its protection. */
    method UpsertFork(e: Event) returns (stored: Found)
      requires Valid()
      modifies this, slots, states
      ensures Valid() && Contents() == AfterFork(old(Contents()), capacity, e)
      ensures stored.At? <==> ForkStored(old(Contents()), capacity, e)
      ensures stored.At? ==> Holds(slots[..], states[..], stored.index, e.childPid)
    {
      if e.pid <= 0 || e.childPid <= 0 {
        return Absent;
      }
      var parent := FindExisting(e.pid);
      var target := FindUpsert(e.childPid);
      if target.Full? {
        return Absent;
      }
      ghost var before := Contents();
      assert ForkStored(before, capacity, e);
      var child := ProcInfo(true, e.childPid, e.pid, e.uid, false, false, false, false, Unknown, e.comm, "", "");
      RecordChild(child, ForkRecord(before, e), parent, target);
      stored := At(target.index);
    }

    /** Stores the record of a child, then reads whether its parent is protected. */
    method StoreChild(child: ProcInfo, parent: Found, target: Target) returns (inherits: bool)
      requires Valid() && child.used && !child.isProtected && child.pid > 0
      requires Writable(slots[..], states[..], child.pid, target)
      requires parent.Absent? <==> child.ppid !in Contents()
      requires parent.At? ==>
               Holds(slots[..], states[..], parent.index, child.ppid) && Contents()[child.ppid] == slots[parent.index]
      modifies this, slots, states
      ensures Valid() && Contents() == old(Contents())[child.pid := child]
      ensures Holds(slots[..], states[..], target.index, child.pid)
      ensures inherits <==>
              child.ppid in old(Contents()) && old(Contents())[child.ppid].isProtected && child.ppid != child.pid
    {
      if parent.At? {
        ParentSlot(slots[..], states[..], parent.index, child.ppid, target.index, child.pid);
      }
      Store(child, target);
      inherits := parent.At? && slots[parent.index].used && slots[parent.index].isProtected;
    }

    /** Stores the record of a child, and marks it when its parent is protected. */
    method RecordChild(child: ProcInfo, ghost record: ProcInfo, parent: Found, target: Target)
      requires Valid() && child.used && !child.isProtected && child.pid > 0
      requires Writable(slots[..], states[..], child.pid, target)
      requires parent.Absent? <==> child.ppid !in Contents()
      requires parent.At? ==>
               Holds(slots[..], states[..], parent.index, child.ppid) && Contents()[child.ppid] == slots[parent.index]
      requires var m := Contents();
               record == if child.ppid in m && m[child.ppid].isProtected && child.ppid != child.pid
                 then child.(isProtected := true, inheritedProtected := true, group := Protected) else child
      modifies this, slots, states
      ensures Valid() && Contents() == old(Contents())[child.pid := record]
      ensures Holds(slots[..], states[..], target.index, child.pid)
    {
      StoreTwice(Contents(), child.pid, child, record);
      var inherits := StoreChild(child, parent, target);
      InheritFork(child, record, target.index, inherits);
    }

    /** Marks the child just stored as protected, if it inherits protection. */
    method InheritFork(child: ProcInfo, ghost record: ProcInfo, i: nat, inherits: bool)
      requires Valid() && Holds(slots[..], states[..], i, child.pid)
      requires record
        == if inherits then child.(isProtected := true, inheritedProtected := true, group := Protected) else child
      requires child.pid in Contents() && Contents()[child.pid] == child && child.used && child.pid > 0
      modifies this, slots, states
      ensures Valid() && Holds(slots[..], states[..], i, child.pid)
      ensures Contents() == old(Contents())[child.pid := record]
    {
      if inherits {
        Store(child.(isProtected := true, inheritedProtected := true, group := Protected), Existing(i));
      } else {
        assert Contents() == Contents()[child.pid := child];
      }
    }

    method Remove(pid: int)
      requires Valid()
      modifies this, slots, states
      ensures Valid() && Contents() == old(Contents()) - {pid}
    {
      var found := FindExisting(pid);
      if found.Absent? {
        return;
      }
      ghost var slots0, states0 := slots[..], states[..];
      var i := found.index;
      RemoveKeeps(slots0, states0, occupied, i);
      slots[i], states[i] := ZERO, Tombstone;
      assert slots[..] == slots0[i := ZERO] && states[..] == states0[i := Tombstone];
      if occupied > 0 {
        occupied := occupied - 1;
      }
    }

    /** All live records, each once, or nothing when they do not fit; the consistency checks never fail. */
    method Snapshot(space: nat) returns (r: SnapshotResult)
      requires Valid()
      ensures !r.Inconsistent?
      ensures r.NoSpace? <==> space < |Contents()|
      ensures r.Records? ==>
                && |r.records| == |Contents()|
                && (forall i, j :: 0 <= i < j < |r.records| ==> r.records[i].pid != r.records[j].pid)
                && (forall i :: 0 <= i < |r.records| ==>
                    r.records[i].pid in Contents() && Contents()[r.records[i].pid] == r.records[i])
    {
      var consistent, actual := CheckSlots();
      if !consistent || actual != occupied {
        return Inconsistent;
      }
      ModelSize(slots[..], states[..], occupied);
      if space < actual {
        return NoSpace;
      }
      var copied := CopyLive();
      forall k | 0 <= k < |copied|
        ensures copied[k].pid in Contents() && Contents()[copied[k].pid] == copied[k]
      {
        var j :| Holds(slots[..], states[..], j, copied[k].pid) && copied[k] == slots[j];
        ModelHas(slots[..], states[..], j, copied[k].pid);
      }
      r := Records(copied);
    }

    /** The first pass: slot states and record flags agree, and the live slots are counted. */
    method CheckSlots() returns (consistent: bool, actual: nat)
      requires Valid()
      ensures consistent && actual == |OccupiedSlots(states[..])|
    {
      actual := 0;
      for i := 0 to capacity
        invariant actual == |OccupiedSlots(states[..i])|
      {
        OccupiedPrefix(states[..], i);
        assert states[..][..i] == states[..i] && states[..][..i + 1] == states[..i + 1];
        if states[i] == Occupied {
          if !slots[i].used || slots[i].pid <= 0 {
            return false, actual;
          }
          actual := actual + 1;
        } else if slots[i].used {
          return false, actual;
        }
      }
      assert states[..capacity] == states[..];
      consistent := true;
    }

    /** The second pass: the live records in slot order. */
    method CopyLive() returns (copied: seq<ProcInfo>)
      requires Valid()
      ensures |copied| == |OccupiedSlots(states[..])|
      ensures forall k :: 0 <= k < |copied| ==>
              exists j :: Holds(slots[..], states[..], j, copied[k].pid) && copied[k] == slots[j]
      ensures forall k, l :: 0 <= k < l < |copied| ==> copied[k].pid != copied[l].pid
    {
      copied := [];
      for i := 0 to capacity
        invariant |copied| == |OccupiedSlots(states[..i])|
        invariant forall k :: 0 <= k < |copied| ==>
                    exists j :: 0 <= j < i && Holds(slots[..], states[..], j, copied[k].pid) && copied[k] == slots[j]
        invariant forall k, l :: 0 <= k < l < |copied| ==> copied[k].pid != copied[l].pid
      {
        OccupiedPrefix(states[..], i);
        assert states[..][..i] == states[..i] && states[..][..i + 1] == states[..i + 1];
        if states[i] != Occupied {
          continue;
        }
        assert Holds(slots[..], states[..], i, slots[i].pid);
        copied := copied + [slots[i]];
      }
      assert states[..capacity] == states[..];
    }
  }

  lemma StoreTwice(m: map<int, ProcInfo>, pid: int, first: ProcInfo, second: ProcInfo)
    ensures m[pid := first][pid := second] == m[pid := second]
  {
  }

  lemma OccupiedPrefix(states: seq<SlotState>, i: nat)
    requires i < |states|
    ensures |OccupiedSlots(states[..i + 1])| == |OccupiedSlots(states[..i])| + if states[i] == Occupied then 1 else 0
  {
    if states[i] == Occupied {
      assert OccupiedSlots(states[..i + 1]) == OccupiedSlots(states[..i]) + {i};
    } else {
      assert OccupiedSlots(states[..i + 1]) == OccupiedSlots(states[..i]);
    }
  }
}
