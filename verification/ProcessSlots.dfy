/** The slots of the process table as values: what every operation keeps, and the finite map they stand for. */
module ProcessSlots {
  import opened Arithmetic
  import opened FiniteSets

  datatype Group = Unknown | Protected | Background | Throttled | Ignored

  datatype SlotState = Empty | Occupied | Tombstone

  datatype ProcInfo = ProcInfo(
    used: bool, pid: int, ppid: int, uid: nat, execSeen: bool, exited: bool,
    isProtected: bool, inheritedProtected: bool, group: Group,
    comm: string, exePath: string, cmdline: string)

  /** A record cleared to zero bytes; zero is the PROTECTED group. */
  const ZERO := ProcInfo(false, 0, 0, 0, false, false, false, false, Protected, "", "", "")

  // ----- Probing

  /** The slot at which the probe sequence of a pid starts. */
  function Hash(pid: int, n: nat): (h: nat)
    requires n > 0
    ensures h < n
  {
    pid % n
  }

  /** The slot after `k` probes from `start`, wrapping once around the table. */
  function Probe(start: nat, k: nat, n: nat): (i: nat)
    requires start < n && k < n
    ensures i < n
  {
    if start + k < n then start + k else start + k - n
  }

  lemma ProbeIsMod(start: nat, k: nat, n: nat)
    requires start < n && k < n
    ensures Probe(start, k, n) == (start + k) % n
  {
    if start + k < n {
      ModUnique(start + k, n, 0, start + k);
    } else {
      ModUnique(start + k, n, 1, start + k - n);
    }
  }

  /** The number of probes from `start` to slot `i`. */
  function Offset(start: nat, i: nat, n: nat): (k: nat)
    requires start < n && i < n
    ensures k < n && Probe(start, k, n) == i
  {
    if i >= start then i - start else i + n - start
  }

  lemma OffsetUnique(start: nat, k: nat, n: nat)
    requires start < n && k < n
    ensures Offset(start, Probe(start, k, n), n) == k
  {
  }

  // ----- The invariant

  /** No slot before `i` on the probe path from `start` is EMPTY. */
  ghost predicate Reachable(states: seq<SlotState>, start: nat, i: nat)
    requires start < |states| && i < |states|
  {
    forall k :: 0 <= k < Offset(start, i, |states|) ==> states[Probe(start, k, |states|)] != Empty
  }

  /** The first slot on the probe path from `start` that is not OCCUPIED. */
  ghost predicate FirstFree(states: seq<SlotState>, start: nat, i: nat)
    requires start < |states| && i < |states|
  {
    states[i] != Occupied && forall k :: 0 <= k < Offset(start, i, |states|) ==>
        states[Probe(start, k, |states|)] == Occupied
  }

  ghost predicate UniquePids(slots: seq<ProcInfo>, states: seq<SlotState>) {
    |slots| == |states| &&
    forall i, j :: 0 <= i < j < |slots| && states[i] == Occupied && states[j] == Occupied ==>
        slots[i].pid != slots[j].pid
  }

  /** The number of OCCUPIED slots. */
  ghost function OccupiedSlots(states: seq<SlotState>): set<int> {
    set i | 0 <= i < |states| && states[i] == Occupied
  }

  ghost predicate TableOk(slots: seq<ProcInfo>, states: seq<SlotState>, occupied: nat) {
    && |slots| == |states| > 0
    && (forall i :: 0 <= i < |slots| && states[i] == Occupied ==> slots[i].used && slots[i].pid > 0)
    && (forall i :: 0 <= i < |slots| && states[i] != Occupied ==> !slots[i].used)
    && UniquePids(slots, states)
    && (forall i :: 0 <= i < |slots| && states[i] == Occupied ==> Reachable(states, Hash(slots[i].pid, |slots|), i))
    && occupied == |OccupiedSlots(states)|
  }

  /** The records by pid. */
  ghost function Model(slots: seq<ProcInfo>, states: seq<SlotState>): map<int, ProcInfo>
    requires UniquePids(slots, states)
  {
    map i | 0 <= i < |slots| && states[i] == Occupied :: slots[i].pid := slots[i]
  }

  /** Slot `i` is where the live record of `pid` is. */
  predicate Holds(slots: seq<ProcInfo>, states: seq<SlotState>, i: int, pid: int)
    requires |slots| == |states|
  {
    0 <= i < |slots| && states[i] == Occupied && slots[i].pid == pid
  }

  lemma ModelHas(slots: seq<ProcInfo>, states: seq<SlotState>, i: int, pid: int)
    requires UniquePids(slots, states) && Holds(slots, states, i, pid)
    ensures pid in Model(slots, states) && Model(slots, states)[pid] == slots[i]
  {
  }

  lemma SlotOf(slots: seq<ProcInfo>, states: seq<SlotState>, pid: int) returns (i: nat)
    requires UniquePids(slots, states) && pid in Model(slots, states)
    ensures Holds(slots, states, i, pid) && Model(slots, states)[pid] == slots[i]
  {
    i :| 0 <= i < |slots| && states[i] == Occupied && slots[i].pid == pid;
  }

  // ----- Searching

  /** Probes made so far met neither an EMPTY slot nor the pid. */
  ghost predicate Missed(slots: seq<ProcInfo>, states: seq<SlotState>, start: nat, pid: int, probes: nat)
    requires |slots| == |states| && start < |slots| && probes <= |slots|
  {
    forall k :: 0 <= k < probes ==>
      && states[Probe(start, k, |slots|)] != Empty
      && !Holds(slots, states, Probe(start, k, |slots|), pid)
  }

  lemma ProbedBefore(slots: seq<ProcInfo>, states: seq<SlotState>, start: nat, pid: int, probes: nat, i: nat)
    requires |slots| == |states| && start < |slots| && probes <= |slots|
    requires Missed(slots, states, start, pid, probes)
    requires probes < |slots| ==> states[Probe(start, probes, |slots|)] == Empty
    requires i < |slots| && Reachable(states, start, i)
    ensures !Holds(slots, states, i, pid)
  {
    var k := Offset(start, i, |slots|);
    assert Probe(start, k, |slots|) == i;
  }

  /** Stopping at an EMPTY slot, or after all slots, is enough to know that a pid is absent. */
  lemma MissedAbsent(slots: seq<ProcInfo>, states: seq<SlotState>, occupied: nat, pid: int, probes: nat)
    requires TableOk(slots, states, occupied) && probes <= |slots|
    requires Missed(slots, states, Hash(pid, |slots|), pid, probes)
    requires probes < |slots| ==> states[Probe(Hash(pid, |slots|), probes, |slots|)] == Empty
    ensures pid !in Model(slots, states)
  {
    if pid in Model(slots, states) {
      var i := SlotOf(slots, states, pid);
      ProbedBefore(slots, states, Hash(pid, |slots|), pid, probes, i);
    }
  }

  // ----- Searching for a place to insert

  /** After `probes` probes for an insertion: the pid was not met, and `first` is the first tombstone met, or the
      table size when every slot met was OCCUPIED. */
  ghost predicate UpsertScan(slots: seq<ProcInfo>, states: seq<SlotState>, start: nat, pid: int, probes: nat,
      first: nat)
    requires |slots| == |states| && start < |slots| && probes <= |slots|
  {
    && Missed(slots, states, start, pid, probes)
    && first <= |slots|
    && (first < |slots| ==> states[first] == Tombstone && FirstFree(states, start, first))
    && (first == |slots| ==> forall k :: 0 <= k < probes ==> states[Probe(start, k, |slots|)] == Occupied)
  }

  lemma ScanOccupied(slots: seq<ProcInfo>, states: seq<SlotState>, start: nat, pid: int, probes: nat, first: nat)
    requires |slots| == |states| && start < |slots| && probes < |slots|
             && UpsertScan(slots, states, start, pid, probes, first)
    requires states[Probe(start, probes, |slots|)] == Occupied && slots[Probe(start, probes, |slots|)].pid != pid
    ensures UpsertScan(slots, states, start, pid, probes + 1, first)
  {
  }

  lemma ScanFree(slots: seq<ProcInfo>, states: seq<SlotState>, start: nat, pid: int, probes: nat)
    requires |slots| == |states| && start < |slots| && probes < |slots|
             && UpsertScan(slots, states, start, pid, probes, |slots|)
    requires states[Probe(start, probes, |slots|)] != Occupied
    ensures FirstFree(states, start, Probe(start, probes, |slots|))
  {
    OffsetUnique(start, probes, |slots|);
  }

  lemma ScanTombstone(slots: seq<ProcInfo>, states: seq<SlotState>, start: nat, pid: int, probes: nat, first: nat)
    requires |slots| == |states| && start < |slots| && probes < |slots|
             && UpsertScan(slots, states, start, pid, probes, first)
    requires states[Probe(start, probes, |slots|)] == Tombstone
    ensures UpsertScan(slots, states, start, pid, probes + 1, if first == |slots| then Probe(start, probes, |slots|)
            else first)
  {
    if first == |slots| {
      ScanFree(slots, states, start, pid, probes);
    }
  }

  /** A scan of the whole table that met no tombstone met only OCCUPIED slots. */
  lemma ScanFull(slots: seq<ProcInfo>, states: seq<SlotState>, start: nat, pid: int)
    requires |slots| == |states| && start < |slots| && UpsertScan(slots, states, start, pid, |slots|, |slots|)
    ensures forall i :: 0 <= i < |states| ==> states[i] == Occupied
  {
    forall i | 0 <= i < |states|
      ensures states[i] == Occupied
    {
      assert Probe(start, Offset(start, i, |slots|), |slots|) == i;
    }
  }

  // ----- Updating

  lemma OccupiedAdd(states: seq<SlotState>, i: nat)
    requires i < |states| && states[i] != Occupied
    ensures |OccupiedSlots(states[i := Occupied])| == |OccupiedSlots(states)| + 1
  {
    assert OccupiedSlots(states[i := Occupied]) == OccupiedSlots(states) + {i};
  }

  lemma OccupiedDrop(states: seq<SlotState>, i: nat)
    requires i < |states| && states[i] == Occupied
    ensures |OccupiedSlots(states[i := Tombstone])| == |OccupiedSlots(states)| - 1
  {
    assert OccupiedSlots(states) == OccupiedSlots(states[i := Tombstone]) + {i};
    assert i !in OccupiedSlots(states[i := Tombstone]);
  }

  /** A slot that does not become EMPTY keeps every probe path intact. */
  lemma ReachableKept(states: seq<SlotState>, start: nat, i: nat, at: nat, state: SlotState)
    requires start < |states| && i < |states| && at < |states| && state != Empty
    requires Reachable(states, start, i)
    ensures Reachable(states[at := state], start, i)
  {
  }

  /** Putting a new record in a free slot its probe path reaches. */
  lemma InsertKeeps(slots: seq<ProcInfo>, states: seq<SlotState>, occupied: nat, i: nat, record: ProcInfo)
    requires TableOk(slots, states, occupied)
    requires i < |slots| && states[i] != Occupied && record.used && record.pid > 0
    requires record.pid !in Model(slots, states) && Reachable(states, Hash(record.pid, |slots|), i)
    ensures TableOk(slots[i := record], states[i := Occupied], occupied + 1)
    ensures Model(slots[i := record], states[i := Occupied]) == Model(slots, states)[record.pid := record]
  {
    InsertUnique(slots, states, i, record);
    InsertReachable(slots, states, i, record);
    OccupiedAdd(states, i);
    ModelUpdate(slots, states, slots[i := record], states[i := Occupied], i, record);
  }

  lemma InsertUnique(slots: seq<ProcInfo>, states: seq<SlotState>, i: nat, record: ProcInfo)
    requires UniquePids(slots, states) && i < |slots| && record.pid !in Model(slots, states)
    ensures UniquePids(slots[i := record], states[i := Occupied])
  {
    forall j | 0 <= j < |slots| && states[j] == Occupied
      ensures slots[j].pid != record.pid
    {
      ModelHas(slots, states, j, slots[j].pid);
    }
  }

  lemma InsertReachable(slots: seq<ProcInfo>, states: seq<SlotState>, i: nat, record: ProcInfo)
    requires |slots| == |states| && i < |slots| && states[i] != Occupied
    requires forall j :: 0 <= j < |slots| && states[j] == Occupied ==>
               Reachable(states, Hash(slots[j].pid, |slots|), j)
    requires Reachable(states, Hash(record.pid, |slots|), i)
    ensures var slots', states' := slots[i := record], states[i := Occupied];
            forall j :: 0 <= j < |slots'| && states'[j] == Occupied ==>
              Reachable(states', Hash(slots'[j].pid, |slots'|), j)
  {
    var slots', states' := slots[i := record], states[i := Occupied];
    forall j | 0 <= j < |slots'| && states'[j] == Occupied
      ensures Reachable(states', Hash(slots'[j].pid, |slots'|), j)
    {
      ReachableKept(states, Hash(slots'[j].pid, |slots|), j, i, Occupied);
    }
  }

  lemma ModelUpdate(
    slots: seq<ProcInfo>, states: seq<SlotState>, slots': seq<ProcInfo>, states': seq<SlotState>, i: nat,
    record: ProcInfo)
    requires UniquePids(slots, states) && UniquePids(slots', states') && i < |slots|
    requires slots' == slots[i := record] && states' == states[i := Occupied]
    requires states[i] == Occupied ==> slots[i].pid == record.pid
    ensures Model(slots', states') == Model(slots, states)[record.pid := record]
  {
    var m, m' := Model(slots, states), Model(slots', states');
    ModelHas(slots', states', i, record.pid);
    forall pid
      ensures pid in m' <==> pid in m || pid == record.pid
      ensures pid in m' && pid != record.pid ==> m'[pid] == m[pid]
    {
      if pid != record.pid {
        ModelUpdateAt(slots, states, slots', states', i, record, pid);
      }
    }
  }

  lemma ModelUpdateAt(
    slots: seq<ProcInfo>, states: seq<SlotState>, slots': seq<ProcInfo>, states': seq<SlotState>, i: nat,
    record: ProcInfo, pid: int)
    requires UniquePids(slots, states) && UniquePids(slots', states') && i < |slots|
    requires slots' == slots[i := record] && states' == states[i := Occupied]
    requires states[i] == Occupied ==> slots[i].pid == record.pid
    requires pid != record.pid
    ensures pid in Model(slots', states') <==> pid in Model(slots, states)
    ensures pid in Model(slots', states') ==> Model(slots', states')[pid] == Model(slots, states)[pid]
  {
    if pid in Model(slots, states) {
      var j := SlotOf(slots, states, pid);
      ModelHas(slots', states', j, pid);
    }
    if pid in Model(slots', states') {
      var j := SlotOf(slots', states', pid);
      ModelHas(slots, states, j, pid);
    }
  }

  /** Overwriting the record of a pid in place. */
  lemma ReplaceKeeps(slots: seq<ProcInfo>, states: seq<SlotState>, occupied: nat, i: nat, record: ProcInfo)
    requires TableOk(slots, states, occupied)
    requires Holds(slots, states, i, record.pid) && record.used
    ensures TableOk(slots[i := record], states, occupied)
    ensures Model(slots[i := record], states) == Model(slots, states)[record.pid := record]
  {
    var slots' := slots[i := record];
    assert states[i := Occupied] == states;
    forall j | 0 <= j < |slots|
      ensures slots'[j].pid == slots[j].pid && (states[j] == Occupied ==> slots'[j].used && slots'[j].pid > 0)
      ensures states[j] != Occupied ==> slots'[j] == slots[j]
    {
    }
    ReplaceOk(slots, states, occupied, slots');
    ModelUpdate(slots, states, slots', states, i, record);
  }

  lemma ReplaceOk(slots: seq<ProcInfo>, states: seq<SlotState>, occupied: nat, slots': seq<ProcInfo>)
    requires TableOk(slots, states, occupied) && |slots'| == |slots|
    requires forall j :: 0 <= j < |slots| ==>
               && slots'[j].pid == slots[j].pid
               && (if states[j] == Occupied then slots'[j].used && slots'[j].pid > 0 else slots'[j] == slots[j])
    ensures TableOk(slots', states, occupied)
  {
    forall j | 0 <= j < |slots| && states[j] == Occupied
      ensures Reachable(states, Hash(slots'[j].pid, |slots|), j)
    {
      assert Reachable(states, Hash(slots[j].pid, |slots|), j);
    }
  }

  /** Clearing a slot to a tombstone. */
  lemma RemoveKeeps(slots: seq<ProcInfo>, states: seq<SlotState>, occupied: nat, i: nat)
    requires TableOk(slots, states, occupied)
    requires i < |slots| && states[i] == Occupied
    ensures occupied > 0
    ensures TableOk(slots[i := ZERO], states[i := Tombstone], occupied - 1)
    ensures Model(slots[i := ZERO], states[i := Tombstone]) == Model(slots, states) - {slots[i].pid}
  {
    var slots', states' := slots[i := ZERO], states[i := Tombstone];
    OccupiedDrop(states, i);
    forall j | 0 <= j < |slots| && states'[j] == Occupied
      ensures Reachable(states', Hash(slots'[j].pid, |slots|), j)
    {
      ReachableKept(states, Hash(slots'[j].pid, |slots|), j, i, Tombstone);
    }
    ModelRemove(slots, states, slots', states', i);
  }

  lemma ModelRemove(slots: seq<ProcInfo>, states: seq<SlotState>, slots': seq<ProcInfo>, states': seq<SlotState>,
      i: nat)
    requires UniquePids(slots, states) && UniquePids(slots', states') && i < |slots| && states[i] == Occupied
    requires slots' == slots[i := ZERO] && states' == states[i := Tombstone]
    ensures Model(slots', states') == Model(slots, states) - {slots[i].pid}
  {
    var m, m' := Model(slots, states), Model(slots', states');
    forall pid
      ensures pid in m' <==> pid in m && pid != slots[i].pid
      ensures pid in m' ==> m'[pid] == m[pid]
    {
      ModelRemoveAt(slots, states, slots', states', i, pid);
    }
  }

  lemma ModelRemoveAt(slots: seq<ProcInfo>, states: seq<SlotState>, slots': seq<ProcInfo>, states': seq<SlotState>,
      i: nat, pid: int)
    requires UniquePids(slots, states) && UniquePids(slots', states') && i < |slots| && states[i] == Occupied
    requires slots' == slots[i := ZERO] && states' == states[i := Tombstone]
    ensures pid in Model(slots', states') <==> pid in Model(slots, states) && pid != slots[i].pid
    ensures pid in Model(slots', states') ==> Model(slots', states')[pid] == Model(slots, states)[pid]
  {
    if pid in Model(slots, states) && pid != slots[i].pid {
      var j := SlotOf(slots, states, pid);
      ModelHas(slots', states', j, pid);
    }
    if pid in Model(slots', states') {
      var j := SlotOf(slots', states', pid);
      ModelHas(slots, states, j, pid);
    }
  }

  /** Where the parent's record is once the child's has been stored at slot `t`: the same slot exactly when
      the two pids are one. */
  lemma ParentSlot(slots: seq<ProcInfo>, states: seq<SlotState>, i: nat, pid: int, t: nat, childPid: int)
    requires UniquePids(slots, states) && Holds(slots, states, i, pid) && t < |slots|
    requires Holds(slots, states, t, childPid) || (states[t] != Occupied && childPid !in Model(slots, states))
    ensures i == t <==> pid == childPid
  {
    ModelHas(slots, states, i, pid);
    if states[t] == Occupied && pid == childPid && i != t {
      ModelHas(slots, states, t, childPid);
    }
  }

  // ----- Size

  /** The occupancy counter is the number of records. */
  lemma ModelSize(slots: seq<ProcInfo>, states: seq<SlotState>, occupied: nat)
    requires TableOk(slots, states, occupied)
    ensures |Model(slots, states)| == occupied
    ensures occupied < |slots| <==> exists i :: 0 <= i < |slots| && states[i] != Occupied
  {
    PidsCount(slots, states, OccupiedSlots(states));
    ModelPids(slots, states);
    FreeSlots(states);
  }

  lemma ModelPids(slots: seq<ProcInfo>, states: seq<SlotState>)
    requires UniquePids(slots, states)
    ensures Model(slots, states).Keys == PidsOf(slots, states, OccupiedSlots(states))
  {
  }

  lemma FreeSlots(states: seq<SlotState>)
    ensures |OccupiedSlots(states)| < |states| <==> exists i :: 0 <= i < |states| && states[i] != Occupied
  {
    var all := Indices(|states|);
    if forall i :: 0 <= i < |states| ==> states[i] == Occupied {
      assert OccupiedSlots(states) == all;
    } else {
      var i :| 0 <= i < |states| && states[i] != Occupied;
      assert OccupiedSlots(states) <= all - {i};
      SubsetCount(OccupiedSlots(states), all - {i});
    }
  }

  ghost function PidsOf(slots: seq<ProcInfo>, states: seq<SlotState>, indices: set<int>): set<int>
    requires |slots| == |states| && forall i :: i in indices ==> 0 <= i < |slots|
  {
    set i | i in indices :: slots[i].pid
  }

  lemma {:induction false} PidsCount(slots: seq<ProcInfo>, states: seq<SlotState>, indices: set<int>)
    requires UniquePids(slots, states) && indices <= OccupiedSlots(states)
    ensures |PidsOf(slots, states, indices)| == |indices|
  {
    if indices != {} {
      var i :| i in indices;
      PidsCount(slots, states, indices - {i});
      assert slots[i].pid !in PidsOf(slots, states, indices - {i}) by {
        forall j | j in indices - {i}
          ensures slots[j].pid != slots[i].pid
        {
          if j < i {
            assert states[j] == Occupied && states[i] == Occupied;
          }
        }
      }
      assert PidsOf(slots, states, indices) == PidsOf(slots, states, indices - {i}) + {slots[i].pid};
    }
  }

  ghost function Indices(n: nat): (s: set<int>)
    ensures |s| == n && forall i :: i in s <==> 0 <= i < n
  {
    if n == 0 then {} else Indices(n - 1) + {n - 1}
  }
}
