/** Histograms rebuilt from the selected addresses, and the structural overlap check on them. */
module Histograms {
  import opened Options
  import opened LineVisits
  import opened LineSelection
  import opened PageClasses
  import opened Sorting
  import opened Gf2Vectors
  import opened Gf2Space
  import opened Arithmetic
  import opened Words

  // ----- The class of an address

  /** The class of a line address, recomputed from the physical address behind it. */
  function AddressClass(pool: Pool, masks: seq<Vec>, address: nat): Option<nat> {
    if !InPool(pool, address) then None else DeltaClass(pool, masks, address - pool.base)
  }

  /** Whether the address is one of the pool's. */
  predicate InPool(pool: Pool, address: nat) {
    address >= pool.base && address - pool.base < |pool.pfns| * pool.pageSize
  }

  /** The class at a distance from the start of the pool. */
  function DeltaClass(pool: Pool, masks: seq<Vec>, delta: nat): Option<nat>
    requires delta < |pool.pfns| * pool.pageSize
  {
    QuotientBelow(delta, |pool.pfns|, pool.pageSize);
    var page, offset := delta / pool.pageSize, delta % pool.pageSize;
    if offset % CACHELINE_BYTES != 0 then None
    else Some(RecomputedClass(masks, PageBase(pool.pfns[page], pool.pageSize), offset))
  }

  /** The page sizes for which the collector's classes are right. */
  ghost predicate GoodPageSize(pageSize: nat) {
    pageSize % CACHELINE_BYTES == 0 && exists p: nat :: p <= WIDTH && pageSize == Pow2(p)
  }

  lemma DeltaClassAt(pool: Pool, masks: seq<Vec>, page: nat, offset: nat, delta: nat)
    requires page < |pool.pfns| && offset < pool.pageSize && offset % CACHELINE_BYTES == 0
    requires delta == page * pool.pageSize + offset
    ensures delta < |pool.pfns| * pool.pageSize
    ensures DeltaClass(pool, masks, delta)
            == Some(RecomputedClass(masks, PageBase(pool.pfns[page], pool.pageSize), offset))
  {
    DivMod(delta, page, pool.pageSize, offset);
    MulMonotone(pool.pageSize, page + 1, |pool.pfns|);
  }

  /** The rebuilt class of a line's address is the class the collector computed. */
  lemma AddressClassOfLine(pool: Pool, masks: seq<Vec>, line: Line)
    requires GoodPageSize(pool.pageSize)
    requires line.page < |pool.pfns| && line.index * CACHELINE_BYTES < pool.pageSize
    ensures AddressClass(pool, masks, LineAddress(pool, line)) == Some(FastClass(masks, pool)(line))
  {
    var offset := line.index * CACHELINE_BYTES;
    AddressClassAt(pool, masks, line.page, offset, LineAddress(pool, line));
    FastClassIs(pool, masks, line, offset);
  }

  lemma FastClassIs(pool: Pool, masks: seq<Vec>, line: Line, offset: nat)
    requires GoodPageSize(pool.pageSize) && line.page < |pool.pfns|
    requires offset == line.index * CACHELINE_BYTES && offset < pool.pageSize
    ensures FastClass(masks, pool)(line)
            == RecomputedClass(masks, PageBase(pool.pfns[line.page], pool.pageSize), offset)
  {
    var p: nat :| p <= WIDTH && pool.pageSize == Pow2(p);
    DecompositionAgrees(masks, p, pool.pageSize, pool.pfns[line.page], offset);
  }

  lemma AddressClassAt(pool: Pool, masks: seq<Vec>, page: nat, offset: nat, address: nat)
    requires page < |pool.pfns| && offset < pool.pageSize && offset % CACHELINE_BYTES == 0
    requires address == pool.base + page * pool.pageSize + offset
    ensures AddressClass(pool, masks, address)
            == Some(RecomputedClass(masks, PageBase(pool.pfns[page], pool.pageSize), offset))
  {
    DeltaClassAt(pool, masks, page, offset, address - pool.base);
    AddressDelta(pool, masks, address);
  }

  lemma AddressDelta(pool: Pool, masks: seq<Vec>, address: nat)
    requires InPool(pool, address)
    ensures AddressClass(pool, masks, address) == DeltaClass(pool, masks, address - pool.base)
  {
  }

  // ----- Histograms

  type AddressClassifier = nat -> Option<nat>

  ghost function Rebuilt(pool: Pool, masks: seq<Vec>): AddressClassifier {
    (address: nat) => AddressClass(pool, masks, address)
  }

  method ClassifyAddress(pool: Pool, masks: seq<Vec>, address: nat) returns (bankClass: Option<nat>)
    ensures bankClass == Rebuilt(pool, masks)(address)
  {
    bankClass := AddressClass(pool, masks, address);
  }

  /** The classes of the addresses, 0 standing for the ones outside the pool. */
  ghost function ClassList(addresses: seq<nat>, classify: AddressClassifier): seq<nat> {
    seq(|addresses|, i requires 0 <= i < |addresses| =>
      match classify(addresses[i])
      case Some(c) => c
      case None => 0)
  }

  ghost predicate Classified(addresses: seq<nat>, classify: AddressClassifier, space: nat) {
    forall i :: 0 <= i < |addresses| ==> classify(addresses[i]).Some? && classify(addresses[i]).value < space
  }

  lemma ClassifiedStep(addresses: seq<nat>, classify: AddressClassifier, space: nat, i: nat)
    requires i < |addresses| && Classified(addresses[..i], classify, space)
    ensures Classified(addresses[..i + 1], classify, space) <==>
            classify(addresses[i]).Some? && classify(addresses[i]).value < space
    ensures classify(addresses[i]).Some? ==>
              ClassList(addresses[..i + 1], classify)
                  == ClassList(addresses[..i], classify) + [classify(addresses[i]).value]
    ensures Classified(addresses, classify, space) ==>
            classify(addresses[i]).Some? && classify(addresses[i]).value < space
  {
    assert forall k :: 0 <= k < i ==> addresses[..i + 1][k] == addresses[..i][k];
  }

  /** Counts the class of every address; fails on an address outside the pool or a class outside the space. */
  method BuildHistogram(addresses: seq<nat>, pool: Pool, masks: seq<Vec>, histogram: array<nat>) returns (ok: bool)
    modifies histogram
    ensures ok <==> Classified(addresses, Rebuilt(pool, masks), histogram.Length)
    ensures ok ==> forall c :: 0 <= c < histogram.Length ==>
            histogram[c] == multiset(ClassList(addresses, Rebuilt(pool, masks)))[c]
  {
    ghost var classify := Rebuilt(pool, masks);
    for c := 0 to histogram.Length
      invariant forall k :: 0 <= k < c ==> histogram[k] == 0
    {
      histogram[c] := 0;
    }
    for i := 0 to |addresses|
      invariant Classified(addresses[..i], classify, histogram.Length)
      invariant forall c :: 0 <= c < histogram.Length ==>
                histogram[c] == multiset(ClassList(addresses[..i], classify))[c]
    {
      var bankClass := ClassifyAddress(pool, masks, addresses[i]);
      ClassifiedStep(addresses, classify, histogram.Length, i);
      if bankClass.None? || bankClass.value >= histogram.Length {
        return false;
      }
      histogram[bankClass.value] := histogram[bankClass.value] + 1;
    }
    assert addresses[..|addresses|] == addresses;
    ok := true;
  }

  /** The quota on every requested class and nothing elsewhere. */
  ghost predicate ExactHistogram(histogram: seq<nat>, classes: seq<nat>, quota: nat) {
    forall c :: 0 <= c < |histogram| ==> histogram[c] == if c in classes then quota else 0
  }

  function Repeat(c: nat, n: nat): seq<nat> {
    seq(n, _ => c)
  }

  /** The class of each collected address, slot after slot. */
  function BlockClasses(classes: seq<nat>, quota: nat): seq<nat> {
    if classes == [] then [] else BlockClasses(classes[..|classes| - 1], quota) + Repeat(classes[|classes| - 1], quota)
  }

  lemma {:induction false} RepeatCount(c: nat, n: nat, d: nat)
    ensures multiset(Repeat(c, n))[d] == if c == d then n else 0
  {
    if n == 0 {
      assert Repeat(c, n) == [];
    } else {
      RepeatCount(c, n - 1, d);
      assert Repeat(c, n) == Repeat(c, n - 1) + [c];
    }
  }

  lemma {:induction false} BlockClassesCount(classes: seq<nat>, quota: nat, c: nat)
    requires Distinct(classes)
    ensures multiset(BlockClasses(classes, quota))[c] == if c in classes then quota else 0
  {
    if classes != [] {
      var front, last := classes[..|classes| - 1], classes[|classes| - 1];
      BlockClassesCount(front, quota, c);
      RepeatCount(last, quota, c);
      assert last !in front;
      assert c in classes <==> c in front || c == last by {
        assert classes == front + [last];
      }
    }
  }

  lemma {:induction false} BlockClassesAt(classes: seq<nat>, quota: nat, slot: nat, k: nat)
    requires slot < |classes| && k < quota
    ensures |BlockClasses(classes, quota)| == |classes| * quota
    ensures Position(slot, k, quota) < |BlockClasses(classes, quota)|
    ensures BlockClasses(classes, quota)[Position(slot, k, quota)] == classes[slot]
  {
    var n := |classes| - 1;
    BlockClassesLength(classes, quota);
    BlockClassesLength(classes[..n], quota);
    PositionInRange(slot, k, |classes|, quota);
    if slot < n {
      BlockClassesAt(classes[..n], quota, slot, k);
    }
  }

  lemma {:induction false} BlockClassesLength(classes: seq<nat>, quota: nat)
    ensures |BlockClasses(classes, quota)| == |classes| * quota
  {
    if classes != [] {
      var n := |classes| - 1;
      BlockClassesLength(classes[..n], quota);
      assert (n + 1) * quota == n * quota + quota;
    }
  }

  /** Every index into the address list is an entry of a slot. */
  lemma SplitPosition(i: nat, slots: nat, quota: nat) returns (slot: nat, k: nat)
    requires i < slots * quota
    ensures slot < slots && k < quota && i == Position(slot, k, quota)
  {
    QuotientBelow(i, slots, quota);
    slot, k := i / quota, i % quota;
  }

  /** The classes rebuilt from a collected set: each slot's class, quota times. */
  lemma CollectedClasses(
    addresses: seq<nat>, visit: seq<Line>, pool: Pool, masks: seq<Vec>, classes: seq<nat>, quota: nat)
    requires GoodPageSize(pool.pageSize)
    requires forall line :: line in visit ==> line.page < |pool.pfns| && line.index * CACHELINE_BYTES < pool.pageSize
    requires FirstLines(addresses, visit, FastClass(masks, pool), pool, classes, quota)
    ensures |BlockClasses(classes, quota)| == |addresses|
    ensures forall i :: 0 <= i < |addresses| ==>
            AddressClass(pool, masks, addresses[i]) == Some(BlockClasses(classes, quota)[i])
  {
    BlockClassesLength(classes, quota);
    var cls := FastClass(masks, pool);
    forall i | 0 <= i < |addresses|
      ensures AddressClass(pool, masks, addresses[i]) == Some(BlockClasses(classes, quota)[i])
    {
      var slot, k := SplitPosition(i, |classes|, quota);
      BlockClassesAt(classes, quota, slot, k);
      var line := OfClass(visit, cls, classes[slot])[k];
      OfClassMembers(visit, cls, classes[slot], line);
      AddressClassOfLine(pool, masks, line);
    }
  }

  // ----- Comparing two histograms

  method HistogramJaccard(a: seq<nat>, b: seq<nat>) returns (intersection: nat, union: nat, jaccard: real)
    requires |a| == |b|
    ensures intersection == Sum(MinAt(a, b), |a|)
    ensures union == Sum(MaxAt(a, b), |a|)
    ensures jaccard == if union == 0 then 0.0 else intersection as real / union as real
  {
    intersection, union := 0, 0;
    for i := 0 to |a|
      invariant intersection == Sum(MinAt(a, b), i) && union == Sum(MaxAt(a, b), i)
    {
      intersection := intersection + Min(a[i], b[i]);
      union := union + Max(a[i], b[i]);
    }
    jaccard := if union == 0 then 0.0 else intersection as real / union as real;
  }

  function Max(m: nat, n: nat): nat {
    if m > n then m else n
  }

  method SharedClasses(a: seq<nat>, b: seq<nat>) returns (shared: nat)
    requires |a| == |b|
    ensures shared == Sum(SharedAt(a, b), |a|)
  {
    shared := 0;
    for i := 0 to |a|
      invariant shared == Sum(SharedAt(a, b), i)
    {
      if a[i] != 0 && b[i] != 0 {
        shared := shared + 1;
      }
    }
  }

  method UniqueClasses(a: seq<nat>) returns (unique: nat)
    ensures unique == Sum(UsedAt(a), |a|)
  {
    unique := 0;
    for i := 0 to |a|
      invariant unique == Sum(UsedAt(a), i)
    {
      if a[i] != 0 {
        unique := unique + 1;
      }
    }
  }

  /** A function that is `d` on the members and 0 elsewhere adds up to `d` times their number. */
  lemma {:induction false} SumOver(f: nat -> nat, members: seq<nat>, d: nat, n: nat)
    requires Distinct(members) && forall c :: c in members ==> c < n
    requires forall c: nat :: c < n ==> f(c) == if c in members then d else 0
    ensures Sum(f, n) == |members| * d
  {
    if members == [] {
      SumZero(f, n);
    } else {
      var front, last := members[..|members| - 1], members[|members| - 1];
      assert members == front + [last];
      assert last !in front;
      assert last in members && forall c :: c in members <==> c in front || c == last;
      var g := (c: nat) => if c in front then d else 0;
      SumOver(g, front, d, n);
      SumAddAt(g, f, n, last, d);
      MulNext(|front|, d);
    }
  }

  /** The classes of one overlap level. */
  function OverlapClasses(sets: ClassSets, shared: nat): seq<nat>
    requires shared <= |sets.victim| == |sets.disjoint|
  {
    sets.victim[..shared] + sets.disjoint[..|sets.victim| - shared]
  }

  ghost predicate GoodSets(sets: ClassSets, n: nat) {
    && |sets.victim| == |sets.disjoint| && Distinct(sets.victim + sets.disjoint)
    && forall c :: c in sets.victim + sets.disjoint ==> c < n
  }

  lemma GoodSetsMembers(sets: ClassSets, shared: nat, n: nat)
    requires GoodSets(sets, n) && shared <= |sets.victim|
    ensures Distinct(sets.victim) && Distinct(OverlapClasses(sets, shared))
    ensures forall c :: c in sets.victim || c in OverlapClasses(sets, shared) ==> c < n
    ensures forall c :: c in sets.victim && c in OverlapClasses(sets, shared) <==> c in sets.victim[..shared]
  {
    var both, group := sets.victim + sets.disjoint, |sets.victim|;
    var rest, overlap := sets.disjoint[..group - shared], OverlapClasses(sets, shared);
    assert forall i :: 0 <= i < group ==> both[i] == sets.victim[i] && both[group + i] == sets.disjoint[i];
    forall i, j | 0 <= i < j < |overlap|
      ensures overlap[i] != overlap[j]
    {
      assert overlap[i] == both[if i < shared then i else group + i - shared];
      assert overlap[j] == both[if j < shared then j else group + j - shared];
    }
    forall c | c in rest
      ensures c !in sets.victim && c in both
    {
      var j :| 0 <= j < |rest| && rest[j] == c;
      assert both[group + j] == c;
    }
    assert forall c :: c in sets.victim ==> c in both;
    assert forall c :: c in sets.victim[..shared] ==> c in sets.victim;
  }

  lemma UnionMembers(sets: ClassSets, shared: nat, n: nat)
    requires GoodSets(sets, n) && shared <= |sets.victim|
    ensures var all := sets.victim + sets.disjoint[..|sets.victim| - shared];
            && Distinct(all)
            && forall c :: c in all <==> c in sets.victim || c in OverlapClasses(sets, shared)
  {
    var both, group := sets.victim + sets.disjoint, |sets.victim|;
    var all := sets.victim + sets.disjoint[..group - shared];
    assert all == both[..2 * group - shared];
    assert forall i, j :: 0 <= i < j < |all| ==> all[i] == both[i] && all[j] == both[j];
    assert forall c :: c in sets.victim[..shared] ==> c in sets.victim;
  }

  /** The rebuilt histograms of the victim and of one overlap level. */
  ghost predicate LevelHistograms(victim: seq<nat>, other: seq<nat>, sets: ClassSets, shared: nat, quota: nat) {
    && quota > 0 && |victim| == |other| && GoodSets(sets, |victim|) && shared <= |sets.victim|
    && ExactHistogram(victim, sets.victim, quota)
    && ExactHistogram(other, OverlapClasses(sets, shared), quota)
  }

  ghost function SharedAt(a: seq<nat>, b: seq<nat>): nat -> nat {
    (c: nat) => if c < |a| && c < |b| && a[c] != 0 && b[c] != 0 then 1 else 0
  }

  ghost function MinAt(a: seq<nat>, b: seq<nat>): nat -> nat {
    (c: nat) => if c < |a| && c < |b| then Min(a[c], b[c]) else 0
  }

  ghost function MaxAt(a: seq<nat>, b: seq<nat>): nat -> nat {
    (c: nat) => if c < |a| && c < |b| then Max(a[c], b[c]) else 0
  }

  ghost function UsedAt(a: seq<nat>): nat -> nat {
    (c: nat) => if c < |a| && a[c] != 0 then 1 else 0
  }

  lemma SharedTotal(victim: seq<nat>, other: seq<nat>, sets: ClassSets, shared: nat, quota: nat)
    requires LevelHistograms(victim, other, sets, shared, quota)
    ensures Sum(SharedAt(victim, other), |victim|) == shared
  {
    GoodSetsMembers(sets, shared, |victim|);
    SumOver(SharedAt(victim, other), sets.victim[..shared], 1, |victim|);
  }

  lemma MinTotal(victim: seq<nat>, other: seq<nat>, sets: ClassSets, shared: nat, quota: nat)
    requires LevelHistograms(victim, other, sets, shared, quota)
    ensures Sum(MinAt(victim, other), |victim|) == shared * quota
  {
    GoodSetsMembers(sets, shared, |victim|);
    SumOver(MinAt(victim, other), sets.victim[..shared], quota, |victim|);
  }

  lemma MaxTotal(victim: seq<nat>, other: seq<nat>, sets: ClassSets, shared: nat, quota: nat)
    requires LevelHistograms(victim, other, sets, shared, quota)
    ensures Sum(MaxAt(victim, other), |victim|) == (2 * |sets.victim| - shared) * quota
  {
    var members := sets.victim + sets.disjoint[..|sets.victim| - shared];
    GoodSetsMembers(sets, shared, |victim|);
    UnionMembers(sets, shared, |victim|);
    SumOver(MaxAt(victim, other), members, quota, |victim|);
    assert |members| == 2 * |sets.victim| - shared;
  }

  lemma UsedTotals(victim: seq<nat>, other: seq<nat>, sets: ClassSets, shared: nat, quota: nat)
    requires LevelHistograms(victim, other, sets, shared, quota)
    ensures Sum(UsedAt(other), |other|) == |sets.victim|
    ensures Sum(UsedAt(victim), |victim|) == |sets.victim|
  {
    GoodSetsMembers(sets, shared, |victim|);
    SumOver(UsedAt(other), OverlapClasses(sets, shared), 1, |victim|);
    SumOver(UsedAt(victim), sets.victim, 1, |victim|);
  }

  /** What the structural overlap check compares always comes out as requested. */
  lemma OverlapTotals(victim: seq<nat>, other: seq<nat>, sets: ClassSets, shared: nat, quota: nat)
    requires LevelHistograms(victim, other, sets, shared, quota)
    ensures Sum(SharedAt(victim, other), |victim|) == shared
    ensures Sum(MinAt(victim, other), |victim|) == shared * quota
    ensures Sum(MaxAt(victim, other), |victim|) == (2 * |sets.victim| - shared) * quota
    ensures Sum(UsedAt(other), |other|) == |sets.victim|
    ensures Sum(UsedAt(victim), |victim|) == |sets.victim|
  {
    SharedTotal(victim, other, sets, shared, quota);
    MinTotal(victim, other, sets, shared, quota);
    MaxTotal(victim, other, sets, shared, quota);
    UsedTotals(victim, other, sets, shared, quota);
  }
}
