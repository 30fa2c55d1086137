/** Selection of cache lines: a fixed number of lines of each requested class, in a shuffled order. */
module LineSelection {
  import opened Options
  import opened LineVisits
  import opened PageClasses
  import opened Shuffle
  import opened Sorting
  import opened Gf2Vectors
  import opened Gf2Space
  import opened Arithmetic
  import opened Words

  datatype Pool = Pool(base: nat, pageSize: nat, pfns: seq<nat>)

  /** The class of a line as the collector computes it. */
  function FastClass(masks: seq<Vec>, pool: Pool): Classifier {
    (line: Line) =>
      if line.page < |pool.pfns|
          then DecomposedClass(masks, PageBase(pool.pfns[line.page], pool.pageSize), line.index * CACHELINE_BYTES)
      else 0
  }

  /** The classes of the offsets in a page. */
  ghost predicate OffsetTable(masks: seq<Vec>, table: seq<nat>) {
    forall l :: 0 <= l < |table| ==> table[l] == BankClassOf(masks, l * CACHELINE_BYTES)
  }

  method BuildOffsetClasses(masks: seq<Vec>, pageSize: nat) returns (table: Option<seq<nat>>)
    ensures table.Some? <==> pageSize % CACHELINE_BYTES == 0
    ensures table.Some? ==> |table.value| == pageSize / CACHELINE_BYTES && OffsetTable(masks, table.value)
  {
    if pageSize % CACHELINE_BYTES != 0 {
      return None;
    }
    var lines := pageSize / CACHELINE_BYTES;
    var classes: seq<nat> := [];
    for line := 0 to lines
      invariant |classes| == line && OffsetTable(masks, classes)
    {
      classes := classes + [BankClassOf(masks, line * CACHELINE_BYTES)];
    }
    table := Some(classes);
  }

  lemma FastClassAt(masks: seq<Vec>, pool: Pool, table: seq<nat>, page: nat, line: nat)
    requires page < |pool.pfns| && line < |table| && OffsetTable(masks, table)
    ensures FastClass(masks, pool)(Line(page, line))
            == XorNum(BankClassOf(masks, PageBase(pool.pfns[page], pool.pageSize)), table[line])
  {
  }

  lemma FastClassBelow(masks: seq<Vec>, pool: Pool)
    ensures forall line :: FastClass(masks, pool)(line) < Pow2(|masks|)
  {
    forall line
      ensures FastClass(masks, pool)(line) < Pow2(|masks|)
    {
      if line.page < |pool.pfns| {
        DecomposedBelow(masks, PageBase(pool.pfns[line.page], pool.pageSize), line.index * CACHELINE_BYTES);
      }
    }
  }

  /** The lines of a pool in address order. */
  function NaturalVisit(pool: Pool, linesPerPage: nat): seq<Line> {
    Visit(Identity(|pool.pfns|), Identity(linesPerPage))
  }

  // ----- Counting lines per class

  ghost predicate CountsOf(counts: seq<nat>, visited: seq<Line>, cls: Classifier) {
    forall c :: 0 <= c < |counts| ==> counts[c] == |OfClass(visited, cls, c)|
  }

  lemma CountStep(counts: seq<nat>, visited: seq<Line>, line: Line, cls: Classifier)
    requires CountsOf(counts, visited, cls) && cls(line) < |counts|
    ensures CountsOf(counts[cls(line) := counts[cls(line)] + 1], visited + [line], cls)
  {
    forall c | 0 <= c < |counts|
      ensures counts[cls(line) := counts[cls(line)] + 1][c] == |OfClass(visited + [line], cls, c)|
    {
      OfClassAppend(visited, line, cls, c);
    }
  }

  lemma VisitNext(visited: seq<Line>, page: nat, lineOrder: seq<nat>, linePos: nat)
    requires linePos < |lineOrder|
    ensures visited + PageLines(page, lineOrder[..linePos]) + [Line(page, lineOrder[linePos])]
         == visited + PageLines(page, lineOrder[..linePos + 1])
  {
    assert PageLines(page, lineOrder[..linePos + 1])
        == PageLines(page, lineOrder[..linePos]) + [Line(page, lineOrder[linePos])];
  }

  lemma VisitPage(pageOrder: seq<nat>, lineOrder: seq<nat>, pagePos: nat)
    requires pagePos < |pageOrder|
    ensures Visit(pageOrder[..pagePos], lineOrder) + PageLines(pageOrder[pagePos], lineOrder)
            == Visit(pageOrder[..pagePos + 1], lineOrder)
  {
    assert pageOrder[..pagePos + 1][..pagePos] == pageOrder[..pagePos];
  }

  /** The lines of one page, whose classes are the page's base class XOR the table entries. */
  ghost predicate PageClass(cls: Classifier, page: nat, baseClass: nat, table: seq<nat>, space: nat) {
    forall l :: 0 <= l < |table| ==> cls(Line(page, l)) == XorNum(baseClass, table[l]) < space
  }

  lemma FastPageClass(masks: seq<Vec>, pool: Pool, table: seq<nat>, page: nat)
    requires page < |pool.pfns| && OffsetTable(masks, table)
    ensures PageClass(FastClass(masks, pool), page, BankClassOf(masks, PageBase(pool.pfns[page], pool.pageSize)),
            table, Pow2(|masks|))
  {
    FastClassBelow(masks, pool);
    forall l | 0 <= l < |table|
      ensures FastClass(masks, pool)(Line(page, l))
              == XorNum(BankClassOf(masks, PageBase(pool.pfns[page], pool.pageSize)), table[l])
    {
      FastClassAt(masks, pool, table, page, l);
    }
  }

  method CountPage(baseClass: nat, table: seq<nat>, counts: array<nat>, ghost visited: seq<Line>, ghost page: nat,
      ghost cls: Classifier)
    requires PageClass(cls, page, baseClass, table, counts.Length)
    requires CountsOf(counts[..], visited, cls)
    modifies counts
    ensures CountsOf(counts[..], visited + PageLines(page, Identity(|table|)), cls)
  {
    ghost var lines := Identity(|table|);
    assert visited + PageLines(page, lines[..0]) == visited;
    for line := 0 to |table|
      invariant CountsOf(counts[..], visited + PageLines(page, lines[..line]), cls)
    {
      var bankClass := XorNum(baseClass, table[line]);
      assert bankClass == cls(Line(page, line));
      CountStep(counts[..], visited + PageLines(page, lines[..line]), Line(page, line), cls);
      VisitNext(visited, page, lines, line);
      ghost var before := counts[..];
      counts[bankClass] := counts[bankClass] + 1;
      assert counts[..] == before[bankClass := before[bankClass] + 1];
    }
    assert lines[..|table|] == lines;
  }

  /** Counts every line of the pool.  The class is always in range: the failure exit is dead. */
  method CountLineClasses(pool: Pool, masks: seq<Vec>, table: seq<nat>, counts: array<nat>)
    requires OffsetTable(masks, table) && counts.Length == Pow2(|masks|)
    modifies counts
    ensures CountsOf(counts[..], NaturalVisit(pool, |table|), FastClass(masks, pool))
  {
    ghost var cls := FastClass(masks, pool);
    ghost var pages, lines := Identity(|pool.pfns|), Identity(|table|);
    for c := 0 to counts.Length
      invariant forall k :: 0 <= k < c ==> counts[k] == 0
    {
      counts[c] := 0;
    }
    for page := 0 to |pool.pfns|
      invariant CountsOf(counts[..], Visit(pages[..page], lines), cls)
    {
      var baseClass := BankClassOf(masks, PageBase(pool.pfns[page], pool.pageSize));
      FastPageClass(masks, pool, table, page);
      CountPage(baseClass, table, counts, Visit(pages[..page], lines), page, cls);
      VisitPage(pages, lines, page);
    }
    assert pages[..|pool.pfns|] == pages;
  }

  /** The class counts add up to the number of lines of the pool. */
  lemma CountsTotal(counts: seq<nat>, pool: Pool, masks: seq<Vec>, lines: nat)
    requires |counts| == Pow2(|masks|) && CountsOf(counts, NaturalVisit(pool, lines), FastClass(masks, pool))
    ensures Sum((c: nat) => if c < |counts| then counts[c] else 0, |counts|) == |pool.pfns| * lines
  {
    var visit, cls := NaturalVisit(pool, lines), FastClass(masks, pool);
    FastClassBelow(masks, pool);
    ClassCountsTotal(visit, cls, |counts|);
    VisitLength(Identity(|pool.pfns|), Identity(lines));
    SumCongruent(c => |OfClass(visit, cls, c)|, (c: nat) => if c < |counts| then counts[c] else 0, |counts|);
  }

  // ----- Choosing the class sets

  /** The class has the quota in every pool. */
  predicate Eligible(counts: seq<seq<nat>>, quota: nat, c: nat) {
    forall p :: 0 <= p < |counts| ==> c < |counts[p]| && counts[p][c] >= quota
  }

  /** The eligible classes below `n`, in increasing order. */
  function EligibleClasses(counts: seq<seq<nat>>, quota: nat, n: nat): (eligible: seq<nat>)
    ensures Distinct(eligible)
    ensures forall c: nat :: c in eligible <==> c < n && Eligible(counts, quota, c)
  {
    if n == 0 then []
    else
      var rest := EligibleClasses(counts, quota, n - 1);
      if Eligible(counts, quota, n - 1) then rest + [n - 1] else rest
  }

  datatype ClassSets = ClassSets(victim: seq<nat>, disjoint: seq<nat>)

  method ListEligible(counts: seq<seq<nat>>, classSpace: nat, quota: nat) returns (candidates: seq<nat>)
    requires forall p :: 0 <= p < |counts| ==> |counts[p]| == classSpace
    ensures candidates == EligibleClasses(counts, quota, classSpace)
  {
    candidates := [];
    for c := 0 to classSpace
      invariant candidates == EligibleClasses(counts, quota, c)
    {
      var eligible := CheckEligible(counts, quota, c);
      if eligible {
        candidates := candidates + [c];
      }
    }
  }

  method CheckEligible(counts: seq<seq<nat>>, quota: nat, c: nat) returns (eligible: bool)
    requires forall p :: 0 <= p < |counts| ==> c < |counts[p]|
    ensures eligible == Eligible(counts, quota, c)
  {
    for p := 0 to |counts|
      invariant forall q :: 0 <= q < p ==> counts[q][c] >= quota
    {
      if counts[p][c] < quota {
        return false;
      }
    }
    return true;
  }

  /** Picks two disjoint sets of eligible classes, the first ones in shuffled order; succeeds exactly when there are
      enough of them. */
  method ChooseClassSets(rng: Generator, counts: seq<seq<nat>>, classSpace: nat, group: nat, quota: nat, seed: nat)
    returns (sets: Option<ClassSets>)
    requires forall p :: 0 <= p < |counts| ==> |counts[p]| == classSpace
    ensures sets.Some? <==> group > 0 && quota > 0 && |EligibleClasses(counts, quota, classSpace)| >= 2 * group
    ensures sets.Some? ==>
              && |sets.value.victim| == |sets.value.disjoint| == group
              && Distinct(sets.value.victim + sets.value.disjoint)
              && (forall c :: c in sets.value.victim + sets.value.disjoint ==>
                  c < classSpace && Eligible(counts, quota, c))
              && sets.value.victim + sets.value.disjoint
                  == Shuffled(rng, EligibleClasses(counts, quota, classSpace), seed)[..2 * group]
  {
    if group == 0 || quota == 0 {
      return None;
    }
    var candidates := ListEligible(counts, classSpace, quota);
    var count := |candidates|;
    if count < group * 2 {
      return None;
    }
    var chosen := new nat[count](i requires 0 <= i < count => candidates[i]);
    assert chosen[..] == candidates;
    ShuffleInPlace(rng, chosen, seed);
    ghost var order := chosen[..];
    ChosenClasses(candidates, order, group);
    sets := Some(ClassSets(chosen[..group], chosen[group..2 * group]));
    assert sets.value == ClassSets(order[..group], order[group..2 * group]);
  }

  lemma ChosenClasses(eligible: seq<nat>, chosen: seq<nat>, group: nat)
    requires multiset(chosen) == multiset(eligible) && Distinct(eligible) && 2 * group <= |chosen|
    ensures chosen[..group] + chosen[group..2 * group] == chosen[..2 * group]
    ensures Distinct(chosen[..group] + chosen[group..2 * group])
    ensures forall c :: c in chosen[..group] + chosen[group..2 * group] ==> c in eligible
  {
    DistinctPermuted(eligible, chosen);
    var both := chosen[..group] + chosen[group..2 * group];
    assert both == chosen[..2 * group];
    forall c | c in both
      ensures c in eligible
    {
      assert c in multiset(chosen);
    }
  }

  /** No choice is out of reach: any different eligible classes come first for some generator. */
  lemma EveryChoiceMade(eligible: seq<nat>, chosen: seq<nat>) returns (rng: Generator)
    requires Distinct(eligible) && Distinct(chosen) && forall c :: c in chosen ==> c in eligible
    ensures |chosen| <= |eligible| && Shuffled(rng, eligible, 0)[..|chosen|] == chosen
  {
    var rest := OthersOf(eligible, chosen);
    assert multiset(chosen + rest) == multiset(chosen) + multiset(rest);
    SizeOfSame(eligible, chosen + rest);
    rng := EveryOrderShuffled(eligible, chosen + rest);
  }

  /** The elements that were not chosen. */
  lemma {:induction false} OthersOf(all: seq<nat>, chosen: seq<nat>) returns (rest: seq<nat>)
    requires Distinct(all) && Distinct(chosen) && forall c :: c in chosen ==> c in all
    ensures multiset(chosen) + multiset(rest) == multiset(all)
    decreases |chosen|
  {
    if chosen == [] {
      rest := all;
    } else {
      var n := |chosen| - 1;
      var more := OthersOf(all, chosen[..n]);
      assert chosen == chosen[..n] + [chosen[n]];
      assert chosen[n] in multiset(more) by {
        assert chosen[n] in chosen && chosen[n] in multiset(all);
        assert chosen[n] !in multiset(chosen[..n]);
      }
      var i :| 0 <= i < |more| && more[i] == chosen[n];
      rest := more[..i] + more[i + 1..];
      assert more == more[..i] + [more[i]] + more[i + 1..];
    }
  }

  /** The first `shared` victim classes, then disjoint ones. */
  method BuildOverlapClasses(sets: ClassSets, shared: nat) returns (classes: Option<seq<nat>>)
    requires |sets.victim| == |sets.disjoint|
    ensures classes.Some? <==> |sets.victim| > 0 && shared <= |sets.victim|
    ensures classes.Some? ==> classes.value == sets.victim[..shared] + sets.disjoint[..|sets.victim| - shared]
  {
    var group := |sets.victim|;
    if group == 0 || shared > group {
      return None;
    }
    var out: seq<nat> := [];
    for i := 0 to shared
      invariant out == sets.victim[..i]
    {
      out := out + [sets.victim[i]];
    }
    for i := 0 to group - shared
      invariant out == sets.victim[..shared] + sets.disjoint[..i]
    {
      out := out + [sets.disjoint[i]];
    }
    classes := Some(out);
  }

  // ----- Collecting the lines

  function LineAddress(pool: Pool, line: Line): nat {
    pool.base + line.page * pool.pageSize + line.index * CACHELINE_BYTES
  }

  /** The position of entry `k` of a slot in the address list. */
  function Position(slot: nat, k: nat, quota: nat): nat {
    slot * quota + k
  }

  lemma PositionsApart(slot: nat, k: nat, slot': nat, k': nat, quota: nat)
    requires k < quota && k' < quota && (slot != slot' || k != k')
    ensures Position(slot, k, quota) != Position(slot', k', quota)
  {
    if slot < slot' {
      PositionsOrdered(slot, k, slot', k', quota);
    } else if slot' < slot {
      PositionsOrdered(slot', k', slot, k, quota);
    }
  }

  lemma PositionsOrdered(slot: nat, k: nat, slot': nat, k': nat, quota: nat)
    requires k < quota && slot < slot'
    ensures Position(slot, k, quota) < Position(slot', k', quota)
  {
    MulMonotone(quota, slot + 1, slot');
    assert quota * (slot + 1) == slot * quota + quota;
  }

  lemma PositionInRange(slot: nat, k: nat, slots: nat, quota: nat)
    requires k < quota && slot < slots
    ensures Position(slot, k, quota) < slots * quota
  {
    PositionsOrdered(slot, k, slots, 0, quota);
  }

  function Min(m: nat, n: nat): nat {
    if m < n then m else n
  }

  /** The slot that receives each class: the last one that asks for it. */
  ghost predicate SlotMap(slotOf: seq<int>, classes: seq<nat>, n: nat)
    requires n <= |classes|
  {
    && (forall s :: 0 <= s < n ==> classes[s] < |slotOf| && s <= slotOf[classes[s]])
    && (forall c :: 0 <= c < |slotOf| ==> -1 <= slotOf[c] < n && (slotOf[c] >= 0 ==> classes[slotOf[c]] == c))
  }

  /** Each receiving slot holds the first lines of its class, up to the quota. */
  ghost predicate Collected(
    visited: seq<Line>, cls: Classifier, pool: Pool, classes: seq<nat>, slotOf: seq<int>, quota: nat,
    filled: seq<nat>, addresses: seq<nat>)
    requires SlotMap(slotOf, classes, |classes|)
  {
    && |filled| == |classes| && |addresses| == |classes| * quota
    && (forall s :: 0 <= s < |classes| ==>
          filled[s] == if slotOf[classes[s]] == s then Min(|OfClass(visited, cls, classes[s])|, quota) else 0)
    && (forall s, k :: 0 <= s < |classes| && 0 <= k < filled[s] ==>
          && Position(s, k, quota) < |addresses|
          && addresses[Position(s, k, quota)] == LineAddress(pool, OfClass(visited, cls, classes[s])[k]))
  }

  /** A line nobody wants any more changes nothing. */
  lemma CollectSkip(
    visited: seq<Line>, line: Line, cls: Classifier, pool: Pool, classes: seq<nat>, slotOf: seq<int>, quota: nat,
    filled: seq<nat>, addresses: seq<nat>)
    requires SlotMap(slotOf, classes, |classes|)
             && Collected(visited, cls, pool, classes, slotOf, quota, filled, addresses)
    requires cls(line) < |slotOf|
    requires slotOf[cls(line)] < 0 || filled[slotOf[cls(line)]] >= quota
    ensures Collected(visited + [line], cls, pool, classes, slotOf, quota, filled, addresses)
  {
    forall s | 0 <= s < |classes|
      ensures filled[s] == if slotOf[classes[s]] == s then Min(|OfClass(visited + [line], cls, classes[s])|, quota)
              else 0
      ensures OfClass(visited, cls, classes[s]) <= OfClass(visited + [line], cls, classes[s])
    {
      OfClassAppend(visited, line, cls, classes[s]);
    }
  }

  /** A wanted line goes to the next free entry of its slot. */
  lemma CollectTake(
    visited: seq<Line>, line: Line, cls: Classifier, pool: Pool, classes: seq<nat>, slotOf: seq<int>, quota: nat,
    filled: seq<nat>, addresses: seq<nat>, slot: nat)
    requires SlotMap(slotOf, classes, |classes|)
             && Collected(visited, cls, pool, classes, slotOf, quota, filled, addresses)
    requires cls(line) < |slotOf| && slotOf[cls(line)] == slot
    requires filled[slot] < quota
    ensures Position(slot, filled[slot], quota) < |addresses|
    ensures Collected(visited + [line], cls, pool, classes, slotOf, quota,
                      filled[slot := filled[slot] + 1],
                      addresses[Position(slot, filled[slot], quota) := LineAddress(pool, line)])
  {
    var at := Position(slot, filled[slot], quota);
    PositionInRange(slot, filled[slot], |classes|, quota);
    var filled', addresses' := filled[slot := filled[slot] + 1], addresses[at := LineAddress(pool, line)];
    forall s | 0 <= s < |classes|
      ensures filled'[s] == if slotOf[classes[s]] == s then Min(|OfClass(visited + [line], cls, classes[s])|, quota)
              else 0
      ensures OfClass(visited, cls, classes[s]) <= OfClass(visited + [line], cls, classes[s])
    {
      OfClassAppend(visited, line, cls, classes[s]);
    }
    forall s, k | 0 <= s < |classes| && 0 <= k < filled'[s]
      ensures Position(s, k, quota) < |addresses|
      ensures addresses'[Position(s, k, quota)] == LineAddress(pool, OfClass(visited + [line], cls, classes[s])[k])
    {
      OfClassAppend(visited, line, cls, classes[s]);
      if s != slot || k != filled[slot] {
        PositionsApart(s, k, slot, filled[slot], quota);
        assert k < filled[s];
      }
    }
  }

  /** The number of slots that are not full. */
  function Unfilled(filled: seq<nat>, quota: nat): nat {
    if filled == [] then 0
    else Unfilled(filled[..|filled| - 1], quota) + if filled[|filled| - 1] < quota then 1 else 0
  }

  lemma {:induction false} UnfilledStep(filled: seq<nat>, quota: nat, slot: nat)
    requires slot < |filled| && filled[slot] < quota
    ensures Unfilled(filled, quota) > 0
    ensures Unfilled(filled[slot := filled[slot] + 1], quota)
         == Unfilled(filled, quota) - if filled[slot] + 1 == quota then 1 else 0
  {
    var n := |filled| - 1;
    var filled' := filled[slot := filled[slot] + 1];
    if slot < n {
      UnfilledStep(filled[..n], quota, slot);
      assert filled'[..n] == filled[..n][slot := filled[slot] + 1];
    } else {
      assert filled'[..n] == filled[..n];
    }
  }

  lemma {:induction false} UnfilledZero(filled: seq<nat>, quota: nat)
    ensures Unfilled(filled, quota) == 0 <==> forall s :: 0 <= s < |filled| ==> filled[s] >= quota
    ensures (forall s :: 0 <= s < |filled| ==> filled[s] < quota) ==> Unfilled(filled, quota) == |filled|
  {
    if filled != [] {
      UnfilledZero(filled[..|filled| - 1], quota);
    }
  }

  /** Enough lines of each class, and no class asked for twice. */
  ghost predicate Collectable(visit: seq<Line>, cls: Classifier, classes: seq<nat>, quota: nat, space: nat) {
    && Distinct(classes)
    && forall s :: 0 <= s < |classes| ==> classes[s] < space && |OfClass(visit, cls, classes[s])| >= quota
  }

  /** Entry `k` of the slot of class `c` is the `k`-th line of class `c` in visiting order. */
  ghost predicate FirstLines(addresses: seq<nat>, visit: seq<Line>, cls: Classifier, pool: Pool, classes: seq<nat>,
      quota: nat) {
    && |addresses| == |classes| * quota
    && forall s, k :: 0 <= s < |classes| && 0 <= k < quota ==>
         && Position(s, k, quota) < |addresses| && k < |OfClass(visit, cls, classes[s])|
         && addresses[Position(s, k, quota)] == LineAddress(pool, OfClass(visit, cls, classes[s])[k])
  }

  /** When the scan stops with nothing remaining, every class was found often enough, whether or not the
      scan reached the end; when something remains, some class cannot be served. */
  lemma CollectDone(
    visit: seq<Line>, seen: nat, cls: Classifier, pool: Pool, classes: seq<nat>, slotOf: seq<int>, quota: nat,
    filled: seq<nat>, addresses: seq<nat>)
    requires SlotMap(slotOf, classes, |classes|) && seen <= |visit| && quota > 0
    requires Collected(visit[..seen], cls, pool, classes, slotOf, quota, filled, addresses)
    requires seen < |visit| ==> Unfilled(filled, quota) == 0
    ensures Unfilled(filled, quota) == 0 <==> Collectable(visit, cls, classes, quota, |slotOf|)
    ensures Unfilled(filled, quota) == 0 ==> FirstLines(addresses, visit, cls, pool, classes, quota)
  {
    UnfilledZero(filled, quota);
    forall s | 0 <= s < |classes|
      ensures OfClass(visit[..seen], cls, classes[s]) <= OfClass(visit, cls, classes[s])
    {
      OfClassPrefix(visit, seen, cls, classes[s]);
    }
    if Unfilled(filled, quota) == 0 {
      forall s | 0 <= s < |classes|
        ensures slotOf[classes[s]] == s && filled[s] == quota
      {
      }
    } else {
      assert visit[..seen] == visit;
      var s :| 0 <= s < |classes| && filled[s] < quota;
      if slotOf[classes[s]] != s {
        assert s < slotOf[classes[s]];
      }
    }
  }

  method BuildSlotMap(classes: seq<nat>, classSpace: nat) returns (slotOf: Option<array<int>>)
    ensures slotOf.Some? <==> forall s :: 0 <= s < |classes| ==> classes[s] < classSpace
    ensures slotOf.Some? ==>
            fresh(slotOf.value) && slotOf.value.Length == classSpace && SlotMap(slotOf.value[..], classes, |classes|)
  {
    var slots := new int[classSpace](_ => -1);
    for s := 0 to |classes|
      invariant SlotMap(slots[..], classes, s)
    {
      if classes[s] >= classSpace {
        return None;
      }
      slots[classes[s]] := s;
    }
    slotOf := Some(slots);
  }

  /** Visits the lines of one page in the given order. */
  method CollectPage(
    pool: Pool, page: nat, baseClass: nat, table: seq<nat>, lineOrder: seq<nat>, classes: seq<nat>, slotOf: seq<int>,
    quota: nat,
    filled: array<nat>, addresses: array<nat>, remaining: nat, ghost visited: seq<Line>, ghost cls: Classifier)
    returns (remaining': nat)
    requires filled != addresses && SlotMap(slotOf, classes, |classes|)
    requires PageClass(cls, page, baseClass, table, |slotOf|)
    requires forall i :: 0 <= i < |lineOrder| ==> lineOrder[i] < |table|
    requires Collected(visited, cls, pool, classes, slotOf, quota, filled[..], addresses[..])
    requires remaining == Unfilled(filled[..], quota)
    modifies filled, addresses
    ensures Collected(visited + PageLines(page, lineOrder), cls, pool, classes, slotOf, quota,
                      filled[..], addresses[..])
    ensures remaining' == Unfilled(filled[..], quota)
  {
    remaining' := remaining;
    assert visited + PageLines(page, lineOrder[..0]) == visited;
    for linePos := 0 to |lineOrder|
      invariant Collected(visited + PageLines(page, lineOrder[..linePos]), cls, pool, classes, slotOf, quota,
                          filled[..], addresses[..])
      invariant remaining' == Unfilled(filled[..], quota)
    {
      var index := lineOrder[linePos];
      VisitNext(visited, page, lineOrder, linePos);
      remaining' := CollectLine(
        pool, Line(page, index), XorNum(baseClass, table[index]), classes, slotOf, quota, filled, addresses, remaining',
        visited + PageLines(page, lineOrder[..linePos]), cls);
    }
    assert lineOrder[..|lineOrder|] == lineOrder;
  }

  method CollectLine(
    pool: Pool, line: Line, bankClass: nat, classes: seq<nat>, slotOf: seq<int>, quota: nat,
    filled: array<nat>, addresses: array<nat>, remaining: nat, ghost visited: seq<Line>, ghost cls: Classifier)
    returns (remaining': nat)
    requires filled != addresses && SlotMap(slotOf, classes, |classes|)
    requires cls(line) == bankClass < |slotOf|
    requires Collected(visited, cls, pool, classes, slotOf, quota, filled[..], addresses[..])
    requires remaining == Unfilled(filled[..], quota)
    modifies filled, addresses
    ensures Collected(visited + [line], cls, pool, classes, slotOf, quota, filled[..], addresses[..])
    ensures remaining' == Unfilled(filled[..], quota)
  {
    remaining' := remaining;
    var slot := slotOf[bankClass];
    if slot < 0 || filled[slot] >= quota {
      CollectSkip(visited, line, cls, pool, classes, slotOf, quota, filled[..], addresses[..]);
      return;
    }
    CollectTake(visited, line, cls, pool, classes, slotOf, quota, filled[..], addresses[..], slot);
    UnfilledStep(filled[..], quota, slot);
    ghost var filled0, addresses0 := filled[..], addresses[..];
    addresses[Position(slot, filled[slot], quota)] := LineAddress(pool, line);
    assert addresses[..] == addresses0[Position(slot, filled0[slot], quota) := LineAddress(pool, line)];
    filled[slot] := filled[slot] + 1;
    assert filled[..] == filled0[slot := filled0[slot] + 1];
    if filled[slot] == quota {
      remaining' := remaining' - 1;
    }
  }

  /** Succeeds exactly when the classes are distinct, in range and have enough lines, and then returns for
      each class its first `quota` lines in visiting order. */
  method CollectLineSet(
    rng: Generator, pool: Pool, masks: seq<Vec>, table: seq<nat>, classes: seq<nat>, quota: nat, pageSeed: nat,
    lineSeed: nat)
    returns (lineSet: Option<seq<nat>>)
    requires OffsetTable(masks, table)
    ensures var visit :=
            Visit(Shuffled(rng, Identity(|pool.pfns|), pageSeed), Shuffled(rng, Identity(|table|), lineSeed));
            var cls := FastClass(masks, pool);
            && (lineSet.Some? <==> classes != [] && quota > 0 && Collectable(visit, cls, classes, quota, Pow2(|masks|)))
            && (lineSet.Some? ==> FirstLines(lineSet.value, visit, cls, pool, classes, quota))
  {
    if |classes| == 0 || quota == 0 {
      return None;
    }
    ghost var cls := FastClass(masks, pool);
    var slotMap := BuildSlotMap(classes, Pow2(|masks|));
    if slotMap.None? {
      return None;
    }
    var slotOf := slotMap.value[..];
    var addresses := new nat[|classes| * quota](_ => 0);
    var filled := new nat[|classes|](_ => 0);
    var pageOrder := ShuffledOrder(rng, |pool.pfns|, pageSeed);
    var lineOrder := ShuffledOrder(rng, |table|, lineSeed);
    ghost var pages, lines := pageOrder[..], lineOrder[..];
    var remaining := |classes|;
    UnfilledZero(filled[..], quota);
    var pagePos := 0;
    while pagePos < |pool.pfns| && remaining > 0
      invariant pagePos <= |pool.pfns|
      invariant pageOrder[..] == pages && lineOrder[..] == lines
      invariant Collected(Visit(pages[..pagePos], lines), cls, pool, classes, slotOf, quota, filled[..], addresses[..])
      invariant remaining == Unfilled(filled[..], quota)
    {
      var page := pageOrder[pagePos];
      assert page == pages[pagePos];
      var baseClass := BankClassOf(masks, PageBase(pool.pfns[page], pool.pageSize));
      FastPageClass(masks, pool, table, page);
      remaining := CollectPage(
        pool, page, baseClass, table, lineOrder[..], classes, slotOf, quota, filled, addresses, remaining,
        Visit(pages[..pagePos], lines), cls);
      VisitPage(pages, lines, pagePos);
      pagePos := pagePos + 1;
    }
    CollectScanned(pages, pagePos, lines, cls, pool, classes, slotOf, quota, filled[..], addresses[..]);
    if remaining != 0 {
      return None;
    }
    lineSet := Some(addresses[..]);
  }

  lemma CollectScanned(
    pages: seq<nat>, pagePos: nat, lines: seq<nat>, cls: Classifier, pool: Pool, classes: seq<nat>, slotOf: seq<int>,
    quota: nat,
    filled: seq<nat>, addresses: seq<nat>)
    requires SlotMap(slotOf, classes, |classes|) && pagePos <= |pages| && quota > 0
    requires Collected(Visit(pages[..pagePos], lines), cls, pool, classes, slotOf, quota, filled, addresses)
    requires pagePos < |pages| ==> Unfilled(filled, quota) == 0
    ensures Unfilled(filled, quota) == 0 <==> Collectable(Visit(pages, lines), cls, classes, quota, |slotOf|)
    ensures Unfilled(filled, quota) == 0 ==> FirstLines(addresses, Visit(pages, lines), cls, pool, classes, quota)
  {
    VisitPrefix(pages, pagePos, lines);
    var visit, seen := Visit(pages, lines), |Visit(pages[..pagePos], lines)|;
    assert visit[..seen] == Visit(pages[..pagePos], lines);
    assert pagePos == |pages| ==> pages[..pagePos] == pages;
    CollectDone(visit, seen, cls, pool, classes, slotOf, quota, filled, addresses);
  }
}
