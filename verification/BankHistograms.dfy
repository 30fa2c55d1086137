/** Page counts by bank class: the entries of a profile, their merging and their overlap. */
module BankHistograms {
  import opened FiniteSets
  import opened Arithmetic

  /** Counters are 64 bits wide. */
  function Add64(a: nat, b: nat): nat {
    Wrap(a + b)
  }

  /** A sum kept in 64 bits is the true sum, wrapped. */
  lemma AddWrapped(w: nat, t: nat, x: nat, t': nat)
    requires w == Wrap(t) && t' == t + x
    ensures Add64(w, x) == Wrap(t')
  {
  }

  datatype Entry = Entry(bankClass: nat, pages: nat, bytes: nat)

  datatype Count = Count(pages: nat, bytes: nat)

  const NOTHING := Count(0, 0)

  type Histogram = map<nat, Count>

  ghost predicate Unique(entries: seq<Entry>) {
    forall i, j :: 0 <= i < j < |entries| ==> entries[i].bankClass != entries[j].bankClass
  }

  /** The counts by class. */
  ghost function HistogramOf(entries: seq<Entry>): Histogram {
    if entries == [] then map[]
    else
      var e := entries[|entries| - 1];
      HistogramOf(entries[..|entries| - 1])[e.bankClass := Count(e.pages, e.bytes)]
  }

  ghost function CountOf(h: Histogram, c: nat): Count {
    if c in h then h[c] else NOTHING
  }

  function Plus(a: Count, b: Count): Count {
    Count(Add64(a.pages, b.pages), Add64(a.bytes, b.bytes))
  }

  /** The classes that are more than an empty entry. */
  ghost function Effective(h: Histogram): set<nat> {
    set c | c in h && h[c] != NOTHING
  }

  lemma {:induction false} EntryAt(entries: seq<Entry>, i: nat)
    requires Unique(entries) && i < |entries|
    ensures entries[i].bankClass in HistogramOf(entries)
    ensures HistogramOf(entries)[entries[i].bankClass] == Count(entries[i].pages, entries[i].bytes)
  {
    if i < |entries| - 1 {
      EntryAt(entries[..|entries| - 1], i);
    }
  }

  lemma {:induction false} EntryOf(entries: seq<Entry>, c: nat) returns (i: nat)
    requires c in HistogramOf(entries)
    ensures i < |entries| && entries[i].bankClass == c
  {
    if entries[|entries| - 1].bankClass == c {
      i := |entries| - 1;
    } else {
      i := EntryOf(entries[..|entries| - 1], c);
    }
  }

  lemma EntryAppend(entries: seq<Entry>, e: Entry)
    requires Unique(entries) && e.bankClass !in HistogramOf(entries)
    ensures Unique(entries + [e])
    ensures HistogramOf(entries + [e]) == HistogramOf(entries)[e.bankClass := Count(e.pages, e.bytes)]
  {
    forall i | 0 <= i < |entries|
      ensures entries[i].bankClass != e.bankClass
    {
      EntryAt(entries, i);
    }
    assert (entries + [e])[..|entries|] == entries;
  }

  lemma {:induction false} EntryReplace(entries: seq<Entry>, i: nat, e: Entry)
    requires Unique(entries) && i < |entries| && e.bankClass == entries[i].bankClass
    ensures Unique(entries[i := e])
    ensures HistogramOf(entries[i := e]) == HistogramOf(entries)[e.bankClass := Count(e.pages, e.bytes)]
  {
    var n := |entries| - 1;
    if i < n {
      EntryReplace(entries[..n], i, e);
      assert entries[i := e][..n] == entries[..n][i := e];
      assert entries[n].bankClass != e.bankClass;
    } else {
      assert entries[i := e][..n] == entries[..n];
    }
  }

  lemma {:induction false} EntryCount(entries: seq<Entry>)
    requires Unique(entries)
    ensures |HistogramOf(entries)| == |entries|
  {
    if entries != [] {
      var n := |entries| - 1;
      EntryCount(entries[..n]);
      if entries[n].bankClass in HistogramOf(entries[..n]) {
        var i := EntryOf(entries[..n], entries[n].bankClass);
        assert false;
      }
      assert HistogramOf(entries).Keys == HistogramOf(entries[..n]).Keys + {entries[n].bankClass};
      assert |HistogramOf(entries).Keys| == |HistogramOf(entries)|;
      assert |HistogramOf(entries[..n]).Keys| == |HistogramOf(entries[..n])|;
    }
  }

  // ----- Adding and merging

  /** Whether a count for a class finds an entry or a free one. */
  ghost predicate Fits(h: Histogram, cap: nat, c: nat, count: Count) {
    count == NOTHING || c in h || |h| < cap
  }

  ghost function Add(h: Histogram, c: nat, count: Count): Histogram {
    if count == NOTHING then h else h[c := Plus(CountOf(h, c), count)]
  }

  /** The histograms added class by class. */
  ghost predicate IsMerge(a: Histogram, b: Histogram, m: Histogram) {
    && m.Keys == a.Keys + Effective(b)
    && forall c: nat :: c in m ==> m[c] == if c in Effective(b) then Plus(CountOf(a, c), b[c]) else a[c]
  }

  ghost predicate Small(h: Histogram) {
    forall c :: c in h ==> h[c].pages < LIMIT && h[c].bytes < LIMIT
  }

  /** Merging adds the counts of every class, whether it has an entry or not. */
  lemma MergeAdds(a: Histogram, b: Histogram, m: Histogram, c: nat)
    requires IsMerge(a, b, m) && Small(a) && Small(b)
    ensures CountOf(m, c) == Plus(CountOf(a, c), CountOf(b, c))
    ensures Small(m)
  {
    PlusNothing(CountOf(a, c));
  }

  lemma PlusNothing(x: Count)
    ensures x.pages < LIMIT && x.bytes < LIMIT ==> Plus(x, NOTHING) == x && Plus(NOTHING, x) == x
  {
  }

  lemma PlusLaws(x: Count, y: Count, z: Count)
    ensures Plus(x, y) == Plus(y, x)
    ensures Plus(Plus(x, y), z) == Plus(x, Plus(y, z))
  {
    Add64Associative(x.pages, y.pages, z.pages);
    Add64Associative(x.bytes, y.bytes, z.bytes);
  }

  lemma Add64Associative(a: nat, b: nat, c: nat)
    ensures Add64(Add64(a, b), c) == Add64(a, Add64(b, c))
  {
  }

  /** Merging does not depend on which profile is merged into which. */
  lemma MergeCommutes(a: Histogram, b: Histogram, m: Histogram, m': Histogram, c: nat)
    requires Small(a) && Small(b) && IsMerge(a, b, m) && IsMerge(b, a, m')
    ensures CountOf(m, c) == CountOf(m', c)
  {
    MergeAdds(a, b, m, c);
    MergeAdds(b, a, m', c);
    PlusLaws(CountOf(a, c), CountOf(b, c), NOTHING);
  }

  /** Nor on the grouping of successive merges. */
  lemma MergeAssociates(
    a: Histogram, b: Histogram, c: Histogram, ab: Histogram, bc: Histogram, left: Histogram, right: Histogram, k: nat)
    requires Small(a) && Small(b) && Small(c)
    requires IsMerge(a, b, ab) && IsMerge(ab, c, left) && IsMerge(b, c, bc) && IsMerge(a, bc, right)
    ensures CountOf(left, k) == CountOf(right, k)
  {
    forall i: nat
      ensures CountOf(ab, i) == Plus(CountOf(a, i), CountOf(b, i)) && Small(ab)
      ensures CountOf(bc, i) == Plus(CountOf(b, i), CountOf(c, i)) && Small(bc)
    {
      MergeAdds(a, b, ab, i);
      MergeAdds(b, c, bc, i);
    }
    MergeAdds(ab, c, left, k);
    MergeAdds(a, bc, right, k);
    PlusLaws(CountOf(a, k), CountOf(b, k), CountOf(c, k));
  }

  // ----- When merging succeeds

  /** The classes of both histograms find entries. */
  ghost predicate MergeFits(a: Histogram, b: Histogram, cap: nat) {
    |a.Keys + Effective(b)| <= cap
  }

  ghost predicate AllEffective(h: Histogram) {
    forall c :: c in h ==> h[c] != NOTHING
  }

  lemma EffectiveAll(h: Histogram)
    requires AllEffective(h)
    ensures Effective(h) == h.Keys
  {
  }

  /** No count of any class reaches 64 bits, even in all three histograms together. */
  ghost predicate NoWrap(a: Histogram, b: Histogram, c: Histogram) {
    forall k: nat ::
      && CountOf(a, k).pages + CountOf(b, k).pages + CountOf(c, k).pages < LIMIT
      && CountOf(a, k).bytes + CountOf(b, k).bytes + CountOf(c, k).bytes < LIMIT
  }

  lemma NoWrapMoves(a: Histogram, b: Histogram, c: Histogram)
    requires NoWrap(a, b, c)
    ensures NoWrap(b, c, a)
  {
    forall k: nat
      ensures CountOf(b, k).pages + CountOf(c, k).pages + CountOf(a, k).pages < LIMIT
      ensures CountOf(b, k).bytes + CountOf(c, k).bytes + CountOf(a, k).bytes < LIMIT
    {
      assert CountOf(a, k).pages + CountOf(b, k).pages + CountOf(c, k).pages < LIMIT;
    }
  }

  /** Merging keeps every entry effective. */
  lemma MergeEffective(a: Histogram, b: Histogram, c: Histogram, m: Histogram)
    requires AllEffective(a) && AllEffective(b) && NoWrap(a, b, c) && IsMerge(a, b, m)
    ensures AllEffective(m) && m.Keys == a.Keys + b.Keys
  {
    EffectiveAll(b);
    forall k | k in m
      ensures m[k] != NOTHING
    {
      assert CountOf(a, k).pages + CountOf(b, k).pages + CountOf(c, k).pages < LIMIT;
      PlusExact(CountOf(a, k), CountOf(b, k));
    }
  }

  lemma PlusExact(x: Count, y: Count)
    requires x.pages + y.pages < LIMIT && x.bytes + y.bytes < LIMIT
    ensures Plus(x, y) == Count(x.pages + y.pages, x.bytes + y.bytes)
  {
  }

  /** Whether a merge succeeds does not depend on which profile is merged into which. */
  lemma SuccessCommutes(a: Histogram, b: Histogram, cap: nat)
    requires AllEffective(a) && AllEffective(b)
    ensures MergeFits(a, b, cap) <==> MergeFits(b, a, cap)
  {
    EffectiveAll(a);
    EffectiveAll(b);
    assert a.Keys + b.Keys == b.Keys + a.Keys;
  }

  /** The merged histogram. */
  ghost function SumOf(a: Histogram, b: Histogram): Histogram {
    map c | c in a.Keys + Effective(b) :: if c in Effective(b) then Plus(CountOf(a, c), b[c]) else a[c]
  }

  lemma SumIsMerge(a: Histogram, b: Histogram, m: Histogram)
    ensures IsMerge(a, b, m) <==> m == SumOf(a, b)
  {
  }

  /** Two successive merges both succeed exactly when the classes of all three fit, whatever the grouping. */
  lemma SuccessAssociates(a: Histogram, b: Histogram, c: Histogram, cap: nat)
    requires AllEffective(a) && AllEffective(b) && AllEffective(c) && NoWrap(a, b, c)
    ensures MergeFits(a, b, cap) && MergeFits(SumOf(a, b), c, cap) <==> |a.Keys + b.Keys + c.Keys| <= cap
    ensures MergeFits(b, c, cap) && MergeFits(a, SumOf(b, c), cap) <==> |a.Keys + b.Keys + c.Keys| <= cap
  {
    FitLeft(a, b, c, cap);
    FitRight(a, b, c, cap);
  }

  lemma FitLeft(a: Histogram, b: Histogram, c: Histogram, cap: nat)
    requires AllEffective(a) && AllEffective(b) && AllEffective(c) && NoWrap(a, b, c)
    ensures MergeFits(a, b, cap) && MergeFits(SumOf(a, b), c, cap) <==> |a.Keys + b.Keys + c.Keys| <= cap
  {
    SumEffective(a, b, c);
    EffectiveAll(c);
    SubsetCount(a.Keys + b.Keys, a.Keys + b.Keys + c.Keys);
  }

  lemma FitRight(a: Histogram, b: Histogram, c: Histogram, cap: nat)
    requires AllEffective(a) && AllEffective(b) && AllEffective(c) && NoWrap(a, b, c)
    ensures MergeFits(b, c, cap) && MergeFits(a, SumOf(b, c), cap) <==> |a.Keys + b.Keys + c.Keys| <= cap
  {
    NoWrapMoves(a, b, c);
    SumEffective(b, c, a);
    SubsetCount(b.Keys + c.Keys, a.Keys + b.Keys + c.Keys);
    UnionAssociates(a.Keys, b.Keys, c.Keys);
  }

  lemma UnionAssociates(s: set<nat>, t: set<nat>, u: set<nat>)
    ensures s + (t + u) == s + t + u
  {
  }

  lemma SumEffective(a: Histogram, b: Histogram, c: Histogram)
    requires AllEffective(a) && AllEffective(b) && NoWrap(a, b, c)
    ensures SumOf(a, b).Keys == Effective(SumOf(a, b)) == a.Keys + b.Keys
    ensures Effective(a) == a.Keys && Effective(b) == b.Keys
  {
    SumIsMerge(a, b, SumOf(a, b));
    MergeEffective(a, b, c, SumOf(a, b));
    EffectiveAll(a);
    EffectiveAll(b);
    EffectiveAll(SumOf(a, b));
  }

  /** The outcome of merging one histogram into another. */
  ghost predicate Outcome(a: Histogram, b: Histogram, cap: nat, m: Histogram, ok: bool) {
    (ok <==> MergeFits(a, b, cap)) && (ok ==> m == SumOf(a, b))
  }

  /** Two merges of one histogram into the other, either way, succeed or fail alike when every entry counts something,
      and end with the same counts. */
  lemma OutcomesCommute(a: Histogram, b: Histogram, cap: nat, m: Histogram, ok: bool, m': Histogram, ok': bool)
    requires Small(a) && Small(b) && Outcome(a, b, cap, m, ok) && Outcome(b, a, cap, m', ok')
    ensures AllEffective(a) && AllEffective(b) ==> ok == ok'
    ensures ok && ok' ==> forall c: nat :: CountOf(m, c) == CountOf(m', c)
  {
    if AllEffective(a) && AllEffective(b) {
      SuccessCommutes(a, b, cap);
    }
    SumsCommute(a, b);
  }

  lemma SumsCommute(a: Histogram, b: Histogram)
    requires Small(a) && Small(b)
    ensures forall c: nat :: CountOf(SumOf(a, b), c) == CountOf(SumOf(b, a), c)
  {
    SumIsMerge(a, b, SumOf(a, b));
    SumIsMerge(b, a, SumOf(b, a));
    forall c: nat
      ensures CountOf(SumOf(a, b), c) == CountOf(SumOf(b, a), c)
    {
      MergeCommutes(a, b, SumOf(a, b), SumOf(b, a), c);
    }
  }

  lemma SumsAssociate(a: Histogram, b: Histogram, c: Histogram)
    requires Small(a) && Small(b) && Small(c)
    ensures forall k: nat :: CountOf(SumOf(SumOf(a, b), c), k) == CountOf(SumOf(a, SumOf(b, c)), k)
  {
    var ab, bc := SumOf(a, b), SumOf(b, c);
    SumIsMerge(a, b, ab);
    SumIsMerge(b, c, bc);
    SumIsMerge(ab, c, SumOf(ab, c));
    SumIsMerge(a, bc, SumOf(a, bc));
    forall k: nat
      ensures CountOf(SumOf(ab, c), k) == CountOf(SumOf(a, bc), k)
    {
      MergeAssociates(a, b, c, ab, bc, SumOf(ab, c), SumOf(a, bc), k);
    }
  }

  /** Both groupings of two merges, the second made only if the first succeeds, succeed or fail alike when every entry
      counts something and no count reaches 64 bits; and they end with the same counts. */
  lemma OutcomesAssociate(
    a: Histogram, b: Histogram, c: Histogram, cap: nat,
    ab: Histogram, ok1: bool, left: Histogram, ok2: bool, bc: Histogram, ok3: bool, right: Histogram, ok4: bool)
    requires Small(a) && Small(b) && Small(c)
    requires Outcome(a, b, cap, ab, ok1) && if ok1 then Outcome(ab, c, cap, left, ok2) else !ok2
    requires Outcome(b, c, cap, bc, ok3) && if ok3 then Outcome(a, bc, cap, right, ok4) else !ok4
    ensures AllEffective(a) && AllEffective(b) && AllEffective(c) && NoWrap(a, b, c) ==> ok2 == ok4
    ensures ok2 && ok4 ==> forall k: nat :: CountOf(left, k) == CountOf(right, k)
  {
    if AllEffective(a) && AllEffective(b) && AllEffective(c) && NoWrap(a, b, c) {
      SuccessAssociates(a, b, c, cap);
    }
    SumsAssociate(a, b, c);
  }

  // ----- Overlap

  ghost function Pages(h: Histogram): nat -> nat {
    (c: nat) => CountOf(h, c).pages
  }

  ghost function Lesser(a: Histogram, b: Histogram): nat -> nat {
    (c: nat) => var x, y := CountOf(a, c).pages, CountOf(b, c).pages; if x < y then x else y
  }

  ghost function Greater(a: Histogram, b: Histogram): nat -> nat {
    (c: nat) => var x, y := CountOf(a, c).pages, CountOf(b, c).pages; if x > y then x else y
  }

  ghost function Total(h: Histogram): nat {
    SetSum(h.Keys, Pages(h))
  }

  ghost function Intersection(a: Histogram, b: Histogram): nat {
    SetSum(a.Keys + b.Keys, Lesser(a, b))
  }

  ghost function Union(a: Histogram, b: Histogram): nat {
    SetSum(a.Keys + b.Keys, Greater(a, b))
  }

  /** The intersection and the union share the pages of the two profiles between them. */
  lemma OverlapConserves(a: Histogram, b: Histogram)
    ensures Intersection(a, b) + Union(a, b) == Total(a) + Total(b)
  {
    var all := a.Keys + b.Keys;
    var both := (c: nat) => CountOf(a, c).pages + CountOf(b, c).pages;
    SetSumPlus(all, Lesser(a, b), Greater(a, b), both);
    SetSumPlus(all, Pages(a), Pages(b), both);
    SetSumWithin(a.Keys, all, Pages(a));
    SetSumWithin(b.Keys, all, Pages(b));
  }

  lemma OverlapSymmetric(a: Histogram, b: Histogram)
    ensures Intersection(a, b) == Intersection(b, a) && Union(a, b) == Union(b, a)
  {
    assert a.Keys + b.Keys == b.Keys + a.Keys;
    SetSumCongruent(a.Keys + b.Keys, Lesser(a, b), Lesser(b, a));
    SetSumCongruent(a.Keys + b.Keys, Greater(a, b), Greater(b, a));
  }

  ghost function Score(a: Histogram, b: Histogram): real
    requires Union(a, b) > 0
  {
    Intersection(a, b) as real / Union(a, b) as real
  }

  /** The score is symmetric, lies between 0 and 1, and is 1 exactly for equal page counts. */
  lemma ScoreLaws(a: Histogram, b: Histogram)
    requires Union(a, b) > 0
    ensures Union(b, a) > 0 && Score(b, a) == Score(a, b)
    ensures 0.0 <= Score(a, b) <= 1.0
    ensures Score(a, b) == 1.0 <==> forall c: nat :: CountOf(a, c).pages == CountOf(b, c).pages
  {
    OverlapSymmetric(a, b);
    SetSumDominates(a.Keys + b.Keys, Lesser(a, b), Greater(a, b));
    RatioLaws(Intersection(a, b), Union(a, b));
    EqualCounts(a, b);
  }

  /** The lesser and the greater counts agree exactly for equal page counts. */
  lemma EqualCounts(a: Histogram, b: Histogram)
    ensures (forall c :: c in a.Keys + b.Keys ==> Lesser(a, b)(c) == Greater(a, b)(c))
            <==> forall c: nat :: CountOf(a, c).pages == CountOf(b, c).pages
  {
    if forall c :: c in a.Keys + b.Keys ==> Lesser(a, b)(c) == Greater(a, b)(c) {
      forall c: nat
        ensures CountOf(a, c).pages == CountOf(b, c).pages
      {
        assert c in a.Keys + b.Keys ==> Lesser(a, b)(c) == Greater(a, b)(c);
      }
    }
  }

  lemma RatioLaws(n: nat, d: nat)
    requires d > 0 && n <= d
    ensures 0.0 <= n as real / d as real <= 1.0
    ensures n as real / d as real == 1.0 <==> n == d
  {
  }

  // ----- One entry more

  lemma KeysNext(entries: seq<Entry>, i: nat)
    requires Unique(entries) && i < |entries|
    ensures var before, after := HistogramOf(entries[..i]), HistogramOf(entries[..i + 1]);
            && Unique(entries[..i]) && entries[i].bankClass !in before
            && after == before[entries[i].bankClass := Count(entries[i].pages, entries[i].bytes)]
            && after.Keys == before.Keys + {entries[i].bankClass}
  {
    assert entries[..i + 1][..i] == entries[..i];
    if entries[i].bankClass in HistogramOf(entries[..i]) {
      var k := EntryOf(entries[..i], entries[i].bankClass);
    }
  }

  /** A new class adds its pages to the total. */
  lemma TotalInsert(h: Histogram, c: nat, count: Count)
    requires c !in h
    ensures Total(h[c := count]) == Total(h) + count.pages
  {
    var h' := h[c := count];
    assert h'.Keys == h.Keys + {c};
    SetSumAdd(h.Keys, c, Pages(h'));
    SetSumCongruent(h.Keys, Pages(h), Pages(h'));
  }

  /** Replacing a count changes the total by the difference. */
  lemma TotalReplace(h: Histogram, c: nat, count: Count)
    ensures Total(h[c := count]) + CountOf(h, c).pages == Total(h) + count.pages
  {
    if c in h {
      var rest := h - {c};
      assert h == rest[c := h[c]];
      assert h[c := count] == rest[c := count];
      TotalInsert(rest, c, h[c]);
      TotalInsert(rest, c, count);
    } else {
      TotalInsert(h, c, count);
    }
  }

  lemma PagesBelowTotal(h: Histogram, c: nat)
    ensures CountOf(h, c).pages <= Total(h)
  {
    TotalReplace(h, c, NOTHING);
  }

  /** Merging one entry more. */
  lemma MergeNext(a: Histogram, b: Histogram, m: Histogram, c: nat, count: Count)
    requires IsMerge(a, b, m) && c !in b
    ensures IsMerge(a, b[c := count], Add(m, c, count))
  {
    var b' := b[c := count];
    assert Effective(b') == Effective(b) + if count == NOTHING then {} else {c};
    assert CountOf(m, c) == CountOf(a, c);
  }

  /** No room means that the classes of both do not fit together. */
  lemma NoRoom(a: Histogram, b: Histogram, m: Histogram, all: Histogram, c: nat, cap: nat)
    requires IsMerge(a, b, m) && !Fits(m, cap, c, CountOf(all, c))
    requires forall k :: k in b ==> k in all && all[k] == b[k]
    ensures !MergeFits(a, all, cap)
  {
    SubsetCount(m.Keys + {c}, a.Keys + Effective(all));
    assert |m.Keys| == |m|;
  }

  lemma {:induction false} HistogramPrefix(entries: seq<Entry>, i: nat)
    requires Unique(entries) && i <= |entries|
    ensures forall k :: k in HistogramOf(entries[..i]) ==>
            k in HistogramOf(entries) && HistogramOf(entries)[k] == HistogramOf(entries[..i])[k]
    decreases |entries| - i
  {
    if i < |entries| {
      KeysNext(entries, i);
      HistogramPrefix(entries, i + 1);
    } else {
      assert entries[..i] == entries;
    }
  }

  /** What a profile keeps of its entries. */
  ghost predicate ValidEntries(entries: seq<Entry>) {
    Unique(entries) && forall i :: 0 <= i < |entries| ==> entries[i].pages < LIMIT && entries[i].bytes < LIMIT
  }

  lemma SmallEntries(entries: seq<Entry>)
    requires ValidEntries(entries)
    ensures Small(HistogramOf(entries))
  {
    forall c | c in HistogramOf(entries)
      ensures HistogramOf(entries)[c].pages < LIMIT && HistogramOf(entries)[c].bytes < LIMIT
    {
      var i := EntryOf(entries, c);
      EntryAt(entries, i);
    }
  }

  /** A sum over the classes of the first `i` entries. */
  ghost function PrefixSum(entries: seq<Entry>, i: nat, f: nat -> nat): nat
    requires i <= |entries|
  {
    SetSum(HistogramOf(entries[..i]).Keys, f)
  }

  lemma PrefixSumNext(entries: seq<Entry>, i: nat, f: nat -> nat)
    requires Unique(entries) && i < |entries|
    ensures PrefixSum(entries, i + 1, f) == PrefixSum(entries, i, f) + f(entries[i].bankClass)
    ensures CountOf(HistogramOf(entries), entries[i].bankClass) == Count(entries[i].pages, entries[i].bytes)
  {
    KeysNext(entries, i);
    EntryAt(entries, i);
    SetSumAdd(HistogramOf(entries[..i]).Keys, entries[i].bankClass, f);
  }

  lemma PrefixSumEnds(entries: seq<Entry>, f: nat -> nat)
    ensures PrefixSum(entries, 0, f) == 0
    ensures PrefixSum(entries, |entries|, f) == SetSum(HistogramOf(entries).Keys, f)
  {
    assert entries[..|entries|] == entries;
  }

  /** A sum over some classes and those of the first `j` entries. */
  ghost function UnionSum(keys: set<nat>, entries: seq<Entry>, j: nat, f: nat -> nat): nat
    requires j <= |entries|
  {
    SetSum(keys + HistogramOf(entries[..j]).Keys, f)
  }

  lemma UnionSumNext(keys: set<nat>, entries: seq<Entry>, j: nat, f: nat -> nat)
    requires Unique(entries) && j < |entries|
    ensures UnionSum(keys, entries, j + 1, f)
         == UnionSum(keys, entries, j, f) + if entries[j].bankClass in keys then 0 else f(entries[j].bankClass)
    ensures CountOf(HistogramOf(entries), entries[j].bankClass) == Count(entries[j].pages, entries[j].bytes)
  {
    KeysNext(entries, j);
    EntryAt(entries, j);
    var before, c := keys + HistogramOf(entries[..j]).Keys, entries[j].bankClass;
    assert keys + HistogramOf(entries[..j + 1]).Keys == before + {c};
    if c in keys {
      assert before + {c} == before;
    } else {
      SetSumAdd(before, c, f);
    }
  }

  lemma UnionSumEnds(keys: set<nat>, entries: seq<Entry>, f: nat -> nat)
    ensures UnionSum(keys, entries, 0, f) == SetSum(keys, f)
    ensures UnionSum(keys, entries, |entries|, f) == SetSum(keys + HistogramOf(entries).Keys, f)
  {
    assert entries[..|entries|] == entries;
    assert keys + HistogramOf(entries[..0]).Keys == keys;
  }

  lemma LesserOutside(a: Histogram, b: Histogram)
    ensures SetSum(a.Keys, Lesser(a, b)) == Intersection(a, b)
  {
    SetSumWithin(a.Keys, a.Keys + b.Keys, Lesser(a, b));
  }

  lemma OverlapAt(a: Histogram, b: Histogram, c: nat)
    ensures var x, y := CountOf(a, c).pages, CountOf(b, c).pages;
            Lesser(a, b)(c) == (if x < y then x else y) && Greater(a, b)(c) == (if x > y then x else y)
  {
  }
}
