/** Bank profiles: sampled pages counted by bank class in a fixed array of entries. */
module BankProfile {
  import opened FiniteSets
  import opened BankHistograms
  import opened Arithmetic

  datatype Rc = Ok | PageSizeError | TooManyClasses | InvalidArg | NoSamples

  /** The profile-level counters. */
  datatype Counters = Counters(
    regionsSeen: nat, regionsSelected: nat, pagesSeen: nat, pagesConsidered: nat, pagesSampled: nat,
    pagesTranslated: nat,
    notPresent: nat, swapped: nat, pfnUnavailable: nat, translationError: nat, mappingError: nat)

  function AddCounters(a: Counters, b: Counters): Counters {
    Counters(
      Add64(a.regionsSeen, b.regionsSeen), Add64(a.regionsSelected, b.regionsSelected), Add64(a.pagesSeen, b.pagesSeen),
      Add64(a.pagesConsidered, b.pagesConsidered), Add64(a.pagesSampled, b.pagesSampled),
      Add64(a.pagesTranslated, b.pagesTranslated), Add64(a.notPresent, b.notPresent), Add64(a.swapped, b.swapped),
      Add64(a.pfnUnavailable, b.pfnUnavailable), Add64(a.translationError, b.translationError),
      Add64(a.mappingError, b.mappingError))
  }

  /** Every counter of the sum is the sum of that counter, in 64 bits. */
  ghost predicate CountersSummed(a: Counters, b: Counters, sum: Counters) {
    && sum.regionsSeen == Wrap(a.regionsSeen + b.regionsSeen)
    && sum.regionsSelected == Wrap(a.regionsSelected + b.regionsSelected)
    && sum.pagesSeen == Wrap(a.pagesSeen + b.pagesSeen)
    && sum.pagesConsidered == Wrap(a.pagesConsidered + b.pagesConsidered)
    && sum.pagesSampled == Wrap(a.pagesSampled + b.pagesSampled)
    && sum.pagesTranslated == Wrap(a.pagesTranslated + b.pagesTranslated)
    && sum.notPresent == Wrap(a.notPresent + b.notPresent) && sum.swapped == Wrap(a.swapped + b.swapped)
    && sum.pfnUnavailable == Wrap(a.pfnUnavailable + b.pfnUnavailable)
    && sum.translationError == Wrap(a.translationError + b.translationError)
    && sum.mappingError == Wrap(a.mappingError + b.mappingError)
  }

  /** The outcome of translating one page and mapping it to a bank class. */
  datatype Translation = Class(bankClass: nat) | NotPresent | Swapped | PfnUnavailable | OtherError | Unmapped

  class Profile {
    var pid: int
    var pageSize: nat
    var counters: Counters
    const entries: array<Entry>
    var count: nat
    var dominantClass: nat
    var dominantPages: nat
    var dominantFraction: real

    ghost predicate Valid()
      reads this, entries
    {
      count <= entries.Length && Unique(entries[..count]) && pageSize < LIMIT
      && forall i :: 0 <= i < count ==> entries[i].pages < LIMIT && entries[i].bytes < LIMIT
    }

    /** The counts by class. */
    ghost function Contents(): Histogram
      requires count <= entries.Length
      reads this, entries
    {
      HistogramOf(entries[..count])
    }

    constructor (capacity: nat)
      ensures Valid() && fresh(entries) && entries.Length == capacity && Contents() == map[] && pid == 0
              && pageSize == 0
      ensures Balanced()
    {
      entries := new Entry[capacity](_ => Entry(0, 0, 0));
      pid, pageSize, count := 0, 0, 0;
      counters := Counters(0, 0, 0, 0, 0, 0, 0, 0, 0, 0, 0);
      dominantClass, dominantPages, dominantFraction := 0, 0, 0.0;
    }

    /** The position of the entry of a class, or the number of entries. */
    method Find(bankClass: nat) returns (i: nat)
      requires Valid()
      ensures i <= count && (i < count <==> bankClass in Contents())
      ensures i < count ==>
              entries[i].bankClass == bankClass && Contents()[bankClass] == Count(entries[i].pages, entries[i].bytes)
    {
      i := 0;
      while i < count && entries[i].bankClass != bankClass
        invariant i <= count && forall k :: 0 <= k < i ==> entries[k].bankClass != bankClass
      {
        i := i + 1;
      }
      if i < count {
        EntryAt(entries[..count], i);
      } else if bankClass in Contents() {
        ghost var k := EntryOf(entries[..count], bankClass);
      }
    }

    method CountForClass(bankClass: nat) returns (pages: nat)
      requires Valid()
      ensures pages == CountOf(Contents(), bankClass).pages
    {
      var i := Find(bankClass);
      pages := if i < count then entries[i].pages else 0;
    }

    /** Adds to the entry of the class, taking a free entry for a new class. */
    method AddCount(bankClass: nat, pages: nat, bytes: nat) returns (rc: Rc)
      requires Valid() && pages < LIMIT && bytes < LIMIT
      modifies this`count, entries
      ensures Valid()
      ensures rc == if Fits(old(Contents()), entries.Length, bankClass, Count(pages, bytes)) then Ok else TooManyClasses
      ensures Contents() == if rc == Ok then Add(old(Contents()), bankClass, Count(pages, bytes)) else old(Contents())
      ensures count == old(count) || (bankClass !in old(Contents()) && count == old(count) + 1)
      ensures forall k :: 0 <= k < old(count) && old(entries[k].bankClass) != bankClass ==>
              entries[k] == old(entries[k])
    {
      if pages == 0 && bytes == 0 {
        return Ok;
      }
      EntryCount(entries[..count]);
      var i := Find(bankClass);
      if i < count {
        SetEntry(i, Entry(bankClass, Add64(entries[i].pages, pages), Add64(entries[i].bytes, bytes)));
        return Ok;
      }
      if count >= entries.Length {
        return TooManyClasses;
      }
      AppendEntry(Entry(bankClass, pages, bytes));
      PlusNothing(Count(pages, bytes));
      return Ok;
    }

    method SetEntry(i: nat, e: Entry)
      requires Valid() && i < count && e.bankClass == entries[i].bankClass && e.pages < LIMIT && e.bytes < LIMIT
      modifies entries
      ensures Valid() && Contents() == old(Contents())[e.bankClass := Count(e.pages, e.bytes)]
      ensures forall k :: 0 <= k < count && k != i ==> entries[k] == old(entries[k])
    {
      ghost var s := entries[..count];
      EntryReplace(s, i, e);
      entries[i] := e;
      assert entries[..count] == s[i := e];
    }

    method AppendEntry(e: Entry)
      requires Valid() && count < entries.Length && e.bankClass !in Contents() && e.pages < LIMIT && e.bytes < LIMIT
      modifies this`count, entries
      ensures Valid() && Contents() == old(Contents())[e.bankClass := Count(e.pages, e.bytes)]
      ensures count == old(count) + 1 && forall k :: 0 <= k < old(count) ==> entries[k] == old(entries[k])
    {
      ghost var s := entries[..count];
      EntryAppend(s, e);
      entries[count] := e;
      count := count + 1;
      assert entries[..count] == s + [e];
    }

    /** Whether the page sizes of two profiles go together. */
    ghost predicate Compatible(src: Profile)
      reads this, src
    {
      src.pageSize != 0 && (pageSize == 0 || pageSize == src.pageSize)
    }

    /** Merges a profile into this one, which may be the same: the counts of every class are added. When the entries
        run out, those before the first that does not fit have been merged. */
    method Merge(src: Profile) returns (rc: Rc, ghost merged: nat)
      requires Valid() && src.Valid() && (src == this || src.entries != entries)
      modifies this, entries
      ensures Valid()
      ensures if old(src.count) == 0 || !old(Compatible(src)) then
                && rc == (if old(src.count) == 0 then Ok else PageSizeError)
                && Contents() == old(Contents()) && counters == old(counters) && pageSize == old(pageSize)
                && pid == old(pid)
              else
                && pageSize == old(src.pageSize) && pid == 0
                && MergedAs(old(Contents()), old(src.entries[..src.count]), entries.Length, Contents(), rc, merged)
                && Outcome(old(Contents()), old(src.Contents()), entries.Length, Contents(), rc == Ok)
                && (if rc == Ok then CountersSummed(old(counters), old(src.counters), counters)
                    else counters == old(counters))
                && (rc == Ok ==> Dominant(Contents(), dominantClass, dominantPages))
    {
      if src.count == 0 {
        return Ok, 0;
      }
      if src.pageSize == 0 || (pageSize != 0 && pageSize != src.pageSize) {
        return PageSizeError, 0;
      }
      pageSize, pid := src.pageSize, 0;
      rc, merged := MergeInto(src, Contents(), src.entries[..src.count]);
    }

    method MergeInto(src: Profile, ghost a: Histogram, ghost t: seq<Entry>) returns (rc: Rc, ghost merged: nat)
      requires Valid() && src.Valid() && (src == this || src.entries != entries)
      requires a == Contents() && t == src.entries[..src.count]
      modifies this`count, this`counters, this`dominantClass, this`dominantPages, this`dominantFraction, entries
      ensures Valid()
      ensures MergedAs(a, t, entries.Length, Contents(), rc, merged)
      ensures Outcome(a, HistogramOf(t), entries.Length, Contents(), rc == Ok)
      ensures rc == Ok ==> Dominant(Contents(), dominantClass, dominantPages)
      ensures if rc == Ok then CountersSummed(old(counters), old(src.counters), counters)
              else counters == old(counters)
    {
      rc, merged := MergeEntries(src, a, t);
      MergeOutcome(a, t, entries.Length, Contents(), rc, merged);
      if rc == Ok {
        FinishMerge(src);
      }
    }

    method FinishMerge(src: Profile)
      requires Valid()
      modifies this`counters, this`dominantClass, this`dominantPages, this`dominantFraction
      ensures CountersSummed(old(counters), old(src.counters), counters)
      ensures Dominant(Contents(), dominantClass, dominantPages)
    {
      counters := AddCounters(counters, src.counters);
      FinalizeDominant();
    }

    method MergeEntries(src: Profile, ghost a: Histogram, ghost t: seq<Entry>) returns (rc: Rc, ghost merged: nat)
      requires Valid() && src.Valid() && (src == this || src.entries != entries)
      requires a == Contents() && t == src.entries[..src.count]
      modifies this`count, entries
      ensures Valid()
      ensures MergedAs(a, t, entries.Length, Contents(), rc, merged)
    {
      merged := 0;
      assert t[..0] == [];
      for i := 0 to src.count
        invariant Valid() && merged == i && |t| <= src.entries.Length
        invariant src == this ==> count == |t|
        invariant forall k :: i <= k < |t| ==> src.entries[k] == t[k]
        invariant IsMerge(a, HistogramOf(t[..i]), Contents())
      {
        ghost var m := Contents();
        rc := MergeEntry(src.entries[i], src, t, i);
        if rc != Ok {
          MergeStops(a, t, i, entries.Length, m);
          return;
        }
        merged := i + 1;
        MergeGoesOn(a, t, i, m);
      }
      EntryCount(entries[..count]);
      MergeEnds(a, t, entries.Length, Contents());
      rc := Ok;
    }

    /** Merges one entry; those that follow it in the source are not touched, even when the source is this profile. */
    method MergeEntry(e: Entry, ghost src: Profile, ghost t: seq<Entry>, ghost i: nat) returns (rc: Rc)
      requires Valid() && (src == this || src.entries != entries) && Unique(t) && i < |t| <= src.entries.Length
               && e == t[i]
      requires e.pages < LIMIT && e.bytes < LIMIT
      requires (src == this ==> count == |t|) && forall k :: i <= k < |t| ==> src.entries[k] == t[k]
      modifies this`count, entries
      ensures Valid()
      ensures rc == if Fits(old(Contents()), entries.Length, e.bankClass, Count(e.pages, e.bytes)) then Ok
              else TooManyClasses
      ensures Contents() == if rc == Ok then Add(old(Contents()), e.bankClass, Count(e.pages, e.bytes))
              else old(Contents())
      ensures (src == this ==> count == |t|) && forall k :: i < k < |t| ==> src.entries[k] == t[k]
    {
      if src == this {
        assert entries[..count][i] == e;
        EntryAt(entries[..count], i);
      }
      rc := AddCount(e.bankClass, e.pages, e.bytes);
    }

    // ----- Sampling

    /** Every sampled page is accounted for: it was translated or skipped for one reason, and every translated page
        is counted under its class or could not be mapped. */
    ghost predicate Balanced()
      requires count <= entries.Length
      reads this, entries
    {
      BalancedAs(counters, Total(Contents()))
    }

    /** Counts a page that was not translated. */
    method CountSkip(why: Translation)
      modifies this`counters
      ensures counters == match why
                          case NotPresent => old(counters).(notPresent := Add64(old(counters.notPresent), 1))
                          case Swapped => old(counters).(swapped := Add64(old(counters.swapped), 1))
                          case PfnUnavailable => old(counters).(pfnUnavailable :=
                              Add64(old(counters.pfnUnavailable), 1))
                          case _ => old(counters).(translationError := Add64(old(counters.translationError), 1))
      ensures Wrap(Skipped(counters)) == Wrap(Skipped(old(counters)) + 1)
    {
      ghost var c := counters;
      match why {
        case NotPresent =>
          counters := counters.(notPresent := Add64(counters.notPresent, 1));
          OneMoreSkip(c, counters, c.notPresent, c.swapped + c.pfnUnavailable + c.translationError);
        case Swapped =>
          counters := counters.(swapped := Add64(counters.swapped, 1));
          OneMoreSkip(c, counters, c.swapped, c.notPresent + c.pfnUnavailable + c.translationError);
        case PfnUnavailable =>
          counters := counters.(pfnUnavailable := Add64(counters.pfnUnavailable, 1));
          OneMoreSkip(c, counters, c.pfnUnavailable, c.notPresent + c.swapped + c.translationError);
        case _ =>
          counters := counters.(translationError := Add64(counters.translationError, 1));
          OneMoreSkip(c, counters, c.translationError, c.notPresent + c.swapped + c.pfnUnavailable);
      }
    }

    /** Samples one page, which fails exactly when its class has no entry and all entries are used. */
    method SamplePage(page: Translation) returns (rc: Rc)
      requires Valid()
      modifies this`counters, this`count, entries
      ensures Valid() && counters == Booked(old(counters), page)
      ensures rc == if NoEntryFor(page, old(Contents()), entries.Length) then TooManyClasses else Ok
      ensures Contents() == if rc == Ok then Recorded(old(Contents()), page, pageSize) else old(Contents())
      ensures old(Balanced()) && rc == Ok ==> Balanced()
    {
      PageBalances(counters, Contents(), page, pageSize);
      counters := counters.(pagesConsidered := Add64(counters.pagesConsidered, 1),
          pagesSampled := Add64(counters.pagesSampled, 1));
      if page in {NotPresent, Swapped, PfnUnavailable, OtherError} {
        CountSkip(page);
        return Ok;
      }
      counters := counters.(pagesTranslated := Add64(counters.pagesTranslated, 1));
      if page == Unmapped {
        counters := counters.(mappingError := Add64(counters.mappingError, 1));
        return Ok;
      }
      rc := AddCount(page.bankClass, 1, pageSize);
    }

    /** Samples the pages of a region at a stride, until the budget is used up or a page finds no entry for its
        class. */
    method SampleRegion(regionPages: nat, strideGiven: nat, budget: nat, look: nat -> Translation)
      returns (rc: Rc, ghost sampled: nat)
      requires Valid() && budget < LIMIT
      modifies this`counters, this`count, entries
      ensures Valid()
      ensures pageSize == 0 ==> rc == PageSizeError && counters == old(counters) && Contents() == old(Contents())
      ensures pageSize != 0 ==> rc in {Ok, TooManyClasses}
      ensures pageSize != 0 ==> counters.pagesSeen == Add64(old(counters.pagesSeen), regionPages)
      ensures rc == Ok && old(Balanced()) ==> Balanced()
      ensures var stride := if strideGiven == 0 then 1 else strideGiven;
              && (pageSize != 0 ==>
                    && CountersGained(old(counters), counters, look, stride, sampled)
                    && PagesAdded(old(Contents()), Contents(), look, stride, Counted(rc, sampled), pageSize))
              && (rc == Ok ==> SampledRight(regionPages, stride, budget, counters.pagesSampled, sampled))
              && (rc == TooManyClasses ==>
                    sampled > 0 && NoEntryFor(look((sampled - 1) * stride), Contents(), entries.Length))
    {
      if pageSize == 0 {
        return PageSizeError, 0;
      }
      ghost var before, start := Contents(), counters;
      counters := counters.(pagesSeen := Add64(counters.pagesSeen, regionPages));
      var stride := StrideOf(strideGiven);
      SmallEntries(entries[..count]);
      rc, sampled := SamplePages(regionPages, stride, budget, look);
      RegionSampled(start, counters.pagesSeen, before, look, stride, sampled, Counted(rc, sampled), pageSize);
    }

    method SamplePages(regionPages: nat, stride: nat, budget: nat, look: nat -> Translation)
      returns (rc: Rc, ghost sampled: nat)
      requires Valid() && stride > 0 && budget < LIMIT
      modifies this`counters, this`count, entries
      ensures Valid() && rc in {Ok, TooManyClasses}
      ensures counters == CountersAfter(old(counters), look, stride, sampled)
      ensures counters.pagesSeen == old(counters.pagesSeen)
      ensures Contents() == ContentsAfter(old(Contents()), look, stride, Counted(rc, sampled), pageSize)
      ensures rc == Ok ==> SampledRight(regionPages, stride, budget, counters.pagesSampled, sampled)
      ensures rc != Ok ==> sampled > 0 && NoEntryFor(look((sampled - 1) * stride), Contents(), entries.Length)
    {
      sampled := 0;
      var page := 0;
      while page < regionPages
        invariant Valid() && page == sampled * stride
        invariant sampled > 0 ==> page >= stride && page - stride < regionPages
        invariant counters == CountersAfter(old(counters), look, stride, sampled)
        invariant counters.pagesSeen == old(counters.pagesSeen)
        invariant Contents() == ContentsAfter(old(Contents()), look, stride, sampled, pageSize)
        invariant budget > 0 ==> sampled == 0 || counters.pagesSampled <= budget
        decreases regionPages + stride - page
      {
        if budget > 0 && counters.pagesSampled >= budget {
          break;
        }
        AfterNext(old(counters), old(Contents()), look, stride, sampled, pageSize, page);
        rc := SampleNext(look(page), budget);
        sampled := sampled + 1;
        if rc != Ok {
          return;
        }
        page := page + stride;
      }
      SampledEnough(regionPages, stride, budget, counters.pagesSampled, sampled, page);
      rc := Ok;
    }

    /** Samples a page while the budget is not used up. */
    method SampleNext(page: Translation, budget: nat) returns (rc: Rc)
      requires Valid() && budget < LIMIT && (budget > 0 ==> counters.pagesSampled < budget)
      modifies this`counters, this`count, entries
      ensures Valid() && counters == Booked(old(counters), page)
      ensures rc == if NoEntryFor(page, old(Contents()), entries.Length) then TooManyClasses else Ok
      ensures Contents() == if rc == Ok then Recorded(old(Contents()), page, pageSize) else old(Contents())
      ensures counters.pagesSeen == old(counters.pagesSeen) && (budget > 0 ==> counters.pagesSampled <= budget)
    {
      SampledMore(counters.pagesSampled, budget);
      rc := SamplePage(page);
    }

    /** Finds a class with the most pages. */
    method FinalizeDominant()
      requires Valid()
      modifies this`dominantClass, this`dominantPages, this`dominantFraction
      ensures Dominant(Contents(), dominantClass, dominantPages)
              && FirstWith(entries[..count], dominantClass, dominantPages)
      ensures var total := Wrap(Total(Contents()));
              dominantFraction == if total == 0 then 0.0 else dominantPages as real / total as real
    {
      var total, most, mostClass := 0, 0, 0;
      ghost var s := entries[..count];
      ghost var pages := Pages(Contents());
      PrefixSumEnds(s, pages);
      for i := 0 to count
        invariant Dominant(HistogramOf(s[..i]), mostClass, most)
        invariant FirstWith(s[..i], mostClass, most) && forall j :: 0 <= j < i ==> s[j].pages <= most
        invariant total == Wrap(PrefixSum(s, i, pages))
      {
        var e := entries[i];
        assert e == s[i];
        PrefixSumNext(s, i, pages);
        AddWrapped(total, PrefixSum(s, i, pages), e.pages, PrefixSum(s, i + 1, pages));
        DominantNext(s, i, mostClass, most);
        FirstNext(s, i, mostClass, most);
        total := Add64(total, e.pages);
        if e.pages > most {
          most := e.pages;
          mostClass := e.bankClass;
        }
      }
      assert s[..count] == s;
      dominantClass, dominantPages := mostClass, most;
      dominantFraction := if total > 0 then most as real / total as real else 0.0;
    }
  }

  /** The outcome of merging entries into a histogram: all of them, if the classes of both fit; otherwise those before
      the first for which there is no entry left. */
  ghost predicate MergedAs(a: Histogram, entries: seq<Entry>, cap: nat, m: Histogram, rc: Rc, merged: nat) {
    && rc == (if MergeFits(a, HistogramOf(entries), cap) then Ok else TooManyClasses)
    && merged <= |entries| && (rc == Ok <==> merged == |entries|)
    && IsMerge(a, HistogramOf(entries[..merged]), m)
  }

  lemma MergeGoesOn(a: Histogram, entries: seq<Entry>, i: nat, m: Histogram)
    requires Unique(entries) && i < |entries| && IsMerge(a, HistogramOf(entries[..i]), m)
    ensures IsMerge(a, HistogramOf(entries[..i + 1]),
            Add(m, entries[i].bankClass, Count(entries[i].pages, entries[i].bytes)))
  {
    KeysNext(entries, i);
    MergeNext(a, HistogramOf(entries[..i]), m, entries[i].bankClass, Count(entries[i].pages, entries[i].bytes));
  }

  lemma MergeStops(a: Histogram, entries: seq<Entry>, i: nat, cap: nat, m: Histogram)
    requires Unique(entries) && i < |entries| && IsMerge(a, HistogramOf(entries[..i]), m)
    requires !Fits(m, cap, entries[i].bankClass, Count(entries[i].pages, entries[i].bytes))
    ensures MergedAs(a, entries, cap, m, TooManyClasses, i)
  {
    EntryAt(entries, i);
    HistogramPrefix(entries, i);
    NoRoom(a, HistogramOf(entries[..i]), m, HistogramOf(entries), entries[i].bankClass, cap);
  }

  lemma MergeEnds(a: Histogram, entries: seq<Entry>, cap: nat, m: Histogram)
    requires IsMerge(a, HistogramOf(entries[..|entries|]), m) && |m| <= cap
    ensures MergedAs(a, entries, cap, m, Ok, |entries|)
  {
    assert entries[..|entries|] == entries;
    assert |m.Keys| == |m|;
  }

  lemma MergeComplete(a: Histogram, entries: seq<Entry>, cap: nat, m: Histogram, rc: Rc, merged: nat)
    requires MergedAs(a, entries, cap, m, rc, merged) && rc == Ok
    ensures IsMerge(a, HistogramOf(entries), m)
  {
    assert entries[..merged] == entries;
  }

  // ----- Laws of merging

  lemma ValidSmall(p: Profile)
    requires p.Valid()
    ensures Small(p.Contents())
  {
    SmallEntries(p.entries[..p.count]);
  }

  /** Merging either of two profiles into the other ends with the same counts, and succeeds alike when no entry is
      empty. */
  lemma MergesCommute(p: Profile, q: Profile, cap: nat, m: Histogram, ok: bool, m': Histogram, ok': bool)
    requires p.Valid() && q.Valid()
    requires Outcome(p.Contents(), q.Contents(), cap, m, ok) && Outcome(q.Contents(), p.Contents(), cap, m', ok')
    ensures AllEffective(p.Contents()) && AllEffective(q.Contents()) ==> ok == ok'
    ensures ok && ok' ==> forall c: nat :: CountOf(m, c) == CountOf(m', c)
  {
    ValidSmall(p);
    ValidSmall(q);
    OutcomesCommute(p.Contents(), q.Contents(), cap, m, ok, m', ok');
  }

  /** So do both groupings of the merges of three profiles, as long as no count reaches 64 bits. */
  lemma MergesAssociate(p: Profile, q: Profile, r: Profile, cap: nat,
      pq: Histogram, ok1: bool, left: Histogram, ok2: bool, qr: Histogram, ok3: bool, right: Histogram, ok4: bool)
    requires p.Valid() && q.Valid() && r.Valid()
    requires Outcome(p.Contents(), q.Contents(), cap, pq, ok1)
    requires if ok1 then Outcome(pq, r.Contents(), cap, left, ok2) else !ok2
    requires Outcome(q.Contents(), r.Contents(), cap, qr, ok3)
    requires if ok3 then Outcome(p.Contents(), qr, cap, right, ok4) else !ok4
    ensures var a, b, c := p.Contents(), q.Contents(), r.Contents();
            AllEffective(a) && AllEffective(b) && AllEffective(c) && NoWrap(a, b, c) ==> ok2 == ok4
    ensures ok2 && ok4 ==> forall c: nat :: CountOf(left, c) == CountOf(right, c)
  {
    ValidSmall(p);
    ValidSmall(q);
    ValidSmall(r);
    OutcomesAssociate(p.Contents(), q.Contents(), r.Contents(), cap, pq, ok1, left, ok2, qr, ok3, right, ok4);
  }

  /** What a merge of entries does to the counts. */
  lemma MergeOutcome(a: Histogram, entries: seq<Entry>, cap: nat, m: Histogram, rc: Rc, merged: nat)
    requires MergedAs(a, entries, cap, m, rc, merged)
    ensures Outcome(a, HistogramOf(entries), cap, m, rc == Ok)
  {
    if rc == Ok {
      MergeComplete(a, entries, cap, m, rc, merged);
      SumIsMerge(a, HistogramOf(entries), m);
    }
  }

  // ----- Accounting

  function Skipped(c: Counters): nat {
    c.notPresent + c.swapped + c.pfnUnavailable + c.translationError
  }

  /** The counters account for every sampled page, in 64 bits. */
  predicate BalancedAs(c: Counters, counted: nat) {
    && c.pagesConsidered == c.pagesSampled
    && c.pagesSampled == Wrap(c.pagesTranslated + Skipped(c))
    && c.pagesTranslated == Wrap(counted + c.mappingError)
  }

  /** As long as the pages fit in 64 bits, the pages sampled are those counted, those unmapped and those skipped. */
  lemma BalancedExact(c: Counters, counted: nat)
    requires BalancedAs(c, counted) && counted + c.mappingError + Skipped(c) < LIMIT
    ensures c.pagesSampled == counted + c.mappingError + Skipped(c)
  {
    WrapSmall(counted + c.mappingError);
    WrapSmall(c.pagesTranslated + Skipped(c));
  }

  /** If one of the skip counters goes up by one, so does their sum. */
  lemma OneMoreSkip(c: Counters, d: Counters, x: nat, rest: nat)
    requires Skipped(c) == x + rest && Skipped(d) == Add64(x, 1) + rest
    ensures Wrap(Skipped(d)) == Wrap(Skipped(c) + 1)
  {
    WrapAdd(x + 1, rest, 0);
  }

  lemma SkipBalances(before: Counters, after: Counters, counted: nat)
    requires after.pagesConsidered == Add64(before.pagesConsidered, 1)
             && after.pagesSampled == Add64(before.pagesSampled, 1)
    requires after.pagesTranslated == before.pagesTranslated && after.mappingError == before.mappingError
    requires Wrap(Skipped(after)) == Wrap(Skipped(before) + 1)
    ensures BalancedAs(before, counted) ==> BalancedAs(after, counted)
  {
    if BalancedAs(before, counted) {
      OneMoreWrapped(Skipped(before), before.pagesTranslated, Skipped(after), before.pagesSampled);
    }
  }

  lemma MappingErrorBalances(before: Counters, after: Counters, counted: nat)
    requires after.pagesConsidered == Add64(before.pagesConsidered, 1)
             && after.pagesSampled == Add64(before.pagesSampled, 1)
    requires after.pagesTranslated == Add64(before.pagesTranslated, 1)
             && after.mappingError == Add64(before.mappingError, 1)
    requires Skipped(after) == Skipped(before)
    ensures BalancedAs(before, counted) ==> BalancedAs(after, counted)
  {
    if BalancedAs(before, counted) {
      OneMore(before.pagesTranslated, Skipped(before), after.pagesTranslated, before.pagesSampled);
      OneMore(before.mappingError, counted, after.mappingError, before.pagesTranslated);
    }
  }

  lemma ClassBalances(before: Counters, after: Counters, counted: nat, counted': nat)
    requires after.pagesConsidered == Add64(before.pagesConsidered, 1)
             && after.pagesSampled == Add64(before.pagesSampled, 1)
    requires after.pagesTranslated == Add64(before.pagesTranslated, 1) && after.mappingError == before.mappingError
    requires Skipped(after) == Skipped(before) && Wrap(counted') == Wrap(counted + 1)
    ensures BalancedAs(before, counted) ==> BalancedAs(after, counted')
  {
    if BalancedAs(before, counted) {
      OneMore(before.pagesTranslated, Skipped(before), after.pagesTranslated, before.pagesSampled);
      OneMoreWrapped(counted, before.mappingError, counted', before.pagesTranslated);
    }
  }

  /** A page that finds an entry keeps the balance. */
  lemma PageBalances(c: Counters, h: Histogram, page: Translation, pageSize: nat)
    ensures BalancedAs(c, Total(h)) ==> BalancedAs(Booked(c, page), Total(Recorded(h, page, pageSize)))
  {
    var d := Booked(c, page);
    match page {
      case Class(bankClass) =>
        PageCounted(h, bankClass, pageSize);
        ClassBalances(c, d, Total(h), Total(Recorded(h, page, pageSize)));
      case Unmapped => MappingErrorBalances(c, d, Total(h));
      case _ =>
        BookedSkip(c, page);
        SkipBalances(c, d, Total(h));
    }
  }

  lemma BookedSkip(c: Counters, page: Translation)
    requires !Translated(page)
    ensures Wrap(Skipped(Booked(c, page))) == Wrap(Skipped(c) + 1)
  {
    var d := Booked(c, page);
    match page {
      case NotPresent => OneMoreSkip(c, d, c.notPresent, c.swapped + c.pfnUnavailable + c.translationError);
      case Swapped => OneMoreSkip(c, d, c.swapped, c.notPresent + c.pfnUnavailable + c.translationError);
      case PfnUnavailable => OneMoreSkip(c, d, c.pfnUnavailable, c.notPresent + c.swapped + c.translationError);
      case OtherError => OneMoreSkip(c, d, c.translationError, c.notPresent + c.swapped + c.pfnUnavailable);
    }
  }

  /** If one of two counters goes up by one, so does the one that sums them. */
  lemma OneMore(x: nat, y: nat, x': nat, sum: nat)
    requires x' == Add64(x, 1) && sum == Wrap(x + y)
    ensures Add64(sum, 1) == Wrap(x' + y)
  {
    WrapAdd(x + y, 1, 0);
    WrapAdd(x + 1, y, 0);
  }

  lemma OneMoreWrapped(x: nat, y: nat, x': nat, sum: nat)
    requires Wrap(x') == Wrap(x + 1) && sum == Wrap(x + y)
    ensures Add64(sum, 1) == Wrap(x' + y)
  {
    OneMore(x, y, Add64(x, 1), sum);
    WrapAdd(x', y, 0);
  }

  // ----- Which pages are sampled

  /** Sampling went to the end of the region or to the end of the budget, and no further. */
  ghost predicate SampledRight(regionPages: nat, stride: nat, budget: nat, total: nat, sampled: nat) {
    && (sampled == 0 || (sampled - 1) * stride < regionPages)
    && (sampled * stride < regionPages ==> budget > 0 && total >= budget)
    && (budget > 0 ==> sampled == 0 || total <= budget)
  }

  /** Of the pages looked at, the last is not counted when it fails. */
  function Counted(rc: Rc, sampled: nat): nat {
    if rc == Ok || sampled == 0 then sampled else sampled - 1
  }

  /** The class of the page is new, and all entries are used. */
  ghost predicate NoEntryFor(page: Translation, h: Histogram, cap: nat) {
    page.Class? && page.bankClass !in h && |h| >= cap
  }

  function StrideOf(given: nat): (stride: nat)
    ensures stride > 0
  {
    if given == 0 then 1 else given
  }

  lemma SampledEnough(regionPages: nat, stride: nat, budget: nat, total: nat, sampled: nat, page: nat)
    requires page == sampled * stride && (sampled > 0 ==> page >= stride && page - stride < regionPages)
    requires page < regionPages ==> budget > 0 && total >= budget
    requires budget > 0 ==> sampled == 0 || total <= budget
    ensures SampledRight(regionPages, stride, budget, total, sampled)
  {
    if sampled > 0 {
      MulNext(sampled - 1, stride);
    }
  }

  lemma SampledMore(total: nat, budget: nat)
    requires budget < LIMIT && (budget > 0 ==> total < budget)
    ensures budget > 0 ==> Add64(total, 1) <= budget
  {
    if budget > 0 {
      WrapSmall(total + 1);
    }
  }

  /** How many of the first `n` sampled pages fall into a class. */
  ghost function Hits(look: nat -> Translation, stride: nat, n: nat, c: nat): nat {
    if n == 0 then 0 else Hits(look, stride, n - 1, c) + if look((n - 1) * stride) == Class(c) then 1 else 0
  }

  // ----- What the counters count

  predicate Translated(t: Translation) {
    t.Class? || t.Unmapped?
  }

  predicate Missing(t: Translation) {
    t.NotPresent?
  }

  predicate SwappedOut(t: Translation) {
    t.Swapped?
  }

  predicate Hidden(t: Translation) {
    t.PfnUnavailable?
  }

  predicate Failed(t: Translation) {
    t.OtherError?
  }

  predicate NotMapped(t: Translation) {
    t.Unmapped?
  }

  /** How many of the first `n` sampled pages have the outcome. */
  ghost function Tally(look: nat -> Translation, stride: nat, n: nat, outcome: Translation -> bool): nat {
    if n == 0 then 0 else Tally(look, stride, n - 1, outcome) + if outcome(look((n - 1) * stride)) then 1 else 0
  }

  /** A counter went up by so much, in 64 bits. */
  ghost predicate Gained(before: nat, after: nat, more: nat) {
    Wrap(after) == Wrap(before + more)
  }

  /** Every counter has gained the sampled pages that it counts. */
  ghost predicate CountersGained(before: Counters, after: Counters, look: nat -> Translation, stride: nat, n: nat) {
    && after.regionsSeen == before.regionsSeen && after.regionsSelected == before.regionsSelected
    && Gained(before.pagesConsidered, after.pagesConsidered, n)
    && Gained(before.pagesSampled, after.pagesSampled, n)
    && Gained(before.pagesTranslated, after.pagesTranslated, Tally(look, stride, n, Translated))
    && Gained(before.notPresent, after.notPresent, Tally(look, stride, n, Missing))
    && Gained(before.swapped, after.swapped, Tally(look, stride, n, SwappedOut))
    && Gained(before.pfnUnavailable, after.pfnUnavailable, Tally(look, stride, n, Hidden))
    && Gained(before.translationError, after.translationError, Tally(look, stride, n, Failed))
    && Gained(before.mappingError, after.mappingError, Tally(look, stride, n, NotMapped))
  }

  /** One page is booked: as sampled, and under its outcome. */
  function Booked(c: Counters, page: Translation): Counters {
    c.(pagesConsidered := Add64(c.pagesConsidered, 1), pagesSampled := Add64(c.pagesSampled, 1),
       pagesTranslated := More(c.pagesTranslated, Translated(page)),
       notPresent := More(c.notPresent, Missing(page)), swapped := More(c.swapped, SwappedOut(page)),
       pfnUnavailable := More(c.pfnUnavailable, Hidden(page)),
       translationError := More(c.translationError, Failed(page)),
       mappingError := More(c.mappingError, NotMapped(page)))
  }

  ghost function Recorded(h: Histogram, page: Translation, pageSize: nat): Histogram {
    if page.Class? then Add(h, page.bankClass, Count(1, pageSize)) else h
  }

  /** The counters after `n` pages. */
  ghost function CountersAfter(c: Counters, look: nat -> Translation, stride: nat, n: nat): Counters {
    if n == 0 then c else Booked(CountersAfter(c, look, stride, n - 1), look((n - 1) * stride))
  }

  /** The entries after `n` pages. */
  ghost function ContentsAfter(h: Histogram, look: nat -> Translation, stride: nat, n: nat, pageSize: nat): Histogram {
    if n == 0 then h else Recorded(ContentsAfter(h, look, stride, n - 1, pageSize), look((n - 1) * stride), pageSize)
  }

  lemma AfterNext(c: Counters, h: Histogram, look: nat -> Translation, stride: nat, n: nat, pageSize: nat, page: nat)
    requires page == n * stride
    ensures CountersAfter(c, look, stride, n + 1) == Booked(CountersAfter(c, look, stride, n), look(page))
    ensures ContentsAfter(h, look, stride, n + 1, pageSize)
         == Recorded(ContentsAfter(h, look, stride, n, pageSize), look(page), pageSize)
    ensures page + stride == (n + 1) * stride
  {
    MulNext(n, stride);
  }

  /** After `n` pages of a region, of which `m` were counted. */
  lemma RegionSampled(c: Counters, seen: nat, h: Histogram, look: nat -> Translation, stride: nat, n: nat, m: nat,
      pageSize: nat)
    requires Small(h) && CountersAfter(c.(pagesSeen := seen), look, stride, n).pagesSeen == seen
    ensures var d, h' := CountersAfter(c.(pagesSeen := seen), look, stride, n),
                ContentsAfter(h, look, stride, m, pageSize);
            && CountersGained(c, d, look, stride, n)
            && PagesAdded(h, h', look, stride, m, pageSize)
            && (n == m && BalancedAs(c, Total(h)) ==> BalancedAs(d, Total(h')))
  {
    CountersAre(c.(pagesSeen := seen), look, stride, n);
    ContentsAre(h, look, stride, m, pageSize);
    StaysBalanced(c.(pagesSeen := seen), h, look, stride, m, pageSize);
  }

  /** The first `n` pages are what the counters have gained. */
  lemma {:induction false} CountersAre(c: Counters, look: nat -> Translation, stride: nat, n: nat)
    ensures CountersGained(c, CountersAfter(c, look, stride, n), look, stride, n)
  {
    if n > 0 {
      CountersAre(c, look, stride, n - 1);
      CountersNext(c, CountersAfter(c, look, stride, n - 1), look, stride, n - 1);
    }
  }

  /** And what the classes have gained. */
  lemma {:induction false} ContentsAre(h: Histogram, look: nat -> Translation, stride: nat, n: nat, pageSize: nat)
    requires Small(h)
    ensures PagesAdded(h, ContentsAfter(h, look, stride, n, pageSize), look, stride, n, pageSize)
  {
    if n == 0 {
      NothingAdded(h, look, stride, pageSize);
    } else {
      ContentsAre(h, look, stride, n - 1, pageSize);
      PagesAddedNext(h, ContentsAfter(h, look, stride, n - 1, pageSize), look, stride, n - 1, pageSize);
    }
  }

  lemma {:induction false} StaysBalanced(c: Counters, h: Histogram, look: nat -> Translation, stride: nat, n: nat,
      pageSize: nat)
    ensures BalancedAs(c, Total(h)) ==>
              BalancedAs(CountersAfter(c, look, stride, n), Total(ContentsAfter(h, look, stride, n, pageSize)))
  {
    if n > 0 {
      StaysBalanced(c, h, look, stride, n - 1, pageSize);
      PageBalances(CountersAfter(c, look, stride, n - 1), ContentsAfter(h, look, stride, n - 1, pageSize),
        look((n - 1) * stride), pageSize);
    }
  }

  function More(counter: nat, counts: bool): nat {
    if counts then Add64(counter, 1) else counter
  }

  lemma GainedNext(before: nat, mid: nat, more: nat, counts: bool)
    requires Gained(before, mid, more)
    ensures Gained(before, More(mid, counts), more + if counts then 1 else 0)
  {
    if counts {
      WrapAdd(mid, 1, 0);
      WrapAdd(mid + 1, 0, 0);
      WrapAdd(before + more, 1, 0);
    }
  }

  lemma CountersNext(before: Counters, mid: Counters, look: nat -> Translation, stride: nat, n: nat)
    requires CountersGained(before, mid, look, stride, n)
    ensures CountersGained(before, Booked(mid, look(n * stride)), look, stride, n + 1)
  {
    var t := look(n * stride);
    GainedNext(before.pagesConsidered, mid.pagesConsidered, n, true);
    GainedNext(before.pagesSampled, mid.pagesSampled, n, true);
    GainedNext(before.pagesTranslated, mid.pagesTranslated, Tally(look, stride, n, Translated), Translated(t));
    GainedNext(before.notPresent, mid.notPresent, Tally(look, stride, n, Missing), Missing(t));
    GainedNext(before.swapped, mid.swapped, Tally(look, stride, n, SwappedOut), SwappedOut(t));
    GainedNext(before.pfnUnavailable, mid.pfnUnavailable, Tally(look, stride, n, Hidden), Hidden(t));
    GainedNext(before.translationError, mid.translationError, Tally(look, stride, n, Failed), Failed(t));
    GainedNext(before.mappingError, mid.mappingError, Tally(look, stride, n, NotMapped), NotMapped(t));
  }

  /** Every class has gained the pages that fall into it, and their bytes. */
  ghost predicate PagesAdded(before: Histogram, after: Histogram, look: nat -> Translation, stride: nat, sampled: nat,
      pageSize: nat) {
    forall c: nat :: ClassAdded(before, after, look, stride, sampled, pageSize, c)
  }

  ghost predicate ClassAdded(before: Histogram, after: Histogram, look: nat -> Translation, stride: nat, sampled: nat,
      pageSize: nat, c: nat) {
    var hits := Hits(look, stride, sampled, c);
    && CountOf(after, c).pages == Wrap(CountOf(before, c).pages + hits)
    && CountOf(after, c).bytes == Wrap(CountOf(before, c).bytes + hits * pageSize)
  }

  lemma NothingAdded(h: Histogram, look: nat -> Translation, stride: nat, pageSize: nat)
    requires Small(h)
    ensures PagesAdded(h, h, look, stride, 0, pageSize)
  {
    forall c: nat
      ensures CountOf(h, c).pages == Wrap(CountOf(h, c).pages) && CountOf(h, c).bytes == Wrap(CountOf(h, c).bytes)
    {
      WrapSmall(CountOf(h, c).pages);
      WrapSmall(CountOf(h, c).bytes);
    }
  }

  lemma PagesAddedNext(before: Histogram, mid: Histogram, look: nat -> Translation, stride: nat, n: nat, pageSize: nat)
    requires PagesAdded(before, mid, look, stride, n, pageSize)
    ensures PagesAdded(before, Recorded(mid, look(n * stride), pageSize), look, stride, n + 1, pageSize)
  {
    var after, n' := Recorded(mid, look(n * stride), pageSize), n + 1;
    forall c: nat
      ensures ClassAdded(before, after, look, stride, n', pageSize, c)
    {
      ClassAddedNext(before, mid, look, stride, n, pageSize, c);
    }
  }

  lemma ClassAddedNext(before: Histogram, mid: Histogram, look: nat -> Translation, stride: nat, n: nat, pageSize: nat,
      c: nat)
    requires ClassAdded(before, mid, look, stride, n, pageSize, c)
    ensures ClassAdded(before, Recorded(mid, look(n * stride), pageSize), look, stride, n + 1, pageSize, c)
  {
    if look(n * stride) == Class(c) {
      var hits := Hits(look, stride, n, c);
      PagesNext(CountOf(before, c).pages, CountOf(mid, c).pages, hits);
      BytesNext(CountOf(before, c).bytes, CountOf(mid, c).bytes, hits, pageSize);
    }
  }

  lemma PagesNext(before: nat, mid: nat, hits: nat)
    requires mid == Wrap(before + hits)
    ensures Add64(mid, 1) == Wrap(before + (hits + 1))
  {
    WrapAdd(before + hits, 1, 0);
  }

  lemma BytesNext(before: nat, mid: nat, hits: nat, pageSize: nat)
    requires mid == Wrap(before + hits * pageSize)
    ensures Add64(mid, pageSize) == Wrap(before + (hits + 1) * pageSize)
  {
    MulNext(hits, pageSize);
    WrapAdd(before + hits * pageSize, pageSize, 0);
  }

  lemma PageCounted(h: Histogram, c: nat, pageSize: nat)
    ensures var h' := Add(h, c, Count(1, pageSize));
            && Wrap(Total(h')) == Wrap(Total(h) + 1)
            && forall k :: CountOf(h', k)
                   == if k == c then Plus(CountOf(h, k), Count(1, pageSize)) else CountOf(h, k)
  {
    var x, t := CountOf(h, c).pages, Total(h);
    var sum := Plus(CountOf(h, c), Count(1, pageSize));
    TotalReplace(h, c, sum);
    PagesBelowTotal(h, c);
    WrapAdd(x + 1, t - x, 0);
  }

  /** The class is that of the first entry with so many pages. */
  ghost predicate FirstWith(entries: seq<Entry>, bankClass: nat, pages: nat) {
    pages > 0 ==> exists i: nat :: FirstIs(entries, bankClass, pages, i)
  }

  ghost predicate FirstIs(entries: seq<Entry>, bankClass: nat, pages: nat, i: nat) {
    && i < |entries| && entries[i].bankClass == bankClass && entries[i].pages == pages
    && forall j :: 0 <= j < i ==> entries[j].pages < pages
  }

  lemma FirstNext(entries: seq<Entry>, i: nat, bankClass: nat, most: nat)
    requires i < |entries| && FirstWith(entries[..i], bankClass, most) && forall j :: 0 <= j < i ==>
             entries[j].pages <= most
    ensures if entries[i].pages > most then FirstWith(entries[..i + 1], entries[i].bankClass, entries[i].pages)
            else FirstWith(entries[..i + 1], bankClass, most)
  {
    var entries' := entries[..i + 1];
    if entries[i].pages > most {
      assert FirstIs(entries', entries[i].bankClass, entries[i].pages, i);
    } else if most > 0 {
      var k: nat :| FirstIs(entries[..i], bankClass, most, k);
      assert FirstIs(entries', bankClass, most, k);
    }
  }

  lemma DominantNext(entries: seq<Entry>, i: nat, bankClass: nat, most: nat)
    requires Unique(entries) && i < |entries| && Dominant(HistogramOf(entries[..i]), bankClass, most)
    ensures var e := entries[i];
            if e.pages > most then Dominant(HistogramOf(entries[..i + 1]), e.bankClass, e.pages)
            else Dominant(HistogramOf(entries[..i + 1]), bankClass, most)
  {
    KeysNext(entries, i);
  }

  /** The pass over the entries of the first profile. */
  method OverlapFirst(a: Profile, b: Profile, ghost g: Histogram, ghost h: Histogram, ghost lesser: nat -> nat,
      ghost greater: nat -> nat)
    returns (intersection: nat, union: nat)
    requires a.Valid() && b.Valid() && g == a.Contents() && h == b.Contents()
    requires forall c: nat :: c in g ==> OverlapsAs(g, h, c, lesser, greater)
    ensures intersection == Wrap(SetSum(g.Keys, lesser)) && union == Wrap(SetSum(g.Keys, greater))
  {
    ghost var s := a.entries[..a.count];
    intersection, union := 0, 0;
    PrefixSumEnds(s, lesser);
    PrefixSumEnds(s, greater);
    for i := 0 to a.count
      invariant intersection == Wrap(PrefixSum(s, i, lesser)) && union == Wrap(PrefixSum(s, i, greater))
    {
      var e := a.entries[i];
      assert e == s[i];
      var x := e.pages;
      var y := b.CountForClass(e.bankClass);
      OverlapNext(s, i, g, h, lesser, greater, x, y);
      AddWrapped(intersection, PrefixSum(s, i, lesser), if x < y then x else y, PrefixSum(s, i + 1, lesser));
      AddWrapped(union, PrefixSum(s, i, greater), if x > y then x else y, PrefixSum(s, i + 1, greater));
      intersection := Add64(intersection, if x < y then x else y);
      union := Add64(union, if x > y then x else y);
    }
  }

  lemma OverlapNext(
    entries: seq<Entry>, i: nat, g: Histogram, h: Histogram, lesser: nat -> nat, greater: nat -> nat, x: nat, y: nat)
    requires Unique(entries) && i < |entries| && x == entries[i].pages && y == CountOf(h, entries[i].bankClass).pages
    requires g == HistogramOf(entries) && forall c: nat :: c in g ==> OverlapsAs(g, h, c, lesser, greater)
    ensures PrefixSum(entries, i + 1, lesser) == PrefixSum(entries, i, lesser) + if x < y then x else y
    ensures PrefixSum(entries, i + 1, greater) == PrefixSum(entries, i, greater) + if x > y then x else y
  {
    var c := entries[i].bankClass;
    EntryAt(entries, i);
    PrefixSumNext(entries, i, lesser);
    PrefixSumNext(entries, i, greater);
    assert OverlapsAs(g, h, c, lesser, greater);
  }

  ghost predicate OverlapsAs(a: Histogram, b: Histogram, c: nat, lesser: nat -> nat, greater: nat -> nat) {
    var x, y := CountOf(a, c).pages, CountOf(b, c).pages;
    lesser(c) == (if x < y then x else y) && greater(c) == (if x > y then x else y)
  }

  /** The pass over the entries of the second profile for the classes that the first does not have. */
  method OverlapSecond(a: Profile, b: Profile, first: nat, ghost greater: nat -> nat) returns (union: nat)
    requires a.Valid() && b.Valid()
    requires forall c :: c in b.Contents() && c !in a.Contents() ==> greater(c) == b.Contents()[c].pages
    requires first == Wrap(SetSum(a.Contents().Keys, greater))
    ensures union == Wrap(SetSum(a.Contents().Keys + b.Contents().Keys, greater))
  {
    ghost var t, keys := b.entries[..b.count], a.Contents().Keys;
    union := first;
    UnionSumEnds(keys, t, greater);
    for j := 0 to b.count
      invariant union == Wrap(UnionSum(keys, t, j, greater))
    {
      var e := b.entries[j];
      assert e == t[j];
      UnionSumNext(keys, t, j, greater);
      EntryAt(t, j);
      var i := a.Find(e.bankClass);
      if i == a.count {
        AddWrapped(union, UnionSum(keys, t, j, greater), e.pages, UnionSum(keys, t, j + 1, greater));
        union := Add64(union, e.pages);
      }
    }
  }

  /** The overlap of two profiles; sums are kept in 64 bits. */
  method OverlapScore(a: Profile, b: Profile) returns (rc: Rc, score: real, common: nat)
    requires a.Valid() && b.Valid()
    ensures var g, h := a.Contents(), b.Contents();
            ScoreResult(a.count > 0 && b.count > 0, Intersection(g, h), Union(g, h), rc, score, common)
  {
    if a.count == 0 || b.count == 0 {
      return InvalidArg, 0.0, 0;
    }
    ghost var lesser, greater := Lesser(a.Contents(), b.Contents()), Greater(a.Contents(), b.Contents());
    LesserOutside(a.Contents(), b.Contents());
    forall c: nat
      ensures OverlapsAs(a.Contents(), b.Contents(), c, lesser, greater)
    {
      OverlapAt(a.Contents(), b.Contents(), c);
    }
    var intersection, first := OverlapFirst(a, b, a.Contents(), b.Contents(), lesser, greater);
    var union := OverlapSecond(a, b, first, greater);
    if union == 0 {
      return NoSamples, 0.0, 0;
    }
    return Ok, intersection as real / union as real, intersection;
  }

  /** The result of comparing two profiles whose true intersection and union are given. */
  ghost predicate ScoreResult(counted: bool, intersection: nat, union: nat, rc: Rc, score: real, common: nat) {
    && rc == (if !counted then InvalidArg else if Wrap(union) == 0 then NoSamples else Ok)
    && (rc == Ok ==> common == Wrap(intersection) && score == common as real / Wrap(union) as real)
  }

  /** As long as the pages of the two profiles together fit in 64 bits, the result is the true score. */
  lemma ScoreExact(a: Histogram, b: Histogram, rc: Rc, score: real, common: nat)
    requires ScoreResult(true, Intersection(a, b), Union(a, b), rc, score, common) && Total(a) + Total(b) < LIMIT
    ensures rc == Ok <==> Union(a, b) > 0
    ensures rc == Ok ==> common == Intersection(a, b) && score == Score(a, b)
  {
    OverlapConserves(a, b);
    WrapSmall(Union(a, b));
    WrapSmall(Intersection(a, b));
  }

  /** No class has more pages, and the named class has that many, unless no class has any. */
  ghost predicate Dominant(h: Histogram, bankClass: nat, pages: nat) {
    && (forall c :: c in h ==> h[c].pages <= pages)
    && CountOf(h, bankClass).pages == pages
    && (pages == 0 ==> bankClass == 0)
  }
}
