/** The bank worker from its arguments to its ring. */
module WorkerRun {
  import opened Options
  import opened Arithmetic
  import opened FiniteSets
  import opened Gf2Vectors
  import opened Gf2Space
  import opened Words
  import opened PageClasses
  import opened Sorting
  import opened Shuffle
  import opened Chains
  import opened BankWorker

  datatype Result =
    | InvalidArgument
    | TargetOutside
    | NoMaskBit
    | BadGranularity
    | Misaligned
    | Untranslated
    | TooFewBlocks
    | NotReleased
    | Ready(lines: seq<nat>, released: seq<Range>)

  type Frames = nat -> Option<nat>

  function FramesOf(translate: Frames, pages: nat): seq<Option<nat>> {
    seq(pages, p requires 0 <= p < pages => translate(p))
  }

  /** What the worker checks before it maps memory. `low` is the lowest mask bit. */
  function Refusal(masks: seq<Vec>, target: nat, pageSize: nat, candidate: nat, selected: nat,
      low: Option<nat>): Option<Result>
    requires pageSize > 0
  {
    if candidate == 0 || selected == 0 then Some(InvalidArgument)
    else if |masks| >= WIDTH || target >= Pow2(|masks|) then Some(TargetOutside)
    else if low.None? then Some(NoMaskBit)
    else
      var grain := Pow2(low.value);
      if grain < CACHELINE_BYTES || grain % CACHELINE_BYTES != 0 || grain > pageSize
          || pageSize % grain != 0 then Some(BadGranularity)
      else if selected % grain != 0 || selected % CACHELINE_BYTES != 0
          || candidate % pageSize != 0 then Some(Misaligned)
      else None
  }

  /** Arguments are refused, for the first reason that applies, when nothing is to be mapped or selected, the target has
      no class, all masks are zero, the lowest mask bit is below bit 6 or blocks of that size do not divide the page,
      or the sizes are not multiples of the block and the page. */
  lemma RefusalIs(masks: seq<Vec>, target: nat, pageSize: nat, candidate: nat, selected: nat, low: Option<nat>)
    requires pageSize > 0
    ensures Refusal(masks, target, pageSize, candidate, selected, low)
         == if candidate == 0 || selected == 0 then Some(InvalidArgument)
            else if |masks| > 63 || target >= Pow2(|masks|) then Some(TargetOutside)
            else if low == None then Some(NoMaskBit)
            else if low.value < 6 || pageSize % Pow2(low.value) != 0 then Some(BadGranularity)
            else if selected % Pow2(low.value) != 0 || candidate % pageSize != 0 then Some(Misaligned)
            else None
  {
    if low.Some? {
      GrainOfLines(low.value);
      if low.value >= 6 && selected % Pow2(low.value) == 0 {
        MultipleOfMultiple(selected, Pow2(low.value), CACHELINE_BYTES);
      }
      if pageSize % Pow2(low.value) == 0 {
        DivisorBelow(pageSize, Pow2(low.value));
      }
    }
  }

  /** Exactly the powers from 2^6 on are whole cache lines. */
  lemma GrainOfLines(low: nat)
    ensures low >= 6 ==> Pow2(low) >= CACHELINE_BYTES && Pow2(low) % CACHELINE_BYTES == 0
    ensures low < 6 ==> Pow2(low) < CACHELINE_BYTES
  {
    assert Pow2(6) == 64 && Pow2(5) == 32 by {
      assert Pow2(3) == 8;
    }
    if low >= 6 {
      Pow2Add(low - 6, 6);
      Pow2Monotone(0, low - 6);
      ModUnique(Pow2(low), 64, Pow2(low - 6), 0);
    } else {
      Pow2Monotone(low, 5);
    }
  }

  lemma MultipleOfMultiple(x: nat, m: nat, d: nat)
    requires m > 0 && d > 0 && x % m == 0 && m % d == 0
    ensures x % d == 0
  {
    var a := Quotient(x, m);
    var b := Quotient(m, d);
    assert x == (d * b) * a == (a * b) * d;
    ModUnique(x, d, a * b, 0);
  }

  lemma DivisorBelow(x: nat, d: nat)
    requires x > 0 && d > 0 && x % d == 0
    ensures d <= x
  {
  }

  // ----- The blocks of the target class

  /** What the worker looks for in the pages of its buffer, and which of them have a frame. */
  datatype Search = Search(pageSize: nat, matches: Block -> bool, translate: Frames)

  /** The block is aligned, its page has a frame, and its physical address, in 64 bits, has the target class. */
  predicate IsTarget(masks: seq<Vec>, target: nat, pageSize: nat, grain: nat, translate: Frames, b: Block) {
    && b.start < pageSize && IsMultiple(b.start, grain) && translate(b.page).Some?
    && ClassAt(masks, translate(b.page).value, pageSize, b.start) == target
  }

  function SearchFor(masks: seq<Vec>, target: nat, pageSize: nat, grain: nat, translate: Frames): Search {
    Search(pageSize, (b: Block) => IsTarget(masks, target, pageSize, grain, translate, b), translate)
  }

  predicate IsMultiple(x: nat, n: nat) {
    n > 0 && x % n == 0
  }

  lemma MultipleIs(x: nat, n: nat)
    requires n > 0
    ensures IsMultiple(x, n) <==> Residue(x, n) == 0
  {
    var q := ResidueIsMod(x, n);
  }

  /** The bank class of the physical address at an offset of a page frame, in 64 bits. */
  function ClassAt(masks: seq<Vec>, pfn: nat, pageSize: nat, offset: nat): nat {
    BankClassOf(masks, Physical(pfn * pageSize, offset))
  }

  lemma ClassAtIs(masks: seq<Vec>, pfn: nat, pageSize: nat, offset: nat)
    ensures ClassAt(masks, pfn, pageSize, offset) == RecomputedClass(masks, PageBase(pfn, pageSize), offset)
  {
    AddressIs(pfn, pageSize, offset);
  }

  lemma AddressIs(pfn: nat, pageSize: nat, offset: nat)
    ensures Physical(pfn * pageSize, offset) == Wrap(PageBase(pfn, pageSize) + offset)
  {
    PhysicalIs(pfn * pageSize, offset);
  }

  function Physical(frame: nat, offset: nat): nat {
    (frame + offset) % LIMIT
  }

  lemma PhysicalIs(frame: nat, offset: nat)
    ensures Physical(frame, offset) == Wrap(Wrap(frame) + offset)
  {
    WrapAdd(frame, offset, 0);
  }

  /** The matching blocks of the first `pages` pages. */
  ghost function Matching(search: Search, pages: nat): set<Block> {
    if pages == 0 then {} else Matching(search, pages - 1) + MatchingIn(search, pages - 1)
  }

  ghost function MatchingIn(search: Search, page: nat): set<Block> {
    set s: nat | s < search.pageSize && search.matches(Block(page, s)) :: Block(page, s)
  }

  lemma {:induction false} MatchingHas(search: Search, pages: nat, b: Block)
    ensures b in Matching(search, pages) <==> b.page < pages && b.start < search.pageSize && search.matches(b)
  {
    if pages > 0 {
      MatchingHas(search, pages - 1, b);
      assert b == Block(b.page, b.start);
    }
  }

  ghost predicate HasMatch(search: Search, page: int) {
    exists b: Block :: b.page == page && search.matches(b)
  }

  /** The first `n` pages have enough matching blocks, and no fewer pages do. */
  ghost predicate Scanned(search: Search, required: nat, n: nat) {
    |Matching(search, n)| >= required && (n > 0 ==> |Matching(search, n - 1)| < required)
  }

  /** A longest run of scanned pages without a matching block. */
  ghost predicate UnusedRun(search: Search, n: nat, r: Range) {
    && r.pages > 0 && r.start + r.pages <= n
    && (forall p :: r.start <= p < r.start + r.pages ==> !HasMatch(search, p))
    && (r.start > 0 ==> HasMatch(search, r.start - 1))
    && (r.start + r.pages < n ==> HasMatch(search, r.start + r.pages))
  }

  /** Page `u` is the first of the buffer's that has no frame, if any. */
  ghost predicate Readable(translate: Frames, pages: nat, u: nat) {
    u <= pages && (forall p :: 0 <= p < u ==> translate(p).Some?) && (u < pages ==> translate(u).None?)
  }

  lemma ReadableOnce(translate: Frames, pages: nat, u: nat, u': nat)
    requires Readable(translate, pages, u) && Readable(translate, pages, u')
    ensures u == u'
  {
  }

  /** The selection recognises exactly the matching blocks. */
  ghost predicate Agrees(search: Search, wants: Wants, grain: nat, pages: nat) {
    && grain > 0 && Residue(search.pageSize, grain) == 0
    && forall b: Block :: b.page < pages ==> (search.matches(b) <==> Startable(wants, grain, search.pageSize, b))
  }

  lemma TargetsAgree(masks: seq<Vec>, target: nat, pageSize: nat, grain: nat, translate: Frames, pages: nat)
    requires grain > 0 && Residue(pageSize, grain) == 0
    ensures Agrees(SearchFor(masks, target, pageSize, grain, translate),
              WantsClass(masks, target, pageSize, FramesOf(translate, pages)), grain, pages)
  {
    forall b: Block | b.page < pages
      ensures IsTarget(masks, target, pageSize, grain, translate, b) <==>
              Startable(WantsClass(masks, target, pageSize, FramesOf(translate, pages)), grain, pageSize, b)
    {
      TargetIsWanted(masks, target, pageSize, grain, translate, pages, b);
    }
  }

  lemma TargetIsWanted(masks: seq<Vec>, target: nat, pageSize: nat, grain: nat, translate: Frames, pages: nat,
      b: Block)
    requires grain > 0 && b.page < pages
    ensures IsTarget(masks, target, pageSize, grain, translate, b) <==>
            Startable(WantsClass(masks, target, pageSize, FramesOf(translate, pages)), grain, pageSize, b)
  {
    MultipleIs(b.start, grain);
    if translate(b.page).Some? {
      ClassAtIs(masks, translate(b.page).value, pageSize, b.start);
    }
  }

  lemma MatchingIsSelected(search: Search, wants: Wants, grain: nat, pages: nat, n: nat)
    requires Agrees(search, wants, grain, pages) && n <= pages
    ensures forall b :: b in Matching(search, n) <==> b in AllBlocks(wants, grain, search.pageSize, n)
    ensures |Matching(search, n)| == |AllBlocks(wants, grain, search.pageSize, n)|
  {
    var all := AllBlocks(wants, grain, search.pageSize, n);
    forall b: Block
      ensures b in Matching(search, n) <==> b in all
    {
      AllBlocksHave(wants, grain, search.pageSize, n, b);
      MatchingHas(search, n, b);
    }
    AllInOrder(wants, grain, search.pageSize, n);
    InOrderDistinct(all);
    DistinctSize(all);
    assert Matching(search, n) == set b | b in all;
  }

  lemma {:induction false} MatchingGrows(search: Search, n: nat, m: nat)
    requires n <= m
    ensures |Matching(search, n)| <= |Matching(search, m)|
  {
    if n < m {
      MatchingGrows(search, n, m - 1);
      SubsetCount(Matching(search, m - 1), Matching(search, m));
    }
  }

  lemma ScannedOnce(search: Search, required: nat, n: nat, m: nat)
    requires Scanned(search, required, n) && Scanned(search, required, m)
    ensures n == m
  {
    if n < m {
      MatchingGrows(search, n, m - 1);
    } else if m < n {
      MatchingGrows(search, m, n - 1);
    }
  }

  // ----- The pages kept

  /** The blocks taken, when enough are found in the first `n` pages and not before. */
  ghost predicate Taken(search: Search, wants: Wants, grain: nat, pages: nat, required: nat, n: nat,
      picked: seq<Block>) {
    && Agrees(search, wants, grain, pages) && n <= pages
    && picked == First(AllBlocks(wants, grain, search.pageSize, pages), required)
    && |AllBlocks(wants, grain, search.pageSize, n)| >= required
    && (n > 0 ==> |AllBlocks(wants, grain, search.pageSize, n - 1)| < required)
  }

  /** They are matching blocks of these pages. */
  lemma TakenMatch(search: Search, wants: Wants, grain: nat, pages: nat, required: nat, n: nat, picked: seq<Block>,
      k: nat)
    requires Taken(search, wants, grain, pages, required, n, picked) && k < |picked|
    ensures picked[k].page < n && search.matches(picked[k])
  {
    AllPrefix(wants, grain, search.pageSize, n, pages);
    assert picked[k] == AllBlocks(wants, grain, search.pageSize, n)[k];
    assert picked[k] in AllBlocks(wants, grain, search.pageSize, n);
    AllBlocksHave(wants, grain, search.pageSize, n, picked[k]);
  }

  /** Every block of the pages before the last is taken. */
  lemma TakenBefore(search: Search, wants: Wants, grain: nat, pages: nat, required: nat, n: nat, picked: seq<Block>,
      b: Block)
    requires Taken(search, wants, grain, pages, required, n, picked) && b.page + 1 < n && search.matches(b)
    ensures UsesPage(picked, b.page)
  {
    var less, all := AllBlocks(wants, grain, search.pageSize, n - 1), AllBlocks(wants, grain, search.pageSize, pages);
    assert b in less by {
      AllBlocksHave(wants, grain, search.pageSize, n - 1, b);
    }
    assert less <= all && |less| < required by {
      AllPrefix(wants, grain, search.pageSize, n - 1, pages);
    }
    UsesPrefix(less, all, required, b);
  }

  lemma UsesPrefix(less: seq<Block>, all: seq<Block>, required: nat, b: Block)
    requires less <= all && |less| <= required && b in less
    ensures UsesPage(First(all, required), b.page)
  {
    var k :| 0 <= k < |less| && less[k] == b;
    assert First(all, required)[k].page == b.page;
  }

  /** A block of the last page is taken. */
  lemma TakenLast(search: Search, wants: Wants, grain: nat, pages: nat, required: nat, n: nat, picked: seq<Block>)
    requires Taken(search, wants, grain, pages, required, n, picked) && n > 0
    ensures UsesPage(picked, n - 1)
  {
    var less, row := AllBlocks(wants, grain, search.pageSize, n - 1),
        RowBlocks(wants, n - 1, grain, search.pageSize);
    assert AllBlocks(wants, grain, search.pageSize, n) == less + row;
    assert row[0] in row;
    RowBlocksHave(wants, n - 1, grain, search.pageSize, row[0]);
    AllPrefix(wants, grain, search.pageSize, n, pages);
    assert picked[|less|] == row[0];
  }

  /** The marks after a selection: the scanned pages with a matching block. */
  lemma KeptPages(search: Search, wants: Wants, grain: nat, pages: nat, required: nat, n: nat, picked: seq<Block>,
      keep: seq<bool>)
    requires Taken(search, wants, grain, pages, required, n, picked) && |keep| == pages && Marked(picked, keep)
    ensures forall p :: 0 <= p < n ==> (keep[p] <==> HasMatch(search, p))
  {
    forall p | 0 <= p < n
      ensures keep[p] <==> HasMatch(search, p)
    {
      if keep[p] {
        var k :| 0 <= k < |picked| && picked[k].page == p;
        TakenMatch(search, wants, grain, pages, required, n, picked, k);
      }
      if HasMatch(search, p) {
        var b: Block :| b.page == p && search.matches(b);
        if p + 1 < n {
          TakenBefore(search, wants, grain, pages, required, n, picked, b);
        } else {
          TakenLast(search, wants, grain, pages, required, n, picked);
        }
      }
    }
  }

  lemma RunsAreUnused(search: Search, n: nat, keep: seq<bool>, r: Range)
    requires n <= |keep| && forall p :: 0 <= p < n ==> (keep[p] <==> HasMatch(search, p))
    ensures MaximalRun(keep, n, r) <==> UnusedRun(search, n, r)
  {
    if r.pages > 0 && r.start + r.pages <= n {
      assert forall p :: r.start <= p < r.start + r.pages ==> (IsKept(keep, p) <==> HasMatch(search, p));
    }
  }

  // ----- The blocks taken are the first ones

  predicate BlockBefore(b: Block, b': Block) {
    b.page < b'.page || (b.page == b'.page && b.start < b'.start)
  }

  /** The matching blocks in front of a block. */
  ghost function Ahead(search: Search, pages: nat, b: Block): set<Block> {
    set b' | b' in Matching(search, pages) && BlockBefore(b', b)
  }

  /** The block matches, and fewer than `required` matching blocks are in front of it. */
  ghost predicate IsFirst(search: Search, pages: nat, required: nat, b: Block) {
    b in Matching(search, pages) && |Ahead(search, pages, b)| < required
  }

  ghost predicate InOrder(blocks: seq<Block>) {
    forall i, j :: 0 <= i < j < |blocks| ==> BlockBefore(blocks[i], blocks[j])
  }

  lemma FrontOf(blocks: seq<Block>, i: nat)
    requires InOrder(blocks) && i < |blocks|
    ensures |set b | b in blocks && BlockBefore(b, blocks[i])| == i
  {
    var front := blocks[..i];
    var ahead := set b | b in blocks && BlockBefore(b, blocks[i]);
    forall b: Block
      ensures b in ahead <==> b in front
    {
      if b in ahead {
        var k :| 0 <= k < |blocks| && blocks[k] == b;
        assert k < i;
        assert front[k] == b;
      }
      if b in front {
        var k :| 0 <= k < i && front[k] == b;
        assert blocks[k] == b;
      }
    }
    InOrderDistinct(blocks);
    DistinctSize(front);
    assert ahead == set b | b in front;
  }

  lemma InOrderDistinct(blocks: seq<Block>)
    requires InOrder(blocks)
    ensures Distinct(blocks)
  {
  }

  lemma AheadIs(search: Search, wants: Wants, grain: nat, pages: nat, all: seq<Block>, i: nat)
    requires Agrees(search, wants, grain, pages) && all == AllBlocks(wants, grain, search.pageSize, pages)
    requires i < |all|
    ensures all[i] in Matching(search, pages) && |Ahead(search, pages, all[i])| == i
  {
    MatchingIsSelected(search, wants, grain, pages, pages);
    AllInOrder(wants, grain, search.pageSize, pages);
    FrontOf(all, i);
    assert Ahead(search, pages, all[i]) == set b | b in all && BlockBefore(b, all[i]);
  }

  lemma AllInOrder(wants: Wants, grain: nat, pageSize: nat, pages: nat)
    requires grain > 0 && Residue(pageSize, grain) == 0
    ensures InOrder(AllBlocks(wants, grain, pageSize, pages))
  {
    AllBlocksApart(wants, grain, pageSize, pages);
  }

  lemma TakenAreFirst(search: Search, wants: Wants, grain: nat, pages: nat, required: nat, picked: seq<Block>,
      b: Block)
    requires Agrees(search, wants, grain, pages)
    requires picked == First(AllBlocks(wants, grain, search.pageSize, pages), required)
    ensures b in picked <==> IsFirst(search, pages, required, b)
  {
    var all := AllBlocks(wants, grain, search.pageSize, pages);
    MatchingIsSelected(search, wants, grain, pages, pages);
    if b in picked {
      var i :| 0 <= i < |picked| && picked[i] == b;
      AheadIs(search, wants, grain, pages, all, i);
    }
    if IsFirst(search, pages, required, b) {
      var i :| 0 <= i < |all| && all[i] == b;
      AheadIs(search, wants, grain, pages, all, i);
      assert picked[i] == b;
    }
  }

  /** The address is that of the line at an offset of a block. */
  predicate LineAt(search: Search, grain: nat, buffer: nat, b: Block, offset: nat, address: nat) {
    && offset < grain && IsMultiple(offset, CACHELINE_BYTES)
    && address == buffer + b.page * search.pageSize + (b.start + offset)
  }

  /** The addresses are those of all lines of the first matching blocks. */
  ghost predicate LinesOfFirst(search: Search, pages: nat, required: nat, grain: nat, buffer: nat,
      addresses: seq<nat>) {
    forall a: nat :: a in addresses <==>
      exists b: Block, x: nat :: IsFirst(search, pages, required, b) && LineAt(search, grain, buffer, b, x, a)
  }

  lemma PlacedAreFirst(search: Search, wants: Wants, grain: nat, pages: nat, required: nat, buffer: nat,
      picked: seq<Block>, place: Placement)
    requires Agrees(search, wants, grain, pages) && Residue(grain, CACHELINE_BYTES) == 0
    requires picked == First(AllBlocks(wants, grain, search.pageSize, pages), required)
    requires forall l :: place(l) == Address(buffer, search.pageSize, l)
    ensures LinesOfFirst(search, pages, required, grain, buffer, PlacedLines(picked, grain, place))
  {
    var placed := PlacedLines(picked, grain, place);
    forall a: nat | a in placed
      ensures exists b: Block, x: nat :: IsFirst(search, pages, required, b) && LineAt(search, grain, buffer, b, x, a)
    {
      var b, x := BlockOfPlaced(search, grain, buffer, picked, place, a);
      TakenAreFirst(search, wants, grain, pages, required, picked, b);
    }
    forall a: nat, b: Block, x: nat
        | IsFirst(search, pages, required, b) && LineAt(search, grain, buffer, b, x, a)
      ensures a in placed
    {
      TakenAreFirst(search, wants, grain, pages, required, picked, b);
      LineIsPlaced(search, grain, buffer, picked, place, b, x, a);
    }
  }

  /** Every placed line is one of a block taken. */
  lemma BlockOfPlaced(search: Search, grain: nat, buffer: nat, picked: seq<Block>, place: Placement, a: nat)
      returns (b: Block, x: nat)
    requires Residue(grain, CACHELINE_BYTES) == 0 && forall l :: place(l) == Address(buffer, search.pageSize, l)
    requires a in PlacedLines(picked, grain, place)
    ensures b in picked && LineAt(search, grain, buffer, b, x, a)
  {
    var lines, placed := LinesOf(picked, grain), PlacedLines(picked, grain, place);
    var i :| 0 <= i < |placed| && placed[i] == a;
    LinesOfHas(picked, grain, lines[i]);
    var k :| 0 <= k < |picked| && lines[i] in BlockLines(picked[k], grain);
    BlockLinesAre(picked[k], grain);
    b, x := picked[k], lines[i].offset - picked[k].start;
    MultipleIs(x, CACHELINE_BYTES);
  }

  /** Every line of a block taken is placed. */
  lemma LineIsPlaced(search: Search, grain: nat, buffer: nat, picked: seq<Block>, place: Placement, b: Block, x: nat,
      a: nat)
    requires Residue(grain, CACHELINE_BYTES) == 0 && forall l :: place(l) == Address(buffer, search.pageSize, l)
    requires b in picked && LineAt(search, grain, buffer, b, x, a)
    ensures a in PlacedLines(picked, grain, place)
  {
    var lines, l := LinesOf(picked, grain), Line(b.page, b.start + x);
    assert l in lines by {
      var k :| 0 <= k < |picked| && picked[k] == b;
      MultipleIs(x, CACHELINE_BYTES);
      BlockLinesAre(b, grain);
      assert l in BlockLines(picked[k], grain);
      LinesOfHas(picked, grain, l);
    }
    var i :| 0 <= i < |lines| && lines[i] == l;
    assert PlacedLines(picked, grain, place)[i] == a;
  }

  // ----- The result and its cause

  /** The system refuses to take back some longest run of unused pages. */
  ghost predicate SomeRefused(search: Search, required: nat, advise: Range -> bool) {
    exists n, r :: Scanned(search, required, n) && UnusedRun(search, n, r) && !advise(r)
  }

  /** Every result has its own cause: enough matching blocks or not in the pages before the first without a frame, such
      a page or none, and a range refused or none. */
  ghost predicate Exact(search: Search, pages: nat, required: nat, advise: Range -> bool, result: Result) {
    forall u: nat :: Readable(search.translate, pages, u) ==>
      ExactAt(search, pages, required, advise, result, u)
  }

  ghost predicate ExactAt(search: Search, pages: nat, required: nat, advise: Range -> bool, result: Result, u: nat) {
    var enough := |Matching(search, u)| >= required;
    var refused := SomeRefused(search, required, advise);
    && (result == Untranslated <==> !enough && u < pages)
    && (result == TooFewBlocks <==> !enough && u == pages)
    && (result == NotReleased <==> enough && refused)
    && (result.Ready? <==> enough && !refused)
  }

  lemma NotEnough(search: Search, pages: nat, required: nat, advise: Range -> bool, u: nat)
    requires Readable(search.translate, pages, u) && |Matching(search, u)| < required
    ensures Exact(search, pages, required, advise, if u < pages then Untranslated else TooFewBlocks)
  {
    forall u': nat | Readable(search.translate, pages, u')
      ensures u' == u
    {
      ReadableOnce(search.translate, pages, u, u');
    }
  }

  lemma Enough(search: Search, pages: nat, required: nat, advise: Range -> bool, n: nat, ok: bool, result: Result)
    requires n <= pages && (forall p :: 0 <= p < n ==> search.translate(p).Some?) && Scanned(search, required, n)
    requires ok <==> forall r :: UnusedRun(search, n, r) ==> advise(r)
    requires if ok then result.Ready? else result == NotReleased
    ensures Exact(search, pages, required, advise, result)
  {
    forall m | Scanned(search, required, m)
      ensures m == n
    {
      ScannedOnce(search, required, n, m);
    }
    assert SomeRefused(search, required, advise) <==> !ok;
    forall u: nat | Readable(search.translate, pages, u)
      ensures ExactAt(search, pages, required, advise, result, u)
    {
      MatchingGrows(search, n, u);
    }
  }

  /** The address is that of a line of the target class in a page that was not given back. */
  ghost predicate GoodLine(
    masks: seq<Vec>, target: nat, pageSize: nat, frames: seq<Option<nat>>, buffer: nat, released: seq<Range>,
    address: nat)
  {
    exists l :: address == Address(buffer, pageSize, l) && InClass(masks, target, pageSize, frames, l)
        && !InRange(released, l.page)
  }

  lemma ResidueZero(x: nat, n: nat) returns (q: nat)
    requires n > 0 && x % n == 0
    ensures Residue(x, n) == 0 && x == q * n
  {
    q := ResidueIsMod(x, n);
  }

  /** The lines selected and the pages given back go together. */
  lemma SelectionIsGood(
    masks: seq<Vec>, low: nat, target: nat, pageSize: nat, frames: seq<Option<nat>>, buffer: nat, grain: nat,
    required: nat,
    place: Placement, keep: seq<bool>, scanned: nat, released: seq<Range>, lines: seq<nat>)
    requires ClearBelow(masks, low) && low <= WIDTH && grain == Pow2(low)
    requires Residue(grain, CACHELINE_BYTES) == 0 && Residue(pageSize, grain) == 0 && |keep| == |frames|
    requires forall l :: place(l) == Address(buffer, pageSize, l)
    requires var picked :=
             First(AllBlocks(WantsClass(masks, target, pageSize, frames), grain, pageSize, |frames|), required);
             lines == PlacedLines(picked, grain, place) && Marked(picked, keep)
    requires scanned <= |keep| && forall p: nat :: InRange(released, p) <==> p < scanned && !keep[p]
    ensures Distinct(lines)
    ensures forall i :: 0 <= i < |lines| ==> GoodLine(masks, target, pageSize, frames, buffer, released, lines[i])
  {
    var wants := WantsClass(masks, target, pageSize, frames);
    var picked := First(AllBlocks(wants, grain, pageSize, |frames|), required);
    SelectedDistinct(wants, buffer, grain, pageSize, |frames|, required, place);
    forall i | 0 <= i < |lines|
      ensures GoodLine(masks, target, pageSize, frames, buffer, released, lines[i])
    {
      var l := LinesOf(picked, grain)[i];
      LinesHaveClass(masks, low, grain, pageSize, frames, target, required, l);
      LinesOfHas(picked, grain, l);
      LineKept(picked, grain, l, keep);
      assert lines[i] == Address(buffer, pageSize, l);
    }
  }

  /** A selected line lies in a page that is kept. */
  lemma LineKept(picked: seq<Block>, grain: nat, l: Line, keep: seq<bool>)
    requires Residue(grain, CACHELINE_BYTES) == 0 && InSome(picked, grain, l) && Marked(picked, keep) && l.page < |keep|
    ensures keep[l.page]
  {
    var k :| 0 <= k < |picked| && l in BlockLines(picked[k], grain);
    BlockLinesAre(picked[k], grain);
    assert picked[k].page == l.page;
    assert UsesPage(picked, l.page);
  }

  /** Shuffling keeps lines good. */
  lemma GoodAfterShuffle(
    masks: seq<Vec>, target: nat, pageSize: nat, frames: seq<Option<nat>>, buffer: nat, released: seq<Range>,
    lines: seq<nat>, shuffled: seq<nat>)
    requires multiset(shuffled) == multiset(lines)
    requires forall i :: 0 <= i < |lines| ==> GoodLine(masks, target, pageSize, frames, buffer, released, lines[i])
    ensures forall i :: 0 <= i < |shuffled| ==> GoodLine(masks, target, pageSize, frames, buffer, released, shuffled[i])
  {
    forall i | 0 <= i < |shuffled|
      ensures GoodLine(masks, target, pageSize, frames, buffer, released, shuffled[i])
    {
      assert shuffled[i] in multiset(shuffled);
      assert shuffled[i] in lines;
    }
  }

  /** What a ready worker has done: it has linked into one ring, in the order of a shuffle, exactly the lines of the
      first matching blocks, and has given back exactly the scanned pages without a matching block. */
  ghost predicate DoneRight(search: Search, pages: nat, required: nat, grain: nat, buffer: nat, rng: Generator,
      seed: nat, words: map<nat, nat>, lines: seq<nat>, released: seq<Range>) {
    && LinesOfFirst(search, pages, required, grain, buffer, lines)
    && Distinct(lines) && Linked(words, lines, 1)
    && (exists natural: seq<nat> :: Ascends(natural) && lines == Shuffled(rng, natural, seed))
    && (forall n, p: nat :: Scanned(search, required, n) ==>
          (InRange(released, p) <==> p < n && !HasMatch(search, p)))
  }

  ghost predicate Ascends(addresses: seq<nat>) {
    forall i, j :: 0 <= i < j < |addresses| ==> addresses[i] < addresses[j]
  }

  lemma PlacedAscend(wants: Wants, buffer: nat, grain: nat, pageSize: nat, pages: nat, required: nat,
      place: Placement)
    requires grain > 0 && Residue(grain, CACHELINE_BYTES) == 0 && Residue(pageSize, grain) == 0
    requires forall l :: place(l) == Address(buffer, pageSize, l)
    ensures Ascends(PlacedLines(First(AllBlocks(wants, grain, pageSize, pages), required), grain, place))
  {
    var picked := First(AllBlocks(wants, grain, pageSize, pages), required);
    var lines := LinesOf(picked, grain);
    AllBlocksApart(wants, grain, pageSize, pages);
    LinesAscending(picked, grain);
    forall i, j | 0 <= i < j < |lines|
      ensures place(lines[i]) < place(lines[j])
    {
      var b := BlockOfLine(wants, grain, pageSize, pages, required, lines[i]);
      AddressesAscend(buffer, pageSize, lines[i], lines[j]);
    }
  }

  lemma SameLines(search: Search, pages: nat, required: nat, grain: nat, buffer: nat, lines: seq<nat>,
      shuffled: seq<nat>)
    requires LinesOfFirst(search, pages, required, grain, buffer, lines) && multiset(shuffled) == multiset(lines)
    ensures LinesOfFirst(search, pages, required, grain, buffer, shuffled)
  {
    forall a: nat
      ensures a in shuffled <==> a in lines
    {
      assert a in shuffled <==> a in multiset(shuffled);
      assert a in lines <==> a in multiset(lines);
    }
  }

  /** The worker.  Every result has its own cause, and when it is ready, its ring goes once through `selected / 64`
      different lines, exactly those of the first matching blocks. */
  method Run(
    masks: seq<Vec>, target: nat, pageSize: nat, candidate: nat, selected: nat, buffer: nat, translate: Frames,
    advise: Range -> bool, rng: Generator, seed: nat, memory: Memory)
    returns (result: Result, ghost low: Option<nat>)
    requires pageSize > 0 && forall i :: 0 <= i < |masks| ==> Below(masks[i], WIDTH)
    modifies memory
    ensures low.None? <==> forall i :: 0 <= i < |masks| ==> masks[i] == {}
    ensures low.Some? ==> ClearBelow(masks, low.value) && exists i :: 0 <= i < |masks| && low.value in masks[i]
    ensures var refusal := Refusal(masks, target, pageSize, candidate, selected, low);
            if refusal.Some? then result == refusal.value
            else
              var grain := Pow2(low.value);
              Exact(SearchFor(masks, target, pageSize, grain, translate), candidate / pageSize, selected / grain,
                advise, result)
    ensures result.Ready? ==>
              && low.Some? && |result.lines| == selected / CACHELINE_BYTES
              && var grain := Pow2(low.value);
                 && DoneRight(SearchFor(masks, target, pageSize, grain, translate), candidate / pageSize,
                      selected / grain, grain, buffer, rng, seed, memory.words, result.lines, result.released)
                 && forall i :: 0 <= i < |result.lines| ==>
                      GoodLine(masks, target, pageSize, FramesOf(translate, candidate / pageSize), buffer,
                        result.released, result.lines[i])
    ensures !result.Ready? ==> memory.words == old(memory.words)
  {
    var bit := FindMinimumMaskBit(masks);
    low := bit;
    if candidate == 0 || selected == 0 {
      return InvalidArgument, low;
    }
    if |masks| >= WIDTH || target >= Pow2(|masks|) {
      return TargetOutside, low;
    }
    if bit.None? {
      return NoMaskBit, low;
    }
    var grain := Pow2(bit.value);
    if grain < CACHELINE_BYTES || grain % CACHELINE_BYTES != 0 || grain > pageSize || pageSize % grain != 0 {
      return BadGranularity, low;
    }
    if selected % grain != 0 || selected % CACHELINE_BYTES != 0 || candidate % pageSize != 0 {
      return Misaligned, low;
    }
    result := SelectAndLink(masks, bit.value, grain, target, pageSize, candidate / pageSize, selected, buffer,
        translate, advise, rng, seed, memory);
  }

  method SelectAndLink(
    masks: seq<Vec>, low: nat, grain: nat, target: nat, pageSize: nat, pages: nat, selected: nat, buffer: nat,
    translate: Frames, advise: Range -> bool, rng: Generator, seed: nat, memory: Memory)
    returns (result: Result)
    requires ClearBelow(masks, low) && low < WIDTH && grain == Pow2(low)
    requires grain % CACHELINE_BYTES == 0 && pageSize > 0 && pageSize % grain == 0 && selected % grain == 0
    modifies memory
    ensures Exact(SearchFor(masks, target, pageSize, grain, translate), pages, selected / grain, advise, result)
    ensures result.Ready? ==>
              && |result.lines| == selected / CACHELINE_BYTES
              && DoneRight(SearchFor(masks, target, pageSize, grain, translate), pages, selected / grain, grain,
                   buffer, rng, seed, memory.words, result.lines, result.released)
              && forall i :: 0 <= i < |result.lines| ==>
                   GoodLine(masks, target, pageSize, FramesOf(translate, pages), buffer, result.released,
                     result.lines[i])
    ensures !result.Ready? ==> memory.words == old(memory.words)
  {
    var required := selected / grain;
    ghost var search := SearchFor(masks, target, pageSize, grain, translate);
    Sizes(selected, grain, pageSize, required);
    TargetsAgree(masks, target, pageSize, grain, translate, pages);
    var wants := WantsClass(masks, target, pageSize, FramesOf(translate, pages));
    var keep := new bool[pages](_ => false);
    var lines := new nat[selected / CACHELINE_BYTES];
    var place: Placement := l => Address(buffer, pageSize, l);
    var outcome, scanned := SelectTargets(search, wants, grain, pageSize, translate, place, required, advise, keep,
        lines);
    if outcome == TranslationFailed {
      return Untranslated;
    }
    if outcome == Insufficient {
      return TooFewBlocks;
    }
    var ok, released := GiveBack(search, keep, scanned, advise);
    Enough(search, pages, required, advise, scanned, ok, if ok then Ready([], released) else NotReleased);
    if !ok {
      return NotReleased;
    }
    ghost var natural := lines[..];
    SelectionIsGood(masks, low, target, pageSize, FramesOf(translate, pages), buffer, grain, required, place,
        keep[..], scanned, released, natural);
    ReleasedRight(search, required, scanned, keep[..], released);
    BuildRing(memory, lines, rng, seed);
    GoodAfterShuffle(masks, target, pageSize, FramesOf(translate, pages), buffer, released, natural, lines[..]);
    ShuffledRight(search, wants, grain, pages, required, buffer, place, natural, rng, seed, lines[..]);
    result := Ready(lines[..], released);
    AnyReady(search, pages, required, advise, Ready([], released), result);
  }

  lemma Sizes(selected: nat, grain: nat, pageSize: nat, required: nat)
    requires grain > 0 && grain % CACHELINE_BYTES == 0 && pageSize % grain == 0 && selected % grain == 0
    requires required == selected / grain
    ensures Residue(grain, CACHELINE_BYTES) == 0 && Residue(pageSize, grain) == 0
    ensures selected / CACHELINE_BYTES == required * LinesPer(grain)
  {
    var per := ResidueZero(grain, CACHELINE_BYTES);
    var inPage := ResidueZero(pageSize, grain);
    var blocks := ResidueZero(selected, grain);
    Quotients(selected, grain, required, blocks);
    RequiredLines(selected, grain, required, per);
  }

  lemma AnyReady(search: Search, pages: nat, required: nat, advise: Range -> bool, result: Result, result': Result)
    requires Exact(search, pages, required, advise, result) && result.Ready? && result'.Ready?
    ensures Exact(search, pages, required, advise, result')
  {
  }

  /** Gives back the pages that hold none of the lines. */
  method GiveBack(ghost search: Search, keep: array<bool>, scanned: nat, advise: Range -> bool)
    returns (ok: bool, released: seq<Range>)
    requires scanned <= keep.Length && forall p :: 0 <= p < scanned ==> (keep[p] <==> HasMatch(search, p))
    ensures ok <==> forall r :: UnusedRun(search, scanned, r) ==> advise(r)
    ensures ok ==> forall p: nat :: InRange(released, p) <==> p < scanned && !keep[p]
  {
    ghost var upto;
    ok, released, upto := ReleaseUnselectedPages(keep, scanned, advise);
    ReleaseCause(search, keep.Length, scanned, keep[..], advise, ok);
  }

  /** Selects the lines of the target class, or finds that it cannot. */
  method SelectTargets(
    ghost search: Search, wants: Wants, grain: nat, pageSize: nat, translate: Frames, place: Placement, required: nat,
    ghost advise: Range -> bool, keep: array<bool>, lines: array<nat>)
    returns (outcome: Outcome, scanned: nat)
    requires Agrees(search, wants, grain, keep.Length) && search.pageSize == pageSize && search.translate == translate
    requires Residue(grain, CACHELINE_BYTES) == 0 && lines.Length == required * LinesPer(grain)
    requires forall p :: 0 <= p < keep.Length ==> !keep[p]
    modifies keep, lines
    ensures scanned <= keep.Length
    ensures outcome == TranslationFailed ==> Exact(search, keep.Length, required, advise, Untranslated)
    ensures outcome == Insufficient ==> Exact(search, keep.Length, required, advise, TooFewBlocks)
    ensures outcome == Selected ==>
              && Scanned(search, required, scanned) && (forall p :: 0 <= p < scanned ==> translate(p).Some?)
              && (forall p :: 0 <= p < scanned ==> (keep[p] <==> HasMatch(search, p)))
              && var picked := First(AllBlocks(wants, grain, pageSize, keep.Length), required);
                 lines[..] == PlacedLines(picked, grain, place) && Marked(picked, keep[..])
  {
    var translates := (p: nat) => translate(p).Some?;
    outcome, scanned := SelectBlocks(wants, translates, grain, pageSize, place, required, keep, lines);
    ghost var translated := if outcome == TranslationFailed then scanned - 1 else scanned;
    forall p | 0 <= p < translated
      ensures translate(p).Some?
    {
      assert translates(p);
    }
    if outcome == TranslationFailed {
      CauseUntranslated(search, wants, grain, keep.Length, required, advise, scanned);
    } else if outcome == Insufficient {
      CauseTooFew(search, wants, grain, keep.Length, required, advise);
    } else {
      CauseSelected(search, wants, grain, keep.Length, required, scanned);
      ghost var picked := First(AllBlocks(wants, grain, pageSize, keep.Length), required);
      KeptPages(search, wants, grain, keep.Length, required, scanned, picked, keep[..]);
    }
  }

  lemma ShuffledRight(search: Search, wants: Wants, grain: nat, pages: nat, required: nat, buffer: nat,
      place: Placement, natural: seq<nat>, rng: Generator, seed: nat, lines: seq<nat>)
    requires Agrees(search, wants, grain, pages) && Residue(grain, CACHELINE_BYTES) == 0
    requires forall l :: place(l) == Address(buffer, search.pageSize, l)
    requires natural == PlacedLines(First(AllBlocks(wants, grain, search.pageSize, pages), required), grain, place)
    requires lines == Shuffled(rng, natural, seed) && multiset(lines) == multiset(natural)
    ensures LinesOfFirst(search, pages, required, grain, buffer, lines)
    ensures exists natural: seq<nat> :: Ascends(natural) && lines == Shuffled(rng, natural, seed)
  {
    var picked := First(AllBlocks(wants, grain, search.pageSize, pages), required);
    PlacedAreFirst(search, wants, grain, pages, required, buffer, picked, place);
    PlacedAscend(wants, buffer, grain, search.pageSize, pages, required, place);
    SameLines(search, pages, required, grain, buffer, natural, lines);
  }

  lemma EnoughMatch(search: Search, wants: Wants, grain: nat, pages: nat, required: nat, n: nat)
    requires Agrees(search, wants, grain, pages) && n <= pages
    requires |AllBlocks(wants, grain, search.pageSize, n)| >= required
    ensures |Matching(search, n)| >= required
  {
    MatchingIsSelected(search, wants, grain, pages, n);
  }

  lemma FewMatch(search: Search, wants: Wants, grain: nat, pages: nat, required: nat, n: nat)
    requires Agrees(search, wants, grain, pages) && n <= pages
    requires |AllBlocks(wants, grain, search.pageSize, n)| < required
    ensures |Matching(search, n)| < required
  {
    MatchingIsSelected(search, wants, grain, pages, n);
  }

  /** What the selection says of the matching blocks. */
  lemma CauseUntranslated(search: Search, wants: Wants, grain: nat, pages: nat, required: nat,
      advise: Range -> bool, scanned: nat)
    requires Agrees(search, wants, grain, pages) && 0 < scanned <= pages
    requires (forall p :: 0 <= p < scanned - 1 ==> search.translate(p).Some?)
             && search.translate(scanned - 1).None?
    requires |AllBlocks(wants, grain, search.pageSize, scanned - 1)| < required
    ensures Exact(search, pages, required, advise, Untranslated)
  {
    FewMatch(search, wants, grain, pages, required, scanned - 1);
    NotEnough(search, pages, required, advise, scanned - 1);
  }

  lemma CauseTooFew(search: Search, wants: Wants, grain: nat, pages: nat, required: nat, advise: Range -> bool)
    requires Agrees(search, wants, grain, pages) && forall p :: 0 <= p < pages ==> search.translate(p).Some?
    requires |AllBlocks(wants, grain, search.pageSize, pages)| < required
    ensures Exact(search, pages, required, advise, TooFewBlocks)
  {
    FewMatch(search, wants, grain, pages, required, pages);
    NotEnough(search, pages, required, advise, pages);
  }

  lemma CauseSelected(search: Search, wants: Wants, grain: nat, pages: nat, required: nat, scanned: nat)
    requires Agrees(search, wants, grain, pages) && scanned <= pages
    requires |AllBlocks(wants, grain, search.pageSize, scanned)| >= required
    requires scanned > 0 ==> |AllBlocks(wants, grain, search.pageSize, scanned - 1)| < required
    ensures Scanned(search, required, scanned)
  {
    EnoughMatch(search, wants, grain, pages, required, scanned);
    if scanned > 0 {
      FewMatch(search, wants, grain, pages, required, scanned - 1);
    }
  }

  /** What the release says of the unused runs. */
  lemma ReleaseCause(search: Search, pages: nat, n: nat, keep: seq<bool>, advise: Range -> bool,
      ok: bool)
    requires n <= |keep| == pages && forall p :: 0 <= p < n ==> (keep[p] <==> HasMatch(search, p))
    requires ok ==> forall r :: MaximalRun(keep, n, r) ==> advise(r)
    requires !ok ==> exists r :: MaximalRun(keep, n, r) && !advise(r)
    ensures ok <==> forall r :: UnusedRun(search, n, r) ==> advise(r)
  {
    forall r: Range
      ensures MaximalRun(keep, n, r) <==> UnusedRun(search, n, r)
    {
      RunsAreUnused(search, n, keep, r);
    }
  }

  lemma ReleasedRight(search: Search, required: nat, n: nat, keep: seq<bool>, released: seq<Range>)
    requires n <= |keep| && Scanned(search, required, n)
    requires forall p :: 0 <= p < n ==> (keep[p] <==> HasMatch(search, p))
    requires forall p: nat :: InRange(released, p) <==> p < n && !keep[p]
    ensures forall m, p: nat :: Scanned(search, required, m) ==>
              (InRange(released, p) <==> p < m && !HasMatch(search, p))
  {
    forall m | Scanned(search, required, m)
      ensures m == n
    {
      ScannedOnce(search, required, n, m);
    }
  }

  lemma Quotients(x: nat, n: nat, q: nat, q': nat)
    requires n > 0 && q == x / n && x == q' * n
    ensures x == q * n
  {
    DivMod(x, q', n, 0);
  }
}
