/** The bank worker: whole blocks of one bank class, linked into a ring of cache lines. */
module BankWorker {
  import opened Options
  import opened Arithmetic
  import opened Gf2Vectors
  import opened Gf2Space
  import opened Words
  import opened DramMapping
  import opened PageClasses
  import opened Sorting
  import opened Shuffle
  import opened Chains

  // ----- The granularity of classes

  /** No mask has a bit below `low`. */
  ghost predicate ClearBelow(masks: seq<Vec>, low: nat) {
    forall i, b: nat :: 0 <= i < |masks| && b in masks[i] ==> low <= b
  }

  /** The lowest bit of all masks, if any mask has one among 64. */
  method FindMinimumMaskBit(masks: seq<Vec>) returns (bit: Option<nat>)
    requires forall i :: 0 <= i < |masks| ==> Below(masks[i], WIDTH)
    ensures bit.None? <==> forall i :: 0 <= i < |masks| ==> masks[i] == {}
    ensures bit.Some? ==> ClearBelow(masks, bit.value) && exists i :: 0 <= i < |masks| && bit.value in masks[i]
  {
    var minimum: nat := WIDTH;
    for i := 0 to |masks|
      invariant minimum <= WIDTH && ClearBelow(masks[..i], minimum)
      invariant minimum < WIDTH ==> exists k :: 0 <= k < i && minimum in masks[k]
    {
      var bit: nat := 0;
      while bit < WIDTH && bit !in masks[i]
        invariant bit <= WIDTH && forall b: nat :: b in masks[i] ==> bit <= b
      {
        bit := bit + 1;
      }
      if bit < minimum {
        minimum := bit;
      }
    }
    assert masks[..|masks|] == masks;
    if minimum >= WIDTH {
      forall i | 0 <= i < |masks|
        ensures masks[i] == {}
      {
        assert forall b: nat :: b in masks[i] ==> minimum <= b;
      }
      return None;
    }
    return Some(minimum);
  }

  /** Adding less than the granularity to a multiple of it does not change the class. */
  lemma SameClassInBlock(masks: seq<Vec>, low: nat, m: nat, start: nat, offset: nat, sum: nat)
    requires ClearBelow(masks, low) && offset < Pow2(low) && start == Pow2(low) * m && sum == start + offset
    ensures BankClassOf(masks, sum) == BankClassOf(masks, start)
  {
    BitsOfSum(m, low, start, offset, sum);
    BitsBelow(offset, low);
    SameClassOfBits(masks, low, Bits(start), Bits(offset));
  }

  lemma SameClassOfBits(masks: seq<Vec>, low: nat, high: Vec, rest: Vec)
    requires ClearBelow(masks, low) && Below(rest, low)
    ensures ClassOf(masks, high + rest) == ClassOf(masks, high)
  {
    forall i | 0 <= i < |masks|
      ensures Dot(high + rest, masks[i]) == Dot(high, masks[i])
    {
      assert (high + rest) * masks[i] == high * masks[i];
    }
  }

  /** Wrapping keeps multiples of the granularity, and leaves room for an offset. */
  lemma WrapOfMultiple(x: nat, low: nat, grain: nat, number: nat) returns (m: nat)
    requires low <= WIDTH && grain == Pow2(low) && number == x * grain
    ensures Wrap(number) == grain * m && grain * m + grain <= LIMIT
  {
    Pow2Add(low, WIDTH - low);
    WordCount();
    m := WrappedMultiple(x, grain, Pow2(WIDTH - low));
  }

  lemma PageMultiple(pfn: nat, pageSize: nat, q: nat, grain: nat)
    requires pageSize == q * grain
    ensures pfn * pageSize == (pfn * q) * grain
  {
  }

  lemma SumMultiple(grain: nat, b: nat, s: nat, base: nat, start: nat)
    requires base == grain * b && start == s * grain
    ensures base + start == (b + s) * grain
  {
  }

  /** In a block of a page, wherever it is in physical memory, every line has the class of the first: even when the
      addresses wrap. */
  lemma BlockHasOneClass(
    masks: seq<Vec>, low: nat, grain: nat, pageSize: nat, q: nat, pfn: nat, start: nat, s: nat, offset: nat,
    position: nat)
    requires ClearBelow(masks, low) && low <= WIDTH && grain == Pow2(low)
    requires pageSize == q * grain && start == s * grain && offset < grain && position == start + offset
    ensures RecomputedClass(masks, PageBase(pfn, pageSize), position)
            == RecomputedClass(masks, PageBase(pfn, pageSize), start)
  {
    PageMultiple(pfn, pageSize, q, grain);
    var b := WrapOfMultiple(pfn * q, low, grain, pfn * pageSize);
    var base := PageBase(pfn, pageSize);
    SumMultiple(grain, b, s, base, start);
    BlockAt(masks, low, grain, base, start, b + s, offset, position);
  }

  lemma BlockAt(masks: seq<Vec>, low: nat, grain: nat, base: nat, start: nat, x: nat, offset: nat, position: nat)
    requires ClearBelow(masks, low) && low <= WIDTH && grain == Pow2(low)
    requires base + start == x * grain && offset < grain && position == start + offset
    ensures RecomputedClass(masks, base, position) == RecomputedClass(masks, base, start)
  {
    var m, first, whole := WrappedBlock(low, grain, base, start, x, offset, position);
    SameClassInBlock(masks, low, m, first, offset, whole);
  }

  /** The wrapped addresses of a block's start and of a line in it. */
  lemma WrappedBlock(low: nat, grain: nat, base: nat, start: nat, x: nat, offset: nat, position: nat)
    returns (m: nat, first: nat, whole: nat)
    requires low <= WIDTH && grain == Pow2(low) && base + start == x * grain && offset < grain
             && position == start + offset
    ensures first == Wrap(base + start) && whole == Wrap(base + position)
    ensures first == Pow2(low) * m && whole == first + offset
  {
    m := WrapOfMultiple(x, low, grain, base + start);
    first := Wrap(base + start);
    whole := Wrap(base + position);
    WrapOffset(base + start, offset, grain, first, base + position);
  }

  lemma WrapOffset(x: nat, offset: nat, grain: nat, first: nat, y: nat)
    requires first == Wrap(x) && offset < grain && first + grain <= LIMIT && y == x + offset
    ensures Wrap(y) == first + offset
  {
  }

  // ----- Blocks and lines

  datatype Block = Block(page: nat, start: nat)

  /** A cache line of the buffer. */
  datatype Line = Line(page: nat, offset: nat)

  type Wants = (nat, nat) -> bool

  /** The blocks of a page that are wanted, among those starting before `upto`. */
  function RowBlocks(wants: Wants, page: nat, grain: nat, upto: nat): seq<Block>
    requires grain > 0
  {
    if upto < grain then []
    else RowBlocks(wants, page, grain, upto - grain) + if wants(page, upto - grain) then [Block(page, upto - grain)]
        else []
  }

  /** The wanted blocks of the first `pages` pages, in order. */
  function AllBlocks(wants: Wants, grain: nat, pageSize: nat, pages: nat): seq<Block>
    requires grain > 0
  {
    if pages == 0 then []
        else AllBlocks(wants, grain, pageSize, pages - 1) + RowBlocks(wants, pages - 1, grain, pageSize)
  }

  /** The lines of a block before `upto`. */
  function BlockLines(block: Block, upto: nat): seq<Line> {
    if upto < CACHELINE_BYTES then []
    else BlockLines(block, upto - CACHELINE_BYTES) + [Line(block.page, block.start + (upto - CACHELINE_BYTES))]
  }

  function LinesOf(blocks: seq<Block>, grain: nat): seq<Line> {
    if blocks == [] then []
    else LinesOf(blocks[..|blocks| - 1], grain) + BlockLines(blocks[|blocks| - 1], grain)
  }

  /** At most the first `n`. */
  function First<T>(s: seq<T>, n: nat): seq<T> {
    if |s| <= n then s else s[..n]
  }

  lemma {:induction false} RowBlocksWanted(wants: Wants, page: nat, grain: nat, upto: nat)
    requires grain > 0 && Residue(upto, grain) == 0
    ensures forall b :: b in RowBlocks(wants, page, grain, upto) <==>
              b.page == page && b.start < upto && Residue(b.start, grain) == 0 && wants(page, b.start)
  {
    if upto < grain {
      assert upto == 0;
    } else {
      var n := upto - grain;
      RowBlocksWanted(wants, page, grain, n);
      forall b: Block | b.start < upto && Residue(b.start, grain) == 0
        ensures b.start <= n
      {
        if n < b.start {
          ResidueApart(n, b.start, grain);
        }
      }
    }
  }

  lemma {:induction false} AllBlocksHave(wants: Wants, grain: nat, pageSize: nat, pages: nat, b: Block)
    requires grain > 0 && Residue(pageSize, grain) == 0
    ensures b in AllBlocks(wants, grain, pageSize, pages) <==> b.page < pages && Startable(wants, grain, pageSize, b)
  {
    if pages > 0 {
      var page := pages - 1;
      AllBlocksHave(wants, grain, pageSize, page, b);
      RowBlocksHave(wants, page, grain, pageSize, b);
      var all, row := AllBlocks(wants, grain, pageSize, page), RowBlocks(wants, page, grain, pageSize);
      assert AllBlocks(wants, grain, pageSize, pages) == all + row;
      InBoth(b, all, row);
    }
  }

  /** A wanted block in its page. */
  ghost predicate Startable(wants: Wants, grain: nat, pageSize: nat, b: Block)
    requires grain > 0
  {
    b.start < pageSize && Residue(b.start, grain) == 0 && wants(b.page, b.start)
  }

  lemma InBoth<T>(x: T, s: seq<T>, t: seq<T>)
    ensures x in s + t <==> x in s || x in t
  {
  }

  lemma RowBlocksHave(wants: Wants, page: nat, grain: nat, pageSize: nat, b: Block)
    requires grain > 0 && Residue(pageSize, grain) == 0
    ensures b in RowBlocks(wants, page, grain, pageSize) <==> b.page == page && Startable(wants, grain, pageSize, b)
  {
    RowBlocksWanted(wants, page, grain, pageSize);
  }

  lemma AllBlocksWanted(wants: Wants, grain: nat, pageSize: nat, pages: nat)
    requires grain > 0 && Residue(pageSize, grain) == 0
    ensures forall b :: b in AllBlocks(wants, grain, pageSize, pages) <==>
              b.page < pages && b.start < pageSize && Residue(b.start, grain) == 0 && wants(b.page, b.start)
  {
    forall b
      ensures b in AllBlocks(wants, grain, pageSize, pages) <==>
              b.page < pages && b.start < pageSize && Residue(b.start, grain) == 0 && wants(b.page, b.start)
    {
      AllBlocksHave(wants, grain, pageSize, pages, b);
    }
  }

  lemma {:induction false} RowPrefix(wants: Wants, page: nat, grain: nat, upto: nat, pageSize: nat)
    requires grain > 0 && Residue(upto, grain) == 0 && Residue(pageSize, grain) == 0 && upto <= pageSize
    ensures RowBlocks(wants, page, grain, upto) <= RowBlocks(wants, page, grain, pageSize)
    decreases pageSize
  {
    if upto < pageSize {
      if pageSize - grain < upto {
        ResidueApart(upto, pageSize, grain);
      }
      RowPrefix(wants, page, grain, upto, pageSize - grain);
    }
  }

  lemma {:induction false} BlockLinesAre(block: Block, upto: nat)
    requires Residue(upto, CACHELINE_BYTES) == 0
    ensures forall l :: l in BlockLines(block, upto) <==>
              l.page == block.page && block.start <= l.offset < block.start + upto
              && Residue(l.offset - block.start, CACHELINE_BYTES) == 0
  {
    if upto >= CACHELINE_BYTES {
      var n := upto - CACHELINE_BYTES;
      BlockLinesAre(block, n);
      forall x: nat | x < upto && Residue(x, CACHELINE_BYTES) == 0
        ensures x <= n
      {
        if n < x {
          ResidueApart(n, x, CACHELINE_BYTES);
        }
      }
    }
  }

  ghost predicate InSome(blocks: seq<Block>, grain: nat, l: Line) {
    exists k :: 0 <= k < |blocks| && l in BlockLines(blocks[k], grain)
  }

  lemma {:induction false} LinesOfHas(blocks: seq<Block>, grain: nat, l: Line)
    ensures l in LinesOf(blocks, grain) <==> InSome(blocks, grain, l)
  {
    if blocks != [] {
      var n := |blocks| - 1;
      LinesOfHas(blocks[..n], grain, l);
      InBoth(l, LinesOf(blocks[..n], grain), BlockLines(blocks[n], grain));
      InSomeNext(blocks, n, grain, l);
    }
  }

  lemma InSomeNext(blocks: seq<Block>, n: nat, grain: nat, l: Line)
    requires n + 1 == |blocks|
    ensures InSome(blocks, grain, l) <==> InSome(blocks[..n], grain, l) || l in BlockLines(blocks[n], grain)
  {
    if InSome(blocks[..n], grain, l) {
      var k :| 0 <= k < n && l in BlockLines(blocks[..n][k], grain);
      assert l in BlockLines(blocks[k], grain);
    }
    if InSome(blocks, grain, l) {
      var k :| 0 <= k < |blocks| && l in BlockLines(blocks[k], grain);
      assert k < n ==> blocks[..n][k] == blocks[k];
    }
  }

  /** The number of lines in a block. */
  function LinesPer(grain: nat): nat {
    if grain < CACHELINE_BYTES then 0 else LinesPer(grain - CACHELINE_BYTES) + 1
  }

  lemma {:induction false} BlockLinesCount(block: Block, upto: nat)
    ensures |BlockLines(block, upto)| == LinesPer(upto)
  {
    if upto >= CACHELINE_BYTES {
      BlockLinesCount(block, upto - CACHELINE_BYTES);
    }
  }

  lemma {:induction false} LinesCount(blocks: seq<Block>, grain: nat)
    ensures |LinesOf(blocks, grain)| == |blocks| * LinesPer(grain)
  {
    if blocks != [] {
      var n := |blocks| - 1;
      LinesCount(blocks[..n], grain);
      BlockLinesCount(blocks[n], grain);
      MulNext(n, LinesPer(grain));
    }
  }

  /** The number of lines the caller allocates is the number of lines of the required blocks. */
  lemma RequiredLines(bytes: nat, grain: nat, required: nat, per: nat)
    requires bytes == required * grain && grain == per * CACHELINE_BYTES
    ensures bytes / CACHELINE_BYTES == required * LinesPer(grain)
  {
    LinesPerIs(per, grain);
    assert bytes == (required * per) * CACHELINE_BYTES;
  }

  lemma {:induction false} LinesPerIs(per: nat, grain: nat)
    requires grain == per * CACHELINE_BYTES
    ensures LinesPer(grain) == per
  {
    if per > 0 {
      LinesPerIs(per - 1, grain - CACHELINE_BYTES);
    }
  }

  // ----- Selection

  /** Where a line is in virtual memory. */
  function Address(buffer: nat, pageSize: nat, l: Line): nat {
    buffer + l.page * pageSize + l.offset
  }

  type Placement = Line -> nat

  function Placed(place: Placement, lines: seq<Line>): seq<nat> {
    seq(|lines|, i requires 0 <= i < |lines| => place(lines[i]))
  }

  ghost predicate UsesPage(blocks: seq<Block>, page: nat) {
    exists k :: 0 <= k < |blocks| && blocks[k].page == page
  }

  /** Writes the lines of one block behind those already there. */
  method WriteBlock(block: Block, grain: nat, place: Placement, lines: array<nat>, filled: nat) returns (filled': nat)
    requires Residue(grain, CACHELINE_BYTES) == 0 && filled + LinesPer(grain) <= lines.Length
    modifies lines
    ensures filled' == filled + LinesPer(grain)
    ensures lines[..filled'] == old(lines[..filled]) + Placed(place, BlockLines(block, grain))
  {
    var offset: nat := 0;
    filled' := filled;
    while offset < grain
      invariant offset <= grain && Residue(offset, CACHELINE_BYTES) == 0
      invariant filled' == filled + LinesPer(offset) && LinesPer(offset) <= LinesPer(grain)
      invariant lines[..filled'] == old(lines[..filled]) + Placed(place, BlockLines(block, offset))
    {
      LinesLeft(offset, grain);
      BlockLinesCount(block, offset);
      ghost var before := lines[..filled'];
      lines[filled'] := place(Line(block.page, block.start + offset));
      filled' := filled' + 1;
      offset := offset + CACHELINE_BYTES;
      assert lines[..filled'] == before + [place(Line(block.page, block.start + (offset - CACHELINE_BYTES)))];
    }
    BlockLinesCount(block, offset);
  }

  lemma {:induction false} LinesLeft(offset: nat, grain: nat)
    requires Residue(offset, CACHELINE_BYTES) == 0 && Residue(grain, CACHELINE_BYTES) == 0 && offset < grain
    ensures offset + CACHELINE_BYTES <= grain && LinesPer(offset) < LinesPer(grain)
    decreases grain
  {
    if offset >= CACHELINE_BYTES {
      LinesLeft(offset - CACHELINE_BYTES, grain - CACHELINE_BYTES);
    }
  }

  /** The pages marked are those of the blocks taken. */
  ghost predicate Marked(picked: seq<Block>, keep: seq<bool>) {
    forall p: nat :: p < |keep| ==> (keep[p] <==> UsesPage(picked, p))
  }

  /** The lines of the blocks taken, where they are in memory. */
  ghost function PlacedLines(picked: seq<Block>, grain: nat, place: Placement): seq<nat> {
    Placed(place, LinesOf(picked, grain))
  }

  lemma PlacedNext(picked: seq<Block>, block: Block, grain: nat, place: Placement)
    ensures PlacedLines(picked + [block], grain, place)
            == PlacedLines(picked, grain, place) + Placed(place, BlockLines(block, grain))
  {
    assert (picked + [block])[..|picked|] == picked;
  }

  lemma MarkedNext(picked: seq<Block>, block: Block, keep: seq<bool>)
    requires Marked(picked, keep) && block.page < |keep|
    ensures Marked(picked + [block], keep[block.page := true])
  {
    forall p: nat | p < |keep|
      ensures UsesPage(picked + [block], p) <==> UsesPage(picked, p) || p == block.page
    {
      UsesPageNext(picked, block, p);
    }
  }

  lemma UsesPageNext(picked: seq<Block>, block: Block, page: nat)
    ensures UsesPage(picked + [block], page) <==> UsesPage(picked, page) || page == block.page
  {
    var picked' := picked + [block];
    assert picked'[|picked|] == block;
    if UsesPage(picked, page) {
      var k :| 0 <= k < |picked| && picked[k].page == page;
      assert picked'[k].page == page;
    }
  }

  /** There is room for the lines of one more block. */
  lemma RoomForBlock(picked: seq<Block>, grain: nat, place: Placement, required: nat, capacity: nat)
    requires |picked| < required && capacity == required * LinesPer(grain)
    ensures |PlacedLines(picked, grain, place)| + LinesPer(grain) <= capacity
  {
    AllPlaced(picked, grain, place);
    RoomForOne(|picked|, LinesPer(grain), required, |PlacedLines(picked, grain, place)|, capacity);
  }

  lemma RoomForOne(n: nat, per: nat, required: nat, used: nat, capacity: nat)
    requires n < required && used == n * per && capacity == required * per
    ensures used + per <= capacity
  {
    MulNext(n, per);
    MulMonotone(per, n + 1, required);
  }

  lemma AllPlaced(picked: seq<Block>, grain: nat, place: Placement)
    ensures |PlacedLines(picked, grain, place)| == |picked| * LinesPer(grain)
  {
    LinesCount(picked, grain);
  }

  /** Takes a block: marks its page and writes its lines. */
  method TakeBlock(
    block: Block, grain: nat, place: Placement, ghost picked: seq<Block>, keep: array<bool>, lines: array<nat>,
    filled: nat)
    returns (filled': nat)
    requires Residue(grain, CACHELINE_BYTES) == 0 && block.page < keep.Length
    requires filled + LinesPer(grain) <= lines.Length
    requires lines[..filled] == PlacedLines(picked, grain, place) && Marked(picked, keep[..])
    modifies keep, lines
    ensures filled' == filled + LinesPer(grain)
    ensures lines[..filled'] == PlacedLines(picked + [block], grain, place) && Marked(picked + [block], keep[..])
  {
    MarkedNext(picked, block, keep[..]);
    PlacedNext(picked, block, grain, place);
    ghost var before := keep[..];
    if !keep[block.page] {
      keep[block.page] := true;
    }
    assert keep[..] == before[block.page := true];
    filled' := WriteBlock(block, grain, place, lines, filled);
  }

  /** Takes the wanted blocks of one page until there are enough. */
  method SelectRow(
    wants: Wants, page: nat, grain: nat, pageSize: nat, place: Placement, required: nat, ghost before: seq<Block>,
    keep: array<bool>, lines: array<nat>, blocks: nat, filled: nat)
    returns (blocks': nat, filled': nat, ghost picked: seq<Block>)
    requires grain > 0 && Residue(grain, CACHELINE_BYTES) == 0 && Residue(pageSize, grain) == 0 && page < keep.Length
    requires blocks == |before| < required && lines.Length == required * LinesPer(grain)
    requires filled <= lines.Length && lines[..filled] == PlacedLines(before, grain, place) && Marked(before, keep[..])
    modifies keep, lines
    ensures picked == First(before + RowBlocks(wants, page, grain, pageSize), required)
    ensures blocks' == |picked| <= required && filled' <= lines.Length
    ensures lines[..filled'] == PlacedLines(picked, grain, place) && Marked(picked, keep[..])
  {
    blocks', filled', picked := blocks, filled, before;
    var start: nat := 0;
    while start < pageSize && blocks' < required
      invariant start <= pageSize && Residue(start, grain) == 0
      invariant picked == before + RowBlocks(wants, page, grain, start) && blocks' == |picked| <= required
      invariant filled' <= lines.Length && lines[..filled'] == PlacedLines(picked, grain, place)
                && Marked(picked, keep[..])
    {
      StepInRow(wants, page, grain, start, pageSize, before);
      if wants(page, start) {
        var block := Block(page, start);
        RoomForBlock(picked, grain, place, required, lines.Length);
        filled' := TakeBlock(block, grain, place, picked, keep, lines, filled');
        picked := picked + [block];
        blocks' := blocks' + 1;
      }
      start := start + grain;
    }
    RowPrefix(wants, page, grain, start, pageSize);
    FirstOfPrefix(before, RowBlocks(wants, page, grain, start), RowBlocks(wants, page, grain, pageSize), required,
        start == pageSize);
  }

  lemma StepInRow(wants: Wants, page: nat, grain: nat, start: nat, pageSize: nat, before: seq<Block>)
    requires grain > 0 && Residue(start, grain) == 0 && Residue(pageSize, grain) == 0 && start < pageSize
    ensures start + grain <= pageSize && Residue(start + grain, grain) == 0
    ensures before + RowBlocks(wants, page, grain, start + grain)
         == before + RowBlocks(wants, page, grain, start) + if wants(page, start) then [Block(page, start)] else []
  {
    if start + grain > pageSize {
      ResidueApart(start, pageSize, grain);
    }
  }

  lemma FirstOfPrefix<T>(before: seq<T>, some: seq<T>, all: seq<T>, required: nat, whole: bool)
    requires some <= all && |before + some| <= required
    requires if whole then some == all else |before + some| == required
    ensures before + some == First(before + all, required)
  {
  }

  datatype Outcome = Selected | TranslationFailed | Insufficient

  /** The blocks selected in the first `page` pages: their lines are written and their pages marked, and before the
      last of these pages there were not enough. */
  ghost predicate SelectedUpTo(wants: Wants, grain: nat, pageSize: nat, place: Placement, required: nat, page: nat,
      picked: seq<Block>, keep: seq<bool>, lines: seq<nat>, filled: nat)
    requires grain > 0
  {
    && picked == First(AllBlocks(wants, grain, pageSize, page), required)
    && filled <= |lines| && lines[..filled] == PlacedLines(picked, grain, place) && Marked(picked, keep)
    && (page > 0 ==> |AllBlocks(wants, grain, pageSize, page - 1)| < required)
  }

  /** Selects in one more page. */
  method SelectPage(
    wants: Wants, page: nat, grain: nat, pageSize: nat, place: Placement, required: nat, ghost before: seq<Block>,
    keep: array<bool>, lines: array<nat>, blocks: nat, filled: nat)
    returns (blocks': nat, filled': nat, ghost picked: seq<Block>)
    requires grain > 0 && Residue(grain, CACHELINE_BYTES) == 0 && Residue(pageSize, grain) == 0 && page < keep.Length
    requires blocks == |before| < required && lines.Length == required * LinesPer(grain)
    requires SelectedUpTo(wants, grain, pageSize, place, required, page, before, keep[..], lines[..], filled)
    modifies keep, lines
    ensures blocks' == |picked|
    ensures SelectedUpTo(wants, grain, pageSize, place, required, page + 1, picked, keep[..], lines[..], filled')
  {
    assert lines[..filled] == lines[..][..filled];
    blocks', filled', picked :=
      SelectRow(wants, page, grain, pageSize, place, required, before, keep, lines, blocks, filled);
    assert lines[..filled'] == lines[..][..filled'];
  }

  /** Scans the pages until enough blocks are selected. */
  method SelectBlocks(
    wants: Wants, translates: nat -> bool, grain: nat, pageSize: nat, place: Placement, required: nat,
    keep: array<bool>, lines: array<nat>)
    returns (outcome: Outcome, scanned: nat)
    requires grain > 0 && Residue(grain, CACHELINE_BYTES) == 0 && Residue(pageSize, grain) == 0
    requires lines.Length == required * LinesPer(grain) && forall p :: 0 <= p < keep.Length ==> !keep[p]
    modifies keep, lines
    ensures scanned <= keep.Length
    ensures outcome == TranslationFailed ==>
              scanned > 0 && !translates(scanned - 1) && |AllBlocks(wants, grain, pageSize, scanned - 1)| < required
    ensures outcome == Insufficient ==>
            scanned == keep.Length && |AllBlocks(wants, grain, pageSize, keep.Length)| < required
    ensures forall p :: 0 <= p < (if outcome == TranslationFailed then scanned - 1 else scanned) ==> translates(p)
    ensures outcome == Selected ==>
              && |AllBlocks(wants, grain, pageSize, scanned)| >= required
              && (scanned > 0 ==> |AllBlocks(wants, grain, pageSize, scanned - 1)| < required)
    ensures outcome == Selected ==>
              var picked := First(AllBlocks(wants, grain, pageSize, keep.Length), required);
              && |picked| == required && lines[..] == PlacedLines(picked, grain, place) && Marked(picked, keep[..])
              && forall p :: scanned <= p < keep.Length ==> !keep[p]
  {
    var page: nat, blocks: nat, filled: nat := 0, 0, 0;
    ghost var picked: seq<Block> := [];
    scanned := 0;
    while page < keep.Length && blocks < required
      invariant scanned == page <= keep.Length && blocks == |picked|
      invariant SelectedUpTo(wants, grain, pageSize, place, required, page, picked, keep[..], lines[..], filled)
      invariant forall p :: 0 <= p < page ==> translates(p)
    {
      scanned := page + 1;
      if !translates(page) {
        return TranslationFailed, scanned;
      }
      blocks, filled, picked :=
          SelectPage(wants, page, grain, pageSize, place, required, picked, keep, lines, blocks, filled);
      page := page + 1;
    }
    AllPlaced(picked, grain, place);
    if blocks != required || filled != lines.Length {
      return Insufficient, scanned;
    }
    AllSelected(wants, grain, pageSize, page, keep.Length, picked, required);
    assert lines[..][..filled] == lines[..];
    return Selected, scanned;
  }

  /** Once there are enough blocks, later pages do not matter. */
  lemma AllSelected(wants: Wants, grain: nat, pageSize: nat, page: nat, pages: nat, picked: seq<Block>, required: nat)
    requires grain > 0 && Residue(pageSize, grain) == 0 && page <= pages
    requires picked == First(AllBlocks(wants, grain, pageSize, page), required) && |picked| == required
    ensures picked == First(AllBlocks(wants, grain, pageSize, pages), required)
    ensures |AllBlocks(wants, grain, pageSize, page)| >= required
    ensures forall p :: page <= p ==> !UsesPage(picked, p)
  {
    AllPrefix(wants, grain, pageSize, page, pages);
    NoneBeyond(wants, grain, pageSize, page, picked);
    FirstStable(AllBlocks(wants, grain, pageSize, page), AllBlocks(wants, grain, pageSize, pages), required);
  }

  lemma FirstStable<T>(some: seq<T>, all: seq<T>, required: nat)
    requires some <= all && |First(some, required)| == required
    ensures First(all, required) == First(some, required)
  {
  }

  lemma NoneBeyond(wants: Wants, grain: nat, pageSize: nat, page: nat, picked: seq<Block>)
    requires grain > 0 && Residue(pageSize, grain) == 0 && picked <= AllBlocks(wants, grain, pageSize, page)
    ensures forall p :: page <= p ==> !UsesPage(picked, p)
  {
    AllBlocksWanted(wants, grain, pageSize, page);
    forall k | 0 <= k < |picked|
      ensures picked[k].page < page
    {
      assert picked[k] == AllBlocks(wants, grain, pageSize, page)[k];
      assert picked[k] in AllBlocks(wants, grain, pageSize, page);
    }
  }

  lemma {:induction false} AllPrefix(wants: Wants, grain: nat, pageSize: nat, some: nat, all: nat)
    requires grain > 0 && some <= all
    ensures AllBlocks(wants, grain, pageSize, some) <= AllBlocks(wants, grain, pageSize, all)
    decreases all
  {
    if some < all {
      AllPrefix(wants, grain, pageSize, some, all - 1);
    }
  }

  // ----- The class of the lines

  /** A block is wanted when the class of its first byte in physical memory is the target. `frames` are the page
      frames behind the pages of the buffer, where translation finds them. */
  function WantsClass(masks: seq<Vec>, target: nat, pageSize: nat, frames: seq<Option<nat>>): Wants {
    (page: nat, start: nat) =>
      page < |frames| && frames[page].Some?
          && RecomputedClass(masks, PageBase(frames[page].value, pageSize), start) == target
  }

  /** The line lies in a translated page and has the target class. */
  ghost predicate InClass(masks: seq<Vec>, target: nat, pageSize: nat, frames: seq<Option<nat>>, l: Line) {
    && l.page < |frames| && frames[l.page].Some? && l.offset < pageSize
    && RecomputedClass(masks, PageBase(frames[l.page].value, pageSize), l.offset) == target
  }

  /** Every line of the selection has the target class, and the lines are those of whole blocks inside their pages. */
  lemma LinesHaveClass(
    masks: seq<Vec>, low: nat, grain: nat, pageSize: nat, frames: seq<Option<nat>>, target: nat, required: nat, l: Line)
    requires ClearBelow(masks, low) && low <= WIDTH && grain == Pow2(low)
    requires Residue(grain, CACHELINE_BYTES) == 0 && Residue(pageSize, grain) == 0
    requires l in LinesOf(First(AllBlocks(WantsClass(masks, target, pageSize, frames), grain, pageSize, |frames|),
             required), grain)
    ensures InClass(masks, target, pageSize, frames, l)
  {
    var b := BlockOfLine(WantsClass(masks, target, pageSize, frames), grain, pageSize, |frames|, required, l);
    LineHasClass(masks, low, grain, pageSize, frames[b.page].value, target, b.start, l.offset);
  }

  lemma BlockOfLine(wants: Wants, grain: nat, pageSize: nat, pages: nat, required: nat, l: Line) returns (b: Block)
    requires grain > 0 && Residue(grain, CACHELINE_BYTES) == 0 && Residue(pageSize, grain) == 0
    requires l in LinesOf(First(AllBlocks(wants, grain, pageSize, pages), required), grain)
    ensures b.page == l.page < pages && b.start <= l.offset < b.start + grain <= pageSize
    ensures Residue(b.start, grain) == 0 && wants(b.page, b.start)
  {
    var picked := First(AllBlocks(wants, grain, pageSize, pages), required);
    LinesOfHas(picked, grain, l);
    var k :| 0 <= k < |picked| && l in BlockLines(picked[k], grain);
    b := picked[k];
    assert b in AllBlocks(wants, grain, pageSize, pages);
    AllBlocksWanted(wants, grain, pageSize, pages);
    BlockLinesAre(b, grain);
    BlockInside(b.start, grain, pageSize);
  }

  lemma LineHasClass(masks: seq<Vec>, low: nat, grain: nat, pageSize: nat, pfn: nat, target: nat, start: nat,
      position: nat)
    requires ClearBelow(masks, low) && low <= WIDTH && grain == Pow2(low) > 0
    requires Residue(pageSize, grain) == 0 && Residue(start, grain) == 0 && start <= position < start + grain
    requires RecomputedClass(masks, PageBase(pfn, pageSize), start) == target
    ensures RecomputedClass(masks, PageBase(pfn, pageSize), position) == target
  {
    var s := MultipleOf(start, grain);
    var q := MultipleOf(pageSize, grain);
    var offset := position - start;
    BlockHasOneClass(masks, low, grain, pageSize, q, pfn, start, s, offset, position);
  }

  lemma MultipleOf(x: nat, n: nat) returns (q: nat)
    requires n > 0 && Residue(x, n) == 0
    ensures x == q * n
  {
    q := ResidueIsMod(x, n);
  }

  lemma BlockInside(start: nat, grain: nat, pageSize: nat)
    requires grain > 0 && Residue(start, grain) == 0 && Residue(pageSize, grain) == 0 && start < pageSize
    ensures start + grain <= pageSize
  {
    if start + grain > pageSize {
      ResidueApart(start, pageSize, grain);
    }
  }

  // ----- The lines are different

  /** Blocks in the order of memory that do not overlap. */
  ghost predicate BlocksApart(blocks: seq<Block>, grain: nat) {
    forall i, j :: 0 <= i < j < |blocks| ==>
      blocks[i].page < blocks[j].page
          || (blocks[i].page == blocks[j].page && blocks[i].start + grain <= blocks[j].start)
  }

  ghost predicate Ascending(lines: seq<Line>) {
    forall i, j :: 0 <= i < j < |lines| ==> Precedes(lines[i], lines[j])
  }

  ghost predicate Precedes(l: Line, l': Line) {
    l.page < l'.page || (l.page == l'.page && l.offset < l'.offset)
  }

  lemma {:induction false} RowBlocksApart(wants: Wants, page: nat, grain: nat, upto: nat)
    requires grain > 0 && Residue(upto, grain) == 0
    ensures BlocksApart(RowBlocks(wants, page, grain, upto), grain)
  {
    if upto >= grain {
      var n := upto - grain;
      var row := RowBlocks(wants, page, grain, n);
      RowBlocksApart(wants, page, grain, n);
      RowBlocksWanted(wants, page, grain, n);
      forall i | 0 <= i < |row|
        ensures row[i].page == page && row[i].start + grain <= n
      {
        assert row[i] in row;
        BlockInside(row[i].start, grain, n);
      }
    }
  }

  lemma {:induction false} AllBlocksApart(wants: Wants, grain: nat, pageSize: nat, pages: nat)
    requires grain > 0 && Residue(pageSize, grain) == 0
    ensures BlocksApart(AllBlocks(wants, grain, pageSize, pages), grain)
  {
    if pages > 0 {
      var all, row := AllBlocks(wants, grain, pageSize, pages - 1), RowBlocks(wants, pages - 1, grain, pageSize);
      AllBlocksApart(wants, grain, pageSize, pages - 1);
      RowBlocksApart(wants, pages - 1, grain, pageSize);
      RowAfterAll(wants, grain, pageSize, pages - 1);
      ApartAppend(all, row, grain);
    }
  }

  lemma RowAfterAll(wants: Wants, grain: nat, pageSize: nat, page: nat)
    requires grain > 0 && Residue(pageSize, grain) == 0
    ensures forall b, b' ::
              b in AllBlocks(wants, grain, pageSize, page) && b' in RowBlocks(wants, page, grain, pageSize) ==>
                b.page < b'.page
  {
    AllBlocksWanted(wants, grain, pageSize, page);
    RowBlocksWanted(wants, page, grain, pageSize);
  }

  lemma ApartAppend(some: seq<Block>, more: seq<Block>, grain: nat)
    requires BlocksApart(some, grain) && BlocksApart(more, grain)
    requires forall b, b' :: b in some && b' in more ==> b.page < b'.page
    ensures BlocksApart(some + more, grain)
  {
    forall i, j | 0 <= i < |some| && 0 <= j < |more|
      ensures some[i].page < more[j].page
    {
      assert some[i] in some && more[j] in more;
    }
  }

  lemma {:induction false} BlockLinesAscending(block: Block, upto: nat)
    requires Residue(upto, CACHELINE_BYTES) == 0
    ensures Ascending(BlockLines(block, upto))
  {
    if upto >= CACHELINE_BYTES {
      var n := upto - CACHELINE_BYTES;
      BlockLinesAscending(block, n);
      BlockLinesAre(block, n);
      var lines := BlockLines(block, n);
      forall i | 0 <= i < |lines|
        ensures Precedes(lines[i], Line(block.page, block.start + n))
      {
        assert lines[i] in lines;
      }
    }
  }

  lemma {:induction false} LinesAscending(blocks: seq<Block>, grain: nat)
    requires BlocksApart(blocks, grain) && Residue(grain, CACHELINE_BYTES) == 0
    ensures Ascending(LinesOf(blocks, grain))
  {
    if blocks != [] {
      var n := |blocks| - 1;
      var some, more := LinesOf(blocks[..n], grain), BlockLines(blocks[n], grain);
      LinesAscending(blocks[..n], grain);
      BlockLinesAscending(blocks[n], grain);
      BlockLinesAre(blocks[n], grain);
      forall i, j | 0 <= i < |some| && 0 <= j < |more|
        ensures Precedes(some[i], more[j])
      {
        assert some[i] in some && more[j] in more;
        LinesOfHas(blocks[..n], grain, some[i]);
        var k :| 0 <= k < n && some[i] in BlockLines(blocks[..n][k], grain);
        BlockLinesAre(blocks[k], grain);
      }
    }
  }

  lemma AddressesAscend(buffer: nat, pageSize: nat, l: Line, l': Line)
    requires Precedes(l, l') && l.offset < pageSize
    ensures Address(buffer, pageSize, l) < Address(buffer, pageSize, l')
  {
    if l.page < l'.page {
      MulNext(l.page, pageSize);
      MulMonotone(pageSize, l.page + 1, l'.page);
    }
  }

  /** No address is selected twice. */
  lemma SelectedDistinct(wants: Wants, buffer: nat, grain: nat, pageSize: nat, pages: nat, required: nat,
      place: Placement)
    requires grain > 0 && Residue(grain, CACHELINE_BYTES) == 0 && Residue(pageSize, grain) == 0
    requires forall l :: place(l) == Address(buffer, pageSize, l)
    ensures Distinct(PlacedLines(First(AllBlocks(wants, grain, pageSize, pages), required), grain, place))
  {
    var picked := First(AllBlocks(wants, grain, pageSize, pages), required);
    AllBlocksApart(wants, grain, pageSize, pages);
    LinesAscending(picked, grain);
    var lines := LinesOf(picked, grain);
    forall i, j | 0 <= i < j < |lines|
      ensures place(lines[i]) != place(lines[j])
    {
      var b := BlockOfLine(wants, grain, pageSize, pages, required, lines[i]);
      AddressesAscend(buffer, pageSize, lines[i], lines[j]);
    }
  }

  // ----- Giving pages back

  datatype Range = Range(start: nat, pages: nat)

  ghost predicate InRange(ranges: seq<Range>, page: nat) {
    exists k :: 0 <= k < |ranges| && ranges[k].start <= page < ranges[k].start + ranges[k].pages
  }

  /** Nonempty ranges in increasing order, with a page between each and the next. */
  ghost predicate Apart(ranges: seq<Range>) {
    && (forall k :: 0 <= k < |ranges| ==> ranges[k].pages > 0)
    && (forall j, k :: 0 <= j < k < |ranges| ==> ranges[j].start + ranges[j].pages < ranges[k].start)
  }

  /** The end of the run of pages not kept that begins at `start`. */
  method RunEnd(keep: array<bool>, start: nat, scanned: nat) returns (i: nat)
    requires start < scanned <= keep.Length && !keep[start]
    ensures start < i <= scanned && (i < scanned ==> keep[i])
    ensures forall p :: start <= p < i ==> !keep[p]
  {
    i := start;
    while i < scanned && !keep[i]
      invariant start <= i <= scanned && (i == start ==> !keep[i])
      invariant forall p :: start <= p < i ==> !keep[p]
    {
      i := i + 1;
    }
  }

  /** A longest run of scanned pages that are not kept. */
  ghost predicate MaximalRun(keep: seq<bool>, scanned: nat, r: Range) {
    && r.pages > 0 && r.start + r.pages <= scanned <= |keep|
    && (forall p :: r.start <= p < r.start + r.pages ==> !IsKept(keep, p))
    && (r.start > 0 ==> IsKept(keep, r.start - 1))
    && (r.start + r.pages < scanned ==> IsKept(keep, r.start + r.pages))
  }

  ghost predicate IsKept(keep: seq<bool>, page: int) {
    0 <= page < |keep| && keep[page]
  }

  /** Maximal runs do not overlap. */
  lemma MaximalRunIs(keep: seq<bool>, scanned: nat, r: Range, other: Range)
    requires MaximalRun(keep, scanned, r) && MaximalRun(keep, scanned, other)
    requires other.start <= r.start < other.start + other.pages
    ensures r == other
  {
  }

  /** Gives pages back range by range: exactly the scanned pages that are not kept, each maximal run once, or those
      before the first range that the system refuses.  It succeeds exactly when the system refuses none. */
  method ReleaseUnselectedPages(keep: array<bool>, scanned: nat, advise: Range -> bool)
    returns (ok: bool, ranges: seq<Range>, ghost upto: nat)
    requires scanned <= keep.Length
    ensures upto <= scanned && (ok <==> upto == scanned)
    ensures forall p: nat :: InRange(ranges, p) <==> p < upto && !keep[p]
    ensures Apart(ranges) && forall k :: 0 <= k < |ranges| ==> advise(ranges[k])
    ensures ok ==> forall r :: MaximalRun(keep[..], scanned, r) ==> advise(r)
    ensures !ok ==> exists r :: MaximalRun(keep[..], scanned, r) && r.start == upto && !advise(r)
  {
    ranges := [];
    var i: nat := 0;
    while i < scanned
      invariant i <= scanned && forall k :: 0 <= k < |ranges| ==> advise(ranges[k])
      invariant GivenBack(ranges, keep[..], i) && EndsBefore(ranges, keep[..], i, scanned)
      invariant AfterRun(keep[..], i, scanned)
      invariant forall r :: MaximalRun(keep[..], scanned, r) && r.start < i ==> advise(r)
      decreases scanned - i
    {
      if keep[i] {
        assert IsKept(keep[..], i);
        GivenBackSkip(ranges, keep[..], i, scanned);
        i := i + 1;
        continue;
      }
      var start := i;
      i := RunEnd(keep, start, scanned);
      var range := Range(start, i - start);
      assert MaximalRun(keep[..], scanned, range);
      if !advise(range) {
        return false, ranges, start;
      }
      forall r | MaximalRun(keep[..], scanned, r) && start <= r.start < i
        ensures advise(r)
      {
        MaximalRunIs(keep[..], scanned, r, range);
      }
      GivenBackNext(ranges, keep[..], start, i, scanned);
      ranges := ranges + [range];
    }
    return true, ranges, scanned;
  }

  /** Page `i` is not inside a run: the page before is kept, or this one is, or it is the first or past the last. */
  ghost predicate AfterRun(keep: seq<bool>, i: nat, scanned: nat)
    requires scanned <= |keep|
  {
    0 < i < scanned ==> keep[i - 1] || keep[i]
  }

  /** The ranges are the maximal runs of pages before `upto` that are not kept. */
  ghost predicate GivenBack(ranges: seq<Range>, keep: seq<bool>, upto: nat) {
    && upto <= |keep| && Apart(ranges)
    && forall p: nat :: InRange(ranges, p) <==> p < upto && !keep[p]
  }

  /** The last range ends before `i`, or there because page `i` is kept or was not scanned. */
  ghost predicate EndsBefore(ranges: seq<Range>, keep: seq<bool>, i: nat, scanned: nat)
    requires scanned <= |keep|
  {
    ranges != [] ==>
      var last := ranges[|ranges| - 1];
      last.start + last.pages <= i && (last.start + last.pages == i < scanned ==> keep[i])
  }

  lemma GivenBackSkip(ranges: seq<Range>, keep: seq<bool>, i: nat, scanned: nat)
    requires i < scanned <= |keep| && keep[i] && GivenBack(ranges, keep, i) && EndsBefore(ranges, keep, i, scanned)
    ensures GivenBack(ranges, keep, i + 1) && EndsBefore(ranges, keep, i + 1, scanned)
  {
  }

  lemma GivenBackNext(ranges: seq<Range>, keep: seq<bool>, start: nat, end: nat, scanned: nat)
    requires start < end <= scanned <= |keep| && GivenBack(ranges, keep, start)
             && EndsBefore(ranges, keep, start, scanned)
    requires forall p :: start <= p < end ==> !keep[p]
    ensures GivenBack(ranges + [Range(start, end - start)], keep, end)
  {
    RangeAppend(ranges, Range(start, end - start));
    ApartNext(ranges, Range(start, end - start));
  }

  lemma ApartNext(ranges: seq<Range>, r: Range)
    requires Apart(ranges) && r.pages > 0
    requires ranges != [] ==> ranges[|ranges| - 1].start + ranges[|ranges| - 1].pages < r.start
    ensures Apart(ranges + [r])
  {
    forall j | 0 <= j < |ranges|
      ensures ranges[j].start + ranges[j].pages < r.start
    {
      if j < |ranges| - 1 {
        assert ranges[j].start + ranges[j].pages < ranges[|ranges| - 1].start;
      }
    }
  }

  lemma RangeAppend(ranges: seq<Range>, r: Range)
    ensures forall p: nat :: InRange(ranges + [r], p) <==> InRange(ranges, p) || r.start <= p < r.start + r.pages
  {
    var ranges' := ranges + [r];
    assert ranges'[|ranges|] == r;
    forall p: nat | InRange(ranges, p)
      ensures InRange(ranges', p)
    {
      var k :| 0 <= k < |ranges| && ranges[k].start <= p < ranges[k].start + ranges[k].pages;
      assert ranges'[k] == ranges[k];
    }
  }

  // ----- The ring

  /** Shuffles the lines and stores in each the address of the next. */
  method BuildRing(memory: Memory, lines: array<nat>, rng: Generator, seed: nat)
    requires Distinct(lines[..])
    modifies memory, lines
    ensures lines[..] == Shuffled(rng, old(lines[..]), seed)
    ensures Distinct(lines[..]) && multiset(lines[..]) == multiset(old(lines[..]))
    ensures Linked(memory.words, lines[..], 1) && SameOutside(memory.words, old(memory.words), lines[..])
  {
    ghost var before := lines[..];
    ShuffleInPlace(rng, lines, seed);
    DistinctPermuted(before, lines[..]);
    var n := lines.Length;
    ghost var s := lines[..];
    for i := 0 to n
      invariant lines[..] == s && RingUpTo(memory.words, s, i)
      invariant SameOutside(memory.words, old(memory.words), s)
    {
      RingNext(i, n);
      var next := lines[(i + 1) % n];
      RingStep(memory.words, s, i);
      StoreOutside(memory.words, old(memory.words), s, i, next);
      memory.Store(lines[i], next);
    }
  }
}
