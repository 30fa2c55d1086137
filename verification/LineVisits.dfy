/** The cache lines of a pool in visiting order, and the ones of a given class among them.

The classifier is a parameter: everything here holds for any way of assigning classes to lines.
 */
module LineVisits {
  import opened Sorting
  import opened Shuffle

  datatype Line = Line(page: nat, index: nat)

  type Classifier = Line -> nat

  function PageLines(page: nat, lineOrder: seq<nat>): seq<Line> {
    seq(|lineOrder|, i requires 0 <= i < |lineOrder| => Line(page, lineOrder[i]))
  }

  /** Page after page, and within each page line after line, in the given orders. */
  function Visit(pageOrder: seq<nat>, lineOrder: seq<nat>): seq<Line> {
    if pageOrder == [] then []
    else Visit(pageOrder[..|pageOrder| - 1], lineOrder) + PageLines(pageOrder[|pageOrder| - 1], lineOrder)
  }

  /** The lines of class `c`, in visiting order. */
  function OfClass(visit: seq<Line>, cls: Classifier, c: nat): seq<Line> {
    if visit == [] then []
    else
      var front, last := OfClass(visit[..|visit| - 1], cls, c), visit[|visit| - 1];
      if cls(last) == c then front + [last] else front
  }

  lemma OfClassAppend(visit: seq<Line>, line: Line, cls: Classifier, c: nat)
    ensures OfClass(visit + [line], cls, c) == if cls(line) == c then OfClass(visit, cls, c) + [line]
            else OfClass(visit, cls, c)
  {
    assert (visit + [line])[..|visit|] == visit;
  }

  /** What was found in a prefix stays found, in the same order. */
  lemma {:induction false} OfClassPrefix(visit: seq<Line>, n: nat, cls: Classifier, c: nat)
    requires n <= |visit|
    ensures OfClass(visit[..n], cls, c) <= OfClass(visit, cls, c)
  {
    if n < |visit| {
      var front := visit[..|visit| - 1];
      OfClassPrefix(front, n, cls, c);
      assert front[..n] == visit[..n];
    } else {
      assert visit[..n] == visit;
    }
  }

  lemma {:induction false} OfClassMembers(visit: seq<Line>, cls: Classifier, c: nat, line: Line)
    ensures line in OfClass(visit, cls, c) <==> line in visit && cls(line) == c
  {
    if visit != [] {
      var front, last := visit[..|visit| - 1], visit[|visit| - 1];
      OfClassMembers(front, cls, c, line);
      assert visit == front + [last];
    }
  }

  lemma {:induction false} OfClassDistinct(visit: seq<Line>, cls: Classifier, c: nat)
    requires Distinct(visit)
    ensures Distinct(OfClass(visit, cls, c))
  {
    if visit != [] {
      var front, last := visit[..|visit| - 1], visit[|visit| - 1];
      OfClassDistinct(front, cls, c);
      OfClassMembers(front, cls, c, last);
      assert last !in front;
    }
  }

  ghost function LinesOf(visit: seq<Line>, cls: Classifier, c: nat): set<Line> {
    set line | line in visit && cls(line) == c
  }

  lemma {:induction false} OfClassCount(visit: seq<Line>, cls: Classifier, c: nat)
    requires Distinct(visit)
    ensures |OfClass(visit, cls, c)| == |LinesOf(visit, cls, c)|
  {
    if visit == [] {
      assert LinesOf(visit, cls, c) == {};
    } else {
      var front, last := visit[..|visit| - 1], visit[|visit| - 1];
      OfClassCount(front, cls, c);
      LinesOfStep(front, last, cls, c);
      assert visit == front + [last];
    }
  }

  lemma LinesOfStep(front: seq<Line>, last: Line, cls: Classifier, c: nat)
    requires Distinct(front + [last])
    ensures |LinesOf(front + [last], cls, c)| == |LinesOf(front, cls, c)| + if cls(last) == c then 1 else 0
  {
    assert (front + [last])[|front|] == last;
    assert forall i :: 0 <= i < |front| ==> (front + [last])[i] == front[i];
    assert last !in front;
    if cls(last) == c {
      assert LinesOf(front + [last], cls, c) == LinesOf(front, cls, c) + {last};
    } else {
      assert LinesOf(front + [last], cls, c) == LinesOf(front, cls, c);
    }
  }

  lemma {:induction false} VisitMembers(pageOrder: seq<nat>, lineOrder: seq<nat>, line: Line)
    ensures line in Visit(pageOrder, lineOrder) <==> line.page in pageOrder && line.index in lineOrder
  {
    if pageOrder != [] {
      var front, last := pageOrder[..|pageOrder| - 1], pageOrder[|pageOrder| - 1];
      VisitMembers(front, lineOrder, line);
      assert pageOrder == front + [last];
      var lines := PageLines(last, lineOrder);
      if line.page == last && line.index in lineOrder {
        var i :| 0 <= i < |lineOrder| && lineOrder[i] == line.index;
        assert lines[i] == line;
      }
    }
  }

  lemma {:induction false} VisitPrefix(pageOrder: seq<nat>, n: nat, lineOrder: seq<nat>)
    requires n <= |pageOrder|
    ensures Visit(pageOrder[..n], lineOrder) <= Visit(pageOrder, lineOrder)
  {
    if n < |pageOrder| {
      var front := pageOrder[..|pageOrder| - 1];
      VisitPrefix(front, n, lineOrder);
      assert front[..n] == pageOrder[..n];
    } else {
      assert pageOrder[..n] == pageOrder;
    }
  }

  lemma {:induction false} VisitDistinct(pageOrder: seq<nat>, lineOrder: seq<nat>)
    requires Distinct(pageOrder) && Distinct(lineOrder)
    ensures Distinct(Visit(pageOrder, lineOrder))
  {
    if pageOrder != [] {
      var front, last := pageOrder[..|pageOrder| - 1], pageOrder[|pageOrder| - 1];
      VisitDistinct(front, lineOrder);
      var visited, lines := Visit(front, lineOrder), PageLines(last, lineOrder);
      forall i, j | 0 <= i < |visited| && 0 <= j < |lines|
        ensures visited[i] != lines[j]
      {
        VisitMembers(front, lineOrder, visited[i]);
      }
    }
  }

  /** Every order of the pages and of the lines finds the same number of lines of a class. */
  lemma OfClassCountIndependent(pages: nat, lines: nat, po: seq<nat>, lo: seq<nat>, po': seq<nat>, lo': seq<nat>,
      cls: Classifier, c: nat)
    requires IsPermutation(po, pages) && IsPermutation(lo, lines)
    requires IsPermutation(po', pages) && IsPermutation(lo', lines)
    ensures |OfClass(Visit(po, lo), cls, c)| == |OfClass(Visit(po', lo'), cls, c)|
  {
    VisitDistinct(po, lo);
    VisitDistinct(po', lo');
    OfClassCount(Visit(po, lo), cls, c);
    OfClassCount(Visit(po', lo'), cls, c);
    forall line
      ensures line in Visit(po, lo) <==> line in Visit(po', lo')
    {
      VisitMembers(po, lo, line);
      VisitMembers(po', lo', line);
      PermutationHas(po, po', pages, line.page);
      PermutationHas(lo, lo', lines, line.index);
    }
    assert LinesOf(Visit(po, lo), cls, c) == LinesOf(Visit(po', lo'), cls, c);
  }

  lemma PermutationHas(p: seq<nat>, q: seq<nat>, n: nat, k: nat)
    requires IsPermutation(p, n) && IsPermutation(q, n)
    ensures k in p <==> k in q
  {
  }

  /** The identity orders are permutations. */
  lemma IdentityPermutation(n: nat)
    ensures IsPermutation(Identity(n), n)
  {
    forall k: nat | k < n
      ensures k in Identity(n)
    {
      assert Identity(n)[k] == k;
    }
  }

  // ----- Totals

  /** The sum of `f(0)` to `f(n - 1)`. */
  function Sum(f: nat -> nat, n: nat): nat {
    if n == 0 then 0 else Sum(f, n - 1) + f(n - 1)
  }

  lemma {:induction false} SumAddAt(f: nat -> nat, g: nat -> nat, n: nat, k: nat, d: nat)
    requires k < n
    requires forall i: nat :: i < n ==> g(i) == f(i) + if i == k then d else 0
    ensures Sum(g, n) == Sum(f, n) + d
  {
    if k < n - 1 {
      SumAddAt(f, g, n - 1, k, d);
    } else {
      SumCongruent(f, g, n - 1);
    }
  }

  lemma {:induction false} SumCongruent(f: nat -> nat, g: nat -> nat, n: nat)
    requires forall i: nat :: i < n ==> g(i) == f(i)
    ensures Sum(g, n) == Sum(f, n)
  {
    if n > 0 {
      SumCongruent(f, g, n - 1);
    }
  }

  /** With every class below `space`, the class counts add up to the number of lines visited. */
  lemma {:induction false} ClassCountsTotal(visit: seq<Line>, cls: Classifier, space: nat)
    requires forall line :: cls(line) < space
    ensures Sum(c => |OfClass(visit, cls, c)|, space) == |visit|
  {
    if visit == [] {
      SumZero(c => |OfClass(visit, cls, c)|, space);
    } else {
      var front, last := visit[..|visit| - 1], visit[|visit| - 1];
      ClassCountsTotal(front, cls, space);
      SumAddAt(c => |OfClass(front, cls, c)|, c => |OfClass(visit, cls, c)|, space, cls(last), 1);
    }
  }

  lemma {:induction false} SumZero(f: nat -> nat, n: nat)
    requires forall i: nat :: i < n ==> f(i) == 0
    ensures Sum(f, n) == 0
  {
    if n > 0 {
      SumZero(f, n - 1);
    }
  }

  lemma {:induction false} VisitLength(pageOrder: seq<nat>, lineOrder: seq<nat>)
    ensures |Visit(pageOrder, lineOrder)| == |pageOrder| * |lineOrder|
  {
    if pageOrder != [] {
      VisitLength(pageOrder[..|pageOrder| - 1], lineOrder);
      var n := |pageOrder| - 1;
      assert (n + 1) * |lineOrder| == n * |lineOrder| + |lineOrder|;
    }
  }
}
