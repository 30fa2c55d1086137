/** Gaussian elimination over GF(2): the incremental rank and the nullspace basis. */
module Gf2Elimination {
  import opened Gf2Vectors
  import opened Gf2Space

  // ----- Facts about spans that grow by one row

  lemma SpanAppend(rows: seq<Vec>, x: Vec)
    ensures Span(rows + [x]) == Span(rows) + Translate(Span(rows), x)
    ensures Independent(rows + [x]) <==> Independent(rows) && x !in Span(rows)
    ensures Rank(rows + [x]) == Rank(rows) + if x in Span(rows) then 0 else 1
  {
    assert (rows + [x])[..|rows|] == rows;
  }

  lemma SpanAppendDependent(rows: seq<Vec>, x: Vec)
    requires x in Span(rows)
    ensures Span(rows + [x]) == Span(rows)
  {
    SpanAppend(rows, x);
    Coset(rows, x);
  }

  lemma SpanAppendSame(rows: seq<Vec>, other: seq<Vec>, x: Vec)
    requires Span(rows) == Span(other)
    ensures Span(rows + [x]) == Span(other + [x])
  {
    SpanAppend(rows, x);
    SpanAppend(other, x);
  }

  /** Replacing an appended row by one that differs from it by a combination changes nothing. */
  lemma SpanAppendReduced(rows: seq<Vec>, x: Vec, y: Vec)
    requires Xor(x, y) in Span(rows)
    ensures Span(rows + [x]) == Span(rows + [y])
  {
    SpanAppendHolds(rows, x, y);
    XorCommutes(x, y);
    SpanAppendHolds(rows, y, x);
    SpanLeast(rows + [x], rows + [y]);
    SpanLeast(rows + [y], rows + [x]);
  }

  lemma SpanAppendHolds(rows: seq<Vec>, x: Vec, y: Vec)
    requires Xor(x, y) in Span(rows)
    ensures forall i :: 0 <= i < |rows + [x]| ==> (rows + [x])[i] in Span(rows + [y])
  {
    SpanAppend(rows, y);
    forall i | 0 <= i < |rows + [x]|
      ensures (rows + [x])[i] in Span(rows + [y])
    {
      if i < |rows| {
        SpanRow(rows, i);
      } else {
        XorCancel(x, y);
        assert x in Translate(Span(rows), y);
      }
    }
  }

  lemma AnnihilatorOfSpan(v: Vec, rows: seq<Vec>, other: seq<Vec>)
    requires Span(rows) == Span(other)
    ensures Annihilates(v, rows) <==> Annihilates(v, other)
  {
    if Annihilates(v, rows) {
      forall i | 0 <= i < |other|
        ensures !Dot(v, other[i])
      {
        SpanRow(other, i);
        AnnihilatesSpan(v, rows, other[i]);
      }
    }
    if Annihilates(v, other) {
      forall i | 0 <= i < |rows|
        ensures !Dot(v, rows[i])
      {
        SpanRow(rows, i);
        AnnihilatesSpan(v, other, rows[i]);
      }
    }
  }

  // ----- Incremental rank

  /** Nonzero rows, no two with the same highest bit. */
  predicate DistinctTops(rows: seq<Vec>) {
    && (forall i :: 0 <= i < |rows| ==> rows[i] != {})
    && (forall i, j :: 0 <= i < j < |rows| ==> TopBit(rows[i]) != TopBit(rows[j]))
  }

  lemma TopCancels(x: Vec, y: Vec)
    requires x != {} && y != {} && TopBit(x) == TopBit(y)
    ensures BitLength(Xor(x, y)) < BitLength(x)
  {
    assert forall i :: i in Xor(x, y) ==> i <= TopBit(x) && i != TopBit(x);
  }

  lemma TopOfXor(x: Vec, y: Vec)
    requires y != {} && (x == {} || TopBit(x) != TopBit(y))
    ensures Xor(x, y) != {}
    ensures TopBit(Xor(x, y)) == if x != {} && TopBit(x) > TopBit(y) then TopBit(x) else TopBit(y)
  {
    var t := if x != {} && TopBit(x) > TopBit(y) then TopBit(x) else TopBit(y);
    assert t in Xor(x, y);
    assert forall i :: i in Xor(x, y) ==> i <= t;
  }

  /** A nonzero combination has the highest bit of some row. */
  lemma {:induction false} TopOfSpan(rows: seq<Vec>, x: Vec)
    requires DistinctTops(rows)
    requires x in Span(rows) && x != {}
    ensures exists i :: 0 <= i < |rows| && TopBit(rows[i]) == TopBit(x)
  {
    var front, last := rows[..|rows| - 1], rows[|rows| - 1];
    SpanStep(rows, x);
    var y := if x in Span(front) then x else Xor(x, last);
    if y != {} {
      TopOfSpan(front, y);
      var i :| 0 <= i < |front| && TopBit(front[i]) == TopBit(y);
      assert rows[i] == front[i];
      if y != x {
        TopOfXor(y, last);
        XorCancel(x, last);
      }
    } else {
      XorCancel(x, last);
      XorZero(last);
    }
  }

  lemma {:induction false} DistinctTopsIndependent(rows: seq<Vec>)
    requires DistinctTops(rows)
    ensures Independent(rows)
  {
    if rows != [] {
      var front, last := rows[..|rows| - 1], rows[|rows| - 1];
      DistinctTopsIndependent(front);
      if last in Span(front) {
        TopOfSpan(front, last);
      }
    }
  }

  ghost function Tops(rows: seq<Vec>): set<nat>
    requires forall i :: 0 <= i < |rows| ==> rows[i] != {}
  {
    set i | 0 <= i < |rows| :: TopBit(rows[i])
  }

  /** `basis` lists the rows put in the dictionary of pivots, each kept under its highest bit. */
  ghost predicate PivotTable(pivots: map<nat, Vec>, basis: seq<Vec>) {
    && DistinctTops(basis)
    && |pivots| == |basis|
    && pivots.Keys == Tops(basis)
    && KeepsRows(pivots, basis)
  }

  ghost predicate KeepsRows(pivots: map<nat, Vec>, basis: seq<Vec>)
    requires forall i :: 0 <= i < |basis| ==> basis[i] != {}
  {
    forall i :: 0 <= i < |basis| ==> TopBit(basis[i]) in pivots && pivots[TopBit(basis[i])] == basis[i]
  }

  lemma DistinctTopsAdd(basis: seq<Vec>, x: Vec)
    requires DistinctTops(basis) && x != {} && TopBit(x) !in Tops(basis)
    ensures DistinctTops(basis + [x])
    ensures Tops(basis + [x]) == Tops(basis) + {TopBit(x)}
  {
    var basis' := basis + [x];
    assert forall i :: 0 <= i < |basis'| ==> basis'[i] == if i < |basis| then basis[i] else x;
    assert forall i :: 0 <= i < |basis| ==> TopBit(basis[i]) in Tops(basis);
    assert TopBit(basis'[|basis|]) == TopBit(x);
    forall t | t in Tops(basis) + {TopBit(x)}
      ensures t in Tops(basis')
    {
      if t in Tops(basis) {
        var i :| 0 <= i < |basis| && t == TopBit(basis[i]);
        assert TopBit(basis'[i]) == t;
      }
    }
  }

  lemma PivotTableAdd(pivots: map<nat, Vec>, basis: seq<Vec>, x: Vec, p: nat)
    requires PivotTable(pivots, basis) && x != {} && p == TopBit(x) && p !in pivots
    ensures PivotTable(pivots[p := x], basis + [x])
  {
    DistinctTopsAdd(basis, x);
    KeepsRowsAdd(pivots, basis, x, p);
    KeyAdd(pivots, p, x);
  }

  lemma KeyAdd(pivots: map<nat, Vec>, p: nat, x: Vec)
    requires p !in pivots
    ensures |pivots[p := x]| == |pivots| + 1 && pivots[p := x].Keys == pivots.Keys + {p}
  {
    assert |pivots[p := x].Keys| == |pivots[p := x]| && |pivots.Keys| == |pivots|;
    assert pivots[p := x].Keys == pivots.Keys + {p};
  }

  lemma KeepsRowsAdd(pivots: map<nat, Vec>, basis: seq<Vec>, x: Vec, p: nat)
    requires forall i :: 0 <= i < |basis| ==> basis[i] != {}
    requires KeepsRows(pivots, basis) && x != {} && p == TopBit(x) && p !in pivots
    ensures KeepsRows(pivots[p := x], basis + [x])
  {
    var basis' := basis + [x];
    assert forall i :: 0 <= i < |basis'| ==> basis'[i] == if i < |basis| then basis[i] else x;
  }

  /** One reduction keeps `x` equal to the input row up to a combination of the pivots. */
  lemma ReduceRow(pivots: map<nat, Vec>, basis: seq<Vec>, x: Vec, row: Vec)
    requires PivotTable(pivots, basis)
    requires x != {} && TopBit(x) in pivots
    requires Xor(x, row) in Span(basis)
    ensures Xor(Xor(x, pivots[TopBit(x)]), row) in Span(basis)
    ensures BitLength(Xor(x, pivots[TopBit(x)])) < BitLength(x)
  {
    var p := pivots[TopBit(x)];
    assert TopBit(x) in Tops(basis);
    var i :| 0 <= i < |basis| && TopBit(basis[i]) == TopBit(x);
    SpanRow(basis, i);
    SpanXor(basis, Xor(x, row), p);
    XorSwap(x, row, p);
    TopCancels(x, p);
  }

  lemma InsertRow(basis: seq<Vec>, x: Vec, rows: seq<Vec>, n: nat)
    requires n < |rows| && Span(basis) == Span(rows[..n])
    requires Xor(x, rows[n]) in Span(basis)
    ensures Span(basis + [x]) == Span(rows[..n + 1])
  {
    SpanAppendReduced(basis, x, rows[n]);
    SpanAppendSame(basis, rows[..n], rows[n]);
    PrefixNext(rows, n);
  }

  lemma DiscardRow(basis: seq<Vec>, rows: seq<Vec>, n: nat)
    requires n < |rows| && Span(basis) == Span(rows[..n])
    requires Xor({}, rows[n]) in Span(basis)
    ensures Span(basis) == Span(rows[..n + 1])
  {
    XorZero(rows[n]);
    SpanAppendDependent(rows[..n], rows[n]);
    PrefixNext(rows, n);
  }

  lemma PivotTableRank(pivots: map<nat, Vec>, basis: seq<Vec>, rows: seq<Vec>)
    requires PivotTable(pivots, basis) && Span(basis) == Span(rows)
    ensures |pivots| == Rank(rows)
  {
    DistinctTopsIndependent(basis);
    IndependentRank(basis);
    RankOfSpan(basis, rows);
  }

  /** Reduces `row` by the pivots and adds what is left of it, if anything. */
  method AddRow(pivots: map<nat, Vec>, row: Vec, ghost basis: seq<Vec>, ghost rows: seq<Vec>, ghost n: nat)
    returns (pivots': map<nat, Vec>, ghost basis': seq<Vec>)
    requires PivotTable(pivots, basis)
    requires n < |rows| && row == rows[n] && Span(basis) == Span(rows[..n])
    ensures PivotTable(pivots', basis')
    ensures Span(basis') == Span(rows[..n + 1])
  {
    pivots', basis' := pivots, basis;
    var x := row;
    XorZero(row);
    SpanZero(basis);
    while x != {}
      invariant Xor(x, row) in Span(basis)
      decreases BitLength(x)
    {
      var p := BitLength(x) - 1;
      assert p == TopBit(x);
      if p in pivots {
        ReduceRow(pivots, basis, x, row);
        x := Xor(x, pivots[p]);
      } else {
        PivotTableAdd(pivots, basis, x, p);
        InsertRow(basis, x, rows, n);
        pivots' := pivots[p := x];
        basis' := basis + [x];
        return;
      }
    }
    DiscardRow(basis, rows, n);
  }

  /** The result is the dimension of the row space, whatever order the rows come in. */
  method Gf2Rank(rows: seq<Vec>) returns (rank: nat)
    ensures rank == Rank(rows)
    ensures |Span(rows)| == Pow2(rank)
  {
    var pivots: map<nat, Vec> := map[];
    ghost var basis: seq<Vec> := [];
    for n := 0 to |rows|
      invariant PivotTable(pivots, basis)
      invariant Span(basis) == Span(rows[..n])
    {
      pivots, basis := AddRow(pivots, rows[n], basis, rows, n);
    }
    assert rows[..|rows|] == rows;
    PivotTableRank(pivots, basis, rows);
    SpanCard(rows);
    rank := |pivots|;
  }

  // ----- Nullspace: the starting matrix

  /** `[x & ((1 << ncols) - 1) for x in rows if x]` */
  function NonzeroTruncated(rows: seq<Vec>, ncols: nat): seq<Vec> {
    if rows == [] then []
    else if rows[0] == {} then NonzeroTruncated(rows[1..], ncols)
    else [Truncate(rows[0], ncols)] + NonzeroTruncated(rows[1..], ncols)
  }

  /** `list(dict.fromkeys(rows))`: the first occurrence of each row, in order. */
  function FirstOccurrences(rows: seq<Vec>): seq<Vec> {
    if rows == [] then []
    else
      var front, last := rows[..|rows| - 1], rows[|rows| - 1];
      if last in front then FirstOccurrences(front) else FirstOccurrences(front) + [last]
  }

  /** The rows restricted to the first `ncols` positions. */
  function Masked(rows: seq<Vec>, ncols: nat): seq<Vec> {
    seq(|rows|, i requires 0 <= i < |rows| => Truncate(rows[i], ncols))
  }

  lemma {:induction false} NonzeroTruncatedRows(rows: seq<Vec>, ncols: nat, x: Vec)
    ensures x in NonzeroTruncated(rows, ncols) <==>
            exists i :: 0 <= i < |rows| && rows[i] != {} && x == Truncate(rows[i], ncols)
  {
    if rows != [] {
      NonzeroTruncatedRows(rows[1..], ncols, x);
      assert rows == [rows[0]] + rows[1..];
    }
  }

  lemma {:induction false} FirstOccurrencesRows(rows: seq<Vec>, x: Vec)
    ensures x in FirstOccurrences(rows) <==> x in rows
  {
    if rows != [] {
      FirstOccurrencesRows(rows[..|rows| - 1], x);
      FirstOccurrencesRows(rows[..|rows| - 1], rows[|rows| - 1]);
      assert rows == rows[..|rows| - 1] + [rows[|rows| - 1]];
    }
  }

  lemma StartingMatrix(rows: seq<Vec>, ncols: nat)
    ensures var matrix := FirstOccurrences(NonzeroTruncated(rows, ncols));
            && Span(matrix) == Span(Masked(rows, ncols))
            && forall i :: 0 <= i < |matrix| ==> Below(matrix[i], ncols)
  {
    var masked := Masked(rows, ncols);
    var matrix := FirstOccurrences(NonzeroTruncated(rows, ncols));
    forall i | 0 <= i < |matrix|
      ensures matrix[i] in masked && Below(matrix[i], ncols)
    {
      FirstOccurrencesRows(NonzeroTruncated(rows, ncols), matrix[i]);
      NonzeroTruncatedRows(rows, ncols, matrix[i]);
      var j :| 0 <= j < |rows| && rows[j] != {} && matrix[i] == Truncate(rows[j], ncols);
      assert masked[j] == matrix[i];
    }
    forall i | 0 <= i < |masked|
      ensures masked[i] in matrix || masked[i] == {}
    {
      if rows[i] != {} {
        NonzeroTruncatedRows(rows, ncols, masked[i]);
        FirstOccurrencesRows(NonzeroTruncated(rows, ncols), masked[i]);
      }
    }
    SpanSameRows(matrix, masked);
  }

  lemma AnnihilatesMasked(v: Vec, rows: seq<Vec>, ncols: nat)
    requires Below(v, ncols)
    ensures Annihilates(v, rows) <==> Annihilates(v, Masked(rows, ncols))
  {
    forall i | 0 <= i < |rows|
      ensures Dot(v, rows[i]) == Dot(v, Masked(rows, ncols)[i])
    {
      assert v * rows[i] == v * Truncate(rows[i], ncols);
    }
    assert forall i :: 0 <= i < |rows| ==> (Dot(v, rows[i]) <==> Dot(v, Masked(rows, ncols)[i]));
  }

  // ----- Nullspace: reduced row-echelon form

  /** The first `|pivotCols|` rows are reduced on columns below `col`, and the others are zero there. */
  predicate Reduced(matrix: seq<Vec>, pivotCols: seq<nat>, col: nat) {
    && |pivotCols| <= |matrix|
    && (forall k :: 0 <= k < |pivotCols| ==> pivotCols[k] < col)
    && (forall k, i :: 0 <= k < |pivotCols| && 0 <= i < |matrix| ==> (pivotCols[k] in matrix[i] <==> i == k))
    && (forall i, c :: |pivotCols| <= i < |matrix| && c in matrix[i] ==> col <= c)
  }

  /** Row `i` after clearing column `col` with row `r`. */
  function ClearedRow(matrix: seq<Vec>, r: nat, col: nat, i: nat): Vec
    requires r < |matrix| && i < |matrix|
  {
    if i != r && col in matrix[i] then Xor(matrix[i], matrix[r]) else matrix[i]
  }

  lemma ReducedStep(matrix: seq<Vec>, cleared: seq<Vec>, pivotCols: seq<nat>, col: nat, ncols: nat)
    requires Reduced(matrix, pivotCols, col)
    requires |pivotCols| < |matrix| == |cleared|
    requires col in matrix[|pivotCols|]
    requires forall i :: 0 <= i < |matrix| ==> Below(matrix[i], ncols)
    requires forall i :: 0 <= i < |matrix| ==> cleared[i] == ClearedRow(matrix, |pivotCols|, col, i)
    ensures Reduced(cleared, pivotCols + [col], col + 1)
    ensures forall i :: 0 <= i < |cleared| ==> Below(cleared[i], ncols)
  {
    var r := |pivotCols|;
    var cols := pivotCols + [col];
    forall k, i | 0 <= k < |cols| && 0 <= i < |cleared|
      ensures cols[k] in cleared[i] <==> i == k
    {
      assert cleared[i] == ClearedRow(matrix, r, col, i);
      if k < r {
        assert cols[k] == pivotCols[k];
        assert pivotCols[k] in matrix[i] <==> i == k;
        assert pivotCols[k] !in matrix[r];
      }
    }
    forall i, c | |cols| <= i < |cleared| && c in cleared[i]
      ensures col + 1 <= c
    {
      assert cleared[i] == ClearedRow(matrix, r, col, i);
      assert c in matrix[i] || c in matrix[r];
    }
  }

  /** The positions below `n` outside `pivots`, in increasing order. */
  function FreeCols(n: nat, pivots: set<nat>): (free: seq<nat>)
    ensures forall c: nat :: c in free <==> c < n && c !in pivots
    ensures forall i :: 0 <= i < |free| ==> free[i] < n
    ensures forall i, j :: 0 <= i < j < |free| ==> free[i] < free[j]
  {
    if n == 0 then []
    else
      var rest := FreeCols(n - 1, pivots);
      if n - 1 in pivots then rest else rest + [n - 1]
  }

  lemma {:induction false} FreeColsCount(n: nat, pivots: set<nat>)
    ensures |FreeCols(n, pivots)| + |Truncate(pivots, n)| == n
  {
    if n == 0 {
      assert Truncate(pivots, 0) == {};
    } else {
      FreeColsCount(n - 1, pivots);
      assert Truncate(pivots, n) == Truncate(pivots, n - 1) + (if n - 1 in pivots then {n - 1} else {});
    }
  }

  function Members(s: seq<nat>): set<nat> {
    set c | c in s
  }

  lemma {:induction false} DistinctCount(s: seq<nat>)
    requires forall i, j :: 0 <= i < j < |s| ==> s[i] != s[j]
    ensures |Members(s)| == |s|
  {
    if s != [] {
      var front, last := s[..|s| - 1], s[|s| - 1];
      DistinctCount(front);
      assert s == front + [last];
      assert last !in front;
      assert Members(s) == Members(front) + {last};
    }
  }

  // ----- Nullspace: the basis read off the reduced matrix

  /** The solution with free position `free` set and every other free position clear. */
  function NullVector(matrix: seq<Vec>, pivotCols: seq<nat>, free: nat): Vec
    requires |matrix| == |pivotCols|
  {
    {free} + set k | 0 <= k < |pivotCols| && free in matrix[k] :: pivotCols[k]
  }

  ghost predicate NullBasis(matrix: seq<Vec>, pivotCols: seq<nat>, free: seq<nat>, basis: seq<Vec>)
    requires |matrix| == |pivotCols|
  {
    && |basis| == |free|
    && (forall j :: 0 <= j < |free| ==> basis[j] == NullVector(matrix, pivotCols, free[j]))
    && Members(free) !! Members(pivotCols)
    && (forall i, j :: 0 <= i < j < |free| ==> free[i] < free[j])
  }

  lemma PivotNotInNullVector(matrix: seq<Vec>, pivotCols: seq<nat>, col: nat, free: nat, k: nat)
    requires Reduced(matrix, pivotCols, col) && |matrix| == |pivotCols|
    requires k < |matrix| && free !in matrix[k]
    ensures pivotCols[k] !in NullVector(matrix, pivotCols, free)
  {
    assert pivotCols[k] in matrix[k];
    forall j | 0 <= j < |pivotCols| && free in matrix[j]
      ensures pivotCols[j] != pivotCols[k]
    {
      assert pivotCols[k] in matrix[j] <==> j == k;
    }
  }

  lemma NullVectorAnnihilates(matrix: seq<Vec>, pivotCols: seq<nat>, col: nat, free: nat)
    requires Reduced(matrix, pivotCols, col) && |matrix| == |pivotCols|
    requires free !in pivotCols
    ensures Annihilates(NullVector(matrix, pivotCols, free), matrix)
  {
    var v := NullVector(matrix, pivotCols, free);
    forall k | 0 <= k < |matrix|
      ensures !Dot(v, matrix[k])
    {
      forall c | c in v * matrix[k]
        ensures c == free || c == pivotCols[k]
      {
        if c != free {
          var j :| 0 <= j < |pivotCols| && free in matrix[j] && c == pivotCols[j];
        }
      }
      if free in matrix[k] {
        assert pivotCols[k] in matrix[k];
        assert v * matrix[k] == {free, pivotCols[k]};
        assert pivotCols[k] != free;
      } else {
        PivotNotInNullVector(matrix, pivotCols, col, free, k);
        assert v * matrix[k] == {};
      }
    }
  }

  lemma {:induction false} NullBasisIndependent(matrix: seq<Vec>, pivotCols: seq<nat>, free: seq<nat>, basis: seq<Vec>)
    requires |matrix| == |pivotCols| && NullBasis(matrix, pivotCols, free, basis)
    ensures Independent(basis)
  {
    if basis != [] {
      var n := |basis| - 1;
      assert NullBasis(matrix, pivotCols, free[..n], basis[..n]);
      NullBasisIndependent(matrix, pivotCols, free[..n], basis[..n]);
      forall i | 0 <= i < n
        ensures free[n] !in basis[..n][i]
      {
        assert basis[i] == NullVector(matrix, pivotCols, free[i]);
        assert free[n] in Members(free);
      }
      if basis[n] in Span(basis[..n]) {
        SpanAvoids(basis[..n], free[n], basis[n]);
      }
    }
  }

  /** Every combination of the basis stays below `ncols` and annihilates the matrix. */
  lemma {:induction false} SpanAnnihilates(basis: seq<Vec>, matrix: seq<Vec>, ncols: nat, v: Vec)
    requires forall j :: 0 <= j < |basis| ==> Below(basis[j], ncols) && Annihilates(basis[j], matrix)
    requires v in Span(basis)
    ensures Below(v, ncols) && Annihilates(v, matrix)
  {
    if basis == [] {
      forall k | 0 <= k < |matrix|
        ensures !Dot(v, matrix[k])
      {
        assert v * matrix[k] == {};
      }
    } else {
      var front, last := basis[..|basis| - 1], basis[|basis| - 1];
      SpanStep(basis, v);
      assert forall j :: 0 <= j < |front| ==> front[j] == basis[j];
      if v in Span(front) {
        SpanAnnihilates(front, matrix, ncols, v);
      } else {
        var u := Xor(v, last);
        SpanAnnihilates(front, matrix, ncols, u);
        XorCancel(v, last);
        AnnihilatesXor(u, last, matrix);
      }
    }
  }

  /** Every annihilator is a combination: cancel its free positions one at a time. */
  lemma {:induction false} AnnihilatorInSpan(
    matrix: seq<Vec>, pivotCols: seq<nat>, col: nat, free: seq<nat>, basis: seq<Vec>, v: Vec)
    requires Reduced(matrix, pivotCols, col) && |matrix| == |pivotCols|
    requires NullBasis(matrix, pivotCols, free, basis)
    requires Annihilates(v, matrix)
    requires v <= Members(pivotCols) + Members(free)
    ensures v in Span(basis)
    decreases |v * Members(free)|
  {
    if v * Members(free) == {} {
      NoFreePart(matrix, pivotCols, col, v);
      SpanZero(basis);
    } else {
      var c :| c in v * Members(free);
      var j :| 0 <= j < |free| && free[j] == c;
      var u := Xor(v, basis[j]);
      NullVectorAnnihilates(matrix, pivotCols, col, c);
      AnnihilatesXor(v, basis[j], matrix);
      CancelFree(matrix, pivotCols, Members(free), v, c);
      AnnihilatorInSpan(matrix, pivotCols, col, free, basis, u);
      SpanRow(basis, j);
      SpanXor(basis, u, basis[j]);
      XorCancel(v, basis[j]);
    }
  }

  lemma CancelFree(matrix: seq<Vec>, pivotCols: seq<nat>, free: set<nat>, v: Vec, c: nat)
    requires |matrix| == |pivotCols| && free !! Members(pivotCols)
    requires v <= Members(pivotCols) + free && c in v && c in free
    ensures Xor(v, NullVector(matrix, pivotCols, c)) <= Members(pivotCols) + free
    ensures Xor(v, NullVector(matrix, pivotCols, c)) * free == (v * free) - {c}
  {
    forall d | d in NullVector(matrix, pivotCols, c)
      ensures d == c || d in Members(pivotCols)
    {
    }
  }

  lemma AnnihilatesXor(x: Vec, y: Vec, rows: seq<Vec>)
    requires Annihilates(x, rows) && Annihilates(y, rows)
    ensures Annihilates(Xor(x, y), rows)
  {
    forall k | 0 <= k < |rows|
      ensures !Dot(Xor(x, y), rows[k])
    {
      DotXor(x, y, rows[k]);
    }
  }

  lemma NoFreePart(matrix: seq<Vec>, pivotCols: seq<nat>, col: nat, v: Vec)
    requires Reduced(matrix, pivotCols, col) && |matrix| == |pivotCols|
    requires Annihilates(v, matrix) && v <= Members(pivotCols)
    ensures v == {}
  {
    if c :| c in v {
      var k :| 0 <= k < |pivotCols| && pivotCols[k] == c;
      forall d | d in v * matrix[k]
        ensures d == c
      {
        var j :| 0 <= j < |pivotCols| && pivotCols[j] == d;
      }
      DotSingle(v, matrix[k], c);
    }
  }

  /** What the basis of a fully reduced matrix spans. */
  lemma NullBasisSpan(matrix: seq<Vec>, pivotCols: seq<nat>, ncols: nat, free: seq<nat>, basis: seq<Vec>)
    requires Reduced(matrix, pivotCols, ncols) && |matrix| == |pivotCols|
    requires free == FreeCols(ncols, Members(pivotCols))
    requires NullBasis(matrix, pivotCols, free, basis)
    ensures forall v :: v in Span(basis) <==> Below(v, ncols) && Annihilates(v, matrix)
    ensures Independent(basis)
    ensures |basis| + Rank(matrix) == ncols
  {
    forall v
      ensures v in Span(basis) <==> Below(v, ncols) && Annihilates(v, matrix)
    {
      if v in Span(basis) {
        NullBasisSound(matrix, pivotCols, ncols, free, basis);
        SpanAnnihilates(basis, matrix, ncols, v);
      }
      if Below(v, ncols) && Annihilates(v, matrix) {
        AnnihilatorInSpan(matrix, pivotCols, ncols, free, basis, v);
      }
    }
    NullBasisIndependent(matrix, pivotCols, free, basis);
    ReducedIndependent(matrix, pivotCols, ncols);
    IndependentRank(matrix);
    FreeColsOfReduced(matrix, pivotCols, ncols);
  }

  lemma NullBasisSound(matrix: seq<Vec>, pivotCols: seq<nat>, ncols: nat, free: seq<nat>, basis: seq<Vec>)
    requires Reduced(matrix, pivotCols, ncols) && |matrix| == |pivotCols|
    requires free == FreeCols(ncols, Members(pivotCols))
    requires NullBasis(matrix, pivotCols, free, basis)
    ensures forall j :: 0 <= j < |basis| ==> Below(basis[j], ncols) && Annihilates(basis[j], matrix)
  {
    forall j | 0 <= j < |basis|
      ensures Below(basis[j], ncols) && Annihilates(basis[j], matrix)
    {
      assert free[j] in free;
      NullVectorAnnihilates(matrix, pivotCols, ncols, free[j]);
    }
  }

  lemma FreeColsOfReduced(matrix: seq<Vec>, pivotCols: seq<nat>, ncols: nat)
    requires Reduced(matrix, pivotCols, ncols) && |matrix| == |pivotCols|
    ensures |FreeCols(ncols, Members(pivotCols))| + |matrix| == ncols
  {
    forall i, j | 0 <= i < j < |pivotCols|
      ensures pivotCols[i] != pivotCols[j]
    {
      assert pivotCols[i] in matrix[i] && pivotCols[j] !in matrix[i];
    }
    DistinctCount(pivotCols);
    FreeColsCount(ncols, Members(pivotCols));
    assert Truncate(Members(pivotCols), ncols) == Members(pivotCols);
  }

  lemma {:induction false} ReducedIndependent(matrix: seq<Vec>, pivotCols: seq<nat>, col: nat)
    requires Reduced(matrix, pivotCols, col) && |matrix| == |pivotCols|
    ensures Independent(matrix)
  {
    if matrix != [] {
      var n := |matrix| - 1;
      ReducedIndependent(matrix[..n], pivotCols[..n], col);
      if matrix[n] in Span(matrix[..n]) {
        SpanAvoids(matrix[..n], pivotCols[n], matrix[n]);
      }
    }
  }

  lemma SwapRows(matrix: seq<Vec>, pivotCols: seq<nat>, col: nat, pivot: nat, ncols: nat) returns (swapped: seq<Vec>)
    requires Reduced(matrix, pivotCols, col)
    requires |pivotCols| <= pivot < |matrix| && col in matrix[pivot]
    requires forall i :: 0 <= i < |matrix| ==> Below(matrix[i], ncols)
    ensures swapped == matrix[|pivotCols| := matrix[pivot]][pivot := matrix[|pivotCols|]]
    ensures Reduced(swapped, pivotCols, col) && Span(swapped) == Span(matrix)
    ensures col in swapped[|pivotCols|]
    ensures forall i :: 0 <= i < |swapped| ==> Below(swapped[i], ncols)
  {
    var r := |pivotCols|;
    swapped := matrix[r := matrix[pivot]][pivot := matrix[r]];
    forall i | 0 <= i < |matrix|
      ensures swapped[i] in Span(matrix) && matrix[i] in Span(swapped)
    {
      var j := if i == r then pivot else if i == pivot then r else i;
      SpanRow(matrix, j);
      SpanRow(swapped, j);
    }
    SpanLeast(swapped, matrix);
    SpanLeast(matrix, swapped);
  }

  lemma NullspaceOfReduced(rows: seq<Vec>, ncols: nat, matrix: seq<Vec>, pivotCols: seq<nat>, free: seq<nat>,
      basis: seq<Vec>)
    requires Reduced(matrix, pivotCols, ncols) && |matrix| == |pivotCols|
    requires Span(matrix) == Span(Masked(rows, ncols))
    requires free == FreeCols(ncols, Members(pivotCols))
    requires |basis| == |free| && forall j :: 0 <= j < |free| ==> basis[j] == NullVector(matrix, pivotCols, free[j])
    ensures forall v :: v in Span(basis) <==> Below(v, ncols) && Annihilates(v, rows)
    ensures Independent(basis)
    ensures |basis| + Rank(Masked(rows, ncols)) == ncols
  {
    assert NullBasis(matrix, pivotCols, free, basis) by {
      assert forall j :: 0 <= j < |free| ==> free[j] in free;
    }
    NullBasisSpan(matrix, pivotCols, ncols, free, basis);
    RankOfSpan(matrix, Masked(rows, ncols));
    forall v | Below(v, ncols)
      ensures Annihilates(v, matrix) <==> Annihilates(v, rows)
    {
      AnnihilatesMasked(v, rows, ncols);
      AnnihilatorOfSpan(v, matrix, Masked(rows, ncols));
    }
  }

  lemma DropZeroRows(matrix: seq<Vec>, pivotCols: seq<nat>, col: nat, ncols: nat)
    requires Reduced(matrix, pivotCols, col) && col <= ncols
    requires col == ncols || |pivotCols| == |matrix|
    requires forall i :: 0 <= i < |matrix| ==> Below(matrix[i], ncols)
    ensures Reduced(matrix[..|pivotCols|], pivotCols, ncols)
    ensures Span(matrix[..|pivotCols|]) == Span(matrix)
  {
    forall i | |pivotCols| <= i < |matrix|
      ensures matrix[i] == {}
    {
      assert forall c :: c !in matrix[i];
    }
    var kept := matrix[..|pivotCols|];
    assert forall i :: 0 <= i < |pivotCols| ==> kept[i] == matrix[i];
    SpanSameRows(kept, matrix);
  }

  /** The rows above `n` are cleared, and the span is still that of the matrix. */
  ghost predicate ClearedUpTo(matrix: seq<Vec>, cleared: seq<Vec>, r: nat, col: nat, n: nat) {
    && r < |matrix| && |cleared| == |matrix|
    && (forall k :: 0 <= k < |matrix| ==> cleared[k] == if k < n then ClearedRow(matrix, r, col, k) else matrix[k])
    && Span(cleared) == Span(matrix)
  }

  lemma ClearNext(matrix: seq<Vec>, cleared: seq<Vec>, r: nat, col: nat, n: nat)
    requires ClearedUpTo(matrix, cleared, r, col, n) && n < |matrix|
    ensures ClearedUpTo(matrix, cleared[n := ClearedRow(matrix, r, col, n)], r, col, n + 1)
  {
    if n != r && col in matrix[n] {
      assert cleared[n] == matrix[n] && cleared[r] == matrix[r];
      SpanAddRow(cleared, n, r);
    } else {
      assert cleared[n := ClearedRow(matrix, r, col, n)] == cleared;
    }
  }

  /** Clears column `col` everywhere but in row `r`. */
  method ClearColumn(matrix: seq<Vec>, r: nat, col: nat) returns (cleared: seq<Vec>)
    requires r < |matrix| && col in matrix[r]
    ensures |cleared| == |matrix|
    ensures forall k :: 0 <= k < |matrix| ==> cleared[k] == ClearedRow(matrix, r, col, k)
    ensures Span(cleared) == Span(matrix)
  {
    cleared := matrix;
    var pivotRow := matrix[r];
    for i := 0 to |matrix|
      invariant ClearedUpTo(matrix, cleared, r, col, i)
    {
      ClearNext(matrix, cleared, r, col, i);
      if i != r && col in cleared[i] {
        assert cleared[i] == matrix[i] && cleared[r] == pivotRow;
        cleared := cleared[i := Xor(cleared[i], pivotRow)];
      } else {
        assert cleared[i := cleared[i]] == cleared;
      }
    }
  }

  /** Gaussian elimination with row swaps: reduces every column below `ncols`. */
  method Eliminate(rows: seq<Vec>, ncols: nat) returns (matrix: seq<Vec>, pivotCols: seq<nat>)
    requires forall i :: 0 <= i < |rows| ==> Below(rows[i], ncols)
    ensures |matrix| == |pivotCols|
    ensures Reduced(matrix, pivotCols, ncols)
    ensures Span(matrix) == Span(rows)
  {
    matrix, pivotCols := rows, [];
    var r := 0;
    var col := 0;
    while col < ncols
      invariant col <= ncols && r == |pivotCols|
      invariant Reduced(matrix, pivotCols, col)
      invariant forall i :: 0 <= i < |matrix| ==> Below(matrix[i], ncols)
      invariant Span(matrix) == Span(rows)
    {
      var pivot := r;
      while pivot < |matrix| && col !in matrix[pivot]
        invariant r <= pivot <= |matrix|
        invariant forall i :: r <= i < pivot ==> col !in matrix[i]
      {
        pivot := pivot + 1;
      }
      if pivot == |matrix| {
        col := col + 1;
        continue;
      }
      ghost var before := SwapRows(matrix, pivotCols, col, pivot, ncols);
      matrix := matrix[r := matrix[pivot]][pivot := matrix[r]];
      matrix := ClearColumn(matrix, r, col);
      ReducedStep(before, matrix, pivotCols, col, ncols);
      pivotCols := pivotCols + [col];
      r := r + 1;
      col := col + 1;
      if r == |matrix| {
        break;
      }
    }
    DropZeroRows(matrix, pivotCols, col, ncols);
    matrix := matrix[..r];
  }

  /** One vector for each free column. */
  method ReadBasis(matrix: seq<Vec>, pivotCols: seq<nat>, free: seq<nat>) returns (basis: seq<Vec>)
    requires |matrix| == |pivotCols|
    ensures |basis| == |free|
    ensures forall j :: 0 <= j < |free| ==> basis[j] == NullVector(matrix, pivotCols, free[j])
  {
    basis := [];
    for j := 0 to |free|
      invariant |basis| == j
      invariant forall k :: 0 <= k < j ==> basis[k] == NullVector(matrix, pivotCols, free[k])
    {
      var vec := {free[j]};
      for k := 0 to |matrix|
        invariant vec == {free[j]} + set i | 0 <= i < k && free[j] in matrix[i] :: pivotCols[i]
      {
        if free[j] in matrix[k] {
          vec := vec + {pivotCols[k]};
        }
      }
      basis := basis + [vec];
    }
  }

  /** The basis spans exactly the vectors below `2^ncols` that have even parity with every row; it is
      independent, and its length and the rank of the rows add up to `ncols`. */
  method Gf2Nullspace(rows: seq<Vec>, ncols: nat) returns (basis: seq<Vec>)
    ensures forall v :: v in Span(basis) <==> Below(v, ncols) && Annihilates(v, rows)
    ensures Independent(basis)
    ensures |basis| + Rank(Masked(rows, ncols)) == ncols
  {
    StartingMatrix(rows, ncols);
    var matrix, pivotCols := Eliminate(FirstOccurrences(NonzeroTruncated(rows, ncols)), ncols);
    var free := FreeCols(ncols, Members(pivotCols));
    basis := ReadBasis(matrix, pivotCols, free);
    NullspaceOfReduced(rows, ncols, matrix, pivotCols, free, basis);
  }
}
