/** Subspaces spanned by rows of bits: span, rank, uniqueness of combinations, and duality. */
module Gf2Space {
  import opened Gf2Vectors

  function Pow2(n: nat): (p: nat)
    ensures p > 0
  {
    if n == 0 then 1 else 2 * Pow2(n - 1)
  }

  lemma {:induction false} Pow2Strict(m: nat, n: nat)
    requires m < n
    ensures Pow2(m) < Pow2(n)
  {
    if m < n - 1 {
      Pow2Strict(m, n - 1);
    }
  }

  lemma Pow2Injective(m: nat, n: nat)
    requires Pow2(m) == Pow2(n)
    ensures m == n
  {
    if m < n {
      Pow2Strict(m, n);
    } else if n < m {
      Pow2Strict(n, m);
    }
  }

  // ----- Span

  /** All exclusive-ors of rows. */
  ghost function Span(rows: seq<Vec>): set<Vec> {
    if rows == [] then {{}}
    else
      var s := Span(rows[..|rows| - 1]);
      s + Translate(s, rows[|rows| - 1])
  }

  ghost function Translate(s: set<Vec>, v: Vec): set<Vec> {
    set x | x in s :: Xor(x, v)
  }

  lemma SpanStep(rows: seq<Vec>, x: Vec)
    requires rows != []
    ensures x in Span(rows) <==>
            x in Span(rows[..|rows| - 1]) || Xor(x, rows[|rows| - 1]) in Span(rows[..|rows| - 1])
  {
    var s, last := Span(rows[..|rows| - 1]), rows[|rows| - 1];
    XorCancel(x, last);
    if x in Span(rows) && x !in s {
      var y :| y in s && x == Xor(y, last);
      XorCancel(y, last);
    }
  }

  lemma {:induction false} SpanZero(rows: seq<Vec>)
    ensures {} in Span(rows)
  {
    if rows != [] {
      SpanZero(rows[..|rows| - 1]);
    }
  }

  lemma {:induction false} SpanXor(rows: seq<Vec>, x: Vec, y: Vec)
    requires x in Span(rows) && y in Span(rows)
    ensures Xor(x, y) in Span(rows)
  {
    if rows == [] {
      XorZero({});
    } else {
      var front, last := rows[..|rows| - 1], rows[|rows| - 1];
      SpanStep(rows, x);
      SpanStep(rows, y);
      SpanStep(rows, Xor(x, y));
      var x', y' := Xor(x, last), Xor(y, last);
      if x in Span(front) && y in Span(front) {
        SpanXor(front, x, y);
      } else if x in Span(front) {
        SpanXor(front, x, y');
        XorAssociates(x, y, last);
      } else if y in Span(front) {
        SpanXor(front, x', y);
        XorSwap(x, last, y);
      } else {
        SpanXor(front, x', y');
        XorSwap(x, last, y');
        XorAssociates(x, y', last);
        XorCancel(y, last);
      }
    }
  }

  lemma {:induction false} SpanRow(rows: seq<Vec>, i: nat)
    requires i < |rows|
    ensures rows[i] in Span(rows)
  {
    var front, last := rows[..|rows| - 1], rows[|rows| - 1];
    SpanStep(rows, rows[i]);
    if i < |front| {
      SpanRow(front, i);
      assert front[i] == rows[i];
    } else {
      SpanZero(front);
      XorZero(last);
    }
  }

  /** The span of `rows` is the least subspace holding them. */
  lemma {:induction false} SpanLeast(rows: seq<Vec>, other: seq<Vec>)
    requires forall i :: 0 <= i < |rows| ==> rows[i] in Span(other)
    ensures Span(rows) <= Span(other)
  {
    SpanZero(other);
    if rows != [] {
      var front, last := rows[..|rows| - 1], rows[|rows| - 1];
      SpanLeast(front, other);
      forall x | x in Span(rows)
        ensures x in Span(other)
      {
        SpanStep(rows, x);
        if x !in Span(front) {
          SpanXor(other, Xor(x, last), last);
          XorCancel(x, last);
        }
      }
    }
  }

  /** Two lists of rows with the same members span the same space. */
  lemma SpanSameRows(rows: seq<Vec>, other: seq<Vec>)
    requires forall i :: 0 <= i < |rows| ==> rows[i] in other || rows[i] == {}
    requires forall i :: 0 <= i < |other| ==> other[i] in rows || other[i] == {}
    ensures Span(rows) == Span(other)
  {
    SpanZero(rows);
    SpanZero(other);
    forall i | 0 <= i < |rows|
      ensures rows[i] in Span(other)
    {
      if rows[i] in other {
        var j :| 0 <= j < |other| && other[j] == rows[i];
        SpanRow(other, j);
      }
    }
    forall i | 0 <= i < |other|
      ensures other[i] in Span(rows)
    {
      if other[i] in rows {
        var j :| 0 <= j < |rows| && rows[j] == other[i];
        SpanRow(rows, j);
      }
    }
    SpanLeast(rows, other);
    SpanLeast(other, rows);
  }

  /** The elementary row operation `rows[i] ^= rows[j]` keeps the row space. */
  lemma SpanAddRow(rows: seq<Vec>, i: nat, j: nat)
    requires i < |rows| && j < |rows| && i != j
    ensures Span(rows[i := Xor(rows[i], rows[j])]) == Span(rows)
  {
    var changed := rows[i := Xor(rows[i], rows[j])];
    forall k | 0 <= k < |rows|
      ensures changed[k] in Span(rows)
    {
      SpanRow(rows, k);
      SpanRow(rows, j);
      SpanXor(rows, rows[k], rows[j]);
    }
    forall k | 0 <= k < |rows|
      ensures rows[k] in Span(changed)
    {
      SpanRow(changed, k);
      SpanRow(changed, j);
      SpanXor(changed, changed[k], changed[j]);
      XorCancel(rows[i], rows[j]);
    }
    SpanLeast(changed, rows);
    SpanLeast(rows, changed);
  }

  /** A position no row has is a position no combination has. */
  lemma {:induction false} SpanAvoids(rows: seq<Vec>, bit: nat, x: Vec)
    requires forall i :: 0 <= i < |rows| ==> bit !in rows[i]
    requires x in Span(rows)
    ensures bit !in x
  {
    if rows != [] {
      var front, last := rows[..|rows| - 1], rows[|rows| - 1];
      SpanStep(rows, x);
      if x in Span(front) {
        SpanAvoids(front, bit, x);
      } else {
        SpanAvoids(front, bit, Xor(x, last));
        assert last == rows[|rows| - 1];
      }
    }
  }

  // ----- Rank

  /** The number of rows that are not combinations of earlier ones. */
  ghost function Rank(rows: seq<Vec>): (r: nat)
    ensures r <= |rows|
  {
    if rows == [] then 0
    else
      var front := rows[..|rows| - 1];
      Rank(front) + if rows[|rows| - 1] in Span(front) then 0 else 1
  }

  /** No row is a combination of earlier ones. */
  ghost predicate Independent(rows: seq<Vec>) {
    rows == [] || (Independent(rows[..|rows| - 1]) && rows[|rows| - 1] !in Span(rows[..|rows| - 1]))
  }

  lemma {:induction false} IndependentRank(rows: seq<Vec>)
    ensures Independent(rows) <==> Rank(rows) == |rows|
  {
    if rows != [] {
      IndependentRank(rows[..|rows| - 1]);
    }
  }

  /** A space of rank `r` has `2^r` elements, so the rank depends only on the space. */
  lemma {:induction false} SpanCard(rows: seq<Vec>)
    ensures |Span(rows)| == Pow2(Rank(rows))
  {
    if rows != [] {
      var front, last := rows[..|rows| - 1], rows[|rows| - 1];
      SpanCard(front);
      CosetCard(front, last);
      if last in Span(front) {
        assert Rank(rows) == Rank(front);
      } else {
        assert Rank(rows) == Rank(front) + 1;
        assert Pow2(Rank(rows)) == 2 * Pow2(Rank(front));
      }
    }
  }

  lemma CosetCard(rows: seq<Vec>, v: Vec)
    ensures |Span(rows) + Translate(Span(rows), v)| == if v in Span(rows) then |Span(rows)| else 2 * |Span(rows)|
  {
    var s := Span(rows);
    var t := Translate(s, v);
    Coset(rows, v);
    TranslateCard(s, v);
    if v in s {
      assert s + t == s;
    }
  }

  lemma Coset(rows: seq<Vec>, v: Vec)
    ensures v in Span(rows) ==> Translate(Span(rows), v) <= Span(rows)
    ensures v !in Span(rows) ==> Translate(Span(rows), v) !! Span(rows)
  {
    var s := Span(rows);
    forall y | y in s
      ensures Xor(y, v) in s <==> v in s
    {
      if v in s {
        SpanXor(rows, y, v);
      }
      if Xor(y, v) in s {
        SpanXor(rows, Xor(y, v), y);
        XorCancel(y, v);
      }
    }
  }

  lemma {:induction false} TranslateCard(s: set<Vec>, v: Vec)
    ensures |Translate(s, v)| == |s|
  {
    if s != {} {
      var y :| y in s;
      TranslateCard(s - {y}, v);
      TranslateAdd(s - {y}, y, v);
      assert s == (s - {y}) + {y};
    }
  }

  lemma TranslateAdd(s: set<Vec>, y: Vec, v: Vec)
    requires y !in s
    ensures Translate(s + {y}, v) == Translate(s, v) + {Xor(y, v)}
    ensures Xor(y, v) !in Translate(s, v)
  {
    if Xor(y, v) in Translate(s, v) {
      var x :| x in s && Xor(x, v) == Xor(y, v);
      XorCancel(x, v);
      XorCancel(y, v);
    }
  }

  lemma RankOfSpan(rows: seq<Vec>, other: seq<Vec>)
    requires Span(rows) == Span(other)
    ensures Rank(rows) == Rank(other)
  {
    SpanCard(rows);
    SpanCard(other);
    Pow2Injective(Rank(rows), Rank(other));
  }

  // ----- Combinations

  /** The exclusive-or of the rows whose index is chosen. */
  ghost function Combination(rows: seq<Vec>, chosen: set<nat>): Vec {
    if rows == [] then {}
    else
      var rest := Combination(rows[..|rows| - 1], chosen);
      if |rows| - 1 in chosen then Xor(rest, rows[|rows| - 1]) else rest
  }

  lemma {:induction false} CombinationLocal(rows: seq<Vec>, c: set<nat>, d: set<nat>)
    requires forall i :: 0 <= i < |rows| ==> (i in c <==> i in d)
    ensures Combination(rows, c) == Combination(rows, d)
  {
    if rows != [] {
      CombinationLocal(rows[..|rows| - 1], c, d);
    }
  }

  lemma {:induction false} CombinationInSpan(rows: seq<Vec>, chosen: set<nat>)
    ensures Combination(rows, chosen) in Span(rows)
  {
    if rows != [] {
      var front, last := rows[..|rows| - 1], rows[|rows| - 1];
      CombinationInSpan(front, chosen);
      SpanStep(rows, Combination(rows, chosen));
      XorCancel(Combination(front, chosen), last);
    }
  }

  /** Every element of the span is the exclusive-or of some subset of the rows. */
  lemma {:induction false} SpanIsCombination(rows: seq<Vec>, x: Vec) returns (chosen: set<nat>)
    requires x in Span(rows)
    ensures Below(chosen, |rows|) && Combination(rows, chosen) == x
  {
    chosen := {};
    if rows != [] {
      var front, last := rows[..|rows| - 1], rows[|rows| - 1];
      SpanStep(rows, x);
      if x in Span(front) {
        chosen := SpanIsCombination(front, x);
      } else {
        var c := SpanIsCombination(front, Xor(x, last));
        chosen := c + {|rows| - 1};
        CombinationLocal(front, c, chosen);
        XorCancel(x, last);
      }
    }
  }

  /** The span is exactly what the subsets of the rows combine to. */
  lemma SpanIffCombination(rows: seq<Vec>, x: Vec)
    ensures x in Span(rows) <==> exists chosen :: Below(chosen, |rows|) && Combination(rows, chosen) == x
  {
    if x in Span(rows) {
      var chosen := SpanIsCombination(rows, x);
    }
    if chosen :| Below(chosen, |rows|) && Combination(rows, chosen) == x {
      CombinationInSpan(rows, chosen);
    }
  }

  /** When the rows are independent that subset is unique. */
  lemma {:induction false} CombinationUnique(rows: seq<Vec>, c: set<nat>, d: set<nat>)
    requires Independent(rows)
    requires Below(c, |rows|) && Below(d, |rows|)
    requires Combination(rows, c) == Combination(rows, d)
    ensures c == d
  {
    if rows != [] {
      var n := |rows| - 1;
      var front, last := rows[..n], rows[n];
      var x, y := Combination(front, c), Combination(front, d);
      CombinationInSpan(front, c);
      CombinationInSpan(front, d);
      XorCancel(x, last);
      XorCancel(y, last);
      SpanXor(front, x, y);
      if (n in c) == (n in d) {
        CombinationLocal(front, c, c - {n});
        CombinationLocal(front, d, d - {n});
        CombinationUnique(front, c - {n}, d - {n});
      }
    } else {
      assert forall i :: i !in c && i !in d;
    }
  }

  // ----- Duality

  /** `x` has even parity with every row. */
  ghost predicate Annihilates(x: Vec, rows: seq<Vec>) {
    forall i :: 0 <= i < |rows| ==> !Dot(x, rows[i])
  }

  /** What annihilates the rows annihilates every combination of them. */
  lemma {:induction false} AnnihilatesSpan(x: Vec, rows: seq<Vec>, y: Vec)
    requires Annihilates(x, rows) && y in Span(rows)
    ensures !Dot(x, y)
  {
    if rows == [] {
      assert x * y == {};
    } else {
      var front, last := rows[..|rows| - 1], rows[|rows| - 1];
      SpanStep(rows, y);
      assert Annihilates(x, front);
      if y in Span(front) {
        AnnihilatesSpan(x, front, y);
      } else {
        AnnihilatesSpan(x, front, Xor(y, last));
        DotXorRight(y, last, x);
      }
    }
  }

  /** The row `y` with position `p` cleared by the pivot row `b`. */
  function Reduce(y: Vec, b: Vec, p: nat): Vec {
    if p in y then Xor(y, b) else y
  }

  function ReduceAll(rows: seq<Vec>, b: Vec, p: nat): (reduced: seq<Vec>)
    ensures |reduced| == |rows| && forall i :: 0 <= i < |rows| ==> reduced[i] == Reduce(rows[i], b, p)
  {
    seq(|rows|, i requires 0 <= i < |rows| => Reduce(rows[i], b, p))
  }

  /** A vector outside the span is told apart from it by some vector over the same positions:
      the rows' annihilator determines their span.  The proof eliminates one row at a time. */
  lemma {:induction false} Separation(rows: seq<Vec>, v: Vec, n: nat) returns (z: Vec)
    requires v !in Span(rows)
    requires Below(v, n) && forall i :: 0 <= i < |rows| ==> Below(rows[i], n)
    ensures Below(z, n) && Annihilates(z, rows) && Dot(z, v)
    decreases |rows|
  {
    if rows == [] {
      z := {TopBit(v)};
      DotSingle(z, v, TopBit(v));
    } else {
      var front, b := rows[..|rows| - 1], rows[|rows| - 1];
      assert rows == front + [b];
      if b == {} {
        SpanStep(rows, v);
        z := Separation(front, v, n);
        DotZero(z, b);
        AnnihilatesAppend(z, front, b);
      } else {
        var p := TopBit(b);
        SeparationStep(front, b, p, v, n);
        var z' := Separation(ReduceAll(front, b, p), Reduce(v, b, p), n);
        z := SeparationLift(front, b, p, v, z', n);
      }
    }
  }

  lemma AnnihilatesAppend(z: Vec, rows: seq<Vec>, b: Vec)
    requires Annihilates(z, rows) && !Dot(z, b)
    ensures Annihilates(z, rows + [b])
  {
    assert forall i :: 0 <= i < |rows| + 1 ==> (rows + [b])[i] == if i < |rows| then rows[i] else b;
  }

  lemma SeparationStep(front: seq<Vec>, b: Vec, p: nat, v: Vec, n: nat)
    requires v !in Span(front + [b])
    requires Below(v, n) && Below(b, n) && forall i :: 0 <= i < |front| ==> Below(front[i], n)
    ensures Reduce(v, b, p) !in Span(ReduceAll(front, b, p))
    ensures Below(Reduce(v, b, p), n)
    ensures forall i :: 0 <= i < |front| ==> Below(ReduceAll(front, b, p)[i], n)
  {
    var rows, rows' := front + [b], ReduceAll(front, b, p);
    SpanRow(rows, |front|);
    forall i | 0 <= i < |rows'|
      ensures rows'[i] in Span(rows)
    {
      SpanRow(rows, i);
      SpanXor(rows, rows[i], b);
    }
    SpanLeast(rows', rows);
    if Reduce(v, b, p) in Span(rows') {
      SpanXor(rows, Reduce(v, b, p), b);
      XorCancel(v, b);
    }
  }

  /** Adding a position of `b` flips the inner product with `b`. */
  lemma FlipDot(w: Vec, b: Vec, p: nat)
    requires p in b && p !in w
    ensures Dot(w + {p}, b) == !Dot(w, b)
  {
    assert w + {p} == Xor(w, {p});
    DotXor(w, {p}, b);
    DotSingle({p}, b, p);
  }

  lemma SeparationLift(front: seq<Vec>, b: Vec, p: nat, v: Vec, z': Vec, n: nat) returns (z: Vec)
    requires p in b && Below(b, n) && Below(z', n)
    requires Annihilates(z', ReduceAll(front, b, p)) && Dot(z', Reduce(v, b, p))
    ensures Below(z, n) && Annihilates(z, front + [b]) && Dot(z, v)
  {
    var w := z' - {p};
    z := if Dot(w, b) then w + {p} else w;
    FlipDot(w, b, p);
    forall i | 0 <= i < |front|
      ensures !Dot(z, front[i])
    {
      ReducedDot(z, z', b, p, front[i]);
    }
    AnnihilatesAppend(z, front, b);
    ReducedDot(z, z', b, p, v);
  }

  lemma ReducedDot(z: Vec, z': Vec, b: Vec, p: nat, y: Vec)
    requires p in b && !Dot(z, b)
    requires z - {p} == z' - {p}
    ensures Dot(z, y) == Dot(z', Reduce(y, b, p))
  {
    var y' := Reduce(y, b, p);
    assert z * y' == z' * y' by {
      assert forall i :: i in y' ==> i != p && (i in z <==> i in z - {p}) && (i in z' <==> i in z' - {p});
    }
    DotXorRight(y, b, z);
  }
}
