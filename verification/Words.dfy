/** Machine words: a nonnegative integer and the set of positions of its one bits determine each other.

`Bits` and `Value` are mutually inverse, `+` of numbers without common bits is union, multiplication
by a power of two is a shift.
 */
module Words {
  import opened Gf2Vectors
  import opened Arithmetic
  import opened Gf2Space

  const WIDTH: nat := 64

  /** The number whose one bits are the positions in `v`. */
  function Value(v: Vec): nat
    decreases |v|
  {
    if v == {} then 0 else Pow2(TopBit(v)) + Value(v - {TopBit(v)})
  }

  /** The position of the highest one bit of `n`. */
  function Log2(n: nat): (k: nat)
    requires n > 0
    ensures Pow2(k) <= n < 2 * Pow2(k)
  {
    if n == 1 then 0 else Log2(n / 2) + 1
  }

  /** The positions of the one bits of `n`. */
  function Bits(n: nat): Vec {
    if n == 0 then {} else {Log2(n)} + Bits(n - Pow2(Log2(n)))
  }

  lemma {:induction false} Pow2Add(m: nat, n: nat)
    ensures Pow2(m + n) == Pow2(m) * Pow2(n)
  {
    if n > 0 {
      Pow2Add(m, n - 1);
      assert m + n - 1 == m + (n - 1);
      assert Pow2(m + n) == 2 * (Pow2(m) * Pow2(n - 1)) == Pow2(m) * (2 * Pow2(n - 1));
    }
  }

  lemma WordCount()
    ensures Pow2(WIDTH) == LIMIT
  {
    SmallPowers();
    Pow2Add(8, 8);
    Pow2Add(16, 16);
    Pow2Add(32, 32);
  }

  lemma Pow2Monotone(m: nat, n: nat)
    requires m <= n
    ensures Pow2(m) <= Pow2(n)
  {
    if m < n {
      Pow2Strict(m, n);
    }
  }

  lemma {:induction false} ValueBelow(v: Vec, n: nat)
    ensures Below(v, n) <==> Value(v) < Pow2(n)
    decreases |v|
  {
    if v != {} {
      var t := TopBit(v);
      ValueBelow(v - {t}, t);
      assert Below(v - {t}, t);
      if t < n {
        Pow2Monotone(t + 1, n);
      } else {
        Pow2Monotone(n, t);
      }
    }
  }

  /** Values of vectors without common positions add up. */
  lemma {:induction false} ValueUnion(v: Vec, w: Vec)
    requires v !! w
    ensures Value(v + w) == Value(v) + Value(w)
    decreases |v| + |w|
  {
    var u := v + w;
    if u != {} {
      var t := TopBit(u);
      if t in v {
        assert TopBit(v) == t;
        assert u - {t} == (v - {t}) + w;
        ValueUnion(v - {t}, w);
      } else {
        assert TopBit(w) == t;
        assert u - {t} == v + (w - {t});
        ValueUnion(v, w - {t});
      }
    } else {
      assert v == {} && w == {};
    }
  }

  lemma ValueTop(v: Vec, t: nat)
    requires t in v && forall i :: i in v ==> i <= t
    ensures Value(v) == Pow2(t) + Value(v - {t})
  {
    assert TopBit(v) == t;
  }

  /** The highest position is the binary logarithm of the value. */
  lemma TopOfValue(v: Vec)
    requires v != {}
    ensures Pow2(TopBit(v)) <= Value(v) < Pow2(TopBit(v) + 1)
  {
    ValueBelow(v, TopBit(v) + 1);
  }

  lemma SameLogarithm(n: nat, s: nat, t: nat)
    requires Pow2(s) <= n < Pow2(s + 1)
    requires Pow2(t) <= n < Pow2(t + 1)
    ensures s == t
  {
    if s < t {
      Pow2Monotone(s + 1, t);
    } else if t < s {
      Pow2Monotone(t + 1, s);
    }
  }

  lemma {:induction false} ValueInjective(v: Vec, w: Vec)
    requires Value(v) == Value(w)
    ensures v == w
    decreases |v|
  {
    if v != {} && w != {} {
      TopOfValue(v);
      TopOfValue(w);
      SameLogarithm(Value(v), TopBit(v), TopBit(w));
      var t := TopBit(v);
      ValueInjective(v - {t}, w - {t});
      assert v == (v - {t}) + {t} && w == (w - {t}) + {t};
    }
  }

  lemma {:induction false} ValueOfBits(n: nat)
    ensures Value(Bits(n)) == n
  {
    if n > 0 {
      var k := Log2(n);
      var rest := n - Pow2(k);
      ValueOfBits(rest);
      ValueBelow(Bits(rest), k);
      ValueUnion({k}, Bits(rest));
      assert Value({k}) == Pow2(k) by {
        assert TopBit({k}) == k && {k} - {k} == {};
      }
    }
  }

  lemma BitsOfValue(v: Vec)
    ensures Bits(Value(v)) == v
  {
    ValueOfBits(Value(v));
    ValueInjective(Bits(Value(v)), v);
  }

  lemma BitsFromValue(v: Vec, n: nat)
    requires Value(v) == n
    ensures Bits(n) == v
  {
    BitsOfValue(v);
  }

  lemma BitsBelow(m: nat, n: nat)
    ensures Below(Bits(m), n) <==> m < Pow2(n)
  {
    ValueOfBits(m);
    ValueBelow(Bits(m), n);
  }

  // ----- Arithmetic

  /** `v << p` */
  function ShiftUp(v: Vec, p: nat): Vec {
    set i | i in v :: i + p
  }

  /** `v >> p` */
  function ShiftDown(v: Vec, p: nat): Vec {
    set i | i in v && p <= i :: i - p
  }

  lemma {:induction false} ValueShiftUp(v: Vec, p: nat)
    ensures Value(ShiftUp(v, p)) == Pow2(p) * Value(v)
    decreases |v|
  {
    if v == {} {
      assert ShiftUp(v, p) == {};
    } else {
      var t := TopBit(v);
      var rest := v - {t};
      ShiftUpTop(v, t, p);
      ValueTop(ShiftUp(v, p), t + p);
      ValueShiftUp(rest, p);
      Pow2Add(p, t);
      Distribute(Pow2(p), Pow2(t), Value(rest));
    }
  }

  lemma ShiftUpTop(v: Vec, t: nat, p: nat)
    requires t in v && forall i :: i in v ==> i <= t
    ensures t + p in ShiftUp(v, p) && forall j :: j in ShiftUp(v, p) ==> j <= t + p
    ensures ShiftUp(v, p) - {t + p} == ShiftUp(v - {t}, p)
  {
    assert forall i :: i in v - {t} <==> i in v && i != t;
  }

  lemma BitsOfMultiple(m: nat, p: nat, high: nat)
    requires high == Pow2(p) * m
    ensures Bits(high) == ShiftUp(Bits(m), p)
  {
    ValueShiftUp(Bits(m), p);
    ValueOfBits(m);
    BitsFromValue(ShiftUp(Bits(m), p), high);
  }

  lemma ShiftUpDisjoint(v: Vec, p: nat, low: Vec)
    requires Below(low, p)
    ensures ShiftUp(v, p) !! low
    ensures Truncate(ShiftUp(v, p) + low, p) == low
  {
  }

  lemma DisjointSum(high: nat, low: nat, sum: nat)
    requires Bits(high) !! Bits(low) && sum == high + low
    ensures Bits(sum) == Bits(high) + Bits(low)
  {
    ValueUnion(Bits(high), Bits(low));
    ValueOfBits(high);
    ValueOfBits(low);
    BitsFromValue(Bits(high) + Bits(low), sum);
  }

  /** A number below `2^p` added to a multiple of `2^p` fills positions the multiple leaves clear. */
  lemma BitsOfSum(m: nat, p: nat, high: nat, low: nat, sum: nat)
    requires low < Pow2(p) && high == Pow2(p) * m && sum == high + low
    ensures Bits(high) == ShiftUp(Bits(m), p)
    ensures Bits(high) !! Bits(low)
    ensures Bits(sum) == Bits(high) + Bits(low)
  {
    BitsOfMultiple(m, p, high);
    BitsBelow(low, p);
    ShiftUpDisjoint(Bits(m), p, Bits(low));
    DisjointSum(high, low, sum);
  }

  // ----- Bitwise operators on numbers

  /** `m ^ n` */
  function XorNum(m: nat, n: nat): nat {
    Value(Xor(Bits(m), Bits(n)))
  }

  lemma XorNumBits(m: nat, n: nat)
    ensures Bits(XorNum(m, n)) == Xor(Bits(m), Bits(n))
  {
    BitsOfValue(Xor(Bits(m), Bits(n)));
  }

  lemma XorNumBelow(m: nat, n: nat, p: nat)
    requires m < Pow2(p) && n < Pow2(p)
    ensures XorNum(m, n) < Pow2(p)
  {
    BitsBelow(m, p);
    BitsBelow(n, p);
    ValueBelow(Xor(Bits(m), Bits(n)), p);
  }

  // ----- Parity by folding

  /** `v ^ (v >> p)` */
  function Fold(v: Vec, p: nat): Vec {
    Xor(v, ShiftDown(v, p))
  }

  /** The low half of a fold has the parity of the two halves together. */
  lemma FoldParity(v: Vec, p: nat)
    ensures |Truncate(Fold(v, p), p)| % 2 == |Truncate(v, 2 * p)| % 2
  {
    var low := Truncate(v, p);
    var high := Truncate(v, 2 * p) - low;
    ShiftDownCard(high, p);
    FoldLow(v, p);
    XorCard(low, ShiftDown(high, p));
    TruncateCard(v, p);
    SameParity(|Truncate(Fold(v, p), p)|, |Truncate(v, 2 * p)|, |low * ShiftDown(high, p)|);
  }

  lemma TruncateCard(v: Vec, p: nat)
    ensures |Truncate(v, 2 * p)| == |Truncate(v, p)| + |Truncate(v, 2 * p) - Truncate(v, p)|
  {
    assert Truncate(v, p) <= Truncate(v, 2 * p);
  }

  lemma SameParity(m: nat, n: nat, k: nat)
    requires m + 2 * k == n
    ensures m % 2 == n % 2
  {
  }

  lemma FoldLow(v: Vec, p: nat)
    ensures Truncate(Fold(v, p), p) == Xor(Truncate(v, p), ShiftDown(Truncate(v, 2 * p) - Truncate(v, p), p))
  {
    forall i: nat | i < p
      ensures i in ShiftDown(v, p) <==> i in ShiftDown(Truncate(v, 2 * p) - Truncate(v, p), p)
    {
      ShiftDownHas(v, p, i);
      ShiftDownHas(Truncate(v, 2 * p) - Truncate(v, p), p, i);
    }
    forall i | i in ShiftDown(Truncate(v, 2 * p) - Truncate(v, p), p)
      ensures i < p
    {
    }
  }

  lemma ShiftDownHas(v: Vec, p: nat, i: nat)
    ensures i in ShiftDown(v, p) <==> i + p in v
  {
    if i + p in v {
      assert (i + p) - p == i;
    }
  }

  lemma {:induction false} ShiftDownCard(v: Vec, p: nat)
    requires forall i :: i in v ==> p <= i
    ensures |ShiftDown(v, p)| == |v|
    decreases |v|
  {
    if v == {} {
      assert ShiftDown(v, p) == {};
    } else {
      var t := TopBit(v);
      var rest := v - {t};
      ShiftDownCard(rest, p);
      forall j: nat
        ensures j in ShiftDown(v, p) <==> j in ShiftDown(rest, p) + {t - p}
      {
        ShiftDownHas(v, p, j);
        ShiftDownHas(rest, p, j);
      }
      ShiftDownHas(rest, p, t - p);
      assert ShiftDown(v, p) == ShiftDown(rest, p) + {t - p};
    }
  }

  /** The portable parity: fold to four bits, then look the nibble up in a constant. */
  function FoldedParity(v: Vec): bool {
    var nibble := Value(Truncate(Fold(Fold(Fold(Fold(v, 32), 16), 8), 4), 4));
    (0x6996 / Pow2(nibble)) % 2 == 1
  }

  lemma NibbleTable(v: Vec)
    requires Below(v, 4)
    ensures (0x6996 / Pow2(Value(v))) % 2 == |v| % 2
  {
    NibbleSums(v);
    NibbleCard(v);
    NibbleLookup(if 0 in v then 1 else 0, if 1 in v then 1 else 0, if 2 in v then 1 else 0, if 3 in v then 1 else 0);
  }

  lemma NibbleSums(v: Vec)
    requires Below(v, 4)
    ensures Value(v) == (if 0 in v then 1 else 0) + (if 1 in v then 2 else 0) + (if 2 in v then 4 else 0)
            + (if 3 in v then 8 else 0)
  {
    var v3 := v - {3};
    var v2 := v3 - {2};
    var v1 := v2 - {1};
    SplitTop(v, 3);
    SplitTop(v3, 2);
    SplitTop(v2, 1);
    SplitTop(v1, 0);
    assert v1 - {0} == {};
    SmallPowers();
  }

  lemma SplitTop(v: Vec, k: nat)
    requires Below(v, k + 1)
    ensures Below(v - {k}, k)
    ensures Value(v) == Value(v - {k}) + if k in v then Pow2(k) else 0
  {
    if k in v {
      ValueTop(v, k);
    } else {
      assert v - {k} == v;
    }
  }

  lemma NibbleCard(v: Vec)
    requires Below(v, 4)
    ensures |v| == (if 0 in v then 1 else 0) + (if 1 in v then 1 else 0) + (if 2 in v then 1 else 0)
            + (if 3 in v then 1 else 0)
  {
    var low := PairCard(v, 3, 2);
    var rest := PairCard(low, 1, 0);
    assert rest == {};
  }

  lemma PairCard(v: Vec, k: nat, j: nat) returns (rest: Vec)
    requires k != j
    ensures |v| == |rest| + (if k in v then 1 else 0) + (if j in v then 1 else 0)
    ensures forall i :: i in rest <==> i in v && i != k && i != j
  {
    rest := v - {k} - {j};
    RemoveCard(v, k);
    RemoveCard(v - {k}, j);
  }

  lemma RemoveCard(v: Vec, k: nat)
    ensures |v| == |v - {k}| + if k in v then 1 else 0
  {
    if k !in v {
      assert v - {k} == v;
    }
  }

  lemma SmallPowers()
    ensures Pow2(0) == 1 && Pow2(1) == 2 && Pow2(2) == 4 && Pow2(3) == 8
    ensures Pow2(4) == 16 && Pow2(5) == 32 && Pow2(6) == 64 && Pow2(7) == 128
    ensures Pow2(8) == 256 && Pow2(9) == 512 && Pow2(10) == 1024 && Pow2(11) == 2048
    ensures Pow2(12) == 4096 && Pow2(13) == 8192 && Pow2(14) == 16384 && Pow2(15) == 32768
  {
    assert Pow2(3) == 8;
    assert Pow2(6) == 64;
    assert Pow2(9) == 512;
    assert Pow2(12) == 4096;
  }

  lemma NibbleLookup(b0: nat, b1: nat, b2: nat, b3: nat)
    requires b0 < 2 && b1 < 2 && b2 < 2 && b3 < 2
    ensures (0x6996 / Pow2(b0 + 2 * b1 + 4 * b2 + 8 * b3)) % 2 == (b0 + b1 + b2 + b3) % 2
  {
    SmallPowers();
  }

  /** On 64-bit words the fold computes the parity of the number of one bits. */
  lemma FoldedParityCorrect(v: Vec)
    requires Below(v, 64)
    ensures FoldedParity(v) == (|v| % 2 == 1)
  {
    var a := Fold(v, 32);
    var b := Fold(a, 16);
    var c := Fold(b, 8);
    var d := Fold(c, 4);
    FoldParity(v, 32);
    FoldParity(a, 16);
    FoldParity(b, 8);
    FoldParity(c, 4);
    assert Truncate(v, 64) == v;
    NibbleTable(Truncate(d, 4));
  }
}
