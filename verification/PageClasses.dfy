/** Classes of cache lines: the per-page decomposition against recomputation from the full address. */
module PageClasses {
  import opened Gf2Vectors
  import opened Gf2Space
  import opened Arithmetic
  import opened Words
  import opened DramMapping

  /** Half the number of 64-bit words. */
  const HALF: nat := 0x8000_0000_0000_0000

  const CACHELINE_BYTES: nat := 64

  /** The bank class of a physical address, as the number the daemon computes. */
  function BankClassOf(masks: seq<Vec>, pa: nat): nat {
    Value(ClassOf(masks, Bits(pa)))
  }

  /** `pfn * page_size` in 64-bit arithmetic. */
  function PageBase(pfn: nat, pageSize: nat): nat {
    Wrap(pfn * pageSize)
  }

  /** The class by decomposition: the page's base class XOR the class of the offset in the page. */
  function DecomposedClass(masks: seq<Vec>, base: nat, offset: nat): nat {
    XorNum(BankClassOf(masks, base), BankClassOf(masks, offset))
  }

  /** The class recomputed from the whole physical address, in 64-bit arithmetic. */
  function RecomputedClass(masks: seq<Vec>, base: nat, offset: nat): nat {
    BankClassOf(masks, Wrap(base + offset))
  }

  lemma BankClassBelow(masks: seq<Vec>, pa: nat)
    ensures BankClassOf(masks, pa) < Pow2(|masks|)
  {
    ClassBelow(masks, Bits(pa));
  }

  /** The decomposed class is always inside the class space. */
  lemma DecomposedBelow(masks: seq<Vec>, base: nat, offset: nat)
    ensures DecomposedClass(masks, base, offset) < Pow2(|masks|)
  {
    BankClassBelow(masks, base);
    BankClassBelow(masks, offset);
    XorNumBelow(BankClassOf(masks, base), BankClassOf(masks, offset), |masks|);
  }

  lemma XorOfClasses(masks: seq<Vec>, a: Vec, b: Vec)
    ensures XorNum(Value(ClassOf(masks, a)), Value(ClassOf(masks, b))) == Value(ClassOf(masks, Xor(a, b)))
  {
    ClassLinear(masks, a, b);
    BitsOfValue(ClassOf(masks, a));
    BitsOfValue(ClassOf(masks, b));
  }

  /** Without carries and without wrapping both computations agree. */
  lemma AgreeWithoutCarry(masks: seq<Vec>, base: nat, offset: nat, sum: nat)
    requires sum == base + offset < LIMIT
    requires Bits(sum) == Bits(base) + Bits(offset) && Bits(base) !! Bits(offset)
    ensures DecomposedClass(masks, base, offset) == RecomputedClass(masks, base, offset)
  {
    XorOfClasses(masks, Bits(base), Bits(offset));
    assert Bits(sum) == Xor(Bits(base), Bits(offset));
    WrapSum(base, offset, sum);
  }

  lemma WrapSum(base: nat, offset: nat, sum: nat)
    requires sum == base + offset < LIMIT
    ensures Wrap(base + offset) == sum
  {
  }

  /** Wrapping a multiple of `d` modulo a multiple of `d` leaves a multiple of `d` with room for an offset. */
  lemma WrappedMultiple(pfn: nat, d: nat, k: nat) returns (m: nat)
    requires d > 0 && k > 0
    ensures (pfn * d) % (d * k) == d * m
    ensures d * m + d <= d * k
  {
    m := pfn % k;
    var q := Quotient(pfn, k);
    MulMonotone(d, m + 1, k);
    calc {
      pfn * d;
      (k * q + m) * d;
      k * q * d + m * d;
      q * (d * k) + d * m;
    }
    ModUnique(pfn * d, d * k, q, d * m);
  }

  /** Wrapping a multiple of `2^p` leaves a multiple of `2^p` with room for an offset. */
  lemma WrappedBase(pfn: nat, p: nat, pageSize: nat) returns (m: nat)
    requires p <= WIDTH && pageSize == Pow2(p)
    ensures PageBase(pfn, pageSize) == pageSize * m
    ensures pageSize * m + pageSize <= LIMIT
  {
    Pow2Add(p, WIDTH - p);
    WordCount();
    m := WrappedMultiple(pfn, pageSize, Pow2(WIDTH - p));
  }

  /** The page base has no bit in common with an offset in the page, even when `pfn * page_size` wraps. */
  lemma AgreeOnMultiple(masks: seq<Vec>, base: nat, m: nat, p: nat, offset: nat)
    requires base == Pow2(p) * m && offset < Pow2(p)
    requires base + offset < LIMIT
    ensures DecomposedClass(masks, base, offset) == RecomputedClass(masks, base, offset)
  {
    var sum := base + offset;
    BitsOfSum(m, p, base, offset, sum);
    AgreeWithoutCarry(masks, base, offset, sum);
  }

  /** For page sizes that are powers of two both computations agree on every offset of every page. */
  lemma DecompositionAgrees(masks: seq<Vec>, p: nat, pageSize: nat, pfn: nat, offset: nat)
    requires p <= WIDTH && pageSize == Pow2(p) && offset < pageSize
    ensures DecomposedClass(masks, PageBase(pfn, pageSize), offset)
            == RecomputedClass(masks, PageBase(pfn, pageSize), offset)
  {
    var m := WrappedBase(pfn, p, pageSize);
    AgreeOnMultiple(masks, PageBase(pfn, pageSize), m, p, offset);
  }

  // ----- Other page sizes

  /** What the offset table needs of a page size. */
  ghost predicate Decomposes(pageSize: nat) {
    forall masks: seq<Vec>, pfn: nat, offset: nat :: offset < pageSize && offset % CACHELINE_BYTES == 0 ==>
      DecomposedClass(masks, PageBase(pfn, pageSize), offset) == RecomputedClass(masks, PageBase(pfn, pageSize), offset)
  }

  lemma SingleMaskClass(t: nat, pa: nat)
    ensures BankClassOf([{t}], pa) == if t in Bits(pa) then 1 else 0
  {
    var masks: seq<Vec> := [{t}];
    DotSingle(Bits(pa), {t}, t);
    if t in Bits(pa) {
      assert ClassOf(masks, Bits(pa)) == {0};
      assert TopBit({0}) == 0 && {0} - {0} == {};
    } else {
      assert ClassOf(masks, Bits(pa)) == {};
    }
  }

  lemma TopOfNumber(n: nat, t: nat)
    requires Pow2(t) <= n < Pow2(t + 1)
    ensures t in Bits(n)
    ensures forall s :: s > t ==> s !in Bits(n)
  {
    BitsBelow(n, t);
    BitsBelow(n, t + 1);
  }

  /** The mask on bit `t + 1` does not see numbers whose highest bit is `t`. */
  lemma ClassBelowMask(t: nat, mask: Vec, n: nat)
    requires mask == {t + 1}
    requires Pow2(t) <= n < Pow2(t + 1)
    ensures BankClassOf([mask], n) == 0
  {
    TopOfNumber(n, t);
    SingleMaskClass(t + 1, n);
  }

  lemma ClassAtMask(t: nat, mask: Vec, n: nat)
    requires mask == {t}
    requires Pow2(t) <= n < Pow2(t + 1)
    ensures BankClassOf([mask], n) == 1
  {
    TopOfNumber(n, t);
    SingleMaskClass(t, n);
  }

  lemma DisagreeOnCarry(masks: seq<Vec>, base: nat, offset: nat, sum: nat)
    requires sum == base + offset < LIMIT
    requires BankClassOf(masks, base) == BankClassOf(masks, offset) == 0
    requires BankClassOf(masks, sum) == 1
    ensures DecomposedClass(masks, base, offset) != RecomputedClass(masks, base, offset)
  {
    WrapSum(base, offset, sum);
    XorZero();
  }

  lemma XorZero()
    ensures XorNum(0, 0) == 0
  {
    assert Xor(Bits(0), Bits(0)) == {};
  }

  lemma SmallBase(size: nat)
    requires size < HALF
    ensures PageBase(1, size) == size
  {
    WrapSmall(size);
  }

  /** The highest bit of a multiple of the line size is itself a multiple of it. */
  lemma TopOfMultiple(k: nat, size: nat) returns (t: nat)
    requires k > 0 && size == CACHELINE_BYTES * k
    ensures Pow2(t) <= size < Pow2(t + 1) && Pow2(t) % CACHELINE_BYTES == 0
  {
    t := Log2(k) + 6;
    ScaledPower(Log2(k), t);
  }

  lemma ScaledPower(s: nat, t: nat)
    requires t == s + 6
    ensures Pow2(t) == CACHELINE_BYTES * Pow2(s) && Pow2(t) % CACHELINE_BYTES == 0
  {
    assert Pow2(6) == 64 by {
      SmallPowers();
    }
    Pow2Add(s, 6);
  }

  /** A size that is not a power of two carries out of the offset at its highest bit, and the mask on the
      carry sees it. */
  lemma CarryWitness(size: nat, t: nat) returns (masks: seq<Vec>)
    requires Pow2(t) < size < Pow2(t + 1) && size < HALF
    ensures DecomposedClass(masks, PageBase(1, size), Pow2(t)) != RecomputedClass(masks, PageBase(1, size), Pow2(t))
  {
    var offset := Pow2(t);
    var sum := size + offset;
    var mask: Vec := {t + 1};
    masks := [mask];
    ClassBelowMask(t, mask, size);
    ClassBelowMask(t, mask, offset);
    ClassAtMask(t + 1, mask, sum);
    DisagreeOnCarry(masks, size, offset, sum);
    SmallBase(size);
  }

  lemma PowerBelowHalf(p: nat)
    requires Pow2(p) < HALF
    ensures p <= WIDTH
  {
    if p > WIDTH {
      WordCount();
      Pow2Monotone(WIDTH, p);
    }
  }

  /** Among the page sizes the harness accepts (multiples of the line size), the decomposition is right
      exactly for the powers of two. */
  lemma DecomposesIffPowerOfTwo(pageSize: nat)
    requires 0 < pageSize < HALF && pageSize % CACHELINE_BYTES == 0
    ensures Decomposes(pageSize) <==> exists p :: pageSize == Pow2(p)
  {
    if p :| pageSize == Pow2(p) {
      PowerBelowHalf(p);
      forall masks: seq<Vec>, pfn: nat, offset: nat | offset < pageSize && offset % CACHELINE_BYTES == 0
        ensures DecomposedClass(masks, PageBase(pfn, pageSize), offset)
                == RecomputedClass(masks, PageBase(pfn, pageSize), offset)
      {
        DecompositionAgrees(masks, p, pageSize, pfn, offset);
      }
    } else {
      var t := TopOfMultiple(pageSize / CACHELINE_BYTES, pageSize);
      var masks := CarryWitness(pageSize, t);
    }
  }
}
