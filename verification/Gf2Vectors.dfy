/** Vectors over GF(2): the masks and address differences of the calibrator.

A nonnegative integer of unbounded width is modelled by the set of positions of its one
bits (module Words proves the two forms equivalent).  Bitwise exclusive-or is then symmetric
difference, bitwise-and is intersection, and the parity of `x & y` is the GF(2) inner product.
 */
module Gf2Vectors {

  type Vec = set<nat>

  /** `x ^ y` */
  function Xor(x: Vec, y: Vec): Vec {
    (x - y) + (y - x)
  }

  /** `parity(x & y) == 1` */
  predicate Dot(x: Vec, y: Vec) {
    |x * y| % 2 == 1
  }

  /** `x < 2^n` */
  predicate Below(x: Vec, n: nat) {
    forall i :: i in x ==> i < n
  }

  /** The bits of `x` under `(1 << n) - 1`. */
  function Truncate(x: Vec, n: nat): Vec {
    set i | i in x && i < n
  }

  lemma PrefixNext(rows: seq<Vec>, n: nat)
    requires n < |rows|
    ensures rows[..n + 1] == rows[..n] + [rows[n]]
  {
  }

  lemma XorCancel(x: Vec, y: Vec)
    ensures Xor(Xor(x, y), y) == x
    ensures Xor(Xor(x, y), x) == y
    ensures Xor(x, Xor(x, y)) == y
  {
  }

  lemma XorZero(x: Vec)
    ensures Xor(x, {}) == Xor({}, x) == x
    ensures Xor(x, x) == {}
  {
  }

  lemma XorCommutes(x: Vec, y: Vec)
    ensures Xor(x, y) == Xor(y, x)
  {
  }

  lemma XorAssociates(x: Vec, y: Vec, z: Vec)
    ensures Xor(Xor(x, y), z) == Xor(x, Xor(y, z))
  {
  }

  lemma XorSwap(x: Vec, y: Vec, z: Vec)
    ensures Xor(Xor(x, y), z) == Xor(Xor(x, z), y)
  {
    XorAssociates(x, y, z);
    XorAssociates(x, z, y);
    XorCommutes(y, z);
  }

  lemma XorCard(x: Vec, y: Vec)
    ensures |Xor(x, y)| + 2 * |x * y| == |x| + |y|
  {
    assert x == (x - y) + (x * y);
    assert y == (y - x) + (x * y);
  }

  lemma XorParity(x: Vec, y: Vec)
    ensures |Xor(x, y)| % 2 == (|x| + |y|) % 2
  {
    XorCard(x, y);
    ParitySum(|Xor(x, y)|, |x * y|, |x| + |y|);
  }

  lemma ParitySum(n: nat, k: nat, sum: nat)
    requires n + 2 * k == sum
    ensures n % 2 == sum % 2
  {
  }

  lemma OddSum(n: nat, a: nat, b: nat)
    requires n % 2 == (a + b) % 2
    ensures n % 2 == 1 <==> (a % 2 == 1) != (b % 2 == 1)
  {
  }

  lemma MeetParity(x: Vec, y: Vec, z: Vec)
    ensures |Xor(x, y) * z| % 2 == (|x * z| + |y * z|) % 2
  {
    XorMeet(x, y, z);
    XorParity(x * z, y * z);
  }

  lemma XorMeet(x: Vec, y: Vec, z: Vec)
    ensures Xor(x, y) * z == Xor(x * z, y * z)
  {
    forall i
      ensures i in Xor(x, y) * z <==> i in Xor(x * z, y * z)
    {
    }
  }

  /** The inner product is linear in its first argument. */
  lemma DotXor(x: Vec, y: Vec, z: Vec)
    ensures Dot(Xor(x, y), z) == (Dot(x, z) != Dot(y, z))
  {
    MeetParity(x, y, z);
    OddSum(|Xor(x, y) * z|, |x * z|, |y * z|);
  }

  lemma DotSymmetric(x: Vec, y: Vec)
    ensures Dot(x, y) == Dot(y, x)
  {
    assert x * y == y * x;
  }

  lemma DotZero(x: Vec, y: Vec)
    requires y == {}
    ensures !Dot(x, y)
  {
    assert x * y == {};
  }

  /** The inner product is linear in its second argument. */
  lemma DotXorRight(x: Vec, y: Vec, z: Vec)
    ensures Dot(z, Xor(x, y)) == (Dot(z, x) != Dot(z, y))
  {
    DotSymmetric(x, z);
    DotSymmetric(y, z);
    DotSymmetric(Xor(x, y), z);
    DotXor(x, y, z);
  }

  /** The bits of one vector all lie in the other, so the inner product reads off its size. */
  lemma DotSingle(x: Vec, y: Vec, i: nat)
    requires x * y <= {i}
    ensures Dot(x, y) == (i in x && i in y)
  {
    if i in x && i in y {
      assert x * y == {i};
    } else {
      assert x * y == {};
    }
  }

  predicate IsTop(x: Vec, p: nat) {
    p in x && forall i :: i in x ==> i <= p
  }

  /** The highest position of a nonzero vector: one less than its bit length. */
  function TopBit(x: Vec): (p: nat)
    requires x != {}
    ensures p in x && forall i :: i in x ==> i <= p
  {
    TopBitExists(x);
    var p :| p in x && IsTop(x, p);
    p
  }

  lemma {:induction false} TopBitExists(x: Vec)
    requires x != {}
    ensures exists p :: IsTop(x, p)
  {
    var q :| q in x;
    var rest := x - {q};
    assert forall i :: i in x ==> i == q || i in rest;
    if rest == {} {
      assert IsTop(x, q);
    } else {
      TopBitExists(rest);
      var p :| IsTop(rest, p);
      assert IsTop(x, if p < q then q else p);
    }
  }

  /** `x.bit_length()` */
  function BitLength(x: Vec): nat {
    if x == {} then 0 else TopBit(x) + 1
  }
}
