/** The harness's Fisher-Yates shuffle, for every pseudorandom generator. */
module Shuffle {
  import opened Sorting

  /** A generator maps its state to the next state and an output. */
  type Generator = nat -> (nat, nat)

  /** A position below `size`. */
  function Draw(rng: Generator, state: nat, size: nat): (j: nat)
    requires size > 0
    ensures j < size
  {
    rng(state).1 % size
  }

  function SwapAt<T>(s: seq<T>, i: nat, j: nat): seq<T>
    requires i < |s| && j < |s|
  {
    s[i := s[j]][j := s[i]]
  }

  /** The exchanges from position `i` down to 1. */
  function ShuffleFrom<T>(rng: Generator, s: seq<T>, i: nat, state: nat): (t: seq<T>)
    requires i < |s|
    ensures |t| == |s|
    decreases i
  {
    if i == 0 then s else ShuffleFrom(rng, SwapAt(s, i, Draw(rng, state, i + 1)), i - 1, rng(state).0)
  }

  function Shuffled<T>(rng: Generator, s: seq<T>, seed: nat): (t: seq<T>)
    ensures |t| == |s|
  {
    if |s| < 2 then s else ShuffleFrom(rng, s, |s| - 1, seed)
  }

  lemma SwapPermutes<T>(s: seq<T>, i: nat, j: nat)
    requires i < |s| && j < |s|
    ensures multiset(SwapAt(s, i, j)) == multiset(s)
  {
  }

  lemma {:induction false} ShuffleFromPermutes<T>(rng: Generator, s: seq<T>, i: nat, state: nat)
    requires i < |s|
    ensures multiset(ShuffleFrom(rng, s, i, state)) == multiset(s)
    decreases i
  {
    if i > 0 {
      SwapPermutes(s, i, Draw(rng, state, i + 1));
      ShuffleFromPermutes(rng, SwapAt(s, i, Draw(rng, state, i + 1)), i - 1, rng(state).0);
    }
  }

  /** Whatever the seed, the result is a rearrangement. */
  lemma ShuffledPermutes<T>(rng: Generator, s: seq<T>, seed: nat)
    ensures multiset(Shuffled(rng, s, seed)) == multiset(s)
  {
    if |s| >= 2 {
      ShuffleFromPermutes(rng, s, |s| - 1, seed);
    }
  }

  lemma ShuffleStep<T>(rng: Generator, s: seq<T>, i: nat, state: nat, j: nat, next: nat)
    requires 0 < i < |s| && j == Draw(rng, state, i + 1) && next == rng(state).0
    ensures ShuffleFrom(rng, s, i, state) == ShuffleFrom(rng, SwapAt(s, i, j), i - 1, next)
  {
  }

  // ----- The shuffle as drawing from an urn

  /** The outputs of the generator from a seed: the first modulo `n`, the next modulo `n - 1` and so on down to 2. */
  function Draws(rng: Generator, seed: nat, n: nat): seq<nat>
    decreases n
  {
    if n < 2 then [] else [rng(seed).1 % n] + Draws(rng, rng(seed).0, n - 1)
  }

  /** A draw from each urn size from `n` down to 2. */
  ghost predicate AreDraws(draws: seq<nat>, n: nat) {
    && |draws| == (if n < 2 then 0 else n - 1)
    && forall k :: 0 <= k < |draws| ==> draws[k] < n - k
  }

  /** Empties an urn: each draw takes out the element at a position, and the last element moves into its place. The
      first element drawn comes last, and the one never drawn comes first. */
  function Drawn<T>(urn: seq<T>, draws: seq<nat>): (t: seq<T>)
    requires AreDraws(draws, |urn|)
    ensures |t| == |urn|
    decreases |urn|
  {
    if |urn| < 2 then urn
    else
      var n, j := |urn|, draws[0];
      Drawn(urn[j := urn[n - 1]][..n - 1], draws[1..]) + [urn[j]]
  }

  lemma {:induction false} DrawsAre(rng: Generator, seed: nat, n: nat)
    ensures AreDraws(Draws(rng, seed, n), n)
    decreases n
  {
    if n >= 2 {
      DrawsAre(rng, rng(seed).0, n - 1);
      var rest := Draws(rng, rng(seed).0, n - 1);
      assert forall k :: 0 < k <= |rest| ==> Draws(rng, seed, n)[k] == rest[k - 1];
    }
  }

  /** Positions beyond the exchanges do not matter and do not change. */
  lemma {:induction false} ShuffleFromFront<T>(rng: Generator, s: seq<T>, i: nat, state: nat, m: nat)
    requires i < m <= |s|
    ensures ShuffleFrom(rng, s, i, state) == ShuffleFrom(rng, s[..m], i, state) + s[m..]
    decreases i
  {
    if i == 0 {
      assert s == s[..m] + s[m..];
    } else {
      var j := Draw(rng, state, i + 1);
      ShuffleFromFront(rng, SwapAt(s, i, j), i - 1, rng(state).0, m);
      assert SwapAt(s, i, j)[..m] == SwapAt(s[..m], i, j);
      assert SwapAt(s, i, j)[m..] == s[m..];
    }
  }

  /** The exchanges empty the urn. */
  lemma {:induction false} ShuffledIsDrawn<T>(rng: Generator, s: seq<T>, seed: nat)
    ensures AreDraws(Draws(rng, seed, |s|), |s|)
    ensures Shuffled(rng, s, seed) == Drawn(s, Draws(rng, seed, |s|))
    decreases |s|
  {
    var n := |s|;
    DrawsAre(rng, seed, n);
    if n >= 2 {
      var j, next := rng(seed).1 % n, rng(seed).0;
      var swapped, rest := SwapAt(s, n - 1, j), s[j := s[n - 1]][..n - 1];
      assert swapped[..n - 1] == rest && swapped[n - 1..] == [s[j]];
      assert Draws(rng, seed, n)[1..] == Draws(rng, next, n - 1);
      ShuffleFromFront(rng, swapped, n - 2, next, n - 1);
      ShuffledIsDrawn(rng, rest, next);
    }
  }

  /** The first output decides which element comes last. */
  lemma LastDrawn<T>(rng: Generator, s: seq<T>, seed: nat)
    requires |s| >= 2
    ensures Shuffled(rng, s, seed)[|s| - 1] == s[rng(seed).1 % |s|]
  {
    ShuffledIsDrawn(rng, s, seed);
    DrawsAre(rng, seed, |s|);
  }

  /** What is left in the urn. */
  lemma RestPermutes<T>(urn: seq<T>, j: nat)
    requires j < |urn|
    ensures multiset(urn[j := urn[|urn| - 1]][..|urn| - 1]) + multiset{urn[j]} == multiset(urn)
  {
    var n := |urn|;
    var rest := urn[j := urn[n - 1]][..n - 1];
    var swapped := SwapAt(urn, n - 1, j);
    assert swapped == rest + [urn[j]];
    SwapPermutes(urn, n - 1, j);
  }

  lemma {:induction false} DrawnPermutes<T>(urn: seq<T>, draws: seq<nat>)
    requires AreDraws(draws, |urn|)
    ensures multiset(Drawn(urn, draws)) == multiset(urn)
    decreases |urn|
  {
    if |urn| >= 2 {
      var n, j := |urn|, draws[0];
      DrawnPermutes(urn[j := urn[n - 1]][..n - 1], draws[1..]);
      RestPermutes(urn, j);
    }
  }

  lemma RestDistinct<T>(urn: seq<T>, j: nat)
    requires j < |urn| && Distinct(urn)
    ensures Distinct(urn[j := urn[|urn| - 1]][..|urn| - 1])
  {
  }

  /** The last element is somewhere in the urn, and the others rearrange what is left without it. */
  lemma LastInUrn<T>(urn: seq<T>, t: seq<T>) returns (j: nat)
    requires multiset(t) == multiset(urn) && |t| == |urn| > 0
    ensures j < |urn| && urn[j] == t[|t| - 1]
    ensures multiset(t[..|t| - 1]) == multiset(urn[j := urn[|urn| - 1]][..|urn| - 1])
  {
    var n := |urn|;
    var last := t[n - 1];
    assert last in multiset(t);
    j :| 0 <= j < n && urn[j] == last;
    RestPermutes(urn, j);
    assert t == t[..n - 1] + [last];
    assert multiset(t[..n - 1]) == multiset(t) - multiset{last};
  }

  /** Every rearrangement is drawn. */
  lemma {:induction false} EveryOrderDrawn<T>(urn: seq<T>, t: seq<T>) returns (draws: seq<nat>)
    requires multiset(t) == multiset(urn)
    ensures AreDraws(draws, |urn|) && Drawn(urn, draws) == t
    decreases |urn|
  {
    SizeOfSame(urn, t);
    if |urn| < 2 {
      draws := [];
      SameSmall(urn, t);
    } else {
      var j := LastInUrn(urn, t);
      var rest := EveryOrderDrawn(urn[j := urn[|urn| - 1]][..|urn| - 1], t[..|urn| - 1]);
      draws := [j] + rest;
      assert draws[1..] == rest;
    }
  }

  lemma SameSmall<T>(s: seq<T>, t: seq<T>)
    requires multiset(s) == multiset(t) && |s| == |t| < 2
    ensures s == t
  {
    if |t| == 1 {
      assert t[0] in multiset(s);
    }
  }

  lemma SizeOfSame<T>(s: seq<T>, t: seq<T>)
    requires multiset(s) == multiset(t)
    ensures |s| == |t|
  {
    assert |multiset(s)| == |s| && |multiset(t)| == |t|;
  }

  /** Different draws give different orders of different elements. */
  lemma {:induction false} DrawnOnce<T>(urn: seq<T>, draws: seq<nat>, draws': seq<nat>)
    requires Distinct(urn) && AreDraws(draws, |urn|) && AreDraws(draws', |urn|)
    requires Drawn(urn, draws) == Drawn(urn, draws')
    ensures draws == draws'
    decreases |urn|
  {
    if |urn| >= 2 {
      var n, j := |urn|, draws[0];
      var rest := urn[j := urn[n - 1]][..n - 1];
      assert urn[j] == Drawn(urn, draws)[n - 1] == Drawn(urn, draws')[n - 1] == urn[draws'[0]];
      assert draws'[0] == j;
      RestDistinct(urn, j);
      assert Drawn(rest, draws[1..]) == Drawn(urn, draws)[..n - 1];
      assert Drawn(rest, draws'[1..]) == Drawn(urn, draws')[..n - 1];
      DrawnOnce(rest, draws[1..], draws'[1..]);
      assert draws == [j] + draws[1..] && draws' == [j] + draws'[1..];
    }
  }

  /** The generator that gives these outputs from seed 0. */
  function Replay(draws: seq<nat>): Generator {
    (k: nat) => (k + 1, if k < |draws| then draws[k] else 0)
  }

  lemma {:induction false} ReplayDraws(draws: seq<nat>, n: nat, k: nat)
    requires AreDraws(draws, n) && k <= |draws|
    ensures Draws(Replay(draws), k, n - k) == draws[k..]
    decreases |draws| - k
  {
    if k < |draws| {
      ReplayDraws(draws, n, k + 1);
      SmallMod(draws[k], n - k);
      assert draws[k..] == [draws[k]] + draws[k + 1..];
    }
  }

  lemma SmallMod(x: nat, n: nat)
    requires x < n
    ensures x % n == x
  {
  }

  /** No order is out of reach: every rearrangement is the shuffle of some generator. */
  lemma EveryOrderShuffled<T>(s: seq<T>, t: seq<T>) returns (rng: Generator)
    requires multiset(t) == multiset(s)
    ensures Shuffled(rng, s, 0) == t
  {
    var draws := EveryOrderDrawn(s, t);
    rng := Replay(draws);
    ReplayDraws(draws, |s|, 0);
    ShuffledIsDrawn(rng, s, 0);
  }

  method ShuffleInPlace<T>(rng: Generator, values: array<T>, seed: nat)
    modifies values
    ensures values[..] == Shuffled(rng, old(values[..]), seed)
    ensures AreDraws(Draws(rng, seed, values.Length), values.Length)
    ensures values[..] == Drawn(old(values[..]), Draws(rng, seed, values.Length))
    ensures multiset(values[..]) == multiset(old(values[..]))
  {
    ShuffledIsDrawn(rng, values[..], seed);
    ghost var target := Shuffled(rng, values[..], seed);
    ShuffledPermutes(rng, values[..], seed);
    if values.Length < 2 {
      return;
    }
    var state := seed;
    var i := values.Length - 1;
    while i > 0
      invariant 0 <= i < values.Length
      invariant ShuffleFrom(rng, values[..], i, state) == target
    {
      var j := Draw(rng, state, i + 1);
      ShuffleStep(rng, values[..], i, state, j, rng(state).0);
      Exchange(values, i, j);
      state := rng(state).0;
      i := i - 1;
    }
  }

  method Exchange<T>(values: array<T>, i: nat, j: nat)
    requires i < values.Length && j < values.Length
    modifies values
    ensures values[..] == SwapAt(old(values[..]), i, j)
  {
    values[i], values[j] := values[j], values[i];
  }

  // ----- Permutations of an initial segment

  function Identity(n: nat): seq<nat> {
    seq(n, i requires 0 <= i < n => i)
  }

  /** Every number below `n` occurs exactly once. */
  ghost predicate IsPermutation(p: seq<nat>, n: nat) {
    && |p| == n && Distinct(p)
    && (forall i :: 0 <= i < n ==> p[i] < n)
    && (forall k: nat :: k < n ==> k in p)
  }

  /** The order made from the identity by any seed is a permutation. */
  lemma ShuffledIdentity(rng: Generator, n: nat, seed: nat)
    ensures IsPermutation(Shuffled(rng, Identity(n), seed), n)
  {
    var id, p := Identity(n), Shuffled(rng, Identity(n), seed);
    ShuffledPermutes(rng, id, seed);
    DistinctPermuted(id, p);
    forall i | 0 <= i < n
      ensures p[i] < n
    {
      assert p[i] in multiset(p);
      assert p[i] in id;
    }
    forall k: nat | k < n
      ensures k in p
    {
      assert id[k] == k;
      assert k in multiset(id);
    }
  }

  /** `make_permutation`, and the visiting orders of the collector. */
  method ShuffledOrder(rng: Generator, n: nat, seed: nat) returns (order: array<nat>)
    ensures fresh(order) && order[..] == Shuffled(rng, Identity(n), seed)
    ensures IsPermutation(order[..], n)
  {
    order := new nat[n];
    for i := 0 to n
      invariant forall k :: 0 <= k < i ==> order[k] == k
    {
      order[i] := i;
    }
    assert order[..] == Identity(n);
    ShuffleInPlace(rng, order, seed);
    ShuffledIdentity(rng, n, seed);
  }
}
