/** Pointer chains threaded through the selected cache lines. */
module Chains {
  import opened Sorting
  import opened Shuffle
  import opened Arithmetic

  /** The words stored at the start of the lines. */
  class Memory {
    var words: map<nat, nat>

    constructor ()
      ensures words == map[]
    {
      words := map[];
    }

    method Store(address: nat, value: nat)
      modifies this
      ensures words == old(words)[address := value]
    {
      words := words[address := value];
    }
  }

  // ----- Positions of a stream

  /** The position after `i` in its stream: `streams` further on, or back at the start of the stream. */
  function Next(i: nat, streams: nat, n: nat): nat
    requires streams > 0
  {
    if i + streams < n then i + streams else Residue(i, streams)
  }

  /** The positions `i`, `i + streams`, ... below `n`. */
  function Orbit(i: nat, streams: nat, n: nat): seq<nat>
    requires streams > 0
    decreases n - i
  {
    if i >= n then [] else [i] + Orbit(i + streams, streams, n)
  }

  /** The orbit of a stream holds exactly the positions congruent to its start. */
  lemma {:induction false} OrbitMembers(i: nat, streams: nat, n: nat, p: nat)
    requires streams > 0
    ensures p in Orbit(i, streams, n) <==> i <= p < n && Residue(p, streams) == Residue(i, streams)
    decreases n - i
  {
    if i < n {
      OrbitMembers(i + streams, streams, n, p);
      if i < p < i + streams {
        ResidueApart(i, p, streams);
      }
    }
  }

  lemma {:induction false} OrbitIncreasing(i: nat, streams: nat, n: nat)
    requires streams > 0
    ensures forall j :: 0 <= j < |Orbit(i, streams, n)| ==> i <= Orbit(i, streams, n)[j] < n
    ensures Distinct(Orbit(i, streams, n))
    decreases n - i
  {
    if i < n {
      OrbitIncreasing(i + streams, streams, n);
    }
  }

  /** Following `Next` walks along the orbit and leaves it for the start of the stream. */
  lemma {:induction false} OrbitNext(i: nat, streams: nat, n: nat, j: nat)
    requires streams > 0 && j < |Orbit(i, streams, n)|
    ensures var o := Orbit(i, streams, n);
            Next(o[j], streams, n) == if j + 1 < |o| then o[j + 1] else Residue(i, streams)
    decreases n - i
  {
    var rest := Orbit(i + streams, streams, n);
    if j > 0 {
      OrbitNext(i + streams, streams, n, j - 1);
    } else if i + streams < n {
      assert rest[0] == i + streams;
    }
  }

  // ----- Chains in memory

  /** Every line points to the next line of its stream. */
  ghost predicate Linked(words: map<nat, nat>, lines: seq<nat>, streams: nat)
    requires streams > 0
  {
    forall i :: 0 <= i < |lines| ==>
        Next(i, streams, |lines|) < |lines| && lines[i] in words && words[lines[i]] == lines[Next(i, streams, |lines|)]
  }

  /** Follows `k` pointers. */
  ghost function Walk(words: map<nat, nat>, address: nat, k: nat): nat {
    if k == 0 then address
    else
      var a := Walk(words, address, k - 1);
      if a in words then words[a] else 0
  }

  /** From its root a stream walks through exactly its own lines, each once, and comes back. */
  lemma {:induction false} WalkOrbit(words: map<nat, nat>, lines: seq<nat>, streams: nat, s: nat, o: seq<nat>, k: nat)
    requires 0 < streams <= |lines| && Linked(words, lines, streams) && s < streams
    requires o == Orbit(s, streams, |lines|) && k <= |o|
    requires forall j :: 0 <= j < |o| ==> o[j] < |lines|
    ensures Walk(words, lines[s], k) == if k < |o| then lines[o[k]] else lines[s]
  {
    if k > 0 {
      WalkOrbit(words, lines, streams, s, o, k - 1);
      OrbitNext(s, streams, |lines|, k - 1);
      assert Residue(s, streams) == s;
      assert words[lines[o[k - 1]]] == lines[Next(o[k - 1], streams, |lines|)];
    }
  }

  /** The lines of stream `s`, in the order its pointers visit them. */
  ghost function StreamLines(lines: seq<nat>, streams: nat, s: nat): seq<nat>
    requires streams > 0
  {
    OrbitIncreasing(s, streams, |lines|);
    var o := Orbit(s, streams, |lines|);
    seq(|o|, j requires 0 <= j < |o| => lines[o[j]])
  }

  /** The chains are disjoint cycles that share out all lines: stream `s` is a cycle from its root through the
      positions congruent to `s`, without repetition, and a line lies on the cycle of its position's residue alone. */
  lemma ChainsAreDisjointCycles(words: map<nat, nat>, lines: seq<nat>, streams: nat, s: nat)
    requires 0 < streams <= |lines| && Linked(words, lines, streams) && Distinct(lines) && s < streams
    ensures var cycle := StreamLines(lines, streams, s);
            && |cycle| > 0 && Distinct(cycle)
            && (forall k :: 0 <= k < |cycle| ==> Walk(words, lines[s], k) == cycle[k])
            && Walk(words, lines[s], |cycle|) == lines[s]
            && (forall i :: 0 <= i < |lines| ==> (lines[i] in cycle <==> Residue(i, streams) == s))
  {
    var cycle := StreamLines(lines, streams, s);
    StreamDistinct(lines, streams, s);
    forall k | 0 <= k <= |cycle|
      ensures Walk(words, lines[s], k) == if k < |cycle| then cycle[k] else lines[s]
    {
      WalkStream(words, lines, streams, s, k);
    }
    forall i | 0 <= i < |lines|
      ensures lines[i] in cycle <==> Residue(i, streams) == s
    {
      StreamMembers(lines, streams, s, i);
    }
  }

  lemma StreamDistinct(lines: seq<nat>, streams: nat, s: nat)
    requires 0 < streams && Distinct(lines) && s < |lines|
    ensures |StreamLines(lines, streams, s)| > 0 && Distinct(StreamLines(lines, streams, s))
  {
    OrbitIncreasing(s, streams, |lines|);
  }

  lemma WalkStream(words: map<nat, nat>, lines: seq<nat>, streams: nat, s: nat, k: nat)
    requires 0 < streams <= |lines| && Linked(words, lines, streams) && s < streams
    requires k <= |StreamLines(lines, streams, s)|
    ensures var cycle := StreamLines(lines, streams, s);
            Walk(words, lines[s], k) == if k < |cycle| then cycle[k] else lines[s]
  {
    OrbitIncreasing(s, streams, |lines|);
    WalkOrbit(words, lines, streams, s, Orbit(s, streams, |lines|), k);
  }

  lemma StreamMembers(lines: seq<nat>, streams: nat, s: nat, i: nat)
    requires 0 < streams && Distinct(lines) && s < streams && i < |lines|
    ensures lines[i] in StreamLines(lines, streams, s) <==> Residue(i, streams) == s
  {
    var o, cycle := Orbit(s, streams, |lines|), StreamLines(lines, streams, s);
    OrbitIncreasing(s, streams, |lines|);
    OrbitMembers(s, streams, |lines|, i);
    assert Residue(s, streams) == s;
    if i in o {
      var j :| 0 <= j < |o| && o[j] == i;
      assert cycle[j] == lines[i];
    }
    if lines[i] in cycle {
      var j :| 0 <= j < |cycle| && cycle[j] == lines[i];
      assert o[j] == i;
    }
  }

  // ----- Building the chains

  /** The lines in the order of a permutation. */
  function Permuted(addresses: seq<nat>, permutation: seq<nat>): seq<nat>
    requires |permutation| == |addresses| && forall i :: 0 <= i < |permutation| ==> permutation[i] < |addresses|
  {
    seq(|permutation|, i requires 0 <= i < |permutation| => addresses[permutation[i]])
  }

  /** Permuting distinct lines keeps them distinct and loses none. */
  lemma PermutedLines(addresses: seq<nat>, permutation: seq<nat>)
    requires IsPermutation(permutation, |addresses|) && Distinct(addresses)
    ensures Distinct(Permuted(addresses, permutation))
    ensures forall a :: a in addresses <==> a in Permuted(addresses, permutation)
  {
    var lines := Permuted(addresses, permutation);
    forall a | a in addresses
      ensures a in lines
    {
      var i: nat :| i < |addresses| && addresses[i] == a;
      assert i in permutation;
      var j :| 0 <= j < |permutation| && permutation[j] == i;
      assert lines[j] == a;
    }
    forall i, j | 0 <= i < j < |lines|
      ensures lines[i] != lines[j]
    {
      assert permutation[i] != permutation[j];
    }
  }

  /** The links of the streams before `stream`, and of `stream` itself up to position `upto`. */
  ghost predicate LinkedUpTo(words: map<nat, nat>, lines: seq<nat>, streams: nat, stream: nat, upto: nat)
    requires streams > 0
  {
    forall i :: 0 <= i < |lines| && (Residue(i, streams) < stream || (Residue(i, streams) == stream && i < upto)) ==>
      Next(i, streams, |lines|) < |lines| && lines[i] in words && words[lines[i]] == lines[Next(i, streams, |lines|)]
  }

  ghost predicate SameOutside(words: map<nat, nat>, before: map<nat, nat>, lines: seq<nat>) {
    forall a :: a !in lines ==> (a in words <==> a in before) && (a in words && a in before ==> words[a] == before[a])
  }

  lemma LinkStep(words: map<nat, nat>, lines: seq<nat>, streams: nat, stream: nat, at: nat)
    requires 0 < streams && at < |lines| && Residue(at, streams) == stream && Distinct(lines)
    requires Next(at, streams, |lines|) < |lines|
    requires LinkedUpTo(words, lines, streams, stream, at)
    ensures LinkedUpTo(words[lines[at] := lines[Next(at, streams, |lines|)]], lines, streams, stream, at + streams)
  {
    forall i | 0 <= i < |lines| && Residue(i, streams) == stream && at < i < at + streams
      ensures false
    {
      ResidueApart(at, i, streams);
    }
    assert forall i :: 0 <= i < |lines| && i != at ==> lines[i] != lines[at];
  }

  /** One pointer of a stream has been written; nothing else changed. */
  lemma LinkStore(words: map<nat, nat>, before: map<nat, nat>, lines: seq<nat>, streams: nat, stream: nat, at: nat,
      previous: nat, target: nat)
    requires 0 < streams && at < |lines| && Residue(at, streams) == stream && Distinct(lines)
    requires previous == lines[at] && Next(at, streams, |lines|) < |lines|
             && target == lines[Next(at, streams, |lines|)]
    requires LinkedUpTo(words, lines, streams, stream, at) && SameOutside(words, before, lines)
    ensures LinkedUpTo(words[previous := target], lines, streams, stream, at + streams)
    ensures SameOutside(words[previous := target], before, lines)
  {
    LinkStep(words, lines, streams, stream, at);
    StoreOutside(words, before, lines, at, target);
  }

  lemma NextHere(at: nat, streams: nat, n: nat, position: nat)
    requires streams > 0 && position == at + streams < n
    ensures Next(at, streams, n) == position && Residue(position, streams) == Residue(at, streams)
  {
  }

  /** Threads the cycle of one stream. */
  method BuildStream(
    memory: Memory, addresses: seq<nat>, permutation: seq<nat>, streams: nat, stream: nat, ghost lines: seq<nat>,
    ghost before: map<nat, nat>)
    returns (first: nat)
    requires |permutation| == |addresses| && forall i :: 0 <= i < |permutation| ==> permutation[i] < |addresses|
    requires lines == Permuted(addresses, permutation) && Distinct(lines)
    requires stream < streams <= |lines|
    requires LinkedUpTo(memory.words, lines, streams, stream, 0) && SameOutside(memory.words, before, lines)
    modifies memory
    ensures first == lines[stream]
    ensures LinkedUpTo(memory.words, lines, streams, stream + 1, 0) && SameOutside(memory.words, before, lines)
  {
    first := addresses[permutation[stream]];
    var previous := first;
    ghost var at: nat := stream;
    var position := stream + streams;
    StartOfStream(memory.words, lines, streams, stream);
    while position < |addresses|
      invariant position == at + streams && at < |lines| && Residue(at, streams) == stream
      invariant previous == lines[at]
      invariant LinkedUpTo(memory.words, lines, streams, stream, at) && SameOutside(memory.words, before, lines)
    {
      var current := addresses[permutation[position]];
      NextHere(at, streams, |lines|, position);
      assert current == lines[position];
      LinkStore(memory.words, before, lines, streams, stream, at, previous, current);
      memory.Store(previous, current);
      previous := current;
      at := position;
      position := position + streams;
    }
    LinkStore(memory.words, before, lines, streams, stream, at, previous, first);
    memory.Store(previous, first);
    EndOfStream(memory.words, lines, streams, stream, at + streams);
  }

  lemma StoreOutside(words: map<nat, nat>, before: map<nat, nat>, lines: seq<nat>, at: nat, value: nat)
    requires at < |lines| && SameOutside(words, before, lines)
    ensures SameOutside(words[lines[at] := value], before, lines)
  {
  }

  lemma SameOutsidePermuted(words: map<nat, nat>, before: map<nat, nat>, addresses: seq<nat>, lines: seq<nat>)
    requires SameOutside(words, before, lines) && forall a :: a in addresses <==> a in lines
    ensures SameOutside(words, before, addresses)
  {
  }

  /** Threads one cycle per residue of the position modulo the stream count, and returns their roots. */
  method BuildMultiChain(memory: Memory, addresses: seq<nat>, permutation: seq<nat>, streams: nat)
    returns (ok: bool, roots: seq<nat>)
    requires Distinct(addresses) && IsPermutation(permutation, |addresses|)
    modifies memory
    ensures ok <==> 0 < streams <= |addresses|
    ensures !ok ==> memory.words == old(memory.words)
    ensures ok ==>
              && Linked(memory.words, Permuted(addresses, permutation), streams)
              && roots == Permuted(addresses, permutation)[..streams]
    ensures SameOutside(memory.words, old(memory.words), addresses)
  {
    roots := [];
    if streams == 0 || |addresses| < streams {
      return false, roots;
    }
    ghost var lines, before := Permuted(addresses, permutation), memory.words;
    PermutedLines(addresses, permutation);
    NothingLinked(memory.words, lines, streams);
    ok := true;
    for stream := 0 to streams
      invariant roots == lines[..stream]
      invariant LinkedUpTo(memory.words, lines, streams, stream, 0) && SameOutside(memory.words, before, lines)
    {
      var first := BuildStream(memory, addresses, permutation, streams, stream, lines, before);
      roots := roots + [first];
    }
    AllLinked(memory.words, lines, streams);
    SameOutsidePermuted(memory.words, before, addresses, lines);
  }

  lemma NothingLinked(words: map<nat, nat>, lines: seq<nat>, streams: nat)
    requires streams > 0
    ensures LinkedUpTo(words, lines, streams, 0, 0) && SameOutside(words, words, lines)
  {
  }

  lemma AllLinked(words: map<nat, nat>, lines: seq<nat>, streams: nat)
    requires 0 < streams <= |lines| && LinkedUpTo(words, lines, streams, streams, 0)
    ensures Linked(words, lines, streams)
  {
  }

  /** Nothing of a stream lies before its start. */
  lemma StartOfStream(words: map<nat, nat>, lines: seq<nat>, streams: nat, stream: nat)
    requires 0 < streams && LinkedUpTo(words, lines, streams, stream, 0)
    ensures LinkedUpTo(words, lines, streams, stream, stream)
  {
  }

  lemma EndOfStream(words: map<nat, nat>, lines: seq<nat>, streams: nat, stream: nat, upto: nat)
    requires 0 < streams && LinkedUpTo(words, lines, streams, stream, upto) && upto >= |lines|
    ensures LinkedUpTo(words, lines, streams, stream + 1, 0)
  {
  }

  /** One cycle through all lines. */
  method BuildSingleChain(memory: Memory, addresses: seq<nat>, permutation: seq<nat>) returns (ok: bool, root: nat)
    requires Distinct(addresses) && IsPermutation(permutation, |addresses|)
    modifies memory
    ensures ok <==> addresses != []
    ensures !ok ==> memory.words == old(memory.words)
    ensures ok ==>
              && Linked(memory.words, Permuted(addresses, permutation), 1)
              && root == Permuted(addresses, permutation)[0]
    ensures SameOutside(memory.words, old(memory.words), addresses)
  {
    if |addresses| == 0 {
      return false, 0;
    }
    var n := |addresses|;
    ghost var lines := Permuted(addresses, permutation);
    PermutedLines(addresses, permutation);
    for i := 0 to n
      invariant RingUpTo(memory.words, lines, i)
      invariant SameOutside(memory.words, old(memory.words), lines)
    {
      var current := addresses[permutation[i]];
      RingNext(i, n);
      var next := addresses[permutation[(i + 1) % n]];
      RingStep(memory.words, lines, i);
      StoreOutside(memory.words, old(memory.words), lines, i, next);
      memory.Store(current, next);
    }
    SameOutsidePermuted(memory.words, old(memory.words), addresses, lines);
    ok, root := true, addresses[permutation[0]];
  }

  lemma RingNext(i: nat, n: nat)
    requires i < n
    ensures (i + 1) % n == Next(i, 1, n) < n
  {
    if i + 1 == n {
      ModUnique(n, n, 1, 0);
    } else {
      ModUnique(i + 1, n, 0, i + 1);
    }
  }

  ghost predicate RingUpTo(words: map<nat, nat>, lines: seq<nat>, upto: nat) {
    forall k :: 0 <= k < |lines| && k < upto ==>
      Next(k, 1, |lines|) < |lines| && lines[k] in words && words[lines[k]] == lines[Next(k, 1, |lines|)]
  }

  lemma RingStep(words: map<nat, nat>, lines: seq<nat>, i: nat)
    requires i < |lines| && Distinct(lines) && Next(i, 1, |lines|) < |lines| && RingUpTo(words, lines, i)
    ensures RingUpTo(words[lines[i] := lines[Next(i, 1, |lines|)]], lines, i + 1)
  {
    assert forall k :: 0 <= k < |lines| && k != i ==> lines[k] != lines[i];
  }

  /** The single chain visits every line once before it returns to its root. */
  lemma SingleChainCoversAll(words: map<nat, nat>, addresses: seq<nat>, permutation: seq<nat>)
    requires Distinct(addresses) && IsPermutation(permutation, |addresses|) && addresses != []
    requires Linked(words, Permuted(addresses, permutation), 1)
    ensures var root := Permuted(addresses, permutation)[0];
            var cycle := StreamLines(Permuted(addresses, permutation), 1, 0);
            && Distinct(cycle) && (forall a :: a in addresses ==> a in cycle)
            && (forall k :: 0 <= k < |cycle| ==> Walk(words, root, k) == cycle[k])
            && Walk(words, root, |cycle|) == root
  {
    var lines := Permuted(addresses, permutation);
    PermutedLines(addresses, permutation);
    ChainsAreDisjointCycles(words, lines, 1, 0);
    forall a | a in addresses
      ensures a in StreamLines(lines, 1, 0)
    {
      var i :| 0 <= i < |lines| && lines[i] == a;
      assert Residue(i, 1) == 0;
    }
  }

  /** A single chain is a ring: from the first line, the lines follow in order, and after the last comes the first. */
  lemma {:induction false} RingWalk(words: map<nat, nat>, lines: seq<nat>, k: nat)
    requires lines != [] && Linked(words, lines, 1) && k <= |lines|
    ensures Walk(words, lines[0], k) == if k < |lines| then lines[k] else lines[0]
  {
    if k > 0 {
      RingWalk(words, lines, k - 1);
      RingNext(k - 1, |lines|);
      assert Next(k - 1, 1, |lines|) == if k < |lines| then k else 0;
    }
  }
}
