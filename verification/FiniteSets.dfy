/** Facts about finite sets. */
module FiniteSets {

  lemma AnyOf<T>(s: set<T>) returns (x: T)
    requires s != {}
    ensures x in s
  {
    x :| x in s;
  }

  lemma SubsetCount<T>(a: set<T>, b: set<T>)
    requires a <= b
    ensures |a| <= |b|
  {
    assert b == a + (b - a);
  }

  // ----- Elements that pass a test

  /** The positions of the elements that pass a test. */
  ghost function Passing<T>(s: seq<T>, test: T -> bool): set<int> {
    set i | 0 <= i < |s| && test(s[i])
  }

  lemma PassingStep<T>(s: seq<T>, n: nat, test: T -> bool)
    requires n < |s|
    ensures |Passing(s[..n + 1], test)| == |Passing(s[..n], test)| + if test(s[n]) then 1 else 0
  {
    PassingNext(s, n, test);
    assert n !in Passing(s[..n], test);
  }

  lemma PassingNext<T>(s: seq<T>, n: nat, test: T -> bool)
    requires n < |s|
    ensures Passing(s[..n + 1], test) == Passing(s[..n], test) + if test(s[n]) then {n} else {}
  {
  }

  // ----- Sums over finite sets

  ghost function SetSum(s: set<nat>, f: nat -> nat): nat {
    if s == {} then 0
    else
      var x :| x in s;
      f(x) + SetSum(s - {x}, f)
  }

  lemma {:induction false} SetSumAdd(s: set<nat>, x: nat, f: nat -> nat)
    requires x !in s
    ensures SetSum(s + {x}, f) == SetSum(s, f) + f(x)
    decreases |s|
  {
    var t := s + {x};
    var y :| y in t && SetSum(t, f) == f(y) + SetSum(t - {y}, f);
    if y == x {
      assert t - {y} == s;
    } else {
      assert t - {y} == (s - {y}) + {x};
      assert (s - {y}) + {y} == s;
      SetSumAdd(s - {y}, x, f);
      SetSumAdd(s - {y}, y, f);
    }
  }

  lemma {:induction false} SetSumCongruent(s: set<nat>, f: nat -> nat, g: nat -> nat)
    requires forall x :: x in s ==> f(x) == g(x)
    ensures SetSum(s, f) == SetSum(s, g)
  {
    if s != {} {
      var x := AnyOf(s);
      SetSumCongruent(s - {x}, f, g);
      assert s == (s - {x}) + {x};
      SetSumAdd(s - {x}, x, f);
      SetSumAdd(s - {x}, x, g);
    }
  }

  lemma {:induction false} SetSumPlus(s: set<nat>, f: nat -> nat, g: nat -> nat, h: nat -> nat)
    requires forall x :: x in s ==> h(x) == f(x) + g(x)
    ensures SetSum(s, h) == SetSum(s, f) + SetSum(s, g)
  {
    if s != {} {
      var x := AnyOf(s);
      SetSumPlus(s - {x}, f, g, h);
      assert s == (s - {x}) + {x};
      SetSumAdd(s - {x}, x, f);
      SetSumAdd(s - {x}, x, g);
      SetSumAdd(s - {x}, x, h);
    }
  }

  /** Elements on which the function vanishes do not matter. */
  lemma {:induction false} SetSumWithin(s: set<nat>, t: set<nat>, f: nat -> nat)
    requires s <= t && forall x :: x in t && x !in s ==> f(x) == 0
    ensures SetSum(t, f) == SetSum(s, f)
    decreases |t|
  {
    if s != t {
      assert t - s != {} by {
        var x :| x in t && x !in s;
        assert x in t - s;
      }
      var x := AnyOf(t - s);
      SetSumWithin(s, t - {x}, f);
      assert t == (t - {x}) + {x};
      SetSumAdd(t - {x}, x, f);
    }
  }

  /** Of two functions of which one is nowhere less, the sums agree only if the functions do. */
  lemma {:induction false} SetSumDominates(s: set<nat>, f: nat -> nat, g: nat -> nat)
    requires forall x :: x in s ==> f(x) <= g(x)
    ensures SetSum(s, f) <= SetSum(s, g)
    ensures SetSum(s, f) == SetSum(s, g) <==> forall x :: x in s ==> f(x) == g(x)
  {
    if s != {} {
      var x := AnyOf(s);
      SetSumDominates(s - {x}, f, g);
      assert s == (s - {x}) + {x};
      SetSumAdd(s - {x}, x, f);
      SetSumAdd(s - {x}, x, g);
      assert forall y :: y in s <==> y in s - {x} || y == x;
    }
  }
}
