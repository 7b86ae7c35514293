/** Sums of a per-element measure over a sequence, and selections from it. */
module Tallies {
  import opened Bytes

  function Tally<T>(s: seq<T>, f: T -> nat): (n: nat)
  {
    if s == [] then 0 else Tally(s[..|s| - 1], f) + f(s[|s| - 1])
  }

  lemma {:induction false} TallyUpdate<T>(s: seq<T>, i: nat, x: T, f: T -> nat)
    requires i < |s|
    ensures Tally(s[i := x], f) + f(s[i]) == Tally(s, f) + f(x)
  {
    var n := |s| - 1;
    if i < n {
      TallyUpdate(s[..n], i, x, f);
      assert s[i := x][..n] == s[..n][i := x];
    } else {
      assert s[i := x][..n] == s[..n];
    }
  }

  lemma TallyMore<T>(s: seq<T>, x: T, f: T -> nat)
    ensures Tally(s + [x], f) == Tally(s, f) + f(x)
  {
    assert (s + [x])[..|s|] == s;
  }

  lemma {:induction false} TallyAdds<T>(s: seq<T>, f: T -> nat, g: T -> nat, h: T -> nat)
    requires forall i {:trigger s[i]} :: 0 <= i < |s| ==> f(s[i]) == g(s[i]) + h(s[i])
    ensures Tally(s, f) == Tally(s, g) + Tally(s, h)
  {
    if s != [] {
      TallyAdds(s[..|s| - 1], f, g, h);
    }
  }

  lemma {:induction false} TallySame<T, U>(s: seq<T>, f: T -> nat, t: seq<U>, g: U -> nat)
    requires |s| == |t| && forall i {:trigger s[i]} {:trigger t[i]} :: 0 <= i < |s| ==> f(s[i]) == g(t[i])
    ensures Tally(s, f) == Tally(t, g)
  {
    if s != [] {
      TallySame(s[..|s| - 1], f, t[..|t| - 1], g);
    }
  }

  lemma {:induction false} TallyOnes<T>(s: seq<T>, f: T -> nat)
    requires forall i {:trigger s[i]} :: 0 <= i < |s| ==> f(s[i]) == 1
    ensures Tally(s, f) == |s|
  {
    if s != [] {
      TallyOnes(s[..|s| - 1], f);
    }
  }

  lemma {:induction false} TallyAtMost<T>(s: seq<T>, f: T -> nat)
    requires forall i {:trigger s[i]} :: 0 <= i < |s| ==> f(s[i]) <= 1
    ensures Tally(s, f) <= |s|
  {
    if s != [] {
      TallyAtMost(s[..|s| - 1], f);
    }
  }

  lemma {:induction false} TallyZeros<T>(s: seq<T>, f: T -> nat)
    requires forall i {:trigger s[i]} :: 0 <= i < |s| ==> f(s[i]) == 0
    ensures Tally(s, f) == 0
  {
    if s != [] {
      TallyZeros(s[..|s| - 1], f);
    }
  }

  lemma {:induction false} TallySplits<T>(a: seq<T>, b: seq<T>, f: T -> nat)
    ensures Tally(a + b, f) == Tally(a, f) + Tally(b, f)
    decreases |b|
  {
    if b == [] {
      assert a + b == a;
    } else {
      TallySplits(a, b[..|b| - 1], f);
      assert (a + b)[..|a + b| - 1] == a + b[..|b| - 1];
    }
  }

  lemma TallyMiddle<T>(a: seq<T>, x: T, b: seq<T>, f: T -> nat)
    ensures Tally(a + [x] + b, f) == Tally(a + b, f) + f(x)
  {
    TallySplits(a + [x], b, f);
    TallyMore(a, x, f);
    TallySplits(a, b, f);
  }

  lemma DropBoth<T>(s: seq<T>, t: seq<T>, k: nat)
    requires multiset(s) == multiset(t) && s != [] && k < |t| && t[k] == s[|s| - 1]
    ensures multiset(s[..|s| - 1]) == multiset(t[..k] + t[k + 1..])
  {
    var n := |s| - 1;
    RemoveAt(t, k);
    RemoveAt(s, n);
    assert s[..n] + s[n + 1..] == s[..n];
  }

  /** A tally does not depend on the order. */
  lemma {:induction false} TallyOrderless<T>(s: seq<T>, t: seq<T>, f: T -> nat)
    requires multiset(s) == multiset(t)
    ensures Tally(s, f) == Tally(t, f)
    decreases |s|
  {
    assert |multiset(s)| == |multiset(t)|;
    if s != [] {
      var x := s[|s| - 1];
      assert x in multiset(t);
      var k :| 0 <= k < |t| && t[k] == x;
      DropBoth(s, t, k);
      var a, b := t[..k], t[k + 1..];
      TallyOrderless(s[..|s| - 1], a + b, f);
      TallyMiddle(a, x, b, f);
      assert t == a + [x] + b;
    }
  }

  /** The elements that satisfy `p`, in order. */
  function Filter<T>(s: seq<T>, p: T -> bool): (r: seq<T>)
  {
    if s == [] then []
    else
      var front := Filter(s[..|s| - 1], p);
      if p(s[|s| - 1]) then front + [s[|s| - 1]] else front
  }

  lemma {:induction false} FilterConcat<T>(a: seq<T>, b: seq<T>, p: T -> bool)
    ensures Filter(a + b, p) == Filter(a, p) + Filter(b, p)
    decreases |b|
  {
    if b == [] {
      assert a + b == a;
    } else {
      FilterConcat(a, b[..|b| - 1], p);
      assert (a + b)[..|a + b| - 1] == a + b[..|b| - 1];
    }
  }

  lemma FilterOne<T>(x: T, p: T -> bool)
    ensures Filter([x], p) == if p(x) then [x] else []
  {
    assert [x][..0] == [];
  }

  /** Selecting keeps every copy of what is selected and nothing else. */
  lemma {:induction false} FilterCounts<T>(s: seq<T>, p: T -> bool, x: T)
    ensures multiset(Filter(s, p))[x] == if p(x) then multiset(s)[x] else 0
  {
    if s != [] {
      FilterCounts(s[..|s| - 1], p, x);
      assert s == s[..|s| - 1] + [s[|s| - 1]];
    }
  }

  lemma FilterOrderless<T(!new)>(s: seq<T>, t: seq<T>, p: T -> bool)
    requires multiset(s) == multiset(t)
    ensures multiset(Filter(s, p)) == multiset(Filter(t, p))
  {
    forall x: T
      ensures multiset(Filter(s, p))[x] == multiset(Filter(t, p))[x]
    {
      FilterCounts(s, p, x);
      FilterCounts(t, p, x);
    }
  }

  lemma {:induction false} FilterIn<T>(s: seq<T>, p: T -> bool, x: T)
    ensures x in Filter(s, p) <==> x in s && p(x)
  {
    FilterCounts(s, p, x);
    assert x in Filter(s, p) <==> multiset(Filter(s, p))[x] > 0;
    assert x in s <==> multiset(s)[x] > 0;
  }

  lemma {:induction false} FilterSwaps<T>(s: seq<T>, p: T -> bool, q: T -> bool)
    ensures Filter(Filter(s, p), q) == Filter(Filter(s, q), p)
  {
    if s != [] {
      var x := s[|s| - 1];
      var front := s[..|s| - 1];
      FilterSwaps(front, p, q);
      FilterConcat(Filter(front, p), [x], q);
      FilterConcat(Filter(front, q), [x], p);
      FilterOne(x, p);
      FilterOne(x, q);
    }
  }
}
