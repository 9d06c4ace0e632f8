/** Cardinalities of finite sets of positions. */
module Counting {

  function Below(n: nat): (s: set<nat>)
    ensures forall j: nat :: j in s <==> j < n
    ensures |s| == n
  {
    if n == 0 then {} else Below(n - 1) + {n - 1}
  }

  lemma {:induction false} SubsetCard<T>(a: set<T>, b: set<T>)
    requires a <= b
    ensures |a| <= |b|
    ensures |a| == |b| ==> a == b
  {
    if a != {} {
      var x :| x in a;
      SubsetCard(a - {x}, b - {x});
    }
  }

  lemma {:induction false} ImageCard<A, B>(s: set<A>, f: A -> B)
    requires forall x, y :: x in s && y in s && f(x) == f(y) ==> x == y
    ensures |set x | x in s :: f(x)| == |s|
  {
    if s != {} {
      var x :| x in s;
      ImageCard(s - {x}, f);
      assert (set y | y in s :: f(y)) == (set y | y in s - {x} :: f(y)) + {f(x)};
    }
  }

  lemma SplitCard<T>(whole: set<T>, a: set<T>, b: set<T>)
    requires forall x :: x in whole <==> x in a || x in b
    requires a !! b
    ensures |whole| == |a| + |b|
  {
    assert whole == a + b;
  }

  /** Sets in one-to-one correspondence have the same size. */
  lemma BijectionCard<A, B>(s: set<A>, t: set<B>, f: A -> B)
    requires forall x :: x in s ==> f(x) in t
    requires forall x, y :: x in s && y in s && f(x) == f(y) ==> x == y
    requires forall y :: y in t ==> exists x :: x in s && f(x) == y
    ensures |s| == |t|
  {
    ImageCard(s, f);
    assert t == set x | x in s :: f(x);
  }

  /** An injection of a finite set into itself is onto. */
  lemma InjectionIsOnto<T>(s: set<T>, f: T -> T, y: T)
    requires forall x {:trigger f(x)} :: x in s ==> f(x) in s
    requires forall x, z {:trigger f(x), f(z)} :: x in s && z in s && f(x) == f(z) ==> x == z
    requires y in s
    ensures exists x {:trigger f(x)} :: x in s && f(x) == y
  {
    var image := set x | x in s :: f(x);
    ImageCard(s, f);
    SubsetCard(image, s);
    assert y in image;
  }

  function Sum(counts: seq<nat>): nat {
    if counts == [] then 0 else Sum(counts[..|counts| - 1]) + counts[|counts| - 1]
  }

  lemma ProductMono(a: nat, b: nat, c: nat)
    requires a <= b
    ensures c * a <= c * b
  {
    assert c * b == c * a + c * (b - a);
  }

  // ---- prefixes ----

  predicate StepsDown<T>(p: seq<T> -> bool, s: seq<T>, j: nat)
    requires j < |s|
  {
    p(s[..j + 1]) ==> p(s[..j])
  }

  /** A property that survives losing the last element holds of every prefix. */
  lemma {:induction false} PrefixClosed<T>(p: seq<T> -> bool, s: seq<T>, n: nat, m: nat)
    requires n <= m <= |s| && p(s[..m]) && forall j: nat :: j < |s| ==> StepsDown(p, s, j)
    ensures p(s[..n])
  {
    if n < m {
      assert StepsDown(p, s, m - 1);
      PrefixClosed(p, s, n, m - 1);
    }
  }

  // ---- ascending lists of positions ----

  predicate Increasing(ps: seq<nat>) {
    forall i, j :: 0 <= i < j < |ps| ==> ps[i] < ps[j]
  }

  /** The positions below `n` that satisfy `p`, in order. */
  function Filter(p: nat -> bool, n: nat): seq<nat> {
    if n == 0 then []
    else if p(n - 1) then Filter(p, n - 1) + [n - 1]
    else Filter(p, n - 1)
  }

  lemma {:induction false} FilterIsExact(p: nat -> bool, n: nat, s: set<nat>)
    requires forall j: nat :: j in s <==> j < n && p(j)
    ensures Increasing(Filter(p, n)) && |Filter(p, n)| == |s|
    ensures forall j :: j in Filter(p, n) <==> j in s
  {
    if n == 0 {
      assert s == {};
    } else {
      var before := set j | j in s && j != n - 1;
      FilterIsExact(p, n - 1, before);
      var prev := Filter(p, n - 1);
      forall i | 0 <= i < |prev|
        ensures prev[i] < n - 1
      {
        assert prev[i] in prev;
      }
      if p(n - 1) {
        assert s == before + {n - 1};
      } else {
        assert s == before;
      }
    }
  }

  lemma {:induction false} FilterGap(p: nat -> bool, m: nat, n: nat)
    requires m <= n && forall j: nat :: m <= j < n ==> !p(j)
    ensures Filter(p, n) == Filter(p, m)
  {
    if m < n {
      FilterGap(p, m, n - 1);
    }
  }

  lemma InInit(s: seq<nat>, x: nat)
    requires Increasing(s) && s != []
    ensures x in s[..|s| - 1] <==> x in s && x != s[|s| - 1]
    ensures x in s ==> x <= s[|s| - 1]
  {
    assert s == s[..|s| - 1] + [s[|s| - 1]];
  }

  lemma SameEmptiness<T>(s: seq<T>, t: seq<T>)
    requires forall j :: j in s <==> j in t
    ensures s == [] <==> t == []
  {
    assert s == [] || s[0] in s;
    assert t == [] || t[0] in t;
  }

  /** An ascending list is determined by its members. */
  lemma {:induction false} SameMembers(s: seq<nat>, t: seq<nat>)
    requires Increasing(s) && Increasing(t)
    requires forall j :: j in s <==> j in t
    ensures s == t
  {
    SameEmptiness(s, t);
    if s != [] {
      var m, n := |s| - 1, |t| - 1;
      InInit(s, t[n]);
      InInit(t, s[m]);
      forall j
        ensures j in s[..m] <==> j in t[..n]
      {
        if j >= 0 {
          InInit(s, j);
          InInit(t, j);
        }
      }
      SameMembers(s[..m], t[..n]);
      assert s == s[..m] + [s[m]] && t == t[..n] + [t[n]];
    }
  }
}
