/** Counting the entries of a sequence that satisfy a predicate. */
module Counting {

  function CountIf<T>(s: seq<T>, p: T -> bool): (n: nat)
    ensures n <= |s|
  {
    if s == [] then 0 else CountIf(s[..|s| - 1], p) + if p(s[|s| - 1]) then 1 else 0
  }

  lemma {:induction false} CountIfAppend<T>(s: seq<T>, t: seq<T>, p: T -> bool)
    ensures CountIf(s + t, p) == CountIf(s, p) + CountIf(t, p)
  {
    if t == [] {
      assert s + t == s;
    } else {
      CountIfAppend(s, t[..|t| - 1], p);
      assert (s + t)[..|s + t| - 1] == s + t[..|t| - 1];
    }
  }

  lemma {:induction false} CountIfAgree<T>(s: seq<T>, p: T -> bool, q: T -> bool)
    requires forall x :: x in s ==> p(x) == q(x)
    ensures CountIf(s, p) == CountIf(s, q)
  {
    if s != [] {
      CountIfAgree(s[..|s| - 1], p, q);
    }
  }

  lemma {:induction false} CountIfNone<T>(s: seq<T>, p: T -> bool)
    requires forall x :: x in s ==> !p(x)
    ensures CountIf(s, p) == 0
  {
    if s != [] {
      CountIfNone(s[..|s| - 1], p);
    }
  }

  lemma CountIfOne<T>(x: T, p: T -> bool)
    ensures CountIf([x], p) == if p(x) then 1 else 0
  {
    assert [x][..0] == [];
  }

  ghost function Selected<T>(s: seq<T>, p: T -> bool): set<T> {
    set x | x in s && p(x)
  }

  // For distinct entries, counting is the size of the selected set.
  lemma {:induction false} CountIfDistinct<T>(s: seq<T>, p: T -> bool)
    requires forall i, j :: 0 <= i < j < |s| ==> s[i] != s[j]
    ensures CountIf(s, p) == |Selected(s, p)|
  {
    if s == [] {
      assert Selected(s, p) == {};
    } else {
      var t, y := s[..|s| - 1], s[|s| - 1];
      CountIfDistinct(t, p);
      assert s == t + [y];
      assert Selected(s, p) == if p(y) then Selected(t, p) + {y} else Selected(t, p);
    }
  }

  // Counting is the number of positions that hold such an entry.
  lemma {:induction false} CountIfIsSet<T>(s: seq<T>, p: T -> bool, all: set<int>)
    requires forall i :: i in all ==> 0 <= i < |s| && p(s[i])
    requires forall i :: 0 <= i < |s| && p(s[i]) ==> i in all
    ensures CountIf(s, p) == |all|
  {
    if s == [] {
      assert forall i :: i !in all;
      assert |all| == 0;
    } else {
      var n := |s| - 1;
      CountIfIsSet(s[..n], p, all - {n});
      assert all == if p(s[n]) then all - {n} + {n} else all - {n};
    }
  }

  // Entry-wise agreement of two sequences gives equal counts.
  lemma {:induction false} CountIfPairwise<S, T>(s: seq<S>, t: seq<T>, p: S -> bool, q: T -> bool)
    requires |s| == |t| && forall i :: 0 <= i < |s| ==> (p(s[i]) <==> q(t[i]))
    ensures CountIf(s, p) == CountIf(t, q)
  {
    if s != [] {
      CountIfPairwise(s[..|s| - 1], t[..|t| - 1], p, q);
    }
  }
}
