/** Triangles at a vertex, and why counting ordered neighbour pairs counts each of them twice. */
module Triangles {
  import opened Digits
  import opened Counting

  // An undirected, loop-free graph given by neighbour lists, with the program's two size parameters.
  datatype Graph = Graph(vertices: nat, maxDegree: nat, neighbors: Word -> seq<Word>) {
    ghost predicate Valid() {
      && vertices < TWO_64 && maxDegree * maxDegree < TWO_64
      && forall v: Word :: v < vertices ==> ValidList(v)
    }

    ghost predicate ValidList(v: Word) {
      && |neighbors(v)| <= maxDegree && v !in neighbors(v) && Distinct(neighbors(v))
      && (forall u :: u in neighbors(v) ==> u < vertices && v in neighbors(u))
    }

    predicate Adjacent(v: Word, u: Word) {
      u in neighbors(v)
    }
  }

  predicate Distinct<T(==)>(s: seq<T>) {
    forall i, j :: 0 <= i < j < |s| ==> s[i] != s[j]
  }

  // The edges between neighbours of x: one per triangle at x.
  ghost function TrianglesAt(g: Graph, x: Word): set<(Word, Word)> {
    set u, w | u in g.neighbors(x) && w in g.neighbors(x) && u < w && g.Adjacent(u, w) :: (u, w)
  }

  lemma TriangleMembers(g: Graph, x: Word, u: Word, w: Word)
    ensures (u, w) in TrianglesAt(g, x) <==> u in g.neighbors(x) && w in g.neighbors(x) && u < w && w in g.neighbors(u)
  {
  }

  // Edges of g inside a list of vertices.
  ghost function EdgesWithin(g: Graph, l: seq<Word>): set<(Word, Word)> {
    set u, w | u in l && w in l && u < w && g.Adjacent(u, w) :: (u, w)
  }

  // For each vertex of l, its neighbours in m.
  function OrderedPairs(g: Graph, l: seq<Word>, m: seq<Word>): nat {
    if l == [] then 0
    else
      var v := l[|l| - 1];
      OrderedPairs(g, l[..|l| - 1], m) + CountIf(m, (u: Word) => g.Adjacent(v, u))
  }

  lemma {:induction false} OrderedPairsPush(g: Graph, l: seq<Word>, m: seq<Word>, v: Word)
    requires forall w :: w in l ==> (g.Adjacent(w, v) <==> g.Adjacent(v, w))
    ensures OrderedPairs(g, l, m + [v]) == OrderedPairs(g, l, m) + CountIf(l, (u: Word) => g.Adjacent(v, u))
  {
    if l != [] {
      var n := |l| - 1;
      var w := l[n];
      OrderedPairsPush(g, l[..n], m, v);
      assert (m + [v])[..|m|] == m;
    }
  }

  lemma {:induction false} OrderedPairsBound(g: Graph, l: seq<Word>, m: seq<Word>)
    ensures OrderedPairs(g, l, m) <= |l| * |m|
  {
    if l != [] {
      OrderedPairsBound(g, l[..|l| - 1], m);
      assert |l| * |m| == (|l| - 1) * |m| + |m|;
    }
  }

  function Edge(u: Word, v: Word): (Word, Word) {
    if u < v then (u, v) else (v, u)
  }

  ghost function EdgesTo(g: Graph, l: seq<Word>, v: Word): set<(Word, Word)> {
    set u | u in l && g.Adjacent(v, u) :: Edge(u, v)
  }

  lemma {:induction false} EdgesToCount(g: Graph, l: seq<Word>, v: Word)
    requires Distinct(l) && v !in l
    ensures |EdgesTo(g, l, v)| == CountIf(l, (u: Word) => g.Adjacent(v, u))
  {
    if l == [] {
      assert EdgesTo(g, l, v) == {};
    } else {
      var t, u := l[..|l| - 1], l[|l| - 1];
      assert l == t + [u];
      EdgesToCount(g, t, v);
      hide EdgesTo, Graph.Adjacent;
      EdgesToPush(g, t, u, v);
    }
  }

  lemma EdgesToPush(g: Graph, t: seq<Word>, u: Word, v: Word)
    requires u !in t && v !in t && u != v
    ensures |EdgesTo(g, t + [u], v)| == |EdgesTo(g, t, v)| + if g.Adjacent(v, u) then 1 else 0
  {
    hide Graph.Adjacent;
    assert forall w :: w in t ==> w in t + [u];
    if g.Adjacent(v, u) {
      assert EdgesTo(g, t + [u], v) == EdgesTo(g, t, v) + {Edge(u, v)};
      assert Edge(u, v) !in EdgesTo(g, t, v);
    } else {
      assert EdgesTo(g, t + [u], v) == EdgesTo(g, t, v);
    }
  }

  lemma EdgesWithinPush(g: Graph, t: seq<Word>, v: Word)
    requires v !in t && !g.Adjacent(v, v)
    requires forall u :: u in t ==> (g.Adjacent(u, v) <==> g.Adjacent(v, u))
    ensures |EdgesWithin(g, t + [v])| == |EdgesWithin(g, t)| + |EdgesTo(g, t, v)|
  {
    hide Graph.Adjacent;
    var before, added, all := EdgesWithin(g, t), EdgesTo(g, t, v), EdgesWithin(g, t + [v]);
    forall e | e in all
      ensures e in before + added
    {
      if e.0 == v {
        assert e == Edge(e.1, v);
      } else if e.1 == v {
        assert e == Edge(e.0, v);
      }
    }
    forall e | e in added
      ensures e in all && e !in before
    {
      var u :| u in t && g.Adjacent(v, u) && Edge(u, v) == e;
      assert u != v;
    }
    assert all == before + added;
  }

  lemma OrderedPairsBoth(g: Graph, t: seq<Word>, v: Word)
    requires forall w :: w in t ==> (g.Adjacent(w, v) <==> g.Adjacent(v, w))
    requires !g.Adjacent(v, v)
    ensures OrderedPairs(g, t + [v], t + [v]) == OrderedPairs(g, t, t) + 2 * CountIf(t, (u: Word) => g.Adjacent(v, u))
  {
    var l, p := t + [v], (u: Word) => g.Adjacent(v, u);
    assert l[..|l| - 1] == t;
    OrderedPairsPush(g, t, t, v);
    CountIfAppend(t, [v], p);
    CountIfOne(v, p);
  }

  // Each edge inside the list is met from both of its ends.
  lemma {:induction false} PairsAreTwiceEdges(g: Graph, l: seq<Word>)
    requires Distinct(l)
    requires forall u, v :: u in l && v in l ==> (g.Adjacent(u, v) <==> g.Adjacent(v, u))
    requires forall v :: v in l ==> !g.Adjacent(v, v)
    ensures OrderedPairs(g, l, l) == 2 * |EdgesWithin(g, l)|
  {
    if l == [] {
      assert EdgesWithin(g, l) == {};
    } else {
      hide EdgesWithin, EdgesTo, OrderedPairs, Graph.Adjacent;
      var t, v := l[..|l| - 1], l[|l| - 1];
      assert l == t + [v];
      PairsAreTwiceEdges(g, t);
      OrderedPairsBoth(g, t, v);
      EdgesToCount(g, t, v);
      EdgesWithinPush(g, t, v);
    }
  }

  /** The ordered neighbour pairs at x are exactly twice its triangles. */
  lemma DoubleCounting(g: Graph, x: Word)
    requires g.Valid() && x < g.vertices
    ensures OrderedPairs(g, g.neighbors(x), g.neighbors(x)) == 2 * |TrianglesAt(g, x)|
  {
    var l := g.neighbors(x);
    assert g.ValidList(x);
    forall u, v | u in l && v in l
      ensures g.Adjacent(u, v) <==> g.Adjacent(v, u)
      ensures !g.Adjacent(v, v)
    {
      assert g.ValidList(u) && g.ValidList(v);
    }
    PairsAreTwiceEdges(g, l);
    assert TrianglesAt(g, x) == EdgesWithin(g, l);
  }
}
