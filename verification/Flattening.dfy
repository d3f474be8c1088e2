/** Rows of blocks laid end to end. */
module Flattening {

  function Flatten<T>(rows: seq<seq<T>>): seq<T> {
    if rows == [] then [] else Flatten(rows[..|rows| - 1]) + rows[|rows| - 1]
  }

  // Where row i starts.
  function Offset<T>(rows: seq<seq<T>>, i: nat): nat
    requires i <= |rows|
  {
    |Flatten(rows[..i])|
  }

  lemma {:induction false} FlattenAt<T>(rows: seq<seq<T>>, i: nat, j: nat)
    requires i < |rows| && j < |rows[i]|
    ensures Offset(rows, i) + j < |Flatten(rows)| && Flatten(rows)[Offset(rows, i) + j] == rows[i][j]
  {
    var n := |rows| - 1;
    if i == n {
      assert rows[..i] == rows[..n];
    } else {
      FlattenAt(rows[..n], i, j);
      assert rows[..n][..i] == rows[..i];
    }
  }

  lemma OffsetNext<T>(rows: seq<seq<T>>, i: nat)
    requires i < |rows|
    ensures Offset(rows, i + 1) == Offset(rows, i) + |rows[i]|
    ensures Offset(rows, 0) == 0
  {
    assert rows[..i + 1][..i] == rows[..i];
  }

  lemma {:induction false} OffsetBound<T>(rows: seq<seq<T>>, i: nat)
    requires i <= |rows|
    ensures Offset(rows, i) <= |Flatten(rows)|
    decreases |rows|
  {
    if i == |rows| {
      assert rows[..i] == rows;
    } else {
      OffsetBound(rows[..|rows| - 1], i);
      assert rows[..|rows| - 1][..i] == rows[..i];
    }
  }

  // Rows of the same lengths start at the same places.
  lemma {:induction false} SameShape<S, T>(a: seq<seq<S>>, b: seq<seq<T>>)
    requires |a| == |b| && forall i :: 0 <= i < |a| ==> |a[i]| == |b[i]|
    ensures |Flatten(a)| == |Flatten(b)|
  {
    if a != [] {
      SameShape(a[..|a| - 1], b[..|b| - 1]);
    }
  }

  // The same cell of two such vectors.
  lemma SameCell<S, T>(a: seq<seq<S>>, b: seq<seq<T>>, i: nat, j: nat) returns (t: nat)
    requires |a| == |b| && forall i :: 0 <= i < |a| ==> |a[i]| == |b[i]|
    requires i < |a| && j < |a[i]|
    ensures t == Offset(a, i) + j == Offset(b, i) + j
    ensures t < |Flatten(a)| == |Flatten(b)| && Flatten(a)[t] == a[i][j] && Flatten(b)[t] == b[i][j]
  {
    hide Flatten;
    t := Offset(a, i) + j;
    SameShape(a, b);
    SameShape(a[..i], b[..i]);
    FlattenAt(a, i, j);
    FlattenAt(b, i, j);
  }

  // Rows of one width form a matrix.
  lemma {:induction false} UniformAt<T>(rows: seq<seq<T>>, w: nat, i: nat, j: nat)
    requires (forall k :: 0 <= k < |rows| ==> |rows[k]| == w) && i < |rows| && j < w
    ensures |Flatten(rows)| == |rows| * w && i * w + j < |rows| * w && Flatten(rows)[i * w + j] == rows[i][j]
  {
    UniformLength(rows, w);
    UniformLength(rows[..i], w);
    FlattenAt(rows, i, j);
  }

  lemma {:induction false} UniformLength<T>(rows: seq<seq<T>>, w: nat)
    requires forall k :: 0 <= k < |rows| ==> |rows[k]| == w
    ensures |Flatten(rows)| == |rows| * w
  {
    if rows != [] {
      UniformLength(rows[..|rows| - 1], w);
      assert |rows| * w == (|rows| - 1) * w + w;
    }
  }

  // A vector of the same length that agrees on all cells is the flat vector.
  lemma {:induction false} FlattenUnique<T>(rows: seq<seq<T>>, u: seq<T>)
    requires |u| == |Flatten(rows)|
    requires forall i, j :: 0 <= i < |rows| && 0 <= j < |rows[i]| && Offset(rows, i) + j < |u| ==> u[Offset(rows, i) + j] == rows[i][j]
    ensures u == Flatten(rows)
  {
    if rows != [] {
      var n := |rows| - 1;
      var m := |Flatten(rows[..n])|;
      forall i, j | 0 <= i < n && 0 <= j < |rows[..n][i]| && Offset(rows[..n], i) + j < m
        ensures u[..m][Offset(rows[..n], i) + j] == rows[..n][i][j]
      {
        assert rows[..n][..i] == rows[..i];
      }
      FlattenUnique(rows[..n], u[..m]);
      forall j | 0 <= j < |rows[n]|
        ensures u[m..][j] == rows[n][j]
      {
        assert Offset(rows, n) == m;
      }
      assert u[m..] == rows[n];
    }
  }

  lemma {:induction false} FlattenIn<T>(rows: seq<seq<T>>, x: T)
    requires x in Flatten(rows)
    ensures exists i, j :: 0 <= i < |rows| && 0 <= j < |rows[i]| && rows[i][j] == x
  {
    var n := |rows| - 1;
    if x in Flatten(rows[..n]) {
      FlattenIn(rows[..n], x);
      var i, j :| 0 <= i < n && 0 <= j < |rows[..n][i]| && rows[..n][i][j] == x;
      assert rows[i][j] == x;
    } else {
      var j :| 0 <= j < |rows[n]| && rows[n][j] == x;
    }
  }

  // flatten: append row after row.
  method FlattenRows<T>(rows: seq<seq<T>>) returns (flat: seq<T>)
    ensures flat == Flatten(rows)
  {
    flat := [];
    for i := 0 to |rows|
      invariant flat == Flatten(rows[..i])
    {
      flat := flat + rows[i];
      assert rows[..i + 1][..i] == rows[..i];
    }
    assert rows[..|rows|] == rows;
  }
}
