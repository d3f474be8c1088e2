/** The receiver's diagnostic count of repeated elements. */
module Duplicates {
  import opened Digits
  import opened Counting

  // How often y occurs.
  function Occurrences(vec: seq<Word>, y: Word): nat {
    CountIf(vec, (x: Word) => x == y)
  }

  lemma {:induction false} CountSplits(vec: seq<Word>, done: set<Word>, y: Word)
    requires y !in done
    ensures CountIf(vec, (x: Word) => x in done + {y}) == CountIf(vec, (x: Word) => x in done) + Occurrences(vec, y)
  {
    if vec != [] {
      CountSplits(vec[..|vec| - 1], done, y);
    }
  }

  lemma {:induction false} CountAll(vec: seq<Word>, all: set<Word>)
    requires forall x :: x in vec ==> x in all
    ensures CountIf(vec, (x: Word) => x in all) == |vec|
  {
    if vec != [] {
      CountAll(vec[..|vec| - 1], all);
    }
  }

  // The first loop of countDuplicates: one counter per value.
  method CountElements(vec: seq<Word>) returns (elementCount: map<Word, nat>)
    ensures elementCount.Keys == (set x | x in vec)
    ensures forall y :: y in elementCount ==> elementCount[y] == Occurrences(vec, y) >= 1
  {
    elementCount := map[];
    for i := 0 to |vec|
      invariant forall y :: y in elementCount <==> y in vec[..i]
      invariant forall y :: y in elementCount ==> elementCount[y] == Occurrences(vec[..i], y) >= 1
    {
      var y := vec[i];
      assert vec[..i + 1][..i] == vec[..i];
      if y !in elementCount {
        CountIfNone(vec[..i], (x: Word) => x == y);
      }
      elementCount := elementCount[y := (if y in elementCount then elementCount[y] else 0) + 1];
    }
    assert vec[..|vec|] == vec;
  }

  /** countDuplicates: the number of elements beyond the first of each value, in whatever order the map is walked. */
  method CountDuplicates(vec: seq<Word>) returns (duplicateCount: nat)
    ensures duplicateCount == |vec| - |set x | x in vec|
  {
    var elementCount := CountElements(vec);
    var todo := elementCount.Keys;
    ghost var done: set<Word> := {};
    duplicateCount := 0;
    CountIfNone(vec, (x: Word) => x in done);
    while todo != {}
      invariant todo <= elementCount.Keys && done == elementCount.Keys - todo
      invariant duplicateCount + |done| == CountIf(vec, (x: Word) => x in done)
      decreases |todo|
    {
      var y :| y in todo;
      CountSplits(vec, done, y);
      if elementCount[y] > 1 {
        duplicateCount := duplicateCount + elementCount[y] - 1;
      }
      todo, done := todo - {y}, done + {y};
    }
    CountAll(vec, done);
  }
}
