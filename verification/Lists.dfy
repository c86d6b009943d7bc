/** Sequences without repetitions: how the models describe chains of cells. */
module Lists {
  ghost predicate Distinct<T>(s: seq<T>) {
    forall i, j :: 0 <= i < j < |s| ==> s[i] != s[j]
  }

  ghost function Elems<T>(s: seq<T>): set<T> {
    set x | x in s
  }

  lemma {:induction false} DistinctCount<T>(s: seq<T>)
    requires Distinct(s)
    ensures |Elems(s)| == |s|
  {
    if s != [] {
      DistinctCount(s[1..]);
      assert Elems(s) == {s[0]} + Elems(s[1..]);
    }
  }
}
