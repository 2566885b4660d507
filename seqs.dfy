/** Facts about sequences used by both ordered PHP arrays and the registries. */
module Seqs {

  predicate Distinct<T(==)>(s: seq<T>) {
    forall i, j :: 0 <= i < j < |s| ==> s[i] != s[j]
  }

  /**
   * The elements of `incoming` that are not in `seen`, each once, in the order
   * of their first occurrence: the keys an ordered-dictionary overlay appends.
   */
  function Appended<T(==,!new)>(seen: seq<T>, incoming: seq<T>): (r: seq<T>)
    ensures forall x :: x in r <==> x in incoming && x !in seen
    ensures Distinct(r)
  {
    if incoming == [] then []
    else
      var rest := Appended(seen, incoming[..|incoming| - 1]);
      var x := incoming[|incoming| - 1];
      assert forall y :: y in incoming <==> y in incoming[..|incoming| - 1] || y == x;
      if x in seen || x in rest then rest else rest + [x]
  }

  /** An overlay of distinct keys keeps them distinct. */
  lemma DistinctAfterAppend<T(!new)>(seen: seq<T>, incoming: seq<T>)
    requires Distinct(seen)
    ensures Distinct(seen + Appended(seen, incoming))
  {
    var r := Appended(seen, incoming);
    var s := seen + r;
    forall i, j | 0 <= i < j < |s| ensures s[i] != s[j] {
      if j >= |seen| && i < |seen| {
        assert s[j] in r;
      }
    }
  }

  /** Nothing is appended when every incoming element has been seen. */
  lemma AppendedNothingNew<T(!new)>(seen: seq<T>, incoming: seq<T>)
    requires forall x :: x in incoming ==> x in seen
    ensures Appended(seen, incoming) == []
  {
  }
}
