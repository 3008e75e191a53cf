/** Facts about sequences used throughout: duplicates and the set of elements. */
module SeqFacts {

  predicate NoDuplicates<T(==)>(s: seq<T>) {
    forall i, j :: 0 <= i < j < |s| ==> s[i] != s[j]
  }

  /** Python's set(s) / frozenset(s). */
  function Elements<T(==)>(s: seq<T>): set<T> {
    set x | x in s
  }

  /** A sequence has as many distinct elements as entries exactly when it repeats nothing. */
  lemma {:induction false} CardElements<T>(s: seq<T>)
    ensures |Elements(s)| <= |s|
    ensures |Elements(s)| == |s| <==> NoDuplicates(s)
    decreases |s|
  {
    if |s| > 0 {
      var p, x := s[..|s| - 1], s[|s| - 1];
      CardElements(p);
      assert s == p + [x];
      assert Elements(s) == Elements(p) + {x};
      if x in Elements(p) {
        var j :| 0 <= j < |p| && p[j] == x;
        assert s[j] == s[|s| - 1];
      } else {
        assert |Elements(s)| == |Elements(p)| + 1;
        if NoDuplicates(p) {
          forall i, k | 0 <= i < k < |s| ensures s[i] != s[k] {
            if k == |s| - 1 {
              assert s[i] == p[i];
            } else {
              assert s[i] == p[i] && s[k] == p[k];
            }
          }
        } else {
          var i, k :| 0 <= i < k < |p| && p[i] == p[k];
          assert s[i] == s[k];
        }
      }
    }
  }
}
