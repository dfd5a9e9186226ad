/** Facts about sequences that stand for ordered lists of ids. */
module Seqs {

  /** No element occurs twice. */
  predicate Distinct<T(==)>(xs: seq<T>) {
    forall i, j :: 0 <= i < j < |xs| ==> xs[i] != xs[j]
  }

  /** The elements of `xs`, forgetting order and repetition. */
  function ToSet<T>(xs: seq<T>): set<T> {
    set x | x in xs
  }

  /** A list has at least as many entries as distinct elements, and exactly as many
      precisely when no element is repeated. */
  lemma {:induction false} CardinalityOfElements<T>(xs: seq<T>)
    ensures |ToSet(xs)| <= |xs|
    ensures |ToSet(xs)| == |xs| <==> Distinct(xs)
  {
    if |xs| > 0 {
      var tail := xs[1..];
      CardinalityOfElements(tail);
      assert ToSet(xs) == {xs[0]} + ToSet(tail);
      if xs[0] in tail {
        var k :| 0 <= k < |tail| && tail[k] == xs[0];
        assert xs[0] == xs[k + 1];
        assert ToSet(xs) == ToSet(tail);
      } else {
        assert ToSet(xs) - {xs[0]} == ToSet(tail);
        if Distinct(tail) {
          forall i, j | 0 <= i < j < |xs| ensures xs[i] != xs[j] {
            if i > 0 {
              assert xs[i] == tail[i - 1] && xs[j] == tail[j - 1];
            } else {
              assert xs[j] == tail[j - 1];
            }
          }
        } else {
          var i, j :| 0 <= i < j < |tail| && tail[i] == tail[j];
          assert xs[i + 1] == xs[j + 1];
        }
      }
    }
  }

  function Min(a: int, b: int): int {
    if a <= b then a else b
  }
}
