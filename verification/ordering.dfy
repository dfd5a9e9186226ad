/** Ordering of ids: the two sort directions of `orderBy` and a sort that realises them. */
module Ordering {
  import opened Seqs

  /** Sort direction of `orderBy`: `'ASC'` or `'DESC'`. */
  datatype Order = Asc | Desc

  /** `a` comes strictly before `b` in direction `o`. */
  predicate Before(o: Order, a: int, b: int) {
    match o
    case Asc => a < b
    case Desc => a > b
  }

  /** Every element comes strictly before each later one. */
  predicate Chain(o: Order, xs: seq<int>) {
    forall i, j :: 0 <= i < j < |xs| ==> Before(o, xs[i], xs[j])
  }

  /** Puts `x` into its place in an ordered list. */
  function Insert(o: Order, x: int, xs: seq<int>): (r: seq<int>)
    requires Chain(o, xs) && x !in xs
    ensures Chain(o, r)
    ensures |r| == |xs| + 1
    ensures forall y :: y in r <==> y == x || y in xs
  {
    if |xs| == 0 then [x]
    else if Before(o, x, xs[0]) then [x] + xs
    else
      var rest := Insert(o, x, xs[1..]);
      assert forall y :: y in rest ==> Before(o, xs[0], y);
      [xs[0]] + rest
  }

  /** The ids of `xs` in direction `o`. */
  function Sort(o: Order, xs: seq<int>): (r: seq<int>)
    requires Distinct(xs)
    ensures Chain(o, r)
    ensures |r| == |xs|
    ensures forall y :: y in r <==> y in xs
  {
    if |xs| == 0 then []
    else Insert(o, xs[0], Sort(o, xs[1..]))
  }

  /** An ordered list holds no id twice. */
  lemma ChainIsDistinct(o: Order, xs: seq<int>)
    requires Chain(o, xs)
    ensures Distinct(xs)
  {
  }

  /** The head of an ordered list comes before every other element. */
  lemma ChainHead(o: Order, xs: seq<int>)
    requires Chain(o, xs) && |xs| > 0
    ensures forall y :: y in xs ==> y == xs[0] || Before(o, xs[0], y)
  {
  }

  /** An ordered list is determined by its elements: there is one way to sort a set of ids. */
  lemma {:induction false} ChainUnique(o: Order, a: seq<int>, b: seq<int>)
    requires Chain(o, a) && Chain(o, b)
    requires forall y :: y in a <==> y in b
    ensures a == b
    decreases |a|
  {
    ChainIsDistinct(o, a);
    ChainIsDistinct(o, b);
    CardinalityOfElements(a);
    CardinalityOfElements(b);
    assert ToSet(a) == ToSet(b);
    if |a| > 0 {
      ChainHead(o, a);
      ChainHead(o, b);
      assert a[0] in a && b[0] in b;
      assert a[0] == b[0];
      forall y ensures y in a[1..] <==> y in b[1..] {
        if y in a[1..] {
          var i :| 0 <= i < |a[1..]| && a[1..][i] == y;
          assert Before(o, a[0], a[i + 1]);
          assert y in b;
          var j :| 0 <= j < |b| && b[j] == y;
          assert b[1..][j - 1] == y;
        }
        if y in b[1..] {
          var i :| 0 <= i < |b[1..]| && b[1..][i] == y;
          assert Before(o, b[0], b[i + 1]);
          assert y in a;
          var j :| 0 <= j < |a| && a[j] == y;
          assert a[1..][j - 1] == y;
        }
      }
      ChainUnique(o, a[1..], b[1..]);
      assert a == [a[0]] + a[1..] && b == [b[0]] + b[1..];
    }
  }
}
