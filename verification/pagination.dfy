/** The pagination helpers of the common service, as functions on the rows a query would
    return. A query builder's `take(n)` with a falsy `n` (zero) adds no LIMIT, so a zero
    `take` means "all rows". */
module Pagination {
  import opened Wrappers
  import opened Seqs
  import opened Ordering

  /** `qb.take(n)`. */
  function Take<T>(rows: seq<T>, take: nat): seq<T> {
    if take == 0 then rows else rows[..Min(take, |rows|)]
  }

  /** `qb.skip(n)`. */
  function Skip<T>(rows: seq<T>, n: nat): seq<T> {
    rows[Min(n, |rows|)..]
  }

  /** Page mode: skip `(page - 1) * take` rows, then take `take`. Nothing checks `page`;
      a page below one would give a negative offset, so callers must pass `page >= 1`. */
  function PageOf<T>(rows: seq<T>, page: int, take: int): (r: seq<T>)
    requires page >= 1 && take >= 0
    ensures take == 0 ==> r == rows
    ensures take > 0 ==> |r| <= take
    ensures take > 0 && (page - 1) * take >= |rows| ==> r == []
    ensures take > 0 && (page - 1) * take < |rows| ==> |r| == Min(take, |rows| - (page - 1) * take)
    ensures take > 0 ==> forall i :: 0 <= i < |r| ==> r[i] == rows[(page - 1) * take + i]
  {
    var skip: nat := (page - 1) * take;
    Take(Skip(rows, skip), take)
  }

  /** Pages `1..k`, one after another. */
  function FirstPages<T>(rows: seq<T>, take: nat, k: nat): seq<T> {
    if k == 0 then [] else FirstPages(rows, take, k - 1) + PageOf(rows, k, take)
  }

  /** Page `k` is the slice of rows between the offsets of pages `k` and `k + 1`. */
  lemma PageIsSlice<T>(rows: seq<T>, take: nat, k: nat)
    requires take > 0 && k > 0
    ensures 0 <= Min((k - 1) * take, |rows|) <= Min(k * take, |rows|)
    ensures PageOf(rows, k, take) == rows[Min((k - 1) * take, |rows|)..Min(k * take, |rows|)]
  {
    var skip := (k - 1) * take;
    assert skip + take == k * take;
    var lo := Min(skip, |rows|);
    assert Skip(rows, skip) == rows[lo..];
    assert Take(rows[lo..], take) == rows[lo..Min(k * take, |rows|)];
  }

  /** A prefix followed by the next slice is the longer prefix. */
  lemma SliceConcat<T>(rows: seq<T>, lo: int, hi: int)
    requires 0 <= lo <= hi <= |rows|
    ensures rows[..lo] + rows[lo..hi] == rows[..hi]
  {
  }

  /** Consecutive pages tile the rows: pages `1..k` together are exactly the first
      `k * take` rows, with no row repeated or skipped. */
  lemma {:induction false} PagesTile<T>(rows: seq<T>, take: nat, k: nat)
    requires take > 0
    ensures FirstPages(rows, take, k) == rows[..Min(k * take, |rows|)]
  {
    if k > 0 {
      PagesTile(rows, take, k - 1);
      PageIsSlice(rows, take, k);
      SliceConcat(rows, Min((k - 1) * take, |rows|), Min(k * take, |rows|));
    }
  }

  /** Cursor mode's `id` only filters when it is truthy: present and not zero. */
  predicate Truthy(cursor: Option<int>) {
    cursor.Some? && cursor.value != 0
  }

  /** Whether row `x` passes the cursor's where clause: `id > cursor` for `'ASC'`,
      `id < cursor` for the other direction, everything when the cursor is falsy. */
  predicate Beyond(o: Order, cursor: Option<int>, x: int) {
    !Truthy(cursor) || Before(o, cursor.value, x)
  }

  /** The rows of `ids` that pass the cursor's where clause, in table order. */
  function Where(o: Order, cursor: Option<int>, ids: seq<int>): (r: seq<int>)
    requires Distinct(ids)
    ensures Distinct(r)
    ensures forall x :: x in r <==> x in ids && Beyond(o, cursor, x)
  {
    if |ids| == 0 then []
    else
      var rest := Where(o, cursor, ids[1..]);
      assert ids[0] !in ids[1..];
      if Beyond(o, cursor, ids[0]) then [ids[0]] + rest else rest
  }

  /** Cursor mode over a table whose primary keys are `ids`: filter past the cursor,
      order by id in direction `o`, take `take`. The result is ordered, holds only rows
      past the cursor, and is an initial segment: every qualifying row left out comes
      after every row returned, and is left out only because the page is full. */
  function CursorPage(ids: seq<int>, o: Order, cursor: Option<int>, take: nat): (r: seq<int>)
    requires Distinct(ids)
    ensures Chain(o, r)
    ensures forall x :: x in r ==> x in ids && Beyond(o, cursor, x)
    ensures take > 0 ==> |r| <= take
    ensures forall x :: x in ids && Beyond(o, cursor, x) && x !in r ==>
              take > 0 && |r| == take && forall y :: y in r ==> Before(o, y, x)
  {
    var sorted := Sort(o, Where(o, cursor, ids));
    var r := Take(sorted, take);
    assert forall i :: 0 <= i < |r| ==> r[i] == sorted[i];
    assert forall x :: x in sorted && x !in r ==> take > 0 && |r| == take && forall y :: y in r ==> Before(o, y, x) by {
      forall x | x in sorted && x !in r
        ensures take > 0 && |r| == take && forall y :: y in r ==> Before(o, y, x)
      {
        var i :| 0 <= i < |sorted| && sorted[i] == x;
        assert i >= |r|;
        forall y | y in r ensures Before(o, y, x) {
          var j :| 0 <= j < |r| && r[j] == y;
          assert sorted[j] == y;
        }
      }
    }
    r
  }

  /** In an ordered list, the elements from position `m` on are those after element `m - 1`. */
  lemma ChainSuffix(o: Order, sorted: seq<int>, m: nat)
    requires Chain(o, sorted) && 0 < m <= |sorted|
    ensures forall x :: x in sorted[m..] <==> x in sorted && Before(o, sorted[m - 1], x)
  {
    var last := sorted[m - 1];
    forall x ensures x in sorted[m..] <==> x in sorted && Before(o, last, x) {
      if x in sorted[m..] {
        var i :| 0 <= i < |sorted[m..]| && sorted[m..][i] == x;
        assert sorted[m + i] == x;
      }
      if x in sorted && Before(o, last, x) {
        var i :| 0 <= i < |sorted| && sorted[i] == x;
        assert forall k :: 0 <= k < m - 1 ==> Before(o, sorted[k], last);
        assert i >= m;
        assert sorted[m..][i - m] == x;
      }
    }
  }

  /** The rows strictly after position `m - 1` of an ordered query result are exactly the
      rows past the cursor `sorted[m - 1]`. */
  lemma SuffixIsCursorQuery(ids: seq<int>, o: Order, cursor: Option<int>, m: nat)
    requires Distinct(ids)
    requires 0 < m <= |Where(o, cursor, ids)|
    requires Sort(o, Where(o, cursor, ids))[m - 1] != 0
    ensures var sorted := Sort(o, Where(o, cursor, ids));
            Sort(o, Where(o, Some(sorted[m - 1]), ids)) == sorted[m..]
  {
    var sorted := Sort(o, Where(o, cursor, ids));
    var last := sorted[m - 1];
    var next := Sort(o, Where(o, Some(last), ids));
    ChainSuffix(o, sorted, m);
    assert last in sorted;
    assert Beyond(o, cursor, last);
    forall x ensures x in next <==> x in sorted && Before(o, last, x) {
      if x in next {
        assert x in ids && Before(o, last, x);
        assert Beyond(o, cursor, x);
      }
    }
    ChainUnique(o, next, sorted[m..]);
  }

  /** Cursor pages chain: asking again with the last id of a page returns the following
      page, so two consecutive pages together are the page of twice the size, without
      overlap. */
  lemma CursorPagesChain(ids: seq<int>, o: Order, cursor: Option<int>, take: nat)
    requires Distinct(ids) && take > 0
    requires |CursorPage(ids, o, cursor, take)| > 0
    requires var page := CursorPage(ids, o, cursor, take); page[|page| - 1] != 0
    ensures var page := CursorPage(ids, o, cursor, take);
            var next := CursorPage(ids, o, Some(page[|page| - 1]), take);
            && page + next == CursorPage(ids, o, cursor, 2 * take)
            && forall x :: x in page ==> x !in next
  {
    var sorted := Sort(o, Where(o, cursor, ids));
    var page := CursorPage(ids, o, cursor, take);
    var m := |page|;
    assert page == Take(sorted, take);
    SuffixIsCursorQuery(ids, o, cursor, m);
    TakeAfterTake(sorted, take);
    ChainIsDistinct(o, sorted);
    DistinctHalves(sorted, m);
  }

  /** Taking `take` rows, then `take` rows of what follows, is taking `2 * take` rows. */
  lemma TakeAfterTake<T>(rows: seq<T>, take: nat)
    requires take > 0
    ensures Take(rows, take) + Take(rows[|Take(rows, take)|..], take) == Take(rows, 2 * take)
  {
    if |rows| > take {
      assert rows[..take] + rows[take..][..Min(take, |rows| - take)] == rows[..Min(2 * take, |rows|)];
    }
  }

  /** The two halves of a list without repetition share no element. */
  lemma DistinctHalves<T>(xs: seq<T>, m: nat)
    requires Distinct(xs) && m <= |xs|
    ensures forall x :: x in xs[..m] ==> x !in xs[m..]
  {
    forall x | x in xs[..m] ensures x !in xs[m..] {
      var i :| 0 <= i < m && xs[..m][i] == x;
      assert forall j :: 0 <= j < |xs| - m ==> xs[m..][j] == xs[m + j] != xs[i];
    }
  }
}
