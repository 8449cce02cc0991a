/** Newest-first ordering of calls, as `OrderByCreatedAtDesc` in the
    repository and the comparator `b.createdAt - a.createdAt` on the
    dashboard produce it. */
module CallOrder {
  import opened CallEntity

  /** No call is older than one after it. */
  predicate NewestFirst(s: seq<Call>) {
    forall i, j | 0 <= i < j < |s| :: s[i].createdAt >= s[j].createdAt
  }

  /** Puts `c` in front of the first call that is not newer than it. */
  function Insert(c: Call, s: seq<Call>): (r: seq<Call>)
    requires NewestFirst(s)
    ensures NewestFirst(r)
    ensures multiset(r) == multiset(s) + multiset{c}
    ensures forall x | x in r :: x == c || x in s
    ensures |r| == |s| + 1
  {
    if |s| == 0 then [c]
    else if c.createdAt >= s[0].createdAt then [c] + s
    else
      var rest := Insert(c, s[1..]);
      assert s == [s[0]] + s[1..];
      assert forall x | x in rest :: x.createdAt <= s[0].createdAt;
      [s[0]] + rest
  }

  /** A stable sort, newest first: calls made at the same instant keep their
      order. */
  function SortNewestFirst(s: seq<Call>): (r: seq<Call>)
    ensures NewestFirst(r)
    ensures multiset(r) == multiset(s)
    ensures |r| == |s|
    ensures forall x :: x in r <==> x in s
  {
    if |s| == 0 then []
    else
      assert s == [s[0]] + s[1..];
      var r := Insert(s[0], SortNewestFirst(s[1..]));
      assert forall x :: x in r <==> x in s by {
        forall x
          ensures x in r <==> x in s
        {
          assert x in r <==> x in multiset(r);
          assert x in s <==> x in multiset(s);
        }
      }
      r
  }

  /** A sequence that is already newest first is left as it is. */
  lemma {:induction false} SortSorted(s: seq<Call>)
    requires NewestFirst(s)
    ensures SortNewestFirst(s) == s
  {
    if |s| > 0 {
      SortSorted(s[1..]);
      assert s == [s[0]] + s[1..];
    }
  }

  /** Sorting twice is sorting once. */
  lemma SortIdempotent(s: seq<Call>)
    ensures SortNewestFirst(SortNewestFirst(s)) == SortNewestFirst(s)
  {
    SortSorted(SortNewestFirst(s));
  }

  /** The first call of a non-empty newest-first sequence is at least as new
      as every call in it. */
  lemma HeadIsNewest(s: seq<Call>)
    requires NewestFirst(s) && |s| > 0
    ensures forall x | x in s :: x.createdAt <= s[0].createdAt
  {
  }
}
