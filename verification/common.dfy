/** Shared vocabulary of the model: Java's nullable references as `Option`,
    thrown exceptions as `Result`, HTTP replies as `Response`, the integer
    clock, and the order-keeping `Filter` that every derived repository query
    is built from. */
module Common {

  /** A Java reference that may be null, or a lookup that may find nothing. */
  datatype Option<+T> = None | Some(value: T) {
    function GetOr(default: T): T {
      match this
      case Some(v) => v
      case None => default
    }
  }

  /** The value of a call, or the message of the exception it threw. */
  datatype Result<+T> = Ok(value: T) | Err(message: string)

  /** Clock readings are integer milliseconds; `LocalDateTime.now()` and
      `Date.now()` become explicit parameters. */
  const SECOND: int := 1000
  const MINUTE: int := 60 * SECOND

  /** HTTP status codes the controllers return. */
  const OK: int := 200
  const BAD_REQUEST: int := 400
  const UNAUTHORIZED: int := 401
  const FORBIDDEN: int := 403
  const NOT_FOUND: int := 404
  const LOCKED: int := 423
  const INTERNAL_SERVER_ERROR: int := 500

  /** The body of a reply: a plain text message, a serialized value, nothing
      (`ResponseEntity.notFound().build()`), or the framework's default error
      page for an exception no handler caught. */
  datatype Body<+T> = Text(text: string) | Payload(value: T) | NoBody | ErrorPage

  datatype Response<+T> = Response(status: int, body: Body<T>)

  /** The elements of `s` that satisfy `keep`, in their original order. */
  function Filter<T(!new)>(s: seq<T>, keep: T -> bool): (r: seq<T>)
    ensures |r| <= |s|
    ensures forall i | 0 <= i < |r| :: keep(r[i])
    ensures forall x :: x in r <==> x in s && keep(x)
    ensures forall x :: multiset(r)[x] == if keep(x) then multiset(s)[x] else 0
  {
    if |s| == 0 then []
    else
      assert s == [s[0]] + s[1..];
      if keep(s[0]) then [s[0]] + Filter(s[1..], keep) else Filter(s[1..], keep)
  }

  /** Filtering with a predicate that holds everywhere on `s` changes nothing. */
  lemma {:induction false} FilterKeepsAll<T(!new)>(s: seq<T>, keep: T -> bool)
    requires forall i | 0 <= i < |s| :: keep(s[i])
    ensures Filter(s, keep) == s
  {
    if |s| > 0 {
      FilterKeepsAll(s[1..], keep);
    }
  }

  /** Two sequences that agree on which positions are kept, and on the kept
      elements, filter to the same sequence. */
  lemma {:induction false} FilterAgrees<T(!new)>(a: seq<T>, b: seq<T>, keep: T -> bool)
    requires |a| == |b|
    requires forall i | 0 <= i < |a| :: keep(a[i]) == keep(b[i])
    requires forall i | 0 <= i < |a| && keep(a[i]) :: a[i] == b[i]
    ensures Filter(a, keep) == Filter(b, keep)
  {
    if |a| > 0 {
      FilterAgrees(a[1..], b[1..], keep);
    }
  }

  /** The first element of `s` that satisfies `p`, as a repository's
      `findBy...` returns it. */
  function Find<T(!new)>(s: seq<T>, p: T -> bool): (r: Option<T>)
    ensures r.None? <==> forall x | x in s :: !p(x)
    ensures r.Some? ==> r.value in s && p(r.value)
    ensures r.Some? ==> exists i | 0 <= i < |s| :: s[i] == r.value && forall j | 0 <= j < i :: !p(s[j])
  {
    if |s| == 0 then None
    else if p(s[0]) then Some(s[0])
    else
      var r := Find(s[1..], p);
      assert r.Some? ==> exists i | 0 <= i < |s| :: s[i] == r.value && forall j | 0 <= j < i :: !p(s[j]) by {
        if r.Some? {
          var i :| 0 <= i < |s[1..]| && s[1..][i] == r.value && forall j | 0 <= j < i :: !p(s[1..][j]);
          assert s[i + 1] == r.value;
          assert forall j | 0 <= j < i + 1 :: !p(s[j]) by {
            forall j | 0 <= j < i + 1
              ensures !p(s[j])
            {
              if j > 0 {
                assert s[j] == s[1..][j - 1];
              }
            }
          }
        }
      }
      r
  }

  /** No two positions of `s` share a key. */
  ghost predicate DistinctBy<T, K>(s: seq<T>, key: T -> K) {
    forall i, j | 0 <= i < j < |s| :: key(s[i]) != key(s[j])
  }

  lemma DistinctByTail<T, K>(s: seq<T>, key: T -> K)
    requires |s| > 0 && DistinctBy(s, key)
    ensures DistinctBy(s[1..], key)
  {
    forall i, j | 0 <= i < j < |s| - 1
      ensures key(s[1..][i]) != key(s[1..][j])
    {
      assert s[1..][i] == s[i + 1] && s[1..][j] == s[j + 1];
    }
  }

  /** The head's key occurs nowhere in the tail. */
  lemma DistinctByHead<T, K>(s: seq<T>, key: T -> K)
    requires |s| > 0 && DistinctBy(s, key)
    ensures forall y | y in s[1..] :: key(y) != key(s[0])
  {
    forall y | y in s[1..]
      ensures key(y) != key(s[0])
    {
      var k :| 0 <= k < |s[1..]| && s[1..][k] == y;
      assert s[k + 1] == y;
    }
  }

  lemma DistinctByCons<T, K>(x: T, rest: seq<T>, key: T -> K)
    requires DistinctBy(rest, key)
    requires forall y | y in rest :: key(y) != key(x)
    ensures DistinctBy([x] + rest, key)
  {
    var r := [x] + rest;
    forall i, j | 0 <= i < j < |r|
      ensures key(r[i]) != key(r[j])
    {
      assert r[j] == rest[j - 1];
      if i > 0 {
        assert r[i] == rest[i - 1];
      }
    }
  }

  /** Filtering keeps keys distinct. */
  lemma {:induction false} FilterDistinctBy<T(!new), K>(s: seq<T>, keep: T -> bool, key: T -> K)
    requires DistinctBy(s, key)
    ensures DistinctBy(Filter(s, keep), key)
  {
    if |s| > 0 {
      DistinctByTail(s, key);
      DistinctByHead(s, key);
      FilterDistinctBy(s[1..], keep, key);
      if keep(s[0]) {
        DistinctByCons(s[0], Filter(s[1..], keep), key);
      }
    }
  }
}
