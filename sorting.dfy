/**
 * What the SQL engine does with a result set: WHERE filters, ORDER BY sorts,
 * LIMIT/OFFSET windows. ORDER BY leaves the order of ties unspecified, so the
 * contracts here speak of sortedness and permutation, not of one fixed order.
 */
module Sorting {
  import opened Basics

  /** SQLSTATE conditions the backend can meet. */
  datatype DbError =
    | UniqueViolation        // 23505
    | ForeignKeyViolation    // 23503
    | NotNullViolation       // 23502
    | InvalidTextFormat      // 22P02
    | CheckViolation         // 23514
    | SyntaxError            // 42601
    | NegativeLimit          // 2201W
    | NegativeOffset         // 2201X

  /** The five-character SQLSTATE code the driver reports as `err.code`. */
  function SqlState(e: DbError): string {
    match e
    case UniqueViolation => "23505"
    case ForeignKeyViolation => "23503"
    case NotNullViolation => "23502"
    case InvalidTextFormat => "22P02"
    case CheckViolation => "23514"
    case SyntaxError => "42601"
    case NegativeLimit => "2201W"
    case NegativeOffset => "2201X"
  }

  // ---------------------------------------------------------------------------
  // Ordering

  ghost predicate TotalPreorder<T(!new)>(le: (T, T) -> bool) {
    && (forall a, b :: le(a, b) || le(b, a))
    && (forall a, b, c :: le(a, b) && le(b, c) ==> le(a, c))
  }

  /** `rel` holds of every pair of rows in table order: sortedness, or distinct keys. */
  predicate Pairwise<T>(s: seq<T>, rel: (T, T) -> bool) {
    forall i, j :: 0 <= i < j < |s| ==> rel(s[i], s[j])
  }

  predicate SortedBy<T>(s: seq<T>, le: (T, T) -> bool) {
    Pairwise(s, le)
  }

  lemma PairwiseAppend<T>(s: seq<T>, x: T, rel: (T, T) -> bool)
    requires Pairwise(s, rel)
    requires forall k :: 0 <= k < |s| ==> rel(s[k], x)
    ensures Pairwise(s + [x], rel)
  {
  }

  /** The first row of a sorted result is ordered before every row of it. */
  lemma SortedHead<T(!new)>(s: seq<T>, le: (T, T) -> bool)
    requires TotalPreorder(le) && SortedBy(s, le) && s != []
    ensures forall j :: 0 <= j < |s| ==> le(s[0], s[j])
  {
    forall j | 0 <= j < |s| ensures le(s[0], s[j]) {
      if j > 0 { assert le(s[0], s[j]); }
    }
  }

  /** A row ordered before every row of `s` and before `x` is ordered before every row of a permutation of both. */
  lemma BelowPermutation<T>(y: T, s: seq<T>, x: T, r: seq<T>, le: (T, T) -> bool)
    requires forall k :: 0 <= k < |s| ==> le(y, s[k])
    requires le(y, x)
    requires multiset(r) == multiset(s) + multiset{x}
    ensures forall k :: 0 <= k < |r| ==> le(y, r[k])
  {
    forall k | 0 <= k < |r| ensures le(y, r[k]) {
      var z := r[k];
      assert z in multiset(r);
      if z != x {
        assert z in multiset(s);
        var j :| 0 <= j < |s| && s[j] == z;
      }
    }
  }

  /** Insertion of one row into a result already in ORDER BY order. */
  function Insert<T(!new)>(x: T, s: seq<T>, le: (T, T) -> bool): (r: seq<T>)
    requires TotalPreorder(le) && SortedBy(s, le)
    ensures SortedBy(r, le)
    ensures multiset(r) == multiset(s) + multiset{x}
  {
    if s == [] then [x]
    else
      assert s == [s[0]] + s[1..];
      SortedHead(s, le);
      if le(x, s[0]) then
        [x] + s
      else
        var rest := Insert(x, s[1..], le);
        BelowPermutation(s[0], s[1..], x, rest, le);
        [s[0]] + rest
  }

  /** ORDER BY `le`: a sorted permutation of the rows. */
  function Sort<T(!new)>(s: seq<T>, le: (T, T) -> bool): (r: seq<T>)
    requires TotalPreorder(le)
    ensures SortedBy(r, le)
    ensures multiset(r) == multiset(s)
    ensures |r| == |s|
  {
    if s == [] then []
    else
      assert s == [s[0]] + s[1..];
      Insert(s[0], Sort(s[1..], le), le)
  }

  lemma SortedMembers<T(!new)>(s: seq<T>, le: (T, T) -> bool)
    requires TotalPreorder(le)
    ensures forall k :: 0 <= k < |Sort(s, le)| ==> Sort(s, le)[k] in s
  {
    var r := Sort(s, le);
    forall k | 0 <= k < |r| ensures r[k] in s {
      assert r[k] in multiset(r);
    }
  }

  // ---------------------------------------------------------------------------
  // Lexicographic order on strings (code-point collation).

  predicate StringLe(a: string, b: string) {
    if a == [] then true
    else if b == [] then false
    else if a[0] != b[0] then a[0] < b[0]
    else StringLe(a[1..], b[1..])
  }

  lemma {:induction false} StringLeTotal(a: string, b: string)
    ensures StringLe(a, b) || StringLe(b, a)
  {
    if a != [] && b != [] && a[0] == b[0] {
      StringLeTotal(a[1..], b[1..]);
    }
  }

  lemma {:induction false} StringLeTransitive(a: string, b: string, c: string)
    requires StringLe(a, b) && StringLe(b, c)
    ensures StringLe(a, c)
  {
    if a != [] && b != [] && c != [] && a[0] == b[0] && b[0] == c[0] {
      StringLeTransitive(a[1..], b[1..], c[1..]);
    }
  }

  lemma {:induction false} StringLeAntisymmetric(a: string, b: string)
    requires StringLe(a, b) && StringLe(b, a)
    ensures a == b
  {
    if a != [] && b != [] {
      StringLeAntisymmetric(a[1..], b[1..]);
      assert a == [a[0]] + a[1..] && b == [b[0]] + b[1..];
    }
  }

  // ---------------------------------------------------------------------------
  // WHERE

  function Filter<T(!new)>(s: seq<T>, p: T -> bool): (r: seq<T>)
    ensures |r| <= |s|
    ensures forall k :: 0 <= k < |r| ==> p(r[k]) && r[k] in s
  {
    if s == [] then []
    else
      assert s == [s[0]] + s[1..];
      if p(s[0]) then [s[0]] + Filter(s[1..], p) else Filter(s[1..], p)
  }

  /** The filter keeps exactly the rows that satisfy `p`. */
  lemma {:induction false} FilterMembers<T(!new)>(s: seq<T>, p: T -> bool, y: T)
    ensures y in Filter(s, p) <==> y in s && p(y)
  {
    if s != [] {
      FilterMembers(s[1..], p, y);
      assert s == [s[0]] + s[1..];
    }
  }

  lemma {:induction false} FilterAppend<T(!new)>(s: seq<T>, t: seq<T>, p: T -> bool)
    ensures Filter(s + t, p) == Filter(s, p) + Filter(t, p)
  {
    if s == [] {
      assert s + t == t;
    } else {
      assert (s + t)[1..] == s[1..] + t;
      FilterAppend(s[1..], t, p);
    }
  }

  /** Overwriting a row the filter drops with another it drops changes nothing. */
  lemma {:induction false} FilterUpdateDropped<T(!new)>(s: seq<T>, k: int, x: T, p: T -> bool)
    requires 0 <= k < |s| && !p(s[k]) && !p(x)
    ensures Filter(s[k := x], p) == Filter(s, p)
  {
    if k > 0 {
      assert s[k := x][1..] == s[1..][k - 1 := x];
      FilterUpdateDropped(s[1..], k - 1, x, p);
    }
  }

  lemma FilterAll<T(!new)>(s: seq<T>, p: T -> bool)
    requires forall k :: 0 <= k < |s| ==> p(s[k])
    ensures Filter(s, p) == s
  {
    if s != [] {
      FilterAll(s[1..], p);
      assert s == [s[0]] + s[1..];
    }
  }

  /** Filtering keeps the relative order of rows, so a sorted result stays sorted. */
  lemma {:induction false} FilterPairwise<T(!new)>(s: seq<T>, p: T -> bool, le: (T, T) -> bool)
    requires Pairwise(s, le)
    ensures Pairwise(Filter(s, p), le)
  {
    if s != [] {
      FilterPairwise(s[1..], p, le);
      var rest := Filter(s[1..], p);
      if p(s[0]) {
        forall k | 0 <= k < |rest| ensures le(s[0], rest[k]) {
          assert rest[k] in s[1..];
        }
      }
    }
  }

  /** A filter that drops exactly one row returns the table with that row cut out. */
  lemma {:induction false} FilterDropsOne<T(!new)>(s: seq<T>, k: int, p: T -> bool)
    requires 0 <= k < |s| && !p(s[k])
    requires forall j :: 0 <= j < |s| && j != k ==> p(s[j])
    ensures Filter(s, p) == s[..k] + s[k + 1..]
  {
    var rest := s[1..];
    assert forall j :: 0 <= j < |rest| ==> rest[j] == s[j + 1];
    if k == 0 {
      FilterAll(rest, p);
    } else {
      FilterDropsOne(rest, k - 1, p);
      assert s[..k] + s[k + 1..] == [s[0]] + (rest[..k - 1] + rest[k..]);
    }
  }

  /** A filter applied after a weaker one is the same as the stronger filter alone. */
  lemma {:induction false} FilterFilter<T(!new)>(s: seq<T>, p: T -> bool, q: T -> bool)
    requires forall x :: q(x) ==> p(x)
    ensures Filter(Filter(s, p), q) == Filter(s, q)
  {
    if s != [] {
      FilterFilter(s[1..], p, q);
    }
  }

  // ---------------------------------------------------------------------------
  // LIMIT / OFFSET

  function Min(a: int, b: int): int { if a <= b then a else b }

  /** The rows a `LIMIT limit OFFSET offset` clause keeps, or the error PostgreSQL raises. */
  function Paginate<T>(s: seq<T>, limit: int, offset: int): (r: Result<seq<T>, DbError>)
    ensures r.Err? <==> limit < 0 || offset < 0
    ensures r.Err? ==> r.error == (if offset < 0 then NegativeOffset else NegativeLimit)
    ensures r.Ok? ==> |r.value| <= limit
    ensures r.Ok? ==> |r.value| == (if offset >= |s| then 0 else Min(limit, |s| - offset))
    ensures r.Ok? ==> forall k :: 0 <= k < |r.value| ==> r.value[k] == s[offset + k]
  {
    if offset < 0 then Err(NegativeOffset)
    else if limit < 0 then Err(NegativeLimit)
    else if offset >= |s| then Ok([])
    else Ok(s[offset..offset + Min(limit, |s| - offset)])
  }

  /**
   * `LIMIT limit OFFSET offset` over the whole ordered result `all`: as many
   * rows as remain after the offset, at most `limit`, and they are the rows
   * `offset`, `offset + 1`, ... of `all`.
   */
  ghost predicate Window<T>(page: seq<T>, all: seq<T>, limit: int, offset: int) {
    && 0 <= offset
    && |page| == (if offset >= |all| then 0 else Min(limit, |all| - offset))
    && forall k :: 0 <= k < |page| ==> page[k] == all[offset + k]
  }

  /** A window of a sorted result is sorted, and each of its rows is a row of the result. */
  lemma WindowOfSorted<T>(page: seq<T>, all: seq<T>, limit: int, offset: int, le: (T, T) -> bool)
    requires Window(page, all, limit, offset) && SortedBy(all, le)
    ensures SortedBy(page, le)
    ensures forall k :: 0 <= k < |page| ==> page[k] in all
  {
    forall i, j | 0 <= i < j < |page| ensures le(page[i], page[j]) {
      assert page[i] == all[offset + i] && page[j] == all[offset + j];
    }
    forall k | 0 <= k < |page| ensures page[k] in all {
      assert page[k] == all[offset + k];
    }
  }

  /** The offset `(page - 1) * limit` the models compute from a page number. */
  function PageOffset(page: int, limit: int): int {
    (page - 1) * limit
  }

  lemma PageOffsetFacts(page: int, limit: int)
    requires page >= 1 && limit >= 0
    ensures PageOffset(page, limit) >= 0
    ensures PageOffset(page + 1, limit) == PageOffset(page, limit) + limit
  {
  }
}
