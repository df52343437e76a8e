/**
  Shared vocabulary of the model: optional values and results, the two
  Python string tests the scraper uses (`str.startswith` and `in`), and an
  order-preserving filter over sequences with the facts the other modules
  need about it.
 */
module Base {

  /** Python's `None` or a value. */
  datatype Option<+T> = None | Some(value: T)

  /** A computation that either returns a value or raises. */
  datatype Result<+T, +E> = Ok(value: T) | Err(error: E)

  /** `s.startswith(prefix)` */
  predicate StartsWith(s: string, prefix: string) {
    |prefix| <= |s| && s[..|prefix|] == prefix
  }

  /** `sub` occurs in `s` starting at index `i`. */
  predicate ContainsAt(s: string, sub: string, i: int) {
    0 <= i && i + |sub| <= |s| && s[i..i + |sub|] == sub
  }

  /** `sub in s` */
  predicate Contains(s: string, sub: string) {
    exists i | 0 <= i <= |s| - |sub| :: ContainsAt(s, sub, i)
  }

  /** The elements of `xs` that satisfy `p`, in their original order. */
  function Filter<T>(p: T -> bool, xs: seq<T>): (r: seq<T>)
    ensures |r| <= |xs|
    ensures forall x | x in r :: x in xs && p(x)
    ensures forall x | x in xs && p(x) :: x in r
  {
    if |xs| == 0 then []
    else (if p(xs[0]) then [xs[0]] else []) + Filter(p, xs[1..])
  }

  /** `a` can be obtained from `b` by deleting elements. */
  predicate IsSubsequence<T(==)>(a: seq<T>, b: seq<T>)
    decreases |b|
  {
    if |a| == 0 then true
    else if |b| == 0 then false
    else if a[0] == b[0] then IsSubsequence(a[1..], b[1..])
    else IsSubsequence(a, b[1..])
  }

  /** A subsequence of a suffix is a subsequence of the whole. */
  lemma {:induction false} SubsequenceOfSuffix<T>(a: seq<T>, b: seq<T>, n: nat)
    requires n <= |b|
    requires IsSubsequence(a, b[n..])
    ensures IsSubsequence(a, b)
    decreases n
  {
    if n > 0 {
      assert b[1..][n - 1..] == b[n..];
      SubsequenceOfSuffix(a, b[1..], n - 1);
      SubsequenceCons(a, b);
    }
  }

  /** Putting an element in front of the longer sequence keeps the relation. */
  lemma {:induction false} SubsequenceCons<T>(a: seq<T>, b: seq<T>)
    requires |b| > 0
    requires IsSubsequence(a, b[1..])
    ensures IsSubsequence(a, b)
    decreases |b|, 0
  {
    if |a| > 0 && a[0] == b[0] {
      SubsequenceDropHead(a, b[1..]);
    }
  }

  /** Dropping the first element of the shorter sequence keeps the relation. */
  lemma {:induction false} SubsequenceDropHead<T>(a: seq<T>, b: seq<T>)
    requires |a| > 0
    requires IsSubsequence(a, b)
    ensures IsSubsequence(a[1..], b)
    decreases |b|, 1
  {
    if |b| > 0 {
      if a[0] == b[0] {
        SubsequenceCons(a[1..], b);
      } else {
        SubsequenceDropHead(a, b[1..]);
        SubsequenceCons(a[1..], b);
      }
    }
  }

  /** Filtering keeps, for each element it accepts, every occurrence. */
  lemma {:induction false} FilterCounts<T>(p: T -> bool, xs: seq<T>, x: T)
    ensures p(x) ==> multiset(Filter(p, xs))[x] == multiset(xs)[x]
    ensures !p(x) ==> multiset(Filter(p, xs))[x] == 0
  {
    if |xs| > 0 {
      FilterCounts(p, xs[1..], x);
      assert xs == [xs[0]] + xs[1..];
    }
  }

  /** Filtering distributes over concatenation: order is preserved. */
  lemma {:induction false} FilterConcat<T>(p: T -> bool, a: seq<T>, b: seq<T>)
    ensures Filter(p, a + b) == Filter(p, a) + Filter(p, b)
  {
    if |a| == 0 {
      assert a + b == b;
    } else {
      assert (a + b)[1..] == a[1..] + b;
      FilterConcat(p, a[1..], b);
    }
  }

  /** The filtered sequence is a subsequence of the original. */
  lemma {:induction false} FilterIsSubsequence<T>(p: T -> bool, xs: seq<T>)
    ensures IsSubsequence(Filter(p, xs), xs)
  {
    if |xs| > 0 {
      FilterIsSubsequence(p, xs[1..]);
      if p(xs[0]) {
        assert Filter(p, xs)[1..] == Filter(p, xs[1..]);
      } else {
        assert Filter(p, xs) == Filter(p, xs[1..]);
      }
    }
  }

  /** Filtering by a weaker test first changes nothing. */
  lemma {:induction false} FilterFilter<T>(p: T -> bool, q: T -> bool, xs: seq<T>)
    requires forall x :: q(x) ==> p(x)
    ensures Filter(q, Filter(p, xs)) == Filter(q, xs)
  {
    if |xs| > 0 {
      FilterFilter(p, q, xs[1..]);
      if p(xs[0]) {
        assert Filter(p, xs) == [xs[0]] + Filter(p, xs[1..]);
        FilterConcat(q, [xs[0]], Filter(p, xs[1..]));
        assert Filter(q, [xs[0]]) == if q(xs[0]) then [xs[0]] else [];
      } else {
        assert !q(xs[0]);
        assert Filter(p, xs) == Filter(p, xs[1..]);
        assert Filter(q, xs) == Filter(q, xs[1..]);
      }
    }
  }

  /** A filter keeps everything exactly when every element passes. */
  lemma {:induction false} FilterKeepsAll<T>(p: T -> bool, xs: seq<T>)
    ensures Filter(p, xs) == xs <==> forall i | 0 <= i < |xs| :: p(xs[i])
    ensures |Filter(p, xs)| == |xs| ==> Filter(p, xs) == xs
  {
    if |xs| > 0 {
      FilterKeepsAll(p, xs[1..]);
      if !p(xs[0]) {
        assert |Filter(p, xs)| < |xs|;
      }
    }
  }

  /** `y` is `f` of some element of `xs`. */
  predicate IsImageOf<T, U(==)>(y: U, f: T -> U, xs: seq<T>) {
    exists i | 0 <= i < |xs| :: f(xs[i]) == y
  }

  lemma ImageSnoc<T, U>(y: U, f: T -> U, xs: seq<T>)
    requires |xs| > 0
    ensures IsImageOf(y, f, xs) <==> IsImageOf(y, f, xs[..|xs| - 1]) || f(xs[|xs| - 1]) == y
  {
    var init := xs[..|xs| - 1];
    if IsImageOf(y, f, init) {
      var i :| 0 <= i < |init| && f(init[i]) == y;
      assert xs[i] == init[i];
    }
  }

  lemma ImageConcat<T, U>(y: U, f: T -> U, a: seq<T>, b: seq<T>)
    ensures IsImageOf(y, f, a + b) <==> IsImageOf(y, f, a) || IsImageOf(y, f, b)
  {
    if IsImageOf(y, f, a + b) {
      var i :| 0 <= i < |a + b| && f((a + b)[i]) == y;
      if i < |a| {
        assert a[i] == (a + b)[i];
      } else {
        assert b[i - |a|] == (a + b)[i];
      }
    }
    if IsImageOf(y, f, a) {
      var i :| 0 <= i < |a| && f(a[i]) == y;
      assert (a + b)[i] == a[i];
    }
    if IsImageOf(y, f, b) {
      var i :| 0 <= i < |b| && f(b[i]) == y;
      assert (a + b)[|a| + i] == b[i];
    }
  }

  /** Filters that agree position by position keep the same number of
      elements. */
  lemma {:induction false} FilterSameLength<T, U>(p: T -> bool, xs: seq<T>, q: U -> bool, ys: seq<U>)
    requires |xs| == |ys|
    requires forall i | 0 <= i < |xs| :: p(xs[i]) <==> q(ys[i])
    ensures |Filter(p, xs)| == |Filter(q, ys)|
  {
    if |xs| > 0 {
      FilterSameLength(p, xs[1..], q, ys[1..]);
    }
  }

  /** The first element of `xs` that satisfies `p`, if any. */
  function FindFirst<T>(p: T -> bool, xs: seq<T>): (r: Option<T>)
    ensures r.Some? ==> r.value in xs && p(r.value)
  {
    if |xs| == 0 then None
    else if p(xs[0]) then Some(xs[0])
    else FindFirst(p, xs[1..])
  }

  /** None of the first `n` elements of `xs` satisfies `p`. */
  predicate NoneBefore<T>(p: T -> bool, xs: seq<T>, n: int) {
    forall j | 0 <= j < n && j < |xs| :: !p(xs[j])
  }

  lemma NoneBeforeShift<T>(p: T -> bool, xs: seq<T>, n: int)
    requires |xs| > 0 && 0 <= n
    ensures NoneBefore(p, xs, n + 1) <==> !p(xs[0]) && NoneBefore(p, xs[1..], n)
  {
    var t := xs[1..];
    if !p(xs[0]) && NoneBefore(p, t, n) {
      forall j | 0 < j < n + 1 && j < |xs|
        ensures !p(xs[j])
      {
        assert xs[j] == t[j - 1];
      }
    }
  }

  /** `FindFirst` finds nothing exactly when no element passes, and
      otherwise returns the earliest one that does. */
  lemma {:induction false} FindFirstSpec<T>(p: T -> bool, xs: seq<T>)
    ensures FindFirst(p, xs) == None <==> NoneBefore(p, xs, |xs|)
    ensures forall i | 0 <= i < |xs| :: p(xs[i]) && NoneBefore(p, xs, i) ==>
      FindFirst(p, xs) == Some(xs[i])
  {
    if |xs| > 0 {
      var t := xs[1..];
      FindFirstSpec(p, t);
      NoneBeforeShift(p, xs, |t|);
      if !p(xs[0]) {
        forall i | 0 <= i < |xs| && p(xs[i]) && NoneBefore(p, xs, i)
          ensures FindFirst(p, xs) == Some(xs[i])
        {
          assert i > 0;
          NoneBeforeShift(p, xs, i - 1);
          assert t[i - 1] == xs[i];
        }
      }
    }
  }

  /** Applies `f` to each element in order and collects the values; the
      first error ends the traversal and is the result. */
  function MapUntilErr<T, R, E>(f: T --> Result<R, E>, xs: seq<T>): (r: Result<seq<R>, E>)
    requires forall i | 0 <= i < |xs| :: f.requires(xs[i])
    ensures r.Ok? <==> forall i | 0 <= i < |xs| :: f(xs[i]).Ok?
    ensures r.Ok? ==> |r.value| == |xs|
  {
    if |xs| == 0 then Ok([])
    else match f(xs[0])
      case Err(e) => Err(e)
      case Ok(y) =>
        match MapUntilErr(f, xs[1..])
        case Err(e) => Err(e)
        case Ok(ys) => Ok([y] + ys)
  }

  /** On success the k-th value is `f` of the k-th element. */
  lemma {:induction false} MapUntilErrValues<T, R, E>(f: T --> Result<R, E>, xs: seq<T>)
    requires forall i | 0 <= i < |xs| :: f.requires(xs[i])
    requires MapUntilErr(f, xs).Ok?
    ensures forall k | 0 <= k < |xs| :: f(xs[k]) == Ok(MapUntilErr(f, xs).value[k])
  {
    if |xs| > 0 {
      var ys := MapUntilErr(f, xs[1..]).value;
      MapUntilErrValues(f, xs[1..]);
      assert MapUntilErr(f, xs).value == [f(xs[0]).value] + ys;
      forall k | 1 <= k < |xs|
        ensures f(xs[k]) == Ok(MapUntilErr(f, xs).value[k])
      {
        assert xs[k] == xs[1..][k - 1];
      }
    }
  }

  /** Mapping over the filtered elements succeeds exactly when `f`
      succeeds on every element that passes the filter. */
  lemma FilterThenMapOk<T, R, E>(p: T -> bool, f: T --> Result<R, E>, xs: seq<T>)
    requires forall x :: p(x) ==> f.requires(x)
    ensures forall i | 0 <= i < |Filter(p, xs)| :: f.requires(Filter(p, xs)[i])
    ensures MapUntilErr(f, Filter(p, xs)).Ok? <==>
      forall i | 0 <= i < |xs| :: p(xs[i]) ==> f(xs[i]).Ok?
  {
    var ys := Filter(p, xs);
    assert forall k | 0 <= k < |ys| :: ys[k] in ys;
    if MapUntilErr(f, ys).Err? {
      var k :| 0 <= k < |ys| && f(ys[k]).Err?;
      assert ys[k] in xs;
    } else {
      forall i | 0 <= i < |xs| && p(xs[i])
        ensures f(xs[i]).Ok?
      {
        assert xs[i] in ys;
      }
    }
  }
}
