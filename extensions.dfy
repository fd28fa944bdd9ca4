/** The `MyExtensions` LINQ helpers: `ValuesLessThan`, a filter keeping the
    values strictly below a threshold, and `IsEmpty`, the negation of `Any`.
    An `IEnumerable` is a finite sequence here.  `ValuesLessThan` is modelled
    on a snapshot of the source taken at the call, whereas `Where` is lazy and
    reads the source each time the result is enumerated; `IsEmpty` enumerates
    at once. */
module Extensions {

  /** `a` can be obtained from `b` by deleting elements: order is kept. */
  predicate IsSubsequence<T(==)>(a: seq<T>, b: seq<T>)
  {
    if a == [] then true
    else if b == [] then false
    else if a[0] == b[0] then IsSubsequence(a[1..], b[1..])
    else IsSubsequence(a, b[1..])
  }

  /** `source.Where(x => x < threshold)`. */
  function ValuesLessThan(source: seq<int>, threshold: int): (r: seq<int>)
    ensures |r| <= |source|
    ensures forall x :: x in r <==> x in source && x < threshold
    ensures forall x :: multiset(r)[x] == if x < threshold then multiset(source)[x] else 0
  {
    if source == [] then []
    else
      var rest := ValuesLessThan(source[1..], threshold);
      assert source == [source[0]] + source[1..];
      if source[0] < threshold then [source[0]] + rest else rest
  }

  /** `!enumerable.Any()`. */
  function IsEmpty<T>(enumerable: seq<T>): (empty: bool)
    ensures empty <==> enumerable == []
  {
    |enumerable| == 0
  }

  /** The kept values appear in the order of the input. */
  lemma {:induction false} ValuesLessThanKeepsOrder(source: seq<int>, threshold: int)
    ensures IsSubsequence(ValuesLessThan(source, threshold), source)
  {
    if source != [] {
      ValuesLessThanKeepsOrder(source[1..], threshold);
      var rest := ValuesLessThan(source[1..], threshold);
      if source[0] >= threshold {
        SubsequenceOfTail(rest, source);
      }
    }
  }

  lemma {:induction false} SubsequenceOfTail<T>(a: seq<T>, b: seq<T>)
    requires b != [] && IsSubsequence(a, b[1..])
    ensures IsSubsequence(a, b)
    decreases |a| + |b|
  {
    if a != [] && a[0] == b[0] {
      DropHead(a, b[1..]);
    }
  }

  lemma {:induction false} DropHead<T>(a: seq<T>, c: seq<T>)
    requires a != [] && IsSubsequence(a, c)
    ensures IsSubsequence(a[1..], c)
    decreases |a| + |c|
  {
    if a[0] == c[0] {
      SubsequenceOfTail(a[1..], c);
    } else {
      DropHead(a, c[1..]);
      SubsequenceOfTail(a[1..], c);
    }
  }

  /** Filtering twice with the same threshold is filtering once. */
  lemma {:induction false} ValuesLessThanIdempotent(source: seq<int>, threshold: int)
    ensures ValuesLessThan(ValuesLessThan(source, threshold), threshold) == ValuesLessThan(source, threshold)
  {
    if source != [] {
      ValuesLessThanIdempotent(source[1..], threshold);
    }
  }

  /** Filtering distributes over concatenation. */
  lemma {:induction false} ValuesLessThanAppend(a: seq<int>, b: seq<int>, threshold: int)
    ensures ValuesLessThan(a + b, threshold) == ValuesLessThan(a, threshold) + ValuesLessThan(b, threshold)
  {
    if a != [] {
      ValuesLessThanAppend(a[1..], b, threshold);
      assert (a + b)[1..] == a[1..] + b;
    } else {
      assert a + b == b;
    }
  }

  /** The filtered sequence is empty exactly when no value is below the
      threshold. */
  lemma EmptyFilter(source: seq<int>, threshold: int)
    ensures IsEmpty(ValuesLessThan(source, threshold)) <==> forall i :: 0 <= i < |source| ==> source[i] >= threshold
  {
    if !IsEmpty(ValuesLessThan(source, threshold)) {
      var x := ValuesLessThan(source, threshold)[0];
      assert x in source;
    }
  }

  /** Values equal to the threshold are dropped. */
  lemma ThresholdExcluded(source: seq<int>, threshold: int)
    ensures threshold !in ValuesLessThan(source, threshold)
    ensures ValuesLessThan([1, 5, 3, 5, 7], 5) == [1, 3]
  {
  }
}
