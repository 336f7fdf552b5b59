/**
 Order-preserving filtering and counting over sequences: the `Array.prototype.filter(...)`
 and `.filter(...).length` idiom used throughout the dashboard and the backend queries.
 */
module Seqs {

  /** The elements of `s` that satisfy `p`, in their original order. */
  function Filter<T(==)>(s: seq<T>, p: T -> bool): (r: seq<T>)
    ensures |r| <= |s|
    ensures forall i :: 0 <= i < |r| ==> r[i] in s && p(r[i])
    ensures forall i :: 0 <= i < |s| && p(s[i]) ==> s[i] in r
    decreases |s|
  {
    if |s| == 0 then []
    else (if p(s[0]) then [s[0]] else []) + Filter(s[1..], p)
  }

  /** The number of elements of `s` that satisfy `p`. */
  function Count<T(==)>(s: seq<T>, p: T -> bool): nat
  {
    |Filter(s, p)|
  }

  /** No element occurs twice. */
  predicate Distinct<T(==)>(s: seq<T>)
  {
    forall i, j :: 0 <= i < j < |s| ==> s[i] != s[j]
  }

  /** `a` can be obtained from `b` by deleting elements (without reordering). */
  predicate IsSubsequence<T(==)>(a: seq<T>, b: seq<T>)
    decreases |b|
  {
    if |a| == 0 then true
    else if |b| == 0 then false
    else (a[0] == b[0] && IsSubsequence(a[1..], b[1..])) || IsSubsequence(a, b[1..])
  }

  /** Filtering keeps the survivors in the order they had. */
  lemma {:induction false} FilterIsSubsequence<T>(s: seq<T>, p: T -> bool)
    ensures IsSubsequence(Filter(s, p), s)
    decreases |s|
  {
    if |s| > 0 {
      var rest := Filter(s[1..], p);
      FilterIsSubsequence(s[1..], p);
      if p(s[0]) {
        assert Filter(s, p) == [s[0]] + rest;
        assert ([s[0]] + rest)[1..] == rest;
      } else {
        assert Filter(s, p) == rest;
      }
    }
  }

  /** A filter whose predicate holds everywhere keeps everything. */
  lemma {:induction false} FilterAll<T>(s: seq<T>, p: T -> bool)
    requires forall i :: 0 <= i < |s| ==> p(s[i])
    ensures Filter(s, p) == s
    decreases |s|
  {
    if |s| > 0 {
      FilterAll(s[1..], p);
      assert [s[0]] + s[1..] == s;
    }
  }

  /** Filtering distributes over concatenation. */
  lemma {:induction false} FilterAppend<T>(s: seq<T>, t: seq<T>, p: T -> bool)
    ensures Filter(s + t, p) == Filter(s, p) + Filter(t, p)
    decreases |s|
  {
    if |s| == 0 {
      assert s + t == t;
    } else {
      assert (s + t)[0] == s[0];
      assert (s + t)[1..] == s[1..] + t;
      FilterAppend(s[1..], t, p);
    }
  }

  /** Appending one element adds one to the count exactly when it satisfies `p`. */
  lemma CountSnoc<T>(s: seq<T>, x: T, p: T -> bool)
    ensures Count(s + [x], p) == Count(s, p) + (if p(x) then 1 else 0)
  {
    FilterAppend(s, [x], p);
    assert Filter([x], p) == (if p(x) then [x] else []) + Filter([x][1..], p);
  }

  /** An element and its complement partition the sequence. */
  lemma {:induction false} CountComplement<T>(s: seq<T>, p: T -> bool, q: T -> bool)
    requires forall x :: q(x) == !p(x)
    ensures Count(s, p) + Count(s, q) == |s|
    decreases |s|
  {
    if |s| > 0 {
      CountComplement(s[1..], p, q);
    }
  }

  /** A predicate that is weaker on every element never counts fewer elements. */
  lemma {:induction false} CountMonotone<T>(s: seq<T>, p: T -> bool, q: T -> bool)
    requires forall i :: 0 <= i < |s| ==> p(s[i]) ==> q(s[i])
    ensures Count(s, p) <= Count(s, q)
    decreases |s|
  {
    if |s| > 0 {
      CountMonotone(s[1..], p, q);
    }
  }

  /** Predicates that agree on every element count the same. */
  lemma CountSame<T>(s: seq<T>, p: T -> bool, q: T -> bool)
    requires forall i :: 0 <= i < |s| ==> p(s[i]) == q(s[i])
    ensures Count(s, p) == Count(s, q)
  {
    CountMonotone(s, p, q);
    CountMonotone(s, q, p);
  }

  /** A predicate no element satisfies counts nothing. */
  lemma {:induction false} CountNone<T>(s: seq<T>, p: T -> bool)
    requires forall i :: 0 <= i < |s| ==> !p(s[i])
    ensures Count(s, p) == 0
    decreases |s|
  {
    if |s| > 0 {
      CountNone(s[1..], p);
    }
  }

  /** Counts split over a conjunction and its complement. */
  lemma {:induction false} CountSplit<T>(s: seq<T>, p: T -> bool, pq: T -> bool, pnq: T -> bool, q: T -> bool)
    requires forall x :: pq(x) == (p(x) && q(x))
    requires forall x :: pnq(x) == (p(x) && !q(x))
    ensures Count(s, p) == Count(s, pq) + Count(s, pnq)
    decreases |s|
  {
    if |s| > 0 {
      CountSplit(s[1..], p, pq, pnq, q);
    }
  }

  /**
   Replacing the first element that satisfies `p` by one that does not drops exactly the head
   of the filtered sequence.
   */
  lemma {:induction false} FilterUpdateFirst<T>(s: seq<T>, i: nat, x: T, p: T -> bool)
    requires i < |s| && p(s[i]) && !p(x)
    requires forall j :: 0 <= j < i ==> !p(s[j])
    ensures |Filter(s, p)| > 0 && Filter(s, p)[0] == s[i]
    ensures Filter(s[i := x], p) == Filter(s, p)[1..]
    decreases i
  {
    if i == 0 {
      assert s[i := x][1..] == s[1..];
    } else {
      assert !p(s[0]);
      assert s[i := x][0] == s[0];
      assert s[i := x][1..] == s[1..][i - 1 := x];
      FilterUpdateFirst(s[1..], i - 1, x, p);
    }
  }

  /** Replacing one element changes the count by what that element contributed. */
  lemma CountUpdate<T>(s: seq<T>, i: nat, x: T, p: T -> bool)
    requires i < |s|
    ensures Count(s[i := x], p) == Count(s, p) - (if p(s[i]) then 1 else 0) + (if p(x) then 1 else 0)
  {
    var a, b := s[..i], s[i + 1..];
    assert s == a + [s[i]] + b;
    assert s[i := x] == a + [x] + b;
    FilterAppend(a + [s[i]], b, p);
    FilterAppend(a + [x], b, p);
    CountSnoc(a, s[i], p);
    CountSnoc(a, x, p);
  }

  /** Every element is counted exactly when every element satisfies `p`. */
  lemma {:induction false} CountAllIff<T>(s: seq<T>, p: T -> bool)
    ensures Count(s, p) == |s| <==> forall i :: 0 <= i < |s| ==> p(s[i])
    decreases |s|
  {
    if |s| > 0 {
      CountAllIff(s[1..], p);
      assert forall i :: 1 <= i < |s| ==> s[i] == s[1..][i - 1];
    }
  }
}
