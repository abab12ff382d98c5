/** Shared vocabulary of the model: optional values, HTTP replies, and the
    array searches (`find`, `filter`) the controllers are built from. */
module Common {

  datatype Option<+T> = None | Some(value: T)

  /** A JavaScript `Date`: an instant in milliseconds since the epoch. Store
      filters compare Dates by instant, which is this datatype's equality.
      How an instant renders as `toDateString()` (a local calendar day) or as
      `toISOString()` is passed to the operations that need it as a function. */
  datatype Date = Date(epochMillis: int)

  /** What a handler sends back: a success status with a body, or an error
      status with the message of the JSON error body. */
  datatype Reply<+T> = Success(code: int, value: T) | Failure(code: int, message: string)

  /** `i` is the index `Array.prototype.find` lands on: the first element satisfying `p`. */
  predicate IsFirst<T>(s: seq<T>, p: T -> bool, i: int)
  {
    0 <= i < |s| && p(s[i]) && forall k :: 0 <= k < i ==> !p(s[k])
  }

  /** `Array.prototype.find`, returning the index of the element it finds. */
  function FindIndex<T>(s: seq<T>, p: T -> bool): (r: Option<nat>)
    ensures r.Some? ==> IsFirst(s, p, r.value)
    ensures r.None? ==> forall k :: 0 <= k < |s| ==> !p(s[k])
  {
    if |s| == 0 then None
    else if p(s[0]) then Some(0)
    else
      match FindIndex(s[1..], p)
      case None =>
        assert forall k :: 1 <= k < |s| ==> s[k] == s[1..][k - 1];
        None
      case Some(i) =>
        assert forall k :: 1 <= k < i + 1 ==> s[k] == s[1..][k - 1];
        Some(i + 1)
  }

  /** The first index is unique: two searches that agree on every element agree on the result. */
  lemma FirstIsUnique<T>(s: seq<T>, p: T -> bool, i: int, j: int)
    requires IsFirst(s, p, i) && IsFirst(s, p, j)
    ensures i == j
  {
  }

  /** `find` only looks at what `p` says of each element, so two sequences that
      `p` cannot tell apart give the same index. */
  lemma FindIndexCongruent<T>(a: seq<T>, b: seq<T>, p: T -> bool)
    requires |a| == |b|
    requires forall k :: 0 <= k < |a| ==> p(a[k]) == p(b[k])
    ensures FindIndex(a, p) == FindIndex(b, p)
  {
    var ra, rb := FindIndex(a, p), FindIndex(b, p);
    if ra.Some? && rb.Some? {
      assert IsFirst(b, p, ra.value);
      FirstIsUnique(b, p, ra.value, rb.value);
    }
  }

  /** Being the first match carries over to a sequence that `p` cannot tell apart. */
  lemma FirstTransfers<T>(a: seq<T>, b: seq<T>, p: T -> bool, i: int)
    requires |a| == |b|
    requires forall k :: 0 <= k < |a| ==> p(a[k]) == p(b[k])
    requires IsFirst(a, p, i)
    ensures IsFirst(b, p, i)
  {
  }

  /** Some element satisfies `p`. */
  predicate Any<T>(s: seq<T>, p: T -> bool)
  {
    exists i :: 0 <= i < |s| && p(s[i])
  }

  /** Splitting off the last element of an existential. */
  lemma AnySnoc<T>(s: seq<T>, p: T -> bool)
    requires |s| > 0
    ensures Any(s, p) <==> Any(s[..|s| - 1], p) || p(s[|s| - 1])
  {
    var init := s[..|s| - 1];
    if Any(s, p) {
      var i :| 0 <= i < |s| && p(s[i]);
      if i < |s| - 1 {
        assert init[i] == s[i];
      }
    }
    if Any(init, p) {
      var i :| 0 <= i < |init| && p(init[i]);
      assert s[i] == init[i];
    }
  }

  /** Cutting out element `i` keeps the elements before it and shifts those after it down by one. */
  lemma RemoveAt<T>(s: seq<T>, i: nat)
    requires i < |s|
    ensures |s[..i] + s[i + 1..]| == |s| - 1
    ensures forall k :: 0 <= k < i ==> (s[..i] + s[i + 1..])[k] == s[k]
    ensures forall k :: i < k < |s| ==> (s[..i] + s[i + 1..])[k - 1] == s[k]
  {
  }

  /** `Array.prototype.filter`. */
  function Filter<T>(s: seq<T>, p: T -> bool): (r: seq<T>)
    ensures |r| <= |s|
    ensures forall k :: 0 <= k < |r| ==> r[k] in s && p(r[k])
    ensures forall k :: 0 <= k < |s| && p(s[k]) ==> s[k] in r
  {
    if |s| == 0 then []
    else
      var rest := Filter(s[1..], p);
      assert forall k :: 1 <= k < |s| ==> s[k] == s[1..][k - 1];
      if p(s[0]) then [s[0]] + rest else rest
  }

  /** `filter` keeps the order of what it keeps: it distributes over concatenation. */
  lemma {:induction false} FilterConcat<T>(a: seq<T>, b: seq<T>, p: T -> bool)
    ensures Filter(a + b, p) == Filter(a, p) + Filter(b, p)
  {
    if |a| == 0 {
      assert a + b == b;
    } else {
      assert (a + b)[1..] == a[1..] + b;
      FilterConcat(a[1..], b, p);
    }
  }

  /** A `filter` that rejects nothing returns its input unchanged. */
  lemma {:induction false} FilterKeepsAll<T>(s: seq<T>, p: T -> bool)
    requires forall k :: 0 <= k < |s| ==> p(s[k])
    ensures Filter(s, p) == s
  {
    if |s| > 0 {
      assert forall k :: 0 <= k < |s[1..]| ==> s[1..][k] == s[k + 1];
      FilterKeepsAll(s[1..], p);
    }
  }
}
