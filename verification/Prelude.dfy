/** Shared value types, and the few facts about sequences every module below needs. */
module Prelude {

  datatype Option<+T> = None | Some(value: T) {
    function GetOr(default: T): T {
      if Some? then value else default
    }
  }

  datatype Result<+T, +E> = Ok(value: T) | Err(error: E)

  /** A `Date.now()` reading: always positive, so a stored time is never falsy. */
  type Time = t: int | 0 < t witness 1

  /** What `trim` takes off the ends of a text. */
  predicate WhiteSpace(c: char) {
    || c in {' ', '\t', '\n', '\r', '\U{B}', '\U{C}', '\U{A0}', '\U{1680}', '\U{2028}', '\U{2029}', '\U{202F}',
             '\U{205F}', '\U{3000}', '\U{FEFF}'}
    || '\U{2000}' <= c <= '\U{200A}'
  }

  /** A text of nothing but white space, the empty one among them. */
  predicate Blank(text: string) {
    forall c <- text :: WhiteSpace(c)
  }

  /** The elements of `s` that satisfy `p`, in order. */
  function Filter<T(!new)>(s: seq<T>, p: T -> bool): (r: seq<T>)
    ensures forall x :: x in r <==> x in s && p(x)
    ensures |r| <= |s|
  {
    if s == [] then []
    else if p(s[0]) then [s[0]] + Filter(s[1..], p)
    else Filter(s[1..], p)
  }

  /** `f` over every element of `s`, in order. */
  function Map<T, U>(s: seq<T>, f: T -> U): (r: seq<U>)
    ensures |r| == |s| && forall i :: 0 <= i < |s| ==> r[i] == f(s[i])
  {
    seq(|s|, i requires 0 <= i < |s| => f(s[i]))
  }

  /** The first `n` elements of `s`, or all of them. */
  function Take<T>(s: seq<T>, n: nat): (r: seq<T>)
    ensures |r| <= n && r <= s
    ensures |s| <= n ==> r == s
  {
    if |s| <= n then s else s[..n]
  }

  /** Where the last element of a list stands in any list of the same elements, and that the others agree. */
  lemma Without<T>(b: seq<T>, front: seq<T>, last: T) returns (i: nat)
    requires multiset(b) == multiset(front) + multiset{last}
    ensures i < |b| && b[i] == last && multiset(b[..i] + b[i + 1..]) == multiset(front)
  {
    assert last in multiset(b);
    i :| 0 <= i < |b| && b[i] == last;
    var rest := b[..i] + b[i + 1..];
    assert b == b[..i] + [b[i]] + b[i + 1..];
    assert multiset(rest) == multiset(b) - multiset{last};
    assert multiset(front) == multiset(b) - multiset{last};
  }

  /** A list with no repeats is as long as the set of its elements is large. */
  lemma {:induction false} SameSize<T>(list: seq<T>, elements: set<T>)
    requires forall i, j :: 0 <= i < j < |list| ==> list[i] != list[j]
    requires forall x :: x in list <==> x in elements
    ensures |list| == |elements|
  {
    if list == [] {
      assert elements == {};
    } else {
      var front, last := list[..|list| - 1], list[|list| - 1];
      assert list == front + [last];
      SameSize(front, elements - {last});
    }
  }
}
