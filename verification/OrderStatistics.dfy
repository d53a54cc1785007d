/** Sorted copies, and the k-th smallest of a list said by counting. */
module OrderStatistics {
  import opened Prelude

  predicate Sorted(s: seq<real>) {
    forall i, j :: 0 <= i < j < |s| ==> s[i] <= s[j]
  }

  /** Insert into a sorted list, after its equals. */
  function Insert(s: seq<real>, x: real): (r: seq<real>)
    requires Sorted(s)
    ensures Sorted(r)
    ensures forall y <- r :: y == x || y in s
  {
    if s == [] || s[|s| - 1] <= x then s + [x]
    else
      var front, last := s[..|s| - 1], s[|s| - 1];
      var r := Insert(front, x);
      assert forall i :: 0 <= i < |r| ==> r[i] <= last by {
        forall i | 0 <= i < |r| ensures r[i] <= last { assert r[i] in r; assert r[i] == x || r[i] in front; }
      }
      r + [last]
  }

  lemma {:induction false} InsertAdds(s: seq<real>, x: real)
    requires Sorted(s)
    ensures multiset(Insert(s, x)) == multiset(s) + multiset{x}
  {
    if s != [] && s[|s| - 1] > x {
      InsertAdds(s[..|s| - 1], x);
      assert s == s[..|s| - 1] + [s[|s| - 1]];
    }
  }

  /** A sorted copy, as the array's sort by value gives it. */
  function Sort(s: seq<real>): (r: seq<real>)
    ensures Sorted(r) && multiset(r) == multiset(s) && |r| == |s|
  {
    if s == [] then []
    else
      var front := s[..|s| - 1];
      assert s == front + [s[|s| - 1]];
      InsertAdds(Sort(front), s[|s| - 1]);
      var r := Insert(Sort(front), s[|s| - 1]);
      assert |multiset(r)| == |multiset(s)|;
      r
  }

  function CountBelow(s: seq<real>, x: real): (r: nat)
    ensures r <= |s|
  {
    if s == [] then 0 else CountBelow(s[..|s| - 1], x) + if s[|s| - 1] < x then 1 else 0
  }

  function CountAtMost(s: seq<real>, x: real): (r: nat)
    ensures r <= |s|
  {
    if s == [] then 0 else CountAtMost(s[..|s| - 1], x) + if s[|s| - 1] <= x then 1 else 0
  }

  lemma {:induction false} CountAppend(a: seq<real>, b: seq<real>, x: real)
    ensures CountBelow(a + b, x) == CountBelow(a, x) + CountBelow(b, x)
    ensures CountAtMost(a + b, x) == CountAtMost(a, x) + CountAtMost(b, x)
  {
    if b == [] {
      assert a + b == a;
    } else {
      assert (a + b)[..|a + b| - 1] == a + b[..|b| - 1];
      CountAppend(a, b[..|b| - 1], x);
    }
  }

  lemma CountOne(y: real, x: real)
    ensures CountBelow([y], x) == (if y < x then 1 else 0) && CountAtMost([y], x) == if y <= x then 1 else 0
  {
    assert [y][..0] == [];
  }

  /** Taking one element out of a list takes its own part out of the counts. */
  lemma CountWithout(s: seq<real>, i: nat, x: real)
    requires i < |s|
    ensures CountBelow(s, x) == CountBelow(s[..i] + s[i + 1..], x) + if s[i] < x then 1 else 0
    ensures CountAtMost(s, x) == CountAtMost(s[..i] + s[i + 1..], x) + if s[i] <= x then 1 else 0
  {
    assert s == s[..i] + ([s[i]] + s[i + 1..]);
    CountAppend(s[..i], [s[i]] + s[i + 1..], x);
    CountAppend([s[i]], s[i + 1..], x);
    CountAppend(s[..i], s[i + 1..], x);
    CountOne(s[i], x);
  }

  /** Counting does not see order. */
  lemma {:induction false} CountPermutes(a: seq<real>, b: seq<real>, x: real)
    requires multiset(a) == multiset(b)
    ensures CountBelow(a, x) == CountBelow(b, x) && CountAtMost(a, x) == CountAtMost(b, x)
  {
    if a == [] {
      assert |multiset(b)| == 0;
    } else {
      var front, last := a[..|a| - 1], a[|a| - 1];
      assert a == front + [last];
      var i := Without(b, front, last);
      CountPermutes(front, b[..i] + b[i + 1..], x);
      CountWithout(b, i, x);
    }
  }

  /** In a sorted list the elements below `x` are a prefix, and so are those at most `x`. */
  lemma {:induction false} SortedCounts(s: seq<real>, x: real)
    requires Sorted(s)
    ensures forall i :: 0 <= i < |s| ==> (s[i] < x <==> i < CountBelow(s, x)) && (s[i] <= x <==> i < CountAtMost(s, x))
  {
    if s != [] {
      SortedCounts(s[..|s| - 1], x);
      assert forall i :: 0 <= i < |s| - 1 ==> s[..|s| - 1][i] == s[i];
      if |s| > 1 {
        assert s[|s| - 2] <= s[|s| - 1];
      }
    }
  }

  /** The k-th smallest, from 0. */
  function Nth(s: seq<real>, k: nat): real
    requires k < |s|
  {
    Sort(s)[k]
  }

  /**
   * At most `k` elements lie below `x` exactly when the k-th smallest is `x` or more; more than `k` are at most `x`
   * exactly when it is `x` or less.
   */
  lemma NthByCounting(s: seq<real>, k: nat, x: real)
    requires k < |s|
    ensures x <= Nth(s, k) <==> CountBelow(s, x) <= k
    ensures Nth(s, k) <= x <==> k < CountAtMost(s, x)
  {
    SortedCounts(Sort(s), x);
    CountPermutes(Sort(s), s, x);
  }

  lemma NthMonotone(s: seq<real>, i: nat, j: nat)
    requires i <= j < |s|
    ensures Nth(s, i) <= Nth(s, j)
  {
    if i < j {
      var sorted := Sort(s);
      assert Sorted(sorted) && sorted[i] <= sorted[j];
    }
  }

  lemma NthPermutes(a: seq<real>, b: seq<real>, k: nat)
    requires multiset(a) == multiset(b) && k < |a|
    ensures |a| == |b| && Nth(a, k) == Nth(b, k)
  {
    assert |multiset(a)| == |multiset(b)|;
    CountPermutes(a, b, Nth(a, k));
    CountPermutes(a, b, Nth(b, k));
    NthByCounting(a, k, Nth(a, k));
    NthByCounting(b, k, Nth(a, k));
  }

  lemma NthIsOneOf(s: seq<real>, k: nat)
    requires k < |s|
    ensures Nth(s, k) in s
  {
    assert Nth(s, k) in multiset(Sort(s));
  }

  // ---------------------------------------------------------------- mirrored lists

  function Negated(s: seq<real>): (r: seq<real>)
    ensures |r| == |s| && forall i :: 0 <= i < |s| ==> r[i] == -s[i]
  {
    seq(|s|, i requires 0 <= i < |s| => -s[i])
  }

  lemma {:induction false} CountNegated(s: seq<real>, x: real)
    ensures CountBelow(Negated(s), -x) == |s| - CountAtMost(s, x)
    ensures CountAtMost(Negated(s), -x) == |s| - CountBelow(s, x)
  {
    if s != [] {
      CountNegated(s[..|s| - 1], x);
      assert Negated(s)[..|s| - 1] == Negated(s[..|s| - 1]);
    }
  }

  /** The k-th smallest is the one value with at most `k` elements below it and more than `k` at most it. */
  lemma NthIsTheOnly(s: seq<real>, k: nat, x: real)
    requires k < |s|
    ensures Nth(s, k) == x <==> CountBelow(s, x) <= k < CountAtMost(s, x)
  {
    NthByCounting(s, k, x);
  }

  /** Mirroring a list mirrors its order statistics. */
  lemma NthNegated(s: seq<real>, k: nat)
    requires k < |s|
    ensures Nth(Negated(s), k) == -Nth(s, |s| - 1 - k)
  {
    var mirror := |s| - 1 - k;
    var x := Nth(s, mirror);
    MirroredCounts(s, mirror, x);
    NthIsTheOnly(Negated(s), k, -x);
  }

  lemma MirroredCounts(s: seq<real>, k: nat, x: real)
    requires k < |s| && Nth(s, k) == x
    ensures CountBelow(Negated(s), -x) <= |s| - 1 - k < CountAtMost(Negated(s), -x)
  {
    NthIsTheOnly(s, k, x);
    CountNegated(s, x);
  }
}
