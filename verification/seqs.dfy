/** Order-preserving selection over sequences, the shape of Ruby's
    `select` and `delete_if` on arrays and hashes. */
module Seqs {

  /** The elements of `s` that satisfy `keep`, in their original order. */
  function Filter<T(==,!new)>(s: seq<T>, keep: T -> bool): (r: seq<T>)
    ensures |r| <= |s|
    ensures forall x :: x in r <==> x in s && keep(x)
  {
    if |s| == 0 then []
    else
      assert s == [s[0]] + s[1..];
      (if keep(s[0]) then [s[0]] else []) + Filter(s[1..], keep)
  }

  /** Every element the filter keeps occurs as often as in the input. */
  lemma {:induction false} FilterCount<T(!new)>(s: seq<T>, keep: T -> bool, x: T)
    ensures multiset(Filter(s, keep))[x] == if keep(x) then multiset(s)[x] else 0
  {
    if |s| > 0 {
      FilterCount(s[1..], keep, x);
      assert s == [s[0]] + s[1..];
    }
  }

  /** Filtering commutes with concatenation: survivors keep their relative order. */
  lemma {:induction false} FilterAppend<T(!new)>(a: seq<T>, b: seq<T>, keep: T -> bool)
    ensures Filter(a + b, keep) == Filter(a, keep) + Filter(b, keep)
  {
    if |a| == 0 {
      assert a + b == b;
    } else {
      assert (a + b)[1..] == a[1..] + b;
      FilterAppend(a[1..], b, keep);
    }
  }

  /** A filter that rejects nothing returns its input. */
  lemma {:induction false} FilterKeepsAll<T(!new)>(s: seq<T>, keep: T -> bool)
    requires forall i :: 0 <= i < |s| ==> keep(s[i])
    ensures Filter(s, keep) == s
  {
    if |s| > 0 {
      FilterKeepsAll(s[1..], keep);
    }
  }

  /** Overwriting an element with one the filter rejects is deleting it. */
  lemma FilterUpdateRejected<T(!new)>(s: seq<T>, i: nat, x: T, keep: T -> bool)
    requires i < |s| && !keep(x)
    ensures Filter(s[i := x], keep) == Filter(s[..i] + s[i + 1..], keep)
  {
    var before, after := s[..i], s[i + 1..];
    assert s[i := x] == before + [x] + after;
    FilterAppend(before + [x], after, keep);
    FilterAppendRejected(before, x, keep);
    FilterAppend(before, after, keep);
  }

  /** Appending an element the filter rejects changes nothing. */
  lemma FilterAppendRejected<T(!new)>(s: seq<T>, x: T, keep: T -> bool)
    requires !keep(x)
    ensures Filter(s + [x], keep) == Filter(s, keep)
  {
    FilterAppend(s, [x], keep);
    assert Filter([x], keep) == [];
    assert Filter(s, keep) + [] == Filter(s, keep);
  }

  /** The first element a filter keeps is the first element of the input
      that passes the test. */
  lemma {:induction false} FirstKept<T(!new)>(s: seq<T>, keep: T -> bool) returns (i: nat)
    requires |Filter(s, keep)| > 0
    ensures i < |s| && s[i] == Filter(s, keep)[0] && keep(s[i])
    ensures forall j :: 0 <= j < i ==> !keep(s[j])
  {
    if keep(s[0]) {
      i := 0;
    } else {
      var k := FirstKept(s[1..], keep);
      i := k + 1;
      forall j | 0 <= j < i ensures !keep(s[j]) {
        if j > 0 {
          assert s[j] == s[1..][j - 1];
        }
      }
    }
  }

  /** The last element a filter keeps is the last element of the input
      that passes the test. */
  lemma {:induction false} LastKept<T(!new)>(s: seq<T>, keep: T -> bool) returns (i: nat)
    requires |Filter(s, keep)| > 0
    ensures i < |s| && s[i] == Filter(s, keep)[|Filter(s, keep)| - 1] && keep(s[i])
    ensures forall j :: i < j < |s| ==> !keep(s[j])
  {
    var n := |s| - 1;
    assert s == s[..n] + [s[n]];
    FilterAppend(s[..n], [s[n]], keep);
    if keep(s[n]) {
      i := n;
    } else {
      assert Filter([s[n]], keep) == [];
      assert Filter(s, keep) == Filter(s[..n], keep);
      i := LastKept(s[..n], keep);
    }
  }

  /** Filtering twice by the same test is filtering once. */
  lemma FilterIdempotent<T(!new)>(s: seq<T>, keep: T -> bool)
    ensures Filter(Filter(s, keep), keep) == Filter(s, keep)
  {
    var r := Filter(s, keep);
    forall i | 0 <= i < |r|
      ensures keep(r[i])
    {
      assert r[i] in r;
    }
    FilterKeepsAll(r, keep);
  }
}
