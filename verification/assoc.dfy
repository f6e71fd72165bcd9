/** A Ruby `Hash` with string keys, modelled as an association list: the
    entries in insertion order, no key twice. Assigning to a present key
    updates that entry where it stands; assigning a new key appends it;
    deleting keeps the other entries in their order. */
module Assoc {
  import opened Wrappers
  import opened Seqs

  /** No two entries share a key. */
  predicate UniqueKeys<V>(m: seq<(string, V)>) {
    forall i, j :: 0 <= i < j < |m| ==> m[i].0 != m[j].0
  }

  /** An association list as Ruby keeps a `Hash`. */
  type Hash<V> = m: seq<(string, V)> | UniqueKeys(m) witness []

  predicate HasKey<V>(m: seq<(string, V)>, k: string) {
    exists i :: 0 <= i < |m| && m[i].0 == k
  }

  /** The keys, in order (Ruby's `Hash#keys`). */
  function Keys<V>(m: seq<(string, V)>): (ks: seq<string>)
    ensures |ks| == |m|
    ensures forall i :: 0 <= i < |m| ==> ks[i] == m[i].0
  {
    seq(|m|, i requires 0 <= i < |m| => m[i].0)
  }

  /** Position of the first entry for `k`. */
  function Find<V>(m: seq<(string, V)>, k: string): (r: Option<nat>)
    ensures r.None? <==> !HasKey(m, k)
    ensures r.Some? ==> r.value < |m| && m[r.value].0 == k
  {
    if |m| == 0 then None
    else if m[0].0 == k then Some(0)
    else match Find(m[1..], k)
      case None => None
      case Some(i) => Some(i + 1)
  }

  /** `m[k]`: the value stored under `k`, `None` when the key is absent. */
  function Lookup<V>(m: seq<(string, V)>, k: string): (r: Option<V>)
    ensures r.Some? <==> HasKey(m, k)
    ensures UniqueKeys(m) ==> forall i :: 0 <= i < |m| && m[i].0 == k ==> r == Some(m[i].1)
  {
    match Find(m, k)
    case Some(i) => Some(m[i].1)
    case None => None
  }

  /** `m[k] = v` on a Ruby `Hash`: afterwards `k` holds `v` and every other
      key holds what it held before. */
  function Assign<V>(m: Hash<V>, k: string, v: V): (r: Hash<V>)
    ensures Lookup(r, k) == Some(v)
    ensures forall k' :: k' != k ==> Lookup(r, k') == Lookup(m, k')
  {
    match Find(m, k)
    case Some(i) =>
      var r := m[i := (k, v)];
      UpdateLookup(m, i, v);
      r
    case None =>
      var r := m + [(k, v)];
      assert forall j :: 0 <= j < |m| ==> r[j] == m[j];
      assert UniqueKeys(r);
      assert r[|m|] == (k, v);
      r
  }

  lemma UpdateLookup<V>(m: Hash<V>, i: nat, v: V)
    requires i < |m|
    ensures UniqueKeys(m[i := (m[i].0, v)])
    ensures Lookup(m[i := (m[i].0, v)], m[i].0) == Some(v)
    ensures forall k' :: k' != m[i].0 ==> Lookup(m[i := (m[i].0, v)], k') == Lookup(m, k')
  {
    var k := m[i].0;
    var r := m[i := (k, v)];
    assert forall j :: 0 <= j < |m| ==> r[j].0 == m[j].0;
    assert UniqueKeys(r);
    forall k' | k' != k
      ensures Lookup(r, k') == Lookup(m, k')
    {
      if HasKey(m, k') {
        var j :| 0 <= j < |m| && m[j].0 == k';
        assert r[j] == m[j];
      } else {
        assert !HasKey(r, k');
      }
    }
  }

  /** Where the assigned entry lands: a present key is updated in its
      place, a new key is appended at the end. */
  lemma AssignShape<V>(m: Hash<V>, k: string, v: V)
    ensures forall k' :: HasKey(Assign(m, k, v), k') <==> HasKey(m, k') || k' == k
    ensures HasKey(m, k) ==> Keys(Assign(m, k, v)) == Keys(m)
    ensures !HasKey(m, k) ==> Assign(m, k, v) == m + [(k, v)]
  {
    var r := Assign(m, k, v);
    if HasKey(m, k) {
      assert Keys(r) == Keys(m);
    }
    forall k' ensures HasKey(r, k') <==> HasKey(m, k') || k' == k {
      if k' != k {
        assert Lookup(r, k') == Lookup(m, k');
      }
    }
  }

  /** The entries for which `keep` holds, in their original order (Ruby's
      `Hash#select`, and `delete_if` with the test negated). */
  function Select<V(==,!new)>(m: Hash<V>, keep: ((string, V)) -> bool): (r: Hash<V>)
    ensures forall e :: e in r <==> e in m && keep(e)
    ensures forall k :: Lookup(r, k) == (if Lookup(m, k).Some? && keep((k, Lookup(m, k).value)) then Lookup(m, k) else None)
  {
    SelectKeepsUnique(m, keep);
    var r := Filter(m, keep);
    forall k
      ensures Lookup(r, k) == (if Lookup(m, k).Some? && keep((k, Lookup(m, k).value)) then Lookup(m, k) else None)
    {
      if HasKey(r, k) {
        var i :| 0 <= i < |r| && r[i].0 == k;
        assert r[i] in m;
      } else if HasKey(m, k) {
        var j :| 0 <= j < |m| && m[j].0 == k;
        assert m[j] !in r;
      }
    }
    r
  }

  lemma {:induction false} SelectKeepsUnique<V(!new)>(m: Hash<V>, keep: ((string, V)) -> bool)
    ensures UniqueKeys(Filter(m, keep))
  {
    if |m| > 0 {
      var tail: Hash<V> := m[1..];
      SelectKeepsUnique(tail, keep);
      var rest := Filter(tail, keep);
      forall i | 0 <= i < |rest|
        ensures rest[i].0 != m[0].0
      {
        assert rest[i] in tail;
      }
    }
  }

  /** The test `delete` applies: keep every entry whose key is not `k`. */
  function KeyIsNot<V>(k: string): ((string, V)) -> bool {
    (e: (string, V)) => e.0 != k
  }

  /** `m.delete(k)`: every entry but the one for `k`, in order. */
  function Remove<V(==,!new)>(m: Hash<V>, k: string): (r: Hash<V>)
    ensures !HasKey(r, k)
    ensures forall k' :: k' != k ==> Lookup(r, k') == Lookup(m, k')
    ensures !HasKey(m, k) ==> r == m
    ensures forall i :: 0 <= i < |m| && m[i].0 == k ==> r == m[..i] + m[i + 1..]
  {
    var r := Select(m, KeyIsNot(k));
    if !HasKey(m, k) then
      FilterKeepsAll(m, KeyIsNot(k));
      r
    else
      var i :| 0 <= i < |m| && m[i].0 == k;
      RemoveAt(m, k, i);
      assert forall j :: 0 <= j < |m| && m[j].0 == k ==> j == i;
      r
  }

  lemma {:induction false} RemoveAt<V(!new)>(m: Hash<V>, k: string, i: nat)
    requires i < |m| && m[i].0 == k
    ensures Filter(m, KeyIsNot(k)) == m[..i] + m[i + 1..]
  {
    var keep := KeyIsNot<V>(k);
    var tail: Hash<V> := m[1..];
    assert Filter(m, keep) == (if keep(m[0]) then [m[0]] else []) + Filter(tail, keep);
    if i == 0 {
      assert forall j :: 0 <= j < |tail| ==> tail[j] == m[j + 1] && keep(tail[j]);
      FilterKeepsAll(tail, keep);
    } else {
      RemoveAt(tail, k, i - 1);
      assert m[..i] == [m[0]] + tail[..i - 1];
      assert m[i + 1..] == tail[i..];
    }
  }

  /** The value of the last pair of `ps` whose key is `k`. */
  function LastValue<V>(ps: seq<(string, V)>, k: string): Option<V> {
    if |ps| == 0 then None
    else if ps[|ps| - 1].0 == k then Some(ps[|ps| - 1].1)
    else LastValue(ps[..|ps| - 1], k)
  }

  /** A pair no later pair overrides supplies the last value of its key. */
  lemma {:induction false} LastValueAt<V>(ps: seq<(string, V)>, i: nat)
    requires i < |ps|
    requires forall j :: i < j < |ps| ==> ps[j].0 != ps[i].0
    ensures LastValue(ps, ps[i].0) == Some(ps[i].1)
  {
    var n := |ps| - 1;
    if i < n {
      assert ps[..n][i] == ps[i];
      LastValueAt(ps[..n], i);
    }
  }

  lemma HasKeyAppend<V>(a: seq<(string, V)>, b: seq<(string, V)>, k: string)
    ensures HasKey(a + b, k) <==> HasKey(a, k) || HasKey(b, k)
  {
    if HasKey(a + b, k) {
      var i :| 0 <= i < |a + b| && (a + b)[i].0 == k;
      if i >= |a| {
        assert b[i - |a|].0 == k;
      }
    }
    if HasKey(b, k) {
      var i :| 0 <= i < |b| && b[i].0 == k;
      assert (a + b)[|a| + i].0 == k;
    }
    if HasKey(a, k) {
      var i :| 0 <= i < |a| && a[i].0 == k;
      assert (a + b)[i].0 == k;
    }
  }

  /** The pairs `f` yields for each element of `xs`, concatenated in order. */
  function FlatMap<X, V>(xs: seq<X>, f: X -> seq<(string, V)>): seq<(string, V)> {
    if |xs| == 0 then [] else FlatMap(xs[..|xs| - 1], f) + f(xs[|xs| - 1])
  }

  lemma {:induction false} FlatMapHasKey<X, V>(xs: seq<X>, f: X -> seq<(string, V)>, k: string)
    ensures HasKey(FlatMap(xs, f), k) <==> exists i :: 0 <= i < |xs| && HasKey(f(xs[i]), k)
  {
    if |xs| > 0 {
      var n := |xs| - 1;
      var front := xs[..n];
      FlatMapHasKey(front, f, k);
      HasKeyAppend(FlatMap(front, f), f(xs[n]), k);
      if HasKey(FlatMap(xs, f), k) {
        if HasKey(FlatMap(front, f), k) {
          var i :| 0 <= i < |front| && HasKey(f(front[i]), k);
          assert front[i] == xs[i];
        } else {
          assert HasKey(f(xs[n]), k);
        }
      }
      if exists i :: 0 <= i < |xs| && HasKey(f(xs[i]), k) {
        var i :| 0 <= i < |xs| && HasKey(f(xs[i]), k);
        if i < n {
          assert front[i] == xs[i];
          assert HasKey(FlatMap(front, f), k);
        }
      }
    }
  }

  /** `m.merge!(ps)`: the pairs of `ps` assigned into `m` one after the other. */
  function Merge<V>(m: Hash<V>, ps: seq<(string, V)>): (r: Hash<V>)
    ensures forall k :: HasKey(r, k) <==> HasKey(m, k) || HasKey(ps, k)
    ensures |m| <= |r| && forall i :: 0 <= i < |m| ==> r[i].0 == m[i].0
  {
    if |ps| == 0 then m
    else
      var n := |ps| - 1;
      var r := Assign(Merge(m, ps[..n]), ps[n].0, ps[n].1);
      AssignShape(Merge(m, ps[..n]), ps[n].0, ps[n].1);
      assert forall k :: HasKey(ps, k) <==> HasKey(ps[..n], k) || k == ps[n].0 by {
        forall k | HasKey(ps, k) ensures HasKey(ps[..n], k) || k == ps[n].0 {
          var i :| 0 <= i < |ps| && ps[i].0 == k;
          if i < n { assert ps[..n][i].0 == k; }
        }
      }
      r
  }

  /** `{}.tap { |h| ps.each { |k, v| h[k] = v } }`: a `Hash` built from pairs. */
  function FromPairs<V>(ps: seq<(string, V)>): Hash<V> {
    Merge([], ps)
  }

  /** After a merge a key holds the value the last pair for it supplied,
      or its old value when no pair mentions it. */
  lemma {:induction false} LookupMerge<V>(m: Hash<V>, ps: seq<(string, V)>, k: string)
    ensures Lookup(Merge(m, ps), k) == if LastValue(ps, k).Some? then LastValue(ps, k) else Lookup(m, k)
  {
    if |ps| > 0 {
      LookupMerge(m, ps[..|ps| - 1], k);
    }
  }

  lemma MergeLast<V>(m: Hash<V>, ps: seq<(string, V)>)
    requires |ps| > 0
    ensures Merge(m, ps) == Assign(Merge(m, ps[..|ps| - 1]), ps[|ps| - 1].0, ps[|ps| - 1].1)
  {
  }

  /** Merging `a` then `b` is merging `a + b`. */
  lemma {:induction false} MergeAppend<V>(m: Hash<V>, a: seq<(string, V)>, b: seq<(string, V)>)
    ensures Merge(Merge(m, a), b) == Merge(m, a + b)
    decreases |b|
  {
    if |b| == 0 {
      assert a + b == a;
    } else {
      var n := |b| - 1;
      var ab := a + b;
      MergeAppend(m, a, b[..n]);
      assert ab[..|ab| - 1] == a + b[..n];
      assert ab[|ab| - 1] == b[n];
      MergeLast(m, ab);
      MergeLast(Merge(m, a), b);
    }
  }

  /** Merging fresh, pairwise distinct keys appends them unchanged. */
  lemma {:induction false} MergeFresh<V>(m: Hash<V>, ps: seq<(string, V)>)
    requires UniqueKeys(ps)
    requires forall i :: 0 <= i < |ps| ==> !HasKey(m, ps[i].0)
    ensures Merge(m, ps) == m + ps
  {
    if |ps| > 0 {
      var n := |ps| - 1;
      MergeFresh(m, ps[..n]);
      assert !HasKey(ps[..n], ps[n].0);
      assert m + ps[..n] + [ps[n]] == m + ps;
    }
  }
}
