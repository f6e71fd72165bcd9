/** The fake key-value store: an ordered string-keyed `Hash` whose values
    are strings or nil, compacted after every mutation and snapshotted to
    a file. Reads never fail: a missing key reads as the empty string. */
module Kv {
  import opened Wrappers
  import opened Seqs
  import opened Assoc
  import opened Snapshot

  /** The store's entries; `None` is a nil value. */
  type Entries = Hash<Option<string>>

  datatype Store = Store(entries: Entries, file: File<Entries>)

  /** What `get` answers: one string, or a list of them when recursing. */
  datatype Reply = Value(text: string) | Values(texts: seq<string>)

  /** No entry holds nil. */
  predicate Compacted(e: seq<(string, Option<string>)>) {
    forall i :: 0 <= i < |e| ==> e[i].1.Some?
  }

  /** The non-nil string stored under `k`, if there is one. */
  function Live(e: Entries, k: string): Option<string> {
    var found := Lookup(e, k);
    if found.Some? then found.value else None
  }

  /** Ruby's `to_s` on a stored value: nil prints as the empty string. */
  function ToS(v: Option<string>): string {
    match v
    case Some(text) => text
    case None => ""
  }

  function NotNil(): ((string, Option<string>)) -> bool {
    (e: (string, Option<string>)) => e.1.Some?
  }

  /** `compact`: drop every entry whose value is nil, keeping the rest in order. */
  function Compact(e: Entries): (r: Entries)
    ensures Compacted(r)
    ensures forall x :: x in r <==> x in e && x.1.Some?
    ensures forall k :: Live(r, k) == Live(e, k)
    ensures Compacted(e) ==> r == e
  {
    var r := Select(e, NotNil());
    assert forall i :: 0 <= i < |r| ==> r[i] in r;
    assert Compacted(e) ==> r == e by {
      if Compacted(e) {
        FilterKeepsAll(e, NotNil());
      }
    }
    r
  }

  /** `consul_value`: the stored value as a string, `""` for a missing key. */
  function ConsulValue(e: Entries, k: string): (r: string)
    ensures !HasKey(e, k) ==> r == ""
    ensures forall i :: 0 <= i < |e| && e[i].0 == k ==> r == ToS(e[i].1)
  {
    ToS(Live(e, k))
  }

  /** Keys that begin with the literal string `p` (Ruby's `start_with?`). */
  function StartsWith(p: string): string -> bool {
    (key: string) => p <= key
  }

  /** `consul_value` of each key, in order. */
  function ValuesOf(e: Entries, ks: seq<string>): (r: seq<string>)
    ensures |r| == |ks|
  {
    if |ks| == 0 then [] else [ConsulValue(e, ks[0])] + ValuesOf(e, ks[1..])
  }

  /** `find_keys_recursive`: select the keys starting with `p`, then read each. */
  function FindKeysRecursive(e: Entries, p: string): (r: seq<string>)
    ensures |r| <= |e|
  {
    ValuesOf(e, Filter(Keys(e), StartsWith(p)))
  }

  /** Reference reading of a prefix query: walk the entries in order and
      take the value of each one whose key begins with `p`. */
  function PrefixValues(e: seq<(string, Option<string>)>, p: string): seq<string> {
    if |e| == 0 then []
    else (if p <= e[0].0 then [ToS(e[0].1)] else []) + PrefixValues(e[1..], p)
  }

  /** A prefix query returns exactly the values of the keys starting with
      `p`, in insertion order; the match is on raw strings, not path segments. */
  lemma FindKeysRecursiveIsPrefixValues(e: Entries, p: string)
    ensures FindKeysRecursive(e, p) == PrefixValues(e, p)
  {
    forall i | 0 <= i < |e|
      ensures ConsulValue(e, e[i].0) == ToS(e[i].1)
    {
    }
    ValuesOfSuffix(e, e, p);
  }

  lemma {:induction false} ValuesOfSuffix(e: Entries, t: seq<(string, Option<string>)>, p: string)
    requires forall i :: 0 <= i < |t| ==> ConsulValue(e, t[i].0) == ToS(t[i].1)
    ensures ValuesOf(e, Filter(Keys(t), StartsWith(p))) == PrefixValues(t, p)
  {
    if |t| > 0 {
      var ks := Keys(t);
      var rest := t[1..];
      assert ks[1..] == Keys(rest);
      ValuesOfSuffix(e, rest, p);
      var tailSel := Filter(Keys(rest), StartsWith(p));
      assert Filter(ks, StartsWith(p)) == (if p <= t[0].0 then [t[0].0] else []) + tailSel;
      if p <= t[0].0 {
        assert ([t[0].0] + tailSel)[1..] == tailSel;
      } else {
        assert [] + tailSel == tailSel;
      }
    }
  }

  /** `get`: without `recurse` the value of `key` (or `""`), with it the
      values of every key starting with `key`. */
  function Get(st: Store, key: string, recurse: bool): (r: Reply)
    ensures !recurse ==> r == Value(ConsulValue(st.entries, key))
    ensures recurse ==> r == Values(PrefixValues(st.entries, key))
  {
    FindKeysRecursiveIsPrefixValues(st.entries, key);
    if recurse then Values(FindKeysRecursive(st.entries, key))
    else Value(ConsulValue(st.entries, key))
  }

  /** Assigning a non-nil value keeps a compacted store compacted. */
  lemma AssignKeepsCompacted(e: Entries, k: string, s: string)
    requires Compacted(e)
    ensures Compacted(Assign(e, k, Some(s)))
  {
    var r := Assign(e, k, Some(s));
    forall i | 0 <= i < |r|
      ensures r[i].1.Some?
    {
      assert Lookup(r, r[i].0) == Some(r[i].1);
      if r[i].0 != k {
        var j :| 0 <= j < |e| && e[j].0 == r[i].0;
        assert Lookup(e, e[j].0) == Some(e[j].1);
      }
    }
  }

  /** `put`: assign, compact, persist, return true. Afterwards `k` holds
      `v` when `v` is a string and is gone when `v` is nil; every other
      key reads as before. */
  function Put(st: Store, k: string, v: Option<string>): (r: Mutation<Store>)
    ensures r.returned
    ensures Compacted(r.state.entries)
    ensures r.state.file == Holds(r.state.entries)
    ensures Restore(r.state.file) == Some(r.state)
    ensures RestoreAsWritten(r.state.file) == Some(Store(r.state.entries, Absent))
    ensures forall k' :: Live(r.state.entries, k') == if k' == k then v else Live(st.entries, k')
    ensures Compacted(st.entries) && v.Some? && HasKey(st.entries, k) ==> Keys(r.state.entries) == Keys(st.entries)
    ensures Compacted(st.entries) && v.Some? && !HasKey(st.entries, k) ==> r.state.entries == st.entries + [(k, v)]
  {
    var updated := Assign(st.entries, k, v);
    AssignShape(st.entries, k, v);
    assert Compacted(st.entries) && v.Some? ==> Compacted(updated) by {
      if Compacted(st.entries) && v.Some? {
        AssignKeepsCompacted(st.entries, k, v.value);
      }
    }
    var e := Compact(updated);
    Mutation(Store(e, Holds(e)), true)
  }

  /** After `put(k, s)` with a string `s`, `get(k)` answers `s`, and reading
      any other key answers what it answered before. */
  lemma PutThenGet(st: Store, k: string, s: string, other: string)
    requires other != k
    ensures Get(Put(st, k, Some(s)).state, k, false) == Value(s)
    ensures Get(Put(st, k, Some(s)).state, other, false) == Get(st, other, false)
  {
  }

  /** `delete`: remove `k`, compact, persist, return true, even when `k`
      was absent. On a compacted store every other entry stays, in order. */
  function Delete(st: Store, k: string): (r: Mutation<Store>)
    ensures r.returned
    ensures Compacted(r.state.entries)
    ensures r.state.file == Holds(r.state.entries)
    ensures Restore(r.state.file) == Some(r.state)
    ensures RestoreAsWritten(r.state.file) == Some(Store(r.state.entries, Absent))
    ensures forall k' :: Live(r.state.entries, k') == if k' == k then None else Live(st.entries, k')
    ensures Compacted(st.entries) && !HasKey(st.entries, k) ==> r.state.entries == st.entries
    ensures forall i :: Compacted(st.entries) && 0 <= i < |st.entries| && st.entries[i].0 == k ==>
      r.state.entries == st.entries[..i] + st.entries[i + 1..]
  {
    var removed := Remove(st.entries, k);
    var e := Compact(removed);
    assert Compacted(st.entries) ==> Compacted(removed) by {
      if Compacted(st.entries) {
        RemoveKeepsCompacted(st.entries, k);
      }
    }
    Mutation(Store(e, Holds(e)), true)
  }

  lemma RemoveKeepsCompacted(e: Entries, k: string)
    requires Compacted(e)
    ensures Compacted(Remove(e, k))
  {
    var r := Select(e, KeyIsNot(k));
    forall j | 0 <= j < |r|
      ensures r[j].1.Some?
    {
      assert r[j] in r;
      var i :| 0 <= i < |e| && e[i] == r[j];
    }
  }

  /** Putting nil is deleting: compaction removes the nil entry `put`
      just wrote, so both leave the same store and the same snapshot. */
  lemma PutNilIsDelete(st: Store, k: string)
    ensures Put(st, k, None) == Delete(st, k)
  {
    var e := st.entries;
    var none: Option<string> := None;
    CompactIsFilter(Assign(e, k, none));
    CompactIsFilter(Remove(e, k));
    if HasKey(e, k) {
      var i :| 0 <= i < |e| && e[i].0 == k;
      NilOverPresent(e, k, i);
    } else {
      NilOverAbsent(e, k);
    }
  }

  /** Writing nil over an existing entry and removing it leave the same
      non-nil entries. */
  lemma NilOverPresent(e: Entries, k: string, i: nat)
    requires i < |e| && e[i].0 == k
    ensures Filter(Assign(e, k, None), NotNil()) == Filter(Remove(e, k), NotNil())
  {
    var none: Option<string> := None;
    assert Find(e, k) == Some(i);
    assert Assign(e, k, none) == e[i := (k, none)];
    assert Remove(e, k) == e[..i] + e[i + 1..];
    FilterUpdateRejected(e, i, (k, none), NotNil());
  }

  /** Appending a nil entry for a new key leaves the non-nil entries as
      they are, and removing the absent key changes nothing. */
  lemma NilOverAbsent(e: Entries, k: string)
    requires !HasKey(e, k)
    ensures Filter(Assign(e, k, None), NotNil()) == Filter(Remove(e, k), NotNil())
  {
    var none: Option<string> := None;
    AssignShape(e, k, none);
    assert Assign(e, k, none) == e + [(k, none)];
    assert Remove(e, k) == e;
    FilterAppendRejected(e, (k, none), NotNil());
  }

  lemma CompactIsFilter(e: Entries)
    ensures Compact(e) == Filter(e, NotNil())
  {
  }

  /** `clear`: empty the store and delete its file. */
  function Clear(st: Store): (r: Store)
    ensures forall k :: !HasKey(r.entries, k) && ConsulValue(r.entries, k) == ""
    ensures r.file == Absent
    ensures Restore(r.file) == Some(r)
  {
    Store([], Absent)
  }

  /** A cleared store leaves no file, so a construction of either kind
      after `clear` starts from the cleared store. */
  lemma ClearThenRestore(st: Store)
    ensures Restore(Clear(st).file) == Some(Clear(st))
    ensures RestoreAsWritten(Clear(st).file) == Some(Clear(st))
  {
  }

  /** Construction, as intended: read the file back and leave it in
      place. A missing file, or one whose load raises `EOFError`, gives an
      empty store; any other load error is raised (`None`); a snapshot is
      merged into the emptied store (`Hash#clear`, then `merge!`). */
  function Restore(f: File<Entries>): (r: Option<Store>)
    ensures r.None? <==> f.Garbled?
    ensures r.Some? ==> r.value.file == f
    ensures (f.Absent? || f.Truncated?) ==> r == Some(Store([], f))
    ensures f.Holds? ==> r == Some(Store(f.state, f))
  {
    match f
    case Absent => Some(Store([], f))
    case Truncated => Some(Store([], f))
    case Garbled => None
    case Holds(e) => Some(Store(MergeIntoEmpty(e), f))
  }

  /** `merge!` of a snapshot into an empty store reproduces the snapshot. */
  function MergeIntoEmpty(e: Entries): (r: Entries)
    ensures r == e
  {
    MergeFresh([], e);
    assert [] + e == e;
    Merge([], e)
  }

  /** Restoring leaves a file that restores to the same store, so every
      construction reads the same snapshot until the next mutation. */
  lemma RestoreIdempotent(f: File<Entries>)
    requires !f.Garbled?
    ensures Restore(f).Some? && Restore(Restore(f).value.file) == Restore(f)
  {
  }

  /** Construction, as written: `restore!` empties the store with
      `self.clear`, which is the store's own `clear` and so also deletes
      the snapshot file it is reading; the snapshot then lives on only in
      memory. `EOFError` is raised by the load, before `clear` runs. */
  function RestoreAsWritten(f: File<Entries>): (r: Option<Store>)
    ensures r.None? <==> f.Garbled?
    ensures (f.Absent? || f.Truncated?) ==> r == Some(Store([], f))
    ensures f.Holds? ==> r == Some(Store(f.state, Absent))
  {
    match f
    case Absent => Some(Store([], f))
    case Truncated => Some(Store([], f))
    case Garbled => None
    case Holds(e) =>
      var cleared := Clear(Store([], f));
      assert cleared.entries == [];
      Some(Store(MergeIntoEmpty(e), cleared.file))
  }

  /** As written, a second construction without a mutation in between
      finds no file and starts empty: a non-empty snapshot is lost. */
  lemma RestoreForgets(e: Entries)
    requires |e| > 0
    ensures RestoreAsWritten(Holds(e)) == Some(Store(e, Absent))
    ensures RestoreAsWritten(RestoreAsWritten(Holds(e)).value.file) == Some(Store([], Absent))
    ensures RestoreAsWritten(RestoreAsWritten(Holds(e)).value.file) != RestoreAsWritten(Holds(e))
    ensures Restore(Restore(Holds(e)).value.file) == Some(Store(e, Holds(e)))
  {
    assert MergeIntoEmpty(e) == e;
  }
}
