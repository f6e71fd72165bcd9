/** The key/value scenarios the repository's own specs walk through,
    stated on the model. Each is proved from a general lemma; the concrete
    lemma only supplies the facts about the literal keys. */
module KvScenarios {
  import opened Wrappers
  import opened Assoc
  import opened Literals
  import opened Snapshot
  import Kv

  /** The entries the four puts of the recursive example leave in a
      cleared store: each put of a non-nil value under a fresh key into a
      compacted store appends it (`Kv.Put`). */
  function FourEntries(): Kv.Entries {
    FourPairsUnique();
    FourPairs()
  }

  function FourPairs(): seq<(string, Option<string>)> {
    [("foo/bar/baz", Some("baz")), ("foo/bar/bif", Some("bif")),
     ("foo/bar/boz", Some("boz")), ("foo/boom/boz", Some("boz"))]
  }

  lemma FourPairsUnique()
    ensures UniqueKeys(FourPairs())
  {
    var e := FourPairs();
    DifferAt(e[0].0, e[1].0, 9);
    DifferAt(e[0].0, e[2].0, 9);
    DifferAt(e[1].0, e[2].0, 9);
    DifferAt(e[0].0, e[3].0, 5);
    DifferAt(e[1].0, e[3].0, 5);
    DifferAt(e[2].0, e[3].0, 5);
  }

  lemma FourEntriesUnderFooBar()
    ensures Kv.PrefixValues(FourEntries(), "foo/bar/") == ["baz", "bif", "boz"]
  {
    var e := FourEntries();
    DifferAt("foo/bar/", "foo/boom/boz", 5);
    assert e[3..] == [("foo/boom/boz", Some("boz"))];
    assert Kv.PrefixValues(e[3..], "foo/bar/") == [];
    assert e[2..] == [("foo/bar/boz", Some("boz"))] + e[3..];
    assert e[1..] == [("foo/bar/bif", Some("bif"))] + e[2..];
  }

  /** After the four puts, a recursive `get` on `foo/bar/` answers the
      three keys under `foo/bar/`, in insertion order; `foo/boom/boz`
      shares the first segment but not the prefix, so it does not. */
  lemma RecursiveGetScenario(f: File<Kv.Entries>)
    ensures Kv.Get(Kv.Store(FourEntries(), f), "foo/bar/", true) == Kv.Values(["baz", "bif", "boz"])
  {
    FourEntriesUnderFooBar();
  }
}
