/** The fake service registry: an ordered list of service records, each a
    `Hash` from field name to value. Registration renames the fields of a
    definition, drops every record already carrying the new record's
    `ServiceName`, and appends the new record; lookups take the first
    record whose `ServiceName` matches. Every mutator snapshots the list. */
module Service {
  import opened Wrappers
  import opened Seqs
  import opened Assoc
  import opened Snapshot
  import opened Inflector

  /** A field value: a string, a number, a list of strings, or a nested hash. */
  datatype Value =
    | VStr(str: string)
    | VInt(num: int)
    | VStrList(items: seq<string>)
    | VHash(fields: seq<(string, Value)>)

  /** One registered service. */
  type Record = Hash<Value>

  datatype Registry = Registry(services: seq<Record>, file: File<seq<Record>>)

  /** `record['ServiceName']`; `None` stands for nil. */
  function NameOf(rec: Record): Option<Value> {
    Lookup(rec, "ServiceName")
  }

  /** The test `get` selects with. */
  function NamedAs(key: string): Record -> bool {
    (rec: Record) => NameOf(rec) == Some(VStr(key))
  }

  /** The test `deregister` keeps with. */
  function NameIsNot(name: Option<Value>): Record -> bool {
    (rec: Record) => NameOf(rec) != name
  }

  // ---------------------------------------------------------------------
  // Field renaming

  /** The name `build_service` gives field `k`. */
  function ServiceKey(k: string): (r: string)
    ensures "Service" <= r
  {
    if k == "id" then "ServiceID" else "Service" + Camelize(k)
  }

  /** The definition's pairs under their `build_service` names. */
  function Renamed(def: seq<(string, Value)>): (ps: seq<(string, Value)>)
    ensures |ps| == |def|
    ensures forall i :: 0 <= i < |def| ==> ps[i] == (ServiceKey(def[i].0), def[i].1)
  {
    seq(|def|, i requires 0 <= i < |def| => (ServiceKey(def[i].0), def[i].1))
  }

  /** `build_service`: `id` becomes `ServiceID`, any other field `k`
      becomes `"Service" + camelize(k)`, values untouched. Fields are
      assigned in order, so when two fields rename to the same key the
      later value wins in the earlier position. */
  function BuildService(def: seq<(string, Value)>): (r: Record)
    ensures forall i :: 0 <= i < |r| ==> "Service" <= r[i].0
    ensures forall i :: 0 <= i < |def| ==> HasKey(r, ServiceKey(def[i].0))
    ensures forall k :: HasKey(r, k) ==> exists i :: 0 <= i < |def| && ServiceKey(def[i].0) == k
    ensures forall i :: 0 <= i < |def| && (forall j :: i < j < |def| ==> ServiceKey(def[j].0) != ServiceKey(def[i].0)) ==>
      Lookup(r, ServiceKey(def[i].0)) == Some(def[i].1)
    ensures (forall i, j :: 0 <= i < j < |def| ==> ServiceKey(def[i].0) != ServiceKey(def[j].0)) ==>
      |r| == |def| && forall i :: 0 <= i < |def| ==> r[i] == (ServiceKey(def[i].0), def[i].1)
  {
    var ps := Renamed(def);
    RenamedKeys(def);
    RenamedValues(def);
    RenamedExact(def);
    FromPairs(ps)
  }

  lemma RenamedKeys(def: seq<(string, Value)>)
    ensures forall k :: HasKey(FromPairs(Renamed(def)), k) <==> exists i :: 0 <= i < |def| && ServiceKey(def[i].0) == k
    ensures forall i :: 0 <= i < |FromPairs(Renamed(def))| ==> "Service" <= FromPairs(Renamed(def))[i].0
  {
    var ps := Renamed(def);
    var r := FromPairs(ps);
    forall k
      ensures HasKey(r, k) <==> exists i :: 0 <= i < |def| && ServiceKey(def[i].0) == k
    {
      if HasKey(r, k) {
        var i :| 0 <= i < |ps| && ps[i].0 == k;
      }
      if exists i :: 0 <= i < |def| && ServiceKey(def[i].0) == k {
        var i :| 0 <= i < |def| && ServiceKey(def[i].0) == k;
        assert ps[i].0 == k;
      }
    }
    forall i | 0 <= i < |r|
      ensures "Service" <= r[i].0
    {
      assert HasKey(r, r[i].0);
    }
  }

  lemma RenamedValues(def: seq<(string, Value)>)
    ensures forall i :: 0 <= i < |def| && (forall j :: i < j < |def| ==> ServiceKey(def[j].0) != ServiceKey(def[i].0)) ==>
      Lookup(FromPairs(Renamed(def)), ServiceKey(def[i].0)) == Some(def[i].1)
  {
    var ps := Renamed(def);
    forall i | 0 <= i < |def| && (forall j :: i < j < |def| ==> ServiceKey(def[j].0) != ServiceKey(def[i].0))
      ensures Lookup(FromPairs(ps), ServiceKey(def[i].0)) == Some(def[i].1)
    {
      LastValueAt(ps, i);
      LookupMerge([], ps, ps[i].0);
    }
  }

  lemma RenamedExact(def: seq<(string, Value)>)
    ensures (forall i, j :: 0 <= i < j < |def| ==> ServiceKey(def[i].0) != ServiceKey(def[j].0)) ==>
      FromPairs(Renamed(def)) == Renamed(def)
  {
    var ps := Renamed(def);
    if forall i, j :: 0 <= i < j < |def| ==> ServiceKey(def[i].0) != ServiceKey(def[j].0) {
      assert UniqueKeys(ps);
      MergeFresh([], ps);
      assert [] + ps == ps;
    }
  }

  /** A one-word field name other than `id` never camelizes to `ID`. */
  lemma ServiceKeyIsID(w: string)
    requires |w| > 0 && forall i :: 0 <= i < |w| ==> WordChar(w[i])
    ensures ServiceKey(w) == "ServiceID" <==> w == "id"
  {
    if w != "id" {
      assert '_' !in w;
      CamelizeWord(w);
      var c := Camelize(w);
      if |c| == 2 {
        assert c[1] == w[1];
        assert WordChar(w[1]);
      }
      assert c != "ID";
      assert ("Service" + c)[7..] == c;
      assert "ServiceID"[7..] == "ID";
    }
  }

  /** Two distinct one-word field names never collide under `build_service`. */
  lemma ServiceKeyInjective(a: string, b: string)
    requires |a| > 0 && forall i :: 0 <= i < |a| ==> WordChar(a[i])
    requires |b| > 0 && forall i :: 0 <= i < |b| ==> WordChar(b[i])
    requires ServiceKey(a) == ServiceKey(b)
    ensures a == b
  {
    ServiceKeyIsID(a);
    ServiceKeyIsID(b);
    if a != "id" && b != "id" {
      assert ("Service" + Camelize(a))[7..] == Camelize(a);
      assert ("Service" + Camelize(b))[7..] == Camelize(b);
      CamelizeWordInjective(a, b);
    }
  }

  /** What one field of an external definition adds to the built record:
      a plain field under its camelized name, the `service` hash expanded
      by `build_service`, any other hash nothing. */
  function Contribution(field: (string, Value)): seq<(string, Value)> {
    if field.1.VHash? then
      if field.0 == "service" then BuildService(field.1.fields) else []
    else [(Camelize(field.0), field.1)]
  }

  /** Everything the fields of an external definition contribute, in order. */
  function Contributions(def: seq<(string, Value)>): seq<(string, Value)> {
    FlatMap(def, Contribution)
  }

  /** One iteration of `build_external_service`'s `each_with_object`. */
  function ExternalStep(h: Record, field: (string, Value)): Record {
    if field.1.VHash? then
      if field.0 == "service" then Merge(h, BuildService(field.1.fields)) else h
    else Assign(h, Camelize(field.0), field.1)
  }

  function ExternalFold(def: seq<(string, Value)>): Record {
    if |def| == 0 then []
    else ExternalStep(ExternalFold(def[..|def| - 1]), def[|def| - 1])
  }

  lemma StepIsMerge(h: Record, field: (string, Value))
    ensures ExternalStep(h, field) == Merge(h, Contribution(field))
  {
    if !field.1.VHash? {
      var x := (Camelize(field.0), field.1);
      assert [x][..0] == [];
      MergeLast(h, [x]);
    }
  }

  /** Folding the fields is merging everything they contribute, in order. */
  lemma {:induction false} ExternalFoldIsMerge(def: seq<(string, Value)>)
    ensures ExternalFold(def) == Merge([], Contributions(def))
  {
    if |def| > 0 {
      var n := |def| - 1;
      ExternalFoldIsMerge(def[..n]);
      StepIsMerge(ExternalFold(def[..n]), def[n]);
      MergeAppend([], Contributions(def[..n]), Contribution(def[n]));
    }
  }

  /** `build_external_service`: a field with a non-hash value is kept under
      its camelized name (no `Service` prefix); the hash under `service` is
      expanded by `build_service` and merged in flat; a hash under any
      other name is dropped. Each key holds the value its last
      contributor gave it. */
  function BuildExternalService(def: seq<(string, Value)>): (r: Record)
    ensures forall k :: Lookup(r, k) == LastValue(Contributions(def), k)
    ensures forall i :: 0 <= i < |def| && !def[i].1.VHash? ==> HasKey(r, Camelize(def[i].0))
    ensures forall i, j :: 0 <= i < |def| && def[i].0 == "service" && def[i].1.VHash? && 0 <= j < |def[i].1.fields| ==>
      HasKey(r, ServiceKey(def[i].1.fields[j].0))
    ensures forall k :: HasKey(r, k) ==> exists i :: (0 <= i < |def| &&
      ((!def[i].1.VHash? && k == Camelize(def[i].0)) ||
       (def[i].0 == "service" && def[i].1.VHash? && HasKey(BuildService(def[i].1.fields), k))))
  {
    ExternalFoldIsMerge(def);
    var r := ExternalFold(def);
    var cs := Contributions(def);
    forall k
      ensures Lookup(r, k) == LastValue(cs, k)
    {
      LookupMerge([], cs, k);
    }
    forall k
      ensures HasKey(r, k) <==> exists i :: 0 <= i < |def| && HasKey(Contribution(def[i]), k)
    {
      FlatMapHasKey(def, Contribution, k);
    }
    forall i | 0 <= i < |def| && !def[i].1.VHash?
      ensures HasKey(r, Camelize(def[i].0))
    {
      assert Contribution(def[i])[0].0 == Camelize(def[i].0);
    }
    r
  }

  /** When no two contributions share a key, the built record is exactly
      the contributions, in order. */
  lemma BuildExternalExact(def: seq<(string, Value)>)
    requires UniqueKeys(Contributions(def))
    ensures BuildExternalService(def) == Contributions(def)
  {
    var cs := Contributions(def);
    ExternalFoldIsMerge(def);
    MergeFresh([], cs);
    assert [] + cs == cs;
  }

  // ---------------------------------------------------------------------
  // Lookup

  /** `get`: the first record whose `ServiceName` equals `key`, or the
      empty record when none does. The `scope` argument is ignored. */
  function Get(services: seq<Record>, key: string): (r: Record)
    ensures r == [] <==> forall i :: 0 <= i < |services| ==> NameOf(services[i]) != Some(VStr(key))
    ensures r != [] ==> exists i :: (0 <= i < |services| && services[i] == r && NameOf(r) == Some(VStr(key)) &&
                                     forall j :: 0 <= j < i ==> NameOf(services[j]) != Some(VStr(key)))
  {
    var matches := Filter(services, NamedAs(key));
    if |matches| == 0 then
      assert forall i :: 0 <= i < |services| ==> services[i] !in matches;
      []
    else
      assert exists i :: (0 <= i < |services| && services[i] == matches[0] &&
                          forall j :: 0 <= j < i ==> !NamedAs(key)(services[j])) by {
        var i := FirstKept(services, NamedAs(key));
      }
      assert matches[0] in matches;
      matches[0]
  }

  /** The selections `get` documents through its `scope` argument. */
  datatype Scope = First | Last | All

  datatype Selection = One(rec: Record) | Many(recs: seq<Record>)

  /** `get(key, :last)` as documented: the last record whose `ServiceName`
      is `key`, or the empty record when none is. */
  function GetLast(services: seq<Record>, key: string): (r: Record)
    ensures r == [] <==> forall i :: 0 <= i < |services| ==> NameOf(services[i]) != Some(VStr(key))
    ensures r != [] ==> exists i :: (0 <= i < |services| && services[i] == r && NameOf(r) == Some(VStr(key)) &&
                                     forall j :: i < j < |services| ==> NameOf(services[j]) != Some(VStr(key)))
  {
    var matches := Filter(services, NamedAs(key));
    if |matches| == 0 then
      assert forall i :: 0 <= i < |services| ==> services[i] !in matches;
      []
    else
      var last := matches[|matches| - 1];
      assert exists i :: (0 <= i < |services| && services[i] == last &&
                          forall j :: i < j < |services| ==> !NamedAs(key)(services[j])) by {
        var i := LastKept(services, NamedAs(key));
      }
      assert last in matches;
      last
  }

  /** `get(key, :all)` as documented: every record whose `ServiceName` is
      `key`, each as often as the registry holds it. */
  function GetAll(services: seq<Record>, key: string): (r: seq<Record>)
    ensures forall x :: x in r <==> x in services && NameOf(x) == Some(VStr(key))
    ensures forall x :: NameOf(x) == Some(VStr(key)) ==> multiset(r)[x] == multiset(services)[x]
  {
    var matches := Filter(services, NamedAs(key));
    assert forall x :: NameOf(x) == Some(VStr(key)) ==> multiset(matches)[x] == multiset(services)[x] by {
      forall x | NameOf(x) == Some(VStr(key)) {
        FilterCount(services, NamedAs(key), x);
      }
    }
    matches
  }

  /** The `:all` reading keeps registration order: it reads a
      concatenation part by part, and a single record is kept exactly when
      its `ServiceName` matches. Together these fix the result for every
      registry. */
  lemma GetAllKeepsOrder(a: seq<Record>, b: seq<Record>, key: string)
    ensures GetAll(a + b, key) == GetAll(a, key) + GetAll(b, key)
  {
    FilterAppend(a, b, NamedAs(key));
  }

  lemma GetAllOne(x: Record, key: string)
    ensures GetAll([x], key) == if NameOf(x) == Some(VStr(key)) then [x] else []
  {
  }

  /** `get` with `scope` honoured; `:first` is what `get` does today. */
  function GetScoped(services: seq<Record>, key: string, scope: Scope): (r: Selection)
    ensures scope.First? ==> r == One(Get(services, key))
    ensures scope.Last? ==> r.One? && (r.rec == [] <==> Get(services, key) == [])
    ensures scope.All? ==> r.Many? && (|r.recs| == 0 <==> Get(services, key) == [])
  {
    match scope
    case First => One(Get(services, key))
    case Last => One(GetLast(services, key))
    case All =>
      var all := GetAll(services, key);
      assert Get(services, key) != [] ==> Get(services, key) in all;
      Many(all)
  }

  // ---------------------------------------------------------------------
  // Mutators

  /** `deregister`: drop every record whose `ServiceName` equals `name`
      (`None` drops the records that have none), snapshot, return true. */
  function Deregister(reg: Registry, name: Option<Value>): (r: Mutation<Registry>)
    ensures r.returned
    ensures r.state.file == Holds(r.state.services)
    ensures forall rec :: rec in r.state.services <==> rec in reg.services && NameOf(rec) != name
    ensures forall rec :: NameOf(rec) != name ==> multiset(r.state.services)[rec] == multiset(reg.services)[rec]
    ensures (forall i :: 0 <= i < |reg.services| ==> NameOf(reg.services[i]) != name) ==> r.state.services == reg.services
  {
    var kept := Filter(reg.services, NameIsNot(name));
    forall rec | NameOf(rec) != name
      ensures multiset(kept)[rec] == multiset(reg.services)[rec]
    {
      FilterCount(reg.services, NameIsNot(name), rec);
    }
    assert (forall i :: 0 <= i < |reg.services| ==> NameOf(reg.services[i]) != name) ==> kept == reg.services by {
      if forall i :: 0 <= i < |reg.services| ==> NameOf(reg.services[i]) != name {
        FilterKeepsAll(reg.services, NameIsNot(name));
      }
    }
    Mutation(Registry(kept, Holds(kept)), true)
  }

  /** Deregistration keeps the survivors in their relative order: it acts on
      a concatenation part by part. */
  lemma DeregisterKeepsOrder(a: seq<Record>, b: seq<Record>, f: File<seq<Record>>, name: Option<Value>)
    ensures Deregister(Registry(a + b, f), name).state.services ==
            Deregister(Registry(a, f), name).state.services + Deregister(Registry(b, f), name).state.services
  {
    FilterAppend(a, b, NameIsNot(name));
  }

  /** After `deregister(n)` no record is named `n`, so `get(n)` is empty. */
  lemma DeregisterThenGet(reg: Registry, key: string)
    ensures Get(Deregister(reg, Some(VStr(key))).state.services, key) == []
  {
    var after := Deregister(reg, Some(VStr(key))).state.services;
    forall i | 0 <= i < |after|
      ensures NameOf(after[i]) != Some(VStr(key))
    {
      assert after[i] in after;
    }
  }

  /** The part `register` and `register_external` share: deregister the new
      record's `ServiceName`, append the record, snapshot. Afterwards the
      new record is last, no other record shares its name, and every
      record with another name survives in its original order. */
  function Install(reg: Registry, rec: Record): (r: Mutation<Registry>)
    ensures r.returned
    ensures r.state.file == Holds(r.state.services)
    ensures |r.state.services| > 0 && r.state.services[|r.state.services| - 1] == rec
    ensures forall i :: 0 <= i < |r.state.services| - 1 ==> NameOf(r.state.services[i]) != NameOf(rec)
    ensures r.state.services[..|r.state.services| - 1] == Deregister(reg, NameOf(rec)).state.services
    ensures forall x :: x in r.state.services[..|r.state.services| - 1] <==> x in reg.services && NameOf(x) != NameOf(rec)
  {
    var kept := Deregister(reg, NameOf(rec)).state.services;
    var services := kept + [rec];
    assert services[..|services| - 1] == kept;
    assert forall i :: 0 <= i < |kept| ==> kept[i] in kept;
    Mutation(Registry(services, Holds(services)), true)
  }

  /** Installing the same record twice is installing it once. */
  lemma InstallIdempotent(reg: Registry, rec: Record)
    ensures Install(Install(reg, rec).state, rec) == Install(reg, rec)
  {
    var keep := NameIsNot(NameOf(rec));
    var once := Filter(reg.services, keep);
    FilterAppend(once, [rec], keep);
    FilterIdempotent(reg.services, keep);
    assert Filter([rec], keep) == [];
    assert once + [] == once;
  }

  /** `register`: build the record with `build_service`, then install it. */
  function Register(reg: Registry, def: Hash<Value>): (r: Mutation<Registry>)
    ensures r.returned
    ensures Restore(r.state.file) == r.state.services
    ensures |r.state.services| > 0 && r.state.services[|r.state.services| - 1] == BuildService(def)
    ensures forall i :: 0 <= i < |r.state.services| - 1 ==> NameOf(r.state.services[i]) != NameOf(BuildService(def))
    ensures forall x :: x in r.state.services[..|r.state.services| - 1] <==> x in reg.services && NameOf(x) != NameOf(BuildService(def))
    ensures r.state.services[..|r.state.services| - 1] == Deregister(reg, NameOf(BuildService(def))).state.services
  {
    Install(reg, BuildService(def))
  }

  /** Registering a definition twice leaves the registry as registering it once. */
  lemma RegisterIdempotent(reg: Registry, def: Hash<Value>)
    ensures Register(Register(reg, def).state, def) == Register(reg, def)
  {
    InstallIdempotent(reg, BuildService(def));
  }

  /** After `register`, `get` by the new name finds exactly the new record. */
  lemma RegisterThenGet(reg: Registry, def: Hash<Value>, key: string)
    requires NameOf(BuildService(def)) == Some(VStr(key))
    ensures Get(Register(reg, def).state.services, key) == BuildService(def)
  {
    InstalledIsFound(reg, BuildService(def), key);
  }

  lemma InstalledIsFound(reg: Registry, rec: Record, key: string)
    requires NameOf(rec) == Some(VStr(key))
    ensures Get(Install(reg, rec).state.services, key) == rec
  {
    var s := Install(reg, rec).state.services;
    var r := Get(s, key);
    assert NameOf(s[|s| - 1]) == Some(VStr(key));
    var i :| 0 <= i < |s| && s[i] == r && NameOf(r) == Some(VStr(key)) &&
             forall j :: 0 <= j < i ==> NameOf(s[j]) != Some(VStr(key));
    assert i == |s| - 1;
  }

  /** `register_external`: build the record with `build_external_service`,
      then install it. */
  function RegisterExternal(reg: Registry, def: Hash<Value>): (r: Mutation<Registry>)
    ensures r.returned
    ensures Restore(r.state.file) == r.state.services
    ensures |r.state.services| > 0 && r.state.services[|r.state.services| - 1] == BuildExternalService(def)
    ensures forall i :: 0 <= i < |r.state.services| - 1 ==> NameOf(r.state.services[i]) != NameOf(BuildExternalService(def))
    ensures forall x :: x in r.state.services[..|r.state.services| - 1] <==> x in reg.services && NameOf(x) != NameOf(BuildExternalService(def))
    ensures r.state.services[..|r.state.services| - 1] == Deregister(reg, NameOf(BuildExternalService(def))).state.services
  {
    Install(reg, BuildExternalService(def))
  }

  lemma RegisterExternalIdempotent(reg: Registry, def: Hash<Value>)
    ensures RegisterExternal(RegisterExternal(reg, def).state, def) == RegisterExternal(reg, def)
  {
    InstallIdempotent(reg, BuildExternalService(def));
  }

  /** `deregister_external` is `deregister` under another name. */
  function DeregisterExternal(reg: Registry, name: Option<Value>): (r: Mutation<Registry>)
    ensures r == Deregister(reg, name)
    ensures r.returned
  {
    Deregister(reg, name)
  }

  // ---------------------------------------------------------------------
  // Persistence

  /** Construction: the registry read back from its file. The inline
      `rescue []` turns every decoding failure into an empty list. */
  function Restore(f: File<seq<Record>>): (r: seq<Record>)
    ensures f.Holds? ==> r == f.state
    ensures !f.Holds? ==> r == []
  {
    match f
    case Holds(s) => s
    case _ => []
  }
}
