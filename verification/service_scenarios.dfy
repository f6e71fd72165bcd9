/** The service-registry scenarios the repository's own specs walk
    through, stated on the model. Each is proved from a general lemma; the
    concrete lemma only supplies the facts about the literal keys. */
module ServiceScenarios {
  import opened Wrappers
  import opened Seqs
  import opened Assoc
  import opened Snapshot
  import opened Inflector
  import opened Literals
  import Service

  // ---------------------------------------------------------------------
  // Service registry: scope

  /** Three records named `key` followed by one that is not: the filter
      `get` applies keeps the three. */
  lemma FilterFour(a: Service.Record, b: Service.Record, c: Service.Record, d: Service.Record, key: string)
    requires Service.NameOf(a) == Some(Service.VStr(key))
    requires Service.NameOf(b) == Some(Service.VStr(key))
    requires Service.NameOf(c) == Some(Service.VStr(key))
    requires Service.NameOf(d) != Some(Service.VStr(key))
    ensures Filter([a, b, c, d], Service.NamedAs(key)) == [a, b, c]
  {
    assert [a, b, c, d] == [a, b, c] + [d];
    FilterAppendRejected([a, b, c], d, Service.NamedAs(key));
    FilterKeepsAll([a, b, c], Service.NamedAs(key));
  }

  /** For such records `get` gives the first whatever the scope, while the
      scoped reading gives the third for `:last` and the three for `:all`. */
  lemma ScopeOfFour(a: Service.Record, b: Service.Record, c: Service.Record, d: Service.Record, key: string)
    requires Service.NameOf(a) == Some(Service.VStr(key))
    requires Service.NameOf(b) == Some(Service.VStr(key))
    requires Service.NameOf(c) == Some(Service.VStr(key))
    requires Service.NameOf(d) != Some(Service.VStr(key))
    ensures Service.Get([a, b, c, d], key) == a
    ensures Service.GetScoped([a, b, c, d], key, Service.Last) == Service.One(c)
    ensures Service.GetScoped([a, b, c, d], key, Service.All) == Service.Many([a, b, c])
  {
    FirstOfFour(a, b, c, d, key);
    LastOfFour(a, b, c, d, key);
    AllOfFour(a, b, c, d, key);
  }

  lemma FirstOfFour(a: Service.Record, b: Service.Record, c: Service.Record, d: Service.Record, key: string)
    requires Service.NameOf(a) == Some(Service.VStr(key))
    requires Service.NameOf(b) == Some(Service.VStr(key))
    requires Service.NameOf(c) == Some(Service.VStr(key))
    requires Service.NameOf(d) != Some(Service.VStr(key))
    ensures Service.Get([a, b, c, d], key) == a
  {
    FilterFour(a, b, c, d, key);
  }

  lemma LastOfFour(a: Service.Record, b: Service.Record, c: Service.Record, d: Service.Record, key: string)
    requires Service.NameOf(a) == Some(Service.VStr(key))
    requires Service.NameOf(b) == Some(Service.VStr(key))
    requires Service.NameOf(c) == Some(Service.VStr(key))
    requires Service.NameOf(d) != Some(Service.VStr(key))
    ensures Service.GetScoped([a, b, c, d], key, Service.Last) == Service.One(c)
  {
    FilterFour(a, b, c, d, key);
  }

  lemma AllOfFour(a: Service.Record, b: Service.Record, c: Service.Record, d: Service.Record, key: string)
    requires Service.NameOf(a) == Some(Service.VStr(key))
    requires Service.NameOf(b) == Some(Service.VStr(key))
    requires Service.NameOf(c) == Some(Service.VStr(key))
    requires Service.NameOf(d) != Some(Service.VStr(key))
    ensures Service.GetScoped([a, b, c, d], key, Service.All) == Service.Many([a, b, c])
  {
    FilterFour(a, b, c, d, key);
  }

  /** The records the multiple-services example seeds: three named `test`
      at addresses `addr1` to `addr3`, then one named `test_other`. */
  function Seeded(): seq<Service.Record> {
    [[("ServiceName", Service.VStr("test")), ("ServiceAddress", Service.VStr("addr1"))],
     [("ServiceName", Service.VStr("test")), ("ServiceAddress", Service.VStr("addr2"))],
     [("ServiceName", Service.VStr("test")), ("ServiceAddress", Service.VStr("addr3"))],
     [("ServiceName", Service.VStr("test_other")), ("ServiceAddress", Service.VStr("addr"))]]
  }

  lemma SeededNames()
    ensures Service.NameOf(Seeded()[0]) == Some(Service.VStr("test"))
    ensures Service.NameOf(Seeded()[1]) == Some(Service.VStr("test"))
    ensures Service.NameOf(Seeded()[2]) == Some(Service.VStr("test"))
    ensures Service.NameOf(Seeded()[3]) != Some(Service.VStr("test"))
  {
  }

  lemma SeededShape()
    ensures Seeded() == [Seeded()[0], Seeded()[1], Seeded()[2], Seeded()[3]]
    ensures Seeded()[..3] == [Seeded()[0], Seeded()[1], Seeded()[2]]
    ensures Seeded()[0] != Seeded()[2]
  {
    assert Seeded()[0][1].1 != Seeded()[2][1].1;
  }

  /** As written, `get` answers the first `test` record (`addr1`) whatever
      scope is asked for; the example expects `addr3` for `:last`, which
      the scoped reading gives, and the three `test` records for `:all`. */
  lemma GetIgnoresScope()
    ensures Service.Get(Seeded(), "test") == Seeded()[0]
    ensures Service.GetScoped(Seeded(), "test", Service.Last) == Service.One(Seeded()[2])
    ensures Service.GetScoped(Seeded(), "test", Service.All) == Service.Many(Seeded()[..3])
    ensures Service.Get(Seeded(), "test") != Seeded()[2]
  {
    var s := Seeded();
    SeededNames();
    SeededShape();
    ScopeOfFour(s[0], s[1], s[2], s[3], "test");
  }

  // ---------------------------------------------------------------------
  // Service registry: register

  /** When the renamed keys are exactly the keys of `rec`, in order, and
      the values agree, `build_service` yields `rec` itself. */
  lemma RenamesTo(def: seq<(string, Service.Value)>, rec: Service.Record)
    requires |def| == |rec|
    requires forall i :: 0 <= i < |def| ==> Service.ServiceKey(def[i].0) == rec[i].0 && def[i].1 == rec[i].1
    ensures Service.BuildService(def) == rec
  {
    var r := Service.BuildService(def);
    assert forall i :: 0 <= i < |def| ==> r[i] == rec[i];
  }

  /** Two fields with distinct `Service` keys are renamed in order. */
  lemma BuildTwo(f1: (string, Service.Value), f2: (string, Service.Value), n1: string, n2: string)
    requires Service.ServiceKey(f1.0) == n1 && Service.ServiceKey(f2.0) == n2 && n1 != n2
    ensures Service.BuildService([f1, f2]) == [(n1, f1.1), (n2, f2.1)]
  {
    RenamesTo([f1, f2], [(n1, f1.1), (n2, f2.1)]);
  }

  /** A five-field definition is renamed field by field into `rec`. */
  lemma RenamesFive(def: seq<(string, Service.Value)>, rec: Service.Record)
    requires |def| == 5 && |rec| == 5
    requires Service.ServiceKey(def[0].0) == rec[0].0 && def[0].1 == rec[0].1
    requires Service.ServiceKey(def[1].0) == rec[1].0 && def[1].1 == rec[1].1
    requires Service.ServiceKey(def[2].0) == rec[2].0 && def[2].1 == rec[2].1
    requires Service.ServiceKey(def[3].0) == rec[3].0 && def[3].1 == rec[3].1
    requires Service.ServiceKey(def[4].0) == rec[4].0 && def[4].1 == rec[4].1
    ensures Service.BuildService(def) == rec
  {
    RenamesTo(def, rec);
  }

  lemma KeyName() ensures Service.ServiceKey("name") == "ServiceName" { CamelizeWord("name"); }
  lemma KeyAddress() ensures Service.ServiceKey("address") == "ServiceAddress" { CamelizeWord("address"); }
  lemma KeyPort() ensures Service.ServiceKey("port") == "ServicePort" { CamelizeWord("port"); }
  lemma KeyTags() ensures Service.ServiceKey("tags") == "ServiceTags" { CamelizeWord("tags"); }
  lemma KeyService() ensures Service.ServiceKey("service") == "ServiceService" { CamelizeWord("service"); }
  lemma CamelNode() ensures Camelize("node") == "Node" { CamelizeWord("node"); }
  lemma CamelAddress() ensures Camelize("address") == "Address" { CamelizeWord("address"); }

  /** The definition the register example submits. */
  function FoobarDef(): Hash<Service.Value> {
    [("id", Service.VStr("Foobar#123")), ("name", Service.VStr("foobar")),
     ("address", Service.VStr("localhost")), ("port", Service.VInt(3003)),
     ("tags", Service.VStrList(["foo", "bar"]))]
  }

  /** The record the register example expects back. */
  function FoobarRecord(): Service.Record {
    [("ServiceID", Service.VStr("Foobar#123")), ("ServiceName", Service.VStr("foobar")),
     ("ServiceAddress", Service.VStr("localhost")), ("ServicePort", Service.VInt(3003)),
     ("ServiceTags", Service.VStrList(["foo", "bar"]))]
  }

  /** Every field of the example is renamed to its `Service` key, in order. */
  lemma BuildFoobar()
    ensures Service.BuildService(FoobarDef()) == FoobarRecord()
  {
    KeyName();
    KeyAddress();
    KeyPort();
    KeyTags();
    RenamesFive(FoobarDef(), FoobarRecord());
  }

  /** Registering the example and asking for `foobar` returns the built
      record, whatever was registered before; deregistering `foobar`
      afterwards leaves nothing to find. */
  lemma RegisterScenario(reg: Service.Registry)
    ensures Service.Get(Service.Register(reg, FoobarDef()).state.services, "foobar") == FoobarRecord()
    ensures var after := Service.Deregister(Service.Register(reg, FoobarDef()).state, Some(Service.VStr("foobar")));
            Service.Get(after.state.services, "foobar") == []
  {
    BuildFoobar();
    assert Service.NameOf(FoobarRecord()) == Some(Service.VStr("foobar"));
    Service.RegisterThenGet(reg, FoobarDef(), "foobar");
    Service.DeregisterThenGet(Service.Register(reg, FoobarDef()).state, "foobar");
  }

  // ---------------------------------------------------------------------
  // Service registry: register_external

  lemma FlatMapThree<X, V>(a: X, b: X, c: X, f: X -> seq<(string, V)>)
    ensures FlatMap([a, b, c], f) == f(a) + f(b) + f(c)
  {
    assert [a, b, c][..2] == [a, b];
    assert [a, b][..1] == [a];
    assert [a][..0] == [];
    assert FlatMap([a], f) == f(a);
    assert FlatMap([a, b], f) == f(a) + f(b);
  }

  /** Two association lists without a shared key concatenate to one
      without a repeated key. */
  lemma UniqueAppend<V>(a: seq<(string, V)>, b: seq<(string, V)>)
    requires UniqueKeys(a) && UniqueKeys(b)
    requires forall i, j :: 0 <= i < |a| && 0 <= j < |b| ==> a[i].0 != b[j].0
    ensures UniqueKeys(a + b)
  {
    var c := a + b;
    forall i, j | 0 <= i < j < |c| ensures c[i].0 != c[j].0 {
      if j < |a| {
        assert c[i] == a[i] && c[j] == a[j];
      } else if i >= |a| {
        assert c[i] == b[i - |a|] && c[j] == b[j - |a|];
      } else {
        assert c[i] == a[i] && c[j] == b[j - |a|];
      }
    }
  }

  /** What two plain fields and a `service` hash contribute: the plain
      fields under their camelized names, then the built service. */
  lemma ContributionsTwoPlainAndService(fa: (string, Service.Value), fb: (string, Service.Value),
                                        inner: seq<(string, Service.Value)>)
    requires !fa.1.VHash? && !fb.1.VHash?
    ensures Service.Contributions([fa, fb, ("service", Service.VHash(inner))]) ==
      [(Camelize(fa.0), fa.1), (Camelize(fb.0), fb.1)] + Service.BuildService(inner)
  {
    FlatMapThree(fa, fb, ("service", Service.VHash(inner)), Service.Contribution);
    PairThen((Camelize(fa.0), fa.1), (Camelize(fb.0), fb.1), Service.BuildService(inner));
  }

  /** Every key `build_service` produces begins with `S`. */
  lemma ServiceKeysStartWithS(inner: seq<(string, Service.Value)>)
    ensures forall j :: 0 <= j < |Service.BuildService(inner)| ==>
      |Service.BuildService(inner)[j].0| > 0 && Service.BuildService(inner)[j].0[0] == 'S'
  {
    var b := Service.BuildService(inner);
    forall j | 0 <= j < |b| ensures |b[j].0| > 0 && b[j].0[0] == 'S' {
      PrefixHead("Service", b[j].0);
    }
  }

  /** Two distinct keys not beginning with `S`, put before a list whose
      keys all begin with `S`, leave no key repeated. */
  lemma PlainBeforeS<V>(ka: string, kb: string, va: V, vb: V, b: seq<(string, V)>)
    requires ka != kb
    requires |ka| > 0 && ka[0] != 'S' && |kb| > 0 && kb[0] != 'S'
    requires UniqueKeys(b)
    requires forall j :: 0 <= j < |b| ==> |b[j].0| > 0 && b[j].0[0] == 'S'
    ensures UniqueKeys([(ka, va), (kb, vb)] + b)
  {
    UniqueAppend([(ka, va), (kb, vb)], b);
  }

  /** Keys not beginning with `S` cannot clash with the `Service` keys. */
  lemma PlainBeforeService(ka: string, kb: string, va: Service.Value, vb: Service.Value,
                           inner: seq<(string, Service.Value)>)
    requires ka != kb
    requires |ka| > 0 && ka[0] != 'S' && |kb| > 0 && kb[0] != 'S'
    ensures UniqueKeys([(ka, va), (kb, vb)] + Service.BuildService(inner))
  {
    ServiceKeysStartWithS(inner);
    PlainBeforeS(ka, kb, va, vb, Service.BuildService(inner));
  }

  /** Two plain fields followed by a `service` hash: the record holds the
      two fields under their camelized names, then the built service, as
      long as the two names differ and do not begin with `S`. */
  lemma BuildTwoPlainAndService(fa: (string, Service.Value), fb: (string, Service.Value),
                                inner: seq<(string, Service.Value)>)
    requires !fa.1.VHash? && !fb.1.VHash?
    requires Camelize(fa.0) != Camelize(fb.0)
    requires |Camelize(fa.0)| > 0 && Camelize(fa.0)[0] != 'S'
    requires |Camelize(fb.0)| > 0 && Camelize(fb.0)[0] != 'S'
    ensures Service.BuildExternalService([fa, fb, ("service", Service.VHash(inner))]) ==
      [(Camelize(fa.0), fa.1), (Camelize(fb.0), fb.1)] + Service.BuildService(inner)
  {
    ContributionsTwoPlainAndService(fa, fb, inner);
    PlainBeforeService(Camelize(fa.0), Camelize(fb.0), fa.1, fb.1, inner);
    Service.BuildExternalExact([fa, fb, ("service", Service.VHash(inner))]);
  }

  /** An external definition with a node, an address and a service hash. */
  function NodeDef(inner: seq<(string, Service.Value)>): Hash<Service.Value> {
    NodePairsUnique(inner);
    NodePairs(inner)
  }

  function NodePairs(inner: seq<(string, Service.Value)>): seq<(string, Service.Value)> {
    [("node", Service.VStr("foobar_node")), ("address", Service.VStr("localhost")),
     ("service", Service.VHash(inner))]
  }

  lemma NodePairsUnique(inner: seq<(string, Service.Value)>)
    ensures UniqueKeys(NodePairs(inner))
  {
    DifferAt("address", "service", 0);
  }

  lemma BuildNode(inner: seq<(string, Service.Value)>)
    ensures Service.BuildExternalService(NodeDef(inner)) ==
      [("Node", Service.VStr("foobar_node")), ("Address", Service.VStr("localhost"))] + Service.BuildService(inner)
  {
    CamelNode();
    CamelAddress();
    BuildTwoPlainAndService(("node", Service.VStr("foobar_node")), ("address", Service.VStr("localhost")), inner);
  }

  function NamedInner(): seq<(string, Service.Value)> {
    [("name", Service.VStr("foobar_service")), ("port", Service.VInt(3003))]
  }

  function NodeRecord(): Service.Record {
    [("Node", Service.VStr("foobar_node")), ("Address", Service.VStr("localhost")),
     ("ServiceName", Service.VStr("foobar_service")), ("ServicePort", Service.VInt(3003))]
  }

  lemma BuildNamedNode()
    ensures Service.BuildExternalService(NodeDef(NamedInner())) == NodeRecord()
  {
    NamedInnerBuilt();
    BuildNode(NamedInner());
  }

  lemma NamedInnerBuilt()
    ensures Service.BuildService(NamedInner()) ==
      [("ServiceName", Service.VStr("foobar_service")), ("ServicePort", Service.VInt(3003))]
  {
    KeyName();
    KeyPort();
    DifferAt("ServiceName", "ServicePort", 7);
    BuildTwo(NamedInner()[0], NamedInner()[1], "ServiceName", "ServicePort");
  }

  lemma NodeRecordName()
    ensures Service.NameOf(NodeRecord()) == Some(Service.VStr("foobar_service"))
  {
  }

  /** With the service named under `name`, `register_external` followed by
      `get('foobar_service')` finds the flattened record. */
  lemma RegisterExternalScenario(reg: Service.Registry)
    ensures Service.Get(Service.RegisterExternal(reg, NodeDef(NamedInner())).state.services, "foobar_service") == NodeRecord()
  {
    BuildNamedNode();
    NodeRecordName();
    Service.InstalledIsFound(reg, NodeRecord(), "foobar_service");
  }

  function NestedInner(): seq<(string, Service.Value)> {
    [("service", Service.VStr("foobar_service")), ("port", Service.VInt(3003))]
  }

  function NestedRecord(): Service.Record {
    [("Node", Service.VStr("foobar_node")), ("Address", Service.VStr("localhost")),
     ("ServiceService", Service.VStr("foobar_service")), ("ServicePort", Service.VInt(3003))]
  }

  /** With the service named under a nested `service` key instead, that
      field is renamed `ServiceService`, not `ServiceName`. */
  lemma BuildNestedNode()
    ensures Service.BuildExternalService(NodeDef(NestedInner())) == NestedRecord()
  {
    NestedInnerBuilt();
    BuildNode(NestedInner());
  }

  lemma NestedInnerBuilt()
    ensures Service.BuildService(NestedInner()) ==
      [("ServiceService", Service.VStr("foobar_service")), ("ServicePort", Service.VInt(3003))]
  {
    KeyService();
    KeyPort();
    DifferAt("ServiceService", "ServicePort", 7);
    BuildTwo(NestedInner()[0], NestedInner()[1], "ServiceService", "ServicePort");
  }

  lemma NestedRecordUnnamed()
    ensures Service.NameOf(NestedRecord()).None?
  {
    DifferAt("ServiceService", "ServiceName", 7);
  }

  /** Into an empty registry `register_external` puts exactly the built record. */
  lemma RegisterExternalIntoEmpty(f: File<seq<Service.Record>>, def: Hash<Service.Value>)
    ensures Service.RegisterExternal(Service.Registry([], f), def).state.services == [Service.BuildExternalService(def)]
  {
    var after := Service.RegisterExternal(Service.Registry([], f), def).state.services;
    assert after[..|after| - 1] == [];
    assert after == after[..|after| - 1] + [after[|after| - 1]];
  }

  /** The record built from the nested `service` key has no `ServiceName`,
      so a fresh registry that registers it answers
      `get('foobar_service')` with the empty record. */
  lemma NestedServiceKeyScenario(f: File<seq<Service.Record>>)
    ensures Service.NameOf(Service.BuildExternalService(NodeDef(NestedInner()))).None?
    ensures Service.Get(Service.RegisterExternal(Service.Registry([], f), NodeDef(NestedInner())).state.services, "foobar_service") == []
  {
    BuildNestedNode();
    NestedRecordUnnamed();
    RegisterExternalIntoEmpty(f, NodeDef(NestedInner()));
  }
}
