# fake-consul in Dafny

A model of the two in-memory fakes of the fake-consul Ruby gem, with proofs about them:

- `FakeConsul::Kv` is a key-value store. It is a string-keyed, insertion-ordered `Hash`.
  - `put` and `delete` compact it: every nil value is dropped.
  - After every `put` and `delete` it is snapshotted to a file; `clear` deletes the file.
  - `get` reads one key (a missing key reads as `""`). With `recurse` it reads every key that begins with a given string.
- `FakeConsul::Service` is a service registry: an ordered list of service records.
  - `register` renames the fields of a definition to Consul's `Service*` names.
  - `register_external` renames them to camelized names and flattens a nested `service` hash into the record.
  - Both of them first drop every record that already has the new record's `ServiceName`, then append the new record.
  - `get` returns the first record with a given `ServiceName`.

Modules, one per file:

| module | file | what it holds |
|---|---|---|
| `Wrappers` | `wrappers.dfy` | `Option` |
| `Seqs` | `seqs.dfy` | `Filter` (Ruby's `select` / `delete_if`) and its laws |
| `Assoc` | `assoc.dfy` | a Ruby `Hash` as an association list with unique keys (`Hash<V>`), with `h[k] = v` (`Assign`), `delete` (`Remove`), `merge!` (`Merge`) and `each_with_object({})` (`FromPairs`) |
| `Snapshot` | `snapshot.dfy` | the snapshot file (`Absent`, `Truncated`, `Garbled`, `Holds(s)`) and the `Mutation` that a mutator returns (new state plus return value) |
| `Inflector` | `inflector.dfy` | ActiveSupport's `camelize`, restricted to lower-case snake_case keys |
| `Kv` | `kv.dfy` | the key-value store |
| `Service` | `service.dfy` | the service registry |
| `Literals` | `literals.dfy` | small facts used to tell literal keys apart |
| `KvScenarios`, `ServiceScenarios` | `kv_scenarios.dfy`, `service_scenarios.dfy` | the gem's own examples, stated and proved on the model |

Modelling choices:

- Kv values are `Option<string>`, where `None` is nil.
- Registry values are strings, integers, string lists or nested hashes.
- Reading a missing hash key gives nil. Here that is `None`, or the empty record `[]` for `get`. Ruby wraps a record in an `OpenStruct`, whose equality ignores key order and symbolizes keys. A record here is an ordered sequence of pairs, so an equality proved here also holds between the Ruby results, while a disequality proved here carries over only when the two records differ in more than key order.
- The snapshot file is a parameter, not I/O. Every mutator's result records the file it would write.
- Restoring from that file is a function of the file's state.

## Model

| member | source | states |
|---|---|---|
| Assoc.Assign | lib/fake_consul/kv.rb:39 | after `h[k] = v`, `k` reads `v` and every other key reads as before |
| Assoc.AssignShape | lib/fake_consul/service.rb:69-73 | assigning an existing key keeps the key order; a new key is appended at the end |
| Assoc.Remove | lib/fake_consul/kv.rb:53 | after `delete(k)`, `k` is absent and every other key reads as before; the removed entry's neighbours close up in order; deleting an absent key changes nothing |
| Assoc.Select | lib/fake_consul/kv.rb:114 | `delete_if` keeps exactly the entries the block does not reject, and a key reads its old value exactly when that entry is kept |
| Assoc.Merge | lib/fake_consul/service.rb:80 | `merge!` keeps the receiver's keys in place, and the result has exactly the keys of both sides |
| Assoc.LookupMerge | lib/fake_consul/service.rb:80 | after `merge!`, a key reads the last value the merged pairs give it, or its old value if they give none |
| Assoc.MergeFresh | lib/fake_consul/service.rb:80 | merging pairwise distinct keys that are new to the receiver appends them unchanged |
| Assoc.MergeAppend | lib/fake_consul/service.rb:78-85 | merging two lists of pairs one after the other equals merging their concatenation |
| Seqs.Filter | lib/fake_consul/service.rb:42 | the kept elements are exactly the elements that pass the test |
| Seqs.FilterCount | lib/fake_consul/service.rb:42 | a kept element occurs as often as in the input; a rejected one does not occur |
| Seqs.FilterIdempotent | lib/fake_consul/service.rb:42 | filtering twice with the same test is filtering once |
| Inflector.CamelizeWord | lib/fake_consul/service.rb:73 | `camelize` of one lower-case word upcases its first letter and keeps the rest |
| Inflector.CamelizeJoin | lib/fake_consul/service.rb:73 | `camelize` drops each underscore and capitalises each word: camelizing `a_b` is camelizing `a` followed by camelizing `b` |
| Inflector.CamelizeWordInjective | lib/fake_consul/service.rb:84 | two different lower-case words never camelize to the same name |
| Kv.Compact | lib/fake_consul/kv.rb:112-115 | no nil value remains; the remaining entries are exactly the non-nil ones; every key reads the same non-nil value as before; a store without nils is unchanged |
| Kv.ConsulValue | lib/fake_consul/kv.rb:101-103 | a missing key reads `""`, and a present key reads its value's `to_s` |
| Kv.FindKeysRecursive | lib/fake_consul/kv.rb:108-110 | a prefix query returns at most one value per entry |
| Kv.FindKeysRecursiveIsPrefixValues | lib/fake_consul/kv.rb:108-110 | a prefix query equals a walk over the entries in insertion order that reads each key beginning with the prefix; the prefix is a raw string prefix, not a path segment |
| Kv.Get | lib/fake_consul/kv.rb:21-29 | without `recurse`, the `consul_value` of the key; with it, the values of every key starting with the key, in insertion order |
| Kv.Put | lib/fake_consul/kv.rb:38-43 | returns true; the new key reads the new value, or is gone when the value is nil; every other key reads as before; no nil remains; the file holds the new entries, which the intended construction reads back as the new store and the construction as written reads back as the same entries (without the file); on a compacted store an existing key keeps its place and a new key is appended |
| Kv.PutThenGet | lib/fake_consul/kv.rb:38-43 | after `put(k, s)` with a string `s`, `get(k)` answers `s`, and every other key answers as before |
| Kv.Delete | lib/fake_consul/kv.rb:52-57 | returns true, even for a missing key; the key is gone and every other key reads as before; the file holds the new entries, which either construction reads back as the same entries; on a compacted store the other entries stay in order, and deleting a missing key changes nothing |
| Kv.PutNilIsDelete | lib/fake_consul/kv.rb:38-57 | putting nil gives the same store, file and result as deleting |
| Kv.Clear | lib/fake_consul/kv.rb:61-65 | the store is empty: no key is present and every key reads `""`; the file is gone |
| Kv.ClearThenRestore | lib/fake_consul/kv.rb:61-65 | after `clear`, a construction of either kind starts from the cleared store |
| Kv.Restore | lib/fake_consul/kv.rb:77-89 | the intended construction: a missing file, or one whose load raises `EOFError`, gives an empty store; any other load error is raised; a snapshot is restored exactly; the file is left as it was found |
| Kv.RestoreIdempotent | lib/fake_consul/kv.rb:77-89 | with the intended construction, reading the file it leaves behind gives the same store again |
| Kv.RestoreAsWritten | lib/fake_consul/kv.rb:77-89 | the construction as written: like the intended one, except that a snapshot file is deleted by the `clear` it calls, so the store keeps the snapshot only in memory |
| Kv.RestoreForgets | lib/fake_consul/kv.rb:82 | as written, constructing a second store from what the first construction leaves behind gives an empty store, losing a non-empty snapshot; the intended construction gives the snapshot back |
| KvScenarios.RecursiveGetScenario | spec/fake_consul/kv_spec.rb:52-67 | after the four puts of the example, the recursive get of `foo/bar/` is `baz`, `bif`, `boz`; `foo/boom/boz` is not included |
| Service.ServiceKey | lib/fake_consul/service.rb:68-73 | every name `build_service` gives a field begins with `Service` |
| Service.ServiceKeyIsID | lib/fake_consul/service.rb:68-73 | a one-word field is renamed `ServiceID` exactly when it is `id` |
| Service.ServiceKeyInjective | lib/fake_consul/service.rb:68-73 | two different one-word fields never get the same `Service` name |
| Service.BuildService | lib/fake_consul/service.rb:66-75 | every key begins with `Service`; the keys are exactly the renamed fields; a field that no later field collides with keeps its value; without collisions the record is the definition renamed field by field, in order |
| Service.StepIsMerge | lib/fake_consul/service.rb:78-85 | one iteration of `build_external_service` merges in that field's contribution (a camelized plain field, the built `service` hash, or nothing) |
| Service.ExternalFoldIsMerge | lib/fake_consul/service.rb:77-86 | the whole `each_with_object` merges every contribution in order into an empty hash |
| Service.BuildExternalService | lib/fake_consul/service.rb:77-86 | each key reads the last value contributed for it; every plain field is present under its camelized name; every field of the `service` hash is present under its `Service` name; a hash under any other name contributes nothing |
| Service.BuildExternalExact | lib/fake_consul/service.rb:77-86 | when no two contributions share a key, the built record is the contributions, in order |
| Service.Get | lib/fake_consul/service.rb:15-18 | the empty record exactly when no record has the `ServiceName`; otherwise the first record that has it |
| Service.GetLast | lib/fake_consul/service.rb:15-18 | the `:last` reading: the empty record exactly when none matches, otherwise the last matching record |
| Service.GetAll | lib/fake_consul/service.rb:15-18 | the `:all` reading: exactly the matching records, each as often as the registry holds it |
| Service.GetAllKeepsOrder | lib/fake_consul/service.rb:15-18 | the `:all` reading of a concatenation is the reading of each part, in order, so matching records come back in registration order |
| Service.GetAllOne | lib/fake_consul/service.rb:15-18 | the `:all` reading of one record is that record when its `ServiceName` matches and nothing otherwise; with Service.GetAllKeepsOrder this fixes the reading of every registry |
| Service.GetScoped | lib/fake_consul/service.rb:15-18 | `:first` is `get`; `:last` and `:all` are empty exactly when `get` is |
| Service.Deregister | lib/fake_consul/service.rb:41-44 | returns true and snapshots; the survivors are exactly the records with another `ServiceName`, each as often as before; nothing changes when no record has the name |
| Service.DeregisterKeepsOrder | lib/fake_consul/service.rb:42 | deregistering a concatenation deregisters each part, so the survivors keep their relative order |
| Service.DeregisterThenGet | lib/fake_consul/service.rb:41-44 | after `deregister(n)`, `get(n)` is empty |
| Service.Install | lib/fake_consul/service.rb:28-31 | the new record is last; no other record has its `ServiceName`; the rest is `deregister` of that name, in order |
| Service.InstallIdempotent | lib/fake_consul/service.rb:28-31 | installing the same record twice is installing it once |
| Service.InstalledIsFound | lib/fake_consul/service.rb:28-31 | after installing a record named `n`, `get(n)` returns that record |
| Service.Register | lib/fake_consul/service.rb:27-32 | returns true; the built record is last, and no other record has its `ServiceName`; the records before it are exactly the survivors of `deregister` of that name, in their original order; the snapshot reads back as the new list |
| Service.RegisterIdempotent | lib/fake_consul/service.rb:27-32 | registering a definition twice is registering it once |
| Service.RegisterThenGet | lib/fake_consul/service.rb:27-32 | after `register`, `get` of the built record's name returns the built record |
| Service.RegisterExternal | lib/fake_consul/service.rb:46-51 | as `register`, with the `build_external_service` record: it is last and uniquely named, and the records before it are the survivors of `deregister` of its name, in order |
| Service.RegisterExternalIdempotent | lib/fake_consul/service.rb:46-51 | registering an external definition twice is registering it once |
| Service.DeregisterExternal | lib/fake_consul/service.rb:60-62 | is `deregister` under another name, and returns true |
| Service.Restore | lib/fake_consul/service.rb:95-103 | a snapshot is restored exactly; any other file gives the empty list |
| ServiceScenarios.ScopeOfFour | lib/fake_consul/service.rb:15-18 | for three records named `key` followed by one that is not, `get` gives the first; `:last` gives the third; `:all` gives the three |
| ServiceScenarios.GetIgnoresScope | spec/fake_consul/service_spec.rb:26-49 | on the seeded records, `get('test')` is the `addr1` record, whatever the scope and so also for `:last`, where `addr3` is expected; the scoped reading gives `addr3` and the three `test` records |
| ServiceScenarios.BuildFoobar | spec/fake_consul/service_spec.rb:53-60 | the register example's definition builds exactly the expected record |
| ServiceScenarios.RegisterScenario | spec/fake_consul/service_spec.rb:52-80 | from any registry, register and then `get('foobar')` gives the expected record; deregistering `foobar` then leaves `get` empty |
| ServiceScenarios.BuildTwoPlainAndService | lib/fake_consul/service.rb:77-86 | two plain fields with distinct camelized names not starting with `S`, then a `service` hash, build the two camelized fields followed by the built service |
| ServiceScenarios.RegisterExternalScenario | spec/fake_consul/service_spec.rb:82-99 | with the inner service named under `name`, `register_external` and then `get('foobar_service')` gives the flattened record `Node`, `Address`, `ServiceName`, `ServicePort` |
| ServiceScenarios.NestedServiceKeyScenario | spec/fake_consul/service_spec.rb:82-99 | with the inner service named under a nested `service` key, as the example writes it, the record gets `ServiceService` and no `ServiceName`, so `get('foobar_service')` on a fresh registry is empty |

## Left out

- Marshal encoding, the snapshot file path (`Dir.tmpdir`) and real file I/O: the file is an abstract value, so every way of failing to decode it is one `Garbled` case, and `EOFError` is the `Truncated` case.
- `HashWithIndifferentAccess`, `stringify_keys` and symbol arguments (`get(:test)`): every key is a string here. A definition with both `:name` and `'name'` is not modelled.
- `OpenStruct`: `get` returns the bare record.
- The unused `options`, `not_found`, `found` and `meta` parameters.
- Kv values other than strings and nil: `to_s` is modelled only for those.
- Nil values inside service definitions.
- `camelize` is modelled for lower-case snake_case keys only: no acronyms, no `/` to `::`, no upper-case input.
- Service.Restore: the registry does not raise on a corrupt file, unlike the key-value store. In `restore!`, the outer `rescue EOFError` and `rescue StandardError => e; raise e` (lib/fake_consul/service.rb:99-102, as at lib/fake_consul/kv.rb:85-88) let only `EOFError` pass silently and re-raise everything else. But the inline `rescue []` at lib/fake_consul/service.rb:98 catches every load error first and leaves the empty list. The model follows line 98.
- Kv.FindKeysRecursive: its own contract only bounds the length. The exact content is stated by Kv.FindKeysRecursiveIsPrefixValues.
- KvScenarios.RecursiveGetScenario: it starts from the four entries in the order the four puts append them (Kv.Put states the append). It does not replay the four `put` calls.
- The test at spec/fake_consul/service_spec.rb:101-117 registers a nested hash with `register`. Its expectation (`to be`) holds for any result, so it is not stated.

## Findings

| source | as written | input that shows it | evidently intended | confidence | as-written member | corrected member |
|---|---|---|---|---|---|---|
| lib/fake_consul/kv.rb:77-89 | `restore!` empties the store with `self.clear`; that is the store's own `clear` (lines 61-65), which also deletes the snapshot file being read | a snapshot file holding `foo` => `bar`, then two constructions of the store with no `put` or `delete` in between: the first store holds `foo`, the second is empty | restoring leaves the file in place, so every construction reads the same snapshot until the next mutation | not executed | Kv.RestoreForgets | Kv.Restore |
| lib/fake_consul/service.rb:15-18 | `get` ignores its `scope` argument and always returns the first record with the name | the seeded records of spec/fake_consul/service_spec.rb:26-36 with `get('test', :last)`: the `addr1` record comes back, where `addr3` is expected; `:all` returns one record, where a list of three is expected | `:last` returns the last matching record and `:all` returns every matching record | not executed | ServiceScenarios.GetIgnoresScope | Service.GetScoped |

One more discrepancy lies between an example and the code, not in the code.

- The `register_external` example at spec/fake_consul/service_spec.rb:87 names its service under a nested `service:` key.
- It expects `ServiceName` back.
- `build_service` renames that key to `ServiceService`, so `get('foobar_service')` finds nothing (ServiceScenarios.NestedServiceKeyScenario).
- The same definition with `name:`, as in the example at line 106, gives the expected record (ServiceScenarios.RegisterExternalScenario).
