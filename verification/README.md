# Snapshot-versioning session store

A session store in which each session has an owner, a set of permission codes, and a sequence of
immutable attribute snapshots. A snapshot is keyed by `(uid, version)`. Its attributes are a map
from section names to maps from attribute names to values.

The store offers these operations:
- `create` writes version 0.
- `get(SessionId)` reads an exact version.
- `get(uid)` reads the lowest stored version.
- `getAttributeNames` and `getAttribute` read one section or one attribute. They return an empty set or null for a missing section or attribute.
- `update` copies a base snapshot's attributes and runs an ordered batch of Add/Set/Delete actions on the copy. It then writes the result at the base version + 1.

The model follows three Java revisions of the service:
- **Current embedded service** (`simplemocks/.../SessionServiceEmbedded.java`). The action switch is in its own helper. This is the reference behaviour.
- **Earlier embedded service** (`simple_mocks/.../embedded/.../SessionServiceEmbedded.java`). Same logic, with the switch written inside the batch loop.
- **Older local service** (`simple_mocks/.../local/.../LocalSessionService.java`). Its Set check is inverted, and it skips actions of an unknown kind instead of failing.

Layout, one module per file:
- `types.dfy` (`Types`): values, attribute maps, actions, codec identifiers, the error kinds, `Result`, and the two total lookups behind `getAttributeNames` and `getAttribute`.
- `codec.dfy` (`Codecs`): the codec registry. A codec is a serializer/deserializer pair. `Lawful` states the round-trip law, which the service requires of every registered codec.
- `permissions.dfy` (`Permissions`): the permission catalog. Codes match ignoring case; a new row keeps the code exactly as given.
- `mutator.dfy` (`Mutator`): the current action switch and batch as functions, with their algebra. It also has the copy loop and the batch loop as methods proved against those functions.
- `inline_mutator.dfy` (`InlineMutator`): the batch loop of the earlier embedded service, proved to compute the current batch.
- `local_mutator.dfy` (`LocalMutator`): the older batch and its loop, with the lemmas that pin down how it differs.
- `store.dfy` (`Store`): the `SessionService` class. Its fields are the session rows, the snapshot rows and the permission catalog. It also holds the registered codecs and the revision whose batch it runs.
- `scenario.dfy` (`Scenario`): clients that create, update and read sessions end to end.

Modelling decisions:
- **A value mapped to null is not occupied.** A section may map an attribute to Java `null`, modelled as `Value.Null`. Add and Delete decide by `put(...) != null` and `remove(...) != null`, so a key mapped to null counts as free for Add and as absent for Delete. Set decides by `containsKey`, so a key mapped to null counts as present for Set.
- **Saving a snapshot inserts or replaces it.** The snapshot entity has an assigned composite id and no version column, so a repository `save` on an existing `(uid, version)` merges. An update from a base that is not the latest therefore overwrites base + 1. The model follows this code. A uniqueness rejection of that write would come from the database under concurrent use, which is not modelled. `Scenario.UpdateFromStaleBase` shows the sequential behaviour.
- **`get(uid)` returns the lowest version.** The snapshot repository orders by version ascending, although its comment says "last". `get(uid)` is modelled as the lowest stored version, as the query is written. The store invariant keeps each session's versions downward closed (`0..N`). `SessionService.EarliestIsVersionZero` proves that `get(uid)` is therefore always `get(uid, 0)`.
- **Case-insensitive comparison is ASCII upper-casing** (`Permissions.Fold`), the comparison the derived query makes.

## Model

| member | source | states |
|---|---|---|
| Types.AttributeNames | src/main/java/com/github/simplemocks/session/embedded/service/SessionServiceEmbedded.java:99-102 | The names are exactly the keys of the named section; a missing section gives the empty set |
| Types.AttributeValue | src/main/java/com/github/simplemocks/session/embedded/service/SessionServiceEmbedded.java:111-114 | A missing section or attribute reads as null; a present attribute reads as its stored value, null included |
| Codecs.GetSnapshotCodec | src/main/java/com/github/simplemocks/session/embedded/service/SessionServiceEmbedded.java:167-173 | Succeeds exactly when the codec type is registered and then gives that type's codec; otherwise an unexpected error naming the type |
| Codecs.RoundTrip | src/main/java/com/github/simplemocks/session/embedded/service/SnapshotCodec.java:14-28 | With lawful codecs, a payload written through a codec type reads back through that type as the map it was written from |
| Permissions.FoldEqualIgnoringCase | src/main/java/com/github/sibdevtools/session/embedded/repository/PermissionEntityRepository.java:20 | Two codes have the same folded form exactly when they have the same length and agree character by character up to ASCII case |
| Permissions.FoldIdempotent | src/main/java/com/github/sibdevtools/session/embedded/repository/PermissionEntityRepository.java:20 | Folding a folded code changes nothing |
| Permissions.FindByCodeIgnoreCase | src/main/java/com/github/sibdevtools/session/embedded/repository/PermissionEntityRepository.java:20 | A found row is in the catalog and equals the code ignoring case; no row is found only when no row matches |
| Permissions.GetOrCreate | src/main/java/com/github/simplemocks/session/embedded/service/SessionServiceEmbedded.java:175-184 | The result equals the code ignoring case and is in the resulting catalog. When some row matches, the catalog is unchanged; when none does, exactly one row is appended, holding the code as given and the next identity |
| Permissions.ResolveAll | src/main/java/com/github/simplemocks/session/embedded/service/SessionServiceEmbedded.java:134-137 | One permission per requested code; the catalog only grows |
| Permissions.NewCodeKeptAsGiven | src/main/java/com/github/simplemocks/session/embedded/service/SessionServiceEmbedded.java:134-137 | A requested code that matches no catalog row and no earlier code ignoring case resolves to a row holding that code exactly as requested |
| Permissions.Codes | src/main/java/com/github/simplemocks/session/embedded/service/SessionServiceEmbedded.java:303-306 | The permission view is exactly the set of the rows' codes |
| Permissions.FindsTheMatchingRow | src/main/java/com/github/simple_mocks/session/embedded/service/SessionServiceEmbedded.java:164-166 | In a well-formed catalog, a code finds the one row equal to it ignoring case |
| Permissions.GetOrCreateKeepsWellFormed | src/main/java/com/github/simple_mocks/session/embedded/service/SessionServiceEmbedded.java:164-173 | Resolution keeps identities equal to row numbers and codes distinct ignoring case |
| Permissions.ResolveIsStable | src/main/java/com/github/simple_mocks/session/embedded/service/SessionServiceEmbedded.java:164-173 | A resolved code resolves again, in any casing, to the same row without adding one |
| Permissions.AdminThenLowerAdmin | src/main/java/com/github/simple_mocks/session/embedded/service/SessionServiceEmbedded.java:164-173 | "Admin" then "admin" resolve to one permission |
| Permissions.ResolveAllSound | src/main/java/com/github/simplemocks/session/embedded/service/SessionServiceEmbedded.java:134-137 | Resolving a list keeps the catalog well formed; each result is in the final catalog and equals its code ignoring case |
| Mutator.ProceedAction | src/main/java/com/github/simplemocks/session/embedded/service/SessionServiceEmbedded.java:242-278 | Only the named attribute of the section can change; Add and Set leave it present and Delete leaves it absent; the unexpected error arises exactly for an action of an unknown kind |
| Mutator.ApplyAction | src/main/java/com/github/simplemocks/session/embedded/service/SessionServiceEmbedded.java:236-237 | A successful action leaves every other section as it was and the named section changed at most in the named attribute, and creates that section when missing; an unknown action always fails |
| Mutator.ApplyActions | src/main/java/com/github/simplemocks/session/embedded/service/SessionServiceEmbedded.java:231-239 | A successful batch drops no section; a batch containing an action of an unknown kind never succeeds |
| Mutator.AddOutcome | src/main/java/com/github/simplemocks/session/embedded/service/SessionServiceEmbedded.java:247-255 | Add fails with AttributeAlreadyExists exactly when the attribute holds a non-null value; otherwise it stores the value and changes nothing else |
| Mutator.SetOutcome | src/main/java/com/github/simplemocks/session/embedded/service/SessionServiceEmbedded.java:256-267 | Set fails with AttributeNotExists exactly when the key is absent and addIfNotExists is false; otherwise the key holds the new value |
| Mutator.DeleteOutcome | src/main/java/com/github/simplemocks/session/embedded/service/SessionServiceEmbedded.java:268-275 | Delete fails with AttributeNotExists exactly when the attribute has no non-null value; otherwise it removes it and nothing else |
| Mutator.OtherActionFails | src/main/java/com/github/simplemocks/session/embedded/service/SessionServiceEmbedded.java:276 | An action of any other kind is an unexpected error |
| Mutator.ApplyActionsConcat | src/main/java/com/github/simplemocks/session/embedded/service/SessionServiceEmbedded.java:231-238 | Two batches in a row equal their concatenation: later actions see earlier effects, and a failure in the first decides the whole |
| Mutator.FirstFailureAborts | src/main/java/com/github/simplemocks/session/embedded/service/SessionServiceEmbedded.java:231-238 | The first failing action's error is the batch's error, whatever follows |
| Mutator.BatchSections | src/main/java/com/github/simplemocks/session/embedded/service/SessionServiceEmbedded.java:236 | A successful batch leaves exactly the base sections plus every section it names, created empty when missing |
| Mutator.UntargetedUnchanged | src/main/java/com/github/simplemocks/session/embedded/service/SessionServiceEmbedded.java:231-238 | An attribute no action names keeps its presence and its value |
| Mutator.SecondAddSeesFirst | src/main/java/com/github/simplemocks/session/embedded/service/SessionServiceEmbedded.java:247-255 | A second Add, in one batch, of an attribute that had no value and was first given a non-null value fails, because it sees the first |
| Mutator.AddThenDelete | src/main/java/com/github/simplemocks/session/embedded/service/SessionServiceEmbedded.java:247-275 | Adding a non-null value to an attribute that had none, then deleting it, succeeds and leaves it absent, with the section in place |
| Mutator.MakeMutableAttributes | src/main/java/com/github/simplemocks/session/embedded/service/SessionServiceEmbedded.java:280-290 | The copy has the same sections, each holding the same attributes as the source |
| Mutator.UpdateAttributes | src/main/java/com/github/simplemocks/session/embedded/service/SessionServiceEmbedded.java:225-240 | The in-place loop over the copy returns exactly the batch's outcome |
| InlineMutator.UpdateAttributes | src/main/java/com/github/simple_mocks/session/embedded/service/SessionServiceEmbedded.java:213-259 | The loop with the inlined switch computes exactly the current revision's batch |
| LocalMutator.ApplyAction | src/main/java/com/github/simple_mocks/session/local/service/LocalSessionService.java:215-248 | A successful action changes at most the named attribute of the named section, which it creates when missing; a failure is always already-exists or not-exists for the named attribute |
| LocalMutator.ApplyActions | src/main/java/com/github/simple_mocks/session/local/service/LocalSessionService.java:213-250 | A successful batch drops no section; a failing batch never reports an unexpected error |
| LocalMutator.SetOutcome | src/main/java/com/github/simple_mocks/session/local/service/LocalSessionService.java:229-241 | Set fails exactly when the key is present and addIfNotExists is false; an absent key is always written; a successful Set changes nothing but that key, creating the section when missing |
| LocalMutator.OtherActionSkipped | src/main/java/com/github/simple_mocks/session/local/service/LocalSessionService.java:214-249 | An unknown action raises nothing and changes no attribute; only the named section may appear, empty |
| LocalMutator.AgreesWithCurrent | src/main/java/com/github/simple_mocks/session/local/service/LocalSessionService.java:219-248 | A batch of Add, Delete and Set-with-add has the same outcome as in the current revision |
| LocalMutator.OverwriteRejected | src/main/java/com/github/simple_mocks/session/local/service/LocalSessionService.java:229-241 | For every map and every attribute present in the named section, Set without addIfNotExists fails with AttributeNotExists here, while the current revision performs the overwrite |
| LocalMutator.UpdateAttributes | src/main/java/com/github/simple_mocks/session/local/service/LocalSessionService.java:209-251 | The instanceof-chain loop returns exactly this revision's batch outcome |
| Store.GenesisPresent | src/main/java/com/github/simplemocks/session/embedded/service/SessionServiceEmbedded.java:149-162 | In a downward-closed store, a session with any snapshot has its version 0 |
| Store.Least | src/main/java/com/github/sibdevtools/session/embedded/repository/SessionSnapshotEntityRepository.java:30 | The result is a stored version no greater than any other |
| Store.SessionService.constructor | src/main/java/com/github/simplemocks/session/embedded/service/SessionServiceEmbedded.java:54-63 | A service over lawful codecs starts with empty repositories and its invariant established |
| Store.SessionService.FindSnapshot | src/main/java/com/github/simplemocks/session/embedded/service/SessionServiceEmbedded.java:292-297 | Finds the row at the exact (uid, version), or fails with SessionNotFound naming the uid |
| Store.SessionService.SnapshotAttributes | src/main/java/com/github/simplemocks/session/embedded/service/SessionServiceEmbedded.java:118-121 | An unregistered codec type is an unexpected error naming it; with lawful codecs, a payload that a codec type wrote for some map decodes to that map |
| Store.SessionService.AttributesAt | src/main/java/com/github/simplemocks/session/embedded/service/SessionServiceEmbedded.java:118-121 | A snapshot is decoded with the codec recorded on it; a missing snapshot or an unregistered codec type fails |
| Store.SessionService.BuildLocalSession | src/main/java/com/github/simplemocks/session/embedded/service/SessionServiceEmbedded.java:299-315 | The session carries the id, the session row's owner and permission codes, and the decoded attributes; it fails only when decoding fails |
| Store.SessionService.Get | src/main/java/com/github/simplemocks/session/embedded/service/SessionServiceEmbedded.java:68-73 | Fails as the lookup or decoding fails; otherwise returns the snapshot's attributes with its session's owner and permissions |
| Store.SessionService.GetEarliest | src/main/java/com/github/simplemocks/session/embedded/service/SessionServiceEmbedded.java:78-87 | A uid with no snapshot fails with SessionNotFound; otherwise reads the stored version no greater than any other of that uid |
| Store.SessionService.EarliestIsVersionZero | src/main/java/com/github/simplemocks/session/embedded/service/SessionServiceEmbedded.java:78-87 | In a valid store, get(uid) always equals get(uid, 0) |
| Store.SessionService.GetAttributeNames | src/main/java/com/github/simplemocks/session/embedded/service/SessionServiceEmbedded.java:91-104 | Fails only when the snapshot cannot be read; otherwise gives the section's names, empty for a missing section |
| Store.SessionService.GetAttribute | src/main/java/com/github/simplemocks/session/embedded/service/SessionServiceEmbedded.java:106-116 | Fails only when the snapshot cannot be read; otherwise gives the stored value, null for a missing section or attribute |
| Store.SessionService.GetOrCreatePermission | src/main/java/com/github/simplemocks/session/embedded/service/SessionServiceEmbedded.java:175-184 | The catalog changes exactly as GetOrCreate says, keeping it well formed; sessions and snapshots are untouched |
| Store.SessionService.ResolvePermissions | src/main/java/com/github/simplemocks/session/embedded/service/SessionServiceEmbedded.java:134-137 | Resolves the codes in order, as ResolveAll says; every resolved row is in the catalog |
| Store.SessionService.Create | src/main/java/com/github/simplemocks/session/embedded/service/SessionServiceEmbedded.java:128-165 | An encoding failure writes nothing; otherwise it saves the session row and version 0 under the fresh uid, returns (uid, 0), get of it gives back the sections and permission codes, and earlier snapshots read as before |
| Store.SessionService.Update | src/main/java/com/github/simplemocks/session/embedded/service/SessionServiceEmbedded.java:191-223 | An unreadable base, a failing batch or an encoding failure writes nothing and reports that error; otherwise it writes exactly (uid, base + 1) holding the revision's batch outcome, the base reads as before, and the new version reuses the base's owner and permissions |
| Scenario.BatchOutcome | src/test/java/com/github/sibdevtools/session/embedded/SessionServiceEmbeddedIntegrationTest.java:149-160 | Add, change and remove on the created section give the expected section |
| Scenario.LocalBatchOutcome | src/main/java/com/github/simple_mocks/session/local/service/LocalSessionService.java:229-241 | The older revision rejects the change of the existing attribute |
| Scenario.ReadBack | src/test/java/com/github/sibdevtools/session/embedded/SessionServiceEmbeddedIntegrationTest.java:176-195 | The names and values each version shows |
| Scenario.CreateInitial | src/test/java/com/github/sibdevtools/session/embedded/SessionServiceEmbeddedIntegrationTest.java:45-83 | A created session reads back with its sections and its one permission code, as version 0 alone |
| Scenario.CreateUpdateAndRead | src/test/java/com/github/sibdevtools/session/embedded/SessionServiceEmbeddedIntegrationTest.java:105-196 | After the update, version 1 shows the kept, added and changed attributes and not the removed one, while version 0 reads as created |
| Scenario.LocalRejectsChange | src/main/java/com/github/simple_mocks/session/local/service/LocalSessionService.java:177-186 | The same update through the older service fails with AttributeNotExists and stores no version 1 |
| Scenario.OverwriteOutcome | src/main/java/com/github/simplemocks/session/embedded/service/SessionServiceEmbedded.java:256-267 | Changing an existing attribute overwrites it |
| Scenario.UpdateFromStaleBase | src/main/java/com/github/simplemocks/session/embedded/service/SessionServiceEmbedded.java:203-205 | Two updates of version 0 both return version 1; the second write replaces the first |

## Left out

- Concurrency and transactions are not modelled: `@Transactional`/`REQUIRES_NEW`, the race of two writers on one `(uid, version)`, and the database uniqueness constraints behind it. Operations run one at a time. A failing operation fails before its first write, so rollback never has anything to undo.
- `UUID.randomUUID()` is a parameter: `Create` takes the uid and requires it to be unused. `ZonedDateTime.now()` timestamps are not stored.
- The JSON codec (Jackson) is not part of this model. Codecs are arbitrary function pairs. The service requires them to be lawful (round-trip) and lets either direction fail.
- Null sections, a null decoded map and null request fields are not modelled. A decoded map always exists, and every section in it is a map. The `Optional.ofNullable` branch for a null decoded map is therefore not represented.
- The database's case-insensitive comparison is modelled as ASCII upper-casing. Locale-dependent and non-ASCII case mapping is left out.
- A catalog query that matches several rows would throw in the source. It cannot happen in the model, because the catalog invariant keeps codes distinct ignoring case.
- Java reference aliasing is not modelled. Attribute maps are values, so the copy made by `MakeMutableAttributes` cannot share sections with the base. The copy's key-by-key construction is kept.
- Exception classes, HTTP status codes and error-source constants become the `Error` datatype. The local revision's `ServiceException(NOT_EXISTS)` and the embedded `AttributeNotExistsException` map to the same kind, as do their already-exists counterparts.
- The response wrappers (`GetSessionRs`, `CreateSessionRs` and others) are left out. The model returns the wrapped value or the error directly.
- Versions are unbounded naturals. The source's `long` version could be negative when a client passes one, and `version + 1` would wrap at `Long.MAX_VALUE`; neither case is modelled.
- The codec registry is a map, so each codec type has one codec. The source builds it with `Collectors.toMap`, which throws at construction when two codecs report the same type; that failure is not modelled.
- Spring and JPA wiring, configuration, Flyway migrations and the repository interfaces are left out. The repositories are maps in the `SessionService` fields.

## Findings

| source | as written | input that shows it | evidently intended | confidence | as-written member | corrected member |
|---|---|---|---|---|---|---|
| src/main/java/com/github/simple_mocks/session/local/service/LocalSessionService.java:229-241 | Set without addIfNotExists fails, with "not found" (NOT_EXISTS), when the attribute is present, and always writes an absent one | base `profile = {name: Ann}`, batch `[Set(profile, name, Ann2, addIfNotExists = false)]`: fails with AttributeNotExists although `name` exists | fail only when the attribute is absent and addIfNotExists is false, as the later revisions do | not executed | LocalMutator.OverwriteRejected | Mutator.SetOutcome |
