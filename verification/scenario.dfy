/**
 * A client of the session store: create a session with one section and
 * one permission, update it with an add, a change and a remove, and read
 * both versions back.
 */
module Scenario {
  import opened Types
  import Codecs
  import Mutator
  import LocalMutator
  import opened Store

  const SECTION := "sec"

  /** The section as created: three attributes. */
  function Initial(): Attrs
  {
    map[SECTION := map["keep" := Obj("1"), "change" := Obj("2"), "remove" := Obj("3")]]
  }

  /** Add a new attribute, change an existing one, remove a third. */
  function Batch(): seq<Action>
  {
    [Add(SECTION, "add", Obj("4")), Set(SECTION, "change", Obj("5"), false), Delete(SECTION, "remove")]
  }

  /** The section after the batch. */
  function Updated(): Attrs
  {
    map[SECTION := map["keep" := Obj("1"), "change" := Obj("5"), "add" := Obj("4")]]
  }

  /** A batch whose first action succeeds continues from that action's
      outcome. */
  lemma ContinueAfter(attrs: Attrs, a: Action, rest: seq<Action>, next: Attrs)
    requires Mutator.ApplyAction(attrs, a) == Ok(next)
    ensures Mutator.ApplyActions(attrs, [a] + rest) == Mutator.ApplyActions(next, rest)
  {
  }

  /** The section after each action of the batch. */
  function AfterAdd(): Section { Initial()[SECTION]["add" := Obj("4")] }
  function AfterSet(): Section { AfterAdd()["change" := Obj("5")] }

  lemma AddStep()
    ensures Mutator.ApplyAction(Initial(), Batch()[0]) == Ok(map[SECTION := AfterAdd()])
  {
    var s0 := Initial()[SECTION];
    assert SectionOf(Initial(), SECTION) == s0 && "add" !in s0;
    assert Mutator.ProceedAction(s0, Batch()[0]) == Ok(AfterAdd());
    assert Initial()[SECTION := AfterAdd()] == map[SECTION := AfterAdd()];
  }

  lemma SetStep()
    ensures Mutator.ApplyAction(map[SECTION := AfterAdd()], Batch()[1]) == Ok(map[SECTION := AfterSet()])
  {
    assert SectionOf(map[SECTION := AfterAdd()], SECTION) == AfterAdd() && "change" in AfterAdd();
    assert Mutator.ProceedAction(AfterAdd(), Batch()[1]) == Ok(AfterSet());
    assert map[SECTION := AfterAdd()][SECTION := AfterSet()] == map[SECTION := AfterSet()];
  }

  lemma DeleteStep()
    ensures Mutator.ApplyAction(map[SECTION := AfterSet()], Batch()[2]) == Ok(Updated())
  {
    var s3 := AfterSet() - {"remove"};
    assert SectionOf(map[SECTION := AfterSet()], SECTION) == AfterSet() && Occupied(AfterSet(), "remove");
    assert Mutator.ProceedAction(AfterSet(), Batch()[2]) == Ok(s3);
    assert s3 == Updated()[SECTION];
    assert map[SECTION := AfterSet()][SECTION := s3] == Updated();
  }

  /** The current revision runs the batch to the expected section. */
  lemma BatchOutcome()
    ensures Mutator.ApplyActions(Initial(), Batch()) == Ok(Updated())
  {
    AddStep();
    SetStep();
    DeleteStep();
    assert Batch() == [Batch()[0]] + ([Batch()[1]] + ([Batch()[2]] + []));
    ContinueAfter(Initial(), Batch()[0], [Batch()[1]] + ([Batch()[2]] + []), map[SECTION := AfterAdd()]);
    ContinueAfter(map[SECTION := AfterAdd()], Batch()[1], [Batch()[2]] + [], map[SECTION := AfterSet()]);
    ContinueAfter(map[SECTION := AfterSet()], Batch()[2], [], Updated());
  }

  /** The older revision rejects the change of the existing attribute. */
  lemma LocalBatchOutcome()
    ensures LocalMutator.ApplyActions(Initial(), Batch()) == Err(AttributeNotExists(SECTION, "change"))
  {
    var s0 := Initial()[SECTION];
    var s1 := s0["add" := Obj("4")];
    assert SectionOf(Initial(), SECTION) == s0 && "add" !in s0;
    assert Initial()[SECTION := s1] == map[SECTION := s1];
    assert LocalMutator.ApplyAction(Initial(), Batch()[0]) == Ok(map[SECTION := s1]);
    assert SectionOf(map[SECTION := s1], SECTION) == s1;
    assert "change" in s1;
  }

  /** Codecs that can encode every attribute map and read back what they
      wrote, with the default codec among them. */
  ghost predicate UsableCodecs(codecs: Codecs.Registry)
  {
    && Codecs.LawfulRegistry(codecs)
    && DEFAULT_CODEC_TYPE in codecs
    && forall a :: codecs[DEFAULT_CODEC_TYPE].serialize(a).Ok?
  }

  /** What the reads see in each version. */
  lemma ReadBack()
    ensures AttributeNames(Updated(), SECTION) == {"keep", "change", "add"}
    ensures [AttributeValue(Updated(), SECTION, "keep"), AttributeValue(Updated(), SECTION, "add"),
             AttributeValue(Updated(), SECTION, "change"), AttributeValue(Updated(), SECTION, "remove")]
         == [Obj("1"), Obj("4"), Obj("5"), Null]
    ensures [AttributeValue(Initial(), SECTION, "keep"), AttributeValue(Initial(), SECTION, "add"),
             AttributeValue(Initial(), SECTION, "change"), AttributeValue(Initial(), SECTION, "remove")]
         == [Obj("1"), Null, Obj("2"), Obj("3")]
  {
  }

  /** A fresh service of the given revision holding one session created
      from Initial() with the permission "read". */
  method CreateInitial(codecs: Codecs.Registry, revision: Revision) returns (service: SessionService, id: SessionId)
    requires UsableCodecs(codecs)
    ensures fresh(service) && service.Valid()
    ensures service.codecs == codecs && service.revision == revision
    ensures id == SessionId("session-1", 0) && service.snapshots.Keys == {id}
    ensures service.AttributesAt(id) == Ok(Initial())
    ensures service.Get(id).Ok? && service.Get(id).value.permissions == {"read"}
  {
    service := new SessionService(codecs, revision);
    var created := service.Create("session-1", OwnerType("USER"), "owner-1", Initial(), ["read"]);
    id := created.value;
    assert Permissions.ResolveAll([], ["read"]).0 == [Permissions.Permission(0, "read")];
    assert Permissions.Codes([Permissions.Permission(0, "read")]) == {"read"};
  }

  /** Create, update, and read both versions through the current service:
      the new version holds the added and changed attributes and not the
      removed one, while version 0 still reads as created. */
  method CreateUpdateAndRead(codecs: Codecs.Registry)
    returns (names: set<string>, newValues: seq<Value>, oldValues: seq<Value>, granted: set<string>)
    requires UsableCodecs(codecs)
    ensures names == {"keep", "change", "add"}
    ensures newValues == [Obj("1"), Obj("4"), Obj("5"), Null]
    ensures oldValues == [Obj("1"), Null, Obj("2"), Obj("3")]
    ensures granted == {"read"}
  {
    var service, id := CreateInitial(codecs, Embedded);
    granted := service.Get(id).value.permissions;

    BatchOutcome();
    var updated := service.Update(id, Batch());
    var next := updated.value;
    assert service.AttributesAt(next) == Ok(Updated());
    assert service.AttributesAt(id) == Ok(Initial());

    ReadBack();
    names := service.GetAttributeNames(next, SECTION).value;
    newValues := [service.GetAttribute(next, SECTION, "keep").value,
                  service.GetAttribute(next, SECTION, "add").value,
                  service.GetAttribute(next, SECTION, "change").value,
                  service.GetAttribute(next, SECTION, "remove").value];
    oldValues := [service.GetAttribute(id, SECTION, "keep").value,
                  service.GetAttribute(id, SECTION, "add").value,
                  service.GetAttribute(id, SECTION, "change").value,
                  service.GetAttribute(id, SECTION, "remove").value];
  }

  /** The same update through the older local service fails, and no
      version 1 is stored. */
  method LocalRejectsChange(codecs: Codecs.Registry) returns (r: Result<SessionId>, stored: bool)
    requires UsableCodecs(codecs)
    ensures r == Err(AttributeNotExists(SECTION, "change"))
    ensures !stored
  {
    var service, id := CreateInitial(codecs, Local);
    LocalBatchOutcome();
    r := service.Update(id, Batch());
    stored := SessionId("session-1", 1) in service.snapshots;
  }

  /** A single change of "keep". */
  function Overwrite(): seq<Action>
  {
    [Set(SECTION, "keep", Obj("9"), false)]
  }

  /** The section after the change of "keep". */
  function Overwritten(): Attrs
  {
    map[SECTION := map["keep" := Obj("9"), "change" := Obj("2"), "remove" := Obj("3")]]
  }

  lemma OverwriteOutcome()
    ensures Mutator.ApplyActions(Initial(), Overwrite()) == Ok(Overwritten())
    ensures AttributeValue(Overwritten(), SECTION, "keep") == Obj("9")
    ensures AttributeValue(Overwritten(), SECTION, "add") == Null
  {
    var s0 := Initial()[SECTION];
    assert SectionOf(Initial(), SECTION) == s0 && "keep" in s0;
    assert s0["keep" := Obj("9")] == Overwritten()[SECTION];
    assert Initial()[SECTION := s0["keep" := Obj("9")]] == Overwritten();
    assert Overwrite()[1..] == [];
  }

  /** An update through the current service whose batch is known to
      succeed: it returns base + 1 holding the batch's outcome, and the
      base reads as before. */
  method UpdateKnown(service: SessionService, id: SessionId, actions: seq<Action>, expected: Attrs)
    returns (r: Result<SessionId>)
    requires service.Valid() && service.revision == Embedded && UsableCodecs(service.codecs)
    requires service.AttributesAt(id).Ok?
    requires Mutator.ApplyActions(service.AttributesAt(id).value, actions) == Ok(expected)
    modifies service
    ensures service.Valid()
    ensures r == Ok(SessionId(id.uid, id.version + 1))
    ensures service.AttributesAt(id) == old(service.AttributesAt(id))
    ensures service.AttributesAt(r.value) == Ok(expected)
  {
    r := service.Update(id, actions);
  }

  /** Two updates of the same base version both produce base + 1: the
      version follows the caller's base, not the latest stored one, and the
      second write replaces the first. */
  method UpdateFromStaleBase(codecs: Codecs.Registry)
    returns (first: Result<SessionId>, second: Result<SessionId>, kept: Value, added: Value)
    requires UsableCodecs(codecs)
    ensures first == Ok(SessionId("session-1", 1))
    ensures second == Ok(SessionId("session-1", 1))
    ensures kept == Obj("9") && added == Null
  {
    var service, id := CreateInitial(codecs, Embedded);
    BatchOutcome();
    first := UpdateKnown(service, id, Batch(), Updated());
    assert SessionId(id.uid, id.version + 1) == SessionId("session-1", 1);
    OverwriteOutcome();
    second := UpdateKnown(service, id, Overwrite(), Overwritten());
    var next := second.value;
    kept := service.GetAttribute(next, SECTION, "keep").value;
    added := service.GetAttribute(next, SECTION, "add").value;
  }
}
