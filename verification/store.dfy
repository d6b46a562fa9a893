/**
 * The session store: sessions and their immutable, versioned attribute
 * snapshots, kept in repositories the service reads and saves through.
 */
module Store {
  import opened Types
  import Codecs
  import Permissions
  import Mutator
  import InlineMutator
  import LocalMutator

  /** A snapshot's identity: the session uid and the version. */
  datatype SessionId = SessionId(uid: string, version: nat)

  /** The kind of owner a session belongs to (an enumeration of the API). */
  datatype OwnerType = OwnerType(name: string)

  /** The session row: owner and permissions, shared by all snapshots. */
  datatype SessionRecord = SessionRecord(ownerType: OwnerType, ownerId: string, permissions: seq<Permissions.Permission>)

  /** The snapshot row: the codec it was written with and its payload. */
  datatype SnapshotRecord = SnapshotRecord(codecType: CodecType, payload: Codecs.Bytes)

  /** The session a read returns. */
  datatype Session = Session(id: SessionId, ownerType: OwnerType, ownerId: string, attributes: Attrs, permissions: set<string>)

  /** Which revision of the service runs the attribute batch. */
  datatype Revision =
    | Embedded        // the current embedded service (action switch in its own helper)
    | EmbeddedInline  // the earlier embedded service (switch written inside the loop)
    | Local           // the older local service

  /** The attribute batch each revision runs. */
  function Mutate(revision: Revision, base: Attrs, actions: seq<Action>): Result<Attrs>
  {
    match revision
    case Embedded => Mutator.ApplyActions(base, actions)
    case EmbeddedInline => Mutator.ApplyActions(base, actions)
    case Local => LocalMutator.ApplyActions(base, actions)
  }

  /** Every version below a stored one is stored too (step form). */
  ghost predicate VersionsDownwardClosed(snapshots: map<SessionId, SnapshotRecord>)
  {
    forall id :: id in snapshots && id.version > 0 ==> SessionId(id.uid, id.version - 1) in snapshots
  }

  /** A session with any snapshot has its version 0. */
  lemma {:induction false} GenesisPresent(snapshots: map<SessionId, SnapshotRecord>, id: SessionId)
    requires VersionsDownwardClosed(snapshots)
    requires id in snapshots
    ensures SessionId(id.uid, 0) in snapshots
    decreases id.version
  {
    if id.version > 0 {
      GenesisPresent(snapshots, SessionId(id.uid, id.version - 1));
    }
  }

  /** `m` is the least element of `versions`. */
  predicate IsLeast(m: nat, versions: set<nat>)
  {
    m in versions && forall v :: v in versions ==> m <= v
  }

  /** Every non-empty set of versions has a least element. */
  lemma {:induction false} LeastExists(versions: set<nat>)
    requires versions != {}
    ensures exists m :: IsLeast(m, versions)
    decreases |versions|
  {
    var x :| x in versions;
    if versions == {x} {
      assert IsLeast(x, versions);
    } else {
      var rest := versions - {x};
      LeastExists(rest);
      var m :| IsLeast(m, rest);
      var least := if x < m then x else m;
      forall v | v in versions
        ensures least <= v
      {
        if v != x {
          assert v in rest;
        }
      }
      assert IsLeast(least, versions);
    }
  }

  /** The least element of a non-empty set of versions. */
  function Least(versions: set<nat>): (m: nat)
    requires versions != {}
    ensures m in versions && forall v :: v in versions ==> m <= v
  {
    LeastExists(versions);
    var m :| IsLeast(m, versions);
    m
  }

  class SessionService {
    /** Session rows by uid. */
    var sessions: map<string, SessionRecord>
    /** Snapshot rows by (uid, version). */
    var snapshots: map<SessionId, SnapshotRecord>
    /** The permission catalog, in insertion order. */
    var permissions: seq<Permissions.Permission>
    /** The registered codecs. */
    const codecs: Codecs.Registry
    /** The revision whose attribute batch this service runs. */
    const revision: Revision

    /** The repositories' integrity: codecs round-trip, the catalog is
        deduplicated, sessions refer to catalog rows, every snapshot has its
        session row, and each session's versions form a prefix 0..N. */
    ghost predicate Valid()
      reads this
    {
      && Codecs.LawfulRegistry(codecs)
      && Permissions.WellFormed(permissions)
      && (forall uid, p :: uid in sessions && p in sessions[uid].permissions ==> p in permissions)
      && (forall id :: id in snapshots ==> id.uid in sessions)
      && VersionsDownwardClosed(snapshots)
    }

    constructor (codecs: Codecs.Registry, revision: Revision)
      requires Codecs.LawfulRegistry(codecs)
      ensures Valid()
      ensures this.codecs == codecs && this.revision == revision
      ensures sessions == map[] && snapshots == map[] && permissions == []
    {
      this.codecs := codecs;
      this.revision := revision;
      sessions := map[];
      snapshots := map[];
      permissions := [];
    }

    /** The snapshot row at an exact (uid, version). */
    function FindSnapshot(id: SessionId): (r: Result<SnapshotRecord>)
      reads this
      ensures r.Ok? <==> id in snapshots
      ensures r.Ok? ==> r.value == snapshots[id]
      ensures r.Err? ==> r.error == SessionNotFound(id.uid)
    {
      if id in snapshots then Ok(snapshots[id]) else Err(SessionNotFound(id.uid))
    }

    /** A snapshot's attributes, decoded with the codec recorded on it: an
        unregistered codec type is an error naming it, and a payload that a
        lawful registered codec wrote reads back as the map it was written
        from. */
    function SnapshotAttributes(snapshot: SnapshotRecord): (r: Result<Attrs>)
      ensures snapshot.codecType !in codecs ==> r == Err(UnexpectedError(UnsupportedCodec(snapshot.codecType)))
      ensures Codecs.LawfulRegistry(codecs) ==>
                forall a :: Codecs.Serialize(codecs, snapshot.codecType, a) == Ok(snapshot.payload) ==> r == Ok(a)
    {
      Codecs.Deserialize(codecs, snapshot.codecType, snapshot.payload)
    }

    /** The decoded attributes of the snapshot at `id`. */
    function AttributesAt(id: SessionId): (r: Result<Attrs>)
      reads this
      ensures id !in snapshots ==> r == Err(SessionNotFound(id.uid))
      ensures id in snapshots && snapshots[id].codecType !in codecs
              ==> r == Err(UnexpectedError(UnsupportedCodec(snapshots[id].codecType)))
      ensures id in snapshots && snapshots[id].codecType in codecs
              ==> r == codecs[snapshots[id].codecType].deserialize(snapshots[id].payload)
    {
      var snapshot :- FindSnapshot(id);
      SnapshotAttributes(snapshot)
    }

    /** The session view of a snapshot: its decoded attributes with the
        owner and the permission codes of its session row. */
    function BuildLocalSession(id: SessionId, snapshot: SnapshotRecord): (r: Result<Session>)
      reads this
      requires id.uid in sessions
      ensures r.Err? <==> SnapshotAttributes(snapshot).Err?
      ensures r.Err? ==> r.error == SnapshotAttributes(snapshot).error
      ensures r.Ok? ==>
                && r.value.id == id
                && r.value.ownerType == sessions[id.uid].ownerType
                && r.value.ownerId == sessions[id.uid].ownerId
                && SnapshotAttributes(snapshot) == Ok(r.value.attributes)
                && r.value.permissions == Permissions.Codes(sessions[id.uid].permissions)
    {
      var attributes :- SnapshotAttributes(snapshot);
      var session := sessions[id.uid];
      Ok(Session(id, session.ownerType, session.ownerId, attributes, Permissions.Codes(session.permissions)))
    }

    /** get(SessionId): the session at an exact version. */
    function Get(id: SessionId): (r: Result<Session>)
      reads this
      requires Valid()
      ensures r.Err? <==> AttributesAt(id).Err?
      ensures r.Err? ==> r.error == AttributesAt(id).error
      ensures r.Ok? ==>
                && id in snapshots
                && r.value.id == id
                && AttributesAt(id) == Ok(r.value.attributes)
                && r.value.ownerType == sessions[id.uid].ownerType
                && r.value.ownerId == sessions[id.uid].ownerId
                && r.value.permissions == Permissions.Codes(sessions[id.uid].permissions)
    {
      var snapshot :- FindSnapshot(id);
      BuildLocalSession(id, snapshot)
    }

    /** The versions stored for a uid. */
    function VersionsOf(uid: string): set<nat>
      reads this
    {
      set id | id in snapshots && id.uid == uid :: id.version
    }

    /** get(uid): the session at the lowest stored version of the uid. */
    function GetEarliest(uid: string): (r: Result<Session>)
      reads this
      requires Valid()
      ensures VersionsOf(uid) == {} ==> r == Err(SessionNotFound(uid))
      ensures r.Ok? ==>
                && r.value.id.uid == uid
                && r.value.id in snapshots
                && forall v :: v in VersionsOf(uid) ==> r.value.id.version <= v
    {
      var versions := VersionsOf(uid);
      if versions == {} then Err(SessionNotFound(uid))
      else
        var id := SessionId(uid, Least(versions));
        assert id in snapshots by {
          var stored :| stored in snapshots && stored.uid == uid && stored.version == Least(versions);
          assert stored == id;
        }
        BuildLocalSession(id, snapshots[id])
    }

    /** In a valid store get(uid) always reads version 0 (and fails as
        get(uid, 0) does when the uid has no snapshot). */
    lemma EarliestIsVersionZero(uid: string)
      requires Valid()
      ensures GetEarliest(uid) == Get(SessionId(uid, 0))
    {
      var versions := VersionsOf(uid);
      forall id | id in snapshots && id.uid == uid
        ensures SessionId(uid, 0) in snapshots
      {
        GenesisPresent(snapshots, id);
      }
      if SessionId(uid, 0) in snapshots {
        assert 0 in versions;
        assert Least(versions) == 0;
      } else {
        assert versions == {};
      }
    }

    /** getAttributeNames: the names in a section of the snapshot at `id`;
        a missing section gives the empty set, only a missing snapshot or
        codec fails. */
    function GetAttributeNames(id: SessionId, section: string): (r: Result<set<string>>)
      reads this
      ensures r.Err? <==> AttributesAt(id).Err?
      ensures r.Err? ==> r.error == AttributesAt(id).error
      ensures r.Ok? ==> forall k :: k in r.value <==> section in AttributesAt(id).value && k in AttributesAt(id).value[section]
      ensures r.Ok? && section !in AttributesAt(id).value ==> r.value == {}
    {
      var attributes :- AttributesAt(id);
      Ok(AttributeNames(attributes, section))
    }

    /** getAttribute: an attribute of the snapshot at `id`; a missing
        section or attribute reads as null, only a missing snapshot or
        codec fails. */
    function GetAttribute(id: SessionId, section: string, attribute: string): (r: Result<Value>)
      reads this
      ensures r.Err? <==> AttributesAt(id).Err?
      ensures r.Err? ==> r.error == AttributesAt(id).error
      ensures r.Ok? && (section !in AttributesAt(id).value || attribute !in AttributesAt(id).value[section])
              ==> r.value == Null
      ensures r.Ok? && section in AttributesAt(id).value && attribute in AttributesAt(id).value[section]
              ==> r.value == AttributesAt(id).value[section][attribute]
    {
      var attributes :- AttributesAt(id);
      Ok(AttributeValue(attributes, section, attribute))
    }

    /** Resolve a permission code: the catalog row equal to it ignoring
        case, or a new row with the code as given. */
    method GetOrCreatePermission(code: string) returns (p: Permissions.Permission)
      requires Valid()
      modifies this
      ensures Valid()
      ensures (p, permissions) == Permissions.GetOrCreate(old(permissions), code)
      ensures sessions == old(sessions) && snapshots == old(snapshots)
    {
      Permissions.GetOrCreateKeepsWellFormed(permissions, code);
      var found := Permissions.FindByCodeIgnoreCase(permissions, code);
      match found {
        case Some(existing) =>
          p := existing;
        case None =>
          p := Permissions.Permission(|permissions|, code);
          permissions := permissions + [p];
      }
    }

    /** Resolve permission codes in order, each as GetOrCreatePermission
        does, so that a code repeated in any casing maps to one row. */
    method ResolvePermissions(codes: seq<string>) returns (ps: seq<Permissions.Permission>)
      requires Valid()
      modifies this
      ensures Valid()
      ensures (ps, permissions) == Permissions.ResolveAll(old(permissions), codes)
      ensures forall p :: p in ps ==> p in permissions
      ensures sessions == old(sessions) && snapshots == old(snapshots)
    {
      ghost var target := Permissions.ResolveAll(permissions, codes);
      ps := [];
      assert codes[0..] == codes;
      for i := 0 to |codes|
        invariant Valid()
        invariant sessions == old(sessions) && snapshots == old(snapshots)
        invariant forall q :: q in ps ==> q in permissions
        invariant ps + Permissions.ResolveAll(permissions, codes[i..]).0 == target.0
        invariant Permissions.ResolveAll(permissions, codes[i..]).1 == target.1
      {
        Permissions.ResolveAllStep(permissions, codes, i);
        ghost var rest := Permissions.ResolveAll(Permissions.GetOrCreate(permissions, codes[i]).1, codes[i + 1..]).0;
        ghost var before := permissions;
        var p := GetOrCreatePermission(codes[i]);
        assert forall q :: q in before ==> q in permissions;
        Permissions.AppendRegroups(ps, [p], rest);
        ps := ps + [p];
      }
      assert codes[|codes|..] == [];
      assert ps + [] == ps;
    }

    /** create: encode the sections with the default codec, resolve the
        permission codes in order, save the session row and the version-0
        snapshot, and return (uid, 0). `uid` is the fresh identifier the
        service generates. */
    method Create(uid: string, ownerType: OwnerType, ownerId: string, sections: Attrs, codes: seq<string>)
      returns (r: Result<SessionId>)
      requires Valid()
      requires uid !in sessions
      modifies this
      ensures Valid()
      ensures Codecs.Serialize(codecs, DEFAULT_CODEC_TYPE, sections).Err? ==>
                && r == Err(Codecs.Serialize(codecs, DEFAULT_CODEC_TYPE, sections).error)
                && sessions == old(sessions) && snapshots == old(snapshots) && permissions == old(permissions)
      ensures Codecs.Serialize(codecs, DEFAULT_CODEC_TYPE, sections).Ok? ==>
                var resolved := Permissions.ResolveAll(old(permissions), codes);
                && r == Ok(SessionId(uid, 0))
                && permissions == resolved.1
                && sessions == old(sessions)[uid := SessionRecord(ownerType, ownerId, resolved.0)]
                && snapshots == old(snapshots)[SessionId(uid, 0) :=
                     SnapshotRecord(DEFAULT_CODEC_TYPE, Codecs.Serialize(codecs, DEFAULT_CODEC_TYPE, sections).value)]
                && Get(SessionId(uid, 0)) == Ok(Session(SessionId(uid, 0), ownerType, ownerId, sections, Permissions.Codes(resolved.0)))
      ensures r.Ok? ==> forall id :: id in old(snapshots) ==> Get(id) == old(Get(id))
    {
      var snapshotCodec :- Codecs.GetSnapshotCodec(codecs, DEFAULT_CODEC_TYPE);
      var snapshot :- snapshotCodec.serialize(sections);
      Codecs.RoundTrip(codecs, DEFAULT_CODEC_TYPE, sections);

      var permissionsEntities := ResolvePermissions(codes);

      var session := SessionRecord(ownerType, ownerId, permissionsEntities);
      sessions := sessions[uid := session];
      ghost var before := snapshots;
      snapshots := snapshots[SessionId(uid, 0) := SnapshotRecord(DEFAULT_CODEC_TYPE, snapshot)];
      assert VersionsDownwardClosed(snapshots) by {
        forall id | id in snapshots && id.version > 0
          ensures SessionId(id.uid, id.version - 1) in snapshots
        {
          assert id in before;
        }
      }
      r := Ok(SessionId(uid, 0));
      assert BuildLocalSession(SessionId(uid, 0), snapshots[SessionId(uid, 0)]).Ok?;
      forall id | id in old(snapshots)
        ensures Get(id) == old(Get(id))
      {
        assert id.uid != uid;
      }
    }

    /** update: read and decode the base snapshot at the caller's
        (uid, version), run the batch on a copy of its attributes, encode
        the result with the default codec and save it at version + 1. */
    method Update(id: SessionId, actions: seq<Action>) returns (r: Result<SessionId>)
      requires Valid()
      modifies this
      ensures Valid()
      ensures sessions == old(sessions) && permissions == old(permissions)
      ensures r.Err? ==> snapshots == old(snapshots)
      ensures old(AttributesAt(id)).Err? ==> r == Err(old(AttributesAt(id)).error)
      ensures old(AttributesAt(id)).Ok? && Mutate(revision, old(AttributesAt(id)).value, actions).Err?
              ==> r == Err(Mutate(revision, old(AttributesAt(id)).value, actions).error)
      ensures old(AttributesAt(id)).Ok? && Mutate(revision, old(AttributesAt(id)).value, actions).Ok?
              && Codecs.Serialize(codecs, DEFAULT_CODEC_TYPE, Mutate(revision, old(AttributesAt(id)).value, actions).value).Err?
              ==> r == Err(Codecs.Serialize(codecs, DEFAULT_CODEC_TYPE, Mutate(revision, old(AttributesAt(id)).value, actions).value).error)
      ensures r.Ok? <==>
                && old(AttributesAt(id)).Ok?
                && Mutate(revision, old(AttributesAt(id)).value, actions).Ok?
                && Codecs.Serialize(codecs, DEFAULT_CODEC_TYPE, Mutate(revision, old(AttributesAt(id)).value, actions).value).Ok?
      ensures r.Ok? ==>
                var after := Mutate(revision, old(AttributesAt(id)).value, actions).value;
                && r.value == SessionId(id.uid, id.version + 1)
                && snapshots == old(snapshots)[r.value :=
                     SnapshotRecord(DEFAULT_CODEC_TYPE, Codecs.Serialize(codecs, DEFAULT_CODEC_TYPE, after).value)]
                && AttributesAt(r.value) == Ok(after)
                && Get(id) == old(Get(id))
                && Get(r.value).Ok?
                && Get(r.value).value.ownerType == old(Get(id)).value.ownerType
                && Get(r.value).value.ownerId == old(Get(id)).value.ownerId
                && Get(r.value).value.permissions == old(Get(id)).value.permissions
    {
      var sessionEntity :- FindSnapshot(id);
      var session :- BuildLocalSession(id, sessionEntity);

      var updated: Result<Attrs>;
      match revision {
        case Embedded =>
          updated := Mutator.UpdateAttributes(actions, session.attributes);
        case EmbeddedInline =>
          updated := InlineMutator.UpdateAttributes(actions, session.attributes);
        case Local =>
          updated := LocalMutator.UpdateAttributes(actions, session.attributes);
      }
      var attributes :- updated;

      var snapshotCodec :- Codecs.GetSnapshotCodec(codecs, DEFAULT_CODEC_TYPE);
      var snapshot :- snapshotCodec.serialize(attributes);
      Codecs.RoundTrip(codecs, DEFAULT_CODEC_TYPE, attributes);

      var newVersion := id.version + 1;
      var newSnapshotId := SessionId(id.uid, newVersion);
      ghost var before := snapshots;
      ghost var baseView := Get(id);
      snapshots := snapshots[newSnapshotId := SnapshotRecord(DEFAULT_CODEC_TYPE, snapshot)];
      assert VersionsDownwardClosed(snapshots) by {
        forall s | s in snapshots && s.version > 0
          ensures SessionId(s.uid, s.version - 1) in snapshots
        {
          if s != newSnapshotId {
            assert s in before;
          }
        }
      }
      assert snapshots[id] == before[id];
      assert Get(id) == baseView;
      r := Ok(newSnapshotId);
    }
  }
}
