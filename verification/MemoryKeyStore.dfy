/** The in-memory key store: two maps, by hash and by id, that share their record objects. */
module MemoryKeyStore {
  import opened Prelude
  import opened Records

  /** The two maps, on record values. */
  datatype KeyMaps = KeyMaps(byHash: map<string, Record>, byId: map<string, Record>)

  const EMPTY := KeyMaps(map[], map[])

  /** `createKey` and `updateKey` alike. */
  function Put(m: KeyMaps, r: Record): KeyMaps {
    KeyMaps(m.byHash[r.keyHash := r], m.byId[r.id := r])
  }

  function Revoke(m: KeyMaps, id: string, now: int): KeyMaps {
    if id !in m.byId then m
    else
      var r := m.byId[id].(revokedAt := Some(now));
      KeyMaps(m.byHash[r.keyHash := r], m.byId[id := r])
  }

  function Remove(m: KeyMaps, id: string): KeyMaps {
    if id !in m.byId then m
    else KeyMaps(m.byHash - {m.byId[id].keyHash}, m.byId - {id})
  }

  /** The two maps index the same records, each under its own id and hash. */
  ghost predicate Inverse(m: KeyMaps) {
    && (forall id | id in m.byId ::
          m.byId[id].id == id && Get(m.byHash, m.byId[id].keyHash) == Some(m.byId[id]))
    && (forall h | h in m.byHash ::
          m.byHash[h].keyHash == h && Get(m.byId, m.byHash[h].id) == Some(m.byHash[h]))
  }

  /** Writing this record neither changes an id's hash nor takes another id's hash. */
  predicate Fits(m: KeyMaps, r: Record) {
    && (r.id in m.byId ==> m.byId[r.id].keyHash == r.keyHash)
    && (r.keyHash in m.byHash ==> m.byHash[r.keyHash].id == r.id)
  }

  /** A write keeps the indexes inverse if and only if the record fits. */
  lemma PutKeepsInverse(m: KeyMaps, r: Record)
    requires Inverse(m)
    ensures Inverse(Put(m, r)) <==> Fits(m, r)
  {
    var n := Put(m, r);
    if r.id in m.byId && m.byId[r.id].keyHash != r.keyHash {
      var stale := m.byId[r.id].keyHash;
      assert stale in n.byHash && n.byHash[stale].id == r.id && n.byId[r.id] == r;
    } else if r.keyHash in m.byHash && m.byHash[r.keyHash].id != r.id {
      var robbed := m.byHash[r.keyHash].id;
      assert robbed in n.byId && n.byId[robbed].keyHash == r.keyHash && n.byHash[r.keyHash] == r;
    }
  }

  lemma RevokeAndRemoveKeepInverse(m: KeyMaps, id: string, now: int)
    requires Inverse(m)
    ensures Inverse(Revoke(m, id, now)) && Inverse(Remove(m, id))
  {
  }

  // ----- Every interleaving of store calls -----

  datatype StoreCall = PutKey(record: Record) | RevokeById(id: string, now: int) | RemoveById(id: string)

  function Perform(m: KeyMaps, call: StoreCall): KeyMaps {
    match call
    case PutKey(r) => Put(m, r)
    case RevokeById(id, now) => Revoke(m, id, now)
    case RemoveById(id) => Remove(m, id)
  }

  function PerformAll(calls: seq<StoreCall>): KeyMaps {
    if calls == [] then EMPTY
    else Perform(PerformAll(calls[..|calls| - 1]), calls[|calls| - 1])
  }

  /** Ids and hashes are paired one to one, for good. */
  predicate Paired(r: Record, hashOf: string -> string, idOf: string -> string) {
    hashOf(r.id) == r.keyHash && idOf(r.keyHash) == r.id
  }

  /**
   Whatever the order of the calls, including writes of records that were removed meanwhile,
   the two indexes stay inverse, provided ids and hashes are never reused.
   */
  lemma {:induction false} IndexesStayInverse(calls: seq<StoreCall>, hashOf: string -> string, idOf: string -> string)
    requires forall i :: 0 <= i < |calls| && calls[i].PutKey? ==> Paired(calls[i].record, hashOf, idOf)
    ensures Inverse(PerformAll(calls))
    ensures forall id | id in PerformAll(calls).byId :: Paired(PerformAll(calls).byId[id], hashOf, idOf)
  {
    if calls != [] {
      var n := |calls| - 1;
      IndexesStayInverse(calls[..n], hashOf, idOf);
      var m := PerformAll(calls[..n]);
      match calls[n]
      case PutKey(r) =>
        assert r.keyHash in m.byHash ==> Paired(m.byId[m.byHash[r.keyHash].id], hashOf, idOf);
        PutKeepsInverse(m, r);
      case RevokeById(id, now) => RevokeAndRemoveKeepInverse(m, id, now);
      case RemoveById(id) => RevokeAndRemoveKeepInverse(m, id, 0);
    }
  }

  // ----- The store itself -----

  /** A stored record object; only its revocation time is ever assigned in place. */
  class KeyRecord {
    const fields: Record
    var revokedAt: Option<int>

    constructor (r: Record)
      ensures fields == r && Value() == r
    {
      fields, revokedAt := r, r.revokedAt;
    }

    function Value(): Record
      reads this
    {
      fields.(revokedAt := revokedAt)
    }
  }

  /** Both maps hold the very same objects, each under its own id and hash. */
  ghost predicate SameObjects(byHash: map<string, KeyRecord>, byId: map<string, KeyRecord>) {
    && (forall id | id in byId ::
          byId[id].fields.id == id && Get(byHash, byId[id].fields.keyHash) == Some(byId[id]))
    && (forall h | h in byHash ::
          byHash[h].fields.keyHash == h && Get(byId, byHash[h].fields.id) == Some(byHash[h]))
  }

  lemma StoringKeepsSameObjects(byHash: map<string, KeyRecord>, byId: map<string, KeyRecord>, record: KeyRecord)
    requires SameObjects(byHash, byId)
    requires record.fields.id in byId ==> byId[record.fields.id].fields.keyHash == record.fields.keyHash
    requires record.fields.keyHash in byHash ==> byHash[record.fields.keyHash].fields.id == record.fields.id
    ensures SameObjects(byHash[record.fields.keyHash := record], byId[record.fields.id := record])
  {
  }

  lemma RemovingKeepsSameObjects(byHash: map<string, KeyRecord>, byId: map<string, KeyRecord>, id: string)
    requires SameObjects(byHash, byId) && id in byId
    ensures SameObjects(byHash - {byId[id].fields.keyHash}, byId - {id})
  {
  }

  /** The two maps of record objects. Revocation assigns inside an object and leaves the maps alone. */
  datatype ObjectMaps = ObjectMaps(byHash: map<string, KeyRecord>, byId: map<string, KeyRecord>)

  datatype ObjectCall = StoreObject(record: KeyRecord) | RevokeObject(id: string) | RemoveObject(id: string)

  function PerformOnObjects(m: ObjectMaps, call: ObjectCall): ObjectMaps {
    match call
    case StoreObject(r) => ObjectMaps(m.byHash[r.fields.keyHash := r], m.byId[r.fields.id := r])
    case RevokeObject(id) =>
      if id !in m.byId then m
      else ObjectMaps(m.byHash[m.byId[id].fields.keyHash := m.byId[id]], m.byId[id := m.byId[id]])
    case RemoveObject(id) =>
      if id !in m.byId then m else ObjectMaps(m.byHash - {m.byId[id].fields.keyHash}, m.byId - {id})
  }

  function PerformAllOnObjects(calls: seq<ObjectCall>): ObjectMaps {
    if calls == [] then ObjectMaps(map[], map[])
    else PerformOnObjects(PerformAllOnObjects(calls[..|calls| - 1]), calls[|calls| - 1])
  }

  /**
   In every order of store calls, stale writes included, the two maps hold the very same objects,
   so that a revocation assigned through one is seen through the other.
   */
  lemma {:induction false} ObjectsStayShared(
      calls: seq<ObjectCall>, hashOf: string -> string, idOf: string -> string)
    requires forall i :: 0 <= i < |calls| && calls[i].StoreObject? ==>
      Paired(calls[i].record.fields, hashOf, idOf)
    ensures var m := PerformAllOnObjects(calls);
      SameObjects(m.byHash, m.byId) && forall id | id in m.byId :: Paired(m.byId[id].fields, hashOf, idOf)
  {
    if calls != [] {
      var n := |calls| - 1;
      ObjectsStayShared(calls[..n], hashOf, idOf);
      var m := PerformAllOnObjects(calls[..n]);
      match calls[n]
      case StoreObject(r) => StoringKeepsSameObjects(m.byHash, m.byId, r);
      case RevokeObject(id) =>
      case RemoveObject(id) => if id in m.byId { RemovingKeepsSameObjects(m.byHash, m.byId, id); }
    }
  }

  class MemoryKeyStore {
    var keyHashToRecord: map<string, KeyRecord>
    var idToRecord: map<string, KeyRecord>
    ghost var view: KeyMaps

    /** `view` is what the two maps hold, each object under its own id and hash. */
    ghost predicate Valid()
      reads this, idToRecord.Values, keyHashToRecord.Values
    {
      && idToRecord.Keys == view.byId.Keys
      && keyHashToRecord.Keys == view.byHash.Keys
      && (forall id | id in idToRecord ::
            idToRecord[id].fields.id == id && idToRecord[id].Value() == view.byId[id])
      && (forall h | h in keyHashToRecord ::
            keyHashToRecord[h].fields.keyHash == h && keyHashToRecord[h].Value() == view.byHash[h])
    }

    constructor ()
      ensures Valid() && view == EMPTY && SameObjects(keyHashToRecord, idToRecord)
    {
      keyHashToRecord, idToRecord, view := map[], map[], EMPTY;
    }

    method CreateKey(record: KeyRecord)
      requires Valid()
      modifies this
      ensures Valid() && view == Put(old(view), record.Value())
      ensures keyHashToRecord == old(keyHashToRecord)[record.fields.keyHash := record]
      ensures idToRecord == old(idToRecord)[record.fields.id := record]
    {
      UpdateKey(record);
    }

    method FindKeyByHash(keyHash: string) returns (r: KeyRecord?)
      requires Valid()
      ensures Get(view.byHash, keyHash) == if r == null then None else Some(r.Value())
      ensures r != null ==> r in keyHashToRecord.Values
    {
      r := if keyHash in keyHashToRecord then keyHashToRecord[keyHash] else null;
    }

    method FindKeyById(id: string) returns (r: KeyRecord?)
      requires Valid()
      ensures Get(view.byId, id) == if r == null then None else Some(r.Value())
      ensures r != null ==> r in idToRecord.Values
    {
      r := if id in idToRecord then idToRecord[id] else null;
    }

    method UpdateKey(record: KeyRecord)
      requires Valid()
      modifies this
      ensures Valid() && view == Put(old(view), record.Value())
      ensures keyHashToRecord == old(keyHashToRecord)[record.fields.keyHash := record]
      ensures idToRecord == old(idToRecord)[record.fields.id := record]
    {
      keyHashToRecord := keyHashToRecord[record.fields.keyHash := record];
      idToRecord := idToRecord[record.fields.id := record];
      view := Put(view, record.Value());
    }

    method RevokeKeyById(id: string, now: int)
      requires Valid()
      modifies this, if id in idToRecord then {idToRecord[id]} else {}
      ensures Valid() && view == Revoke(old(view), id, now)
      ensures idToRecord == old(idToRecord)
      ensures keyHashToRecord == if id in old(idToRecord)
        then old(keyHashToRecord)[old(idToRecord)[id].fields.keyHash := old(idToRecord)[id]] else old(keyHashToRecord)
    {
      if id in idToRecord {
        var record := idToRecord[id];
        var hash := record.fields.keyHash;
        view := Revoke(view, id, now);
        record.revokedAt := Some(now);
        idToRecord := idToRecord[id := record];
        keyHashToRecord := keyHashToRecord[hash := record];
        assert idToRecord == old(idToRecord);
        assert record.Value() == view.byId[id];
        forall other | other in idToRecord
          ensures idToRecord[other].fields.id == other && idToRecord[other].Value() == view.byId[other]
        {
          if other != id { assert old(idToRecord[other].Value() == view.byId[other]); }
        }
        forall h | h in keyHashToRecord
          ensures keyHashToRecord[h].fields.keyHash == h && keyHashToRecord[h].Value() == view.byHash[h]
        {
          if h != hash { assert old(keyHashToRecord[h].Value() == view.byHash[h]); }
        }
      }
    }

    method HardRemoveKeyById(id: string)
      requires Valid()
      modifies this
      ensures Valid() && view == Remove(old(view), id)
      ensures idToRecord == old(idToRecord) - {id}
      ensures keyHashToRecord == if id in old(idToRecord)
        then old(keyHashToRecord) - {old(idToRecord)[id].fields.keyHash} else old(keyHashToRecord)
    {
      if id in idToRecord {
        var record := idToRecord[id];
        idToRecord := idToRecord - {id};
        keyHashToRecord := keyHashToRecord - {record.fields.keyHash};
        view := Remove(view, id);
      }
    }

    /** Up to `limit` ids due by `olderThan`, met in an order the map does not fix. */
    method FindExpiredIds(olderThan: int, limit: int) returns (out: seq<string>)
      requires Valid()
      ensures forall i :: 0 <= i < |out| ==> out[i] in view.byId && DueBy(view.byId[out[i]], olderThan)
      ensures forall i, j :: 0 <= i < j < |out| ==> out[i] != out[j]
      ensures |out| <= Max(1, limit)
      ensures |out| < Max(1, limit) ==>
        forall id | id in view.byId && DueBy(view.byId[id], olderThan) :: id in out
    {
      out := [];
      var rest := idToRecord.Keys;
      while rest != {}
        invariant rest <= idToRecord.Keys
        invariant forall i :: 0 <= i < |out| ==>
          out[i] in view.byId && out[i] !in rest && DueBy(view.byId[out[i]], olderThan)
        invariant forall i, j :: 0 <= i < j < |out| ==> out[i] != out[j]
        invariant |out| < Max(1, limit)
        invariant forall id | id in view.byId && id !in rest && DueBy(view.byId[id], olderThan) :: id in out
      {
        var id :| id in rest;
        rest := rest - {id};
        var r := idToRecord[id];
        assert r.Value() == view.byId[id];
        if r.fields.expiresAt.Some? && r.fields.expiresAt.value <= olderThan {
          out := out + [r.fields.id];
          if |out| >= limit { break; }
        }
      }
    }
  }
}
