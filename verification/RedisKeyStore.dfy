/**
 The Redis key store: a hash of strings per record and a string from key hash to id, in one
 keyspace; and its agreement with the in-memory store.
 */
module RedisKeyStore {
  import opened Prelude
  import opened Decimal
  import opened Records
  import opened MemoryKeyStore

  type Fields = map<string, string>

  datatype Value = Hash(fields: Fields) | Text(s: string)

  type Db = map<string, Value>

  /** JSON.stringify and JSON.parse on metadata. */
  datatype Codec = Codec(stringify: Metadata -> string, parse: string -> Option<Metadata>)

  predicate Exact(codec: Codec, m: Metadata) {
    codec.stringify(m) != "" && codec.parse(codec.stringify(m)) == Some(m)
  }

  function RecordKey(prefix: string, id: string): string {
    prefix + (":key:" + id)
  }

  function HashToIdKey(prefix: string, keyHash: string): string {
    prefix + (":khash:" + keyHash)
  }

  function PrintOption(n: Option<int>): string {
    match n case Some(v) => PrintInt(v) case None => ""
  }

  function Encode(r: Record, codec: Codec): Fields {
    map[
      "id" := r.id,
      "userId" := Or(r.userId, ""),
      "prefix" := r.prefix,
      "keyHash" := r.keyHash,
      "createdAt" := PrintInt(r.createdAt),
      "expiresAt" := PrintOption(r.expiresAt),
      "metadata" := (match r.metadata case Some(m) => codec.stringify(m) case None => ""),
      "usesRemaining" := PrintOption(r.usesRemaining),
      "revokedAt" := PrintOption(r.revokedAt)]
  }

  /** A missing field reads as `undefined`. */
  function Field(raw: Fields, name: string): string {
    Or(Get(raw, name), "undefined")
  }

  function ReadOption(raw: Fields, name: string): Option<int> {
    if Field(raw, name) == "" then None else ReadInt(Field(raw, name))
  }

  function Deserialize(raw: Fields, codec: Codec): Record {
    var user := Or(Get(raw, "userId"), "");
    var meta := Or(Get(raw, "metadata"), "");
    Record(Field(raw, "id"), if user == "" then None else Some(user), Field(raw, "prefix"), Field(raw, "keyHash"),
           Or(ReadInt(Field(raw, "createdAt")), 0), ReadOption(raw, "expiresAt"),
           if meta == "" then None else codec.parse(meta),
           ReadOption(raw, "usesRemaining"), ReadOption(raw, "revokedAt"))
  }

  lemma OptionRoundTrip(raw: Fields, name: string, n: Option<int>)
    requires Get(raw, name) == Some(PrintOption(n))
    ensures ReadOption(raw, name) == n
  {
    if n.Some? { ReadPrintedInt(n.value); }
  }

  /** Decoding undoes encoding if and only if the user id is not the empty string. */
  lemma DecodesWhatItEncoded(r: Record, codec: Codec)
    requires r.metadata.Some? ==> Exact(codec, r.metadata.value)
    ensures Deserialize(Encode(r, codec), codec) == r <==> r.userId != Some("")
  {
    var raw := Encode(r, codec);
    ReadPrintedInt(r.createdAt);
    OptionRoundTrip(raw, "expiresAt", r.expiresAt);
    OptionRoundTrip(raw, "usesRemaining", r.usesRemaining);
    OptionRoundTrip(raw, "revokedAt", r.revokedAt);
  }

  // ----- Operations -----

  function HSet(db: Db, k: string, fields: Fields): Db {
    db[k := Hash((if k in db && db[k].Hash? then db[k].fields else map[]) + fields)]
  }

  /** `createKey` and `updateKey` alike. */
  function PutRecord(db: Db, r: Record, prefix: string, codec: Codec): Db {
    HSet(db, RecordKey(prefix, r.id), Encode(r, codec))[HashToIdKey(prefix, r.keyHash) := Text(r.id)]
  }

  function RevokeRecord(db: Db, id: string, now: int, prefix: string): Db {
    HSet(db, RecordKey(prefix, id), map["revokedAt" := PrintInt(now)])
  }

  function RemoveRecord(db: Db, id: string, prefix: string): Db {
    var k := RecordKey(prefix, id);
    var keyHash := if k in db && db[k].Hash? then Or(Get(db[k].fields, "keyHash"), "") else "";
    (if keyHash == "" then db else db - {HashToIdKey(prefix, keyHash)}) - {k}
  }

  function FindById(db: Db, id: string, prefix: string, codec: Codec): Option<Record> {
    var stored: Option<Value> := Get(db, RecordKey(prefix, id));
    match stored
    case Some(Hash(fields)) => if fields == map[] then None else Some(Deserialize(fields, codec))
    case _ => None
  }

  function FindByHash(db: Db, keyHash: string, prefix: string, codec: Codec): Option<Record> {
    var stored: Option<Value> := Get(db, HashToIdKey(prefix, keyHash));
    match stored
    case Some(Text(id)) => if id == "" then None else FindById(db, id, prefix, codec)
    case _ => None
  }

  class RedisKeyStore {
    const prefix: string
    const codec: Codec
    var db: Db

    constructor (keyPrefix: Option<string>, codec: Codec)
      ensures prefix == Or(keyPrefix, "usefulkey") && this.codec == codec && db == map[]
    {
      prefix, this.codec, db := Or(keyPrefix, "usefulkey"), codec, map[];
    }

    method UpdateKey(record: Record)
      modifies this
      ensures db == PutRecord(old(db), record, prefix, codec)
    {
      db := HSet(db, RecordKey(prefix, record.id), Encode(record, codec));
      db := db[HashToIdKey(prefix, record.keyHash) := Text(record.id)];
    }

    method FindKeyByHash(keyHash: string) returns (r: Option<Record>)
      ensures r == FindByHash(db, keyHash, prefix, codec)
    {
      var stored := Get(db, HashToIdKey(prefix, keyHash));
      if stored.None? || stored.value.Hash? || stored.value.s == "" {
        return None;
      }
      r := FindKeyById(stored.value.s);
    }

    method FindKeyById(id: string) returns (r: Option<Record>)
      ensures r == FindById(db, id, prefix, codec)
    {
      var stored := Get(db, RecordKey(prefix, id));
      if stored.None? || stored.value.Text? || stored.value.fields == map[] {
        return None;
      }
      return Some(Deserialize(stored.value.fields, codec));
    }

    method RevokeKeyById(id: string, now: int)
      modifies this
      ensures db == RevokeRecord(old(db), id, now, prefix)
    {
      db := HSet(db, RecordKey(prefix, id), map["revokedAt" := PrintInt(now)]);
    }

    method HardRemoveKeyById(id: string)
      modifies this
      ensures db == RemoveRecord(old(db), id, prefix)
    {
      var k := RecordKey(prefix, id);
      var keyHash := if k in db && db[k].Hash? then Or(Get(db[k].fields, "keyHash"), "") else "";
      if keyHash != "" {
        db := db - {HashToIdKey(prefix, keyHash)};
      }
      db := db - {k};
    }
  }

  // ----- Agreement with the in-memory store -----

  /** Records whose texts Redis keeps apart from absence: no empty id, hash or user id, metadata JSON can carry. */
  predicate Storable(r: Record, codec: Codec) {
    r.id != "" && r.keyHash != "" && r.userId != Some("") && (r.metadata.Some? ==> Exact(codec, r.metadata.value))
  }

  function StoredRecord(m: KeyMaps, id: string, codec: Codec): Option<Value> {
    if id in m.byId then Some(Hash(Encode(m.byId[id], codec))) else None
  }

  function StoredId(m: KeyMaps, h: string): Option<Value> {
    if h in m.byHash then Some(Text(m.byHash[h].id)) else None
  }

  ghost predicate Represents(db: Db, m: KeyMaps, prefix: string, codec: Codec) {
    && (forall id: string :: Get(db, RecordKey(prefix, id)) == StoredRecord(m, id, codec))
    && (forall h: string :: Get(db, HashToIdKey(prefix, h)) == StoredId(m, h))
  }

  ghost predicate AllStorable(m: KeyMaps, codec: Codec) {
    forall id | id in m.byId :: Storable(m.byId[id], codec)
  }

  lemma KeysAreDistinct(prefix: string, a: string, b: string)
    ensures RecordKey(prefix, a) != HashToIdKey(prefix, b)
    ensures RecordKey(prefix, a) == RecordKey(prefix, b) <==> a == b
    ensures HashToIdKey(prefix, a) == HashToIdKey(prefix, b) <==> a == b
  {
    var n := |prefix|;
    assert RecordKey(prefix, a)[n + 2] == 'e' && HashToIdKey(prefix, b)[n + 2] == 'h';
    assert RecordKey(prefix, a)[n + 5..] == a && RecordKey(prefix, b)[n + 5..] == b;
    assert HashToIdKey(prefix, a)[n + 7..] == a && HashToIdKey(prefix, b)[n + 7..] == b;
  }

  /** Under another prefix the same id and the same hash have other keys. */
  lemma PrefixMatters(p: string, q: string, a: string)
    ensures RecordKey(p, a) == RecordKey(q, a) <==> p == q
    ensures HashToIdKey(p, a) == HashToIdKey(q, a) <==> p == q
  {
    assert RecordKey(p, a)[..|p|] == p && RecordKey(q, a)[..|q|] == q;
    assert HashToIdKey(p, a)[..|p|] == p && HashToIdKey(q, a)[..|q|] == q;
    assert |RecordKey(p, a)| == |p| + 5 + |a| && |RecordKey(q, a)| == |q| + 5 + |a|;
    assert |HashToIdKey(p, a)| == |p| + 7 + |a| && |HashToIdKey(q, a)| == |q| + 7 + |a|;
  }

  /** Both stores answer every lookup alike. */
  lemma LookupsAgree(db: Db, m: KeyMaps, prefix: string, codec: Codec, id: string, h: string)
    requires Represents(db, m, prefix, codec) && Inverse(m) && AllStorable(m, codec)
    ensures FindById(db, id, prefix, codec) == Get(m.byId, id)
    ensures FindByHash(db, h, prefix, codec) == Get(m.byHash, h)
  {
    FoundById(db, m, prefix, codec, id);
    assert Get(db, HashToIdKey(prefix, h)) == StoredId(m, h);
    if h in m.byHash {
      FoundById(db, m, prefix, codec, m.byHash[h].id);
    }
  }

  lemma FoundById(db: Db, m: KeyMaps, prefix: string, codec: Codec, id: string)
    requires Represents(db, m, prefix, codec) && AllStorable(m, codec)
    ensures FindById(db, id, prefix, codec) == Get(m.byId, id)
  {
    assert Get(db, RecordKey(prefix, id)) == StoredRecord(m, id, codec);
    if id in m.byId {
      DecodesWhatItEncoded(m.byId[id], codec);
      assert "id" in Encode(m.byId[id], codec);
    }
  }

  lemma EncodeOverwrites(was: Fields, r: Record, codec: Codec)
    requires was.Keys <= Encode(r, codec).Keys
    ensures was + Encode(r, codec) == Encode(r, codec)
  {
  }

  lemma PutRecordEntry(db: Db, m: KeyMaps, r: Record, prefix: string, codec: Codec, id: string)
    requires Get(db, RecordKey(prefix, id)) == StoredRecord(m, id, codec)
    ensures Get(PutRecord(db, r, prefix, codec), RecordKey(prefix, id)) == StoredRecord(Put(m, r), id, codec)
  {
    KeysAreDistinct(prefix, id, r.keyHash);
    KeysAreDistinct(prefix, id, r.id);
    if id == r.id {
      EncodeOverwrites(if id in m.byId then Encode(m.byId[id], codec) else map[], r, codec);
    }
  }

  lemma PutHashEntry(db: Db, m: KeyMaps, r: Record, prefix: string, codec: Codec, h: string)
    requires Get(db, HashToIdKey(prefix, h)) == StoredId(m, h)
    ensures Get(PutRecord(db, r, prefix, codec), HashToIdKey(prefix, h)) == StoredId(Put(m, r), h)
  {
    KeysAreDistinct(prefix, r.id, h);
    KeysAreDistinct(prefix, h, r.keyHash);
  }

  lemma PutAgrees(db: Db, m: KeyMaps, r: Record, prefix: string, codec: Codec)
    requires Represents(db, m, prefix, codec)
    ensures Represents(PutRecord(db, r, prefix, codec), Put(m, r), prefix, codec)
  {
    var after := PutRecord(db, r, prefix, codec);
    forall id: string ensures Get(after, RecordKey(prefix, id)) == StoredRecord(Put(m, r), id, codec) {
      PutRecordEntry(db, m, r, prefix, codec, id);
    }
    forall h: string ensures Get(after, HashToIdKey(prefix, h)) == StoredId(Put(m, r), h) {
      PutHashEntry(db, m, r, prefix, codec, h);
    }
  }

  lemma RevokeEntries(db: Db, m: KeyMaps, id: string, now: int, prefix: string, codec: Codec, other: string, h: string)
    requires Inverse(m) && id in m.byId && Get(db, RecordKey(prefix, id)) == StoredRecord(m, id, codec)
    requires Get(db, RecordKey(prefix, other)) == StoredRecord(m, other, codec)
    requires Get(db, HashToIdKey(prefix, h)) == StoredId(m, h)
    ensures Get(RevokeRecord(db, id, now, prefix), RecordKey(prefix, other))
         == StoredRecord(Revoke(m, id, now), other, codec)
    ensures Get(RevokeRecord(db, id, now, prefix), HashToIdKey(prefix, h)) == StoredId(Revoke(m, id, now), h)
  {
    var r := m.byId[id];
    assert Encode(r, codec) + map["revokedAt" := PrintInt(now)] == Encode(r.(revokedAt := Some(now)), codec);
    KeysAreDistinct(prefix, other, id);
    KeysAreDistinct(prefix, id, h);
  }

  /** Revoking agrees if and only if the id exists: Redis writes a stub for an id it does not know. */
  lemma RevokeAgreesIffKnown(db: Db, m: KeyMaps, id: string, now: int, prefix: string, codec: Codec)
    requires Represents(db, m, prefix, codec) && Inverse(m)
    ensures Represents(RevokeRecord(db, id, now, prefix), Revoke(m, id, now), prefix, codec) <==> id in m.byId
  {
    var after, revoked := RevokeRecord(db, id, now, prefix), Revoke(m, id, now);
    assert Get(db, RecordKey(prefix, id)) == StoredRecord(m, id, codec);
    if id in m.byId {
      forall other: string ensures Get(after, RecordKey(prefix, other)) == StoredRecord(revoked, other, codec) {
        RevokeEntries(db, m, id, now, prefix, codec, other, "");
      }
      forall h: string ensures Get(after, HashToIdKey(prefix, h)) == StoredId(revoked, h) {
        RevokeEntries(db, m, id, now, prefix, codec, id, h);
      }
    } else {
      assert Get(after, RecordKey(prefix, id)) != StoredRecord(revoked, id, codec);
    }
  }

  lemma RemoveAgrees(db: Db, m: KeyMaps, id: string, prefix: string, codec: Codec)
    requires Represents(db, m, prefix, codec) && AllStorable(m, codec)
    ensures Represents(RemoveRecord(db, id, prefix), Remove(m, id), prefix, codec)
  {
    var after, removed := RemoveRecord(db, id, prefix), Remove(m, id);
    assert Get(db, RecordKey(prefix, id)) == StoredRecord(m, id, codec);
    var keyHash := if id in m.byId then m.byId[id].keyHash else "";
    forall other: string ensures Get(after, RecordKey(prefix, other)) == StoredRecord(removed, other, codec) {
      KeysAreDistinct(prefix, other, id);
      KeysAreDistinct(prefix, other, keyHash);
      assert Get(db, RecordKey(prefix, other)) == StoredRecord(m, other, codec);
    }
    forall h: string ensures Get(after, HashToIdKey(prefix, h)) == StoredId(removed, h) {
      KeysAreDistinct(prefix, id, h);
      KeysAreDistinct(prefix, h, keyHash);
      assert Get(db, HashToIdKey(prefix, h)) == StoredId(m, h);
    }
  }

  function RedisPerform(db: Db, call: StoreCall, prefix: string, codec: Codec): Db {
    match call
    case PutKey(r) => PutRecord(db, r, prefix, codec)
    case RevokeById(id, now) => RevokeRecord(db, id, now, prefix)
    case RemoveById(id) => RemoveRecord(db, id, prefix)
  }

  function RedisPerformAll(calls: seq<StoreCall>, prefix: string, codec: Codec): Db {
    if calls == [] then map[]
    else RedisPerform(RedisPerformAll(calls[..|calls| - 1], prefix, codec), calls[|calls| - 1], prefix, codec)
  }

  /** Calls that write storable, paired records and revoke only ids the store holds. */
  ghost predicate Careful(calls: seq<StoreCall>, hashOf: string -> string, idOf: string -> string, codec: Codec) {
    && (forall i :: 0 <= i < |calls| && calls[i].PutKey? ==>
          Paired(calls[i].record, hashOf, idOf) && Storable(calls[i].record, codec))
    && (forall i :: 0 <= i < |calls| && calls[i].RevokeById? ==> calls[i].id in PerformAll(calls[..i]).byId)
  }

  lemma CarefulPrefix(calls: seq<StoreCall>, hashOf: string -> string, idOf: string -> string, codec: Codec, n: nat)
    requires Careful(calls, hashOf, idOf, codec) && n <= |calls|
    ensures Careful(calls[..n], hashOf, idOf, codec)
  {
    forall i | 0 <= i < n && calls[..n][i].RevokeById?
      ensures calls[..n][i].id in PerformAll(calls[..n][..i]).byId
    {
      assert calls[..n][..i] == calls[..i];
    }
  }

  lemma {:induction false} StatesAgree(
      calls: seq<StoreCall>, hashOf: string -> string, idOf: string -> string, prefix: string, codec: Codec)
    requires Careful(calls, hashOf, idOf, codec)
    ensures Represents(RedisPerformAll(calls, prefix, codec), PerformAll(calls), prefix, codec)
    ensures AllStorable(PerformAll(calls), codec) && Inverse(PerformAll(calls))
  {
    IndexesStayInverse(calls, hashOf, idOf);
    if calls != [] {
      var n := |calls| - 1;
      CarefulPrefix(calls, hashOf, idOf, codec, n);
      StatesAgree(calls[..n], hashOf, idOf, prefix, codec);
      var (db, m) := (RedisPerformAll(calls[..n], prefix, codec), PerformAll(calls[..n]));
      match calls[n]
      case PutKey(r) => PutAgrees(db, m, r, prefix, codec);
      case RevokeById(id, now) => RevokeAgreesIffKnown(db, m, id, now, prefix, codec);
      case RemoveById(id) => RemoveAgrees(db, m, id, prefix, codec);
    }
  }

  /** After any careful run, both stores hold the same records under every id and every hash. */
  lemma RedisAgreesWithMemory(
      calls: seq<StoreCall>, hashOf: string -> string, idOf: string -> string, prefix: string, codec: Codec,
      id: string, h: string)
    requires Careful(calls, hashOf, idOf, codec)
    ensures FindById(RedisPerformAll(calls, prefix, codec), id, prefix, codec) == Get(PerformAll(calls).byId, id)
    ensures FindByHash(RedisPerformAll(calls, prefix, codec), h, prefix, codec) == Get(PerformAll(calls).byHash, h)
  {
    StatesAgree(calls, hashOf, idOf, prefix, codec);
    LookupsAgree(RedisPerformAll(calls, prefix, codec), PerformAll(calls), prefix, codec, id, h);
  }
}
