/** Key records and the metadata they carry. */
module Records {
  import opened Prelude

  /** A metadata value: arrays of strings are lists, any other array or object is kept as text. */
  datatype Json = Null | Bool(b: bool) | Num(n: int) | Str(s: string) | List(items: seq<string>) | Other(text: string)

  type Metadata = map<string, Json>

  datatype Record = Record(
    id: string, userId: Option<string>, prefix: string, keyHash: string, createdAt: int, expiresAt: Option<int>,
    metadata: Option<Metadata>, usesRemaining: Option<int>, revokedAt: Option<int>)

  /** JavaScript's truth test on an optional number: absent and 0 are both false. */
  predicate Truthy(n: Option<int>) {
    n.Some? && n.value != 0
  }

  /** What verification takes for expired; the sweep tests for presence only. */
  predicate ExpiredAt(r: Record, now: int) {
    Truthy(r.expiresAt) && r.expiresAt.value <= now
  }

  predicate DueBy(r: Record, olderThan: int) {
    r.expiresAt.Some? && r.expiresAt.value <= olderThan
  }
}
