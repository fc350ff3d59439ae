/** The metadata stream and what replaying it means. Records are decoded; position `k` of a stream, counted
    from 1, is `stream[k - 1]`. */
module RecoveryModel {
  import opened Bytes
  import opened Options

  type Key = seq<Byte>

  type Rows = map<Key, seq<Byte>>

  datatype Op = Upsert(row: seq<Byte>) | Delete

  datatype Change = Change(at: nat, key: Key, op: Op)

  /** `Restore` is a record that names a snapshot to go back to; None when that snapshot cannot be
      loaded. A `Write` with transaction id 0 commits by itself. `Malformed` records decode but name an
      unknown type or a bad key; `Garbage` does not decode. */
  datatype Record =
    | Header(version: nat)
    | Framework
    | Restore(snapshot: Option<Rows>)
    | Commit(tx: nat)
    | Write(tx: nat, key: Key, op: Op)
    | Malformed
    | Garbage

  const FORMAT_VERSION: nat := 1

  type Pending = map<nat, seq<Change>>

  function Applied(rows: Rows, c: Change): Rows {
    match c.op
    case Upsert(row) => rows[c.key := row]
    case Delete => rows - {c.key}
  }

  function ApplyBatch(rows: Rows, changes: seq<Change>): Rows {
    if changes == [] then rows else Applied(ApplyBatch(rows, changes[..|changes| - 1]), changes[|changes| - 1])
  }

  // ----- one record -----

  function Held(pending: Pending, tx: nat): seq<Change> {
    if tx in pending then pending[tx] else []
  }

  /** The changes a record commits. */
  function Committed(pending: Pending, at: nat, rec: Record): seq<Change> {
    match rec
    case Commit(tx) => Held(pending, tx)
    case Write(tx, key, op) => if tx == 0 then [Change(at, key, op)] else []
    case _ => []
  }

  function NextPending(pending: Pending, at: nat, rec: Record): Pending {
    match rec
    case Commit(tx) => pending - {tx}
    case Write(tx, key, op) => if tx == 0 then pending else pending[tx := Held(pending, tx) + [Change(at, key, op)]]
    case _ => pending
  }

  /** What a record does to the rows: a restore puts a whole snapshot in place, the others apply changes. */
  datatype Effect = Replace(rows: Rows) | Apply(changes: seq<Change>)

  function EffectOf(pending: Pending, at: nat, rec: Record): Effect {
    if rec.Restore? then Replace(if rec.snapshot.Some? then rec.snapshot.value else map[])
    else Apply(Committed(pending, at, rec))
  }

  function Perform(rows: Rows, e: Effect): Rows {
    match e
    case Replace(to) => to
    case Apply(changes) => ApplyBatch(rows, changes)
  }

  // ----- a replay -----

  datatype Replay = Replay(rows: Rows, pending: Pending)

  /** A restore also forgets the transactions open at that point. */
  function Step(s: Replay, at: nat, rec: Record): Replay {
    Replay(Perform(s.rows, EffectOf(s.pending, at, rec)), if rec.Restore? then map[]
        else NextPending(s.pending, at, rec))
  }

  function Run(s: Replay, stream: seq<Record>, from: nat, to: nat): Replay
    requires from <= to <= |stream|
  {
    if from == to then s else Step(Run(s, stream, from, to - 1), to, stream[to - 1])
  }

  /** The effect of position `k` in a replay that starts after `from`. */
  function EffectAt(s: Replay, stream: seq<Record>, from: nat, k: nat): Effect
    requires from < k <= |stream|
  {
    EffectOf(Run(s, stream, from, k - 1).pending, k, stream[k - 1])
  }

  function Rec(stream: seq<Record>, k: nat): Record
    requires 1 <= k <= |stream|
  {
    stream[k - 1]
  }

  // ----- transactions that straddle a position -----

  /** Position `i` ends whatever transaction `tx` has written so far. */
  predicate Closes(stream: seq<Record>, i: nat, tx: nat)
    requires 1 <= i <= |stream|
  {
    Rec(stream, i).Restore? || Rec(stream, i) == Commit(tx)
  }

  /** Transaction `tx` wrote something at or before `p` that is still open at `k`. */
  ghost predicate OpenSince(stream: seq<Record>, p: nat, k: nat, tx: nat)
    requires p <= k <= |stream|
  {
    exists j: nat :: OpenFrom(stream, p, k, tx, j)
  }

  ghost predicate OpenFrom(stream: seq<Record>, p: nat, k: nat, tx: nat, j: nat)
    requires p <= k <= |stream|
  {
    && 1 <= j <= p && Rec(stream, j).Write? && Rec(stream, j).tx == tx && tx != 0
    && forall i | j < i <= k :: !Closes(stream, i, tx)
  }

  /** Position `k` commits a transaction that began at or before `p`. */
  ghost predicate Straddles(stream: seq<Record>, p: nat, k: nat)
    requires p < k <= |stream|
  {
    Rec(stream, k).Commit? && OpenSince(stream, p, k - 1, Rec(stream, k).tx)
  }
}
