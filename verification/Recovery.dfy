/** Crash recovery as the controller runs it: a reader that groups transactions, fed from a snapshot's
    position by the stream's tail and then by locally recovered records. */
module Recovery {
  import opened RecoveryModel
  import opened RecoveryProofs
  import opened Options
  import Sums

  datatype Error = Undecodable | MissingHeader | UnsupportedVersion | BadOp | SnapshotLost | Gap(expected: nat,
      got: nat) | Short(reached: nat)

  datatype Result<+T> = Ok(value: T) | Err(error: Error)

  /** Why a reader refuses a record, if it does. Only a stream's own first record has to be a header. */
  function FeedError(begun: bool, unversioned: bool, at: nat, rec: Record): Option<Error> {
    if rec.Garbage? then Some(Undecodable)
    else if !begun && at == 1 && !rec.Header? && !unversioned then Some(MissingHeader)
    else if rec.Header? && rec.version > FORMAT_VERSION then Some(UnsupportedVersion)
    else if rec.Malformed? then Some(BadOp)
    else None
  }

  class ChangeReader {
    var pending: Pending
    var safe: nat
    var firstRecordSeen: bool
    var headerSeen: bool
    var version: Option<nat>
    const unversioned: bool

    constructor (unversioned: bool)
      ensures pending == map[] && safe == 0 && !firstRecordSeen && this.unversioned == unversioned
    {
      this.unversioned := unversioned;
      pending, safe, firstRecordSeen, headerSeen, version := map[], 0, false, false, None;
    }

    /** Take one record: hold a transaction's writes until its commit, hand out what is committed, and move
        the safe position whenever nothing is left pending. */
    method Feed(at: nat, rec: Record) returns (r: Result<seq<Change>>)
      modifies this
      ensures var e := FeedError(old(firstRecordSeen), unversioned, at, rec);
              r == if e.Some? then Err(e.value) else Ok(Committed(old(pending), at, rec))
      ensures pending == if r.Ok? then NextPending(old(pending), at, rec) else old(pending)
      ensures safe == if r.Ok? && pending == map[] then at else old(safe)
      ensures firstRecordSeen == (old(firstRecordSeen) || !rec.Garbage?)
    {
      if rec.Garbage? {
        return Err(Undecodable);
      }
      if !firstRecordSeen {
        firstRecordSeen := true;
        if at == 1 {
          if rec.Header? {
            headerSeen := true;
          } else if !unversioned {
            return Err(MissingHeader);
          }
        }
      }
      var changes := [];
      match rec {
        case Header(v) =>
          if v > FORMAT_VERSION {
            return Err(UnsupportedVersion);
          }
          version := Some(v);
        case Malformed => return Err(BadOp);
        case Commit(tx) =>
          changes := if tx in pending then pending[tx] else [];
          pending := pending - {tx};
        case Write(tx, key, op) =>
          var c := Change(at, key, op);
          if tx == 0 {
            changes := [c];
          } else {
            pending := pending[tx := (if tx in pending then pending[tx] else []) + [c]];
            HeldNow(pending, tx);
            return Ok([]);
          }
        case _ =>
      }
      if pending == map[] {
        safe := at;
      }
      r := Ok(changes);
    }

    /** Transactions left open are abandoned. Hands back every change they held, in stream order. */
    method DiscardPending() returns (discarded: seq<Change>)
      modifies this`pending
      ensures pending == map[]
      ensures InOrder(discarded) && forall c :: multiset(discarded)[c] == Times(old(pending), c)
    {
      hide Times, InOrder;
      discarded := [];
      var todo := pending.Keys;
      NoTimes();
      ghost var done: Pending := map[];
      while todo != {}
        invariant todo <= pending.Keys && pending == old(pending)
        invariant done.Keys == pending.Keys - todo && forall tx | tx in done :: done[tx] == pending[tx]
        invariant forall c :: multiset(discarded)[c] == Times(done, c)
      {
        var tx :| tx in todo;
        MoreTimes(done, tx, pending[tx]);
        discarded := discarded + pending[tx];
        todo, done := todo - {tx}, done[tx := pending[tx]];
      }
      assert done == pending;
      discarded := SortByPosition(discarded);
      pending := map[];
    }
  }

  // ----- discarded changes -----

  ghost predicate InOrder(cs: seq<Change>) {
    forall i, j | 0 <= i < j < |cs| :: cs[i].at <= cs[j].at
  }

  /** How often a change is held, over all pending transactions. */
  ghost function Times(pending: Pending, c: Change): int {
    Sums.Sum(TimesIn(pending, c))
  }

  ghost function TimesIn(pending: Pending, c: Change): map<nat, int> {
    map tx | tx in pending :: multiset(pending[tx])[c]
  }

  lemma NoTimes()
    ensures forall c :: Times(map[], c) == 0
  {
    forall c
      ensures Times(map[], c) == 0
    {
      assert TimesIn(map[], c) == map[];
    }
  }

  lemma MoreTimes(done: Pending, tx: nat, cs: seq<Change>)
    requires tx !in done
    ensures forall c :: Times(done[tx := cs], c) == Times(done, c) + multiset(cs)[c]
  {
    forall c
      ensures Times(done[tx := cs], c) == Times(done, c) + multiset(cs)[c]
    {
      assert TimesIn(done[tx := cs], c) == TimesIn(done, c)[tx := multiset(cs)[c]];
      Sums.SumUpdate(TimesIn(done, c), tx, multiset(cs)[c]);
    }
  }

  method SortByPosition(cs: seq<Change>) returns (sorted: seq<Change>)
    ensures InOrder(sorted) && multiset(sorted) == multiset(cs)
  {
    hide InOrder;
    sorted := [];
    NoneInOrder();
    var i := 0;
    while i < |cs|
      invariant 0 <= i <= |cs| && InOrder(sorted) && multiset(sorted) == multiset(cs[..i])
    {
      sorted := InsertByPosition(sorted, cs[i]);
      assert cs[..i + 1] == cs[..i] + [cs[i]];
      i := i + 1;
    }
    assert cs[..|cs|] == cs;
  }

  lemma NoneInOrder()
    ensures InOrder([])
  {
  }

  method InsertByPosition(s: seq<Change>, c: Change) returns (r: seq<Change>)
    requires InOrder(s)
    ensures InOrder(r) && multiset(r) == multiset(s) + multiset{c}
  {
    hide InOrder;
    var k := |s|;
    while k > 0 && s[k - 1].at > c.at
      invariant 0 <= k <= |s| && forall j | k <= j < |s| :: s[j].at > c.at
    {
      k := k - 1;
    }
    Inserted(s, c, k);
    r := s[..k] + [c] + s[k..];
  }

  lemma Inserted(s: seq<Change>, c: Change, k: nat)
    requires InOrder(s) && k <= |s| && (forall j | k <= j < |s| :: s[j].at > c.at) && (k > 0 ==> s[k - 1].at <= c.at)
    ensures var r := s[..k] + [c] + s[k..]; InOrder(r) && multiset(r) == multiset(s) + multiset{c}
  {
    hide InOrder;
    assert s == s[..k] + s[k..];
    InsertedOrder(s, c, k);
  }

  lemma InsertedOrder(s: seq<Change>, c: Change, k: nat)
    requires InOrder(s) && k <= |s| && (forall j | k <= j < |s| :: s[j].at > c.at) && (k > 0 ==> s[k - 1].at <= c.at)
    ensures InOrder(s[..k] + [c] + s[k..])
  {
    var r := s[..k] + [c] + s[k..];
    forall i | 0 <= i < k
      ensures s[i].at <= c.at
    {
      assert i < k - 1 ==> s[i].at <= s[k - 1].at;
    }
    forall i, j | 0 <= i < j < |r|
      ensures r[i].at <= r[j].at
    {
      assert i < k ==> r[i] == s[i];
      assert i > k ==> r[i] == s[i - 1];
      assert j < k ==> r[j] == s[j];
      assert j > k ==> r[j] == s[j - 1];
    }
  }

  lemma HeldNow(pending: Pending, tx: nat)
    requires tx in pending
    ensures pending != map[]
  {
  }

  /** Fed a whole stream from its start, a reader hands out at each position what the replay applies there, and
      its safe position is the latest one with nothing pending. */
  method FeedAll(stream: seq<Record>, unversioned: bool)
      returns (committed: seq<seq<Change>>, safe: nat, failed: Option<Error>)
    requires forall k | 1 <= k <= |stream| :: !Rec(stream, k).Restore?
    ensures |committed| <= |stream| && (failed.None? ==> |committed| == |stream|)
    ensures forall s: Replay, k | s.pending == map[] && 0 <= k < |committed| ::
              EffectAt(s, stream, 0, k + 1) == Apply(committed[k])
    ensures forall s: Replay | s.pending == map[] :: safe == SafeAt(s, stream, |committed|)
  {
    hide EffectOf, Step;
    committed, failed := [], None;
    var reader := new ChangeReader(unversioned);
    ghost var origin := Replay(map[], map[]);
    SamePending(stream);
    while |committed| < |stream|
      invariant |committed| <= |stream|
      invariant reader.pending == Run(origin, stream, 0, |committed|).pending
      invariant reader.safe == SafeAt(origin, stream, |committed|)
      invariant forall k | 0 <= k < |committed| :: EffectAt(origin, stream, 0, k + 1) == Apply(committed[k])
      decreases |stream| - |committed|
    {
      var at := |committed| + 1;
      RunStep(origin, stream, 0, at);
      var r := reader.Feed(at, Rec(stream, at));
      if r.Err? {
        failed := Some(r.error);
        break;
      }
      StepPlain(Run(origin, stream, 0, at - 1), at, Rec(stream, at));
      committed := committed + [r.value];
    }
    safe := reader.safe;
  }

  lemma StepPlain(s: Replay, at: nat, rec: Record)
    requires !rec.Restore?
    ensures Step(s, at, rec).pending == NextPending(s.pending, at, rec)
    ensures EffectOf(s.pending, at, rec) == Apply(Committed(s.pending, at, rec))
  {
  }

  /** What is pending does not depend on the rows. */
  lemma SamePending(stream: seq<Record>)
    ensures forall s: Replay, k: nat | s.pending == map[] && k <= |stream| ::
              Run(s, stream, 0, k).pending == Run(Replay(map[], map[]), stream, 0, k).pending
    ensures forall s: Replay, k: nat | s.pending == map[] && k <= |stream| ::
              SafeAt(s, stream, k) == SafeAt(Replay(map[], map[]), stream, k)
  {
    hide Run, SafeAt;
    forall s: Replay, k: nat | s.pending == map[] && k <= |stream|
      ensures Run(s, stream, 0, k).pending == Run(Replay(map[], map[]), stream, 0, k).pending
      ensures SafeAt(s, stream, k) == SafeAt(Replay(map[], map[]), stream, k)
    {
      SamePendingAt(s, stream, k);
    }
  }

  lemma {:induction false} SamePendingAt(s: Replay, stream: seq<Record>, k: nat)
    requires s.pending == map[] && k <= |stream|
    ensures Run(s, stream, 0, k).pending == Run(Replay(map[], map[]), stream, 0, k).pending
    ensures SafeAt(s, stream, k) == SafeAt(Replay(map[], map[]), stream, k)
  {
    hide Perform;
    if k > 0 {
      SamePendingAt(s, stream, k - 1);
    }
  }

  // ----- rebuilding the index -----

  /** A record recovery cannot take at position `at`. */
  predicate Unusable(rec: Record, at: nat, unversioned: bool) {
    || rec.Garbage? || rec.Malformed? || (rec.Header? && rec.version > FORMAT_VERSION)
    || (rec.Restore? && rec.snapshot.None?) || (at == 1 && !rec.Header? && !rec.Restore? && !unversioned)
  }

  /** Whatever was delivered is what the stream holds at that position. */
  predicate Delivered(stream: seq<Record>, records: seq<(nat, Record)>) {
    forall i | 0 <= i < |records| :: 1 <= records[i].0 <= |stream| && records[i].1 == Rec(stream, records[i].0)
  }

  ghost predicate HeldBefore(pending: Pending, at: nat) {
    forall tx, i | tx in pending && 0 <= i < |pending[tx]| :: pending[tx][i].at <= at
  }

  /** The running state of a rebuild. `position` is the last row change applied. */
  class Rebuild {
    var rows: Rows
    var position: nat
    var expected: nat
    var seen: set<nat>
    const reader: ChangeReader
    ghost const from: nat
    ghost const start: Rows
    ghost const stream: seq<Record>

    constructor (rows: Rows, position: nat, unversioned: bool, ghost stream: seq<Record>)
      requires position <= |stream|
      ensures Valid() && fresh(reader) && from == position && start == rows && this.stream == stream
              && Done() == position
      ensures reader.unversioned == unversioned
    {
      this.rows, this.position, expected, seen := rows, position, position + 1, {};
      from, start, this.stream := position, rows, stream;
      reader := new ChangeReader(unversioned);
    }

    /** The last position taken. */
    function Done(): int
      reads this
    {
      expected - 1
    }

    /** Every position after the snapshot's and up to `Done()` was taken once and in order, and the rows and the
        reader are where that replay is. */
    ghost predicate Valid()
      reads this, reader
    {
      && from <= position < expected <= |stream| + 1
      && (forall k :: k in seen <==> from < k < expected)
      && Replay(rows, reader.pending) == Run(Replay(start, map[]), stream, from, expected - 1)
      && HeldBefore(reader.pending, expected - 1)
      && (reader.firstRecordSeen ==> expected > 1)
    }

    /** Take the record at the expected position: restore a snapshot, or feed the reader and apply what it
        commits. */
    method Take(rec: Record) returns (failed: Option<Error>)
      requires Valid() && expected <= |stream| && rec == Rec(stream, expected)
      modifies this, reader
      ensures expected == old(expected) + 1 && (failed.None? ==> Valid())
      ensures failed.Some? ==>
                Unusable(rec, old(expected), reader.unversioned) && !failed.value.Gap? && !failed.value.Short?
    {
      hide Run, ApplyBatch, InOrder, Times;
      var at := expected;
      RunStep(Replay(start, map[]), stream, from, at);
      expected := expected + 1;
      seen := seen + {at};
      if rec.Restore? {
        if rec.snapshot.None? {
          return Some(SnapshotLost);
        }
        rows, position := rec.snapshot.value, at;
        var _ := reader.DiscardPending();
        return None;
      }
      var r := reader.Feed(at, rec);
      if r.Err? {
        return Some(r.error);
      }
      StepPlain(Replay(rows, old(reader.pending)), at, rec);
      HeldNext(old(reader.pending), at, rec);
      rows := ApplyBatch(rows, r.value);
      var i := 0;
      while i < |r.value|
        invariant 0 <= i <= |r.value| && from <= position <= at
        modifies `position
      {
        if r.value[i].at > position {
          position := r.value[i].at;
        }
        i := i + 1;
      }
      failed := None;
    }

    /** Take records in the order they come, skipping what was taken before and what is at or below `floor`,
        and stopping at `target` if there is one. */
    method TakeAll(records: seq<(nat, Record)>, floor: nat, target: Option<nat>) returns (failed: Option<Error>)
      requires Valid() && Delivered(stream, records)
      modifies this, reader
      ensures expected >= old(expected) && (failed.None? ==> Valid())
      ensures failed.None? ==>
                (target.Some? && Done() >= target.value) || forall i | 0 <= i < |records| ::
                  records[i].0 <= Max(floor, Done())
      ensures failed.Some? ==> Explains(failed.value, records)
    {
      hide Run, ApplyBatch;
      var i := 0;
      while i < |records|
        invariant 0 <= i <= |records| && Valid() && expected >= old(expected)
        invariant forall j | 0 <= j < i :: records[j].0 <= Max(floor, Done())
      {
        var (at, rec) := records[i];
        i := i + 1;
        if at <= position || at <= floor || at in seen {
          continue;
        }
        if at != expected {
          return Some(Gap(expected, at));
        }
        failed := Take(rec);
        if failed.Some? {
          return;
        }
        if target.Some? && at >= target.value {
          break;
        }
      }
      failed := None;
    }

    /** Why a rebuild stopped: a later record came in place of the expected one, or the one taken last is no
        record recovery can use. */
    ghost predicate Explains(e: Error, records: seq<(nat, Record)>)
      reads this
    {
      if e.Gap? then
        && e.expected == expected < e.got
        && exists i :: 0 <= i < |records| && records[i].0 == e.got
      else
        && !e.Short? && 1 <= Done() <= |stream|
        && Unusable(Rec(stream, Done()), Done(), reader.unversioned)
    }
  }

  function Max(a: int, b: int): int {
    if a < b then b else a
  }

  lemma HeldNext(pending: Pending, at: nat, rec: Record)
    requires at > 0 && HeldBefore(pending, at - 1) && !rec.Restore?
    ensures HeldBefore(NextPending(pending, at, rec), at)
    ensures forall i | 0 <= i < |Committed(pending, at, rec)| :: Committed(pending, at, rec)[i].at <= at
  {
  }

  /** The rows a rebuild starts from: a snapshot's, or only the root inode's. */
  function StartRows(snapshot: Option<(Rows, nat)>, root: Rows): Rows {
    if snapshot.None? then root else if snapshot.value.1 == 0 then snapshot.value.0 + root else snapshot.value.0
  }

  function StartPosition(snapshot: Option<(Rows, nat)>): nat {
    if snapshot.None? then 0 else snapshot.value.1
  }

  /** The snapshot holds what the stream's rows were at its position. */
  ghost predicate Faithful(snapshot: Option<(Rows, nat)>, root: Rows, stream: seq<Record>) {
    && StartPosition(snapshot) <= |stream|
    && StartRows(snapshot, root) == Run(Replay(root, map[]), stream, 0, StartPosition(snapshot)).rows
  }

  /** How far the authoritative tail must reach. */
  function TargetHead(localHead: nat, witnessHead: nat, localOnly: bool, recovered: seq<(nat, Record)>): nat {
    if witnessHead == 0 && (localOnly || |recovered| == 0) then localHead else witnessHead
  }

  /** Rebuild the index from the latest snapshot, the stream's tail and the locally recovered records. On
      success every position after the snapshot's up to `head` was applied exactly once in order, `head` is
      at least the target, and the rows are those of replaying the stream from its start, provided no
      transaction straddles the snapshot. */
  method RebuildIndex(snapshot: Option<(Rows, nat)>, root: Rows, tail: seq<(nat, Record)>,
                      recovered: seq<(nat, Record)>, localHead: nat, witnessHead: nat, localOnly: bool,
                          unversioned: bool, ghost stream: seq<Record>)
      returns (r: Result<Rows>, head: nat)
    requires StartPosition(snapshot) <= |stream| && Delivered(stream, tail) && Delivered(stream, recovered)
    ensures r.Ok? ==> StartPosition(snapshot) <= head <= |stream|
    ensures r.Ok? ==> head >= TargetHead(localHead, witnessHead, localOnly, recovered)
    ensures r.Ok? ==> r.value == Run(Replay(StartRows(snapshot, root), map[]), stream, StartPosition(snapshot),
                head).rows
    ensures r.Ok? ==> forall i | 0 <= i < |recovered| :: recovered[i].0 <= head
    ensures r.Ok? && Faithful(snapshot, root, stream)
            && (forall k | StartPosition(snapshot) < k <= head :: !Straddles(stream, StartPosition(snapshot), k)) ==>
              r.value == Run(Replay(root, map[]), stream, 0, head).rows
    ensures r.Err? ==>
              match r.error
              case Gap(e, got) => StartPosition(snapshot) < e < got && head == e - 1
              case Short(reached) => reached == head < TargetHead(localHead, witnessHead, localOnly, recovered)
              case _ => 1 <= head <= |stream| && Unusable(Rec(stream, head), head, unversioned)
  {
    hide Run, Straddles;
    var p := StartPosition(snapshot);
    var b := new Rebuild(StartRows(snapshot, root), p, unversioned, stream);
    var target := TargetHead(localHead, witnessHead, localOnly, recovered);
    if target > p {
      var failed := b.TakeAll(tail, 0, Some(target));
      head := b.Done();
      if failed.Some? {
        return Err(failed.value), head;
      }
      if head < target {
        return Err(Short(head)), head;
      }
    }
    var failed := b.TakeAll(recovered, witnessHead, None);
    head := b.Done();
    if failed.Some? {
      return Err(failed.value), head;
    }
    r := Ok(b.rows);
    var _ := b.reader.DiscardPending();
    SnapshotReplay(Replay(root, map[]), stream, p, head);
  }
}
