/** The node cache's byte count and its limit: which calls keep the count equal to what the entries hold, and exactly
    which entries an eviction takes. */
module NodeCacheBytes {
  import opened Bytes
  import opened ChunkedWrite
  import opened Sums
  import opened NodeCacheModel
  import opened NodeCacheProofs
  import opened Options
  import FlatFile

  /** The cache with its running byte count. */
  datatype Sized = Sized(cache: Cache, bytes: int)

  // ----- what entries hold -----

  ghost function Lengths(chunks: map<nat, seq<Byte>>): map<nat, int> {
    map i | i in chunks :: |chunks[i]|
  }

  ghost function Held(chunks: map<nat, seq<Byte>>): int {
    Sum(Lengths(chunks))
  }

  /** The bytes an entry counts for when it leaves. */
  ghost function Charge(e: Entry): int {
    if |e.chunks| > 0 then Held(e.chunks) else |e.data|
  }

  ghost function Charges(entries: map<Ino, Entry>): map<Ino, int> {
    map k | k in entries :: Charge(entries[k])
  }

  ghost function Total(entries: map<Ino, Entry>): int {
    Sum(Charges(entries))
  }

  /** How far the count is off. */
  ghost function Drift(c: Sized): int {
    c.bytes - Total(c.cache.entries)
  }

  /** The bytes of the whole-file buffer count only while there are no chunks. */
  ghost function Slack(e: Entry): int {
    if |e.chunks| > 0 then 0 else |e.data|
  }

  lemma ChargeIs(e: Entry)
    ensures Charge(e) == Held(e.chunks) + Slack(e) && Charge(e) >= 0
  {
    if |e.chunks| == 0 {
      assert Lengths(e.chunks) == map[];
    } else {
      SumNonNegative(Lengths(e.chunks));
    }
  }

  lemma HeldUpdate(chunks: map<nat, seq<Byte>>, i: nat, c: seq<Byte>)
    ensures Held(chunks[i := c]) == Held(chunks) - (if i in chunks then |chunks[i]| else 0) + |c|
  {
    assert Lengths(chunks[i := c]) == Lengths(chunks)[i := |c|];
    SumUpdate(Lengths(chunks), i, |c|);
  }

  lemma HeldDrop(chunks: map<nat, seq<Byte>>, i: nat)
    ensures Held(chunks - {i}) == Held(chunks) - if i in chunks then |chunks[i]| else 0
  {
    assert Lengths(chunks - {i}) == Lengths(chunks) - {i};
    SumDrop(Lengths(chunks), i);
  }

  lemma TotalDrop(entries: map<Ino, Entry>, k: Ino)
    ensures Total(entries - {k}) == Total(entries) - if k in entries then Charge(entries[k]) else 0
  {
    hide Charge;
    assert Charges(entries - {k}) == Charges(entries) - {k};
    SumDrop(Charges(entries), k);
  }

  lemma TotalUpdate(entries: map<Ino, Entry>, k: Ino, f: Entry)
    ensures Total(entries[k := f]) == Total(entries) - (if k in entries then Charge(entries[k]) else 0) + Charge(f)
  {
    hide Charge;
    assert Charges(entries[k := f]) == Charges(entries)[k := Charge(f)];
    SumUpdate(Charges(entries), k, Charge(f));
  }

  // ----- evictions -----

  /** No entry that went was read later than a clean one that stayed. */
  ghost predicate OldestFirst(was: map<Ino, Entry>, now: map<Ino, Entry>) {
    forall k, m | k in was && k !in now && m in now && !Dirty(now[m]) :: was[k].lastRead <= now[m].lastRead
  }

  /** The bytes fit, or nothing clean is left, or the longest unread of it is inode 0's. */
  ghost predicate Stopped(entries: map<Ino, Entry>, bytes: int, max: int) {
    || bytes <= max
    || forall k | k in entries && !Dirty(entries[k]) ::
         0 in entries && !Dirty(entries[0]) && entries[0].lastRead <= entries[k].lastRead
  }

  /** With the last of the entries that went, the bytes would not fit. */
  ghost predicate NoneInVain(was: map<Ino, Entry>, now: map<Ino, Entry>, bytes: int, max: int) {
    now != was ==> exists k :: k in was && k !in now && bytes + Charge(was[k]) > max && LastOf(was, now, k)
  }

  ghost predicate LastOf(was: map<Ino, Entry>, now: map<Ino, Entry>, k: Ino)
    requires k in was
  {
    forall m | m in was && m !in now :: was[m].lastRead <= was[k].lastRead
  }

  /** Room for `needed` more bytes is being made ... */
  ghost predicate Evicting(c: Sized, d: Sized, needed: int, max: int) {
    && Evicted(c.cache, d.cache) && OldestFirst(c.cache.entries, d.cache.entries)
    && (0 in c.cache.entries ==> 0 in d.cache.entries)
    && Drift(c) == Drift(d)
    && NoneInVain(c.cache.entries, d.cache.entries, d.bytes + needed, max)
  }

  /** ... and is made. */
  ghost predicate EvictedTo(c: Sized, d: Sized, needed: int, max: int) {
    Evicting(c, d, needed, max) && Stopped(d.cache.entries, d.bytes + needed, max)
  }

  lemma NothingEvicted(c: Sized, needed: int, max: int)
    ensures Evicting(c, c, needed, max)
  {
  }

  /** The longest unread clean entry goes next. */
  lemma EvictNext(was: Sized, c: Sized, k: Ino, needed: int, max: int)
    requires Evicting(was, c, needed, max) && c.bytes + needed > max
    requires k in c.cache.entries && k != 0 && !Dirty(c.cache.entries[k])
    requires forall m | m in c.cache.entries && !Dirty(c.cache.entries[m]) ::
               c.cache.entries[k].lastRead <= c.cache.entries[m].lastRead
    ensures Evicting(was, LessOne(c, k), needed, max)
  {
    hide Charge, Dirty, Total;
    TotalDrop(c.cache.entries, k);
    assert LastOf(was.cache.entries, LessOne(c, k).cache.entries, k);
  }

  ghost function LessOne(c: Sized, k: Ino): Sized
    requires k in c.cache.entries
  {
    Sized(c.cache.(entries := c.cache.entries - {k}), c.bytes - Charge(c.cache.entries[k]))
  }

  // ----- the calls -----

  ghost function Resized(c: Sized, ino: Ino, f: Entry): int {
    c.bytes + Held(f.chunks) - if ino in c.cache.entries then Held(c.cache.entries[ino].chunks) else 0
  }

  /** The part of the whole-file buffer a truncate cuts off. */
  function DataCut(c: Cache, ino: Ino, size: nat): nat {
    if ino in c.entries && size < |c.entries[ino].data| then |c.entries[ino].data| - size else 0
  }

  function KeptOf(e: Entry, index: nat, chunkSize: nat, bytes: seq<Byte>, local: bool): seq<Byte> {
    var start := Start(FillChunkSize(chunkSize), index);
    if local && start + |bytes| > e.size && start <= e.size then bytes[..e.size - start] else bytes
  }

  ghost predicate SizedFill(max: int, c: Sized, d: Sized, ino: Ino, index: nat, chunkSize: nat, total: nat,
                            bytes: seq<Byte>, gen: Gen, now: int) {
    if FillRefused(c.cache, ino, index, chunkSize, gen) then d == c else
    var e := FillBase(c.cache, ino, chunkSize, total, gen, now);
    var local := ino in c.cache.entries && Dirty(c.cache.entries[ino]);
    var kept := |KeptOf(e, index, chunkSize, bytes, local)|;
    exists mid: Sized ::
      && EvictedTo(Sized(c.cache.(entries := c.cache.entries[ino := e]), c.bytes - |ChunkAt(e, index)|), mid, kept, max)
      && d == Sized(if ino in mid.cache.entries
                    then mid.cache.(entries := mid.cache.entries[ino :=
                      Filled(e, index, chunkSize, total, bytes, local, now)])
                    else mid.cache, mid.bytes + kept)
  }

  ghost predicate SizedPut(max: int, c: Sized, d: Sized, ino: Ino, whole: seq<Byte>, now: int) {
    var entries := c.cache.entries;
    if ino in entries && Dirty(entries[ino]) then d == c else
    exists mid: Sized ::
      && EvictedTo(Sized(c.cache.(entries := entries - {ino}),
                         c.bytes - if ino in entries then Charge(entries[ino]) else 0), mid, |whole|, max)
      && d == Sized(mid.cache.(entries := mid.cache.entries[ino := WholeEntry(c.cache, whole, now)]),
                    mid.bytes + |whole|)
  }

  /** One call, with its effect on the count. */
  ghost predicate SizedNext(max: int, c: Sized, call: Call, d: Sized) {
    match call
    case WriteAt(ino, off, data, now) =>
      var to := AfterWrite(c.cache, ino, off, data, now);
      EvictedTo(Sized(to, Resized(c, ino, to.entries[ino])), d, 0, max)
    case Truncate(ino, size, now) =>
      var to := AfterTruncate(c.cache, ino, size, now);
      d == Sized(to, Resized(c, ino, to.entries[ino]) - DataCut(c.cache, ino, size))
    case PunchHole(ino, off, len, keepSize, now) =>
      var to := AfterPunch(c.cache, ino, off, len, keepSize, now);
      d == Sized(to, if ino in to.entries then Resized(c, ino, to.entries[ino]) else c.bytes)
    case PutChunk(ino, index, chunkSize, total, bytes, gen, now) =>
      SizedFill(max, c, d, ino, index, chunkSize, total, bytes, gen, now)
    case Put(ino, whole, now) => SizedPut(max, c, d, ino, whole, now)
    case Clear => Next(c.cache, call, d.cache) && d.bytes == 0
    case Touch(_, _) => Next(c.cache, call, d.cache) && d.bytes == c.bytes
    case MarkChunkClean(_, _, _) => Next(c.cache, call, d.cache) && d.bytes == c.bytes
    case MarkSizeClean(_, _) => Next(c.cache, call, d.cache) && d.bytes == c.bytes
    case _ => Next(c.cache, call, d.cache) && Drift(d) == Drift(c)
  }

  lemma PutMakes(max: int, c: Sized, mid: Sized, ino: Ino, whole: seq<Byte>, now: int)
    requires var entries := c.cache.entries;
             && (ino in entries ==> !Dirty(entries[ino]))
             && EvictedTo(if ino in entries then LessOne(c, ino) else c, mid, |whole|, max)
    ensures SizedNext(max, c, Put(ino, whole, now),
                      Sized(mid.cache.(entries := mid.cache.entries[ino := WholeEntry(c.cache, whole, now)]),
                            mid.bytes + |whole|))
  {
    hide EvictedTo, WholeEntry, Charge, Dirty;
    if ino !in c.cache.entries {
      assert c.cache.entries - {ino} == c.cache.entries;
    }
  }

  /** Leaving out the count, it is a call of the model. */
  lemma SizedIsNext(max: int, c: Sized, call: Call, d: Sized)
    requires SizedNext(max, c, call, d)
    ensures Next(c.cache, call, d.cache)
  {
    hide Evicted, OldestFirst, Stopped, NoneInVain, Charge, Drift, AfterWrite, AfterTruncate, AfterPunch, FillRefused,
        Filled, WholeEntry, Acknowledged, Without, Dirty, Start, KeptOf, Resized;
  }

  // ----- what the count is off by -----

  /** What a call adds to the drift: a file's whole-file buffer stops or starts to count as its chunks come or go; a
      truncate takes it off beside the chunks; a fill whose own entry is evicted to make room counts all the same. */
  ghost function Leak(c: Sized, call: Call, d: Sized): int {
    match call
    case WriteAt(ino, _, _, _) => SlackOf(c.cache, ino)
    case Truncate(ino, size, now) =>
      SlackOf(c.cache, ino) - SlackOf(d.cache, ino) - DataCut(c.cache, ino, size)
    case PunchHole(ino, _, _, _, _) => SlackOf(c.cache, ino) - SlackOf(d.cache, ino)
    case PutChunk(ino, index, chunkSize, total, bytes, gen, now) =>
      if FillRefused(c.cache, ino, index, chunkSize, gen) then 0
      else if ino in d.cache.entries then SlackOf(c.cache, ino)
      else
        var e := FillBase(c.cache, ino, chunkSize, total, gen, now);
        |KeptOf(e, index, chunkSize, bytes, ino in c.cache.entries && Dirty(c.cache.entries[ino]))|
        - |ChunkAt(e, index)|
    case Clear => -Drift(c)
    case _ => 0
  }

  ghost function SlackOf(c: Cache, ino: Ino): int {
    if ino in c.entries then Slack(c.entries[ino]) else 0
  }

  /** An entry is replaced and the count follows its chunks. */
  lemma ResizedDrift(c: Sized, ino: Ino, f: Entry, cache: Cache, bytes: int)
    requires cache.entries == c.cache.entries[ino := f] && bytes == Resized(c, ino, f)
    ensures Drift(Sized(cache, bytes)) == Drift(c) + SlackOf(c.cache, ino) - Slack(f)
  {
    hide Charge, Slack, Held, Total;
    TotalUpdate(c.cache.entries, ino, f);
    ChargeIs(f);
    if ino in c.cache.entries {
      ChargeIs(c.cache.entries[ino]);
    }
  }

  lemma WriteDrift(max: int, c: Sized, ino: Ino, off: nat, data: seq<Byte>, now: int, d: Sized)
    requires SizedNext(max, c, WriteAt(ino, off, data, now), d)
    ensures Drift(d) == Drift(c) + SlackOf(c.cache, ino)
  {
    hide Charge, Held, Drift, Evicted, OldestFirst, Stopped, NoneInVain, Written, EntryDirty, Resized, SlackOf;
    var to := AfterWrite(c.cache, ino, off, data, now);
    WrittenShape(WriteBase(c.cache, ino, now), off, data, c.cache.curGen + 1, now);
    ResizedDrift(c, ino, to.entries[ino], to, Resized(c, ino, to.entries[ino]));
  }

  lemma TruncateDrift(max: int, c: Sized, ino: Ino, size: nat, now: int, d: Sized)
    requires SizedNext(max, c, Truncate(ino, size, now), d)
    ensures Drift(d) == Drift(c) + SlackOf(c.cache, ino) - SlackOf(d.cache, ino) - DataCut(c.cache, ino, size)
  {
    hide Charge, Held, Total, Slack, Truncated, EntryDirty, Resized;
    var to := AfterTruncate(c.cache, ino, size, now);
    ResizedDrift(c, ino, to.entries[ino], to, Resized(c, ino, to.entries[ino]));
  }

  lemma PunchDrift(max: int, c: Sized, ino: Ino, off: nat, len: nat, keepSize: bool, now: int, d: Sized)
    requires SizedNext(max, c, PunchHole(ino, off, len, keepSize, now), d)
    ensures Drift(d) == Drift(c) + SlackOf(c.cache, ino) - SlackOf(d.cache, ino)
  {
    hide Charge, Held, Total, Slack, Punched, EntryDirty, Resized;
    var to := AfterPunch(c.cache, ino, off, len, keepSize, now);
    if ino in c.cache.entries {
      ResizedDrift(c, ino, to.entries[ino], to, Resized(c, ino, to.entries[ino]));
    }
  }

  lemma FilledHolds(e: Entry, index: nat, chunkSize: nat, total: nat, bytes: seq<Byte>, local: bool, now: int)
    ensures var f := Filled(e, index, chunkSize, total, bytes, local, now);
            Slack(f) == 0
            && Held(f.chunks) == Held(e.chunks) - |ChunkAt(e, index)| + |KeptOf(e, index, chunkSize, bytes, local)|
  {
    hide Start;
    var f, kept := Filled(e, index, chunkSize, total, bytes, local, now), KeptOf(e, index, chunkSize, bytes, local);
    assert f.chunks == e.chunks[index := kept];
    HeldUpdate(e.chunks, index, kept);
    assert index in f.chunks.Keys;
  }

  lemma FillDrift(max: int, c: Sized, call: Call, d: Sized)
    requires call.PutChunk? && SizedNext(max, c, call, d)
    ensures Drift(d) == Drift(c) + Leak(c, call, d)
  {
    hide Held, Charge, Slack, Total, Filled, Evicted, OldestFirst, Stopped, NoneInVain, KeptOf, FillRefused, Dirty;
    var PutChunk(ino, index, chunkSize, total, bytes, gen, now) := call;
    if !FillRefused(c.cache, ino, index, chunkSize, gen) {
      var e := FillBase(c.cache, ino, chunkSize, total, gen, now);
      var local := ino in c.cache.entries && Dirty(c.cache.entries[ino]);
      var kept := |KeptOf(e, index, chunkSize, bytes, local)|;
      var based := Sized(c.cache.(entries := c.cache.entries[ino := e]), c.bytes - |ChunkAt(e, index)|);
      var mid: Sized :| EvictedTo(based, mid, kept, max)
          && d == Sized(if ino in mid.cache.entries
                        then mid.cache.(entries := mid.cache.entries[ino :=
                          Filled(e, index, chunkSize, total, bytes, local, now)])
                        else mid.cache, mid.bytes + kept);
      TotalUpdate(c.cache.entries, ino, e);
      FreshCharge(c.cache, ino, chunkSize, total, gen, now);
      if ino in mid.cache.entries {
        MidEntry(based.cache, mid.cache, ino);
        var f := Filled(e, index, chunkSize, total, bytes, local, now);
        TotalUpdate(mid.cache.entries, ino, f);
        FilledHolds(e, index, chunkSize, total, bytes, local, now);
        ChargeIs(e);
        ChargeIs(f);
      }
    }
  }

  lemma MidEntry(c: Cache, d: Cache, ino: Ino)
    requires Evicted(c, d) && ino in d.entries
    ensures ino in c.entries && d.entries[ino] == c.entries[ino]
  {
    hide Dirty;
  }

  /** An entry made for a fill holds nothing yet. */
  lemma FreshCharge(c: Cache, ino: Ino, chunkSize: nat, total: nat, gen: Gen, now: int)
    ensures var e := FillBase(c, ino, chunkSize, total, gen, now);
            (ino !in c.entries ==> Charge(e) == 0 && Slack(e) == 0) && (ino in c.entries ==> e == c.entries[ino])
  {
  }

  /** The first `n` chunks of a file of `size` bytes. */
  ghost predicate FirstChunks(cs: nat, chunks: map<nat, seq<Byte>>, size: nat, n: nat) {
    && (forall i: nat :: i in chunks <==> i < n)
    && forall i | i in chunks :: Start(cs, i) < size && |chunks[i]| == Min(Start(cs, i) + cs, size) - Start(cs, i)
  }

  lemma {:induction false} FirstHeld(cs: nat, chunks: map<nat, seq<Byte>>, size: nat, n: nat)
    requires FirstChunks(cs, chunks, size, n)
    ensures Held(chunks) == Min(Start(cs, n), size)
    decreases n
  {
    hide Start, Held;
    if n == 0 {
      FirstStart(cs);
      assert chunks == map[];
      NoneHeld();
    } else {
      FirstHeld(cs, chunks - {n - 1}, size, n - 1);
      NextStart(cs, n);
      HeldDrop(chunks, n - 1);
    }
  }

  lemma NoneHeld()
    ensures Held(map[]) == 0
  {
    assert Lengths(map[]) == map[];
  }

  lemma FirstStart(cs: nat)
    ensures Start(cs, 0) == 0
  {
  }

  lemma NextStart(cs: nat, n: nat)
    requires n > 0
    ensures Start(cs, n) == Start(cs, n - 1) + cs
  {
  }

  lemma WholeCharge(c: Cache, whole: seq<Byte>, now: int)
    ensures Charge(WholeEntry(c, whole, now)) == |whole|
  {
    hide NumChunks, Start, Held;
    var cs, n := DEFAULT_CHUNK_SIZE, NumChunks(DEFAULT_CHUNK_SIZE, |whole|);
    var e := WholeEntry(c, whole, now);
    forall i | i in e.chunks
      ensures Start(cs, i) < |whole|
    {
      NumChunksBounds(cs, |whole|, i);
    }
    FirstHeld(cs, e.chunks, |whole|, n);
    NumChunksBounds(cs, |whole|, n);
    if n == 0 {
      assert e.chunks == map[];
    } else {
      assert 0 in e.chunks.Keys;
    }
  }

  lemma PutDrift(max: int, c: Sized, call: Call, d: Sized)
    requires call.Put? && SizedNext(max, c, call, d)
    ensures Drift(d) == Drift(c)
  {
    hide Charge, Total, Evicted, OldestFirst, Stopped, NoneInVain, WholeEntry, Dirty;
    var Put(ino, whole, now) := call;
    var entries := c.cache.entries;
    if !(ino in entries && Dirty(entries[ino])) {
      var based := Sized(c.cache.(entries := entries - {ino}),
                         c.bytes - if ino in entries then Charge(entries[ino]) else 0);
      var mid: Sized :| EvictedTo(based, mid, |whole|, max)
          && d == Sized(mid.cache.(entries := mid.cache.entries[ino := WholeEntry(c.cache, whole, now)]),
                        mid.bytes + |whole|);
      TotalDrop(entries, ino);
      TotalUpdate(mid.cache.entries, ino, WholeEntry(c.cache, whole, now));
      WholeCharge(c.cache, whole, now);
      GoneStays(based.cache, mid.cache, ino);
    }
  }

  lemma GoneStays(c: Cache, d: Cache, ino: Ino)
    requires Evicted(c, d) && ino !in c.entries
    ensures ino !in d.entries
  {
    hide Dirty;
  }

  /** Marks and reads leave every entry's bytes alone. */
  lemma SameBytes(c: Cache, call: Call, d: Cache)
    requires Next(c, call, d) && (call.Touch? || call.MarkChunkClean? || call.MarkSizeClean?)
    ensures Total(d.entries) == Total(c.entries)
  {
    hide Sum, EntryDirty, Charge;
    if call.ino in c.entries && call.ino in d.entries {
      SameCharge(c.entries[call.ino], d.entries[call.ino]);
    }
    assert Charges(d.entries) == Charges(c.entries);
  }

  lemma SameCharge(e: Entry, f: Entry)
    ensures e.chunks == f.chunks && e.data == f.data ==> Charge(e) == Charge(f)
  {
  }

  /** Every call: the count is off by what it was off by before and what the call leaks. */
  lemma DriftStep(max: int, c: Sized, call: Call, d: Sized)
    requires SizedNext(max, c, call, d)
    ensures Drift(d) == Drift(c) + Leak(c, call, d)
  {
    hide SizedFill, SizedPut, Next, Charge, Slack, Held, EvictedTo, AfterWrite, AfterTruncate, AfterPunch, KeptOf,
        FillRefused, Dirty, SlackOf, DataCut;
    match call
    case WriteAt(ino, off, data, now) => WriteDrift(max, c, ino, off, data, now, d);
    case Truncate(ino, size, now) => TruncateDrift(max, c, ino, size, now, d);
    case PunchHole(ino, off, len, keepSize, now) => PunchDrift(max, c, ino, off, len, keepSize, now, d);
    case PutChunk(_, _, _, _, _, _, _) => FillDrift(max, c, call, d);
    case Put(_, _, _) => PutDrift(max, c, call, d);
    case Clear => ClearDrift(c, d);
    case Touch(_, _) => SameBytes(c.cache, call, d.cache);
    case MarkChunkClean(_, _, _) => SameBytes(c.cache, call, d.cache);
    case MarkSizeClean(_, _) => SameBytes(c.cache, call, d.cache);
    case _ =>
  }

  lemma ClearDrift(c: Sized, d: Sized)
    requires Next(c.cache, Clear, d.cache) && d.bytes == 0
    ensures Drift(d) == 0
  {
    assert Charges(d.cache.entries) == map[];
  }

  /** Exactly which calls keep the count as right as it was. */
  ghost predicate Counts(c: Sized, call: Call, d: Sized) {
    var cached := Mentions(call) && call.ino in c.cache.entries;
    match call
    case WriteAt(ino, _, _, _) => cached ==> !OnlyBuffer(c.cache.entries[ino])
    case Truncate(ino, size, _) => cached ==>
      var e := c.cache.entries[ino];
      e.data == [] || e.chunks == map[] || (|e.data| <= size && exists i :: i in e.chunks && i < NumChunks(Cs(e), size))
    case PunchHole(ino, off, len, keepSize, _) => cached ==>
      var e := c.cache.entries[ino];
      e.data == [] || e.chunks == map[] || exists i :: i in e.chunks && !HoleTakes(e, off, len, keepSize, i)
    case PutChunk(ino, index, chunkSize, total, bytes, gen, now) =>
      || FillRefused(c.cache, ino, index, chunkSize, gen)
      || if ino in d.cache.entries then cached ==> !OnlyBuffer(c.cache.entries[ino])
         else
           var e := FillBase(c.cache, ino, chunkSize, total, gen, now);
           |KeptOf(e, index, chunkSize, bytes, cached && Dirty(c.cache.entries[ino]))| == |ChunkAt(e, index)|
    case Clear => Drift(c) == 0
    case _ => true
  }

  predicate Mentions(call: Call) {
    !call.InvalidateAllClean? && !call.Clear?
  }

  /** The whole-file buffer is all there is. */
  predicate OnlyBuffer(e: Entry) {
    e.chunks == map[] && e.data != []
  }

  predicate HoleTakes(e: Entry, off: nat, len: nat, keepSize: bool, i: nat) {
    var end := HoleEnd(e, off, len, keepSize);
    end > off && HoleDrops(e, off, end, i)
  }

  lemma SlackIs(e: Entry)
    ensures Slack(e) == (if OnlyBuffer(e) then |e.data| else 0) && (e.chunks == map[] <==> |e.chunks| == 0)
  {
  }

  lemma TruncatedSlack(e: Entry, size: nat, gen: Gen, now: int)
    ensures var f := Truncated(e, size, gen, now);
            && |f.data| == Min(|e.data|, size)
            && (f.chunks == map[] <==> !exists i :: i in e.chunks && i < NumChunks(Cs(e), size))
  {
    hide NumChunks, CutChunk;
    var f := Truncated(e, size, gen, now);
    if i :| i in e.chunks && i < NumChunks(Cs(e), size) {
      assert i in f.chunks;
    }
  }

  lemma PunchedSlack(e: Entry, off: nat, len: nat, keepSize: bool, gen: Gen, now: int)
    ensures var f := Punched(e, off, len, keepSize, gen, now);
            && |f.data| == |e.data|
            && (f.chunks == map[] <==> !exists i :: i in e.chunks && !HoleTakes(e, off, len, keepSize, i))
  {
    hide HoleDrops, HoleChunk, Covers;
    var f := Punched(e, off, len, keepSize, gen, now);
    if i :| i in e.chunks && !HoleTakes(e, off, len, keepSize, i) {
      assert i in f.chunks;
    }
    if i :| i in f.chunks {
      assert i in e.chunks && !HoleTakes(e, off, len, keepSize, i);
    }
  }

  lemma TruncateCountsIff(max: int, c: Sized, call: Call, d: Sized)
    requires SizedNext(max, c, call, d) && call.Truncate?
    ensures Leak(c, call, d) == 0 <==> Counts(c, call, d)
  {
    hide NumChunks, Truncated, EntryDirty, Slack, Held, Resized;
    var Truncate(ino, size, now) := call;
    if ino in c.cache.entries {
      var e := c.cache.entries[ino];
      TruncatedSlack(e, size, c.cache.curGen + 1, now);
      SlackIs(e);
      SlackIs(d.cache.entries[ino]);
    } else {
      SlackIs(d.cache.entries[ino]);
    }
  }

  lemma PunchCountsIff(max: int, c: Sized, call: Call, d: Sized)
    requires SizedNext(max, c, call, d) && call.PunchHole?
    ensures Leak(c, call, d) == 0 <==> Counts(c, call, d)
  {
    hide Punched, EntryDirty, Slack, Held, Resized, HoleTakes;
    var PunchHole(ino, off, len, keepSize, now) := call;
    if ino in c.cache.entries {
      var e := c.cache.entries[ino];
      PunchedSlack(e, off, len, keepSize, c.cache.curGen + 1, now);
      SlackIs(e);
      SlackIs(d.cache.entries[ino]);
    }
  }

  lemma CountsIff(max: int, c: Sized, call: Call, d: Sized)
    requires SizedNext(max, c, call, d)
    ensures Drift(d) == Drift(c) <==> Counts(c, call, d)
  {
    hide SizedNext, Drift, Slack, KeptOf, FillRefused, Dirty, DataCut, NumChunks, HoleTakes, FillBase, ChunkAt;
    DriftStep(max, c, call, d);
    if call.Truncate? {
      TruncateCountsIff(max, c, call, d);
    } else if call.PunchHole? {
      PunchCountsIff(max, c, call, d);
    } else if (call.WriteAt? || call.PutChunk?) && call.ino in c.cache.entries {
      SlackIs(c.cache.entries[call.ino]);
    }
  }

  // ----- runs -----

  ghost predicate IsSizedRun(max: int, states: seq<Sized>, calls: seq<Call>) {
    && |states| == |calls| + 1
    && forall k | 0 <= k < |calls| :: SizedNext(max, states[k], calls[k], states[k + 1])
  }

  ghost function Caches(states: seq<Sized>): seq<Cache> {
    seq(|states|, i requires 0 <= i < |states| => states[i].cache)
  }

  lemma SizedRunIsRun(max: int, states: seq<Sized>, calls: seq<Call>)
    requires IsSizedRun(max, states, calls)
    ensures IsRun(Caches(states), calls)
  {
    hide SizedNext, Next;
    forall k | 0 <= k < |calls|
      ensures Next(Caches(states)[k], calls[k], Caches(states)[k + 1])
    {
      SizedIsNext(max, states[k], calls[k], states[k + 1]);
    }
  }

  ghost predicate NoBuffers(c: Cache) {
    forall k | k in c.entries :: c.entries[k].data == []
  }

  /** Without a whole-file buffer there is none after any call but a Put of a file with contents. */
  lemma NoBuffersStay(c: Cache, call: Call, d: Cache)
    requires NoBuffers(c) && Next(c, call, d) && (call.Put? ==> call.whole == [])
    ensures NoBuffers(d)
  {
    hide EntryDirty, NumChunks, Start, ChunkIndex, Dirty, FillRefused, HoleDrops, HoleChunk, TouchedChunks, CutChunk;
  }

  /** No file with contents is put, and no fill has its own entry evicted to make room. */
  ghost predicate Countable(call: Call, d: Sized) {
    (call.Put? ==> call.whole == []) && (call.PutChunk? ==> call.ino in d.cache.entries)
  }

  lemma CountableCounts(max: int, c: Sized, call: Call, d: Sized)
    requires SizedNext(max, c, call, d) && NoBuffers(c.cache) && Drift(c) == 0 && Countable(call, d)
    ensures Drift(d) == 0 && NoBuffers(d.cache)
  {
    hide SizedNext, Drift, Next, KeptOf, FillRefused, Dirty, NumChunks, HoleTakes;
    CountsIff(max, c, call, d);
    SizedIsNext(max, c, call, d);
    NoBuffersStay(c.cache, call, d.cache);
  }

  /** Over every such run from an empty cache the count is what the entries hold. */
  lemma {:induction false} CountIsTotal(max: int, states: seq<Sized>, calls: seq<Call>, n: nat)
    requires IsSizedRun(max, states, calls) && states[0] == Sized(Cache(map[], 0, 0), 0) && n <= |calls|
    requires forall k | 0 <= k < |calls| :: Countable(calls[k], states[k + 1])
    ensures states[n].bytes == Total(states[n].cache.entries) && NoBuffers(states[n].cache)
  {
    hide SizedNext, Total, Countable;
    if n == 0 {
      NothingHeld();
    } else {
      CountIsTotal(max, states, calls, n - 1);
      CountableCounts(max, states[n - 1], calls[n - 1], states[n]);
    }
  }

  lemma NothingHeld()
    ensures Total(map[]) == 0
  {
    assert Charges(map[]) == map[];
  }

  /** Put a file of two bytes and cut one off: the buffer and the chunk are both taken off the count, which is then one
      short of what the cache holds. */
  lemma CutCountedTwice(max: int, a: Byte, b: Byte, now: int) returns (states: seq<Sized>, calls: seq<Call>)
    requires max >= 2
    ensures calls == [Put(1, [a, b], now), Truncate(1, 1, now)] && IsSizedRun(max, states, calls)
    ensures states[0] == Sized(Cache(map[], 0, 0), 0)
    ensures states[2].bytes == 0 && Total(states[2].cache.entries) == 1
  {
    hide WholeEntry, Truncated, EntryDirty, Held, Charge, Total, SizedNext;
    calls := [Put(1, [a, b], now), Truncate(1, 1, now)];
    var c0 := Sized(Cache(map[], 0, 0), 0);
    var whole := WholeEntry(c0.cache, [a, b], now);
    var c1 := Sized(Cache(map[1 := whole], 0, 0), 2);
    PutIntoEmpty(max, [a, b], now);
    var c2 := Sized(AfterTruncate(c1.cache, 1, 1, now), 0);
    TwoBytesCut(c0.cache, a, b, now);
    SizedCut(max, c1, 1, 1, now, c2);
    TotalUpdate(map[], 1, c2.cache.entries[1]);
    NothingHeld();
    assert c2.cache.entries == map[1 := c2.cache.entries[1]];
    states := [c0, c1, c2];
  }

  lemma SizedCut(max: int, c: Sized, ino: Ino, size: nat, now: int, d: Sized)
    requires d.cache == AfterTruncate(c.cache, ino, size, now)
    requires d.bytes == Resized(c, ino, d.cache.entries[ino]) - DataCut(c.cache, ino, size)
    ensures SizedNext(max, c, Truncate(ino, size, now), d)
  {
    hide AfterTruncate, Resized;
  }

  lemma PutIntoEmpty(max: int, whole: seq<Byte>, now: int)
    requires |whole| <= max
    ensures var c := Sized(Cache(map[], 0, 0), 0);
            SizedNext(max, c, Put(1, whole, now),
                      Sized(Cache(map[1 := WholeEntry(c.cache, whole, now)], 0, 0), |whole|))
  {
    hide WholeEntry, Total;
    var c := Sized(Cache(map[], 0, 0), 0);
    assert c.cache.entries - {1} == map[];
    assert EvictedTo(c, c, |whole|, max);
  }

  lemma TwoBytesCut(c: Cache, a: Byte, b: Byte, now: int)
    ensures var e := WholeEntry(c, [a, b], now);
            && |e.data| == 2 && Held(e.chunks) == 2
            && forall gen :: Held(Truncated(e, 1, gen, now).chunks) == 1 && Charge(Truncated(e, 1, gen, now)) == 1
  {
    hide Held, Sum, NumChunks;
    var cs, e := DEFAULT_CHUNK_SIZE, WholeEntry(c, [a, b], now);
    assert Start(cs, 0) == 0 && Start(cs, 1) == cs;
    NumChunksBounds(cs, 2, 1);
    NumChunksBounds(cs, 1, 1);
    assert NumChunks(cs, 2) == 1 && NumChunks(cs, 1) == 1;
    assert WholeChunk([a, b], 0) == [a, b];
    assert e.chunks == map[0 := [a, b]];
    OneChunk([a, b]);
    OneChunk([a]);
    forall gen
      ensures Held(Truncated(e, 1, gen, now).chunks) == 1 && Charge(Truncated(e, 1, gen, now)) == 1
    {
      assert CutChunk(cs, [a, b], 1, 0) == [a];
      assert Truncated(e, 1, gen, now).chunks == map[0 := [a]];
    }
  }

  lemma OneChunk(c: seq<Byte>)
    ensures Held(map[0 := c]) == |c|
  {
    HeldUpdate(map[], 0, c);
    assert map[][0 := c] == map[0 := c];
    NoneHeld();
  }

  // ----- which entries are evicted -----

  /** What clean entries read before `k` hold. */
  ghost function Before(entries: map<Ino, Entry>, k: Ino): map<Ino, int>
    requires k in entries
  {
    map m | m in entries && !Dirty(entries[m]) && entries[m].lastRead < entries[k].lastRead :: Charge(entries[m])
  }

  /** Inode 0 is never evicted, and if it is next nothing is. */
  predicate ZeroBefore(entries: map<Ino, Entry>, k: Ino)
    requires k in entries
  {
    0 in entries && !Dirty(entries[0]) && entries[0].lastRead < entries[k].lastRead
  }

  ghost predicate DistinctReads(entries: map<Ino, Entry>) {
    forall k, m | k in entries && m in entries && k != m && !Dirty(entries[k]) && !Dirty(entries[m]) ::
      entries[k].lastRead != entries[m].lastRead
  }

  ghost function Gone(c: Cache, d: Cache): map<Ino, int> {
    map k | k in c.entries && k !in d.entries :: Charge(c.entries[k])
  }

  lemma GoneIs(c: Sized, d: Sized, needed: int, max: int)
    requires EvictedTo(c, d, needed, max)
    ensures d.bytes == c.bytes - Sum(Gone(c.cache, d.cache))
  {
    hide Charge, OldestFirst, Stopped, NoneInVain, Dirty;
    var gone := Gone(c.cache, d.cache);
    SumWithout(Charges(c.cache.entries), gone);
    assert Charges(c.cache.entries) - gone.Keys == Charges(d.cache.entries);
  }

  lemma ChargesPositive(entries: map<Ino, Entry>)
    ensures forall k | k in entries :: Charge(entries[k]) >= 0
  {
    hide Charge;
    forall k | k in entries
      ensures Charge(entries[k]) >= 0
    {
      ChargeIs(entries[k]);
    }
  }

  /** An entry leaves only if the bytes do not fit even without all that was read before it. */
  lemma LeavesOnlyFull(c: Sized, d: Sized, needed: int, max: int, k: Ino)
    requires EvictedTo(c, d, needed, max) && k in c.cache.entries && k !in d.cache.entries
    ensures !Dirty(c.cache.entries[k]) && k != 0 && !ZeroBefore(c.cache.entries, k)
    ensures c.bytes + needed - Sum(Before(c.cache.entries, k)) > max
  {
    hide Charge, Dirty, Drift, Stopped;
    var was, now := c.cache.entries, d.cache.entries;
    var gone := Gone(c.cache, d.cache);
    var j :| j in was && j !in now && d.bytes + needed + Charge(was[j]) > max && LastOf(was, now, j);
    GoneIs(c, d, needed, max);
    ChargesPositive(was);
    SumDrop(gone, j);
    SumSubset(Before(was, k), gone - {j});
  }

  /** A clean entry stays only if they fit without all that was read before it, or at the same time. */
  lemma StaysOnlyFitting(c: Sized, d: Sized, needed: int, max: int, k: Ino)
    requires EvictedTo(c, d, needed, max) && DistinctReads(c.cache.entries)
    requires k in d.cache.entries && k in c.cache.entries && !Dirty(c.cache.entries[k]) && k != 0
    ensures ZeroBefore(c.cache.entries, k) || c.bytes + needed - Sum(Before(c.cache.entries, k)) <= max
  {
    hide Charge, Dirty, Drift, NoneInVain;
    var was, now := c.cache.entries, d.cache.entries;
    GoneIs(c, d, needed, max);
    ChargesPositive(was);
    if d.bytes + needed <= max {
      SumSubset(Gone(c.cache, d.cache), Before(was, k));
    } else {
      assert now[k] == was[k];
      assert 0 in now && now[0] == was[0] && !Dirty(was[0]);
    }
  }

  /** So, when no two clean entries were read at the same time, exactly: an entry is evicted if and only if it is clean,
      not inode 0's nor read after it, and the bytes do not fit without all that was read before it. */
  lemma EvictedIff(c: Sized, d: Sized, needed: int, max: int, k: Ino)
    requires EvictedTo(c, d, needed, max) && DistinctReads(c.cache.entries) && k in c.cache.entries
    ensures k !in d.cache.entries <==>
            && !Dirty(c.cache.entries[k]) && k != 0 && !ZeroBefore(c.cache.entries, k)
            && c.bytes + needed - Sum(Before(c.cache.entries, k)) > max
  {
    hide EvictedTo, Dirty, ZeroBefore, Before, DistinctReads;
    if k !in d.cache.entries {
      LeavesOnlyFull(c, d, needed, max, k);
    } else if !Dirty(c.cache.entries[k]) && k != 0 {
      StaysOnlyFitting(c, d, needed, max, k);
    }
  }

  // ----- files that stay, and one that does not -----

  /** Whether a file stays through a local call: a write to another leaves it if it is dirty, inode 0's or behind it, or
      if the bytes fit without all that was read before it. */
  ghost predicate Room(max: int, c: Sized, call: Call, ino: Ino) {
    match call
    case WriteAt(k, off, data, now) =>
      var to := AfterWrite(c.cache, k, off, data, now);
      ino in to.entries ==>
        || Dirty(to.entries[ino]) || ino == 0 || ZeroBefore(to.entries, ino)
        || Resized(c, k, to.entries[k]) - Sum(Before(to.entries, ino)) <= max
    case PunchHole(k, _, _, _, _) => k == ino ==> ino in c.cache.entries
    case _ => true
  }

  /** No two clean entries were read at the same time when room is made for a write. */
  ghost predicate ReadApart(c: Cache, call: Call) {
    call.WriteAt? ==> DistinctReads(AfterWrite(c, call.ino, call.off, call.data, call.now).entries)
  }

  lemma RoomKeeps(max: int, c: Sized, call: Call, d: Sized, ino: Ino)
    requires SizedNext(max, c, call, d) && LocalMutation(call) && Room(max, c, call, ino)
    ensures KeptStep(c.cache, call, d.cache, ino)
  {
    hide EvictedTo, Written, EntryDirty, Dirty, ZeroBefore, Before, Resized, Truncated, Punched;
    if call.WriteAt? {
      var to := AfterWrite(c.cache, call.ino, call.off, call.data, call.now);
      if ino in to.entries && ino !in d.cache.entries {
        LeavesOnlyFull(Sized(to, Resized(c, call.ino, to.entries[call.ino])), d, 0, max, ino);
      }
    }
  }

  /** One local call: exactly when the file is not taken out by it. */
  lemma KeptStepIff(max: int, c: Sized, call: Call, d: Sized, ino: Ino)
    requires SizedNext(max, c, call, d) && LocalMutation(call) && ReadApart(c.cache, call)
    ensures KeptStep(c.cache, call, d.cache, ino) <==> Room(max, c, call, ino)
  {
    hide EvictedTo, Written, EntryDirty, Dirty, ZeroBefore, Before, Resized, Truncated, Punched, DistinctReads;
    if Room(max, c, call, ino) {
      RoomKeeps(max, c, call, d, ino);
    } else if call.WriteAt? {
      var to := AfterWrite(c.cache, call.ino, call.off, call.data, call.now);
      EvictedIff(Sized(to, Resized(c, call.ino, to.entries[call.ino])), d, 0, max, ino);
    }
  }

  /** Over every run of local calls: a file is kept throughout if and only if there is room for it at each. */
  lemma KeptIff(max: int, states: seq<Sized>, calls: seq<Call>, ino: Ino)
    requires IsSizedRun(max, states, calls) && LocalCalls(calls)
    requires forall k | 0 <= k < |calls| :: ReadApart(states[k].cache, calls[k])
    ensures Kept(Caches(states), calls, ino) <==> forall k | 0 <= k < |calls| :: Room(max, states[k], calls[k], ino)
  {
    hide SizedNext, KeptStep, Room, ReadApart;
    var caches := Caches(states);
    forall k | 0 <= k < |calls|
      ensures KeptStep(caches[k], calls[k], caches[k + 1], ino) <==> Room(max, states[k], calls[k], ino)
    {
      KeptStepIff(max, states[k], calls[k], states[k + 1], ino);
    }
    if Kept(caches, calls, ino) {
      forall k | 0 <= k < |calls|
        ensures Room(max, states[k], calls[k], ino)
      {
        assert KeptStep(caches[k], calls[k], caches[k + 1], ino);
      }
    }
  }

  /** While there is room for a file, every hit is the slice of the flat file of all its calls. */
  lemma RangeWhileRoom(max: int, states: seq<Sized>, calls: seq<Call>, ino: Ino, off: nat, len: int)
    requires IsSizedRun(max, states, calls) && LocalCalls(calls) && states[0] == Sized(Cache(map[], 0, 0), 0)
    requires forall k | 0 <= k < |calls| :: Room(max, states[k], calls[k], ino)
    ensures var c := states[|calls|].cache;
            && (ino in c.entries ==> RangesAre(c.entries[ino], FlatAfter([], calls, ino, |calls|), off, len))
            && (ino !in c.entries ==> FlatAfter([], calls, ino, |calls|) == [])
  {
    hide SizedNext, KeptStep, Room, FlatAfter, RangesAre, Next, SafeRun;
    SizedRunIsRun(max, states, calls);
    UnsyncedRunIsSafe(Caches(states), calls, ino);
    var caches := Caches(states);
    forall k | 0 <= k < |calls|
      ensures KeptStep(caches[k], calls[k], caches[k + 1], ino)
    {
      RoomKeeps(max, states[k], calls[k], states[k + 1], ino);
    }
    RangeOfKept([], caches, calls, ino, off, len);
  }

  /** And once it is out of the cache, with more than a byte in it, a write of one byte makes it read as that byte. */
  lemma ShortAfterEviction(states: seq<Cache>, calls: seq<Call>, ino: Ino, b: Byte, now: int, d: Cache)
    requires IsRun(states, calls) && ino !in states[|calls|].entries && |FlatAfter([], calls, ino, |calls|)| > 1
    requires Next(states[|calls|], WriteAt(ino, 0, [b], now), d)
    ensures ino in d.entries && GetRange(d.entries[ino], 0, 0) == Some([b])
    ensures |FlatFile.Read(FlatAfter([], calls + [WriteAt(ino, 0, [b], now)], ino, |calls| + 1), 0, 0)| > 1
  {
    hide Written, EntryDirty, GetRange, Next;
    var c := states[|calls|];
    OneByteReads(b, c.curGen + 1, now);
    WriteEnters(c, ino, b, now, d);
    FlatPrefix([], calls, [WriteAt(ino, 0, [b], now)], ino, |calls|);
  }

  lemma WriteEnters(c: Cache, ino: Ino, b: Byte, now: int, d: Cache)
    requires ino !in c.entries && Next(c, WriteAt(ino, 0, [b], now), d)
    ensures ino in d.entries
    ensures d.entries[ino] == Written(Fresh(0, DEFAULT_CHUNK_SIZE, 0, 0, now), 0, [b], c.curGen + 1, now)
  {
    hide Written, EntryDirty, Dirty;
    WriteDirties(Fresh(0, DEFAULT_CHUNK_SIZE, 0, 0, now), 0, [b], c.curGen + 1, now);
  }

  lemma {:induction false} FlatPrefix(start: seq<Byte>, calls: seq<Call>, more: seq<Call>, ino: Ino, n: nat)
    requires n <= |calls|
    ensures FlatAfter(start, calls + more, ino, n) == FlatAfter(start, calls, ino, n)
  {
    hide FlatCall;
    if n > 0 {
      FlatPrefix(start, calls, more, ino, n - 1);
    }
  }

  /** Write a whole chunk, punch it away keeping the size, write more than the cache may hold to another file, and write
      one byte. The second write evicts the first file, which is clean, so that it reads as that byte alone. */
  function EvictingCalls(data: seq<Byte>, more: seq<Byte>, b: Byte, now: int): seq<Call> {
    [WriteAt(1, 0, data, now), PunchHole(1, 0, DEFAULT_CHUNK_SIZE, true, now), WriteAt(2, 0, more, now),
        WriteAt(1, 0, [b], now)]
  }

  ghost predicate AllDirty(entries: map<Ino, Entry>) {
    forall k | k in entries :: Dirty(entries[k])
  }

  /** With nothing clean nothing is evicted. */
  lemma WriteAmongDirty(max: int, c: Sized, ino: Ino, off: nat, data: seq<Byte>, now: int)
    requires AllDirty(c.cache.entries) && data != []
    ensures var to := AfterWrite(c.cache, ino, off, data, now);
            && SizedNext(max, c, WriteAt(ino, off, data, now), Sized(to, Resized(c, ino, to.entries[ino])))
            && AllDirty(to.entries)
  {
    hide Written, EntryDirty, Dirty, Drift, Resized, Charge;
    WriteDirties(WriteBase(c.cache, ino, now), off, data, c.cache.curGen + 1, now);
  }

  lemma TouchedFromStart(cs: nat, len: nat, i: nat)
    requires cs > 0 && len > 0
    ensures i in TouchedChunks(cs, 0, len) <==> i < NumChunks(cs, len)
    ensures i in TouchedChunks(cs, 0, len) ==> Touches(cs, 0, len, i)
  {
    hide Start, ChunkIndex, NumChunks;
    IndexUnique(cs, i, len - 1);
    IndexUnique(cs, i, 0);
    NumChunksBounds(cs, len, i);
    assert Touches(cs, 0, len, i) <==> i < NumChunks(cs, len);
    assert i in TouchedChunks(cs, 0, len) <==> Touches(cs, 0, len, i);
  }

  /** A first write from the start of a file holds just its bytes. */
  lemma FirstWriteHolds(data: seq<Byte>, gen: Gen, now: int)
    requires data != []
    ensures Held(Written(Fresh(0, DEFAULT_CHUNK_SIZE, 0, 0, now), 0, data, gen, now).chunks) == |data|
  {
    hide Held, Start, ChunkIndex, WrittenChunk, NumChunks;
    var cs, n := DEFAULT_CHUNK_SIZE, NumChunks(DEFAULT_CHUNK_SIZE, |data|);
    var chunks := Written(Fresh(0, cs, 0, 0, now), 0, data, gen, now).chunks;
    forall i: nat
      ensures i in chunks <==> i < n
      ensures i in chunks ==> Start(cs, i) < |data| && |chunks[i]| == Min(Start(cs, i) + cs, |data|) - Start(cs, i)
    {
      TouchedFromStart(cs, |data|, i);
      NumChunksBounds(cs, |data|, i);
      if i in chunks {
        WrittenChunkBytes(cs, [], |data|, 0, data, i, 0);
      }
    }
    FirstHeld(cs, chunks, |data|, n);
    NumChunksBounds(cs, |data|, n);
  }

  lemma PunchedEmpty(data: seq<Byte>, now: int)
    requires |data| == DEFAULT_CHUNK_SIZE
    ensures var e := Punched(Written(Fresh(0, DEFAULT_CHUNK_SIZE, 0, 0, now), 0, data, 1, now), 0, DEFAULT_CHUNK_SIZE,
                             true, 2, now);
            !Dirty(e) && e.chunks == map[] && e.data == []
  {
    hide Written;
    WholeChunkWritten(data, now);
    var e := Written(Fresh(0, DEFAULT_CHUNK_SIZE, 0, 0, now), 0, data, 1, now);
    assert e.data == [] by { WrittenShape(Fresh(0, DEFAULT_CHUNK_SIZE, 0, 0, now), 0, data, 1, now); }
    assert Covers(DEFAULT_CHUNK_SIZE, 0, DEFAULT_CHUNK_SIZE, 0);
    assert Punched(e, 0, DEFAULT_CHUNK_SIZE, true, 2, now).dirty == map[];
  }

  /** The first two calls: the file is left clean, and nothing is counted. */
  lemma WrittenAndPunched(max: int, data: seq<Byte>, now: int) returns (c: Sized, d: Sized)
    requires |data| == DEFAULT_CHUNK_SIZE
    ensures SizedNext(max, Sized(Cache(map[], 0, 0), 0), WriteAt(1, 0, data, now), c)
    ensures SizedNext(max, c, PunchHole(1, 0, DEFAULT_CHUNK_SIZE, true, now), d)
    ensures d.bytes == 0 && d.cache.entries.Keys == {1}
    ensures var e := d.cache.entries[1]; !Dirty(e) && e.chunks == map[] && e.data == []
  {
    hide Written, EntryDirty, Dirty, Punched, Held, SizedNext;
    var start := Sized(Cache(map[], 0, 0), 0);
    var to := AfterWrite(start.cache, 1, 0, data, now);
    c := Sized(to, Resized(start, 1, to.entries[1]));
    WriteAmongDirty(max, start, 1, 0, data, now);
    var punched := AfterPunch(to, 1, 0, DEFAULT_CHUNK_SIZE, true, now);
    d := Sized(punched, Resized(c, 1, punched.entries[1]));
    SizedHole(max, c, 1, 0, DEFAULT_CHUNK_SIZE, true, now, d);
    PunchedEmpty(data, now);
    NoneHeld();
  }

  lemma SizedHole(max: int, c: Sized, ino: Ino, off: nat, len: nat, keepSize: bool, now: int, d: Sized)
    requires d.cache == AfterPunch(c.cache, ino, off, len, keepSize, now) && ino in d.cache.entries
    requires d.bytes == Resized(c, ino, d.cache.entries[ino])
    ensures SizedNext(max, c, PunchHole(ino, off, len, keepSize, now), d)
  {
    hide AfterPunch, Resized;
  }

  /** The third call takes the clean file out. */
  lemma CleanFileGoes(max: int, c: Sized, more: seq<Byte>, now: int) returns (d: Sized)
    requires |more| > max >= 1 && c.bytes == 0 && c.cache.entries.Keys == {1}
    requires var e := c.cache.entries[1]; !Dirty(e) && e.chunks == map[] && e.data == []
    ensures SizedNext(max, c, WriteAt(2, 0, more, now), d) && d.cache.entries.Keys == {2} && AllDirty(d.cache.entries)
  {
    hide Written, EntryDirty, Dirty, Held, Total;
    var to := AfterWrite(c.cache, 2, 0, more, now);
    var full := Sized(to, Resized(c, 2, to.entries[2]));
    WriteDirties(Fresh(0, DEFAULT_CHUNK_SIZE, 0, 0, now), 0, more, c.cache.curGen + 1, now);
    FirstWriteHolds(more, c.cache.curGen + 1, now);
    d := Sized(to.(entries := to.entries - {1}), full.bytes);
    TotalDrop(to.entries, 1);
    assert LastOf(to.entries, d.cache.entries, 1) && Charge(to.entries[1]) == 0;
    assert EvictedTo(full, d, 0, max);
  }

  /** For every limit there are such calls. */
  lemma EvictedWhileClean(max: int, data: seq<Byte>, more: seq<Byte>, b: Byte, now: int)
      returns (states: seq<Sized>, calls: seq<Call>)
    requires |data| == DEFAULT_CHUNK_SIZE && |more| > max >= 1
    ensures calls == EvictingCalls(data, more, b, now) && IsSizedRun(max, states, calls)
    ensures states[0] == Sized(Cache(map[], 0, 0), 0)
    ensures 1 in states[4].cache.entries && GetRange(states[4].cache.entries[1], 0, 0) == Some([b])
    ensures |FlatFile.Read(FlatAfter([], calls, 1, 4), 0, 0)| == DEFAULT_CHUNK_SIZE
  {
    hide Written, EntryDirty, GetRange, SizedNext, FlatAfter, Next, Resized;
    calls := EvictingCalls(data, more, b, now);
    var c1, c2 := WrittenAndPunched(max, data, now);
    var c3 := CleanFileGoes(max, c2, more, now);
    var to := AfterWrite(c3.cache, 1, 0, [b], now);
    var c4 := Sized(to, Resized(c3, 1, to.entries[1]));
    WriteAmongDirty(max, c3, 1, 0, [b], now);
    states := [Sized(Cache(map[], 0, 0), 0), c1, c2, c3, c4];
    SizedIsNext(max, c3, calls[3], c4);
    WriteEnters(c3.cache, 1, b, now, c4.cache);
    OneByteReads(b, c3.cache.curGen + 1, now);
    FourCalls(data, more, b, now);
  }

  lemma FourCalls(data: seq<Byte>, more: seq<Byte>, b: Byte, now: int)
    requires |data| == DEFAULT_CHUNK_SIZE
    ensures |FlatAfter([], EvictingCalls(data, more, b, now), 1, 4)| == DEFAULT_CHUNK_SIZE
  {
    var calls := EvictingCalls(data, more, b, now);
    assert |FlatAfter([], calls, 1, 1)| == DEFAULT_CHUNK_SIZE;
    assert |FlatAfter([], calls, 1, 2)| == DEFAULT_CHUNK_SIZE;
    assert |FlatAfter([], calls, 1, 3)| == DEFAULT_CHUNK_SIZE;
  }
}
