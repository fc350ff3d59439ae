/** The node cache's promises: unsynced data is a flat file, stale fills change nothing, dirty data outlives
    everything but its owner's acknowledgement or removal, and dirtyBytes counts exactly it. */
module NodeCacheProofs {
  import opened Bytes
  import opened ChunkedWrite
  import opened Sums
  import opened NodeCacheModel
  import opened Options
  import FlatFile

  // ----- unsynced data is a flat file -----

  predicate ChunkFits(cs: nat, size: nat, i: nat, c: seq<Byte>) {
    |c| <= cs && Start(cs, i) + |c| <= size
  }

  /** The entry holds the flat file `flat`: a missing chunk is all zero, and nothing lies past the end. */
  ghost predicate Holds(e: Entry, flat: seq<Byte>) {
    && e.data == [] && e.size == |flat|
    && (forall i | i in e.chunks :: ChunkFits(Cs(e), e.size, i, e.chunks[i]))
    && (forall i: nat, b: nat | b < Cs(e) && Start(Cs(e), i) + b < |flat| ::
           At(ChunkAt(e, i), b) == flat[Start(Cs(e), i) + b])
  }

  predicate AllUnsynced(e: Entry) {
    e.chunks.Keys <= e.dirty.Keys
  }

  function HoleEnd(e: Entry, off: nat, len: nat, keepSize: bool): nat {
    if keepSize && off + len > e.size then e.size else off + len
  }

  /** A clean chunk the hole cuts into is dropped whole: what it holds beside the hole must be zero. */
  ghost predicate HoleSafe(e: Entry, off: nat, len: nat, keepSize: bool) {
    forall i | i in e.chunks && i !in e.dirty :: SafeChunk(Cs(e), e.chunks[i], off, HoleEnd(e, off, len, keepSize), i)
  }

  ghost predicate SafeChunk(cs: nat, c: seq<Byte>, off: nat, end: nat, i: nat) {
    off < end && Overlaps(cs, off, end, i) && !Covers(cs, off, end, i) ==>
      forall b: nat | b < |c| && !(off <= Start(cs, i) + b < end) :: c[b] == 0
  }

  /** Every chunk byte is a byte of the flat file, or zero past its end. */
  lemma ChunkByteOf(e: Entry, flat: seq<Byte>, i: nat, b: nat)
    requires Holds(e, flat) && b < Cs(e)
    ensures At(ChunkAt(e, i), b) == At(flat, Start(Cs(e), i) + b)
  {
    hide Start;
    if i in e.chunks {
      assert ChunkFits(Cs(e), e.size, i, e.chunks[i]);
    }
  }

  lemma GetRangeIsFlat(e: Entry, flat: seq<Byte>, off: nat, len: int)
    requires Holds(e, flat)
    ensures GetRange(e, off, len).Some? ==> GetRange(e, off, len).value == FlatFile.Read(flat, off, len)
  {
    hide Start, ChunkIndex, EntryByte;
    if off < e.size {
      var end := if len <= 0 || off + len > e.size then e.size else off + len;
      forall p: nat | p < e.size
        ensures EntryByte(e, p) == flat[p]
      {
        EntryByteIs(e, flat, p);
      }
      assert RangeBytes(e, off, end) == flat[off..end];
    }
  }

  lemma EntryByteIs(e: Entry, flat: seq<Byte>, p: nat)
    requires Holds(e, flat) && p < e.size
    ensures EntryByte(e, p) == flat[p]
  {
    hide Start, ChunkIndex;
    IndexBounds(Cs(e), p);
    ChunkByteOf(e, flat, ChunkIndex(Cs(e), p), p - Start(Cs(e), ChunkIndex(Cs(e), p)));
  }

  lemma WrittenChunkOf(e: Entry, off: nat, data: seq<Byte>, gen: Gen, now: int, i: nat)
    ensures var f, cs := Written(e, off, data, gen, now), Cs(e);
            ChunkAt(f, i) == if i in TouchedChunks(cs, off, |data|)
            then WrittenChunk(cs, ChunkAt(e, i), f.size, off, data, i) else ChunkAt(e, i)
  {
  }

  lemma WrittenByte(e: Entry, flat: seq<Byte>, off: nat, data: seq<Byte>, gen: Gen, now: int, i: nat, b: nat)
    requires Holds(e, flat) && b < Cs(e)
    ensures var f, p := Written(e, off, data, gen, now), Start(Cs(e), i) + b;
            && (i in f.chunks ==> ChunkFits(Cs(e), f.size, i, f.chunks[i]))
            && At(ChunkAt(f, i), b) == if off <= p < off + |data| then data[p - off] else At(flat, p)
  {
    hide Start, ChunkIndex, WrittenChunk;
    var cs, f := Cs(e), Written(e, off, data, gen, now);
    if i in e.chunks {
      assert ChunkFits(cs, e.size, i, e.chunks[i]);
    }
    ChunkByteOf(e, flat, i, b);
    WrittenChunkOf(e, off, data, gen, now, i);
    if Touches(cs, off, |data|, i) {
      WriteSlice(cs, off, data, i);
      WrittenChunkBytes(cs, ChunkAt(e, i), f.size, off, data, i, b);
    } else {
      UntouchedBytes(cs, off, |data|, i, b);
    }
  }

  lemma WrittenShape(e: Entry, off: nat, data: seq<Byte>, gen: Gen, now: int)
    ensures var f := Written(e, off, data, gen, now);
            && f.data == [] && f.size == Max(e.size, off + |data|) && Cs(f) == Cs(e)
            && (AllUnsynced(e) ==> AllUnsynced(f)) && f.gen == gen && f.sizeGen == e.sizeGen
  {
  }

  lemma WrittenHolds(e: Entry, flat: seq<Byte>, off: nat, data: seq<Byte>, gen: Gen, now: int)
    requires Holds(e, flat)
    ensures Holds(Written(e, off, data, gen, now), FlatFile.Write(flat, off, data))
  {
    hide Start, ChunkIndex, Written, ChunkFits, ChunkAt;
    var f := Written(e, off, data, gen, now);
    WrittenShape(e, off, data, gen, now);
    forall i: nat, b: nat | b < Cs(e) && Start(Cs(e), i) + b < f.size
      ensures At(ChunkAt(f, i), b) == FlatFile.Write(flat, off, data)[Start(Cs(e), i) + b]
    {
      WrittenByte(e, flat, off, data, gen, now, i, b);
    }
    forall i | i in f.chunks
      ensures ChunkFits(Cs(e), f.size, i, f.chunks[i])
    {
      WrittenByte(e, flat, off, data, gen, now, i, 0);
    }
  }

  lemma TruncatedByte(e: Entry, flat: seq<Byte>, size: nat, gen: Gen, now: int, i: nat, b: nat)
    requires Holds(e, flat) && b < Cs(e)
    ensures var f := Truncated(e, size, gen, now);
            && (i in f.chunks ==> ChunkFits(Cs(e), size, i, f.chunks[i]))
            && (Start(Cs(e), i) + b < size ==> At(ChunkAt(f, i), b) == At(flat, Start(Cs(e), i) + b))
  {
    hide Start, ChunkIndex;
    var cs := Cs(e);
    if i in e.chunks {
      assert ChunkFits(cs, e.size, i, e.chunks[i]);
    }
    ChunkByteOf(e, flat, i, b);
    NumChunksBounds(cs, size, i);
    if i + 1 < NumChunks(cs, size) {
      NumChunksBounds(cs, size, i + 1);
      StartMonotone(cs, i, i + 1);
    }
  }

  lemma TruncatedHolds(e: Entry, flat: seq<Byte>, size: nat, gen: Gen, now: int)
    requires Holds(e, flat)
    ensures Holds(Truncated(e, size, gen, now), FlatFile.Truncate(flat, size))
  {
    hide Start, ChunkIndex, ChunkFits;
    var f := Truncated(e, size, gen, now);
    forall i: nat, b: nat | b < Cs(e)
      ensures i in f.chunks ==> ChunkFits(Cs(e), size, i, f.chunks[i])
      ensures Start(Cs(e), i) + b < size ==> At(ChunkAt(f, i), b) == At(flat, Start(Cs(e), i) + b)
    {
      TruncatedByte(e, flat, size, gen, now, i, b);
    }
    forall i | i in f.chunks
      ensures ChunkFits(Cs(e), size, i, f.chunks[i])
    {
      TruncatedByte(e, flat, size, gen, now, i, 0);
    }
  }

  lemma PunchedByte(e: Entry, flat: seq<Byte>, off: nat, len: nat, keepSize: bool, gen: Gen, now: int, i: nat, b: nat)
    requires Holds(e, flat) && b < Cs(e) && HoleSafe(e, off, len, keepSize)
    ensures var f, p := Punched(e, off, len, keepSize, gen, now), Start(Cs(e), i) + b;
            && (i in f.chunks ==> ChunkFits(Cs(e), f.size, i, f.chunks[i]))
            && (p < f.size ==> At(ChunkAt(f, i), b) == if off <= p < off + len then 0 else At(flat, p))
  {
    hide Start, ChunkIndex;
    if i in e.chunks {
      assert ChunkFits(Cs(e), e.size, i, e.chunks[i]);
      if i !in e.dirty {
        assert SafeChunk(Cs(e), e.chunks[i], off, HoleEnd(e, off, len, keepSize), i);
      }
    }
    ChunkByteOf(e, flat, i, b);
  }

  lemma PunchedShape(e: Entry, off: nat, len: nat, keepSize: bool, gen: Gen, now: int)
    ensures var f := Punched(e, off, len, keepSize, gen, now);
            && (e.data == [] ==> f.data == []) && Cs(f) == Cs(e)
            && f.size == (if keepSize then e.size else Max(e.size, off + len))
            && (AllUnsynced(e) ==> AllUnsynced(f)) && f.gen == gen && (f.sizeGen == e.sizeGen || f.sizeGen == gen)
  {
    hide Start;
  }

  lemma PunchedHolds(e: Entry, flat: seq<Byte>, off: nat, len: nat, keepSize: bool, gen: Gen, now: int)
    requires Holds(e, flat) && HoleSafe(e, off, len, keepSize)
    ensures Holds(Punched(e, off, len, keepSize, gen, now), FlatFile.Punch(flat, off, len, keepSize))
  {
    hide Start, ChunkIndex, ChunkFits, Punched, ChunkAt, HoleSafe;
    var f := Punched(e, off, len, keepSize, gen, now);
    PunchedShape(e, off, len, keepSize, gen, now);
    forall i: nat, b: nat | b < Cs(e) && Start(Cs(e), i) + b < f.size
      ensures At(ChunkAt(f, i), b) == FlatFile.Punch(flat, off, len, keepSize)[Start(Cs(e), i) + b]
    {
      PunchedByte(e, flat, off, len, keepSize, gen, now, i, b);
    }
    forall i | i in f.chunks
      ensures ChunkFits(Cs(e), f.size, i, f.chunks[i])
    {
      PunchedByte(e, flat, off, len, keepSize, gen, now, i, 0);
    }
  }

  /** A clean chunk with something beside the hole: the entry no longer holds the flat file. */
  lemma UnsafeChunkLost(e: Entry, flat: seq<Byte>, off: nat, len: nat, keepSize: bool, gen: Gen, now: int, i: nat)
    requires Holds(e, flat) && i in e.chunks && i !in e.dirty
    requires !SafeChunk(Cs(e), e.chunks[i], off, HoleEnd(e, off, len, keepSize), i)
    ensures !Holds(Punched(e, off, len, keepSize, gen, now), FlatFile.Punch(flat, off, len, keepSize))
  {
    hide Start, ChunkIndex;
    var f, end, cs := Punched(e, off, len, keepSize, gen, now), HoleEnd(e, off, len, keepSize), Cs(e);
    var b: nat :| b < |e.chunks[i]| && !(off <= Start(cs, i) + b < end) && e.chunks[i][b] != 0;
    assert ChunkFits(cs, e.size, i, e.chunks[i]);
    ChunkByteOf(e, flat, i, b);
    assert i !in f.chunks && At(ChunkAt(f, i), b) == 0;
    assert FlatFile.Punch(flat, off, len, keepSize)[Start(cs, i) + b] != 0;
  }

  /** A hole is the flat hole if and only if every clean chunk it cuts into is zero beside it. */
  lemma PunchedHoldsIff(e: Entry, flat: seq<Byte>, off: nat, len: nat, keepSize: bool, gen: Gen, now: int)
    requires Holds(e, flat)
    ensures Holds(Punched(e, off, len, keepSize, gen, now), FlatFile.Punch(flat, off, len, keepSize)) <==>
            HoleSafe(e, off, len, keepSize)
  {
    hide Holds, Punched, SafeChunk;
    if HoleSafe(e, off, len, keepSize) {
      PunchedHolds(e, flat, off, len, keepSize, gen, now);
    } else {
      var i :| i in e.chunks && i !in e.dirty
               && !SafeChunk(Cs(e), e.chunks[i], off, HoleEnd(e, off, len, keepSize), i);
      UnsafeChunkLost(e, flat, off, len, keepSize, gen, now, i);
    }
  }

  /** A file of two bytes, fetched and clean; a hole in the first drops the second with it. */
  lemma CleanChunkPunched(x: Byte, y: Byte, gen: Gen, now: int)
    requires y != 0
    ensures var e := Fresh(2, DEFAULT_CHUNK_SIZE, 0, 0, now).(chunks := map[0 := [x, y]]);
            Holds(e, [x, y]) && !HoleSafe(e, 0, 1, true)
            && !Holds(Punched(e, 0, 1, true, gen, now), FlatFile.Punch([x, y], 0, 1, true))
  {
    var e, cs := Fresh(2, DEFAULT_CHUNK_SIZE, 0, 0, now).(chunks := map[0 := [x, y]]), DEFAULT_CHUNK_SIZE;
    assert Start(cs, 0) == 0;
    forall i: nat, b: nat | b < cs && Start(cs, i) + b < 2
      ensures At(ChunkAt(e, i), b) == [x, y][Start(cs, i) + b]
    {
      StartMonotone(cs, 1, i);
      assert Start(cs, 1) == cs;
    }
    assert Holds(e, [x, y]);
    assert HoleEnd(e, 0, 1, true) == 1 && e.chunks[0] == [x, y] && Cs(e) == cs;
    assert !SafeChunk(Cs(e), e.chunks[0], 0, HoleEnd(e, 0, 1, true), 0) by {
      assert [x, y][1] != 0;
    }
    PunchedHoldsIff(e, [x, y], 0, 1, true, gen, now);
  }

  // ----- runs of local mutations -----

  /** What a mutating call does to the flat file of its inode. */
  function FlatCall(flat: seq<Byte>, call: Call): seq<Byte> {
    match call
    case WriteAt(_, off, data, _) => FlatFile.Write(flat, off, data)
    case Truncate(_, size, _) => FlatFile.Truncate(flat, size)
    case PunchHole(_, off, len, keepSize, _) => FlatFile.Punch(flat, off, len, keepSize)
    case _ => flat
  }

  /** A run: states joined by calls. */
  ghost predicate IsRun(states: seq<Cache>, calls: seq<Call>) {
    && |states| == |calls| + 1
    && forall k :: 0 <= k < |calls| ==> Next(states[k], calls[k], states[k + 1])
  }

  /** The flat file the first `n` calls make of `start`. */
  ghost function FlatAfter(start: seq<Byte>, calls: seq<Call>, ino: Ino, n: nat): seq<Byte>
    requires n <= |calls|
  {
    if n == 0 then start
    else
      var flat := FlatAfter(start, calls, ino, n - 1);
      if Mutates(calls[n - 1], ino) then FlatCall(flat, calls[n - 1]) else flat
  }

  /** The flat file of the calls since the file last came into the cache: one the cache does not know starts empty. */
  ghost function FlatSince(start: seq<Byte>, states: seq<Cache>, calls: seq<Call>, ino: Ino, n: nat): seq<Byte>
    requires n <= |calls| && n <= |states|
  {
    if n == 0 then start
    else
      var flat := if ino in states[n - 1].entries then FlatSince(start, states, calls, ino, n - 1) else [];
      if Mutates(calls[n - 1], ino) then FlatCall(flat, calls[n - 1]) else flat
  }

  predicate LocalMutation(call: Call) {
    call.WriteAt? || call.Truncate? || call.PunchHole?
  }

  ghost predicate LocalCalls(calls: seq<Call>) {
    forall k | 0 <= k < |calls| :: LocalMutation(calls[k])
  }

  ghost predicate Tracks(c: Cache, ino: Ino, flat: seq<Byte>) {
    ino in c.entries ==> Holds(c.entries[ino], flat)
  }

  /** No hole in the file costs it more than the hole. */
  ghost predicate SafeCall(c: Cache, call: Call, ino: Ino) {
    call.PunchHole? && call.ino == ino && ino in c.entries ==>
      HoleSafe(c.entries[ino], call.off, call.len, call.keepSize)
  }

  ghost predicate SafeRun(states: seq<Cache>, calls: seq<Call>, ino: Ino)
    requires |states| == |calls| + 1
  {
    forall k | 0 <= k < |calls| :: SafeCall(states[k], calls[k], ino)
  }

  ghost predicate Unsynced(c: Cache, ino: Ino) {
    ino in c.entries ==> AllUnsynced(c.entries[ino])
  }

  lemma UnsyncedStays(c: Cache, call: Call, d: Cache, ino: Ino)
    requires Next(c, call, d) && LocalMutation(call) && Unsynced(c, ino)
    ensures Unsynced(d, ino) && SafeCall(c, call, ino)
  {
    hide EntryDirty, Written, Punched, SafeChunk, NumChunks, CutChunk;
    match call
    case WriteAt(k, off, data, now) => WrittenShape(WriteBase(c, k, now), off, data, c.curGen + 1, now);
    case Truncate(_, _, _) =>
    case PunchHole(k, off, len, keepSize, now) =>
      if k in c.entries {
        PunchedShape(c.entries[k], off, len, keepSize, c.curGen + 1, now);
      }
  }

  lemma {:induction false} UnsyncedFrom(states: seq<Cache>, calls: seq<Call>, ino: Ino, n: nat)
    requires IsRun(states, calls) && LocalCalls(calls) && Unsynced(states[0], ino) && n <= |calls|
    ensures Unsynced(states[n], ino)
  {
    hide Next, Unsynced, SafeCall;
    if n > 0 {
      UnsyncedFrom(states, calls, ino, n - 1);
      UnsyncedStays(states[n - 1], calls[n - 1], states[n], ino);
    }
  }

  /** A file that is not cached, or of which nothing cached is clean, is safe in every run of local calls. */
  lemma UnsyncedRunIsSafe(states: seq<Cache>, calls: seq<Call>, ino: Ino)
    requires IsRun(states, calls) && LocalCalls(calls) && Unsynced(states[0], ino)
    ensures SafeRun(states, calls, ino)
  {
    hide Next, Unsynced, SafeCall;
    forall k | 0 <= k < |calls|
      ensures SafeCall(states[k], calls[k], ino)
    {
      UnsyncedFrom(states, calls, ino, k);
      UnsyncedStays(states[k], calls[k], states[k + 1], ino);
    }
  }

  lemma MutationTracks(c: Cache, call: Call, d: Cache, ino: Ino, flat: seq<Byte>)
    requires Next(c, call, d) && LocalMutation(call) && ino in c.entries && Tracks(c, ino, flat)
    requires SafeCall(c, call, ino)
    ensures Tracks(d, ino, if Mutates(call, ino) then FlatCall(flat, call) else flat)
  {
    hide Holds, Written, Truncated, Punched, EntryDirty, HoleSafe;
    if call.ino == ino {
      var e, gen := c.entries[ino], c.curGen + 1;
      match call
      case WriteAt(_, off, data, now) =>
        WrittenHolds(e, flat, off, data, gen, now);
      case Truncate(_, size, now) =>
        TruncatedHolds(e, flat, size, gen, now);
      case PunchHole(_, off, len, keepSize, now) =>
        PunchedHolds(e, flat, off, len, keepSize, gen, now);
    }
  }

  /** An unacknowledged size stays one. */
  lemma UnsyncedSizeKept(c: Cache, call: Call, d: Cache, ino: Ino)
    requires Next(c, call, d) && LocalMutation(call) && ino in c.entries && c.entries[ino].sizeGen != 0
    ensures ino in d.entries && d.entries[ino].sizeGen != 0
  {
    hide Written, Truncated, Punched, EntryDirty;
    if call.ino == ino {
      var e, gen := c.entries[ino], c.curGen + 1;
      match call
      case WriteAt(_, off, data, now) => WrittenShape(e, off, data, gen, now);
      case Truncate(_, size, now) => TruncatedShape(e, size, gen, now);
      case PunchHole(_, off, len, keepSize, now) => PunchedShape(e, off, len, keepSize, gen, now);
    }
  }

  lemma TruncatedShape(e: Entry, size: nat, gen: Gen, now: int)
    ensures Truncated(e, size, gen, now).sizeGen == gen && Truncated(e, size, gen, now).gen == gen
  {
  }

  /** A file the cache does not know starts empty, when it is written or truncated. */
  lemma MutationStarts(c: Cache, call: Call, d: Cache, ino: Ino)
    requires Next(c, call, d) && LocalMutation(call) && ino !in c.entries
    ensures ino in d.entries ==> Mutates(call, ino) && !call.PunchHole?
    ensures Tracks(d, ino, if Mutates(call, ino) then FlatCall([], call) else [])
  {
    hide Written, EntryDirty, Holds;
    match call
    case WriteAt(k, off, data, now) =>
      if k == ino {
        FreshHolds(0, 0, 0, now);
        WrittenHolds(WriteBase(c, ino, now), [], off, data, c.curGen + 1, now);
      }
    case Truncate(k, size, now) =>
      FreshHolds(size, c.curGen + 1, c.curGen + 1, now);
    case PunchHole(_, _, _, _, _) =>
  }

  lemma FreshHolds(size: nat, gen: Gen, sizeGen: Gen, now: int)
    ensures Holds(Fresh(size, DEFAULT_CHUNK_SIZE, gen, sizeGen, now), FlatFile.Truncate([], size))
            && FlatFile.Truncate([], 0) == []
  {
  }

  /** Over every run of writes, truncates and hole punches, a file holds for as long as it is cached exactly the flat
      file its own calls describe since it came in, whatever is done to other files between them. */
  lemma {:induction false} MutationsAreFlat(start: seq<Byte>, states: seq<Cache>, calls: seq<Call>, ino: Ino, n: nat)
    requires IsRun(states, calls) && LocalCalls(calls) && Tracks(states[0], ino, start) && n <= |calls|
    requires SafeRun(states, calls, ino)
    ensures Tracks(states[n], ino, FlatSince(start, states, calls, ino, n))
  {
    hide Tracks, Next, FlatCall, SafeCall;
    if n > 0 {
      MutationsAreFlat(start, states, calls, ino, n - 1);
      if ino in states[n - 1].entries {
        MutationTracks(states[n - 1], calls[n - 1], states[n], ino, FlatSince(start, states, calls, ino, n - 1));
      } else {
        MutationStarts(states[n - 1], calls[n - 1], states[n], ino);
      }
    }
  }

  /** So every GetRange hit is the slice of that flat file, and a chunk that is not cached is zero there. */
  lemma RangeAfterRun(start: seq<Byte>, states: seq<Cache>, calls: seq<Call>, ino: Ino, off: nat, len: int)
    requires IsRun(states, calls) && LocalCalls(calls) && Tracks(states[0], ino, start)
             && ino in states[|calls|].entries && SafeRun(states, calls, ino)
    ensures RangesAre(states[|calls|].entries[ino], FlatSince(start, states, calls, ino, |calls|), off, len)
  {
    hide Next, FlatSince, GetRange, FlatCall, Start, ChunkIndex, SafeRun;
    MutationsAreFlat(start, states, calls, ino, |calls|);
    var e, flat := states[|calls|].entries[ino], FlatSince(start, states, calls, ino, |calls|);
    GetRangeIsFlat(e, flat, off, len);
    forall p | 0 <= p < |flat| && ChunkIndex(Cs(e), p) !in e.chunks
      ensures flat[p] == 0
    {
      EntryByteIs(e, flat, p);
    }
  }

  ghost predicate RangesAre(e: Entry, flat: seq<Byte>, off: nat, len: int) {
    && (GetRange(e, off, len).Some? ==> GetRange(e, off, len).value == FlatFile.Read(flat, off, len))
    && forall p | 0 <= p < |flat| && ChunkIndex(Cs(e), p) !in e.chunks :: flat[p] == 0
  }

  // ----- files that stay -----

  /** A file leaves the cache only while it is clean, and only at a write that touches no chunk of it: another file's,
      or an empty one. */
  lemma LeavesOnlyClean(c: Cache, call: Call, d: Cache, ino: Ino)
    requires Next(c, call, d) && LocalMutation(call) && ino in c.entries && ino !in d.entries
    ensures call.WriteAt? && !Dirty(c.entries[ino]) && (call.ino != ino || call.data == [])
  {
    hide Written, EntryDirty;
    if call.WriteAt? && call.ino == ino {
      WriteDirties(c.entries[ino], call.off, call.data, c.curGen + 1, call.now);
    }
  }

  lemma WriteDirties(e: Entry, off: nat, data: seq<Byte>, gen: Gen, now: int)
    ensures data != [] || Dirty(e) ==> Dirty(Written(e, off, data, gen, now))
  {
    var f := Written(e, off, data, gen, now);
    if data != [] {
      FirstTouched(Cs(e), off, |data|);
      var i := ChunkIndex(Cs(e), off);
      assert i in f.dirty.Keys;
    } else if |e.dirty| > 0 {
      var i :| i in e.dirty;
      assert i in f.dirty.Keys;
    }
  }

  /** The file is not taken out of the cache, and a call of its own brings it in. */
  ghost predicate KeptStep(c: Cache, call: Call, d: Cache, ino: Ino) {
    ino in c.entries || Mutates(call, ino) ==> ino in d.entries
  }

  ghost predicate Kept(states: seq<Cache>, calls: seq<Call>, ino: Ino)
    requires |states| == |calls| + 1
  {
    forall k | 0 <= k < |calls| :: KeptStep(states[k], calls[k], states[k + 1], ino)
  }

  /** What every step of a run keeps it by: its own writes are not empty, no hole is punched in it before it came in,
      and it is dirty whenever another file is written. */
  ghost predicate Holding(c: Cache, call: Call, ino: Ino) {
    if Mutates(call, ino) then (call.WriteAt? ==> call.data != []) && (call.PunchHole? ==> ino in c.entries)
    else ino in c.entries && call.WriteAt? ==> Dirty(c.entries[ino])
  }

  lemma HoldingKeeps(c: Cache, call: Call, d: Cache, ino: Ino)
    requires Next(c, call, d) && LocalMutation(call) && Holding(c, call, ino)
    ensures KeptStep(c, call, d, ino)
  {
    hide Written, EntryDirty, Dirty;
    if ino in c.entries && ino !in d.entries {
      LeavesOnlyClean(c, call, d, ino);
    }
    if call.WriteAt? && call.ino == ino {
      WriteDirties(WriteBase(c, ino, call.now), call.off, call.data, c.curGen + 1, call.now);
    }
  }

  /** While it is kept, what it holds is the flat file of all its calls. */
  lemma {:induction false} KeptIsWhole(start: seq<Byte>, states: seq<Cache>, calls: seq<Call>, ino: Ino, n: nat)
    requires IsRun(states, calls) && n <= |calls| && Kept(states, calls, ino)
             && (ino !in states[0].entries ==> start == [])
    ensures FlatSince(start, states, calls, ino, n) == FlatAfter(start, calls, ino, n)
    ensures ino !in states[n].entries ==> FlatAfter(start, calls, ino, n) == []
  {
    hide Next, FlatCall;
    if n > 0 {
      KeptIsWhole(start, states, calls, ino, n - 1);
      assert KeptStep(states[n - 1], calls[n - 1], states[n], ino);
    }
  }

  /** So every hit is the slice of the flat file of all its calls, whether it was cached at the start or not. */
  lemma RangeOfKept(start: seq<Byte>, states: seq<Cache>, calls: seq<Call>, ino: Ino, off: nat, len: int)
    requires IsRun(states, calls) && LocalCalls(calls) && Tracks(states[0], ino, start)
             && (ino !in states[0].entries ==> start == []) && SafeRun(states, calls, ino)
    requires Kept(states, calls, ino)
    ensures ino in states[|calls|].entries ==>
              RangesAre(states[|calls|].entries[ino], FlatAfter(start, calls, ino, |calls|), off, len)
    ensures ino !in states[|calls|].entries ==> FlatAfter(start, calls, ino, |calls|) == []
  {
    hide Next, Tracks, RangesAre, FlatSince, FlatAfter, SafeRun;
    KeptIsWhole(start, states, calls, ino, |calls|);
    if ino in states[|calls|].entries {
      RangeAfterRun(start, states, calls, ino, off, len);
    }
  }

  /** So over every run in which each step holds on to it. */
  lemma RangeOfAll(start: seq<Byte>, states: seq<Cache>, calls: seq<Call>, ino: Ino, off: nat, len: int)
    requires IsRun(states, calls) && LocalCalls(calls) && Tracks(states[0], ino, start)
             && (ino !in states[0].entries ==> start == []) && SafeRun(states, calls, ino)
    requires forall k | 0 <= k < |calls| :: Holding(states[k], calls[k], ino)
    ensures ino in states[|calls|].entries ==>
              RangesAre(states[|calls|].entries[ino], FlatAfter(start, calls, ino, |calls|), off, len)
    ensures ino !in states[|calls|].entries ==> FlatAfter(start, calls, ino, |calls|) == []
  {
    hide Next, Tracks, Holding, RangesAre, FlatSince, FlatAfter, SafeRun;
    forall k | 0 <= k < |calls|
      ensures KeptStep(states[k], calls[k], states[k + 1], ino)
    {
      HoldingKeeps(states[k], calls[k], states[k + 1], ino);
    }
    RangeOfKept(start, states, calls, ino, off, len);
  }

  /** A run of the file's own calls, none an empty write, the first no hole in a file that is not cached. */
  ghost predicate OwnCalls(states: seq<Cache>, calls: seq<Call>, ino: Ino)
    requires |states| == |calls| + 1
  {
    && (forall k | 0 <= k < |calls| :: Mutates(calls[k], ino) && (calls[k].WriteAt? ==> calls[k].data != []))
    && (ino in states[0].entries || calls == [] || !calls[0].PunchHole?)
  }

  lemma {:induction false} OwnCallsStay(states: seq<Cache>, calls: seq<Call>, ino: Ino, k: nat)
    requires IsRun(states, calls) && OwnCalls(states, calls, ino) && k < |calls|
    ensures Holding(states[k], calls[k], ino) && ino in states[k + 1].entries
  {
    hide Next, Dirty;
    if k > 0 {
      OwnCallsStay(states, calls, ino, k - 1);
    }
    HoldingKeeps(states[k], calls[k], states[k + 1], ino);
  }

  /** So always when only the file itself is called: it stays, and reads as the flat file of its calls. */
  lemma OwnRunIsFlat(start: seq<Byte>, states: seq<Cache>, calls: seq<Call>, ino: Ino, off: nat, len: int)
    requires IsRun(states, calls) && OwnCalls(states, calls, ino) && calls != []
    requires Tracks(states[0], ino, start) && (ino !in states[0].entries ==> start == []) && SafeRun(states, calls, ino)
    ensures ino in states[|calls|].entries
    ensures RangesAre(states[|calls|].entries[ino], FlatAfter(start, calls, ino, |calls|), off, len)
  {
    hide Next, Tracks, RangesAre, FlatAfter, SafeRun;
    forall k | 0 <= k < |calls|
      ensures Holding(states[k], calls[k], ino)
    {
      OwnCallsStay(states, calls, ino, k);
    }
    OwnCallsStay(states, calls, ino, |calls| - 1);
    RangeOfAll(start, states, calls, ino, off, len);
  }

  /** With an unacknowledged size it stays whatever is written besides. */
  lemma {:induction false} UnsyncedSizeStays(states: seq<Cache>, calls: seq<Call>, ino: Ino, n: nat)
    requires IsRun(states, calls) && LocalCalls(calls) && n <= |calls|
    requires ino in states[0].entries && states[0].entries[ino].sizeGen != 0
    ensures ino in states[n].entries && states[n].entries[ino].sizeGen != 0
  {
    hide Next;
    if n > 0 {
      UnsyncedSizeStays(states, calls, ino, n - 1);
      UnsyncedSizeKept(states[n - 1], calls[n - 1], states[n], ino);
    }
  }

  // ----- a file written, punched and written -----

  lemma WholeChunkWritten(data: seq<Byte>, now: int)
    requires |data| == DEFAULT_CHUNK_SIZE
    ensures var e := Written(Fresh(0, DEFAULT_CHUNK_SIZE, 0, 0, now), 0, data, 1, now);
            e.size == DEFAULT_CHUNK_SIZE && Cs(e) == DEFAULT_CHUNK_SIZE && e.chunks.Keys == {0}
            && e.dirty == map[0 := 1] && e.sizeGen == 0
  {
    var cs := DEFAULT_CHUNK_SIZE;
    assert Start(cs, 1) == cs;
    IndexUnique(cs, 0, cs - 1);
    FirstTouched(cs, 0, cs);
    var e := Written(Fresh(0, cs, 0, 0, now), 0, data, 1, now);
    forall i: nat | Touches(cs, 0, cs, i)
      ensures i == 0
    {
      StartMonotone(cs, 1, i);
    }
    assert e.dirty.Keys == {0};
  }

  lemma OneByteReads(b: Byte, gen: Gen, now: int)
    ensures GetRange(Written(Fresh(0, DEFAULT_CHUNK_SIZE, 0, 0, now), 0, [b], gen, now), 0, 0) == Some([b])
  {
    hide Written, EntryByte;
    var fresh0 := Fresh(0, DEFAULT_CHUNK_SIZE, 0, 0, now);
    var e := Written(fresh0, 0, [b], gen, now);
    FreshHolds(0, 0, 0, now);
    WrittenHolds(fresh0, [], 0, [b], gen, now);
    WrittenShape(fresh0, 0, [b], gen, now);
    WrittenChunkOf(fresh0, 0, [b], gen, now, 0);
    assert FlatFile.Write([], 0, [b]) == [b];
    FirstTouched(DEFAULT_CHUNK_SIZE, 0, 1);
    IndexUnique(DEFAULT_CHUNK_SIZE, 0, 0);
    GetRangeIsFlat(e, [b], 0, 0);
  }

  // ----- generations -----

  /** No generation in the cache is ahead of the cache-wide one. */
  ghost predicate GensOk(c: Cache) {
    forall k | k in c.entries :: EntryGensOk(c.entries[k], c.curGen)
  }

  /** A fill carries a generation the cache handed out, so one that is not ahead of it. */
  predicate Issued(c: Cache, call: Call) {
    call.PutChunk? ==> call.gen <= c.curGen
  }

  ghost predicate EntryGensOk(e: Entry, gen: Gen) {
    e.gen <= gen && forall i | i in e.dirty :: e.dirty[i] <= gen
  }

  lemma GensKept(c: Cache, call: Call, d: Cache)
    requires GensOk(c) && Issued(c, call) && Next(c, call, d)
    ensures GensOk(d) && c.curGen <= d.curGen
  {
    hide EntryDirty, Written, Truncated, Punched, EntryGensOk, TotalDirty, FillRefused;
    match call
    case WriteAt(ino, off, data, now) => WrittenGens(c, ino, off, data, now);
    case Truncate(ino, size, now) => TruncatedGens(c, ino, size, now);
    case PunchHole(ino, off, len, keepSize, now) => PunchedGens(c, ino, off, len, keepSize, now);
    case _ => OtherGens(c, call, d);
  }

  lemma OtherGens(c: Cache, call: Call, d: Cache)
    requires GensOk(c) && Issued(c, call) && Next(c, call, d) && !LocalMutation(call)
    ensures GensOk(d) && c.curGen == d.curGen
  {
    hide EntryDirty, TotalDirty, FillRefused, Start, ChunkIndex;
  }

  lemma WrittenGens(c: Cache, ino: Ino, off: nat, data: seq<Byte>, now: int)
    requires GensOk(c)
    ensures GensOk(AfterWrite(c, ino, off, data, now))
  {
    hide EntryDirty, WrittenChunk, TouchedChunks;
  }

  lemma TruncatedGens(c: Cache, ino: Ino, size: nat, now: int)
    requires GensOk(c)
    ensures GensOk(AfterTruncate(c, ino, size, now))
  {
    hide EntryDirty, CutChunk, NumChunks;
  }

  lemma PunchedGens(c: Cache, ino: Ino, off: nat, len: nat, keepSize: bool, now: int)
    requires GensOk(c)
    ensures GensOk(AfterPunch(c, ino, off, len, keepSize, now))
  {
    hide EntryDirty, HoleChunk, HoleDrops, Covers;
  }

  /** Once the generation in force for an inode has reached `floor`, no call takes it back below. */
  lemma EffectiveRises(c: Cache, call: Call, d: Cache, ino: Ino, floor: Gen)
    requires GensOk(c) && Issued(c, call) && Next(c, call, d)
    requires floor <= Effective(c, ino)
    ensures floor <= Effective(d, ino)
  {
    hide EntryDirty, WrittenChunk, CutChunk, HoleChunk, Start, ChunkIndex;
  }

  /** A local mutation of an inode puts a generation in force that was never handed out before. */
  lemma MutationRaises(c: Cache, call: Call, d: Cache, ino: Ino)
    requires GensOk(c) && Next(c, call, d) && Mutates(call, ino)
    ensures Effective(d, ino) >= c.curGen + 1
  {
    hide EntryDirty, WrittenChunk, CutChunk, HoleChunk, Start, ChunkIndex;
  }

  /** Whatever happens between, a fill whose generation was read before a local mutation of its inode changes
      nothing once the mutation has happened: `read` is the state the generation was read in, `calls[m]` the
      mutation, `n` the state the fill arrives in. */
  lemma StaleFillChangesNothing(states: seq<Cache>, calls: seq<Call>, read: nat, m: nat, n: nat, fill: Call, d: Cache)
    requires IsRun(states, calls) && GensOk(states[0])
    requires forall k :: 0 <= k < |calls| ==> Issued(states[k], calls[k])
    requires read <= m < n <= |calls| && fill.PutChunk? && Mutates(calls[m], fill.ino)
    requires fill.gen == Effective(states[read], fill.ino) && Next(states[n], fill, d)
    ensures d == states[n]
  {
    hide Next, Start, ChunkIndex, GensOk;
    RunKeepsGens(states, calls);
    assert Effective(states[read], fill.ino) <= states[read].curGen by { EffectiveIssued(states[read], fill.ino); }
    GenRises(states, calls, read, m);
    assert Next(states[m], calls[m], states[m + 1]);
    MutationRaises(states[m], calls[m], states[m + 1], fill.ino);
    var k := m + 1;
    while k < n
      invariant m + 1 <= k <= n
      invariant states[m].curGen + 1 <= Effective(states[k], fill.ino)
    {
      assert Next(states[k], calls[k], states[k + 1]);
      EffectiveRises(states[k], calls[k], states[k + 1], fill.ino, states[m].curGen + 1);
      k := k + 1;
    }
    RefusedFill(states[n], fill, d);
  }

  lemma RefusedFill(c: Cache, fill: Call, d: Cache)
    requires fill.PutChunk? && fill.gen < Effective(c, fill.ino) && Next(c, fill, d)
    ensures d == c
  {
  }

  lemma EffectiveIssued(c: Cache, ino: Ino)
    requires GensOk(c)
    ensures Effective(c, ino) <= c.curGen
  {
  }

  lemma RunKeepsGens(states: seq<Cache>, calls: seq<Call>)
    requires IsRun(states, calls) && GensOk(states[0])
    requires forall k :: 0 <= k < |calls| ==> Issued(states[k], calls[k])
    ensures forall k :: 0 <= k <= |calls| ==> GensOk(states[k])
    ensures forall k :: 0 <= k < |calls| ==> states[k].curGen <= states[k + 1].curGen
  {
    hide Next, GensOk;
    var n := 0;
    while n < |calls|
      invariant 0 <= n <= |calls|
      invariant forall k :: 0 <= k <= n ==> GensOk(states[k])
      invariant forall k :: 0 <= k < n ==> states[k].curGen <= states[k + 1].curGen
    {
      GensKept(states[n], calls[n], states[n + 1]);
      n := n + 1;
    }
  }

  lemma {:induction false} GenRises(states: seq<Cache>, calls: seq<Call>, i: nat, j: nat)
    requires |states| == |calls| + 1 && i <= j < |states|
    requires forall k :: 0 <= k < |calls| ==> states[k].curGen <= states[k + 1].curGen
    ensures states[i].curGen <= states[j].curGen
    decreases j - i
  {
    if i < j {
      GenRises(states, calls, i + 1, j);
    }
  }

  // ----- dirty data -----

  /** Chunk `i` of `ino` is dirty with these bytes and this stamp. */
  predicate DirtyChunk(c: Cache, ino: Ino, i: nat, bytes: seq<Byte>, gen: Gen) {
    && ino in c.entries && i in c.entries[ino].dirty && i in c.entries[ino].chunks
    && c.entries[ino].chunks[i] == bytes && c.entries[ino].dirty[i] == gen
  }

  /** The calls that may touch a dirty chunk: its own file's mutations and removal, and its own acknowledgement. */
  predicate MayTouch(call: Call, ino: Ino, i: nat) {
    || Mutates(call, ino)
    || (call.MarkChunkClean? && call.ino == ino && call.index == i)
    || (call.Invalidate? && call.ino == ino)
    || call.Clear?
  }

  /** No fill, eviction or invalidation, and no call about another file, alters or removes a dirty chunk. */
  lemma DirtyChunkSurvives(c: Cache, call: Call, d: Cache, ino: Ino, i: nat, bytes: seq<Byte>, gen: Gen)
    requires Next(c, call, d) && DirtyChunk(c, ino, i, bytes, gen) && !MayTouch(call, ino, i)
    ensures DirtyChunk(d, ino, i, bytes, gen)
  {
    hide EntryDirty, Written, Truncated, Punched, Start, ChunkIndex;
    HasDirty(c.entries[ino], i);
  }

  lemma HasDirty(e: Entry, i: nat)
    requires i in e.dirty
    ensures |e.dirty| > 0 && Dirty(e)
  {
    assert i in e.dirty.Keys;
  }

  /** dirtyBytes is the total length of the dirty chunks, and every dirty chunk is there. */
  ghost predicate CountOk(c: Cache) {
    && c.dirtyBytes == TotalDirty(c.entries)
    && forall k | k in c.entries :: c.entries[k].dirty.Keys <= c.entries[k].chunks.Keys
  }

  lemma CleanCountsNothing(e: Entry)
    requires !Dirty(e)
    ensures EntryDirty(e) == 0
  {
    assert e.dirty.Keys == {};
    assert DirtyLens(e) == map[];
  }

  lemma CountUpdate(entries: map<Ino, Entry>, ino: Ino, f: Entry)
    ensures TotalDirty(entries[ino := f]) ==
            TotalDirty(entries) - (if ino in entries then EntryDirty(entries[ino]) else 0) + EntryDirty(f)
  {
    hide EntryDirty;
    assert DirtyPerEntry(entries[ino := f]) == DirtyPerEntry(entries)[ino := EntryDirty(f)];
    SumUpdate(DirtyPerEntry(entries), ino, EntryDirty(f));
  }

  lemma CountDrop(entries: map<Ino, Entry>, ino: Ino)
    ensures TotalDirty(entries - {ino}) == TotalDirty(entries) - if ino in entries then EntryDirty(entries[ino]) else 0
  {
    hide EntryDirty;
    assert DirtyPerEntry(entries - {ino}) == DirtyPerEntry(entries) - {ino};
    SumDrop(DirtyPerEntry(entries), ino);
  }

  /** Losing clean entries changes no count. */
  lemma {:induction false} CountWithoutClean(entries: map<Ino, Entry>, kept: map<Ino, Entry>)
    requires kept.Keys <= entries.Keys && forall k | k in kept :: kept[k] == entries[k]
    requires forall k | k in entries && k !in kept :: !Dirty(entries[k])
    ensures TotalDirty(kept) == TotalDirty(entries)
    decreases |entries|
  {
    hide EntryDirty, TotalDirty, Dirty;
    if k :| k in entries && k !in kept {
      CountDrop(entries, k);
      CleanCountsNothing(entries[k]);
      Shrinks(entries, k);
      CountWithoutClean(entries - {k}, kept);
    } else {
      assert kept.Keys == entries.Keys;
      assert kept == entries;
    }
  }

  lemma EvictedCount(c: Cache, d: Cache)
    requires CountOk(c) && Evicted(c, d)
    ensures CountOk(d)
  {
    hide TotalDirty;
    CountWithoutClean(c.entries, d.entries);
  }

  /** Replacing one entry and recounting its dirty bytes keeps the total right. */
  lemma RecountOk(c: Cache, ino: Ino, f: Entry, gen: Gen)
    requires CountOk(c) && f.dirty.Keys <= f.chunks.Keys
    ensures CountOk(Cache(c.entries[ino := f], Recounted(c, ino, f), gen))
  {
    hide TotalDirty, EntryDirty;
    CountUpdate(c.entries, ino, f);
  }

  /** Entries whose dirty chunks agree count the same. */
  lemma SameDirty(e: Entry, f: Entry)
    requires e.dirty.Keys == f.dirty.Keys && forall i | i in e.dirty :: ChunkAt(e, i) == ChunkAt(f, i)
    ensures EntryDirty(e) == EntryDirty(f)
  {
    assert DirtyLens(e) == DirtyLens(f);
  }

  lemma AcknowledgedCount(c: Cache, ino: Ino, index: nat, gen: Gen)
    requires CountOk(c)
    ensures CountOk(Acknowledged(c, ino, index, gen))
  {
    hide TotalDirty;
    if ino in c.entries && index in c.entries[ino].dirty && c.entries[ino].dirty[index] <= gen {
      var e := c.entries[ino];
      var f := e.(dirty := e.dirty - {index});
      assert DirtyLens(f) == DirtyLens(e) - {index};
      SumDrop(DirtyLens(e), index);
      CountUpdate(c.entries, ino, f);
    }
  }

  /** Every call keeps dirtyBytes equal to the total length of the dirty chunks. */
  lemma CountKept(c: Cache, call: Call, d: Cache)
    requires CountOk(c) && Next(c, call, d)
    ensures CountOk(d)
  {
    hide TotalDirty, EntryDirty, Written, Truncated, Punched, Filled, CountOk, Evicted;
    match call
    case WriteAt(ino, off, data, now) =>
      var f := Written(WriteBase(c, ino, now), off, data, c.curGen + 1, now);
      MutatedKeys(c, ino, off, data, now);
      RecountOk(c, ino, f, c.curGen + 1);
      EvictedCount(AfterWrite(c, ino, off, data, now), d);
    case Truncate(ino, size, now) => TruncateCount(c, ino, size, now);
    case PunchHole(ino, off, len, keepSize, now) => PunchCount(c, ino, off, len, keepSize, now);
    case PutChunk(ino, index, chunkSize, total, bytes, gen, now) => FillCount(c, call, d);
    case Put(ino, whole, now) => PutCount(c, call, d);
    case Touch(ino, now) =>
      if ino in c.entries {
        var f := c.entries[ino].(lastRead := now);
        SameDirty(c.entries[ino], f);
        KeysOk(c, ino);
        RecountOk(c, ino, f, c.curGen);
      }
    case MarkChunkClean(ino, index, gen) => AcknowledgedCount(c, ino, index, gen);
    case MarkSizeClean(ino, gen) =>
      if ino in c.entries {
        var f := c.entries[ino].(sizeGen := 0);
        SameDirty(c.entries[ino], f);
        KeysOk(c, ino);
        RecountOk(c, ino, f, c.curGen);
      }
    case Invalidate(ino) => WithoutCount(c, ino);
    case InvalidateIfNotDirty(ino) => CleanCount(c, d);
    case InvalidateAllClean => CleanCount(c, d);
    case Clear => ClearCount(c);
  }

  lemma KeysOk(c: Cache, ino: Ino)
    requires CountOk(c) && ino in c.entries
    ensures c.entries[ino].dirty.Keys <= c.entries[ino].chunks.Keys
  {
  }

  lemma MutatedKeys(c: Cache, ino: Ino, off: nat, data: seq<Byte>, now: int)
    requires CountOk(c)
    ensures var f := Written(WriteBase(c, ino, now), off, data, c.curGen + 1, now); f.dirty.Keys <= f.chunks.Keys
  {
    hide TotalDirty;
  }

  lemma TruncateCount(c: Cache, ino: Ino, size: nat, now: int)
    requires CountOk(c)
    ensures CountOk(AfterTruncate(c, ino, size, now))
  {
    hide TotalDirty, EntryDirty, CutChunk;
    var gen := c.curGen + 1;
    RecountOk(c, ino, if ino in c.entries then Truncated(c.entries[ino], size, gen, now)
        else Fresh(size, DEFAULT_CHUNK_SIZE, gen, gen, now), gen);
  }

  lemma PunchCount(c: Cache, ino: Ino, off: nat, len: nat, keepSize: bool, now: int)
    requires CountOk(c)
    ensures CountOk(AfterPunch(c, ino, off, len, keepSize, now))
  {
    hide TotalDirty, EntryDirty, HoleChunk;
    if ino in c.entries {
      RecountOk(c, ino, Punched(c.entries[ino], off, len, keepSize, c.curGen + 1, now), c.curGen + 1);
    }
  }

  lemma FillCount(c: Cache, call: Call, d: Cache)
    requires CountOk(c) && call.PutChunk? && Next(c, call, d)
    ensures CountOk(d)
  {
    hide TotalDirty, EntryDirty, Filled, Evicted, FillRefused, CountOk;
    if d != c && !FillRefused(c, call.ino, call.index, call.chunkSize, call.gen) {
      var ino, e := call.ino, FillBase(c, call.ino, call.chunkSize, call.total, call.gen, call.now);
      var start := c.(entries := c.entries[ino := e]);
      FillBaseCount(c, ino, call.chunkSize, call.total, call.gen, call.now);
      var f := Filled(e, call.index, call.chunkSize, call.total, call.bytes, ino in c.entries
              && Dirty(c.entries[ino]), call.now);
      var mid :| Evicted(start, mid) && d == if ino in mid.entries then mid.(entries := mid.entries[ino := f]) else mid;
      EvictedCount(start, mid);
      if ino in mid.entries {
        EvictedSame(start, mid, ino);
        FilledSame(c, call);
        KeysOk(mid, ino);
        RecountOk(mid, ino, f, mid.curGen);
      }
    }
  }

  lemma FillBaseCount(c: Cache, ino: Ino, chunkSize: nat, total: nat, gen: Gen, now: int)
    requires CountOk(c)
    ensures CountOk(c.(entries := c.entries[ino := FillBase(c, ino, chunkSize, total, gen, now)]))
  {
    hide TotalDirty;
    var e := FillBase(c, ino, chunkSize, total, gen, now);
    if ino in c.entries {
      assert c.entries[ino := e] == c.entries;
    } else {
      CleanCountsNothing(e);
      CountUpdate(c.entries, ino, e);
    }
  }

  lemma EvictedSame(c: Cache, d: Cache, ino: Ino)
    requires Evicted(c, d) && ino in d.entries
    ensures ino in c.entries && d.entries[ino] == c.entries[ino]
  {
  }

  lemma FilledSame(c: Cache, call: Call)
    requires call.PutChunk? && !FillRefused(c, call.ino, call.index, call.chunkSize, call.gen)
    ensures var e := FillBase(c, call.ino, call.chunkSize, call.total, call.gen, call.now);
            var f := Filled(e, call.index, call.chunkSize, call.total, call.bytes, call.ino in c.entries
                    && Dirty(c.entries[call.ino]), call.now);
            EntryDirty(f) == EntryDirty(e) && f.dirty == e.dirty && f.chunks.Keys == e.chunks.Keys + {call.index}
  {
    hide EntryDirty;
    var e := FillBase(c, call.ino, call.chunkSize, call.total, call.gen, call.now);
    var f := Filled(e, call.index, call.chunkSize, call.total, call.bytes, call.ino in c.entries
            && Dirty(c.entries[call.ino]), call.now);
    SameDirty(e, f);
  }

  lemma PutCount(c: Cache, call: Call, d: Cache)
    requires CountOk(c) && call.Put? && Next(c, call, d)
    ensures CountOk(d)
  {
    hide TotalDirty, EntryDirty, WholeEntry, Evicted, CountOk;
    var ino := call.ino;
    if !(ino in c.entries && Dirty(c.entries[ino])) {
      var start, f := c.(entries := c.entries - {ino}), WholeEntry(c, call.whole, call.now);
      var mid :| Evicted(start, mid) && d == mid.(entries := mid.entries[ino := f]);
      PutStart(c, ino, start);
      EvictedCount(start, mid);
      WholeIsClean(c, call.whole, call.now);
      NotEvictedBack(start, mid, ino);
      RecountOk(mid, ino, f, mid.curGen);
    }
  }

  lemma NotEvictedBack(c: Cache, d: Cache, ino: Ino)
    requires Evicted(c, d) && ino !in c.entries
    ensures ino !in d.entries
  {
  }

  lemma PutStart(c: Cache, ino: Ino, start: Cache)
    requires CountOk(c) && start == c.(entries := c.entries - {ino}) && (ino in c.entries ==> !Dirty(c.entries[ino]))
    ensures CountOk(start)
  {
    hide TotalDirty, EntryDirty;
    CountDrop(c.entries, ino);
    if ino in c.entries {
      CleanCountsNothing(c.entries[ino]);
    }
  }

  lemma WholeIsClean(c: Cache, whole: seq<Byte>, now: int)
    ensures EntryDirty(WholeEntry(c, whole, now)) == 0 && WholeEntry(c, whole, now).dirty == map[]
  {
    hide EntryDirty;
    CleanCountsNothing(WholeEntry(c, whole, now));
  }

  lemma WithoutCount(c: Cache, ino: Ino)
    requires CountOk(c)
    ensures CountOk(Without(c, ino))
  {
    hide TotalDirty, EntryDirty;
    CountDrop(c.entries, ino);
  }

  lemma CleanCount(c: Cache, d: Cache)
    requires CountOk(c) && d.dirtyBytes == c.dirtyBytes && d.entries.Keys <= c.entries.Keys
    requires forall k | k in d.entries :: d.entries[k] == c.entries[k]
    requires forall k | k in c.entries && k !in d.entries :: !Dirty(c.entries[k])
    ensures CountOk(d)
  {
    hide TotalDirty, EntryDirty;
    CountWithoutClean(c.entries, d.entries);
  }

  lemma ClearCount(c: Cache)
    ensures CountOk(Cache(map[], 0, c.curGen))
  {
    assert DirtyPerEntry(map[]) == map[];
  }

  // ----- writes, flush snapshots and acknowledgements -----

  predicate DirtyAt(c: Cache, ino: Ino, i: nat, gen: Gen) {
    ino in c.entries && i in c.entries[ino].dirty && c.entries[ino].dirty[i] == gen
  }

  predicate WritesChunk(c: Cache, call: Call, ino: Ino, i: nat) {
    && call.WriteAt? && call.ino == ino
    && i in TouchedChunks(Cs(WriteBase(c, ino, call.now)), call.off, |call.data|)
  }

  /** The call drops the chunk's unacknowledged bytes because the file no longer has them, or on request. */
  predicate Discards(c: Cache, call: Call, ino: Ino, i: nat) {
    || call.Clear?
    || (call.Invalidate? && call.ino == ino)
    || (ino in c.entries && call.Truncate? && call.ino == ino && i >= NumChunks(Cs(c.entries[ino]), call.size))
    || (ino in c.entries && call.PunchHole? && call.ino == ino && i in c.entries[ino].chunks
        && call.off < HoleEnd(c.entries[ino], call.off, call.len, call.keepSize)
        && Covers(Cs(c.entries[ino]), call.off, HoleEnd(c.entries[ino], call.off, call.len, call.keepSize), i))
  }

  predicate Acknowledges(call: Call, ino: Ino, i: nat, gen: Gen) {
    call.MarkChunkClean? && call.ino == ino && call.index == i && gen <= call.gen
  }

  /** A dirty stamp outlives a call exactly when the call is no newer write, no discard and no acknowledgement
      of that stamp or a later one. */
  lemma StampSurvivesIff(c: Cache, call: Call, d: Cache, ino: Ino, i: nat, gen: Gen)
    requires GensOk(c) && DirtyAt(c, ino, i, gen) && Next(c, call, d)
    ensures DirtyAt(d, ino, i, gen) <==>
            !WritesChunk(c, call, ino, i) && !Discards(c, call, ino, i) && !Acknowledges(call, ino, i, gen)
  {
    hide EntryDirty, TotalDirty, Written, Truncated, Punched, TouchedChunks, NumChunks, Covers, Next, EntryGensOk;
    assert EntryGensOk(c.entries[ino], c.curGen);
    match call
    case WriteAt(_, _, _, _) => WriteSurvival(c, call, d, ino, i, gen);
    case Truncate(_, _, _) => TruncateSurvival(c, call, d, ino, i, gen);
    case PunchHole(_, _, _, _, _) => PunchSurvival(c, call, d, ino, i, gen);
    case _ => OtherSurvival(c, call, d, ino, i, gen);
  }

  lemma WriteSurvival(c: Cache, call: Call, d: Cache, ino: Ino, i: nat, gen: Gen)
    requires DirtyAt(c, ino, i, gen) && EntryGensOk(c.entries[ino], c.curGen) && Next(c, call, d) && call.WriteAt?
    ensures DirtyAt(d, ino, i, gen) <==> !WritesChunk(c, call, ino, i)
  {
    hide EntryDirty, TotalDirty, WrittenChunk, TouchedChunks;
    var e := AfterWrite(c, call.ino, call.off, call.data, call.now).entries[ino];
    assert i in e.dirty;
    HasDirty(e, i);
  }

  lemma TruncateSurvival(c: Cache, call: Call, d: Cache, ino: Ino, i: nat, gen: Gen)
    requires DirtyAt(c, ino, i, gen) && Next(c, call, d) && call.Truncate?
    ensures DirtyAt(d, ino, i, gen) <==> !Discards(c, call, ino, i)
  {
    hide EntryDirty, TotalDirty, CutChunk, NumChunks;
  }

  lemma PunchSurvival(c: Cache, call: Call, d: Cache, ino: Ino, i: nat, gen: Gen)
    requires DirtyAt(c, ino, i, gen) && Next(c, call, d) && call.PunchHole?
    ensures DirtyAt(d, ino, i, gen) <==> !Discards(c, call, ino, i)
  {
    hide EntryDirty, TotalDirty, HoleChunk, HoleDrops, Covers, Zeroed;
  }

  lemma OtherSurvival(c: Cache, call: Call, d: Cache, ino: Ino, i: nat, gen: Gen)
    requires DirtyAt(c, ino, i, gen) && Next(c, call, d) && !LocalMutation(call)
    ensures DirtyAt(d, ino, i, gen) <==> !Discards(c, call, ino, i) && !Acknowledges(call, ino, i, gen)
  {
    hide EntryDirty, TotalDirty, FillRefused, Filled, WholeEntry;
    HasDirty(c.entries[ino], i);
    if call.PutChunk? {
      FillSurvival(c, call, d, ino, i, gen);
    }
  }

  lemma FillSurvival(c: Cache, call: Call, d: Cache, ino: Ino, i: nat, gen: Gen)
    requires DirtyAt(c, ino, i, gen) && Dirty(c.entries[ino]) && Next(c, call, d) && call.PutChunk?
    ensures DirtyAt(d, ino, i, gen)
  {
    hide EntryDirty, TotalDirty, FillRefused;
  }

  lemma WriteStamps(c: Cache, call: Call, d: Cache, ino: Ino, i: nat)
    requires Next(c, call, d) && WritesChunk(c, call, ino, i)
    ensures DirtyAt(d, ino, i, c.curGen + 1)
  {
    hide EntryDirty, TotalDirty, WrittenChunk, TouchedChunks;
    var f := Written(WriteBase(c, ino, call.now), call.off, call.data, c.curGen + 1, call.now);
    HasDirty(f, i);
  }

  /** Every acknowledgement answers a flush snapshot: `taken[k]` is the state whose dirty chunks call `k`
      acknowledges. */
  ghost predicate Answers(states: seq<Cache>, calls: seq<Call>, taken: seq<nat>) {
    && |states| == |calls| + 1 && |taken| == |calls|
    && forall k | 0 <= k < |calls| && calls[k].MarkChunkClean? ::
         taken[k] <= k && DirtyAt(states[taken[k]], calls[k].ino, calls[k].index, calls[k].gen)
  }

  /** Over every interleaving, a write that no newer write or discard supersedes, and that no acknowledged
      snapshot was taken after, is still dirty under its own stamp. */
  lemma DirtyUntilAcknowledged(states: seq<Cache>, calls: seq<Call>, taken: seq<nat>, w: nat, n: nat, ino: Ino, i: nat)
    requires IsRun(states, calls) && GensOk(states[0]) && Answers(states, calls, taken)
    requires forall k :: 0 <= k < |calls| ==> Issued(states[k], calls[k])
    requires w < n <= |calls| && WritesChunk(states[w], calls[w], ino, i)
    requires forall k | w < k < n :: !WritesChunk(states[k], calls[k], ino, i) && !Discards(states[k], calls[k], ino, i)
    requires forall k | w < k < n && calls[k].MarkChunkClean? && calls[k].ino == ino && calls[k].index == i ::
               taken[k] <= w
    ensures DirtyAt(states[n], ino, i, states[w].curGen + 1)
  {
    hide Next, GensOk, WritesChunk, Discards, Answers, DirtyAt, Issued;
    RunKeepsGens(states, calls);
    var stamp := states[w].curGen + 1;
    WriteStamps(states[w], calls[w], states[w + 1], ino, i);
    var k := w + 1;
    while k < n
      invariant w < k <= n && DirtyAt(states[k], ino, i, stamp)
    {
      StampSurvivesIff(states[k], calls[k], states[k + 1], ino, i, stamp);
      if calls[k].MarkChunkClean? && calls[k].ino == ino && calls[k].index == i {
        EarlierSnapshot(states, calls, taken, w, k);
      }
      k := k + 1;
    }
  }

  lemma EarlierSnapshot(states: seq<Cache>, calls: seq<Call>, taken: seq<nat>, w: nat, k: nat)
    requires Answers(states, calls, taken) && w < k < |calls| && calls[k].MarkChunkClean? && taken[k] <= w
    requires forall j :: 0 <= j <= |calls| ==> GensOk(states[j])
    requires forall j :: 0 <= j < |calls| ==> states[j].curGen <= states[j + 1].curGen
    ensures calls[k].gen <= states[w].curGen
  {
    hide GensOk;
    StampIssued(states[taken[k]], calls[k].ino, calls[k].index, calls[k].gen);
    GenRises(states, calls, taken[k], w);
  }

  lemma StampIssued(c: Cache, ino: Ino, i: nat, gen: Gen)
    requires GensOk(c) && DirtyAt(c, ino, i, gen)
    ensures gen <= c.curGen
  {
    assert EntryGensOk(c.entries[ino], c.curGen);
  }

  /** Since the snapshot with stamp `gen` and these bytes, the chunk is either unchanged, newer, or not dirty. */
  predicate SinceSnapshot(c: Cache, ino: Ino, i: nat, gen: Gen, bytes: seq<Byte>) {
    ino in c.entries && i in c.entries[ino].dirty ==>
      c.entries[ino].dirty[i] > gen || (c.entries[ino].dirty[i] == gen && ChunkAt(c.entries[ino], i) == bytes)
  }

  lemma SnapshotStep(c: Cache, call: Call, d: Cache, ino: Ino, i: nat, gen: Gen, bytes: seq<Byte>)
    requires gen <= c.curGen && Next(c, call, d) && SinceSnapshot(c, ino, i, gen, bytes)
    requires !((call.Truncate? || call.PunchHole?) && call.ino == ino)
    ensures SinceSnapshot(d, ino, i, gen, bytes)
  {
    hide EntryDirty, TotalDirty, WrittenChunk, Truncated, Punched, TouchedChunks, NumChunks;
  }

  /** An acknowledgement never cleans bytes the controller was not sent: if it clears a stamp, the chunk still
      holds what the snapshot held. Truncations and holes between are sent on their own. */
  lemma AcknowledgedWasSent(states: seq<Cache>, calls: seq<Call>, taken: seq<nat>, n: nat, stamp: Gen)
    requires IsRun(states, calls) && GensOk(states[0]) && Answers(states, calls, taken) && n < |calls|
    requires forall k :: 0 <= k < |calls| ==> Issued(states[k], calls[k])
    requires calls[n].MarkChunkClean? && stamp <= calls[n].gen
    requires DirtyAt(states[n], calls[n].ino, calls[n].index, stamp)
    requires forall k | taken[n] <= k < n ::
               !((calls[k].Truncate? || calls[k].PunchHole?) && calls[k].ino == calls[n].ino)
    ensures stamp == calls[n].gen
    ensures ChunkAt(states[n].entries[calls[n].ino], calls[n].index) ==
            ChunkAt(states[taken[n]].entries[calls[n].ino], calls[n].index)
  {
    hide Next, GensOk;
    RunKeepsGens(states, calls);
    var j, ino, i, gen := taken[n], calls[n].ino, calls[n].index, calls[n].gen;
    var bytes := ChunkAt(states[j].entries[ino], i);
    StampIssued(states[j], ino, i, gen);
    var k := j;
    while k < n
      invariant j <= k <= n && SinceSnapshot(states[k], ino, i, gen, bytes)
    {
      GenRises(states, calls, j, k);
      assert Next(states[k], calls[k], states[k + 1]);
      SnapshotStep(states[k], calls[k], states[k + 1], ino, i, gen, bytes);
      k := k + 1;
    }
  }
}
