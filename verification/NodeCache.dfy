/** The node's write-back cache as the daemon runs it: a map of entries mutated in place, with running byte
    counts. Every method takes the model from one state to a next state, count included. */
module NodeCache {
  import opened Bytes
  import opened ChunkedWrite
  import opened Sums
  import opened NodeCacheModel
  import opened NodeCacheProofs
  import opened NodeCacheBytes
  import opened Options

  // ----- the dirty bytes of one entry while it is being changed -----

  ghost function DirtySum(chunks: map<nat, seq<Byte>>, dirty: map<nat, Gen>): int {
    Sum(Lens(chunks, dirty))
  }

  ghost function Lens(chunks: map<nat, seq<Byte>>, dirty: map<nat, Gen>): map<nat, int> {
    map i | i in dirty :: if i in chunks then |chunks[i]| else 0
  }

  lemma EntryDirtyIs(e: Entry)
    ensures EntryDirty(e) == DirtySum(e.chunks, e.dirty)
  {
    assert DirtyLens(e) == Lens(e.chunks, e.dirty);
  }

  lemma SumOfStamped(chunks: map<nat, seq<Byte>>, dirty: map<nat, Gen>, i: nat, c: seq<Byte>, gen: Gen)
    ensures DirtySum(chunks[i := c], dirty[i := gen]) ==
            DirtySum(chunks, dirty) - (if i in dirty && i in chunks then |chunks[i]| else 0) + |c|
  {
    assert Lens(chunks[i := c], dirty[i := gen]) == Lens(chunks, dirty)[i := |c|];
    SumUpdate(Lens(chunks, dirty), i, |c|);
  }

  lemma SumOfResized(chunks: map<nat, seq<Byte>>, dirty: map<nat, Gen>, i: nat, c: seq<Byte>)
    requires i in chunks
    ensures DirtySum(chunks[i := c], dirty) == DirtySum(chunks, dirty) + if i in dirty then |c| - |chunks[i]| else 0
  {
    if i in dirty {
      assert Lens(chunks[i := c], dirty) == Lens(chunks, dirty)[i := |c|];
      SumUpdate(Lens(chunks, dirty), i, |c|);
    } else {
      assert Lens(chunks[i := c], dirty) == Lens(chunks, dirty);
    }
  }

  lemma SumOfDropped(chunks: map<nat, seq<Byte>>, dirty: map<nat, Gen>, i: nat)
    ensures DirtySum(chunks - {i}, dirty - {i}) == DirtySum(chunks, dirty) - if i in dirty && i in chunks
            then |chunks[i]| else 0
    ensures i !in chunks ==> DirtySum(chunks, dirty - {i}) == DirtySum(chunks, dirty)
    ensures i !in dirty ==> DirtySum(chunks - {i}, dirty) == DirtySum(chunks, dirty)
  {
    assert Lens(chunks - {i}, dirty - {i}) == Lens(chunks, dirty) - {i};
    SumDrop(Lens(chunks, dirty), i);
    if i !in chunks {
      assert Lens(chunks, dirty - {i}) == Lens(chunks, dirty) - {i};
    }
    if i !in dirty {
      assert Lens(chunks - {i}, dirty) == Lens(chunks, dirty);
    }
  }

  // ----- loops over an entry's chunks, with `todo` still to visit -----

  function CutSoFar(e: Entry, size: nat, todo: set<nat>): map<nat, seq<Byte>> {
    map i | i in e.chunks && (i in todo || i < NumChunks(Cs(e), size)) ::
      if i in todo then e.chunks[i] else CutChunk(Cs(e), e.chunks[i], size, i)
  }

  function CutStamps(e: Entry, size: nat, todo: set<nat>): map<nat, Gen> {
    map i | i in e.dirty && !(i in e.chunks && i !in todo && i >= NumChunks(Cs(e), size)) :: e.dirty[i]
  }

  lemma CutStep(e: Entry, size: nat, todo: set<nat>, i: nat)
    requires i in todo && todo <= e.chunks.Keys
    ensures i >= NumChunks(Cs(e), size) ==>
              && CutSoFar(e, size, todo - {i}) == CutSoFar(e, size, todo) - {i}
              && CutStamps(e, size, todo - {i}) == CutStamps(e, size, todo) - {i}
    ensures i < NumChunks(Cs(e), size) ==>
              && CutSoFar(e, size, todo - {i}) == CutSoFar(e, size, todo)[i := CutChunk(Cs(e), e.chunks[i], size, i)]
              && CutStamps(e, size, todo - {i}) == CutStamps(e, size, todo)
  {
    hide NumChunks, CutChunk;
  }

  function HoleSoFar(e: Entry, off: nat, end: nat, todo: set<nat>): map<nat, seq<Byte>> {
    map i | i in e.chunks && (i in todo || !HoleDrops(e, off, end, i)) ::
      if i in todo then e.chunks[i] else HoleChunk(Cs(e), e.chunks[i], off, end, i)
  }

  function HoleStamps(e: Entry, off: nat, end: nat, todo: set<nat>): map<nat, Gen> {
    map i | i in e.dirty && !(i in e.chunks && i !in todo && Covers(Cs(e), off, end, i)) :: e.dirty[i]
  }

  lemma HoleStep(e: Entry, off: nat, end: nat, todo: set<nat>, i: nat)
    requires i in todo && todo <= e.chunks.Keys
    ensures HoleSoFar(e, off, end, todo - {i}) ==
            if HoleDrops(e, off, end, i) then HoleSoFar(e, off, end, todo) - {i}
            else HoleSoFar(e, off, end, todo)[i := HoleChunk(Cs(e), e.chunks[i], off, end, i)]
    ensures HoleStamps(e, off, end, todo - {i}) ==
            if Covers(Cs(e), off, end, i) then HoleStamps(e, off, end, todo) - {i} else HoleStamps(e, off, end, todo)
  {
    hide HoleDrops, HoleChunk, Covers;
  }

  function DirtyOr(entries: map<Ino, Entry>, todo: set<Ino>): map<Ino, Entry> {
    map k | k in entries && (k in todo || Dirty(entries[k])) :: entries[k]
  }

  lemma DirtyOrStep(entries: map<Ino, Entry>, todo: set<Ino>, k: Ino)
    requires k in todo && todo <= entries.Keys
    ensures DirtyOr(entries, todo - {k}) == if Dirty(entries[k]) then DirtyOr(entries, todo)
            else DirtyOr(entries, todo) - {k}
  {
    hide Dirty;
  }

  lemma PunchedIs(e: Entry, off: nat, len: nat, keepSize: bool, gen: Gen, now: int, data: seq<Byte>, chunks: map<nat,
                  seq<Byte>>, dirty: map<nat, Gen>)
    requires var grows := !keepSize && off + len > e.size;
             var size := if grows then off + len else e.size;
             var end := if keepSize && off + len > size then size else off + len;
             if end > off then data == Zeroed(e.data, off, end) && chunks == HoleSoFar(e, off, end, {})
                && dirty == HoleStamps(e, off, end, {})
             else data == e.data && chunks == e.chunks && dirty == e.dirty
    ensures var grows := !keepSize && off + len > e.size;
            Punched(e, off, len, keepSize, gen, now) ==
            e.(data := data, size := if grows then off + len else e.size, chunks := chunks, dirty := dirty,
               gen := gen, sizeGen := if grows then gen else e.sizeGen, lastRead := now)
  {
    hide HoleDrops, HoleChunk, Covers, Zeroed;
  }

  lemma FreshCount(e: Entry)
    requires e.chunks == map[] && e.dirty == map[]
    ensures EntryDirty(e) == 0
  {
    EntryDirtyIs(e);
    assert Lens(e.chunks, e.dirty) == map[];
  }

  lemma CutStampsStray(e: Entry, size: nat)
    ensures forall i | i in CutStamps(e, size, {}) && i >= NumChunks(Cs(e), size) :: i !in CutSoFar(e, size, {})
  {
    hide NumChunks, CutChunk;
  }

  lemma TruncatedIs(e: Entry, size: nat, gen: Gen, now: int, chunks: map<nat, seq<Byte>>, stamps: map<nat, Gen>,
                    dirty: map<nat, Gen>)
    requires chunks == CutSoFar(e, size, {}) && stamps == CutStamps(e, size, {})
    requires dirty == map i | i in stamps && i < NumChunks(Cs(e), size) :: stamps[i]
    ensures Truncated(e, size, gen, now) ==
            e.(data := if size < |e.data| then e.data[..size]
                else e.data, size := size, chunks := chunks, dirty := dirty, gen := gen, sizeGen := gen,
                    lastRead := now)
  {
    hide NumChunks, CutChunk;
    var t := Truncated(e, size, gen, now);
    assert t.chunks == chunks;
    assert t.dirty == dirty;
  }

  function Of(chunks: map<nat, seq<Byte>>, todo: set<nat>): map<nat, seq<Byte>> {
    map i | i in chunks && i in todo :: chunks[i]
  }

  lemma SizedCount(max: int, c: Sized, call: Call, d: Sized)
    requires CountOk(c.cache) && SizedNext(max, c, call, d)
    ensures CountOk(d.cache)
  {
    hide CountOk, SizedNext, Next;
    SizedIsNext(max, c, call, d);
    CountKept(c.cache, call, d.cache);
  }

  lemma PutRefused(max: int, c: Sized, ino: Ino, whole: seq<Byte>, now: int)
    requires ino in c.cache.entries && Dirty(c.cache.entries[ino])
    ensures SizedNext(max, c, Call.Put(ino, whole, now), c)
  {
  }

  lemma WholeSame(c: Cache, d: Cache, whole: seq<Byte>, now: int)
    requires c.curGen == d.curGen
    ensures WholeEntry(c, whole, now) == WholeEntry(d, whole, now)
  {
  }

  class NodeCache {
    var entries: map<Ino, Entry>
    const maxBytes: int
    var curBytes: int
    var dirtyBytes: int
    var curGen: Gen

    ghost function State(): Cache
      reads this
    {
      Cache(entries, dirtyBytes, curGen)
    }

    /** With the byte count. */
    ghost function Whole(): Sized
      reads this
    {
      Sized(State(), curBytes)
    }

    /** The dirty count is right and every dirty chunk is there. */
    ghost predicate Valid()
      reads this
    {
      CountOk(State())
    }

    constructor (maxBytes: int)
      ensures Valid() && Whole() == Sized(Cache(map[], 0, 0), 0)
      ensures this.maxBytes >= 1 && (maxBytes >= 1 ==> this.maxBytes == maxBytes)
    {
      this.maxBytes := if maxBytes <= 0 then 134217728 else maxBytes;
      entries, curBytes, dirtyBytes, curGen := map[], 0, 0, 0;
      new;
      ClearCount(State());
    }

    // ----- local mutations -----

    method WriteAt(ino: Ino, off: nat, data: seq<Byte>, now: int) returns (size: nat)
      requires Valid()
      modifies this
      ensures Valid() && SizedNext(maxBytes, old(Whole()), Call.WriteAt(ino, off, data, now), Whole())
      ensures size == Max(off + |data|, if ino in old(entries) then old(entries)[ino].size else 0)
    {
      hide EntryDirty, TotalDirty, WrittenChunk, Written, CountOk, TouchedChunks, Held, EvictedTo;
      curGen := curGen + 1;
      var e := if ino in entries then entries[ino] else Fresh(0, DEFAULT_CHUNK_SIZE, 0, 0, now);
      assert e == WriteBase(old(State()), ino, now);
      var chunks, dirty := WriteChunks(e, off, data, now);
      size := Max(off + |data|, e.size);
      var f := Entry([], size, Cs(e), chunks, dirty, curGen, e.sizeGen, now);
      assert f == Written(e, off, data, curGen, now) by { WrittenIs(e, off, data, curGen, now, f); }
      entries := entries[ino := f];
      EntryDirtyIs(f);
      EntryDirtyIs(e);
      if ino !in old(entries) {
        CleanCountsNothing(e);
      }
      NoneHeld();
      assert Whole() == Sized(AfterWrite(old(State()), ino, off, data, now), Resized(old(Whole()), ino, f));
      EvictIfNeeded(0);
      SizedCount(maxBytes, old(Whole()), Call.WriteAt(ino, off, data, now), Whole());
    }

    lemma WrittenIs(e: Entry, off: nat, data: seq<Byte>, gen: Gen, now: int, f: Entry)
      requires f == Entry([], Max(off + |data|, e.size), Cs(e), f.chunks, f.dirty, gen, e.sizeGen, now)
      requires f.chunks == Written(e, off, data, gen, now).chunks && f.dirty == Written(e, off, data, gen, now).dirty
      ensures f == Written(e, off, data, gen, now)
    {
    }

    /** The chunk loop of a write: each touched chunk is extended, overwritten and stamped. */
    method WriteChunks(e: Entry, off: nat, data: seq<Byte>, ghost now: int)
        returns (chunks: map<nat, seq<Byte>>, dirty: map<nat, Gen>)
      modifies `curBytes, `dirtyBytes
      ensures chunks == Written(e, off, data, curGen, now).chunks && dirty == Written(e, off, data, curGen, now).dirty
      ensures dirtyBytes == old(dirtyBytes) - DirtySum(e.chunks, e.dirty) + DirtySum(chunks, dirty)
      ensures curBytes == old(curBytes) - Held(e.chunks) + Held(chunks)
    {
      hide Start, ChunkIndex, WrittenChunk, DirtySum, Held, ExpectedLen, LastChunk;
      var cs, size := Cs(e), Max(off + |data|, e.size);
      var first, last := ChunkIndex(cs, off), LastChunk(cs, off, |data|);
      chunks, dirty := e.chunks, e.dirty;
      var i := first;
      while i <= last
        invariant first <= i && (i <= last + 1 || i == first)
        invariant forall k: nat :: k in chunks <==> k in e.chunks || first <= k < i
        invariant forall k: nat :: k in dirty <==> k in e.dirty || first <= k < i
        invariant forall k: nat | first <= k < i ::
                    Touches(cs, off, |data|, k) && chunks[k] == WrittenChunk(cs, ChunkAt(e, k), size, off, data, k)
                    && dirty[k] == curGen
        invariant forall k: nat | k in chunks && !(first <= k < i) :: chunks[k] == e.chunks[k]
        invariant forall k: nat | k in dirty && !(first <= k < i) :: dirty[k] == e.dirty[k]
        invariant dirtyBytes == old(dirtyBytes) - DirtySum(e.chunks, e.dirty) + DirtySum(chunks, dirty)
        invariant curBytes == old(curBytes) - Held(e.chunks) + Held(chunks)
        decreases last - i
      {
        assert Touches(cs, off, |data|, i);
        var was := if i in chunks then chunks[i] else [];
        assert was == ChunkAt(e, i);
        var wasDirty := if i in dirty then |was| else 0;
        var buf := WrittenChunk(cs, was, size, off, data, i);
        if |was| < ExpectedLen(cs, size, i) {
          curBytes := curBytes + ExpectedLen(cs, size, i) - |was|;
        }
        SumOfStamped(chunks, dirty, i, buf, curGen);
        WrittenChunkLength(cs, was, size, off, data, i);
        HeldUpdate(chunks, i, buf);
        chunks, dirty := chunks[i := buf], dirty[i := curGen];
        dirtyBytes := dirtyBytes + |buf| - wasDirty;
        i := i + 1;
      }
      forall k: nat
        ensures k in TouchedChunks(cs, off, |data|) <==> first <= k < i
      {
      }
    }

    method Truncate(ino: Ino, size: nat, now: int) returns (gen: Gen)
      requires Valid()
      modifies this
      ensures Valid() && SizedNext(maxBytes, old(Whole()), Call.Truncate(ino, size, now), Whole()) && gen == curGen
    {
      hide EntryDirty, TotalDirty, Truncated, CutSoFar, CountOk, NumChunks, DirtySum, Held;
      NoneHeld();
      curGen := curGen + 1;
      gen := curGen;
      if ino !in entries {
        var f := Fresh(size, DEFAULT_CHUNK_SIZE, gen, gen, now);
        entries := entries[ino := f];
        assert AfterTruncate(old(State()), ino, size, now).entries[ino] == f;
        FreshCount(f);
      } else {
        var e := entries[ino];
        var chunks, stamps := CutChunks(e, size);
        CutStampsStray(e, size);
        var dirty := CutStrayStamps(chunks, stamps, NumChunks(Cs(e), size));
        var data := e.data;
        if size < |data| {
          curBytes := curBytes - (|data| - size);
          data := data[..size];
        }
        var f := e.(data := data, size := size, chunks := chunks, dirty := dirty, gen := gen, sizeGen := gen,
                lastRead := now);
        TruncatedIs(e, size, gen, now, chunks, stamps, dirty);
        entries := entries[ino := f];
        EntryDirtyIs(f);
        EntryDirtyIs(e);
      }
      assert State() == AfterTruncate(old(State()), ino, size, now);
      TruncateCount(old(State()), ino, size, now);
    }

    /** The first loop of a truncate: chunks past the end go with their stamps, the last one is cut. */
    method CutChunks(e: Entry, size: nat) returns (chunks: map<nat, seq<Byte>>, dirty: map<nat, Gen>)
      modifies `curBytes, `dirtyBytes
      ensures chunks == CutSoFar(e, size, {}) && dirty == CutStamps(e, size, {})
      ensures dirtyBytes == old(dirtyBytes) - DirtySum(e.chunks, e.dirty) + DirtySum(chunks, dirty)
      ensures curBytes == old(curBytes) - Held(e.chunks) + Held(chunks)
    {
      hide Start, ChunkIndex, DirtySum, NumChunks, CutChunk, Held;
      var cs := Cs(e);
      var num := NumChunks(cs, size);
      chunks, dirty := e.chunks, e.dirty;
      var todo := e.chunks.Keys;
      while todo != {}
        invariant todo <= e.chunks.Keys && chunks == CutSoFar(e, size, todo) && dirty == CutStamps(e, size, todo)
        invariant dirtyBytes == old(dirtyBytes) - DirtySum(e.chunks, e.dirty) + DirtySum(chunks, dirty)
        invariant curBytes == old(curBytes) - Held(e.chunks) + Held(chunks)
        decreases |todo|
      {
        var idx :| idx in todo;
        var chunk := chunks[idx];
        CutStep(e, size, todo, idx);
        if idx >= num {
          SumOfDropped(chunks, dirty, idx);
          HeldDrop(chunks, idx);
          curBytes := curBytes - |chunk|;
          chunks := chunks - {idx};
          if idx in dirty {
            dirtyBytes := dirtyBytes - |chunk|;
            dirty := dirty - {idx};
          }
        } else {
          var kept := LastChunkCut(cs, chunk, size, num, idx);
          SumOfResized(chunks, dirty, idx, kept);
          HeldUpdate(chunks, idx, kept);
          if idx in dirty {
            dirtyBytes := dirtyBytes - (|chunk| - |kept|);
          }
          chunks := chunks[idx := kept];
        }
        todo := todo - {idx};
      }
    }

    /** The second loop of a truncate: stamps past the end that have no chunk. */
    static method CutStrayStamps(chunks: map<nat, seq<Byte>>, stamps: map<nat, Gen>, num: nat)
        returns (dirty: map<nat, Gen>)
      requires forall i | i in stamps && i >= num :: i !in chunks
      ensures dirty == map i | i in stamps && i < num :: stamps[i]
      ensures DirtySum(chunks, dirty) == DirtySum(chunks, stamps)
    {
      hide DirtySum;
      dirty := stamps;
      var todo := stamps.Keys;
      while todo != {}
        invariant todo <= stamps.Keys && dirty == map i | i in stamps && (i in todo || i < num) :: stamps[i]
        invariant DirtySum(chunks, dirty) == DirtySum(chunks, stamps)
        decreases |todo|
      {
        var idx :| idx in todo;
        if idx >= num {
          SumOfDropped(chunks, dirty, idx);
          dirty := dirty - {idx};
        }
        todo := todo - {idx};
      }
    }

    method LastChunkCut(cs: nat, chunk: seq<Byte>, size: nat, num: nat, idx: nat) returns (cut: seq<Byte>)
      requires cs > 0 && num == NumChunks(cs, size) && idx < num
      modifies `curBytes
      ensures cut == CutChunk(cs, chunk, size, idx) && curBytes == old(curBytes) - (|chunk| - |cut|)
    {
      cut := chunk;
      NumChunksBounds(cs, size, idx);
      if idx == num - 1 {
        var last := size - Start(cs, idx);
        if |chunk| > last {
          curBytes := curBytes - (|chunk| - last);
          cut := chunk[..last];
        }
      }
    }

    method PunchHole(ino: Ino, off: nat, len: nat, keepSize: bool, now: int) returns (gen: Gen)
      requires Valid()
      modifies this
      ensures Valid() && SizedNext(maxBytes, old(Whole()), Call.PunchHole(ino, off, len, keepSize, now), Whole())
      ensures gen == curGen
    {
      hide EntryDirty, TotalDirty, Punched, HoleSoFar, HoleStamps, CountOk, Zeroed, DirtySum, Held;
      curGen := curGen + 1;
      gen := curGen;
      PunchCount(old(State()), ino, off, len, keepSize, now);
      if ino !in entries {
        return;
      }
      var e := entries[ino];
      var size, sizeGen := e.size, e.sizeGen;
      if !keepSize && off + len > size {
        size, sizeGen := off + len, gen;
      }
      var end := if keepSize && off + len > size then size else off + len;
      var data, chunks, dirty := e.data, e.chunks, e.dirty;
      if end > off {
        data := ZeroBytes(data, off, end);
        chunks, dirty := PunchChunks(e, off, end);
      }
      var f := e.(data := data, size := size, chunks := chunks, dirty := dirty, gen := gen, sizeGen := sizeGen,
              lastRead := now);
      PunchedIs(e, off, len, keepSize, gen, now, data, chunks, dirty);
      entries := entries[ino := f];
      EntryDirtyIs(f);
      EntryDirtyIs(e);
    }

    /** Zero the bytes [a, b) of a buffer, as far as it reaches. */
    static method ZeroBytes(s: seq<Byte>, a: nat, b: int) returns (r: seq<Byte>)
      ensures r == Zeroed(s, a, b)
    {
      var end := Min(b, |s|);
      r := s;
      var k := a;
      while k < end
        invariant a <= k && (k <= end || k == a) && |r| == |s|
        invariant forall j :: 0 <= j < |s| ==> r[j] == if a <= j < k then 0 else s[j]
      {
        r := r[k := 0];
        k := k + 1;
      }
    }

    /** The chunk loop of a hole: covered chunks go, clean overlapped ones go, dirty overlapped ones are zeroed. */
    method PunchChunks(e: Entry, off: nat, end: nat) returns (chunks: map<nat, seq<Byte>>, dirty: map<nat, Gen>)
      modifies `curBytes, `dirtyBytes
      ensures chunks == HoleSoFar(e, off, end, {}) && dirty == HoleStamps(e, off, end, {})
      ensures dirtyBytes == old(dirtyBytes) - DirtySum(e.chunks, e.dirty) + DirtySum(chunks, dirty)
      ensures curBytes == old(curBytes) - Held(e.chunks) + Held(chunks)
    {
      hide Start, ChunkIndex, DirtySum, Zeroed, Held;
      var cs := Cs(e);
      chunks, dirty := e.chunks, e.dirty;
      var todo := e.chunks.Keys;
      while todo != {}
        invariant todo <= e.chunks.Keys && chunks == HoleSoFar(e, off, end, todo)
                  && dirty == HoleStamps(e, off, end, todo)
        invariant dirtyBytes == old(dirtyBytes) - DirtySum(e.chunks, e.dirty) + DirtySum(chunks, dirty)
        invariant curBytes == old(curBytes) - Held(e.chunks) + Held(chunks)
        decreases |todo|
      {
        var idx :| idx in todo;
        var chunk := chunks[idx];
        var start := Start(cs, idx);
        var isDirty := idx in dirty;
        HoleStep(e, off, end, todo, idx);
        SumOfDropped(chunks, dirty, idx);
        HeldDrop(chunks, idx);
        if off <= start && end >= start + cs {
          curBytes := curBytes - |chunk|;
          chunks := chunks - {idx};
          if isDirty {
            dirtyBytes := dirtyBytes - |chunk|;
            dirty := dirty - {idx};
          }
        } else if off < start + cs && end > start {
          if !isDirty {
            curBytes := curBytes - |chunk|;
            chunks := chunks - {idx};
          } else {
            var zeroed := ZeroBytes(chunk, Max(off - start, 0), end - start);
            SumOfResized(chunks, dirty, idx, zeroed);
            HeldUpdate(chunks, idx, zeroed);
            chunks := chunks[idx := zeroed];
          }
        }
        todo := todo - {idx};
      }
    }

    // ----- reads and fills -----

    /** A hit is the range of the cached bytes; a miss is None. */
    method GetRange(ino: Ino, off: nat, len: int, now: int) returns (r: Option<seq<Byte>>)
      requires Valid()
      modifies `entries
      ensures Valid() && SizedNext(maxBytes, old(Whole()), Call.Touch(ino, now), Whole())
      ensures r == if ino in old(entries) then NodeCacheModel.GetRange(old(entries)[ino], off, len) else None
    {
      hide CountOk, TotalDirty, EntryDirty, RangeBytes, Start, ChunkIndex;
      if ino !in entries {
        return None;
      }
      var e := entries[ino];
      entries := entries[ino := e.(lastRead := now)];
      SizedCount(maxBytes, old(Whole()), Call.Touch(ino, now), Whole());
      if off >= e.size {
        return Some([]);
      }
      var end := if len <= 0 || off + len > e.size then e.size else off + len;
      if |e.chunks| == 0 && |e.data| > 0 {
        return if end <= |e.data| then Some(e.data[off..end]) else None;
      }
      r := ReadChunks(e, off, end);
    }

    static method ReadChunks(e: Entry, off: nat, end: nat) returns (r: Option<seq<Byte>>)
      requires off < end <= e.size
      ensures r == if forall i: nat | ChunkIndex(Cs(e), off) <= i <= ChunkIndex(Cs(e), end - 1) :: i in e.chunks
                   then Some(RangeBytes(e, off, end)) else None
    {
      hide Start, ChunkIndex, EntryByte;
      var cs := Cs(e);
      var first, last := ChunkIndex(cs, off), ChunkIndex(cs, end - 1);
      var res: seq<Byte> := [];
      var i := first;
      RangeChunks(cs, off, end);
      while i <= last
        invariant first <= i <= last + 1
        invariant off + |res| == if i == first then off else if i <= last then Start(cs, i) else end
        invariant forall k: nat | first <= k < i :: k in e.chunks
        invariant forall k | 0 <= k < |res| :: res[k] == EntryByte(e, off + k)
      {
        if i !in e.chunks {
          return None;
        }
        ChunkBetween(cs, off, end, i);
        var chunk := e.chunks[i];
        var chunkLen := if Start(cs, i) + cs > e.size then e.size - Start(cs, i) else cs;
        var rStart, rEnd := Max(off - Start(cs, i), 0), Min(end - Start(cs, i), chunkLen);
        ChunkBytes(e, i);
        res := res + Window(chunk, rStart, rEnd);
        i := i + 1;
      }
      assert res == RangeBytes(e, off, end);
      r := Some(res);
    }

    static lemma ChunkBytes(e: Entry, i: nat)
      requires i in e.chunks
      ensures forall k: nat | k < Cs(e) :: EntryByte(e, Start(Cs(e), i) + k) == At(e.chunks[i], k)
    {
      hide Start, ChunkIndex;
      forall k: nat | k < Cs(e)
        ensures EntryByte(e, Start(Cs(e), i) + k) == At(e.chunks[i], k)
      {
        IndexUnique(Cs(e), i, Start(Cs(e), i) + k);
      }
    }

    method GetGeneration(ino: Ino) returns (gen: Gen)
      ensures gen == Effective(State(), ino)
    {
      gen := if ino in entries then entries[ino].gen else curGen;
    }

    method PutChunk(ino: Ino, index: nat, size: nat, total: nat, bytes: seq<Byte>, gen: Gen, now: int)
      requires Valid()
      modifies this
      ensures Valid()
      ensures SizedNext(maxBytes, old(Whole()), Call.PutChunk(ino, index, size, total, bytes, gen, now), Whole())
    {
      hide CountOk, TotalDirty, EntryDirty, Start, EvictedTo, Filled, KeptOf;
      ghost var c := Whole();
      var chunkSize := FillChunkSize(size);
      var known := ino in entries;
      if gen < (if known then entries[ino].gen else curGen) {
        return;
      }
      var e := if known then entries[ino] else Fresh(total, chunkSize, gen, 0, now);
      var local := known && Dirty(e);
      if index in e.dirty || (local && Start(chunkSize, index) >= e.size) {
        return;
      }
      assert !FillRefused(c.cache, ino, index, size, gen) && e == FillBase(c.cache, ino, size, total, gen, now);
      FillRoom(ino, e, index, size, total, bytes, local, now);
      SizedCount(maxBytes, c, Call.PutChunk(ino, index, size, total, bytes, gen, now), Whole());
    }

    /** The accepted part of a fill: make room, then store the chunk in the entry if it is still there. */
    method FillRoom(ino: Ino, e: Entry, index: nat, size: nat, total: nat, bytes: seq<Byte>, local: bool, now: int)
      requires local ==> Start(FillChunkSize(size), index) < e.size
      modifies `entries, `curBytes
      ensures exists mid: Sized ::
                && EvictedTo(Sized(old(State()).(entries := old(entries)[ino := e]),
                                   old(curBytes) - |ChunkAt(e, index)|),
                             mid, |KeptOf(e, index, size, bytes, local)|, maxBytes)
                && Whole() == Sized(if ino in mid.cache.entries
                                    then mid.cache.(entries := mid.cache.entries[ino :=
                                      Filled(e, index, size, total, bytes, local, now)])
                                    else mid.cache, mid.bytes + |KeptOf(e, index, size, bytes, local)|)
    {
      hide Start, EvictedTo;
      var chunkSize := FillChunkSize(size);
      entries := entries[ino := e];
      if index in e.chunks {
        curBytes := curBytes - |e.chunks[index]|;
      }
      var start, kept := Start(chunkSize, index), bytes;
      if local && start + |bytes| > e.size {
        kept := bytes[..e.size - start];
      }
      ghost var based := Whole();
      EvictIfNeeded(|kept|);
      ghost var mid := Whole();
      curBytes := curBytes + |kept|;
      if ino in entries {
        var f := e.(chunks := e.chunks[index := kept], size := if !local && total > e.size then total else e.size,
                    chunkSize := chunkSize, lastRead := now);
        entries := entries[ino := f];
      }
      assert EvictedTo(based, mid, |kept|, maxBytes);
    }

    /** Replace a clean entry by a whole file. */
    method Put(ino: Ino, whole: seq<Byte>, now: int)
      requires Valid()
      modifies this
      ensures Valid() && SizedNext(maxBytes, old(Whole()), Call.Put(ino, whole, now), Whole())
    {
      hide CountOk, WholeEntry, EvictedTo, Charge, SizedNext, Dirty;
      ghost var c := Whole();
      if ino in entries {
        if Dirty(entries[ino]) {
          PutRefused(maxBytes, c, ino, whole, now);
          return;
        }
        var size := EntryBytes(entries[ino]);
        curBytes := curBytes - size;
        entries := entries - {ino};
      }
      EvictIfNeeded(|whole|);
      ghost var mid := Whole();
      var f := Cut(whole, now);
      WholeSame(c.cache, State(), whole, now);
      entries := entries[ino := f];
      curBytes := curBytes + |whole|;
      PutMakes(maxBytes, c, mid, ino, whole, now);
      SizedCount(maxBytes, c, Call.Put(ino, whole, now), Whole());
    }

    /** A whole file cut into chunks. */
    method Cut(whole: seq<Byte>, now: int) returns (f: Entry)
      ensures f == WholeEntry(State(), whole, now)
    {
      hide WholeChunk, NumChunks;
      var chunks: map<nat, seq<Byte>> := map[];
      var num, i := NumChunks(DEFAULT_CHUNK_SIZE, |whole|), 0;
      while i < num
        invariant 0 <= i <= num
        invariant chunks == map k: nat | k < i :: WholeChunk(whole, k)
      {
        chunks := chunks[i := WholeChunk(whole, i)];
        i := i + 1;
      }
      f := Entry(whole, |whole|, DEFAULT_CHUNK_SIZE, chunks, map[], curGen, 0, now);
    }

    /** The bytes an entry is charged for. */
    static method EntryBytes(e: Entry) returns (total: int)
      ensures total == Charge(e)
    {
      if |e.chunks| == 0 {
        return |e.data|;
      }
      hide Held;
      total := 0;
      var todo := e.chunks.Keys;
      assert Of(e.chunks, todo) == e.chunks;
      while todo != {}
        invariant todo <= e.chunks.Keys && total == Held(e.chunks) - Held(Of(e.chunks, todo))
        decreases |todo|
      {
        var idx :| idx in todo;
        HeldDrop(Of(e.chunks, todo), idx);
        assert Of(e.chunks, todo) - {idx} == Of(e.chunks, todo - {idx});
        total := total + |e.chunks[idx]|;
        todo := todo - {idx};
      }
      assert Of(e.chunks, {}) == map[];
      NoneHeld();
    }

    /** Evict the longest unread clean entries until the bytes fit, and no further. Dirty entries are never evicted, nor
        the entry of inode 0, which also ends the search. */
    method EvictIfNeeded(needed: int)
      modifies `entries, `curBytes
      ensures EvictedTo(old(Whole()), Whole(), needed, maxBytes)
    {
      hide Charge, Evicting, Dirty;
      NothingEvicted(Whole(), needed, maxBytes);
      while curBytes + needed > maxBytes && |entries| > 0
        invariant Evicting(old(Whole()), Whole(), needed, maxBytes)
        decreases |entries|
      {
        var oldest := OldestClean();
        if oldest.None? || oldest.value == 0 {
          return;
        }
        var k := oldest.value;
        var size := EntryBytes(entries[k]);
        Shrinks(entries, k);
        EvictNext(old(Whole()), Whole(), k, needed, maxBytes);
        curBytes := curBytes - size;
        entries := entries - {k};
      }
    }

    method OldestClean() returns (r: Option<Ino>)
      ensures r.Some? ==> r.value in entries && !Dirty(entries[r.value])
      ensures r.Some? ==> forall k | k in entries && !Dirty(entries[k]) ::
                entries[r.value].lastRead <= entries[k].lastRead
      ensures r.None? ==> forall k | k in entries :: Dirty(entries[k])
    {
      r := None;
      var todo := entries.Keys;
      while todo != {}
        invariant todo <= entries.Keys
        invariant r.Some? ==> r.value in entries && !Dirty(entries[r.value])
        invariant r.Some? ==> forall k | k in entries && k !in todo && !Dirty(entries[k]) ::
                 entries[r.value].lastRead <= entries[k].lastRead
        invariant r.None? ==> forall k | k in entries && k !in todo :: Dirty(entries[k])
        decreases |todo|
      {
        var ino :| ino in todo;
        if !Dirty(entries[ino]) && (r.None? || entries[ino].lastRead < entries[r.value].lastRead) {
          r := Some(ino);
        }
        todo := todo - {ino};
      }
    }

    // ----- flushing -----

    /** A flush snapshot: every dirty chunk with its bytes and its stamp. */
    method GetDirtyChunks(ino: Ino) returns (found: bool, chunks: map<nat, seq<Byte>>, gens: map<nat, Gen>)
      requires Valid()
      ensures found <==> ino in entries && |entries[ino].dirty| > 0
      ensures found ==> gens == entries[ino].dirty && chunks.Keys == gens.Keys
                        && forall i | i in gens :: DirtyChunk(State(), ino, i, chunks[i], gens[i])
    {
      hide TotalDirty;
      found, chunks, gens := false, map[], map[];
      if ino !in entries || |entries[ino].dirty| == 0 {
        return;
      }
      var e := entries[ino];
      found := true;
      KeysOk(State(), ino);
      var todo := e.dirty.Keys;
      while todo != {}
        invariant todo <= e.dirty.Keys && chunks.Keys == gens.Keys
        invariant forall i: nat :: i in gens <==> i in e.dirty && i !in todo
        invariant forall i | i in gens :: gens[i] == e.dirty[i] && chunks[i] == e.chunks[i]
        decreases |todo|
      {
        var idx :| idx in todo;
        if idx in e.chunks {
          chunks, gens := chunks[idx := e.chunks[idx]], gens[idx := e.dirty[idx]];
        }
        todo := todo - {idx};
      }
    }

    method MarkChunkClean(ino: Ino, index: nat, gen: Gen)
      requires Valid()
      modifies `entries, `dirtyBytes
      ensures Valid() && SizedNext(maxBytes, old(Whole()), Call.MarkChunkClean(ino, index, gen), Whole())
    {
      hide CountOk;
      AcknowledgedCount(State(), ino, index, gen);
      if ino in entries {
        var e := entries[ino];
        if index in e.dirty && e.dirty[index] <= gen {
          entries := entries[ino := e.(dirty := e.dirty - {index})];
          if index in e.chunks {
            dirtyBytes := dirtyBytes - |e.chunks[index]|;
          }
        }
      }
    }

    method MarkSizeClean(ino: Ino, gen: Gen)
      requires Valid()
      modifies `entries
      ensures Valid() && SizedNext(maxBytes, old(Whole()), Call.MarkSizeClean(ino, gen), Whole())
    {
      hide CountOk, TotalDirty, EntryDirty;
      if ino in entries && entries[ino].sizeGen <= gen {
        entries := entries[ino := entries[ino].(sizeGen := 0)];
      }
      SizedCount(maxBytes, old(Whole()), Call.MarkSizeClean(ino, gen), Whole());
    }

    // ----- invalidation -----

    method Invalidate(ino: Ino)
      requires Valid()
      modifies this
      ensures Valid() && SizedNext(maxBytes, old(Whole()), Call.Invalidate(ino), Whole())
    {
      hide CountOk, TotalDirty, EntryDirty, Total, Charge;
      WithoutCount(State(), ino);
      if ino in entries {
        var e := entries[ino];
        var size := EntryBytes(e);
        TotalDrop(entries, ino);
        curBytes := curBytes - size;
        SubtractDirty(e);
        entries := entries - {ino};
      }
    }

    method SubtractDirty(e: Entry)
      modifies `dirtyBytes
      ensures dirtyBytes == old(dirtyBytes) - EntryDirty(e)
    {
      var dirty := e.dirty;
      EntryDirtyIs(e);
      while dirty != map[]
        invariant dirtyBytes == old(dirtyBytes) - EntryDirty(e) + DirtySum(e.chunks, dirty)
        decreases |dirty|
      {
        var idx :| idx in dirty;
        SumOfDropped(e.chunks, dirty, idx);
        assert Lens(e.chunks - {idx}, dirty - {idx}) == Lens(e.chunks, dirty - {idx});
        Shrinks(dirty, idx);
        if idx in e.chunks {
          dirtyBytes := dirtyBytes - |e.chunks[idx]|;
        }
        dirty := dirty - {idx};
      }
      assert Lens(e.chunks, dirty) == map[];
    }

    method InvalidateIfNotDirty(ino: Ino)
      requires Valid()
      modifies `entries, `curBytes
      ensures Valid() && SizedNext(maxBytes, old(Whole()), Call.InvalidateIfNotDirty(ino), Whole())
    {
      hide CountOk, TotalDirty, EntryDirty, Total, Charge;
      if ino in entries && !Dirty(entries[ino]) {
        var size := EntryBytes(entries[ino]);
        TotalDrop(entries, ino);
        curBytes := curBytes - size;
        entries := entries - {ino};
      }
      SizedCount(maxBytes, old(Whole()), Call.InvalidateIfNotDirty(ino), Whole());
    }

    method InvalidateAllClean()
      requires Valid()
      modifies `entries, `curBytes
      ensures Valid() && SizedNext(maxBytes, old(Whole()), Call.InvalidateAllClean, Whole())
    {
      hide CountOk, TotalDirty, EntryDirty, Dirty, Total, Charge;
      var todo := entries.Keys;
      while todo != {}
        invariant todo <= old(entries).Keys && entries == DirtyOr(old(entries), todo)
        invariant Drift(Whole()) == old(Drift(Whole()))
        decreases |todo|
      {
        var ino :| ino in todo;
        DirtyOrStep(old(entries), todo, ino);
        if !Dirty(entries[ino]) {
          var size := EntryBytes(entries[ino]);
          TotalDrop(entries, ino);
          curBytes := curBytes - size;
          entries := entries - {ino};
        }
        todo := todo - {ino};
      }
      assert DirtyOr(old(entries), {}) == map k | k in old(entries) && Dirty(old(entries)[k]) :: old(entries)[k];
      SizedCount(maxBytes, old(Whole()), Call.InvalidateAllClean, Whole());
    }

    method Clear()
      requires Valid()
      modifies this
      ensures Valid() && SizedNext(maxBytes, old(Whole()), Call.Clear, Whole())
    {
      hide TotalDirty;
      entries, curBytes, dirtyBytes := map[], 0, 0;
      ClearCount(old(State()));
    }

    // ----- runs -----

    method Apply(call: Call)
      requires Valid()
      modifies this
      ensures Valid() && SizedNext(maxBytes, old(Whole()), call, Whole())
    {
      hide CountOk, SizedNext;
      match call
      case WriteAt(ino, off, data, now) => var _ := WriteAt(ino, off, data, now);
      case Truncate(ino, size, now) => var _ := Truncate(ino, size, now);
      case PunchHole(ino, off, len, keepSize, now) => var _ := PunchHole(ino, off, len, keepSize, now);
      case PutChunk(ino, index, size, total, bytes, gen, now) => PutChunk(ino, index, size, total, bytes, gen, now);
      case Put(ino, whole, now) => Put(ino, whole, now);
      case Touch(ino, now) => var _ := GetRange(ino, 0, 0, now);
      case MarkChunkClean(ino, index, gen) => MarkChunkClean(ino, index, gen);
      case MarkSizeClean(ino, gen) => MarkSizeClean(ino, gen);
      case Invalidate(ino) => Invalidate(ino);
      case InvalidateIfNotDirty(ino) => InvalidateIfNotDirty(ino);
      case InvalidateAllClean => InvalidateAllClean();
      case Clear => Clear();
    }

    /** Any calls in any order make a run of the model, so every theorem about runs is about this cache. */
    method Run(calls: seq<Call>) returns (ghost states: seq<Sized>)
      requires Valid()
      modifies this
      ensures Valid() && IsSizedRun(maxBytes, states, calls) && states[0] == old(Whole())
              && states[|calls|] == Whole()
      ensures IsRun(Caches(states), calls)
    {
      hide CountOk, SizedNext, IsRun;
      states := [Whole()];
      var k := 0;
      while k < |calls|
        invariant 0 <= k <= |calls| && Valid()
        invariant |states| == k + 1 && states[0] == old(Whole()) && states[k] == Whole()
        invariant forall j | 0 <= j < k :: SizedNext(maxBytes, states[j], calls[j], states[j + 1])
      {
        Apply(calls[k]);
        states := states + [Whole()];
        k := k + 1;
      }
      SizedRunIsRun(maxBytes, states, calls);
    }
  }
}
