/** The node's write-back cache: local mutations stamped with a cache-wide generation, racing with fills,
    flush acknowledgements, evictions and invalidations. Each function or relation is one call. */
module NodeCacheModel {
  import opened Bytes
  import opened ChunkedWrite
  import opened Sums
  import opened Options

  type Ino = nat

  type Gen = nat

  const DEFAULT_CHUNK_SIZE: nat := 65536

  /** `dirty` stamps each unacknowledged chunk with its latest write; `sizeGen` is 0 when the size is
      acknowledged; `data` is the whole-file buffer Put keeps beside the chunks. */
  datatype Entry = Entry(data: seq<Byte>, size: nat, chunkSize: nat, chunks: map<nat, seq<Byte>>,
                         dirty: map<nat, Gen>, gen: Gen, sizeGen: Gen, lastRead: int)

  datatype Cache = Cache(entries: map<Ino, Entry>, dirtyBytes: int, curGen: Gen)

  predicate Dirty(e: Entry) {
    |e.dirty| > 0 || e.sizeGen != 0
  }

  function Cs(e: Entry): (cs: nat)
    ensures cs > 0
  {
    if e.chunkSize == 0 then DEFAULT_CHUNK_SIZE else e.chunkSize
  }

  function Fresh(size: nat, chunkSize: nat, gen: Gen, sizeGen: Gen, now: int): Entry {
    Entry([], size, chunkSize, map[], map[], gen, sizeGen, now)
  }

  function ChunkAt(e: Entry, i: nat): seq<Byte> {
    if i in e.chunks then e.chunks[i] else []
  }

  // ----- local mutations of one entry -----

  function TouchedChunks(cs: nat, off: nat, len: nat): set<nat>
    requires cs > 0
  {
    set i: nat | i <= LastChunk(cs, off, len) && Touches(cs, off, len, i)
  }

  function Written(e: Entry, off: nat, data: seq<Byte>, gen: Gen, now: int): Entry {
    var cs, newSize := Cs(e), Max(off + |data|, e.size);
    var touched := TouchedChunks(cs, off, |data|);
    Entry([], newSize, cs,
          map i | i in e.chunks.Keys + touched ::
            if i in touched then WrittenChunk(cs, ChunkAt(e, i), newSize, off, data, i) else e.chunks[i],
          map i | i in e.dirty.Keys + touched :: if i in touched then gen else e.dirty[i],
          gen, e.sizeGen, now)
  }

  /** A chunk after a truncate to `size`: the last one is cut. */
  function CutChunk(cs: nat, c: seq<Byte>, size: nat, i: nat): seq<Byte>
    requires cs > 0
  {
    if i == NumChunks(cs, size) - 1 && 0 <= size - Start(cs, i) < |c| then c[..size - Start(cs, i)] else c
  }

  function Truncated(e: Entry, size: nat, gen: Gen, now: int): Entry {
    var cs := Cs(e);
    e.(data := if size < |e.data| then e.data[..size] else e.data,
       size := size,
       chunks := map i | i in e.chunks && i < NumChunks(cs, size) :: CutChunk(cs, e.chunks[i], size, i),
       dirty := map i | i in e.dirty && i < NumChunks(cs, size) :: e.dirty[i],
       gen := gen, sizeGen := gen, lastRead := now)
  }

  function Zeroed(s: seq<Byte>, a: nat, b: int): (r: seq<Byte>)
    ensures |r| == |s|
    ensures forall k :: 0 <= k < |s| ==> r[k] == if a <= k < b then 0 else s[k]
  {
    var e := Min(b, |s|);
    if e <= a then s else s[..a] + Zeros(e - a) + s[e..]
  }

  /** A hole leaves a chunk alone, drops it whole (covered, or clean and to be refetched), or zeroes it. */
  predicate Overlaps(cs: nat, off: nat, end: nat, i: nat) {
    off < Start(cs, i) + cs && end > Start(cs, i)
  }

  predicate Covers(cs: nat, off: nat, end: nat, i: nat) {
    off <= Start(cs, i) && end >= Start(cs, i) + cs
  }

  predicate HoleDrops(e: Entry, off: nat, end: nat, i: nat) {
    Covers(Cs(e), off, end, i) || (Overlaps(Cs(e), off, end, i) && i !in e.dirty)
  }

  function HoleChunk(cs: nat, c: seq<Byte>, off: nat, end: nat, i: nat): seq<Byte> {
    if Overlaps(cs, off, end, i) then Zeroed(c, Max(off - Start(cs, i), 0), end - Start(cs, i)) else c
  }

  function Punched(e: Entry, off: nat, len: nat, keepSize: bool, gen: Gen, now: int): Entry {
    var cs, grows := Cs(e), !keepSize && off + len > e.size;
    var size := if grows then off + len else e.size;
    var end := if keepSize && off + len > size then size else off + len;
    var f := e.(size := size, sizeGen := if grows then gen else e.sizeGen, gen := gen, lastRead := now);
    if end <= off then f else
    f.(data := Zeroed(e.data, off, end),
       chunks := map i | i in e.chunks && !HoleDrops(e, off, end, i) :: HoleChunk(cs, e.chunks[i], off, end, i),
       dirty := map i | i in e.dirty && !(i in e.chunks && Covers(cs, off, end, i)) :: e.dirty[i])
  }

  // ----- reading -----

  /** A range of the file, or None when some chunk of it is not cached. */
  function GetRange(e: Entry, off: nat, len: int): Option<seq<Byte>> {
    if off >= e.size then Some([]) else
    var end := if len <= 0 || off + len > e.size then e.size else off + len;
    var cs := Cs(e);
    if |e.chunks| == 0 && |e.data| > 0 then
      if end <= |e.data| then Some(e.data[off..end]) else None
    else if forall i: nat | ChunkIndex(cs, off) <= i <= ChunkIndex(cs, end - 1) :: i in e.chunks then
      Some(RangeBytes(e, off, end))
    else None
  }

  function RangeBytes(e: Entry, off: nat, end: nat): (r: seq<Byte>)
    requires off <= end
    ensures |r| == end - off
    ensures forall k :: 0 <= k < |r| ==> r[k] == EntryByte(e, off + k)
  {
    seq<Byte>(end - off, k requires k >= 0 => EntryByte(e, off + k))
  }

  /** The byte the chunks hold at position `p`; a missing chunk reads zero. */
  function EntryByte(e: Entry, p: nat): Byte {
    var cs := Cs(e);
    At(ChunkAt(e, ChunkIndex(cs, p)), p - Start(cs, ChunkIndex(cs, p)))
  }

  // ----- dirty bytes -----

  ghost function DirtyLens(e: Entry): map<nat, int> {
    map i | i in e.dirty :: |ChunkAt(e, i)|
  }

  ghost function EntryDirty(e: Entry): int {
    Sum(DirtyLens(e))
  }

  ghost function DirtyPerEntry(entries: map<Ino, Entry>): map<Ino, int> {
    map k | k in entries :: EntryDirty(entries[k])
  }

  ghost function TotalDirty(entries: map<Ino, Entry>): int {
    Sum(DirtyPerEntry(entries))
  }

  /** `entries` after entry `ino` was `e` (if any) and became `f`. */
  ghost function Recounted(c: Cache, ino: Ino, f: Entry): int {
    c.dirtyBytes - (if ino in c.entries then EntryDirty(c.entries[ino]) else 0) + EntryDirty(f)
  }

  // ----- the calls -----

  function Effective(c: Cache, ino: Ino): Gen {
    if ino in c.entries then c.entries[ino].gen else c.curGen
  }

  /** Eviction only removes entries, and only clean ones. */
  ghost predicate Evicted(c: Cache, d: Cache) {
    && d.dirtyBytes == c.dirtyBytes && d.curGen == c.curGen
    && d.entries.Keys <= c.entries.Keys
    && (forall k | k in d.entries :: d.entries[k] == c.entries[k])
    && (forall k | k in c.entries && k !in d.entries :: !Dirty(c.entries[k]))
  }

  datatype Call =
    | WriteAt(ino: Ino, off: nat, data: seq<Byte>, now: int)
    | Truncate(ino: Ino, size: nat, now: int)
    | PunchHole(ino: Ino, off: nat, len: nat, keepSize: bool, now: int)
    | PutChunk(ino: Ino, index: nat, chunkSize: nat, total: nat, bytes: seq<Byte>, gen: Gen, now: int)
    | Put(ino: Ino, whole: seq<Byte>, now: int)
    | Touch(ino: Ino, now: int)
    | MarkChunkClean(ino: Ino, index: nat, gen: Gen)
    | MarkSizeClean(ino: Ino, gen: Gen)
    | Invalidate(ino: Ino)
    | InvalidateIfNotDirty(ino: Ino)
    | InvalidateAllClean
    | Clear

  predicate Mutates(call: Call, ino: Ino) {
    (call.WriteAt? || call.Truncate? || call.PunchHole?) && call.ino == ino
  }

  ghost function Mutated(c: Cache, ino: Ino, f: Entry): Cache {
    Cache(c.entries[ino := f], Recounted(c, ino, f), c.curGen + 1)
  }

  function WriteBase(c: Cache, ino: Ino, now: int): Entry {
    if ino in c.entries then c.entries[ino] else Fresh(0, DEFAULT_CHUNK_SIZE, 0, 0, now)
  }

  ghost function AfterWrite(c: Cache, ino: Ino, off: nat, data: seq<Byte>, now: int): Cache {
    Mutated(c, ino, Written(WriteBase(c, ino, now), off, data, c.curGen + 1, now))
  }

  ghost function AfterTruncate(c: Cache, ino: Ino, size: nat, now: int): Cache {
    var gen := c.curGen + 1;
    Mutated(c, ino, if ino in c.entries then Truncated(c.entries[ino], size, gen, now)
                    else Fresh(size, DEFAULT_CHUNK_SIZE, gen, gen, now))
  }

  ghost function AfterPunch(c: Cache, ino: Ino, off: nat, len: nat, keepSize: bool, now: int): Cache {
    if ino in c.entries then Mutated(c, ino, Punched(c.entries[ino], off, len, keepSize, c.curGen + 1, now))
    else c.(curGen := c.curGen + 1)
  }

  function FillChunkSize(chunkSize: nat): nat {
    if chunkSize == 0 then DEFAULT_CHUNK_SIZE else chunkSize
  }

  function FillBase(c: Cache, ino: Ino, chunkSize: nat, total: nat, gen: Gen, now: int): Entry {
    if ino in c.entries then c.entries[ino] else Fresh(total, FillChunkSize(chunkSize), gen, 0, now)
  }

  /** A fill is refused when something newer happened, when the chunk is dirty, or when it lies past the
      end of a file with unacknowledged local state. */
  predicate FillRefused(c: Cache, ino: Ino, index: nat, chunkSize: nat, gen: Gen) {
    || gen < Effective(c, ino)
    || (ino in c.entries && index in c.entries[ino].dirty)
    || (ino in c.entries && Dirty(c.entries[ino]) && Start(FillChunkSize(chunkSize), index) >= c.entries[ino].size)
  }

  function Filled(e: Entry, index: nat, chunkSize: nat, total: nat, bytes: seq<Byte>, local: bool, now: int): Entry {
    var start := Start(FillChunkSize(chunkSize), index);
    var kept := if local && start + |bytes| > e.size && start <= e.size then bytes[..e.size - start] else bytes;
    e.(chunks := e.chunks[index := kept], size := if !local && total > e.size then total else e.size,
       chunkSize := FillChunkSize(chunkSize), lastRead := now)
  }

  /** The entry being filled may itself be evicted to make room; the fill is then lost with it. */
  ghost predicate Fills(c: Cache, d: Cache, ino: Ino, index: nat, chunkSize: nat, total: nat, bytes: seq<Byte>,
                        gen: Gen, now: int) {
    if FillRefused(c, ino, index, chunkSize, gen) then d == c else
    var e := FillBase(c, ino, chunkSize, total, gen, now);
    exists mid: Cache :: Evicted(c.(entries := c.entries[ino := e]), mid) &&
      d == if ino in mid.entries
           then mid.(entries := mid.entries[ino := Filled(e, index, chunkSize, total, bytes, ino in c.entries
                   && Dirty(c.entries[ino]), now)])
           else mid
  }

  function WholeEntry(c: Cache, whole: seq<Byte>, now: int): Entry {
    Entry(whole, |whole|, DEFAULT_CHUNK_SIZE,
          map i: nat | i < NumChunks(DEFAULT_CHUNK_SIZE, |whole|) :: WholeChunk(whole, i),
          map[], c.curGen, 0, now)
  }

  function WholeChunk(whole: seq<Byte>, i: nat): seq<Byte>
    requires i < NumChunks(DEFAULT_CHUNK_SIZE, |whole|)
  {
    NumChunksBounds(DEFAULT_CHUNK_SIZE, |whole|, i);
    whole[Start(DEFAULT_CHUNK_SIZE, i)..Min(Start(DEFAULT_CHUNK_SIZE, i) + DEFAULT_CHUNK_SIZE, |whole|)]
  }

  ghost predicate Puts(c: Cache, d: Cache, ino: Ino, whole: seq<Byte>, now: int) {
    if ino in c.entries && Dirty(c.entries[ino]) then d == c
    else exists mid: Cache :: Evicted(c.(entries := c.entries - {ino}), mid) &&
           d == mid.(entries := mid.entries[ino := WholeEntry(c, whole, now)])
  }

  function Acknowledged(c: Cache, ino: Ino, index: nat, gen: Gen): Cache {
    if ino in c.entries && index in c.entries[ino].dirty && c.entries[ino].dirty[index] <= gen then
      var e := c.entries[ino];
      c.(entries := c.entries[ino := e.(dirty := e.dirty - {index})], dirtyBytes := c.dirtyBytes - |ChunkAt(e, index)|)
    else c
  }

  ghost function Without(c: Cache, ino: Ino): Cache {
    if ino in c.entries then Cache(c.entries - {ino}, c.dirtyBytes - EntryDirty(c.entries[ino]), c.curGen) else c
  }

  ghost predicate Next(c: Cache, call: Call, d: Cache) {
    match call
    case WriteAt(ino, off, data, now) => Evicted(AfterWrite(c, ino, off, data, now), d)
    case Truncate(ino, size, now) => d == AfterTruncate(c, ino, size, now)
    case PunchHole(ino, off, len, keepSize, now) => d == AfterPunch(c, ino, off, len, keepSize, now)
    case PutChunk(ino, index, chunkSize, total, bytes, gen, now) => Fills(c, d, ino, index, chunkSize, total, bytes,
        gen, now)
    case Put(ino, whole, now) => Puts(c, d, ino, whole, now)
    case Touch(ino, now) => d == if ino in c.entries
    then c.(entries := c.entries[ino := c.entries[ino].(lastRead := now)]) else c
    case MarkChunkClean(ino, index, gen) => d == Acknowledged(c, ino, index, gen)
    case MarkSizeClean(ino, gen) =>
      d == if ino in c.entries && c.entries[ino].sizeGen <= gen
      then c.(entries := c.entries[ino := c.entries[ino].(sizeGen := 0)]) else c
    case Invalidate(ino) => d == Without(c, ino)
    case InvalidateIfNotDirty(ino) =>
      d == if ino in c.entries && !Dirty(c.entries[ino]) then c.(entries := c.entries - {ino}) else c
    case InvalidateAllClean => d == c.(entries := map k | k in c.entries && Dirty(c.entries[k]) :: c.entries[k])
    case Clear => d == Cache(map[], 0, c.curGen)
  }
}
