/** The controller's file data path as functions on one file's rows and staging state.

    A file is committed as an inode row plus chunk rows (inline bytes in row 0, or blob digests), and
    overlaid by chunks staged since the last sync. Each function below is one operation of the volume
    on one file; `Volume` runs them with the source's loops. */
module VolumeModel {
  import opened Bytes
  import opened ChunkedWrite
  import opened Options
  import FlatFile

  datatype Errno = ENOENT | EISDIR | EINVAL | ENOSPC | BlobMissing

  datatype Result<+T> = Ok(value: T) | Err(error: Errno)

  /** A collision-free digest: equal digests are digests of equal bytes. */
  datatype Sha = Sha(preimage: seq<Byte>)

  /** A FileChunk row: inline bytes, a blob digest, or neither. */
  datatype FileChunk = FileChunk(inlineData: seq<Byte>, sha: Option<Sha>)

  datatype Inode = Inode(isDir: bool, size: nat, contentSha: Option<Sha>)

  /** `stagedSize` is 0 when the inode has no entry in the staged sizes. */
  datatype File = File(row: Inode, chunkRows: map<nat, FileChunk>, staged: map<nat, seq<Byte>>, stagedSize: nat)

  datatype Config = Config(chunkSize: nat, maxInlineLen: nat)

  /** The in-memory inode built from the rows. */
  datatype Node = Node(inlineData: seq<Byte>, chunks: map<nat, Sha>)

  datatype Source = Data(bytes: seq<Byte>) | Fetch(sha: Sha) | Hole

  // ----- loading and reading -----

  /** A zero-length file is loaded without looking at its chunk rows. */
  function Load(f: File): Node {
    if f.row.size == 0 then Node([], map[])
    else
      var inlined := if 0 in f.chunkRows then f.chunkRows[0].inlineData else [];
      Node(inlined,
           map i | i in f.chunkRows && (i != 0 || inlined == []) && f.chunkRows[i].sha.Some?
             :: f.chunkRows[i].sha.value)
  }

  function Resolve(row: Inode, node: Node, i: nat): Source {
    if i == 0 && |node.inlineData| > 0 then Data(node.inlineData)
    else if i in node.chunks then Fetch(node.chunks[i])
    else if i == 0 && row.contentSha.Some? && |node.chunks| == 0 then Fetch(row.contentSha.value)
    else Hole
  }

  function ReadChunk(blobs: set<Sha>, row: Inode, node: Node, i: nat): Result<seq<Byte>> {
    match Resolve(row, node, i)
    case Data(d) => Ok(d)
    case Fetch(sha) => if sha in blobs then Ok(sha.preimage) else Err(BlobMissing)
    case Hole => Ok([])
  }

  function ReadEnd(size: nat, off: nat, len: int): nat
    requires off < size
  {
    if len <= 0 || off + len > size then size else off + len
  }

  /** The byte a read of committed state returns for position `p`. */
  function ReadByte(cs: nat, blobs: set<Sha>, f: File, p: nat): Byte
    requires cs > 0
  {
    var node := Load(f);
    if |node.inlineData| > 0 then At(node.inlineData, p) else
    var c := ReadChunk(blobs, f.row, node, ChunkIndex(cs, p));
    if c.Ok? then At(c.value, p - Start(cs, ChunkIndex(cs, p))) else 0
  }

  function ReadRange(cs: nat, blobs: set<Sha>, f: File, off: nat, end: nat): (r: seq<Byte>)
    requires cs > 0 && off <= end
    ensures |r| == end - off && forall k :: 0 <= k < |r| ==> r[k] == ReadByte(cs, blobs, f, off + k)
  {
    seq<Byte>(end - off, k requires k >= 0 => ReadByte(cs, blobs, f, off + k))
  }

  predicate ReadableRange(cs: nat, blobs: set<Sha>, f: File, off: nat, end: nat)
    requires cs > 0 && off < end
  {
    forall i: nat | ChunkIndex(cs, off) <= i <= ChunkIndex(cs, end - 1) :: ReadChunk(blobs, f.row, Load(f), i).Ok?
  }

  /** A read sees committed state only: staged chunks are not consulted. */
  function ReadFile(cs: nat, blobs: set<Sha>, f: File, off: nat, len: int): Result<seq<Byte>>
    requires cs > 0
  {
    if off >= f.row.size then Ok([]) else
    var end := ReadEnd(f.row.size, off, len);
    if |Load(f).inlineData| == 0 && !ReadableRange(cs, blobs, f, off, end) then Err(BlobMissing)
    else Ok(ReadRange(cs, blobs, f, off, end))
  }

  // ----- write -----

  function CurrentSize(f: File): nat {
    if f.stagedSize > f.row.size then f.stagedSize else f.row.size
  }

  function CalculatedSize(f: File, off: nat, len: nat): nat {
    if off + len < CurrentSize(f) then CurrentSize(f) else off + len
  }

  /** A chunk the write covers only in part, and that is not staged, needs its committed bytes. */
  predicate NeedsBase(cs: nat, f: File, off: nat, len: nat, i: nat) {
    && i !in f.staged
    && (off - Start(cs, i) > 0 || Min(off + len - Start(cs, i), cs) < ExpectedLen(cs, CalculatedSize(f, off, len), i))
  }

  /** Committed inline bytes move to staged chunk 0 before any other chunk is staged. */
  function StageInline(f: File): map<nat, seq<Byte>> {
    var node := Load(f);
    if |node.inlineData| > 0 && 0 !in f.staged then f.staged[0 := node.inlineData] else f.staged
  }

  function BaseChunk(cs: nat, blobs: set<Sha>, f: File, off: nat, len: nat, i: nat): seq<Byte> {
    var r := ReadChunk(blobs, f.row, Load(f), i);
    if NeedsBase(cs, f, off, len, i) && r.Ok? then r.value else []
  }

  /** The bytes a write starts from in chunk `i`: staged, moved there from inline, or committed. */
  function BeforeWrite(cs: nat, blobs: set<Sha>, f: File, off: nat, len: nat, i: nat): seq<Byte> {
    var st := StageInline(f);
    if i in st then st[i] else BaseChunk(cs, blobs, f, off, len, i)
  }

  /** What a write stages for chunk `i`. */
  function StagedByWrite(cs: nat, blobs: set<Sha>, f: File, off: nat, data: seq<Byte>, i: nat): seq<Byte>
    requires cs > 0
    requires Touches(cs, off, |data|, i)
  {
    WrittenChunk(cs, BeforeWrite(cs, blobs, f, off, |data|, i), CalculatedSize(f, off, |data|), off, data, i)
  }

  predicate BaseReadable(cs: nat, blobs: set<Sha>, f: File, off: nat, len: nat)
    requires cs > 0
  {
    forall i: nat | i <= LastChunk(cs, off, len) ::
      Touches(cs, off, len, i) && NeedsBase(cs, f, off, len, i) ==> ReadChunk(blobs, f.row, Load(f), i).Ok?
  }

  function WriteFile(cfg: Config, blobs: set<Sha>, f: File, off: nat, data: seq<Byte>): File
    requires cfg.chunkSize > 0
  {
    var cs := cfg.chunkSize;
    var st := StageInline(f);
    var touched := set i: nat | i <= LastChunk(cs, off, |data|) && Touches(cs, off, |data|, i);
    f.(staged := map i | i in st.Keys + touched ::
         if i in touched then StagedByWrite(cs, blobs, f, off, data, i) else st[i],
       stagedSize := CalculatedSize(f, off, |data|))
  }

  // ----- sync -----

  /** The digest the sync records for a staged chunk. It is left empty when the staged size alone
      looks inline, whatever the committed size says. */
  function SyncedSha(cfg: Config, f: File, i: nat): Option<Sha>
    requires i in f.staged
  {
    if f.stagedSize <= cfg.maxInlineLen && |f.staged| <= 1 then None else Some(Sha(f.staged[i]))
  }

  function SyncFile(cfg: Config, f: File): File {
    var newSize := if f.stagedSize < f.row.size then f.row.size else f.stagedSize;
    if newSize <= cfg.maxInlineLen && |f.staged| <= 1 then
      var inlined := if 0 in f.staged then f.staged[0] else [];
      File(f.row.(size := newSize, contentSha := Some(Sha(inlined))),
           f.chunkRows[0 := FileChunk(inlined, None)], map[], 0)
    else
      File(f.row.(size := newSize, contentSha := None),
           f.chunkRows + map i | i in f.staged :: FileChunk([], SyncedSha(cfg, f, i)), map[], 0)
  }

  /** Every staged chunk is uploaded, inside its pack, before the rows that name it. */
  function Uploaded(blobs: set<Sha>, f: File): set<Sha> {
    blobs + set i | i in f.staged :: Sha(f.staged[i])
  }

  function SyncIfStaged(cfg: Config, f: File): File {
    if f.staged == map[] then f else SyncFile(cfg, f)
  }

  // ----- truncate -----

  function TruncatedStaged(cs: nat, staged: map<nat, seq<Byte>>, size: int): map<nat, seq<Byte>> {
    map i | i in staged && Start(cs, i) < size ::
      if Start(cs, i) + cs > size && |staged[i]| > size - Start(cs, i) then staged[i][..size - Start(cs, i)]
         else staged[i]
  }

  /** The staging half of a truncate. It runs before the size is checked, so a negative size, which the
      other half then refuses, has already dropped every staged chunk. */
  function TruncateStaging(cs: nat, f: File, size: int): File {
    var st := TruncatedStaged(cs, f.staged, size);
    if f.staged == map[] then f
    else if st == map[] then f.(staged := st, stagedSize := 0)
    else f.(staged := st, stagedSize := Max(size, 0))
  }

  /** The chunk a shrinking truncate leaves partly in the file, when a row for it exists. */
  predicate CutsLast(cs: nat, f: File, node: Node, size: nat)
    requires cs > 0
  {
    && size > 0
    && size < f.row.size
    && NumChunks(cs, size) - 1 in node.chunks
  }

  /** A short file with at most one chunk row becomes, or stays, inline. */
  function TruncateToInline(blobs: set<Sha>, f: File, size: nat): Result<map<nat, FileChunk>> {
    var node := Load(f);
    var c0 := ReadChunk(blobs, f.row, node, 0);
    if c0.Err? then Err(c0.error) else
    Ok((f.chunkRows - (node.chunks.Keys - {0}))[0 := FileChunk(FlatFile.Truncate(c0.value, size), None)])
  }

  /** Drop the chunk rows past the end; cut the last one down, uploading what is left of it. */
  function TruncateChunks(cs: nat, blobs: set<Sha>, f: File, size: nat): Result<(map<nat, FileChunk>, set<Sha>)>
    requires cs > 0 && size > 0
  {
    var node := Load(f);
    NumChunksBounds(cs, size, 0);
    var last: nat := NumChunks(cs, size) - 1;
    var rows := f.chunkRows - set i | i in node.chunks && i >= NumChunks(cs, size);
    if !CutsLast(cs, f, node, size) then Ok((rows, blobs)) else
    var c := ReadChunk(blobs, f.row, node, last);
    if c.Err? then Err(c.error)
    else if |c.value| > size - Start(cs, last) then
      NumChunksBounds(cs, size, last);
      var kept := Sha(c.value[..size - Start(cs, last)]);
      Ok((rows[last := FileChunk([], Some(kept))], blobs + {kept}))
    else Ok((rows, blobs))
  }

  function TruncateRows(cfg: Config, blobs: set<Sha>, f: File, size: nat): Result<(File, set<Sha>)>
    requires cfg.chunkSize > 0
  {
    var node, g := Load(f), f.(row := f.row.(size := size, contentSha := None));
    if size == 0 then
      Ok((g.(chunkRows := f.chunkRows - (if |node.chunks| == 0 then {0} else node.chunks.Keys)), blobs))
    else if size <= cfg.maxInlineLen && |node.chunks| <= 1 then
      match TruncateToInline(blobs, f, size)
      case Ok(rows) => Ok((g.(chunkRows := rows), blobs))
      case Err(e) => Err(e)
    else
      match TruncateChunks(cfg.chunkSize, blobs, f, size)
      case Ok((rows, more)) => Ok((g.(chunkRows := rows), more))
      case Err(e) => Err(e)
  }

  /** A whole truncate: the error, if any, and the state it leaves. */
  function TruncateFile(cfg: Config, blobs: set<Sha>, f: File, size: int): (Option<Errno>, File, set<Sha>)
    requires cfg.chunkSize > 0
  {
    var g := TruncateStaging(cfg.chunkSize, f, size);
    if size < 0 then (Some(EINVAL), g, blobs) else
    match TruncateRows(cfg, blobs, g, size)
    case Ok((h, blobs')) => (None, h, blobs')
    case Err(e) => (Some(e), g, blobs)
  }

  // ----- punch hole -----

  function ZeroRange(s: seq<Byte>, a: nat, b: int): (r: seq<Byte>)
    requires b <= |s|
    ensures |r| == |s|
    ensures forall k :: 0 <= k < |s| ==> r[k] == if a <= k < b then 0 else s[k]
  {
    if b <= a then s else s[..a] + Zeros(b - a) + s[b..]
  }

  predicate FullyCovered(cs: nat, start: nat, end: nat, i: nat) {
    start <= Start(cs, i) && end >= Start(cs, i) + cs
  }

  /** The chunk rows a hole touches: from the chunk of its first byte to the chunk of its last. */
  predicate InHole(cs: nat, start: nat, end: nat, i: nat)
    requires cs > 0 && start < end
  {
    ChunkIndex(cs, start) <= i <= ChunkIndex(cs, end - 1)
  }

  function PunchedChunk(cs: nat, c: seq<Byte>, start: nat, end: nat, i: nat): seq<Byte> {
    ZeroRange(c, Max(start - Start(cs, i), 0), Min(end - Start(cs, i), |c|))
  }

  predicate Rewrites(cs: nat, c: seq<Byte>, start: nat, end: nat, i: nat) {
    Min(end - Start(cs, i), |c|) > Max(start - Start(cs, i), 0)
  }

  /** The committed row of chunk `i` after a hole: None when the row is deleted. */
  function PunchedRow(cs: nat, was: FileChunk, c: seq<Byte>, start: nat, end: nat, i: nat): Option<FileChunk>
    requires cs > 0 && start < end
  {
    if !InHole(cs, start, end, i) then Some(was)
    else if FullyCovered(cs, start, end, i) then None
    else if |c| > 0 && Rewrites(cs, c, start, end, i)
            then Some(FileChunk([], Some(Sha(PunchedChunk(cs, c, start, end, i)))))
    else Some(was)
  }

  predicate HoleReadable(cs: nat, blobs: set<Sha>, f: File, start: nat, end: nat)
    requires cs > 0 && start < end
  {
    forall i | i in Load(f).chunks && InHole(cs, start, end, i) && !FullyCovered(cs, start, end, i) ::
      Load(f).chunks[i] in blobs
  }

  function PunchChunks(cs: nat, f: File, start: nat, end: nat): map<nat, FileChunk>
    requires cs > 0 && start < end
  {
    var chunks := Load(f).chunks;
    map i | i in f.chunkRows
    && (i in chunks ==> PunchedRow(cs, f.chunkRows[i], chunks[i].preimage, start, end, i).Some?) ::
      if i in chunks then PunchedRow(cs, f.chunkRows[i], chunks[i].preimage, start, end, i).value else f.chunkRows[i]
  }

  function PunchUploads(cs: nat, f: File, start: nat, end: nat): set<Sha>
    requires cs > 0 && start < end
  {
    var chunks := Load(f).chunks;
    set i | i in chunks && InHole(cs, start, end, i) && !FullyCovered(cs, start, end, i)
            && Rewrites(cs, chunks[i].preimage, start, end, i)
      :: Sha(PunchedChunk(cs, chunks[i].preimage, start, end, i))
  }

  /** A hole in inline bytes, for a file that stays short enough to inline. */
  function PunchInline(inlined: seq<Byte>, off: nat, end: nat, newSize: nat): seq<Byte> {
    var buf := FlatFile.Extend(inlined, newSize);
    ZeroRange(buf, off, Min(end, |buf|))
  }

  /** A hole in inline bytes that move out to a blob chunk because the file grew. */
  function PunchToChunk(cs: nat, inlined: seq<Byte>, off: nat, end: nat): seq<Byte> {
    ZeroRange(FlatFile.Truncate(inlined, cs), off, Min(end, cs))[..Min(|inlined|, cs)]
  }

  function PunchSize(f: File, off: nat, len: nat, keepSize: bool): nat {
    if !keepSize && off + len > f.row.size then off + len else f.row.size
  }

  function PunchEnd(f: File, off: nat, len: nat, keepSize: bool): nat {
    if keepSize && off + len > f.row.size then f.row.size else off + len
  }

  /** The committed half of a hole punch; the file has just been synced. */
  function PunchRows(cfg: Config, blobs: set<Sha>, f: File, off: nat, len: nat, keepSize: bool): Result<(File,
                     set<Sha>)>
    requires cfg.chunkSize > 0 && len > 0
  {
    var cs, inlined := cfg.chunkSize, Load(f).inlineData;
    var newSize, end := PunchSize(f, off, len, keepSize), PunchEnd(f, off, len, keepSize);
    var row := f.row.(size := newSize, contentSha := None);
    if keepSize && off >= f.row.size then Ok((f, blobs))
    else if |inlined| > 0 then
      if newSize <= cfg.maxInlineLen then
        var z := PunchInline(inlined, off, end, newSize);
        Ok((f.(row := row.(contentSha := Some(Sha(z))), chunkRows := f.chunkRows[0 := FileChunk(z, None)]), blobs))
      else
        var sha0 := Sha(PunchToChunk(cs, inlined, off, end));
        Ok((f.(row := row, chunkRows := f.chunkRows[0 := FileChunk([], Some(sha0))]), blobs + {sha0}))
    else if !HoleReadable(cs, blobs, f, off, end) then Err(BlobMissing)
    else
      Ok((f.(row := row, chunkRows := PunchChunks(cs, f, off, end)), blobs + PunchUploads(cs, f, off, end)))
  }

  // ----- create -----

  function ChunkOf(cs: nat, content: seq<Byte>, i: nat): seq<Byte>
    requires cs > 0 && i < NumChunks(cs, |content|)
  {
    NumChunksBounds(cs, |content|, i);
    content[Start(cs, i)..Min(Start(cs, i) + cs, |content|)]
  }

  /** A new regular file with initial content. */
  function CreateFile(cfg: Config, content: seq<Byte>): File
    requires cfg.chunkSize > 0
  {
    var cs := cfg.chunkSize;
    var row := Inode(false, |content|, if |content| > 0 then Some(Sha(content)) else None);
    if |content| == 0 then File(row, map[], map[], 0)
    else if |content| <= cfg.maxInlineLen then File(row, map[0 := FileChunk(content, None)], map[], 0)
    else File(row, map i: nat | 0 <= i < NumChunks(cs, |content|) ::
             FileChunk([], Some(Sha(ChunkOf(cs, content, i)))), map[], 0)
  }

  function CreateUploads(cfg: Config, content: seq<Byte>): set<Sha>
    requires cfg.chunkSize > 0
  {
    if |content| <= cfg.maxInlineLen then {}
    else set i: nat | 0 <= i < NumChunks(cfg.chunkSize, |content|) :: Sha(ChunkOf(cfg.chunkSize, content, i))
  }

  // ----- the bytes a file holds -----

  /** Byte `b` of committed chunk `i`. */
  function CommittedByte(f: File, i: nat, b: nat): Byte {
    var node := Load(f);
    if i == 0 && |node.inlineData| > 0 then At(node.inlineData, b)
    else if i in node.chunks then At(node.chunks[i].preimage, b)
    else 0
  }

  /** Byte `b` of chunk `i`: a staged chunk hides the committed chunk of the same index altogether. */
  function ChunkByte(f: File, i: nat, b: nat): Byte {
    if i in f.staged then At(f.staged[i], b) else CommittedByte(f, i, b)
  }

  function LogicalByte(cs: nat, f: File, p: nat): Byte
    requires cs > 0
  {
    IndexBounds(cs, p);
    ChunkByte(f, ChunkIndex(cs, p), p - Start(cs, ChunkIndex(cs, p)))
  }

  function LogicalSize(f: File): nat {
    if f.staged == map[] then f.row.size else CurrentSize(f)
  }

  /** The flat file this state stands for: what a read returns once everything staged is synced. */
  function Contents(cs: nat, f: File): (r: seq<Byte>)
    requires cs > 0
    ensures |r| == LogicalSize(f)
    ensures forall p :: 0 <= p < |r| ==> r[p] == LogicalByte(cs, f, p)
  {
    seq<Byte>(LogicalSize(f), p requires p >= 0 => LogicalByte(cs, f, p))
  }
}
