/** What the volume's data path promises: whatever mix of inline bytes, blob chunks and staged chunks a
    file is stored in, it is one flat array of bytes. */
module VolumeProofs {
  import opened Bytes
  import opened ChunkedWrite
  import opened VolumeModel
  import opened Options
  import FlatFile

  // ----- the shape every operation keeps -----

  /** A chunk row holds inline bytes (row 0 only) or one digest, never both and never neither. */
  predicate RowShape(i: nat, c: FileChunk) {
    if c.sha.Some? then c.inlineData == [] else i == 0 && |c.inlineData| > 0
  }

  predicate RowFits(cs: nat, size: nat, blobs: set<Sha>, i: nat, c: FileChunk) {
    c.sha.Some? ==>
      c.sha.value in blobs && |c.sha.value.preimage| <= cs && Start(cs, i) + |c.sha.value.preimage| <= size
      && Start(cs, i) < size
  }

  predicate HasInline(f: File) {
    0 in f.chunkRows && |f.chunkRows[0].inlineData| > 0
  }

  predicate StagedFits(cs: nat, size: nat, i: nat, c: seq<Byte>) {
    0 < |c| <= cs && Start(cs, i) + |c| <= size
  }

  ghost predicate Valid(cfg: Config, blobs: set<Sha>, f: File) {
    && 0 < cfg.chunkSize && cfg.maxInlineLen <= cfg.chunkSize
    && !f.row.isDir
    && (forall i | i in f.chunkRows :: RowShape(i, f.chunkRows[i]))
    && (forall i | i in f.chunkRows :: RowFits(cfg.chunkSize, f.row.size, blobs, i, f.chunkRows[i]))
    // inline bytes stand alone
    && (HasInline(f) ==> f.chunkRows.Keys == {0} && |f.chunkRows[0].inlineData| <= Min(cfg.maxInlineLen, f.row.size))
    // a whole-file digest is never the only trace of the content
    && (f.row.contentSha.Some? ==> f.chunkRows != map[])
    // staging
    && (forall i | i in f.staged :: StagedFits(cfg.chunkSize, f.stagedSize, i, f.staged[i]))
    && (if f.staged == map[] then f.stagedSize == 0 else f.row.size <= f.stagedSize)
    && (f.staged != map[] && HasInline(f) ==> 0 in f.staged)
  }

  lemma LoadShape(cfg: Config, blobs: set<Sha>, f: File)
    requires Valid(cfg, blobs, f)
    ensures HasInline(f) ==> Load(f) == Node(f.chunkRows[0].inlineData, map[])
    ensures !HasInline(f) ==> Load(f).inlineData == [] && Load(f).chunks.Keys == f.chunkRows.Keys
    ensures forall i | i in Load(f).chunks :: i in f.chunkRows && f.chunkRows[i].sha == Some(Load(f).chunks[i])
    ensures |Load(f).chunks| == 0 <==> Load(f).chunks == map[]
  {
    forall i | i in f.chunkRows
      ensures f.row.size > 0
    {
      assert RowShape(i, f.chunkRows[i]) && RowFits(cfg.chunkSize, f.row.size, blobs, i, f.chunkRows[i]);
    }
    assert |Load(f).chunks| == 0 ==> Load(f).chunks.Keys == {};
  }

  /** Under the invariant every chunk can be read, and reads as its committed bytes. */
  lemma ReadCommitted(cfg: Config, blobs: set<Sha>, f: File, i: nat)
    requires Valid(cfg, blobs, f)
    ensures var r := ReadChunk(blobs, f.row, Load(f), i);
            && r.Ok?
            && |r.value| <= cfg.chunkSize
            && (|r.value| > 0 ==> Start(cfg.chunkSize, i) + |r.value| <= f.row.size)
            && forall b: nat :: CommittedByte(f, i, b) == At(r.value, b)
  {
    LoadShape(cfg, blobs, f);
    if i in Load(f).chunks {
      assert RowFits(cfg.chunkSize, f.row.size, blobs, i, f.chunkRows[i]);
    }
  }

  /** Byte `b` of the row of chunk `i`. */
  function RowByte(rows: map<nat, FileChunk>, i: nat, b: nat): Byte {
    if i !in rows then 0
    else if rows[i].sha.Some? then At(rows[i].sha.value.preimage, b)
    else At(rows[i].inlineData, b)
  }

  /** Loading loses nothing: the committed bytes are the bytes of the rows. */
  lemma CommittedIsRow(cfg: Config, blobs: set<Sha>, f: File, i: nat, b: nat)
    requires Valid(cfg, blobs, f)
    ensures CommittedByte(f, i, b) == RowByte(f.chunkRows, i, b)
  {
    hide Start;
    LoadShape(cfg, blobs, f);
    if i in f.chunkRows {
      assert RowShape(i, f.chunkRows[i]);
    }
  }

  // ----- write -----

  lemma BeforeWriteFits(cfg: Config, blobs: set<Sha>, f: File, off: nat, data: seq<Byte>, i: nat)
    requires Valid(cfg, blobs, f) && Touches(cfg.chunkSize, off, |data|, i)
    ensures |BeforeWrite(cfg.chunkSize, blobs, f, off, |data|, i)| <=
            ExpectedLen(cfg.chunkSize, CalculatedSize(f, off, |data|), i)
  {
    hide Start;
    WriteSlice(cfg.chunkSize, off, data, i);
    LoadShape(cfg, blobs, f);
    ReadCommitted(cfg, blobs, f, i);
    if i in f.staged {
      assert StagedFits(cfg.chunkSize, f.stagedSize, i, f.staged[i]);
    }
  }

  lemma BeforeWriteByte(cfg: Config, blobs: set<Sha>, f: File, off: nat, len: nat, i: nat, b: nat)
    requires Valid(cfg, blobs, f) && (NeedsBase(cfg.chunkSize, f, off, len, i) || i in f.staged)
    ensures At(BeforeWrite(cfg.chunkSize, blobs, f, off, len, i), b) == ChunkByte(f, i, b)
  {
    hide NeedsBase;
    LoadShape(cfg, blobs, f);
    ReadCommitted(cfg, blobs, f, i);
  }

  /** A chunk whose committed bytes are not fetched is overwritten as far as the file reaches. */
  lemma CoveredByWrite(cs: nat, f: File, off: nat, len: nat, i: nat, b: nat)
    requires i !in f.staged && !NeedsBase(cs, f, off, len, i)
    requires b < cs && Start(cs, i) + b < CalculatedSize(f, off, len)
    ensures off <= Start(cs, i) + b < off + len
  {
    hide Start;
  }

  /** Whether a write stages any chunk. One without data does so off a chunk boundary, and at 0. */
  predicate TouchesAny(cs: nat, off: nat, len: nat)
    requires cs > 0
  {
    ChunkIndex(cs, off) <= LastChunk(cs, off, len)
  }

  /** A write with data lands. One without lands where it stages a chunk of a file that is not empty, and where it
      stages none but there are staged chunks, or inline bytes to stage, for its size to stand beside. */
  predicate Lands(cs: nat, f: File, off: nat, len: nat)
    requires cs > 0
  {
    || len > 0
    || (if TouchesAny(cs, off, len) then CalculatedSize(f, off, len) > 0
        else StageInline(f) != map[] || CalculatedSize(f, off, len) == 0)
  }

  lemma StagedByWriteBytes(cfg: Config, blobs: set<Sha>, f: File, off: nat, data: seq<Byte>, i: nat, b: nat)
    requires Valid(cfg, blobs, f) && Touches(cfg.chunkSize, off, |data|, i) && b < cfg.chunkSize
    requires Lands(cfg.chunkSize, f, off, |data|)
    ensures var cs, size := cfg.chunkSize, CalculatedSize(f, off, |data|);
            var w := StagedByWrite(cs, blobs, f, off, data, i);
            && StagedFits(cs, size, i, w)
            && (Start(cs, i) + b < size ==>
                 At(w, b) == if off <= Start(cs, i) + b < off + |data| then data[Start(cs, i) + b - off]
                 else ChunkByte(f, i, b))
  {
    hide Start, ChunkIndex, ChunkByte, BeforeWrite, WrittenChunk, NeedsBase, ExpectedLen, StageInline;
    var cs, size := cfg.chunkSize, CalculatedSize(f, off, |data|);
    BeforeWriteFits(cfg, blobs, f, off, data, i);
    if i in f.staged || NeedsBase(cs, f, off, |data|, i) {
      BeforeWriteByte(cfg, blobs, f, off, |data|, i, b);
    } else if Start(cs, i) + b < size {
      CoveredByWrite(cs, f, off, |data|, i, b);
    }
    TouchedLength(cs, size, off, data, i);
    WrittenChunkBytes(cs, BeforeWrite(cs, blobs, f, off, |data|, i), size, off, data, i, b);
  }

  lemma TouchedLength(cs: nat, size: nat, off: nat, data: seq<Byte>, i: nat)
    requires cs > 0 && off + |data| <= size && size > 0 && Touches(cs, off, |data|, i)
    ensures 0 < ExpectedLen(cs, size, i) <= cs && Start(cs, i) + ExpectedLen(cs, size, i) <= size
  {
    hide Start, ChunkIndex;
    WriteSlice(cs, off, data, i);
  }

  lemma WriteKeepsStaged(cfg: Config, blobs: set<Sha>, f: File, off: nat, data: seq<Byte>, i: nat)
    requires Valid(cfg, blobs, f) && Lands(cfg.chunkSize, f, off, |data|)
    requires i in WriteFile(cfg, blobs, f, off, data).staged
    ensures StagedFits(cfg.chunkSize, CalculatedSize(f, off, |data|), i, WriteFile(cfg, blobs, f, off, data).staged[i])
  {
    if Touches(cfg.chunkSize, off, |data|, i) {
      StagedByWriteBytes(cfg, blobs, f, off, data, i, 0);
    } else {
      LoadShape(cfg, blobs, f);
      if i in f.staged {
        assert StagedFits(cfg.chunkSize, f.stagedSize, i, f.staged[i]);
      }
    }
  }

  lemma WriteFetches(cfg: Config, blobs: set<Sha>, f: File, off: nat, len: nat)
    requires Valid(cfg, blobs, f)
    ensures BaseReadable(cfg.chunkSize, blobs, f, off, len)
  {
    hide Valid, ReadChunk;
    ValidConfig(cfg, blobs, f);
    forall i: nat | i <= LastChunk(cfg.chunkSize, off, len)
      ensures ReadChunk(blobs, f.row, Load(f), i).Ok?
    {
      ReadCommitted(cfg, blobs, f, i);
    }
  }

  lemma WriteKeepsValid(cfg: Config, blobs: set<Sha>, f: File, off: nat, data: seq<Byte>)
    requires Valid(cfg, blobs, f) && Lands(cfg.chunkSize, f, off, |data|)
    ensures Valid(cfg, blobs, WriteFile(cfg, blobs, f, off, data))
  {
    var cs := cfg.chunkSize;
    var g := WriteFile(cfg, blobs, f, off, data);
    forall i | i in g.staged
      ensures StagedFits(cs, g.stagedSize, i, g.staged[i])
    {
      WriteKeepsStaged(cfg, blobs, f, off, data, i);
    }
    WriteStages(cfg, blobs, f, off, data);
    if HasInline(f) {
      LoadShape(cfg, blobs, f);
    }
  }

  /** A write changes only what is staged, and its size is the one it reports. */
  lemma WriteChanges(cfg: Config, blobs: set<Sha>, f: File, off: nat, data: seq<Byte>)
    requires Valid(cfg, blobs, f)
    ensures var g := WriteFile(cfg, blobs, f, off, data);
            && g == f.(staged := g.staged, stagedSize := CalculatedSize(f, off, |data|))
            && CalculatedSize(f, off, |data|) == Max(LogicalSize(f), off + |data|)
  {
    hide Start, StagedByWrite;
  }

  /** What a write has staged: its own chunk, or only what was there and the inline bytes. */
  lemma WriteStages(cfg: Config, blobs: set<Sha>, f: File, off: nat, data: seq<Byte>)
    requires cfg.chunkSize > 0
    ensures var g := WriteFile(cfg, blobs, f, off, data);
            if TouchesAny(cfg.chunkSize, off, |data|) then ChunkIndex(cfg.chunkSize, off) in g.staged
            else g.staged == StageInline(f)
    ensures data != [] ==> TouchesAny(cfg.chunkSize, off, |data|)
  {
    hide StagedByWrite;
    if data != [] {
      FirstTouched(cfg.chunkSize, off, |data|);
    }
    var g := WriteFile(cfg, blobs, f, off, data);
    if TouchesAny(cfg.chunkSize, off, |data|) {
      assert Touches(cfg.chunkSize, off, |data|, ChunkIndex(cfg.chunkSize, off));
      assert ChunkIndex(cfg.chunkSize, off) in g.staged;
    }
  }

  /** A write keeps the state valid if and only if it lands. Otherwise it leaves a chunk without bytes, or a size
      without chunks. */
  lemma WriteKeepsValidIff(cfg: Config, blobs: set<Sha>, f: File, off: nat, data: seq<Byte>)
    requires Valid(cfg, blobs, f)
    ensures Valid(cfg, blobs, WriteFile(cfg, blobs, f, off, data)) <==> Lands(cfg.chunkSize, f, off, |data|)
  {
    hide Valid, WriteFile, StageInline;
    ValidConfig(cfg, blobs, f);
    if Lands(cfg.chunkSize, f, off, |data|) {
      WriteKeepsValid(cfg, blobs, f, off, data);
    } else {
      NotLanded(cfg, blobs, f, off);
    }
  }

  lemma NotLanded(cfg: Config, blobs: set<Sha>, f: File, off: nat)
    requires Valid(cfg, blobs, f) && !Lands(cfg.chunkSize, f, off, 0)
    ensures var g := WriteFile(cfg, blobs, f, off, []);
            && !Valid(cfg, blobs, g) && g.row == f.row
            && if TouchesAny(cfg.chunkSize, off, 0) then
                 0 in g.staged && g.staged[0] == [] && g.stagedSize == f.row.size == off == 0
               else g == f.(stagedSize := Max(f.row.size, off)) && f.staged == map[]
  {
    hide Start, ChunkIndex;
    var g := WriteFile(cfg, blobs, f, off, []);
    WriteStages(cfg, blobs, f, off, []);
    if TouchesAny(cfg.chunkSize, off, 0) {
      IndexUnique(cfg.chunkSize, 0, 0);
      StartZero(cfg.chunkSize);
      BeforeWriteFits(cfg, blobs, f, off, [], 0);
      assert g.staged[0] == StagedByWrite(cfg.chunkSize, blobs, f, off, [], 0);
      assert !StagedFits(cfg.chunkSize, g.stagedSize, 0, g.staged[0]);
    }
  }

  /** A write changes only the chunks it touches, apart from moving inline bytes to staged chunk 0. */
  lemma WriteUntouched(cfg: Config, blobs: set<Sha>, f: File, off: nat, data: seq<Byte>, i: nat, b: nat)
    requires cfg.chunkSize > 0 && !Touches(cfg.chunkSize, off, |data|, i)
    ensures ChunkByte(WriteFile(cfg, blobs, f, off, data), i, b) == ChunkByte(f, i, b)
  {
    var g := WriteFile(cfg, blobs, f, off, data);
    var st := StageInline(f);
    assert i in g.staged <==> i in st;
    assert Load(g) == Load(f);
  }

  lemma WriteTouched(cfg: Config, blobs: set<Sha>, f: File, off: nat, data: seq<Byte>, i: nat, b: nat)
    requires cfg.chunkSize > 0 && Touches(cfg.chunkSize, off, |data|, i)
    ensures ChunkByte(WriteFile(cfg, blobs, f, off, data), i,
                b) == At(StagedByWrite(cfg.chunkSize, blobs, f, off, data, i), b)
  {
  }

  lemma WriteChunkByte(cfg: Config, blobs: set<Sha>, f: File, off: nat, data: seq<Byte>, i: nat, b: nat)
    requires Valid(cfg, blobs, f) && b < cfg.chunkSize
    requires Start(cfg.chunkSize, i) + b < CalculatedSize(f, off, |data|)
    requires Lands(cfg.chunkSize, f, off, |data|)
    ensures var p := Start(cfg.chunkSize, i) + b;
            ChunkByte(WriteFile(cfg, blobs, f, off, data), i, b) ==
            if off <= p < off + |data| then data[p - off] else ChunkByte(f, i, b)
  {
    hide WriteFile, ChunkByte, StagedByWrite, Lands;
    if Touches(cfg.chunkSize, off, |data|, i) {
      WriteTouched(cfg, blobs, f, off, data, i, b);
      StagedByWriteBytes(cfg, blobs, f, off, data, i, b);
    } else {
      UntouchedBytes(cfg.chunkSize, off, |data|, i, b);
      WriteUntouched(cfg, blobs, f, off, data, i, b);
    }
  }

  lemma WriteSize(cfg: Config, blobs: set<Sha>, f: File, off: nat, data: seq<Byte>)
    requires Valid(cfg, blobs, f) && Lands(cfg.chunkSize, f, off, |data|)
    ensures LogicalSize(WriteFile(cfg, blobs, f, off, data)) == Max(LogicalSize(f), off + |data|)
  {
    WriteStages(cfg, blobs, f, off, data);
  }

  /** A write that lands is the flat overlay. */
  lemma WriteIsFlat(cfg: Config, blobs: set<Sha>, f: File, off: nat, data: seq<Byte>)
    requires Valid(cfg, blobs, f) && Lands(cfg.chunkSize, f, off, |data|)
    ensures Contents(cfg.chunkSize, WriteFile(cfg, blobs, f, off, data)) ==
            FlatFile.Write(Contents(cfg.chunkSize, f), off, data)
  {
    hide WriteFile, ChunkByte, Contents;
    var cs := cfg.chunkSize;
    var g, flat := WriteFile(cfg, blobs, f, off, data), FlatFile.Write(Contents(cs, f), off, data);
    WriteSize(cfg, blobs, f, off, data);
    forall i: nat, b: nat | b < cs && Start(cs, i) + b < |flat|
      ensures ChunkByte(g, i, b) == flat[Start(cs, i) + b]
    {
      WriteChunkByte(cfg, blobs, f, off, data, i, b);
      ChunkOfContents(cfg, blobs, f, i, b);
    }
    ContentsAre(cs, g, flat);
  }

  /** And in all a write is the flat overlay if and only if it lands or does not reach past the end. */
  lemma WriteIsFlatIff(cfg: Config, blobs: set<Sha>, f: File, off: nat, data: seq<Byte>)
    requires Valid(cfg, blobs, f)
    ensures Contents(cfg.chunkSize, WriteFile(cfg, blobs, f, off, data)) ==
            FlatFile.Write(Contents(cfg.chunkSize, f), off, data)
            <==> Lands(cfg.chunkSize, f, off, |data|) || off <= f.row.size
  {
    hide Valid, WriteFile, StageInline, ChunkByte, FlatFile.Write, Start, ChunkIndex;
    ValidConfig(cfg, blobs, f);
    if Lands(cfg.chunkSize, f, off, |data|) {
      WriteIsFlat(cfg, blobs, f, off, data);
    } else {
      assert data == [];
      NotLanded(cfg, blobs, f, off);
      SameContents(cfg, blobs, f, off);
    }
  }

  lemma SameContents(cfg: Config, blobs: set<Sha>, f: File, off: nat)
    requires Valid(cfg, blobs, f) && !Lands(cfg.chunkSize, f, off, 0)
    ensures Contents(cfg.chunkSize, WriteFile(cfg, blobs, f, off, [])) == Contents(cfg.chunkSize, f)
    ensures |Contents(cfg.chunkSize, f)| == f.row.size
  {
    hide WriteFile, Start, ChunkIndex, ChunkByte;
    var g := WriteFile(cfg, blobs, f, off, []);
    NotLanded(cfg, blobs, f, off);
    if TouchesAny(cfg.chunkSize, off, 0) {
      assert Contents(cfg.chunkSize, g) == [];
    } else {
      SameBytes(cfg.chunkSize, f, g);
    }
  }

  lemma SameBytes(cs: nat, f: File, g: File)
    requires cs > 0 && g == f.(stagedSize := g.stagedSize) && f.staged == map[]
    ensures Contents(cs, g) == Contents(cs, f)
  {
    hide Start, ChunkIndex;
    assert Load(g) == Load(f);
    forall p: nat
      ensures LogicalByte(cs, g, p) == LogicalByte(cs, f, p)
    {
    }
  }

  /** An empty write at a chunk boundary past the end of an empty file stages nothing and a sync drops it, but the next
      byte written makes the file that long. */
  lemma EmptyWriteLingers()
    ensures var cfg := Config(4, 4);
            var f := CreateFile(cfg, []);
            var g := WriteFile(cfg, {}, f, 4, []);
            && SyncIfStaged(cfg, g) == g && Contents(4, g) == []
            && Contents(4, WriteFile(cfg, {}, g, 0, [1])) == [1, 0, 0, 0]
            && Contents(4, WriteFile(cfg, {}, f, 0, [1])) == [1]
  {
    hide Start, ChunkIndex, WriteFile, Contents;
    var cfg := Config(4, 4);
    var f := CreateFile(cfg, []);
    var g := WriteFile(cfg, {}, f, 4, []);
    BoundaryWrite();
    OneByteWrite(f);
    OneByteWrite(g);
  }

  lemma BoundaryWrite()
    ensures var f := CreateFile(Config(4, 4), []);
            WriteFile(Config(4, 4), {}, f, 4, []) == f.(stagedSize := 4) && Contents(4, f.(stagedSize := 4)) == []
  {
    IndexUnique(4, 1, 4);
    IndexUnique(4, 0, 3);
    WriteStages(Config(4, 4), {}, CreateFile(Config(4, 4), []), 4, []);
  }

  lemma OneByteWrite(f: File)
    requires f == File(Inode(false, 0, None), map[], map[], f.stagedSize) && (f.stagedSize == 0 || f.stagedSize == 4)
    ensures Contents(4, WriteFile(Config(4, 4), {}, f, 0, [1])) == if f.stagedSize == 0 then [1] else [1, 0, 0, 0]
  {
    hide Start, ChunkIndex, StagedByWrite;
    StartZero(4);
    IndexUnique(4, 0, 0);
    var g := WriteFile(Config(4, 4), {}, f, 0, [1]);
    WriteStages(Config(4, 4), {}, f, 0, [1]);
    assert LastChunk(4, 0, 1) == 0 && g.staged.Keys == {0};
    assert StagedByWrite(4, {}, f, 0, [1], 0) == if f.stagedSize == 0 then [1] else [1, 0, 0, 0] by {
      FourBytes(f);
    }
    forall p: nat | p < 4
      ensures LogicalByte(4, g, p) == At(g.staged[0], p)
    {
      IndexUnique(4, 0, p);
    }
  }

  lemma FourBytes(f: File)
    requires f == File(Inode(false, 0, None), map[], map[], f.stagedSize) && (f.stagedSize == 0 || f.stagedSize == 4)
    requires Touches(4, 0, 1, 0)
    ensures StagedByWrite(4, {}, f, 0, [1], 0) == if f.stagedSize == 0 then [1] else [1, 0, 0, 0]
  {
    hide ChunkIndex;
    StartZero(4);
  }

  // ----- chunks and flat bytes -----

  ghost predicate ChunksHold(cs: nat, f: File, flat: seq<Byte>) {
    forall i: nat, b: nat | b < cs && Start(cs, i) + b < |flat| :: ChunkByte(f, i, b) == flat[Start(cs, i) + b]
  }

  lemma ContentsAre(cs: nat, f: File, flat: seq<Byte>)
    requires cs > 0 && |flat| == LogicalSize(f) && ChunksHold(cs, f, flat)
    ensures Contents(cs, f) == flat
  {
    forall p | 0 <= p < |flat|
      ensures LogicalByte(cs, f, p) == flat[p]
    {
      IndexBounds(cs, p);
    }
  }

  lemma ContentsAt(cs: nat, f: File, i: nat, b: nat)
    requires cs > 0 && b < cs
    ensures At(Contents(cs, f), Start(cs, i) + b) == if Start(cs, i) + b < LogicalSize(f) then ChunkByte(f, i, b) else 0
  {
    hide ChunkByte, Start, ChunkIndex;
    IndexUnique(cs, i, Start(cs, i) + b);
  }

  /** Nothing is stored past the end of the file: every chunk byte is a byte of the contents, or zero. */
  lemma ChunkOfContents(cfg: Config, blobs: set<Sha>, f: File, i: nat, b: nat)
    requires Valid(cfg, blobs, f) && b < cfg.chunkSize
    ensures ChunkByte(f, i, b) == At(Contents(cfg.chunkSize, f), Start(cfg.chunkSize, i) + b)
  {
    hide ChunkByte, Contents;
    ContentsAt(cfg.chunkSize, f, i, b);
    if Start(cfg.chunkSize, i) + b >= LogicalSize(f) {
      ChunkPastEnd(cfg, blobs, f, i, b);
    }
  }

  lemma ChunkPastEnd(cfg: Config, blobs: set<Sha>, f: File, i: nat, b: nat)
    requires Valid(cfg, blobs, f) && b < cfg.chunkSize && Start(cfg.chunkSize, i) + b >= LogicalSize(f)
    ensures ChunkByte(f, i, b) == 0
  {
    if i in f.staged {
      assert StagedFits(cfg.chunkSize, f.stagedSize, i, f.staged[i]);
    } else {
      ReadCommitted(cfg, blobs, f, i);
    }
  }

  // ----- sync -----

  lemma ValidWithMoreBlobs(cfg: Config, blobs: set<Sha>, more: set<Sha>, f: File)
    requires Valid(cfg, blobs, f) && blobs <= more
    ensures Valid(cfg, more, f)
  {
    hide Start;
    forall i | i in f.chunkRows
      ensures RowFits(cfg.chunkSize, f.row.size, more, i, f.chunkRows[i])
    {
      assert RowFits(cfg.chunkSize, f.row.size, blobs, i, f.chunkRows[i]);
    }
  }

  /** A file short enough to inline holds nothing outside chunk 0. */
  lemma InlineIsChunkZero(cfg: Config, blobs: set<Sha>, f: File)
    requires Valid(cfg, blobs, f) && CurrentSize(f) <= cfg.maxInlineLen
    ensures f.chunkRows.Keys <= {0} && f.staged.Keys <= {0}
  {
    forall i | i in f.chunkRows.Keys + f.staged.Keys
      ensures i == 0
    {
      StartMonotone(cfg.chunkSize, 0, i);
      if i in f.chunkRows {
        assert RowShape(i, f.chunkRows[i]) && RowFits(cfg.chunkSize, f.row.size, blobs, i, f.chunkRows[i]);
      } else {
        assert StagedFits(cfg.chunkSize, f.stagedSize, i, f.staged[i]);
      }
    }
  }

  lemma SyncInline(cfg: Config, blobs: set<Sha>, f: File, i: nat, b: nat)
    requires Valid(cfg, blobs, f) && f.staged != map[] && f.stagedSize <= cfg.maxInlineLen
    ensures Valid(cfg, Uploaded(blobs, f), SyncFile(cfg, f))
    ensures ChunkByte(SyncFile(cfg, f), i, b) == ChunkByte(f, i, b)
  {
    hide Start;
    InlineIsChunkZero(cfg, blobs, f);
    assert f.staged.Keys == {0} && |f.staged.Keys| == 1;
    assert StagedFits(cfg.chunkSize, f.stagedSize, 0, f.staged[0]);
  }

  lemma SyncChunks(cfg: Config, blobs: set<Sha>, f: File)
    requires Valid(cfg, blobs, f) && f.staged != map[] && f.stagedSize > cfg.maxInlineLen
    ensures Valid(cfg, Uploaded(blobs, f), SyncFile(cfg, f))
  {
    hide Start;
    var g, more := SyncFile(cfg, f), Uploaded(blobs, f);
    forall i | i in g.chunkRows
      ensures RowShape(i, g.chunkRows[i]) && RowFits(cfg.chunkSize, g.row.size, more, i, g.chunkRows[i])
    {
      if i in f.staged {
        assert StagedFits(cfg.chunkSize, f.stagedSize, i, f.staged[i]);
      } else {
        assert RowShape(i, f.chunkRows[i]) && RowFits(cfg.chunkSize, f.row.size, blobs, i, f.chunkRows[i]);
      }
    }
  }

  lemma SyncChunkByte(cfg: Config, blobs: set<Sha>, f: File, i: nat, b: nat)
    requires Valid(cfg, blobs, f) && f.staged != map[] && f.stagedSize > cfg.maxInlineLen
    ensures ChunkByte(SyncFile(cfg, f), i, b) == ChunkByte(f, i, b)
  {
    hide Start, CommittedByte, Valid;
    SyncChunks(cfg, blobs, f);
    CommittedIsRow(cfg, blobs, f, i, b);
    CommittedIsRow(cfg, Uploaded(blobs, f), SyncFile(cfg, f), i, b);
  }

  /** A sync changes where the bytes are kept, not the bytes. */
  lemma SyncIsInvisible(cfg: Config, blobs: set<Sha>, f: File)
    requires Valid(cfg, blobs, f) && f.staged != map[]
    ensures Valid(cfg, Uploaded(blobs, f), SyncFile(cfg, f))
    ensures SyncFile(cfg, f).staged == map[]
    ensures Contents(cfg.chunkSize, SyncFile(cfg, f)) == Contents(cfg.chunkSize, f)
  {
    hide ChunkByte, Contents, Start;
    var cs, g := cfg.chunkSize, SyncFile(cfg, f);
    var flat := Contents(cs, f);
    forall i: nat, b: nat | b < cs && Start(cs, i) + b < |flat|
      ensures ChunkByte(g, i, b) == flat[Start(cs, i) + b]
    {
      if f.stagedSize <= cfg.maxInlineLen {
        SyncInline(cfg, blobs, f, i, b);
      } else {
        SyncChunkByte(cfg, blobs, f, i, b);
      }
      ContentsAt(cs, f, i, b);
    }
    if f.stagedSize <= cfg.maxInlineLen {
      SyncInline(cfg, blobs, f, 0, 0);
    } else {
      SyncChunks(cfg, blobs, f);
    }
    ContentsAre(cs, g, flat);
  }

  // ----- truncate -----

  /** The rows of `g` hold what the rows of `f` held below `size`. */
  ghost predicate RowsCut(cs: nat, f: File, g: File, size: nat) {
    forall i: nat, b: nat | b < cs && Start(cs, i) + b < size ::
             RowByte(g.chunkRows, i, b) == RowByte(f.chunkRows, i, b)
  }

  function Unstaged(f: File): File {
    f.(staged := map[], stagedSize := 0)
  }

  lemma TruncateToZero(cfg: Config, blobs: set<Sha>, f: File)
    requires Valid(cfg, blobs, Unstaged(f))
    ensures var r := TruncateRows(cfg, blobs, f, 0);
            r.Ok? && r.value.1 == blobs
            && r.value.0 == f.(row := f.row.(size := 0, contentSha := None), chunkRows := map[])
  {
    hide Start;
    LoadShape(cfg, blobs, Unstaged(f));
  }

  lemma TruncateInlineRows(cfg: Config, blobs: set<Sha>, f: File, size: nat)
    requires Valid(cfg, blobs, Unstaged(f)) && size > 0
    requires f.chunkRows.Keys <= Load(f).chunks.Keys + {0}
    ensures var r := TruncateToInline(blobs, f, size);
            r.Ok? && r.value.Keys == {0} && r.value[0].sha.None? && |r.value[0].inlineData| == size
  {
    hide Start, Valid, CommittedByte, Load, ReadChunk;
    LoadIgnoresStaging(f);
    ReadCommitted(cfg, blobs, Unstaged(f), 0);
  }

  lemma TruncateInlineByte(cfg: Config, blobs: set<Sha>, f: File, size: nat, b: nat)
    requires Valid(cfg, blobs, Unstaged(f)) && b < size
    ensures var r := TruncateToInline(blobs, f, size);
            r.Ok? && RowByte(r.value, 0, b) == RowByte(f.chunkRows, 0, b)
  {
    hide Start, Valid, CommittedByte, Load, ReadChunk;
    LoadIgnoresStaging(f);
    ReadCommitted(cfg, blobs, Unstaged(f), 0);
    CommittedIsRow(cfg, blobs, Unstaged(f), 0, b);
  }

  lemma LoadIgnoresStaging(f: File)
    ensures Load(f) == Load(Unstaged(f))
  {
  }

  /** What a chunked truncate does to row `i`: drops it, keeps it, or replaces it by its first bytes. */
  predicate TruncatedRow(cs: nat, blobs: set<Sha>, size: nat, rows: map<nat, FileChunk>, rows': map<nat, FileChunk>,
                         i: nat)
    requires i in rows
  {
    if rows[i].sha.None? then i in rows' && rows'[i] == rows[i]
    else if Start(cs, i) >= size then i !in rows'
    else
      && i in rows' && rows'[i].sha.Some? && rows'[i].inlineData == []
      && var was, now := rows[i].sha.value.preimage, rows'[i].sha.value.preimage;
         && (now == was || rows'[i].sha.value in blobs)
         && now == if |was| > size - Start(cs, i) then was[..size - Start(cs, i)] else was
  }

  /** A valid row, as the rows and the loaded inode see it. */
  lemma RowOk(cfg: Config, blobs: set<Sha>, f: File, i: nat)
    requires Valid(cfg, blobs, f) && i in f.chunkRows
    ensures RowShape(i, f.chunkRows[i]) && RowFits(cfg.chunkSize, f.row.size, blobs, i, f.chunkRows[i])
    ensures i in Load(f).chunks <==> f.chunkRows[i].sha.Some?
    ensures i in Load(f).chunks ==> f.chunkRows[i].sha == Some(Load(f).chunks[i])
  {
    hide Start;
    LoadShape(cfg, blobs, f);
    assert RowShape(i, f.chunkRows[i]);
  }

  lemma ReadRow(cfg: Config, blobs: set<Sha>, f: File, i: nat)
    requires Valid(cfg, blobs, f) && i in Load(f).chunks
    ensures i in f.chunkRows && ReadChunk(blobs, f.row, Load(f), i) == Ok(Load(f).chunks[i].preimage)
  {
    hide Start;
    LoadShape(cfg, blobs, f);
    assert RowFits(cfg.chunkSize, f.row.size, blobs, i, f.chunkRows[i]);
  }

  lemma TruncateChunksOk(cfg: Config, blobs: set<Sha>, f: File, size: nat)
    requires Valid(cfg, blobs, Unstaged(f)) && cfg.chunkSize > 0 && size > 0
    ensures var r := TruncateChunks(cfg.chunkSize, blobs, f, size);
            && r.Ok? && blobs <= r.value.1
            && forall i | i in r.value.0 :: i in f.chunkRows
  {
    hide Start, ChunkIndex, Valid, Load, ReadChunk;
    LoadIgnoresStaging(f);
    var last := NumChunks(cfg.chunkSize, size) - 1;
    NumChunksBounds(cfg.chunkSize, size, 0);
    if last in Load(f).chunks {
      ReadRow(cfg, blobs, Unstaged(f), last);
    }
  }

  lemma TruncatedRowIs(cfg: Config, blobs: set<Sha>, f: File, size: nat, i: nat)
    requires Valid(cfg, blobs, Unstaged(f)) && cfg.chunkSize > 0 && size > 0 && i in f.chunkRows
    ensures var r := TruncateChunks(cfg.chunkSize, blobs, f, size);
            r.Ok? && TruncatedRow(cfg.chunkSize, r.value.1, size, f.chunkRows, r.value.0, i)
  {
    hide Start, ChunkIndex, Valid, Load, ReadChunk;
    var cs := cfg.chunkSize;
    LoadIgnoresStaging(f);
    RowOk(cfg, blobs, Unstaged(f), i);
    NumChunksBounds(cs, size, 0);
    NumChunksBounds(cs, size, i);
    var last: nat := NumChunks(cs, size) - 1;
    NumChunksBounds(cs, size, last);
    StartMonotone(cs, i, last);
    if last in Load(f).chunks {
      ReadRow(cfg, blobs, Unstaged(f), last);
    }
  }

  lemma TruncatedRowByte(cs: nat, blobs: set<Sha>, size: nat, rows: map<nat, FileChunk>, rows': map<nat, FileChunk>,
                         i: nat, b: nat)
    requires Start(cs, i) + b < size
    requires i in rows' ==> i in rows
    requires i in rows ==> TruncatedRow(cs, blobs, size, rows, rows', i)
    ensures RowByte(rows', i, b) == RowByte(rows, i, b)
  {
    hide Start;
  }

  lemma TruncateChunksKeeps(cfg: Config, blobs: set<Sha>, f: File, size: nat)
    requires Valid(cfg, blobs, Unstaged(f)) && size > 0
    requires HasInline(f) ==> size > cfg.maxInlineLen
    ensures var r := TruncateChunks(cfg.chunkSize, blobs, f, size);
            && r.Ok? && blobs <= r.value.1
            && var g := f.(row := f.row.(size := size, contentSha := None), chunkRows := r.value.0);
               && Valid(cfg, r.value.1, Unstaged(g)) && RowsCut(cfg.chunkSize, f, g, size)
               && (HasInline(g) ==> HasInline(f))
  {
    hide Start, ChunkIndex, Load, TruncateChunks;
    var cs := cfg.chunkSize;
    TruncateChunksOk(cfg, blobs, f, size);
    var (rows, more) := TruncateChunks(cs, blobs, f, size).value;
    forall i | i in f.chunkRows
      ensures TruncatedRow(cs, more, size, f.chunkRows, rows, i)
    {
      TruncatedRowIs(cfg, blobs, f, size, i);
    }
    forall i | i in rows
      ensures RowShape(i, rows[i]) && RowFits(cs, size, more, i, rows[i])
    {
      assert RowShape(i, f.chunkRows[i]) && RowFits(cs, f.row.size, blobs, i, f.chunkRows[i]);
      assert TruncatedRow(cs, more, size, f.chunkRows, rows, i);
    }
    if 0 in f.chunkRows {
      assert RowShape(0, f.chunkRows[0]);
      assert TruncatedRow(cs, more, size, f.chunkRows, rows, 0);
    }
    forall i: nat, b: nat | b < cs && Start(cs, i) + b < size
      ensures RowByte(rows, i, b) == RowByte(f.chunkRows, i, b)
    {
      TruncatedRowByte(cs, more, size, f.chunkRows, rows, i, b);
    }
  }

  lemma LoadKeys(cfg: Config, blobs: set<Sha>, f: File)
    requires Valid(cfg, blobs, Unstaged(f))
    ensures HasInline(f) ==> |Load(f).chunks| == 0
    ensures f.chunkRows.Keys <= Load(f).chunks.Keys + {0}
  {
    hide Start;
    LoadIgnoresStaging(f);
    LoadShape(cfg, blobs, Unstaged(f));
  }

  lemma TruncateRowsKeeps(cfg: Config, blobs: set<Sha>, f: File, size: nat)
    requires Valid(cfg, blobs, Unstaged(f))
    ensures var r := TruncateRows(cfg, blobs, f, size);
            && r.Ok? && blobs <= r.value.1 && r.value.0.row.size == size
            && r.value.0.staged == f.staged && r.value.0.stagedSize == f.stagedSize
            && Valid(cfg, r.value.1, Unstaged(r.value.0)) && RowsCut(cfg.chunkSize, f, r.value.0, size)
            && (HasInline(r.value.0) ==> HasInline(f) || size <= cfg.maxInlineLen)
  {
    hide Start, Load, TruncateToInline, TruncateChunks;
    LoadKeys(cfg, blobs, f);
    if size == 0 {
      TruncateToZero(cfg, blobs, f);
    } else if size <= cfg.maxInlineLen && |Load(f).chunks| <= 1 {
      TruncateInlineRows(cfg, blobs, f, size);
      var g := TruncateRows(cfg, blobs, f, size).value.0;
      forall i: nat, b: nat | b < cfg.chunkSize && Start(cfg.chunkSize, i) + b < size
        ensures RowByte(g.chunkRows, i, b) == RowByte(f.chunkRows, i, b)
      {
        StartZero(cfg.chunkSize);
        StartMonotone(cfg.chunkSize, 0, i);
        TruncateInlineByte(cfg, blobs, f, size, b);
      }
    } else {
      TruncateChunksKeeps(cfg, blobs, f, size);
    }
  }

  lemma StartZero(cs: nat)
    ensures Start(cs, 0) == 0
  {
  }

  lemma TruncatedStagedByte(cs: nat, staged: map<nat, seq<Byte>>, size: nat, i: nat, b: nat)
    requires Start(cs, i) + b < size
    ensures i in TruncatedStaged(cs, staged, size) <==> i in staged
    ensures i in staged ==> At(TruncatedStaged(cs, staged, size)[i], b) == At(staged[i], b)
  {
    hide Start;
  }

  lemma TruncateKeepsValid(cfg: Config, blobs: set<Sha>, f: File, size: nat)
    requires Valid(cfg, blobs, f)
    ensures var (e, g, more) := TruncateFile(cfg, blobs, f, size);
            && e == None && blobs <= more && Valid(cfg, more, g) && LogicalSize(g) == size
            && RowsCut(cfg.chunkSize, f, g, size) && g.staged == TruncatedStaged(cfg.chunkSize, f.staged, size)
  {
    hide Start, TruncateRows;
    var cs, h := cfg.chunkSize, TruncateStaging(cfg.chunkSize, f, size);
    assert Unstaged(h) == Unstaged(f);
    TruncateRowsKeeps(cfg, blobs, h, size);
    var (g, more) := TruncateRows(cfg, blobs, h, size).value;
    StartZero(cs);
    forall i | i in g.staged
      ensures StagedFits(cs, size, i, g.staged[i])
    {
      assert StagedFits(cs, f.stagedSize, i, f.staged[i]);
    }
    if g.staged != map[] && size <= cfg.maxInlineLen {
      var i :| i in g.staged;
      StartMonotone(cs, 0, i);
      assert i == 0;
    }
  }

  /** A truncate is the flat cut or zero-extension. */
  lemma TruncateIsFlat(cfg: Config, blobs: set<Sha>, f: File, size: nat)
    requires Valid(cfg, blobs, f)
    ensures Contents(cfg.chunkSize, TruncateFile(cfg, blobs, f, size).1) ==
            FlatFile.Truncate(Contents(cfg.chunkSize, f), size)
  {
    hide Start, Contents, TruncateFile, CommittedByte;
    var cs := cfg.chunkSize;
    var (e, g, more) := TruncateFile(cfg, blobs, f, size);
    var flat := FlatFile.Truncate(Contents(cs, f), size);
    TruncateKeepsValid(cfg, blobs, f, size);
    forall i: nat, b: nat | b < cs && Start(cs, i) + b < size
      ensures ChunkByte(g, i, b) == flat[Start(cs, i) + b]
    {
      TruncatedStagedByte(cs, f.staged, size, i, b);
      CommittedIsRow(cfg, blobs, f, i, b);
      CommittedIsRow(cfg, more, g, i, b);
      ChunkOfContents(cfg, blobs, f, i, b);
    }
    ContentsAre(cs, g, flat);
  }

  /** A refused truncate keeps the contents exactly when nothing was staged past the committed bytes:
      a negative size drops the staged chunks before it is refused. */
  lemma RefusedTruncate(cfg: Config, blobs: set<Sha>, f: File, size: int)
    requires Valid(cfg, blobs, f) && size < 0
    ensures TruncateFile(cfg, blobs, f, size) == (Some(EINVAL), Unstaged(f), blobs)
    ensures TruncateFile(cfg, blobs, f, size).1 == f <==> f.staged == map[]
  {
    assert TruncatedStaged(cfg.chunkSize, f.staged, size) == map[];
  }

  lemma UnstagedIsValid(cfg: Config, blobs: set<Sha>, f: File)
    requires Valid(cfg, blobs, f)
    ensures Valid(cfg, blobs, Unstaged(f))
  {
    hide Start;
  }

  // ----- punch hole -----

  ghost predicate RowsPunched(cs: nat, f: File, g: File, off: nat, end: nat) {
    forall i: nat, b: nat | b < cs ::
      RowByte(g.chunkRows, i, b) == if off <= Start(cs, i) + b < end then 0 else RowByte(f.chunkRows, i, b)
  }

  lemma PunchedRowByte(cs: nat, was: FileChunk, off: nat, end: nat, i: nat, b: nat)
    requires cs > 0 && off < end && b < cs && was.sha.Some?
    ensures var r := PunchedRow(cs, was, was.sha.value.preimage, off, end, i);
            (if r.Some? then At(if r.value.sha.Some? then r.value.sha.value.preimage else r.value.inlineData, b)
                else 0) ==
            if off <= Start(cs, i) + b < end then 0 else At(was.sha.value.preimage, b)
  {
    hide Start, ChunkIndex;
    IndexUnique(cs, i, off);
    IndexUnique(cs, i, end - 1);
  }

  lemma PunchChunksByte(cfg: Config, blobs: set<Sha>, f: File, off: nat, end: nat, i: nat, b: nat)
    requires Valid(cfg, blobs, f) && !HasInline(f) && off < end && b < cfg.chunkSize
    ensures RowByte(PunchChunks(cfg.chunkSize, f, off, end), i, b) ==
            if off <= Start(cfg.chunkSize, i) + b < end then 0 else RowByte(f.chunkRows, i, b)
  {
    hide Start, Valid, Load, PunchedRow;
    ValidConfig(cfg, blobs, f);
    if i in f.chunkRows {
      RowOk(cfg, blobs, f, i);
      PunchedRowByte(cfg.chunkSize, f.chunkRows[i], off, end, i, b);
    }
  }

  lemma ValidConfig(cfg: Config, blobs: set<Sha>, f: File)
    requires Valid(cfg, blobs, f)
    ensures cfg.chunkSize > 0 && !f.row.isDir
  {
  }

  lemma PunchChunksKeeps(cfg: Config, blobs: set<Sha>, f: File, off: nat, end: nat, size: nat)
    requires Valid(cfg, blobs, Unstaged(f)) && !HasInline(f) && off < end && f.row.size <= size
    ensures HoleReadable(cfg.chunkSize, blobs, f, off, end)
    ensures Valid(cfg, blobs + PunchUploads(cfg.chunkSize, f, off, end),
                  Unstaged(f.(row := f.row.(size := size, contentSha := None),
                        chunkRows := PunchChunks(cfg.chunkSize, f, off, end))))
  {
    hide Start, Load, InHole;
    var cs := cfg.chunkSize;
    var rows, more := PunchChunks(cs, f, off, end), blobs + PunchUploads(cs, f, off, end);
    LoadIgnoresStaging(f);
    forall i | i in Load(f).chunks
      ensures Load(f).chunks[i] in blobs
    {
      ReadRow(cfg, blobs, Unstaged(f), i);
      RowOk(cfg, blobs, Unstaged(f), i);
    }
    forall i | i in rows
      ensures RowShape(i, rows[i]) && RowFits(cs, size, more, i, rows[i]) && rows[i].inlineData == []
    {
      RowOk(cfg, blobs, Unstaged(f), i);
    }
  }

  lemma PunchInlineByte(cs: nat, inlined: seq<Byte>, off: nat, end: nat, newSize: nat, b: nat)
    requires |inlined| <= newSize && |inlined| <= cs
    ensures |PunchInline(inlined, off, end, newSize)| == newSize
    ensures |PunchToChunk(cs, inlined, off, end)| == |inlined|
    ensures At(PunchInline(inlined, off, end, newSize), b) == if off <= b < end then 0 else At(inlined, b)
    ensures At(PunchToChunk(cs, inlined, off, end), b) == if off <= b < end then 0 else At(inlined, b)
  {
  }

  lemma PunchInlineRows(cfg: Config, blobs: set<Sha>, f: File, off: nat, len: nat, keepSize: bool)
    requires Valid(cfg, blobs, f) && HasInline(f) && len > 0 && !(keepSize && off >= f.row.size)
    ensures var r := PunchRows(cfg, blobs, f, off, len, keepSize);
            var size, end, inlined := PunchSize(f, off, len, keepSize), PunchEnd(f, off, len, keepSize),
                f.chunkRows[0].inlineData;
            && 0 < |inlined| <= Min(cfg.maxInlineLen, f.row.size)
            && r.Ok? && r.value.0.chunkRows.Keys == {0} && r.value.0.staged == f.staged
               && r.value.0.stagedSize == f.stagedSize
            && r.value.0.row.size == size && !r.value.0.row.isDir
            && if size <= cfg.maxInlineLen then
                 r.value.1 == blobs && r.value.0.chunkRows[0] == FileChunk(PunchInline(inlined, off, end, size), None)
               else
                 var sha0 := Sha(PunchToChunk(cfg.chunkSize, inlined, off, end));
                 r.value.1 == blobs + {sha0} && r.value.0.chunkRows[0] == FileChunk([], Some(sha0))
  {
    hide Start, PunchInline, PunchToChunk;
    LoadShape(cfg, blobs, f);
  }

  lemma PunchInlineKeeps(cfg: Config, blobs: set<Sha>, f: File, off: nat, len: nat, keepSize: bool)
    requires Valid(cfg, blobs, f) && f.staged == map[] && HasInline(f) && len > 0 && !(keepSize && off >= f.row.size)
    ensures var r := PunchRows(cfg, blobs, f, off, len, keepSize);
            && r.Ok? && blobs <= r.value.1 && Valid(cfg, r.value.1, r.value.0)
            && r.value.0.staged == map[] && r.value.0.row.size == PunchSize(f, off, len, keepSize)
            && RowsPunched(cfg.chunkSize, f, r.value.0, off, PunchEnd(f, off, len, keepSize))
  {
    hide Start, PunchRows, PunchInline, PunchToChunk;
    StartZero(cfg.chunkSize);
    var inlined, size, end := f.chunkRows[0].inlineData, PunchSize(f, off, len, keepSize),
        PunchEnd(f, off, len, keepSize);
    PunchInlineRows(cfg, blobs, f, off, len, keepSize);
    PunchInlineByte(cfg.chunkSize, inlined, off, end, size, 0);
    assert RowShape(0, f.chunkRows[0]);
    var g := PunchRows(cfg, blobs, f, off, len, keepSize).value.0;
    forall i: nat, b: nat | b < cfg.chunkSize
      ensures RowByte(g.chunkRows, i, b) == if off <= Start(cfg.chunkSize, i) + b < end then 0
              else RowByte(f.chunkRows, i, b)
    {
      PunchInlineByte(cfg.chunkSize, inlined, off, end, size, b);
    }
  }

  lemma PunchRowsKeeps(cfg: Config, blobs: set<Sha>, f: File, off: nat, len: nat, keepSize: bool)
    requires Valid(cfg, blobs, f) && f.staged == map[] && len > 0 && !(keepSize && off >= f.row.size)
    ensures var r := PunchRows(cfg, blobs, f, off, len, keepSize);
            && r.Ok? && blobs <= r.value.1 && Valid(cfg, r.value.1, r.value.0)
            && r.value.0.staged == map[] && r.value.0.row.size == PunchSize(f, off, len, keepSize)
            && RowsPunched(cfg.chunkSize, f, r.value.0, off, PunchEnd(f, off, len, keepSize))
  {
    hide Start, Load, PunchChunks, PunchUploads;
    if HasInline(f) {
      PunchInlineKeeps(cfg, blobs, f, off, len, keepSize);
    } else {
      LoadShape(cfg, blobs, f);
      var end := PunchEnd(f, off, len, keepSize);
      PunchChunksKeeps(cfg, blobs, f, off, end, PunchSize(f, off, len, keepSize));
      forall i: nat, b: nat | b < cfg.chunkSize
        ensures RowByte(PunchChunks(cfg.chunkSize, f, off, end), i, b) ==
                if off <= Start(cfg.chunkSize, i) + b < end then 0 else RowByte(f.chunkRows, i, b)
      {
        PunchChunksByte(cfg, blobs, f, off, end, i, b);
      }
    }
  }

  /** Punching a hole in a synced file zeroes the range and, unless told otherwise, grows the file to hold it. */
  lemma PunchIsFlat(cfg: Config, blobs: set<Sha>, f: File, off: nat, len: nat, keepSize: bool)
    requires Valid(cfg, blobs, f) && f.staged == map[] && len > 0
    ensures var r := PunchRows(cfg, blobs, f, off, len, keepSize);
            && r.Ok? && blobs <= r.value.1 && Valid(cfg, r.value.1, r.value.0) && r.value.0.staged == map[]
            && Contents(cfg.chunkSize, r.value.0) == FlatFile.Punch(Contents(cfg.chunkSize, f), off, len, keepSize)
  {
    hide Start, Contents, PunchRows, CommittedByte;
    if keepSize && off >= f.row.size {
      PunchBeyondEnd(cfg, blobs, f, off, len);
      assert FlatFile.Punch(Contents(cfg.chunkSize, f), off, len, keepSize) == Contents(cfg.chunkSize, f);
    } else {
      var cs, end := cfg.chunkSize, PunchEnd(f, off, len, keepSize);
      PunchRowsKeeps(cfg, blobs, f, off, len, keepSize);
      var (g, more) := PunchRows(cfg, blobs, f, off, len, keepSize).value;
      var flat := FlatFile.Punch(Contents(cs, f), off, len, keepSize);
      forall i: nat, b: nat | b < cs && Start(cs, i) + b < |flat|
        ensures ChunkByte(g, i, b) == flat[Start(cs, i) + b]
      {
        CommittedIsRow(cfg, blobs, f, i, b);
        CommittedIsRow(cfg, more, g, i, b);
        ChunkOfContents(cfg, blobs, f, i, b);
      }
      ContentsAre(cs, g, flat);
    }
  }

  lemma PunchBeyondEnd(cfg: Config, blobs: set<Sha>, f: File, off: nat, len: nat)
    requires cfg.chunkSize > 0 && len > 0 && off >= f.row.size
    ensures PunchRows(cfg, blobs, f, off, len, true) == Ok((f, blobs))
  {
  }

  // ----- create -----

  lemma CreateIsValid(cfg: Config, blobs: set<Sha>, content: seq<Byte>)
    requires 0 < cfg.chunkSize && cfg.maxInlineLen <= cfg.chunkSize
    ensures Valid(cfg, blobs + CreateUploads(cfg, content), CreateFile(cfg, content))
  {
    hide Start, ChunkIndex;
    var cs, f, more := cfg.chunkSize, CreateFile(cfg, content), blobs + CreateUploads(cfg, content);
    StartZero(cs);
    NumChunksBounds(cs, |content|, 0);
    forall i | i in f.chunkRows
      ensures RowShape(i, f.chunkRows[i]) && RowFits(cs, |content|, more, i, f.chunkRows[i])
    {
      NumChunksBounds(cs, |content|, i);
    }
    if |content| > cfg.maxInlineLen {
      assert 0 in f.chunkRows;
    }
  }

  lemma CreateByte(cfg: Config, content: seq<Byte>, i: nat, b: nat)
    requires 0 < cfg.chunkSize && cfg.maxInlineLen <= cfg.chunkSize
    requires b < cfg.chunkSize && Start(cfg.chunkSize, i) + b < |content|
    ensures RowByte(CreateFile(cfg, content).chunkRows, i, b) == content[Start(cfg.chunkSize, i) + b]
  {
    hide Start, ChunkIndex;
    NumChunksBounds(cfg.chunkSize, |content|, i);
    StartZero(cfg.chunkSize);
    StartMonotone(cfg.chunkSize, 0, i);
  }

  /** A new file holds its initial content. */
  lemma CreateIsFlat(cfg: Config, blobs: set<Sha>, content: seq<Byte>)
    requires 0 < cfg.chunkSize && cfg.maxInlineLen <= cfg.chunkSize
    ensures Valid(cfg, blobs + CreateUploads(cfg, content), CreateFile(cfg, content))
    ensures Contents(cfg.chunkSize, CreateFile(cfg, content)) == content
  {
    hide Start, Contents, CommittedByte, Valid, CreateUploads;
    var cs, f, more := cfg.chunkSize, CreateFile(cfg, content), blobs + CreateUploads(cfg, content);
    CreateIsValid(cfg, blobs, content);
    forall i: nat, b: nat | b < cs && Start(cs, i) + b < |content|
      ensures ChunkByte(f, i, b) == content[Start(cs, i) + b]
    {
      CommittedIsRow(cfg, more, f, i, b);
      CreateByte(cfg, content, i, b);
    }
    ContentsAre(cs, f, content);
  }

  // ----- read -----

  lemma ReadByteIsCommitted(cfg: Config, blobs: set<Sha>, f: File, p: nat)
    requires Valid(cfg, blobs, f) && f.staged == map[]
    ensures ReadByte(cfg.chunkSize, blobs, f, p) == LogicalByte(cfg.chunkSize, f, p)
  {
    hide Start, ChunkIndex;
    var cs := cfg.chunkSize;
    IndexBounds(cs, p);
    LoadShape(cfg, blobs, f);
    ReadCommitted(cfg, blobs, f, ChunkIndex(cs, p));
    StartZero(cs);
    StartMonotone(cs, 0, ChunkIndex(cs, p));
  }

  /** A read of a synced file is a slice of the flat file. */
  lemma ReadIsFlat(cfg: Config, blobs: set<Sha>, f: File, off: nat, len: int)
    requires Valid(cfg, blobs, f) && f.staged == map[]
    ensures ReadFile(cfg.chunkSize, blobs, f, off, len) == Ok(FlatFile.Read(Contents(cfg.chunkSize, f), off, len))
  {
    hide Start, ChunkIndex, LogicalByte, ReadByte, ReadChunk;
    var cs := cfg.chunkSize;
    forall i: nat
      ensures ReadChunk(blobs, f.row, Load(f), i).Ok?
    {
      ReadCommitted(cfg, blobs, f, i);
    }
    forall p: nat
      ensures ReadByte(cs, blobs, f, p) == LogicalByte(cs, f, p)
    {
      ReadByteIsCommitted(cfg, blobs, f, p);
    }
    if off < f.row.size {
      assert ReadFile(cs, blobs, f, off, len).value == FlatFile.Read(Contents(cs, f), off, len);
    }
  }

  // ----- whole runs -----

  datatype Op =
    | Write(off: nat, data: seq<Byte>)
    | Truncate(size: nat)
    | Punch(off: nat, len: nat, keepSize: bool)
    | Fsync

  predicate WellFormed(op: Op) {
    match op
    case Write(_, data) => data != []
    case Punch(_, len, _) => len > 0
    case _ => true
  }

  datatype State = State(file: File, blobs: set<Sha>)

  function Sync(cfg: Config, s: State): State {
    State(SyncIfStaged(cfg, s.file), Uploaded(s.blobs, s.file))
  }

  /** One operation on the stored file. A hole punch syncs first. */
  function Step(cfg: Config, s: State, op: Op): State
    requires cfg.chunkSize > 0 && WellFormed(op)
  {
    match op
    case Write(off, data) =>
      if BaseReadable(cfg.chunkSize, s.blobs, s.file, off, |data|)
      then s.(file := WriteFile(cfg, s.blobs, s.file, off, data)) else s
    case Truncate(size) => var (_, g, more) := TruncateFile(cfg, s.blobs, s.file, size); State(g, more)
    case Fsync => Sync(cfg, s)
    case Punch(off, len, keepSize) =>
      var t := Sync(cfg, s);
      match PunchRows(cfg, t.blobs, t.file, off, len, keepSize)
      case Ok((g, more)) => State(g, more)
      case Err(_) => t
  }

  /** The same operation on a flat array of bytes. */
  function FlatStep(f: seq<Byte>, op: Op): seq<Byte> {
    match op
    case Write(off, data) => FlatFile.Write(f, off, data)
    case Truncate(size) => FlatFile.Truncate(f, size)
    case Fsync => f
    case Punch(off, len, keepSize) => FlatFile.Punch(f, off, len, keepSize)
  }

  function Run(cfg: Config, s: State, ops: seq<Op>): State
    requires cfg.chunkSize > 0 && forall k :: 0 <= k < |ops| ==> WellFormed(ops[k])
    decreases |ops|
  {
    if ops == [] then s else Step(cfg, Run(cfg, s, ops[..|ops| - 1]), ops[|ops| - 1])
  }

  function FlatRun(f: seq<Byte>, ops: seq<Op>): seq<Byte>
    decreases |ops|
  {
    if ops == [] then f else FlatStep(FlatRun(f, ops[..|ops| - 1]), ops[|ops| - 1])
  }

  function Created(cfg: Config, content: seq<Byte>): State
    requires cfg.chunkSize > 0
  {
    State(CreateFile(cfg, content), CreateUploads(cfg, content))
  }

  lemma SyncKeeps(cfg: Config, s: State)
    requires Valid(cfg, s.blobs, s.file)
    ensures var t := Sync(cfg, s);
            Valid(cfg, t.blobs, t.file) && t.file.staged == map[]
            && Contents(cfg.chunkSize, t.file) == Contents(cfg.chunkSize, s.file)
  {
    hide Start, Valid, Contents, SyncFile;
    ValidConfig(cfg, s.blobs, s.file);
    if s.file.staged == map[] {
      ValidWithMoreBlobs(cfg, s.blobs, Uploaded(s.blobs, s.file), s.file);
    } else {
      SyncIsInvisible(cfg, s.blobs, s.file);
    }
  }

  lemma StepIsFlat(cfg: Config, s: State, op: Op)
    requires Valid(cfg, s.blobs, s.file) && cfg.chunkSize > 0 && WellFormed(op)
    ensures var t := Step(cfg, s, op);
            Valid(cfg, t.blobs, t.file)
            && Contents(cfg.chunkSize, t.file) == FlatStep(Contents(cfg.chunkSize, s.file), op)
  {
    hide Start, Valid, Contents, WriteFile, TruncateFile, PunchRows, BaseReadable, Sync;
    match op
    case Write(off, data) =>
      WriteFetches(cfg, s.blobs, s.file, off, |data|);
      WriteKeepsValid(cfg, s.blobs, s.file, off, data);
      WriteIsFlat(cfg, s.blobs, s.file, off, data);
    case Truncate(size) =>
      TruncateKeepsValid(cfg, s.blobs, s.file, size);
      TruncateIsFlat(cfg, s.blobs, s.file, size);
    case Fsync => SyncKeeps(cfg, s);
    case Punch(off, len, keepSize) =>
      SyncKeeps(cfg, s);
      PunchIsFlat(cfg, Sync(cfg, s).blobs, Sync(cfg, s).file, off, len, keepSize);
  }

  lemma {:induction false} RunIsFlat(cfg: Config, content: seq<Byte>, ops: seq<Op>)
    requires 0 < cfg.chunkSize && cfg.maxInlineLen <= cfg.chunkSize
    requires forall k :: 0 <= k < |ops| ==> WellFormed(ops[k])
    ensures var s := Run(cfg, Created(cfg, content), ops);
            Valid(cfg, s.blobs, s.file) && Contents(cfg.chunkSize, s.file) == FlatRun(content, ops)
    decreases |ops|
  {
    hide Start, Valid, Contents, Step, FlatStep;
    if ops == [] {
      CreateIsFlat(cfg, {}, content);
      assert {} + CreateUploads(cfg, content) == CreateUploads(cfg, content);
    } else {
      RunIsFlat(cfg, content, ops[..|ops| - 1]);
      StepIsFlat(cfg, Run(cfg, Created(cfg, content), ops[..|ops| - 1]), ops[|ops| - 1]);
    }
  }

  /** Whatever is created, written, truncated, punched and synced, a read after a last sync returns the
      slice of the flat array those operations describe. */
  ghost predicate ReadsAreFlat(cfg: Config)
    requires cfg.chunkSize > 0
  {
    forall content: seq<Byte>, ops: seq<Op>, off: nat, len: int | (forall k :: 0 <= k < |ops| ==> WellFormed(ops[k])) ::
      var s := Sync(cfg, Run(cfg, Created(cfg, content), ops));
      ReadFile(cfg.chunkSize, s.blobs, s.file, off, len) == Ok(FlatFile.Read(FlatRun(content, ops), off, len))
  }

  lemma SyncedReadIsFlat(cfg: Config, content: seq<Byte>, ops: seq<Op>, off: nat, len: int)
    requires 0 < cfg.chunkSize && cfg.maxInlineLen <= cfg.chunkSize
    requires forall k :: 0 <= k < |ops| ==> WellFormed(ops[k])
    ensures var s := Sync(cfg, Run(cfg, Created(cfg, content), ops));
            ReadFile(cfg.chunkSize, s.blobs, s.file, off, len) == Ok(FlatFile.Read(FlatRun(content, ops), off, len))
  {
    hide Start, Valid, Contents, Sync, ReadFile;
    var r := Run(cfg, Created(cfg, content), ops);
    RunIsFlat(cfg, content, ops);
    SyncKeeps(cfg, r);
    ReadIsFlat(cfg, Sync(cfg, r).blobs, Sync(cfg, r).file, off, len);
  }

  /** With chunks smaller than the inline limit, a byte written just past the first chunk of an empty file ... */
  lemma WriteSecondChunk(cfg: Config)
    requires 0 < cfg.chunkSize < cfg.maxInlineLen
    ensures var cs, f := cfg.chunkSize, CreateFile(cfg, []);
            && BaseReadable(cs, {}, f, cs, 1)
            && var g := WriteFile(cfg, {}, f, cs, [1]);
               g.staged.Keys == {1} && g.staged[1] == [1] && g == f.(staged := g.staged, stagedSize := cs + 1)
  {
    var cs, f := cfg.chunkSize, CreateFile(cfg, []);
    assert Start(cs, 1) == cs;
    IndexUnique(cs, 1, cs);
    assert forall i: nat :: Touches(cs, cs, 1, i) <==> i == 1;
    assert !NeedsBase(cs, f, cs, 1, 1);
    assert StagedByWrite(cs, {}, f, cs, [1], 1) == [1];
    var g := WriteFile(cfg, {}, f, cs, [1]);
    assert LastChunk(cs, cs, 1) == 1 && Touches(cs, cs, 1, 1) && StageInline(f) == map[];
    assert g.staged.Keys == {1};
  }

  /** ... is lost by the sync: the file looks inline, and only chunk 0 is kept inline. */
  lemma SmallChunksLoseData(cfg: Config)
    requires 0 < cfg.chunkSize < cfg.maxInlineLen
    ensures var cs, ops := cfg.chunkSize, [Write(cfg.chunkSize, [1])];
            var s := Sync(cfg, Run(cfg, Created(cfg, []), ops));
            ReadFile(cs, s.blobs, s.file, cs, 1) == Ok([0]) && FlatFile.Read(FlatRun([], ops), cs, 1) == [1]
  {
    hide WriteFile, BaseReadable;
    var cs, op := cfg.chunkSize, Write(cfg.chunkSize, [1]);
    WriteSecondChunk(cfg);
    assert [op][..0] == [];
    assert Run(cfg, Created(cfg, []), [op]) == Step(cfg, Created(cfg, []), op);
    var g := WriteFile(cfg, {}, CreateFile(cfg, []), cs, [1]);
    assert Step(cfg, Created(cfg, []), op).file == g;
    assert |g.staged.Keys| == 1;
    var h := SyncFile(cfg, g);
    assert h.chunkRows == map[0 := FileChunk([], None)];
    assert Load(h) == Node([], map[]);
    IndexUnique(cs, 1, cs);
    assert ReadFile(cs, Uploaded({}, g), h, cs, 1).value == [0];
  }

  /** The data path is flat exactly when a chunk can hold every inline file. */
  lemma ReadsAreFlatIff(cfg: Config)
    requires cfg.chunkSize > 0
    ensures ReadsAreFlat(cfg) <==> cfg.maxInlineLen <= cfg.chunkSize
  {
    hide Start, Valid, Contents, Sync, ReadFile, Run, FlatRun;
    if cfg.maxInlineLen <= cfg.chunkSize {
      forall content: seq<Byte>, ops: seq<Op>, off: nat, len: int | (forall k :: 0 <= k < |ops| ==> WellFormed(ops[k]))
        ensures var s := Sync(cfg, Run(cfg, Created(cfg, content), ops));
                ReadFile(cfg.chunkSize, s.blobs, s.file, off, len) == Ok(FlatFile.Read(FlatRun(content, ops), off, len))
      {
        SyncedReadIsFlat(cfg, content, ops, off, len);
      }
    } else {
      SmallChunksLoseData(cfg);
      var ops := [Write(cfg.chunkSize, [1])];
      assert forall k :: 0 <= k < |ops| ==> WellFormed(ops[k]);
    }
  }
}
