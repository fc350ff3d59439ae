/** The volume's data operations as the controller runs them, loop by loop, over all its files.
    Each method is proved to be the function `VolumeModel` gives for it and, through `VolumeProofs`, to do
    to the flat contents what its name says, leaving every other file alone. */
module Volume {
  import opened Bytes
  import opened ChunkedWrite
  import opened VolumeModel
  import opened VolumeProofs
  import opened Options
  import FlatFile

  class Volume {
    const cfg: Config
    var files: map<nat, File>
    var blobs: set<Sha>

    constructor (cfg: Config)
      requires 0 < cfg.chunkSize && cfg.maxInlineLen <= cfg.chunkSize
      ensures this.cfg == cfg && files == map[] && blobs == {} && Ok()
    {
      this.cfg := cfg;
      files, blobs := map[], {};
    }

    ghost predicate Ok()
      reads this
    {
      && 0 < cfg.chunkSize && cfg.maxInlineLen <= cfg.chunkSize
      && forall ino | ino in files :: FileOk(files[ino])
    }

    /** Directories hold no data; the blob store has every chunk of every other file. */
    ghost predicate FileOk(f: File)
      reads this
    {
      if f.row.isDir then f.staged == map[] else Valid(cfg, blobs, f)
    }

    /** Every file other than `ino` is unchanged, and still whole in a blob store that only grows. */
    twostate predicate OnlyChanged(ino: nat)
      reads this
    {
      && files.Keys == old(files).Keys
      && old(blobs) <= blobs
      && forall k | k in files && k != ino :: files[k] == old(files)[k]
    }

    twostate lemma OthersStayValid(ino: nat)
      requires old(Ok()) && OnlyChanged(ino)
      requires ino in files ==> FileOk(files[ino])
      ensures Ok()
    {
      hide Valid;
      forall k | k in files && !files[k].row.isDir
        ensures Valid(cfg, blobs, files[k])
      {
        if k != ino {
          ValidWithMoreBlobs(cfg, old(blobs), blobs, files[k]);
        }
      }
    }

    /** Writing stages whole chunks: fetch the committed bytes a partial chunk needs, then overlay. `full` is the
        outcome of the staging limit test. The files stay valid exactly when the write lands, as every write with data
        does, and the bytes are the flat overlay exactly when it lands or does not reach past the end. */
    method WriteFile(ino: nat, off: nat, data: seq<Byte>, full: bool) returns (r: Result<nat>)
      requires Ok()
      modifies this
      ensures blobs == old(blobs) && OnlyChanged(ino)
      ensures r.Err? ==> Ok() && files == old(files)
      ensures r == if ino !in old(files) then Err(ENOENT)
                   else if old(files)[ino].row.isDir then Err(EISDIR)
                   else if full then Err(ENOSPC)
                   else Result.Ok(Max(LogicalSize(old(files)[ino]), off + |data|))
      ensures r.Ok? ==>
                var cs, f, g := cfg.chunkSize, old(files)[ino], files[ino];
                && g == VolumeModel.WriteFile(cfg, blobs, f, off, data)
                && (Ok() <==> Lands(cs, f, off, |data|))
                && (Contents(cs, g) == FlatFile.Write(Contents(cs, f), off, data)
                    <==> Lands(cs, f, off, |data|) || off <= f.row.size)
    {
      hide Valid, Contents, Start, ChunkIndex, Lands, VolumeModel.WriteFile, BaseReadable, FlatFile.Write;
      if ino !in files {
        return Err(ENOENT);
      }
      var f := files[ino];
      if f.row.isDir {
        return Err(EISDIR);
      }
      if full {
        return Err(ENOSPC);
      }
      WriteFetches(cfg, blobs, f, off, |data|);
      WriteKeepsValidIff(cfg, blobs, f, off, data);
      WriteIsFlatIff(cfg, blobs, f, off, data);

      var base := FetchBase(f, off, data);
      var staged := StageChunks(f, off, data, base);
      files := files[ino := f.(staged := staged, stagedSize := CalculatedSize(f, off, |data|))];
      WriteChanges(cfg, blobs, f, off, data);
      if Lands(cfg.chunkSize, f, off, |data|) {
        OthersStayValid(ino);
      }
      r := Result.Ok(CalculatedSize(f, off, |data|));
    }

    /** The committed bytes of the chunks a write covers only in part. */
    method FetchBase(f: File, off: nat, data: seq<Byte>) returns (base: map<nat, seq<Byte>>)
      requires cfg.chunkSize > 0 && BaseReadable(cfg.chunkSize, blobs, f, off, |data|)
      ensures forall i: nat | Touches(cfg.chunkSize, off, |data|, i) && i !in StageInline(f) ::
                (if i in base then base[i] else []) == BaseChunk(cfg.chunkSize, blobs, f, off, |data|, i)
    {
      hide Start, ChunkIndex, Resolve, Load, NeedsBase;
      var cs := cfg.chunkSize;
      base := map[];
      var i, last := off / cs, LastChunk(cs, off, |data|);
      IndexIsQuotient(cs, off);
      while i <= last
        invariant forall k: nat | ChunkIndex(cs, off) <= k < i ::
                    (if k in base then base[k] else []) == BaseChunk(cs, blobs, f, off, |data|, k)
        invariant forall k | k in base :: k < i
        decreases last - i
      {
        if NeedsBase(cs, f, off, |data|, i) {
          assert Touches(cs, off, |data|, i);
          var c := ReadChunk(blobs, f.row, Load(f), i);
          if |c.value| > 0 {
            base := base[i := c.value];
          }
        }
        i := i + 1;
      }
    }

    /** Move inline bytes to staged chunk 0, then stage every chunk the write touches. */
    method StageChunks(f: File, off: nat, data: seq<Byte>, base: map<nat, seq<Byte>>)
        returns (staged: map<nat, seq<Byte>>)
      requires cfg.chunkSize > 0
      requires forall i: nat | Touches(cfg.chunkSize, off, |data|, i) && i !in StageInline(f) ::
                 (if i in base then base[i] else []) == BaseChunk(cfg.chunkSize, blobs, f, off, |data|, i)
      ensures staged == VolumeModel.WriteFile(cfg, blobs, f, off, data).staged
    {
      hide Start, ChunkIndex, WrittenChunk, BaseChunk;
      var cs, size := cfg.chunkSize, CalculatedSize(f, off, |data|);
      staged := f.staged;
      var node := Load(f);
      if |node.inlineData| > 0 && 0 !in staged {
        staged := staged[0 := node.inlineData];
      }
      ghost var st := staged;
      assert st == StageInline(f);
      var first, last := ChunkIndex(cs, off), LastChunk(cs, off, |data|);
      var i := first;
      while i <= last
        invariant first <= i && (i <= last + 1 || i == first)
        invariant forall k: nat :: k in staged <==> k in st || first <= k < i
        invariant forall k: nat | k in staged && !(first <= k < i) :: staged[k] == st[k]
        invariant forall k: nat | first <= k < i ::
                    Touches(cs, off, |data|, k) && staged[k] == StagedByWrite(cs, blobs, f, off, data, k)
        decreases last - i
      {
        assert Touches(cs, off, |data|, i);
        var was := if i in staged then staged[i] else if i in base then base[i] else [];
        assert was == BeforeWrite(cs, blobs, f, off, |data|, i);
        staged := staged[i := WrittenChunk(cs, was, size, off, data, i)];
        i := i + 1;
      }
      forall k: nat
        ensures Touches(cs, off, |data|, k) <==> first <= k < i
      {
      }
    }

    /** A new regular file. */
    method CreateFile(ino: nat, content: seq<Byte>)
      requires Ok() && ino !in files
      modifies this
      ensures Ok()
      ensures files == old(files)[ino := VolumeModel.CreateFile(cfg, content)]
              && blobs == old(blobs) + CreateUploads(cfg, content)
      ensures Contents(cfg.chunkSize, files[ino]) == content
    {
      hide Valid, Contents;
      CreateIsFlat(cfg, blobs, content);
      files := files[ino := VolumeModel.CreateFile(cfg, content)];
      blobs := blobs + CreateUploads(cfg, content);
      forall k | k in files && !files[k].row.isDir
        ensures Valid(cfg, blobs, files[k])
      {
        if k != ino {
          ValidWithMoreBlobs(cfg, old(blobs), blobs, files[k]);
        }
      }
    }

    /** Commit everything staged, file by file. The packs are uploaded before any row names a chunk. */
    method Fsync(ino: nat) returns (r: Result<()>)
      requires Ok()
      modifies this
      ensures Ok() && files.Keys == old(files).Keys && old(blobs) <= blobs
      ensures ino !in old(files) ==> r == Err(ENOENT) && files == old(files) && blobs == old(blobs)
      ensures ino in old(files) ==> r == Result.Ok(())
      ensures ino in old(files) ==>
                && (forall k | k in files :: files[k] == SyncIfStaged(cfg, old(files)[k]) && files[k].staged == map[])
                && (forall k | k in files :: files[k].row.isDir == old(files)[k].row.isDir)
                && blobs == old(blobs) + AllUploads(old(files))
                && forall k | k in files && !files[k].row.isDir ::
                     Contents(cfg.chunkSize, files[k]) == Contents(cfg.chunkSize, old(files)[k])
    {
      hide Valid, Contents, SyncFile;
      if ino !in files {
        return Err(ENOENT);
      }
      blobs := blobs + AllUploads(files);
      var todo := files.Keys;
      while todo != {}
        invariant todo <= files.Keys == old(files).Keys && blobs == old(blobs) + AllUploads(old(files))
        invariant forall k | k in files ::
                    files[k] == if k in todo then old(files)[k] else SyncIfStaged(cfg, old(files)[k])
      {
        var k :| k in todo;
        if files[k].staged != map[] {
          files := files[k := SyncFile(cfg, files[k])];
        }
        todo := todo - {k};
      }
      forall k | k in files
        ensures FileOk(files[k]) && files[k].staged == map[] && files[k].row.isDir == old(files)[k].row.isDir
        ensures !files[k].row.isDir ==> Contents(cfg.chunkSize, files[k]) == Contents(cfg.chunkSize, old(files)[k])
      {
        if !old(files)[k].row.isDir {
          UploadedWithAll(old(files), old(blobs), k);
          SyncOne(old(files)[k], old(blobs));
        }
      }
      r := Result.Ok(());
    }

    static function AllUploads(files: map<nat, File>): set<Sha> {
      set ino, i | ino in files && i in files[ino].staged :: Sha(files[ino].staged[i])
    }

    static lemma UploadedWithAll(files: map<nat, File>, blobs: set<Sha>, ino: nat)
      requires ino in files
      ensures Uploaded(blobs, files[ino]) <= blobs + AllUploads(files)
    {
    }

    lemma SyncOne(f: File, was: set<Sha>)
      requires cfg.chunkSize > 0 && Valid(cfg, was, f) && Uploaded(was, f) <= blobs
      ensures var g := SyncIfStaged(cfg, f);
              && Valid(cfg, blobs, g) && g.staged == map[] && !g.row.isDir
              && Contents(cfg.chunkSize, g) == Contents(cfg.chunkSize, f)
    {
      hide Contents, Start;
      SyncKeeps(cfg, State(f, was));
      ValidWithMoreBlobs(cfg, Uploaded(was, f), blobs, SyncIfStaged(cfg, f));
    }

    /** Cut or zero-extend. The staged chunks are cut first, before the size is looked at. */
    method TruncateFile(ino: nat, size: int) returns (r: Option<Errno>)
      requires Ok()
      modifies this
      ensures Ok() && OnlyChanged(ino)
      ensures ino !in old(files) ==> r == Some(ENOENT)
      ensures ino in old(files) ==>
                var f := old(files)[ino];
                if f.row.isDir then r == Some(EISDIR) && files == old(files)
                else
                  && (r, files[ino], blobs) == VolumeModel.TruncateFile(cfg, old(blobs), f, size)
                  && (size >= 0 ==>
                         r == None
                         && Contents(cfg.chunkSize, files[ino]) == FlatFile.Truncate(Contents(cfg.chunkSize, f), size))
                  && (size < 0 ==> r == Some(EINVAL) && files[ino] == Unstaged(f))
    {
      hide Valid, Contents, Start, ChunkIndex, TruncateRows;
      if ino !in files {
        return Some(ENOENT);
      }
      var cs, f := cfg.chunkSize, files[ino];
      var st := CutStaged(f.staged, size);
      var g := if f.staged == map[] then f else f.(staged := st, stagedSize := if st == map[] then 0 else Max(size, 0));
      files := files[ino := g];
      if g.row.isDir {
        assert files == old(files);
        return Some(EISDIR);
      }
      if size >= 0 {
        TruncateKeepsValid(cfg, blobs, f, size);
        TruncateIsFlat(cfg, blobs, f, size);
      } else {
        RefusedTruncate(cfg, blobs, f, size);
        UnstagedIsValid(cfg, blobs, f);
      }
      if size < 0 {
        OthersStayValid(ino);
        return Some(EINVAL);
      }
      var t := TruncateRows(cfg, blobs, g, size);
      files, blobs := files[ino := t.value.0], t.value.1;
      ValidConfig(cfg, blobs, files[ino]);
      OthersStayValid(ino);
      r := None;
    }

    method CutStaged(staged: map<nat, seq<Byte>>, size: int) returns (st: map<nat, seq<Byte>>)
      ensures st == TruncatedStaged(cfg.chunkSize, staged, size)
    {
      hide Start;
      var cs, todo := cfg.chunkSize, staged.Keys;
      st := staged;
      while todo != {}
        invariant todo <= staged.Keys && st.Keys <= staged.Keys
        invariant forall i | i in todo :: i in st && st[i] == staged[i]
        invariant forall i | i in staged && i !in todo :: i in st <==> Start(cs, i) < size
        invariant forall i | i in staged && i !in todo && i in st ::
                    st[i] == if Start(cs, i) + cs > size && |staged[i]| > size - Start(cs, i)
                    then staged[i][..size - Start(cs, i)] else staged[i]
      {
        var i :| i in todo;
        if Start(cs, i) >= size {
          st := st - {i};
        } else if Start(cs, i) + cs > size {
          var keep := size - Start(cs, i);
          if |st[i]| > keep {
            st := st[i := st[i][..keep]];
          }
        }
        todo := todo - {i};
      }
    }

    /** Sync, then zero a range: whole chunks lose their row, partly covered chunks are rewritten. */
    method PunchHole(ino: nat, off: int, len: int, keepSize: bool) returns (r: Option<Errno>)
      requires Ok()
      modifies this
      ensures Ok() && files.Keys == old(files).Keys && old(blobs) <= blobs
      ensures off < 0 || len <= 0 ==> r == Some(EINVAL) && files == old(files) && blobs == old(blobs)
      ensures off >= 0 && len > 0 && ino !in old(files) ==>
                r == Some(ENOENT) && files == old(files) && blobs == old(blobs)
      ensures off >= 0 && len > 0 && ino in old(files) ==>
                && r == (if old(files)[ino].row.isDir then Some(EISDIR) else None)
                && (forall k | k in files && !files[k].row.isDir && k != ino ::
                       Contents(cfg.chunkSize, files[k]) == Contents(cfg.chunkSize, old(files)[k]))
                && (r == None ==>
                      && !files[ino].row.isDir && files[ino].staged == map[]
                      && Contents(cfg.chunkSize, files[ino]) == FlatFile.Punch(Contents(cfg.chunkSize, old(files)[ino]),
                             off, len, keepSize))
    {
      hide Valid, Contents, Start, ChunkIndex, SyncFile, PunchRows;
      if off < 0 || len <= 0 {
        return Some(EINVAL);
      }
      var s := Fsync(ino);
      if s.Err? {
        return Some(s.error);
      }
      if files[ino].row.isDir {
        return Some(EISDIR);
      }
      label synced:
      PunchIsFlat(cfg, blobs, files[ino], off, len, keepSize);
      var f, more := PunchCommitted(files[ino], off, len, keepSize);
      files, blobs := files[ino := f], more;
      ValidConfig(cfg, blobs, f);
      OthersStayValid@synced(ino);
      r := None;
    }

    /** The committed half of PunchHole. */
    method PunchCommitted(f: File, off: nat, len: nat, keepSize: bool) returns (g: File, more: set<Sha>)
      requires cfg.chunkSize > 0 && len > 0 && PunchRows(cfg, blobs, f, off, len, keepSize).Ok?
      ensures Result.Ok((g, more)) == PunchRows(cfg, blobs, f, off, len, keepSize)
    {
      hide Start, ChunkIndex, PunchInline, PunchToChunk, PunchChunks, PunchUploads;
      var inlined := Load(f).inlineData;
      var newSize, end := PunchSize(f, off, len, keepSize), PunchEnd(f, off, len, keepSize);
      if keepSize && off >= f.row.size {
        return f, blobs;
      }
      var row := f.row.(size := newSize, contentSha := None);
      if |inlined| > 0 {
        if newSize <= cfg.maxInlineLen {
          var z := PunchInline(inlined, off, end, newSize);
          return f.(row := row.(contentSha := Some(Sha(z))), chunkRows := f.chunkRows[0 := FileChunk(z, None)]), blobs;
        }
        var sha0 := Sha(PunchToChunk(cfg.chunkSize, inlined, off, end));
        return f.(row := row, chunkRows := f.chunkRows[0 := FileChunk([], Some(sha0))]), blobs + {sha0};
      }
      var rows, uploads := PunchEach(f, off, end);
      return f.(row := row, chunkRows := rows), blobs + uploads;
    }

    /** Delete the chunks a hole covers whole; zero and re-upload the ones it covers in part. */
    method PunchEach(f: File, start: nat, end: nat) returns (rows: map<nat, FileChunk>, uploads: set<Sha>)
      requires cfg.chunkSize > 0 && start < end
      ensures rows == PunchChunks(cfg.chunkSize, f, start, end)
      ensures uploads == PunchUploads(cfg.chunkSize, f, start, end)
    {
      hide Start, ChunkIndex, PunchedChunk, FullyCovered;
      var cs, chunks := cfg.chunkSize, Load(f).chunks;
      var first, last := ChunkIndex(cs, start), ChunkIndex(cs, end - 1);
      rows, uploads := f.chunkRows, {};
      var i := first;
      RangeChunks(cs, start, end);
      while i <= last
        invariant first <= i <= last + 1
        invariant rows.Keys <= f.chunkRows.Keys
        invariant forall k | k in f.chunkRows ::
                    if k in chunks && first <= k < i && k <= last then
                      var p := PunchedRow(cs, f.chunkRows[k], chunks[k].preimage, start, end, k);
                      (k in rows <==> p.Some?) && (p.Some? ==> rows[k] == p.value)
                    else k in rows && rows[k] == f.chunkRows[k]
        invariant uploads == set k | k in chunks && first <= k < i && k <= last && !FullyCovered(cs, start, end, k)
                                     && Rewrites(cs, chunks[k].preimage, start, end, k)
                               :: Sha(PunchedChunk(cs, chunks[k].preimage, start, end, k))
        decreases last + 1 - i
      {
        if i in chunks {
          if FullyCovered(cs, start, end, i) {
            rows := rows - {i};
          } else {
            var c := chunks[i].preimage;
            if |c| > 0 && Rewrites(cs, c, start, end, i) {
              var sha := Sha(PunchedChunk(cs, c, start, end, i));
              rows, uploads := rows[i := FileChunk([], Some(sha))], uploads + {sha};
            }
          }
        }
        i := i + 1;
      }
    }

    /** A read plans the chunks of its range, fetches them, and copies what each holds of it. */
    method ReadFile(ino: nat, off: nat, len: int) returns (r: Result<seq<Byte>>)
      requires Ok()
      ensures ino !in files ==> r == Err(ENOENT)
      ensures ino in files && files[ino].row.isDir ==> r == Err(EISDIR)
      ensures ino in files && !files[ino].row.isDir ==>
                r == VolumeModel.ReadFile(cfg.chunkSize, blobs, files[ino], off, len)
      ensures ino in files && !files[ino].row.isDir && files[ino].staged == map[] ==>
                r == Result.Ok(FlatFile.Read(Contents(cfg.chunkSize, files[ino]), off, len))
    {
      hide Valid, Contents, Start, ChunkIndex, Load, Resolve;
      if ino !in files {
        return Err(ENOENT);
      }
      var cs, f := cfg.chunkSize, files[ino];
      if f.row.isDir {
        return Err(EISDIR);
      }
      if f.staged == map[] {
        ReadIsFlat(cfg, blobs, f, off, len);
      }
      if off >= f.row.size {
        return Result.Ok([]);
      }
      var end, node := ReadEnd(f.row.size, off, len), Load(f);
      if |node.inlineData| > 0 {
        var tail := if off < |node.inlineData| then node.inlineData[off..Min(end, |node.inlineData|)] else [];
        var res := tail + Zeros(end - off - |tail|);
        assert res == ReadRange(cs, blobs, f, off, end);
        return Result.Ok(res);
      }
      r := ReadChunks(f, off, end);
    }

    method ReadChunks(f: File, off: nat, end: nat) returns (r: Result<seq<Byte>>)
      requires cfg.chunkSize > 0 && off < end <= f.row.size && |Load(f).inlineData| == 0
      ensures r == if ReadableRange(cfg.chunkSize, blobs, f, off, end)
              then Result.Ok(ReadRange(cfg.chunkSize, blobs, f, off, end)) else Err(BlobMissing)
    {
      hide Start, ChunkIndex, Load, Resolve, ReadChunk;
      var cs, node := cfg.chunkSize, Load(f);
      var first, last := ChunkIndex(cs, off), ChunkIndex(cs, end - 1);
      var res: seq<Byte> := [];
      var i := first;
      RangeChunks(cs, off, end);
      while i <= last
        invariant first <= i <= last + 1
        invariant off + |res| == if i == first then off else if i <= last then Start(cs, i) else end
        invariant forall k: nat | first <= k < i :: ReadChunk(blobs, f.row, node, k).Ok?
        invariant forall k | 0 <= k < |res| :: res[k] == ReadByte(cs, blobs, f, off + k)
      {
        var c := ReadChunk(blobs, f.row, node, i);
        if c.Err? {
          return Err(BlobMissing);
        }
        ChunkBetween(cs, off, end, i);
        var chunkLen := if Start(cs, i) + cs > f.row.size then f.row.size - Start(cs, i) else cs;
        var rStart, rEnd := Max(off - Start(cs, i), 0), Min(end - Start(cs, i), chunkLen);
        forall k | rStart <= k < rEnd
          ensures ReadByte(cs, blobs, f, Start(cs, i) + k) == At(c.value, k)
        {
          IndexUnique(cs, i, Start(cs, i) + k);
        }
        res := res + Window(c.value, rStart, rEnd);
        i := i + 1;
      }
      assert res == ReadRange(cs, blobs, f, off, end);
      r := Result.Ok(res);
    }
  }
}
