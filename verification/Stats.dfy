/** Volume statistics kept up to date change by change, and the inode allocator seeded from them. */
module Stats {
  import opened Sums
  import opened Options

  datatype Inode = Inode(mode: bv32, isDir: bool, hasTarget: bool, size: int)

  datatype Kind = File | Dir | Symlink | Other

  const S_IFMT: bv32 := 0xF000
  const S_IFDIR: bv32 := 0x4000
  const S_IFLNK: bv32 := 0xA000
  const S_IFREG: bv32 := 0x8000
  const S_SPECIAL: bv32 := 0xF000

  function KindOf(i: Inode): Kind {
    if i.isDir || i.mode & S_IFMT == S_IFDIR then Dir
    else if i.hasTarget || i.mode & S_IFMT == S_IFLNK then Symlink
    else if i.mode & S_IFMT == S_IFREG || i.mode & S_SPECIAL == 0 then File
    else Other
  }

  datatype Counts = Counts(files: int, dirs: int, symlinks: int, others: int, bytes: int, chunks: int, maxIno: nat)

  const NONE: Counts := Counts(0, 0, 0, 0, 0, 0, 0)

  type Rows = map<nat, Inode>

  // ----- one change -----

  function Adjusted(s: Counts, kind: Kind, delta: int): Counts {
    match kind
    case File => s.(files := s.files + delta)
    case Dir => s.(dirs := s.dirs + delta)
    case Symlink => s.(symlinks := s.symlinks + delta)
    case Other => s.(others := s.others + delta)
  }

  function Positive(size: int): int {
    if size > 0 then size else 0
  }

  /** What a row adds to the logical bytes. */
  function Bytes(i: Inode): int {
    if KindOf(i) == File then Positive(i.size) else 0
  }

  function InodeChanged(s: Counts, ino: nat, before: Option<Inode>, after: Option<Inode>): Counts {
    match (before, after)
    case (None, Some(a)) =>
      var t := Adjusted(s.(maxIno := if ino > s.maxIno then ino else s.maxIno), KindOf(a), 1);
      t.(bytes := t.bytes + Bytes(a))
    case (Some(b), Some(a)) =>
      var t := if KindOf(b) != KindOf(a) then Adjusted(Adjusted(s, KindOf(b), -1), KindOf(a), 1) else s;
      if KindOf(a) == File then t.(bytes := t.bytes + a.size - b.size) else t
    case (Some(b), None) =>
      var t := Adjusted(s, KindOf(b), -1);
      t.(bytes := t.bytes - Bytes(b))
    case (None, None) => s
  }

  function ChunkChanged(s: Counts, before: bool, after: bool): Counts {
    if !before && after then s.(chunks := s.chunks + 1)
    else if before && !after then s.(chunks := s.chunks - 1)
    else s
  }

  // ----- the recount -----

  function OfKind(rows: Rows, kind: Kind): set<nat> {
    set ino | ino in rows && KindOf(rows[ino]) == kind
  }

  ghost function ByteMap(rows: Rows): map<nat, int> {
    map ino | ino in rows :: Bytes(rows[ino])
  }

  /** The counts are those of the rows, as if counted from nothing. */
  ghost predicate CountsRows(s: Counts, rows: Rows, chunks: set<(nat, nat)>) {
    && s.files == |OfKind(rows, File)| && s.dirs == |OfKind(rows, Dir)|
    && s.symlinks == |OfKind(rows, Symlink)| && s.others == |OfKind(rows, Other)|
    && s.bytes == Sum(ByteMap(rows)) && s.chunks == |chunks|
  }

  function CountFor(s: Counts, kind: Kind): int {
    match kind
    case File => s.files
    case Dir => s.dirs
    case Symlink => s.symlinks
    case Other => s.others
  }

  function RowsAfter(rows: Rows, ino: nat, after: Option<Inode>): Rows {
    match after
    case Some(a) => rows[ino := a]
    case None => rows - {ino}
  }

  function RowOf(rows: Rows, ino: nat): Option<Inode> {
    if ino in rows then Some(rows[ino]) else None
  }

  lemma KindCounts(rows: Rows, ino: nat, after: Option<Inode>, kind: Kind)
    ensures |OfKind(RowsAfter(rows, ino, after), kind)| ==
            |OfKind(rows, kind)| - (if ino in rows && KindOf(rows[ino]) == kind then 1 else 0)
            + if after.Some? && KindOf(after.value) == kind then 1 else 0
  {
    hide KindOf;
    var was, now := OfKind(rows, kind), OfKind(RowsAfter(rows, ino, after), kind);
    OthersStay(rows, ino, after, kind);
    SizeWithout(was, ino);
    SizeWithout(now, ino);
  }

  lemma OthersStay(rows: Rows, ino: nat, after: Option<Inode>, kind: Kind)
    ensures OfKind(rows, kind) - {ino} == OfKind(RowsAfter(rows, ino, after), kind) - {ino}
  {
    hide KindOf;
    var was, now := OfKind(rows, kind), OfKind(RowsAfter(rows, ino, after), kind);
    forall k | k != ino
      ensures k in was <==> k in now
    {
    }
  }

  lemma SizeWithout(s: set<nat>, x: nat)
    ensures |s| == |s - {x}| + if x in s then 1 else 0
  {
    if x in s {
      assert s == (s - {x}) + {x};
    } else {
      assert s == s - {x};
    }
  }

  lemma ByteCount(rows: Rows, ino: nat, after: Option<Inode>)
    ensures Sum(ByteMap(RowsAfter(rows, ino, after))) ==
            Sum(ByteMap(rows)) - (if ino in rows then Bytes(rows[ino]) else 0) + if after.Some? then Bytes(after.value)
            else 0
  {
    hide Bytes;
    if after.Some? {
      assert ByteMap(rows[ino := after.value]) == ByteMap(rows)[ino := Bytes(after.value)];
      SumUpdate(ByteMap(rows), ino, Bytes(after.value));
    } else {
      assert ByteMap(rows - {ino}) == ByteMap(rows) - {ino};
      SumDrop(ByteMap(rows), ino);
    }
  }

  /** The inode kinds are always counted right. */
  lemma KindsStayRight(s: Counts, rows: Rows, ino: nat, after: Option<Inode>, kind: Kind)
    requires CountFor(s, kind) == |OfKind(rows, kind)|
    ensures CountFor(InodeChanged(s, ino, RowOf(rows, ino), after), kind) == |OfKind(RowsAfter(rows, ino, after), kind)|
  {
    hide KindOf, Bytes, OfKind;
    KindCounts(rows, ino, after, kind);
  }

  /** How far a change sets the counted bytes off: one that makes a file of something else takes off a size that was
      never counted, and one that makes something else of a file leaves its size counted. */
  function Drift(before: Option<Inode>, after: Option<Inode>): int {
    if before.None? || after.None? || KindOf(before.value) == KindOf(after.value) then 0
    else if KindOf(after.value) == File then -before.value.size
    else if KindOf(before.value) == File then before.value.size
    else 0
  }

  lemma BytesDrift(s: Counts, rows: Rows, ino: nat, after: Option<Inode>)
    requires (ino in rows ==> rows[ino].size >= 0) && (after.Some? ==> after.value.size >= 0)
    ensures InodeChanged(s, ino, RowOf(rows, ino), after).bytes - Sum(ByteMap(RowsAfter(rows, ino, after)))
            == s.bytes - Sum(ByteMap(rows)) + Drift(RowOf(rows, ino), after)
  {
    hide KindOf, ByteMap;
    ByteCount(rows, ino, after);
  }

  /** With sizes that are not negative, a change counts the logical bytes right if and only if it keeps the
      inode's kind, or neither kind is a file's, or the size before was zero. */
  lemma BytesStayRightIff(s: Counts, rows: Rows, ino: nat, after: Option<Inode>)
    requires s.bytes == Sum(ByteMap(rows))
    requires (ino in rows ==> rows[ino].size >= 0) && (after.Some? ==> after.value.size >= 0)
    ensures InodeChanged(s, ino, RowOf(rows, ino), after).bytes == Sum(ByteMap(RowsAfter(rows, ino, after)))
            <==> BytesKept(RowOf(rows, ino), after)
  {
    hide KindOf, ByteMap;
    BytesDrift(s, rows, ino, after);
  }

  predicate BytesKept(before: Option<Inode>, after: Option<Inode>) {
    before.Some? && after.Some? ==>
      || KindOf(before.value) == KindOf(after.value)
      || (KindOf(before.value) != File && KindOf(after.value) != File)
      || before.value.size == 0
  }

  /** A file of five bytes whose row becomes a directory's: five bytes stay counted for no file. */
  lemma FileBecomesDirectory()
    ensures var file, dir := Inode(0x8000, false, false, 5), Inode(0x4000, true, false, 0);
            var rows := map[8 := file];
            && CountsRows(Counts(1, 0, 0, 0, 5, 0, 8), rows, {})
            && var s := InodeChanged(Counts(1, 0, 0, 0, 5, 0, 8), 8, Some(file), Some(dir));
               s.bytes == 5 && s.dirs == 1 && Sum(ByteMap(RowsAfter(rows, 8, Some(dir)))) == 0
  {
    var file, dir := Inode(0x8000, false, false, 5), Inode(0x4000, true, false, 0);
    assert KindOf(file) == File && KindOf(dir) == Dir;
    NothingCounted();
    var none: Rows := map[];
    assert RowsAfter(none, 8, Some(file)) == map[8 := file] && RowsAfter(map[8 := file], 8, Some(dir)) == map[8 := dir];
    RowKeeps(NONE, none, {}, 8, Some(file));
    RowKeeps(NONE, none, {}, 8, Some(dir));
    assert RowsAfter(none, 8, Some(dir)) == map[8 := dir];
  }

  // ----- change logs -----

  datatype Change = Row(ino: nat, after: Option<Inode>) | Chunk(key: (nat, nat), present: bool)

  datatype Table = Table(rows: Rows, chunks: set<(nat, nat)>)

  function TableAfter(t: Table, c: Change): Table {
    match c
    case Row(ino, after) => t.(rows := RowsAfter(t.rows, ino, after))
    case Chunk(key, present) => t.(chunks := if present then t.chunks + {key} else t.chunks - {key})
  }

  function CountsAfter(s: Counts, t: Table, c: Change): Counts {
    match c
    case Row(ino, after) => InodeChanged(s, ino, RowOf(t.rows, ino), after)
    case Chunk(key, present) => ChunkChanged(s, key in t.chunks, present)
  }

  /** No size is negative, and the change counts the logical bytes right. */
  predicate Sound(t: Table, c: Change) {
    NoNegative(c) && (c.Row? ==> BytesKept(RowOf(t.rows, c.ino), c.after))
  }

  predicate NoNegative(c: Change) {
    c.Row? && c.after.Some? ==> c.after.value.size >= 0
  }

  predicate SizesOk(t: Table) {
    forall ino | ino in t.rows :: t.rows[ino].size >= 0
  }

  lemma ChangeKeeps(s: Counts, t: Table, c: Change)
    requires CountsRows(s, t.rows, t.chunks) && SizesOk(t) && Sound(t, c)
    ensures CountsRows(CountsAfter(s, t, c), TableAfter(t, c).rows, TableAfter(t, c).chunks)
            && SizesOk(TableAfter(t, c))
  {
    hide KindOf, OfKind, ByteMap, Bytes, InodeChanged, RowsAfter;
    match c
    case Row(ino, after) =>
      RowKeeps(s, t.rows, t.chunks, ino, after);
      SizesKeep(t, ino, after);
    case Chunk(key, present) =>
      assert key in t.chunks ==> t.chunks - {key} + {key} == t.chunks;
      assert key !in t.chunks ==> t.chunks - {key} == t.chunks;
  }

  lemma SizesKeep(t: Table, ino: nat, after: Option<Inode>)
    requires SizesOk(t) && (after.Some? ==> after.value.size >= 0)
    ensures SizesOk(t.(rows := RowsAfter(t.rows, ino, after)))
  {
  }

  lemma RowKeeps(s: Counts, rows: Rows, chunks: set<(nat, nat)>, ino: nat, after: Option<Inode>)
    requires CountsRows(s, rows, chunks) && BytesKept(RowOf(rows, ino), after)
    requires (ino in rows ==> rows[ino].size >= 0) && (after.Some? ==> after.value.size >= 0)
    ensures CountsRows(InodeChanged(s, ino, RowOf(rows, ino), after), RowsAfter(rows, ino, after), chunks)
  {
    hide KindOf, OfKind, ByteMap, Bytes, InodeChanged, RowsAfter;
    KindsStayRight(s, rows, ino, after, File);
    KindsStayRight(s, rows, ino, after, Dir);
    KindsStayRight(s, rows, ino, after, Symlink);
    KindsStayRight(s, rows, ino, after, Other);
    BytesStayRightIff(s, rows, ino, after);
    ChunksUntouched(s, ino, RowOf(rows, ino), after);
  }

  lemma ChunksUntouched(s: Counts, ino: nat, before: Option<Inode>, after: Option<Inode>)
    ensures InodeChanged(s, ino, before, after).chunks == s.chunks
  {
    hide KindOf, Bytes;
  }

  function FinalTable(t: Table, log: seq<Change>): Table {
    if log == [] then t else TableAfter(FinalTable(t, log[..|log| - 1]), log[|log| - 1])
  }

  function Folded(s: Counts, t: Table, log: seq<Change>): Counts {
    if log == [] then s else
    var before := log[..|log| - 1];
    CountsAfter(Folded(s, t, before), FinalTable(t, before), log[|log| - 1])
  }

  /** How far a log sets the counted bytes off. */
  ghost function LogDrift(t: Table, log: seq<Change>): int {
    if log == [] then 0 else
    var before, last := log[..|log| - 1], log[|log| - 1];
    LogDrift(t, before) + if last.Row? then Drift(RowOf(FinalTable(t, before).rows, last.ino), last.after) else 0
  }

  /** All the counts but the bytes, and the bytes `off` by so much. */
  ghost predicate CountsBut(s: Counts, t: Table, off: int) {
    CountsRows(s.(bytes := s.bytes - off), t.rows, t.chunks)
  }

  lemma ChangeDrifts(s: Counts, t: Table, c: Change, off: int)
    requires CountsBut(s, t, off) && SizesOk(t) && NoNegative(c)
    ensures CountsBut(CountsAfter(s, t, c), TableAfter(t, c), off + if c.Row? then Drift(RowOf(t.rows, c.ino), c.after)
                else 0)
    ensures SizesOk(TableAfter(t, c))
  {
    hide KindOf, OfKind, ByteMap, Bytes, InodeChanged, RowsAfter, Drift;
    match c
    case Row(ino, after) =>
      KindsStayRight(s, t.rows, ino, after, File);
      KindsStayRight(s, t.rows, ino, after, Dir);
      KindsStayRight(s, t.rows, ino, after, Symlink);
      KindsStayRight(s, t.rows, ino, after, Other);
      BytesDrift(s, t.rows, ino, after);
      ChunksUntouched(s, ino, RowOf(t.rows, ino), after);
      SizesKeep(t, ino, after);
    case Chunk(key, present) =>
      assert key in t.chunks ==> t.chunks - {key} + {key} == t.chunks;
      assert key !in t.chunks ==> t.chunks - {key} == t.chunks;
  }

  lemma {:induction false} FoldDrifts(s: Counts, t: Table, log: seq<Change>)
    requires CountsRows(s, t.rows, t.chunks) && SizesOk(t) && forall i | 0 <= i < |log| :: NoNegative(log[i])
    ensures CountsBut(Folded(s, t, log), FinalTable(t, log), LogDrift(t, log)) && SizesOk(FinalTable(t, log))
  {
    hide CountsRows, NoNegative, SizesOk, CountsAfter, TableAfter, Drift;
    if log == [] {
      assert s.(bytes := s.bytes - 0) == s;
    } else {
      var before := log[..|log| - 1];
      FoldDrifts(s, t, before);
      ChangeDrifts(Folded(s, t, before), FinalTable(t, before), log[|log| - 1], LogDrift(t, before));
    }
  }

  /** Folding the changes of any log without negative sizes gives the counts of the final rows if and only if the log
      drifts by nothing; the kinds and the chunks are right in any case. */
  lemma FoldIsRecount(s: Counts, t: Table, log: seq<Change>)
    requires CountsRows(s, t.rows, t.chunks) && SizesOk(t) && forall i | 0 <= i < |log| :: NoNegative(log[i])
    ensures var u := FinalTable(t, log); CountsRows(Folded(s, t, log), u.rows, u.chunks) <==> LogDrift(t, log) == 0
    ensures CountsBut(Folded(s, t, log), FinalTable(t, log), LogDrift(t, log))
  {
    hide NoNegative, SizesOk, CountsAfter, TableAfter, LogDrift, OfKind;
    FoldDrifts(s, t, log);
  }

  /** A log of sound changes drifts by nothing. */
  lemma {:induction false} SoundLogHolds(t: Table, log: seq<Change>)
    requires forall i | 0 <= i < |log| :: Sound(FinalTable(t, log[..i]), log[i])
    ensures LogDrift(t, log) == 0
  {
    hide KindOf;
    if log != [] {
      var n := |log| - 1;
      var before := log[..n];
      assert forall i | 0 <= i < n :: before[..i] == log[..i];
      SoundLogHolds(t, before);
      assert Sound(FinalTable(t, log[..n]), log[n]);
    }
  }

  lemma MaxInoStep(s: Counts, t: Table, c: Change)
    ensures CountsAfter(s, t, c).maxIno >= s.maxIno
    ensures c.Row? && c.after.Some? && c.ino !in t.rows ==> CountsAfter(s, t, c).maxIno >= c.ino
  {
    hide KindOf, Bytes;
  }

  /** The maximum never falls, and never falls below an inode that was ever created. */
  lemma {:induction false} MaxInoCovers(s: Counts, t: Table, log: seq<Change>, k: nat)
    requires k < |log| && log[k].Row? && log[k].after.Some? && log[k].ino !in FinalTable(t, log[..k]).rows
    ensures Folded(s, t, log).maxIno >= log[k].ino && Folded(s, t, log).maxIno >= s.maxIno
  {
    hide CountsAfter, TableAfter;
    var n := |log| - 1;
    var before := log[..n];
    MaxInoRises(s, t, before);
    MaxInoStep(Folded(s, t, before), FinalTable(t, before), log[n]);
    if k < n {
      assert before[..k] == log[..k];
      MaxInoCovers(s, t, before, k);
    }
  }

  lemma {:induction false} MaxInoRises(s: Counts, t: Table, log: seq<Change>)
    ensures Folded(s, t, log).maxIno >= s.maxIno
  {
    hide CountsAfter, TableAfter;
    if log != [] {
      var before := log[..|log| - 1];
      MaxInoRises(s, t, before);
      MaxInoStep(Folded(s, t, before), FinalTable(t, before), log[|log| - 1]);
    }
  }

  // ----- counting from nothing -----

  lemma NothingCounted()
    ensures CountsRows(NONE, map[], {}) && SizesOk(Table(map[], {}))
  {
    assert ByteMap(map[]) == map[];
  }

  /** Count every row of an index. */
  method Recount(rows: Rows, chunks: set<(nat, nat)>) returns (s: Counts)
    requires SizesOk(Table(rows, chunks))
    ensures CountsRows(s, rows, chunks)
    ensures forall ino | ino in rows :: ino <= s.maxIno
  {
    hide CountsRows, KindOf, Bytes;
    s := NONE;
    NothingCounted();
    var seen: Rows, todo := map[], rows.Keys;
    while todo != {}
      invariant todo <= rows.Keys && seen == map ino | ino in rows && ino !in todo :: rows[ino]
      invariant CountsRows(s, seen, {})
      invariant forall ino | ino in seen :: ino <= s.maxIno
      decreases |todo|
    {
      var ino :| ino in todo;
      RowKeeps(s, seen, {}, ino, Some(rows[ino]));
      s := InodeChanged(s, ino, None, Some(rows[ino]));
      seen, todo := seen[ino := rows[ino]], todo - {ino};
    }
    assert seen == rows;
    var counted: set<(nat, nat)>, left := {}, chunks;
    while left != {}
      invariant left <= chunks && counted == chunks - left && CountsRows(s, rows, counted)
      invariant forall ino | ino in rows :: ino <= s.maxIno
      decreases |left|
    {
      var key :| key in left;
      OneMoreChunk(s, rows, counted, key);
      s := ChunkChanged(s, false, true);
      counted, left := counted + {key}, left - {key};
    }
    assert counted == chunks;
  }

  lemma OneMoreChunk(s: Counts, rows: Rows, chunks: set<(nat, nat)>, key: (nat, nat))
    requires CountsRows(s, rows, chunks) && key !in chunks
    ensures CountsRows(ChunkChanged(s, false, true), rows, chunks + {key})
  {
  }

  // ----- the counters and the allocator -----

  const STRIDE: nat := 8

  /** A volume's counters and its next inode number. */
  class Volume {
    var stats: Counts
    var nextInode: nat
    ghost var table: Table
    /** Every inode number whose row was ever created, and every number handed out since the start. */
    ghost var created: set<nat>
    ghost var issued: set<nat>

    /** The counters are right, and the allocator is past everything created or handed out. */
    ghost predicate Valid()
      reads this
    {
      && CountsRows(stats, table.rows, table.chunks) && SizesOk(table)
      && (forall ino | ino in created :: ino <= stats.maxIno)
      && (forall ino | ino in issued :: ino < nextInode)
      && nextInode > stats.maxIno && nextInode % STRIDE == 0
    }

    constructor ()
      ensures Valid() && table == Table(map[], {}) && created == {} && issued == {}
    {
      stats, nextInode, table, created, issued := NONE, STRIDE, Table(map[], {}), {}, {};
      new;
      NothingCounted();
    }

    method AdjustInodeCount(kind: Kind, delta: int)
      modifies `stats
      ensures stats == Adjusted(old(stats), kind, delta)
    {
      match kind {
        case File => stats := stats.(files := stats.files + delta);
        case Dir => stats := stats.(dirs := stats.dirs + delta);
        case Symlink => stats := stats.(symlinks := stats.symlinks + delta);
        case Other => stats := stats.(others := stats.others + delta);
      }
    }

    /** Bring the counters up to date with one inode row's change. */
    method UpdateForInode(ino: nat, before: Option<Inode>, after: Option<Inode>)
      modifies `stats
      ensures stats == InodeChanged(old(stats), ino, before, after)
    {
      hide KindOf;
      if before.None? && after.Some? {
        if ino > stats.maxIno {
          stats := stats.(maxIno := ino);
        }
        AdjustInodeCount(KindOf(after.value), 1);
        if KindOf(after.value) == File && after.value.size > 0 {
          stats := stats.(bytes := stats.bytes + after.value.size);
        }
      } else if before.Some? && after.Some? {
        if KindOf(before.value) != KindOf(after.value) {
          AdjustInodeCount(KindOf(before.value), -1);
          AdjustInodeCount(KindOf(after.value), 1);
        }
        if KindOf(after.value) == File {
          stats := stats.(bytes := stats.bytes + (after.value.size - before.value.size));
        }
      } else if before.Some? {
        AdjustInodeCount(KindOf(before.value), -1);
        if KindOf(before.value) == File && before.value.size > 0 {
          stats := stats.(bytes := stats.bytes - before.value.size);
        }
      }
    }

    /** Apply a change of a row; a row is only created under a number that was handed out. */
    method Apply(c: Change, before: Option<Inode>, had: bool)
      requires Valid() && Sound(table, c)
      requires c.Row? ==> before == RowOf(table.rows, c.ino) && (before.None? && c.after.Some? ==> c.ino < nextInode)
      requires c.Chunk? ==> had == (c.key in table.chunks)
      modifies `stats, `table, `created
      ensures Valid() && table == TableAfter(old(table), c) && stats == CountsAfter(old(stats), old(table), c)
      ensures created == old(created) + if c.Row? && before.None? && c.after.Some? then {c.ino} else {}
    {
      hide CountsRows, InodeChanged, SizesOk;
      ChangeKeeps(stats, table, c);
      match c {
        case Row(ino, after) =>
          UpdateForInode(ino, before, after);
          MaxInoAfter(old(stats), ino, before, after);
          if before.None? && after.Some? {
            created := created + {ino};
          }
        case Chunk(key, present) =>
          if !had && present {
            stats := stats.(chunks := stats.chunks + 1);
          } else if had && !present {
            stats := stats.(chunks := stats.chunks - 1);
          }
      }
      table := TableAfter(table, c);
    }

    /** The next inode number: never one handed out before in this life, nor one ever created. */
    method AllocInode() returns (ino: nat)
      requires Valid()
      modifies `nextInode, `issued
      ensures Valid() && ino < nextInode && ino % STRIDE == 0 && ino > 0
      ensures ino !in created && ino !in old(issued) && issued == old(issued) + {ino}
    {
      hide CountsRows;
      ino := nextInode;
      nextInode := nextInode + STRIDE;
      issued := issued + {ino};
    }

    /** A new life: the allocator starts over from the counters and from what was replayed. */
    method Restart(highestReplayed: nat)
      requires Valid()
      modifies `nextInode, `issued
      ensures Valid() && issued == {} && nextInode > highestReplayed
    {
      hide CountsRows;
      nextInode, issued := 0, {};
      var maxIno := if highestReplayed > stats.maxIno then highestReplayed else stats.maxIno;
      if maxIno > 0 {
        var next := (maxIno + STRIDE) / STRIDE * STRIDE;
        if next > nextInode {
          nextInode := next;
        }
      }
      if nextInode < STRIDE {
        nextInode := STRIDE;
      }
    }

    /** Go back to a snapshot: its counters come with it, but the maximum does not fall. */
    method Restore(counts: Counts, snapshot: Table, highestReplayed: nat)
      requires Valid() && CountsRows(counts, snapshot.rows, snapshot.chunks) && SizesOk(snapshot)
      modifies `stats, `table, `nextInode
      ensures Valid() && table == snapshot && created == old(created)
      ensures stats.maxIno >= old(stats).maxIno && stats.maxIno >= counts.maxIno && stats.maxIno >= highestReplayed
      ensures stats == counts.(maxIno := stats.maxIno)
    {
      hide SizesOk, Sum, OfKind;
      var highest := if stats.maxIno > highestReplayed then stats.maxIno else highestReplayed;
      stats := if highest > counts.maxIno then counts.(maxIno := highest) else counts;
      table := snapshot;
      var next := (stats.maxIno + STRIDE) / STRIDE * STRIDE;
      if next > nextInode {
        nextInode := next;
      }
    }
  }

  lemma MaxInoAfter(s: Counts, ino: nat, before: Option<Inode>, after: Option<Inode>)
    ensures InodeChanged(s, ino, before, after).maxIno == if before.None? && after.Some? && ino > s.maxIno then ino
            else s.maxIno
  {
    hide KindOf, Bytes;
  }
}
