/** A packfile that is appended to and then sealed, and what a reader of the sealed file finds. */
module Pack {
  import opened Bytes
  import opened BigEndian
  import opened PackModel
  import opened Options
  import FlatFile

  class IncrementalPack {
    var file: seq<Byte>
    const slots: nat
    var offset: nat
    var sealed: bool
    var open: bool
    var entries: seq<Entry>
    /** The blobs appended, by hash. */
    ghost var blobs: map<seq<Byte>, Blob>

    ghost predicate Valid()
      reads this
    {
      && |file| == offset && slots < Pow256(4) && Base(slots) < Pow256(4)
      && EntriesOk(file, slots, blobs, entries) && TableOk(file, slots, entries)
      && HeaderOk(file, slots, if sealed then |entries| else 0, if sealed then FLAG_SEALED else 0)
      && (sealed ==> Sorted(entries))
    }

    constructor (slots: nat)
      requires Base(if slots == 0 then 1024 else slots) < Pow256(4)
      ensures Valid() && !sealed && open && entries == [] && blobs == map[] && this.slots == if slots == 0 then 1024
              else slots
    {
      var n := if slots == 0 then 1024 else slots;
      this.slots := n;
      file := BASE_HEADER + Encoded(n, 4) + Zeros(Base(n) - 12);
      offset, sealed, open, entries, blobs := Base(n), false, true, [], map[];
      new;
      Blank(n);
    }

    method Lookup(sha: seq<Byte>) returns (r: Option<Entry>)
      ensures r.Some? ==> r.value in entries && r.value.sha == sha
      ensures r.None? ==> !HasEntry(entries, sha)
    {
      var i := 0;
      while i < |entries|
        invariant 0 <= i <= |entries| && forall j | 0 <= j < i :: entries[j].sha != sha
      {
        if entries[i].sha == sha {
          return Some(entries[i]);
        }
        i := i + 1;
      }
      r := None;
    }

    /** Append a blob, once per hash. The entry finds the payload if and only if it begins below 4 GiB and is no longer
        than that; the pack stays good as long as every one does. */
    method Append(blob: Blob) returns (r: Result<Entry>)
      requires Valid() && |blob.sha| == 32
      modifies this
      ensures sealed == old(sealed) && open == old(open)
      ensures r.Err? || blob.sha in old(blobs) || InReach(old(offset), blob) ==> Valid()
      ensures r.Ok? ==> r.value in entries && r.value.sha == blob.sha
      ensures r.Ok? && blob.sha !in old(blobs) ==>
                && |file| == offset == old(offset) + ITEM_HEADER_SIZE + |blob.payload|
                && (r.value.offset == old(offset) + ITEM_HEADER_SIZE && r.value.stored == |blob.payload|
                    <==> InReach(old(offset), blob))
      ensures r.Ok? && blob.sha !in old(blobs) ==>
                blobs == old(blobs)[blob.sha := blob] && entries == old(entries) + [r.value]
      ensures r.Err? || blob.sha in old(blobs) ==> file == old(file) && entries == old(entries) && blobs == old(blobs)
      ensures !old(open) ==> r == Err(IsClosed)
      ensures old(open) && old(sealed) ==> r == Err(IsSealed)
      ensures old(open) && !old(sealed) ==> (r.Err? <==> blob.sha !in old(blobs) && |old(entries)| >= slots)
      ensures old(open) && !old(sealed) && r.Err? ==> r == Err(SlotsFull)
    {
      hide EntriesOk, TableOk, HeaderOk, Sorted;
      if !open {
        return Err(IsClosed);
      }
      if sealed {
        return Err(IsSealed);
      }
      var existing := Lookup(blob.sha);
      KnownHas(file, slots, blobs, entries, blob.sha);
      if existing.Some? {
        return Ok(existing.value);
      }
      if |entries| >= slots {
        return Err(SlotsFull);
      }
      var start := offset + ITEM_HEADER_SIZE;
      TableFits(file, slots, entries);
      var e := Entry(blob.sha, Low32(start), Low32(|blob.payload|), Low32(blob.final), Low32(blob.encoding));
      var longer := FlatFile.Write(file, offset, ItemHeader(Low32(blob.encoding), Low32(blob.final)) + blob.payload);
      var table := FlatFile.Write(longer, SlotAt(|entries|), SlotBytes(e));
      Cut(offset, blob);
      if InReach(offset, blob) {
        ItemAppended(file, slots, blobs, entries, blob, e, longer);
        SlotWritten(longer, slots, blobs[blob.sha := blob], entries, e, table);
      }
      file, offset := table, start + |blob.payload|;
      entries := entries + [e];
      blobs := blobs[blob.sha := blob];
      r := Ok(e);
    }

    /** Sort the entries by hash, write the table and mark the file sealed. */
    method Seal() returns (r: Result<()>)
      requires Valid()
      modifies `file, `sealed, `entries
      ensures Valid() && multiset(entries) == multiset(old(entries))
      ensures r == if old(sealed) || open then Ok(()) else Err(IsClosed)
      ensures sealed == (old(sealed) || open)
    {
      hide EntriesOk, TableOk, HeaderOk, Sorted, SlotBytes, Spells, Ascending, Encoded, Pow256;
      if sealed {
        return Ok(());
      }
      if !open {
        return Err(IsClosed);
      }
      Hashes(file, slots, blobs, entries, []);
      TableFits(file, slots, entries);
      var sorted := SortByHash(entries);
      Resorted(file, slots, blobs, entries, sorted);
      var table := BuildTable(sorted, file, slots, blobs);
      var f := FlatFile.Write(file, HEADER_SIZE, table);
      TableWritten(file, slots, blobs, sorted, table);
      SealWritten(f, slots, blobs, sorted);
      f := FlatFile.Write(f, 12, Encoded(|sorted|, 4) + Encoded(FLAG_SEALED, 4));
      file, entries, sealed := f, sorted, true;
      r := Ok(());
    }
  }

  /** The slots of the entries, one after another. */
  method BuildTable(entries: seq<Entry>, ghost file: seq<Byte>, ghost slots: nat, ghost blobs: map<seq<Byte>,
      Blob>) returns (table: seq<Byte>)
    requires EntriesOk(file, slots, blobs, entries)
    ensures Spells(table, entries)
  {
    hide SlotBytes, Pow256;
    table := [];
    var i := 0;
    while i < |entries|
      invariant 0 <= i <= |entries| && Spells(table, entries[..i])
    {
      ghost var was := table;
      table := table + SlotBytes(entries[i]);
      SpellsMore(was, entries, i);
      i := i + 1;
    }
    assert entries[..i] == entries;
  }

  predicate Spells(table: seq<Byte>, entries: seq<Entry>) {
    && |table| == SLOT_SIZE * |entries|
    && forall i | 0 <= i < |entries| :: SpelledAt(table, i, entries[i])
  }

  predicate SpelledAt(table: seq<Byte>, i: nat, e: Entry) {
    Fits(e) && SLOT_SIZE * i + SLOT_SIZE <= |table| && table[SLOT_SIZE * i..SLOT_SIZE * i + SLOT_SIZE] == SlotBytes(e)
  }

  lemma SpellsMore(table: seq<Byte>, entries: seq<Entry>, i: nat)
    requires i < |entries| && Spells(table, entries[..i]) && Fits(entries[i])
    ensures Spells(table + SlotBytes(entries[i]), entries[..i + 1])
  {
    hide SlotBytes, Fits;
    var more, all := table + SlotBytes(entries[i]), entries[..i + 1];
    forall j | 0 <= j < |all|
      ensures SpelledAt(more, j, all[j])
    {
      if j < i {
        assert SpelledAt(table, j, entries[..i][j]);
        InFront(table, SlotBytes(entries[i]), SLOT_SIZE * j, SLOT_SIZE * j + SLOT_SIZE);
      } else {
        Behind(table, SlotBytes(entries[i]));
      }
    }
  }

  lemma InFront<T>(a: seq<T>, b: seq<T>, x: nat, y: nat)
    requires x <= y <= |a|
    ensures (a + b)[x..y] == a[x..y]
  {
  }

  lemma Behind<T>(a: seq<T>, b: seq<T>)
    ensures (a + b)[|a|..|a| + |b|] == b
  {
  }

  // ----- what each step keeps -----

  lemma {:induction false} EncodedZero(w: nat)
    ensures Encoded(0, w) == Zeros(w)
  {
    if w > 0 {
      EncodedZero(w - 1);
    }
  }

  lemma Blank(n: nat)
    ensures var file := BASE_HEADER + Encoded(n, 4) + Zeros(Base(n) - 12);
            |file| == Base(n) && EntriesOk(file, n, map[], []) && TableOk(file, n, [])
            && (n > 0 ==> HeaderOk(file, n, 0, 0))
  {
    hide Encoded;
    EncodedZero(4);
    var file := BASE_HEADER + Encoded(n, 4) + Zeros(Base(n) - 12);
    assert file[..8] == BASE_HEADER && file[8..12] == Encoded(n, 4);
    if n > 0 {
      assert file[12..16] == Zeros(4) && file[16..20] == Zeros(4);
    }
  }

  lemma KnownHas(file: seq<Byte>, slots: nat, blobs: map<seq<Byte>, Blob>, entries: seq<Entry>, sha: seq<Byte>)
    requires EntriesOk(file, slots, blobs, entries)
    ensures sha in blobs <==> HasEntry(entries, sha)
  {
    hide Pow256;
  }

  /** The blob's offset and length fit the 32 bits an entry has for them. */
  predicate InReach(offset: nat, blob: Blob) {
    offset + ITEM_HEADER_SIZE < Pow256(4) && |blob.payload| < Pow256(4)
  }

  lemma Cut(offset: nat, blob: Blob)
    requires |blob.sha| == 32
    ensures var start := offset + ITEM_HEADER_SIZE;
            && Fits(Entry(blob.sha, Low32(start), Low32(|blob.payload|), Low32(blob.final), Low32(blob.encoding)))
            && (Low32(start) == start && Low32(|blob.payload|) == |blob.payload| <==> InReach(offset, blob))
  {
    hide Pow256;
    Widths();
  }

  lemma TableFits(file: seq<Byte>, slots: nat, entries: seq<Entry>)
    requires TableOk(file, slots, entries)
    ensures |entries| <= slots && Base(slots) <= |file|
  {
  }

  /** The entry of a blob put at the end of the file. */
  predicate ItemOf(file: seq<Byte>, blob: Blob, e: Entry) {
    e == Entry(blob.sha, |file| + ITEM_HEADER_SIZE, |blob.payload|, Low32(blob.final), Low32(blob.encoding))
  }

  /** The item is appended behind the file's end. */
  lemma ItemAppended(file: seq<Byte>, slots: nat, blobs: map<seq<Byte>, Blob>, entries: seq<Entry>, blob: Blob,
                     e: Entry, longer: seq<Byte>)
    requires EntriesOk(file, slots, blobs, entries) && TableOk(file, slots, entries) && HeaderOk(file, slots, 0, 0)
    requires blob.sha !in blobs && Fits(e) && ItemOf(file, blob, e)
    requires longer == FlatFile.Write(file, |file|, ItemHeader(Low32(blob.encoding), Low32(blob.final)) + blob.payload)
    ensures |longer| == |file| + ITEM_HEADER_SIZE + |blob.payload|
    ensures EntriesOk(longer, slots, blobs[blob.sha := blob], entries + [e]) && TableOk(longer, slots, entries)
            && HeaderOk(longer, slots, 0, 0)
  {
    hide Fits, ItemHeader, Low32, TableOk, HeaderOk, EntriesOk;
    TableFits(file, slots, entries);
    assert longer[..|file|] == file;
    AgreeFront(file, longer, Base(slots), |file|);
    AgreeFront(file, longer, HEADER_SIZE, Base(slots));
    AgreeFront(file, longer, 0, HEADER_SIZE);
    EntriesMoved(file, longer, slots, blobs, entries);
    TableMoved(file, longer, slots, entries);
    HeaderMoved(file, longer, slots, 0, 0);
    assert longer[e.offset..e.offset + e.stored] == blob.payload;
    InsideFile(file, slots, blobs, entries);
    EntryAdded(longer, slots, blobs, entries, blob, e);
  }

  lemma AgreeFront(file: seq<Byte>, longer: seq<Byte>, a: nat, b: nat)
    requires file <= longer && a <= b <= |file|
    ensures Agree(file, longer, a, b)
  {
    assert longer[..|file|] == file;
  }

  lemma InsideFile(file: seq<Byte>, slots: nat, blobs: map<seq<Byte>, Blob>, entries: seq<Entry>)
    requires EntriesOk(file, slots, blobs, entries)
    ensures forall i | 0 <= i < |entries| :: entries[i].offset + entries[i].stored <= |file|
  {
    forall i | 0 <= i < |entries|
      ensures entries[i].offset + entries[i].stored <= |file|
    {
      assert EntryOk(file, slots, blobs, entries[i]);
    }
  }

  /** A write into the table or the header leaves what is past the table alone. */
  lemma Patched(file: seq<Byte>, off: nat, data: seq<Byte>, slots: nat, blobs: map<seq<Byte>, Blob>,
                entries: seq<Entry>)
    requires EntriesOk(file, slots, blobs, entries) && off + |data| <= Base(slots) <= |file|
    ensures |FlatFile.Write(file, off, data)| == |file|
            && EntriesOk(FlatFile.Write(file, off, data), slots, blobs, entries)
  {
    hide EntriesOk;
    FlatFile.Overlaid(file, off, data, Base(slots), |file|);
    EntriesMoved(file, FlatFile.Write(file, off, data), slots, blobs, entries);
  }

  /** And its slot is written into the table. */
  lemma SlotWritten(file: seq<Byte>, slots: nat, blobs: map<seq<Byte>, Blob>, entries: seq<Entry>, e: Entry,
                    table: seq<Byte>)
    requires EntriesOk(file, slots, blobs, entries + [e]) && TableOk(file, slots, entries)
             && HeaderOk(file, slots, 0, 0)
             && |entries| < slots
    requires Fits(e) && table == FlatFile.Write(file, SlotAt(|entries|), SlotBytes(e))
    ensures |table| == |file| && EntriesOk(table, slots, blobs, entries + [e]) && TableOk(table, slots, entries + [e])
            && HeaderOk(table, slots, 0, 0)
  {
    hide Encoded, SlotBytes, Fits, EntriesOk;
    var all, at := entries + [e], SlotAt(|entries|);
    HeaderKept(file, at, SlotBytes(e), slots, 0, 0);
    Patched(file, at, SlotBytes(e), slots, blobs, all);
    FlatFile.Overlaid(file, at, SlotBytes(e), 0, 0);
    forall i | 0 <= i < |all|
      ensures SlotOk(table, i, all[i])
    {
      if i < |entries| {
        assert SlotOk(file, i, entries[i]);
        FlatFile.Overlaid(file, at, SlotBytes(e), SlotAt(i), SlotAt(i) + SLOT_SIZE);
      }
    }
  }

  lemma HeaderKept(file: seq<Byte>, off: nat, data: seq<Byte>, slots: nat, used: nat, flags: nat)
    requires HeaderOk(file, slots, used, flags) && HEADER_SIZE <= off && off + |data| <= |file|
    ensures |FlatFile.Write(file, off, data)| == |file| && HeaderOk(FlatFile.Write(file, off, data), slots, used, flags)
  {
    hide HeaderOk;
    FlatFile.Overlaid(file, off, data, 0, HEADER_SIZE);
    HeaderMoved(file, FlatFile.Write(file, off, data), slots, used, flags);
  }

  // ----- sorting -----

  lemma {:induction false} Once(entries: seq<Entry>, e: Entry)
    requires forall i, j | 0 <= i < j < |entries| :: entries[i].sha != entries[j].sha
    ensures multiset(entries)[e] <= 1
  {
    if entries != [] {
      var n := |entries| - 1;
      Once(entries[..n], e);
      assert entries == entries[..n] + [entries[n]];
      if e == entries[n] {
        assert e !in entries[..n];
      }
    }
  }

  lemma Twice(entries: seq<Entry>, i: nat, j: nat)
    requires i < j < |entries|
    ensures entries[i] == entries[j] ==> multiset(entries)[entries[i]] >= 2
  {
    assert entries == entries[..j] + entries[j..];
    assert entries[..j][i] == entries[i] && entries[j..][0] == entries[j];
  }

  lemma SameElements(a: seq<Entry>, b: seq<Entry>, i: nat) returns (j: nat)
    requires multiset(a) == multiset(b) && i < |a|
    ensures j < |b| && b[j] == a[i]
  {
    assert a[i] in multiset(a);
    assert a[i] in b;
    j :| 0 <= j < |b| && b[j] == a[i];
  }

  /** Sorting changes no entry. */
  lemma Resorted(file: seq<Byte>, slots: nat, blobs: map<seq<Byte>, Blob>, entries: seq<Entry>, sorted: seq<Entry>)
    requires EntriesOk(file, slots, blobs, entries) && multiset(sorted) == multiset(entries) && Ascending(sorted)
    ensures |sorted| == |entries| && EntriesOk(file, slots, blobs, sorted) && Sorted(sorted)
  {
    hide EntryOk, Decoded, Encoded;
    assert |multiset(sorted)| == |multiset(entries)|;
    forall i | 0 <= i < |sorted|
      ensures EntryOk(file, slots, blobs, sorted[i])
    {
      var a := SameElements(sorted, entries, i);
    }
    forall i, j | 0 <= i < j < |sorted|
      ensures sorted[i].sha != sorted[j].sha && Apart(sorted[i], sorted[j])
              && Decoded(sorted[i].sha) < Decoded(sorted[j].sha)
    {
      var a := SameElements(sorted, entries, i);
      var b := SameElements(sorted, entries, j);
      Once(entries, sorted[i]);
      Twice(sorted, i, j);
      assert a != b;
      assert if a < b then entries[a].sha != entries[b].sha && Apart(entries[a], entries[b])
             else entries[b].sha != entries[a].sha && Apart(entries[b], entries[a]);
      HashLength(file, slots, blobs, sorted[i]);
      HashLength(file, slots, blobs, sorted[j]);
      EncodedDecoded(sorted[i].sha);
      EncodedDecoded(sorted[j].sha);
    }
    forall sha | sha in blobs
      ensures HasEntry(sorted, sha)
    {
      assert HasEntry(entries, sha);
      var a :| 0 <= a < |entries| && entries[a].sha == sha;
      var i := SameElements(entries, sorted, a);
    }
  }

  lemma HashLength(file: seq<Byte>, slots: nat, blobs: map<seq<Byte>, Blob>, e: Entry)
    requires EntryOk(file, slots, blobs, e)
    ensures |e.sha| == 32
  {
  }

  // ----- sealing -----

  /** Writing the whole table over the old one. */
  lemma TableWritten(file: seq<Byte>, slots: nat, blobs: map<seq<Byte>, Blob>, entries: seq<Entry>, table: seq<Byte>)
    requires EntriesOk(file, slots, blobs, entries) && HeaderOk(file, slots, 0, 0) && Spells(table, entries)
    requires |entries| <= slots && Base(slots) <= |file|
    ensures var f := FlatFile.Write(file, HEADER_SIZE, table);
            |f| == |file| && EntriesOk(f, slots, blobs, entries) && TableOk(f, slots, entries)
            && HeaderOk(f, slots, 0, 0)
  {
    hide Encoded, SlotBytes, Fits, EntriesOk;
    var f := FlatFile.Write(file, HEADER_SIZE, table);
    HeaderKept(file, HEADER_SIZE, table, slots, 0, 0);
    Patched(file, HEADER_SIZE, table, slots, blobs, entries);
    forall i | 0 <= i < |entries|
      ensures SlotOk(f, i, entries[i])
    {
      assert SpelledAt(table, i, entries[i]);
      assert f[SlotAt(i)..SlotAt(i) + SLOT_SIZE] == table[SLOT_SIZE * i..SLOT_SIZE * i + SLOT_SIZE];
    }
  }

  /** Writing the count and the sealed flag. */
  lemma SealWritten(file: seq<Byte>, slots: nat, blobs: map<seq<Byte>, Blob>, entries: seq<Entry>)
    requires EntriesOk(file, slots, blobs, entries) && TableOk(file, slots, entries) && HeaderOk(file, slots, 0, 0)
    ensures var f := FlatFile.Write(file, 12, Encoded(|entries|, 4) + Encoded(FLAG_SEALED, 4));
            && |f| == |file| && EntriesOk(f, slots, blobs, entries) && TableOk(f, slots, entries)
            && HeaderOk(f, slots, |entries|, FLAG_SEALED)
  {
    hide Encoded, EntriesOk, TableOk;
    var flags := Encoded(|entries|, 4) + Encoded(FLAG_SEALED, 4);
    var f := FlatFile.Write(file, 12, flags);
    TableFits(file, slots, entries);
    Patched(file, 12, flags, slots, blobs, entries);
    FlatFile.Overlaid(file, 12, flags, HEADER_SIZE, Base(slots));
    TableMoved(file, f, slots, entries);
    FlatFile.Overlaid(file, 12, flags, 0, 8);
    FlatFile.Overlaid(file, 12, flags, 8, 12);
    assert f[12..16] == f[12..20][..4] && f[16..20] == f[12..20][4..];
  }

  // ----- reading a pack -----

  /** Parse the header and the table. Where the table's size is cut to 32 bits, `OutOfRange` is where the code indexes
      past what it read. */
  method DecodePackTable(file: seq<Byte>) returns (r: Result<PackFile>)
    ensures TableError(file).Err? ==> r == Err(TableError(file).error)
    ensures TableError(file).Ok? ==>
              |file| >= HEADER_SIZE && (r.Err? <==> Wraps(file)) && (r.Err? ==> r.error == OutOfRange)
    ensures r.Ok? ==> r.value.slots == Decoded(file[8..12]) && r.value.flags == Decoded(file[16..20])
    ensures r.Ok? ==> |r.value.entries| == Decoded(file[12..16]) <= r.value.slots && SlotAt(|r.value.entries|) <= |file|
    ensures r.Ok? ==> forall i | 0 <= i < |r.value.entries| :: r.value.entries[i] == EntryAt(file, i)
  {
    hide Decoded, Pow256, ParsedSlot, TableError, Low32;
    var header := TableError(file);
    if header.Err? {
      return Err(header.error);
    }
    TableFacts(file);
    var slots, used, flags := Decoded(file[8..12]), Decoded(file[12..16]), Decoded(file[16..20]);
    var size := Low32(SLOT_SIZE * slots);
    var table := file[HEADER_SIZE..HEADER_SIZE + size];
    var entries, i := [], 0;
    while i < used
      invariant 0 <= i <= used && |entries| == i && SLOT_SIZE * i <= size
      invariant forall j | 0 <= j < i :: entries[j] == EntryAt(file, j)
    {
      var at := i * SLOT_SIZE;
      if at + SLOT_SIZE > size {
        return Err(OutOfRange);
      }
      SubSlice(file, HEADER_SIZE, HEADER_SIZE + size, SlotAt(i), SlotAt(i) + SLOT_SIZE);
      entries := entries + [ParsedSlot(table[at..at + SLOT_SIZE])];
      i := i + 1;
    }
    r := Ok(PackFile(slots, flags, entries));
  }

  lemma TableFacts(file: seq<Byte>)
    requires TableError(file).Ok?
    ensures |file| >= HEADER_SIZE && Decoded(file[12..16]) <= Decoded(file[8..12])
    ensures |file| >= HEADER_SIZE + Low32(SLOT_SIZE * Decoded(file[8..12]))
  {
    hide Decoded, Pow256;
  }

  /** Binary search for a hash. */
  method Find(entries: seq<Entry>, sha: seq<Byte>) returns (r: Option<Entry>)
    requires |sha| == 32 && Sorted(entries) && forall i | 0 <= i < |entries| :: |entries[i].sha| == 32
    ensures r.Some? ==> r.value in entries && r.value.sha == sha
    ensures r.None? ==> !HasEntry(entries, sha)
  {
    hide Decoded, Compare;
    var low, high := 0, |entries|;
    while low < high
      invariant 0 <= low <= high <= |entries|
      invariant forall i | 0 <= i < low :: Decoded(entries[i].sha) < Decoded(sha)
      invariant forall i | high <= i < |entries| :: Decoded(entries[i].sha) >= Decoded(sha)
    {
      var mid := (low + high) / 2;
      CompareIsOrder(entries[mid].sha, sha);
      if Compare(entries[mid].sha, sha) >= 0 {
        high := mid;
      } else {
        low := mid + 1;
      }
    }
    if low < |entries| && entries[low].sha == sha {
      return Some(entries[low]);
    }
    r := None;
    forall i | 0 <= i < |entries|
      ensures entries[i].sha != sha
    {
      if i > low {
        assert Decoded(entries[low].sha) < Decoded(entries[i].sha);
      }
    }
  }

  /** Whoever reads a sealed pack's file finds exactly the blobs appended: one entry for each hash, in order,
      whose range lies past the table, overlaps no other's and holds the payload. */
  method ReadBack(pack: IncrementalPack, sha: seq<Byte>) returns (r: Option<seq<Byte>>)
    requires pack.Valid() && pack.sealed && |sha| == 32
    ensures r == if sha in pack.blobs then Some(pack.blobs[sha].payload) else None
  {
    hide EntriesOk, TableOk, HeaderOk, Sorted, Pow256, Decoded, TableError;
    SealedReads(pack.file, pack.slots, pack.entries);
    OnlyLargeWraps(pack.file);
    var table := DecodePackTable(pack.file);
    assert table.value.entries == pack.entries;
    Hashes(pack.file, pack.slots, pack.blobs, pack.entries, sha);
    var e := Find(table.value.entries, sha);
    if e.None? {
      return None;
    }
    PayloadOf(pack.file, pack.slots, pack.blobs, pack.entries, e.value);
    r := Some(pack.file[e.value.offset..e.value.offset + e.value.stored]);
  }

  lemma Hashes(file: seq<Byte>, slots: nat, blobs: map<seq<Byte>, Blob>, entries: seq<Entry>, sha: seq<Byte>)
    requires EntriesOk(file, slots, blobs, entries)
    ensures forall i | 0 <= i < |entries| :: |entries[i].sha| == 32
    ensures sha in blobs <==> HasEntry(entries, sha)
  {
    hide Pow256;
    KnownHas(file, slots, blobs, entries, sha);
  }

  lemma PayloadOf(file: seq<Byte>, slots: nat, blobs: map<seq<Byte>, Blob>, entries: seq<Entry>, e: Entry)
    requires EntriesOk(file, slots, blobs, entries) && e in entries
    ensures e.sha in blobs && e.offset + e.stored <= |file|
            && file[e.offset..e.offset + e.stored] == blobs[e.sha].payload
  {
    var i :| 0 <= i < |entries| && entries[i] == e;
    assert EntryOk(file, slots, blobs, entries[i]);
  }

  ghost predicate Ascending(entries: seq<Entry>) {
    && (forall i | 0 <= i < |entries| :: |entries[i].sha| == 32)
    && forall i, j | 0 <= i < j < |entries| :: Decoded(entries[i].sha) <= Decoded(entries[j].sha)
  }

  method SortByHash(entries: seq<Entry>) returns (r: seq<Entry>)
    requires forall i | 0 <= i < |entries| :: |entries[i].sha| == 32
    ensures multiset(r) == multiset(entries) && Ascending(r)
  {
    hide Ascending;
    r := [];
    AscendingNone();
    var k := 0;
    while k < |entries|
      invariant 0 <= k <= |entries| && multiset(r) == multiset(entries[..k]) && Ascending(r)
    {
      r := InsertByHash(r, entries[k]);
      assert entries[..k + 1] == entries[..k] + [entries[k]];
      k := k + 1;
    }
    assert entries[..k] == entries;
  }

  lemma AscendingNone()
    ensures Ascending([])
  {
  }

  method InsertByHash(entries: seq<Entry>, e: Entry) returns (r: seq<Entry>)
    requires Ascending(entries) && |e.sha| == 32
    ensures Ascending(r) && multiset(r) == multiset(entries) + multiset{e}
  {
    hide Decoded, Compare;
    var at := 0;
    while at < |entries| && Compare(entries[at].sha, e.sha) <= 0
      invariant 0 <= at <= |entries| && forall i | 0 <= i < at :: Decoded(entries[i].sha) <= Decoded(e.sha)
    {
      CompareIsOrder(entries[at].sha, e.sha);
      at := at + 1;
    }
    if at < |entries| {
      CompareIsOrder(entries[at].sha, e.sha);
    }
    r := entries[..at] + [e] + entries[at..];
    Inserted(entries, at, e);
  }

  lemma Inserted(entries: seq<Entry>, at: nat, e: Entry)
    requires Ascending(entries) && |e.sha| == 32 && at <= |entries|
    requires forall i | 0 <= i < at :: Decoded(entries[i].sha) <= Decoded(e.sha)
    requires at < |entries| ==> Decoded(e.sha) <= Decoded(entries[at].sha)
    ensures var r := entries[..at] + [e] + entries[at..]; Ascending(r) && multiset(r) == multiset(entries) + multiset{e}
  {
    hide Decoded;
    var r := entries[..at] + [e] + entries[at..];
    InsertedCount(entries, at, e);
    forall i, j | 0 <= i < j < |r|
      ensures Decoded(r[i].sha) <= Decoded(r[j].sha)
    {
      InOrder(entries, at, e, i, j);
    }
    forall i | 0 <= i < |r|
      ensures |r[i].sha| == 32
    {
      assert r[i] == if i < at then entries[i] else if i == at then e else entries[i - 1];
    }
  }

  lemma InsertedCount(entries: seq<Entry>, at: nat, e: Entry)
    requires at <= |entries|
    ensures multiset(entries[..at] + [e] + entries[at..]) == multiset(entries) + multiset{e}
  {
    assert entries == entries[..at] + entries[at..];
  }

  lemma InOrder(entries: seq<Entry>, at: nat, e: Entry, i: nat, j: nat)
    requires Ascending(entries) && at <= |entries| && i < j <= |entries|
    requires forall i | 0 <= i < at :: Decoded(entries[i].sha) <= Decoded(e.sha)
    requires at < |entries| ==> Decoded(e.sha) <= Decoded(entries[at].sha)
    ensures var r := entries[..at] + [e] + entries[at..]; Decoded(r[i].sha) <= Decoded(r[j].sha)
  {
    hide Decoded;
    var r := entries[..at] + [e] + entries[at..];
    assert r[i] == if i < at then entries[i] else if i == at then e else entries[i - 1];
    assert r[j] == if j < at then entries[j] else if j == at then e else entries[j - 1];
  }
}
