/** The segment stores of the write-ahead log: records appended to the active file, files rotated, cut,
    retired and read back. The client's and the witness's stores share the layout and differ in the key:
    the stream's sequence number or the log position. */
module WalStore {
  import opened Bytes
  import opened WalCodec
  import opened WalScan
  import opened WalNames
  import opened WalOpen
  import opened WalStoreModel
  import opened Options
  import BigEndian

  function FileOf(dir: Dir, name: nat): seq<Byte> {
    if name in dir then dir[name] else []
  }

  ghost function TotalSize(segs: seq<Segment>): nat {
    if segs == [] then 0 else segs[0].size + TotalSize(segs[1..])
  }

  lemma SliceGrows<T>(s: seq<T>, k: nat, i: nat)
    requires k <= i < |s|
    ensures s[k..i + 1] == s[k..i] + [s[i]] && s[i..i] == [] && s[i + 1..i + 1] == []
  {
  }

  lemma TotalStep(segs: seq<Segment>, i: nat)
    requires i < |segs|
    ensures TotalSize(segs[i..]) == segs[i].size + TotalSize(segs[i + 1..])
  {
    assert segs[i..][1..] == segs[i + 1..];
  }

  /** The note of a segment with one more record. */
  function Longer(s: Segment, key: nat, length: nat): Segment {
    s.(first := if s.count == 0 then key else s.first, last := key, size := s.size + length, count := s.count + 1)
  }

  /** What follows a file's header. */
  function AfterHeader(file: seq<Byte>): seq<Byte> {
    if |file| < SEGMENT_HEADER_SIZE then [] else file[SEGMENT_HEADER_SIZE..]
  }

  class SegmentStore {
    const crc: Crc
    const kind: Kind
    const maxSegmentSize: int
    const unversioned: bool
    var dir: Dir
    var segments: seq<Segment>
    /** Whether a file is open for appending, and which segment was the last to be. */
    var open: bool
    var active: Option<nat>
    ghost var contents: seq<seq<Record>>

    ghost predicate Valid()
      reads this
    {
      && StoreOk(crc, kind, dir, segments, contents) && OnlyLast(segments)
      && (open ==> segments != [] && active == Some(segments[|segments| - 1].name))
    }

    /** The mark is on the last segment, or on one that is gone. */
    ghost predicate OnlyLast(segs: seq<Segment>)
      reads this
    {
      forall j | 0 <= j < |segs| - 1 :: active != Some(segs[j].name)
    }

    /** Every record in the store, in order. */
    ghost function All(): seq<Record>
      reads this
    {
      Flatten(contents)
    }

    constructor (crc: Crc, kind: Kind, maxSegmentSize: int, unversioned: bool)
      ensures Valid() && All() == [] && this.crc == crc && this.kind == kind && dir == map[]
    {
      this.crc, this.kind, this.unversioned := crc, kind, unversioned;
      this.maxSegmentSize := if maxSegmentSize <= 0 then 67108864 else maxSegmentSize;
      dir, segments, open, active, contents := map[], [], false, None, [];
    }

    // ----- appending -----

    /** Append one record with a larger key than any in the store. A new file never takes a live file's name. A log
        record that comes with another checksum than its own is written as it is: neither it nor anything written to
        its file after it is ever read back. */
    method Append(rec: Record)
      requires Valid() && WellFormed(kind, rec) && |rec.payload| < 0x1_0000_0000
      requires Below(kind, All(), KeyOf(kind, rec))
      modifies this
      ensures open && active.Some? && active.value in dir
      ensures Stamp(crc, kind, rec) == Checksum(crc, kind, rec) ==>
                Valid() && All() == old(All()) + [rec.(crc := Checksum(crc, kind, rec))]
      ensures Stamp(crc, kind, rec) != Checksum(crc, kind, rec) ==>
                forall rest :: Good(crc, kind, AfterHeader(dir[active.value]) + rest) ==
                               Good(crc, kind, AfterHeader(FileOf(old(dir), active.value)))
      ensures KeyOf(kind, rec) !in old(dir) && forall n | n in old(dir) :: n in dir && old(dir)[n] <= dir[n]
    {
      hide StoreOk, SegmentOk, Stamped, EncodeAll, Encode, WellFormed, AllStamped, Checksum, DefaultHeader, Image, Good,
          AfterHeader, Stamp, Flatten;
      var key, encoded := KeyOf(kind, rec), Encode(crc, kind, rec);
      LastsBelow(key);
      FreshName(crc, kind, dir, segments, contents, key);
      var starts := WriteRecord(key, encoded);
      if Stamp(crc, kind, rec) == Checksum(crc, kind, rec) {
        ghost var r := rec.(crc := Checksum(crc, kind, rec));
        StampedNow(crc, kind, rec);
        if starts {
          FirstWritten(crc, kind, old(dir), old(segments), contents, r);
          contents := contents + [[r]];
        } else {
          NextWritten(crc, kind, old(dir), old(segments), contents, r);
          ghost var n := |contents| - 1;
          contents := contents[..n] + [contents[n] + [r]];
        }
      } else if starts {
        FirstLost(crc, kind, rec);
      } else {
        NextLost(crc, kind, old(dir), old(segments)[|segments| - 1], contents[|segments| - 1], rec);
      }
    }

    /** Write a record's bytes, to a file of its own when none is open or the active one is full. */
    method WriteRecord(key: nat, encoded: seq<Byte>) returns (starts: bool)
      requires key !in dir && (open ==> active.Some? && segments != [] && segments[|segments| - 1].name == active.value)
      requires forall i | 0 <= i < |segments| :: segments[i].name in dir
      modifies `dir, `segments, `open, `active
      ensures open && active.Some?
      ensures starts ==>
                && active.value == key && dir == old(dir)[key := DefaultHeader() + encoded]
                && segments == old(segments) + [Longer(Segment(key, key, key, SEGMENT_HEADER_SIZE, 0), key, |encoded|)]
      ensures !starts ==>
                && old(open) && active == old(active) && old(segments) != []
                && var n := |old(segments)| - 1;
                   var s := old(segments)[n];
                   && active.value == s.name && s.name in old(dir)
                   && dir == old(dir)[s.name := old(dir)[s.name] + encoded]
                   && segments == old(segments)[..n] + [Longer(s, key, |encoded|)]
    {
      hide DefaultHeader, Longer;
      starts := !open
                || (segments[|segments| - 1].size + |encoded| > maxSegmentSize && segments[|segments| - 1].count > 0);
      if starts {
        Rotate(key);
        assert FileOf(old(dir), key) + DefaultHeader() == DefaultHeader();
        assert segments[..|segments| - 1] == old(segments);
      }
      WriteActive(encoded, key);
    }

    /** Write to the active file. */
    method WriteActive(encoded: seq<Byte>, key: nat)
      requires segments != [] && segments[|segments| - 1].name in dir
      modifies `dir, `segments
      ensures var n := |old(segments)| - 1;
              var s := old(segments)[n];
              && dir == old(dir)[s.name := old(dir)[s.name] + encoded]
              && segments == old(segments)[..n] + [Longer(s, key, |encoded|)]
    {
      var n := |segments| - 1;
      var s := segments[n];
      dir := dir[s.name := dir[s.name] + encoded];
      segments := segments[..n] + [Longer(s, key, |encoded|)];
    }

    lemma LastsBelow(key: nat)
      requires Valid() && Below(kind, All(), key)
      ensures forall i | 0 <= i < |segments| :: segments[i].last < key
      ensures |segments| == |contents|
      ensures forall i | 0 <= i < |segments| ::
                segments[i].name in dir && SegmentOk(crc, kind, dir, segments[i], contents[i])
    {
      hide SegmentOk, Below;
      LargestKey(crc, kind, dir, segments, contents, key);
      forall i | 0 <= i < |segments|
        ensures segments[i].name in dir
      {
        NameIsFirst(crc, kind, dir, segments[i], contents[i]);
      }
    }

    /** Start a new active file. One that is already there is appended to, header and all. */
    method Rotate(first: nat)
      modifies `dir, `segments, `open, `active
      ensures dir == old(dir)[first := FileOf(old(dir), first) + DefaultHeader()] && open && active == Some(first)
      ensures segments == old(segments) + [Segment(first, first, first, SEGMENT_HEADER_SIZE, 0)]
    {
      dir := dir[first := FileOf(dir, first) + DefaultHeader()];
      segments := segments + [Segment(first, first, first, |DefaultHeader()|, 0)];
      open, active := true, Some(first);
    }

    method AppendBatch(records: seq<Record>)
      requires Valid()
      requires forall i | 0 <= i < |records| ::
                 && WellFormed(kind, records[i]) && |records[i].payload| < 0x1_0000_0000
                 && Stamp(crc, kind, records[i]) == Checksum(crc, kind, records[i])
      requires Increasing(kind, All() + records)
      modifies this
      ensures Valid() && |All()| == |old(All())| + |records| && All()[..|old(All())|] == old(All())
      ensures forall i | 0 <= i < |records| ::
                All()[|old(All())| + i] == records[i].(crc := Checksum(crc, kind, records[i]))
      ensures forall n | n in old(dir) :: n in dir && old(dir)[n] <= dir[n]
    {
      hide StoreOk, WellFormed, Checksum, Flatten, Stamp;
      var k := 0;
      ghost var base := All();
      while k < |records|
        invariant 0 <= k <= |records| && Valid()
        invariant |All()| == |base| + k && All()[..|base|] == base
        invariant forall i | 0 <= i < k :: All()[|base| + i] == records[i].(crc := Checksum(crc, kind, records[i]))
        invariant forall n | n in old(dir) :: n in dir && old(dir)[n] <= dir[n]
      {
        forall i | 0 <= i < |All()|
          ensures KeyOf(kind, All()[i]) < KeyOf(kind, records[k])
        {
          assert KeyOf(kind, (base + records)[i]) < KeyOf(kind, (base + records)[|base| + k]);
          if i < |base| {
            assert All()[i] == All()[..|base|][i];
          }
        }
        Append(records[k]);
        k := k + 1;
      }
    }

    // ----- reading -----

    /** The first segment that starts after `position`. */
    method Search(position: nat) returns (idx: nat)
      requires forall i, j | 0 <= i < j < |segments| :: segments[i].first <= segments[j].first
      ensures idx <= |segments|
      ensures forall i | 0 <= i < idx :: segments[i].first <= position
      ensures forall i | idx <= i < |segments| :: segments[i].first > position
    {
      idx := 0;
      var high := |segments|;
      while idx < high
        invariant idx <= high <= |segments|
        invariant forall i | 0 <= i < idx :: segments[i].first <= position
        invariant forall i | high <= i < |segments| :: segments[i].first > position
      {
        var mid := (idx + high) / 2;
        if segments[mid].first > position {
          high := mid;
        } else {
          idx := mid + 1;
        }
      }
    }

    /** Every record at or above `position`, in order: the segments are searched for the first that may hold
        one and read from there. */
    method ReadFrom(position: nat) returns (r: Result<seq<Record>>)
      requires Valid()
      ensures r == Ok(From(kind, All(), position))
    {
      hide SegmentOk, From, Flatten;
      var rs: seq<Record> := [];
      Ordered();
      var idx := Search(position);
      var start := if idx > 0 then idx - 1 else 0;
      forall i | 0 <= i < start
        ensures segments[i].last < position
      {
        assert segments[i].last < segments[start].first <= position;
      }
      NoneBefore(crc, kind, dir, segments, contents, start, position);
      var i := start;
      while i < |segments|
        invariant start <= i <= |segments|
        invariant rs == From(kind, Flatten(contents[..i]), position)
      {
        NameIsFirst(crc, kind, dir, segments[i], contents[i]);
        var part := ReadSegment(crc, kind, dir[segments[i].name], unversioned, position);
        FileReads(crc, kind, dir, segments[i], contents[i]);
        ReadImage(crc, kind, contents[i], unversioned, position);
        if part.Err? {
          return part;
        }
        SnocFrom(kind, contents, i, position);
        rs := rs + part.value;
        i := i + 1;
      }
      assert contents[..i] == contents;
      r := Ok(rs);
    }

    lemma Ordered()
      requires Valid()
      ensures |segments| == |contents|
      ensures forall i, j | 0 <= i < j < |segments| ::
                segments[i].first <= segments[i].last < segments[j].first <= segments[j].last
      ensures forall i | 0 <= i < |segments| :: segments[i].name == segments[i].first && segments[i].name in dir
    {
      hide SegmentOk;
      forall i | 0 <= i < |segments|
        ensures segments[i].first <= segments[i].last && segments[i].name == segments[i].first
                && segments[i].name in dir
      {
        NameIsFirst(crc, kind, dir, segments[i], contents[i]);
      }
    }

    // ----- cutting -----

    /** Remove every record above `m`. The mark goes only with an open file. */
    method TruncateAfter(m: nat)
      requires Valid()
      modifies this
      ensures Valid() && !open && active == (if old(open) then None else old(active))
      ensures All() == UpTo(kind, old(All()), m)
    {
      hide StoreOk, Passed, Flatten, UpTo, SegmentOk, Image, AllStamped;
      if open {
        open, active := false, None;
      }
      var remaining: seq<Segment>, files: Dir, i := [], dir, 0;
      ghost var kept: seq<seq<Record>> := [];
      PassStarts(crc, kind, dir, segments, contents);
      Lengths();
      UpToNothing(kind, m);
      while i < |segments|
        invariant 0 <= i <= |segments| == |contents|
        invariant Passed(crc, kind, files, remaining, kept, segments, contents, i)
        invariant Flatten(kept) == UpTo(kind, Flatten(contents[..i]), m)
        invariant forall j | 0 <= j < |remaining| && (j < |remaining| - 1 || i < |segments|) ::
                    active != Some(remaining[j].name)
        modifies {}
      {
        var seg := segments[i];
        PassHead(crc, kind, files, remaining, kept, segments, contents, i);
        UpToStep(kind, contents, i, m);
        if seg.first > m {
          NoneUpTo(crc, kind, files, seg, contents[i], m);
          PassDrop(crc, kind, files, remaining, kept, segments, contents, i);
          files := files - {seg.name};
        } else if seg.last <= m {
          WholeUpTo(crc, kind, files, seg, contents[i], m);
          KeepWhole(files, remaining, kept, i);
          FlattenSnoc(kept, contents[i]);
          remaining, kept := remaining + [seg], kept + [contents[i]];
        } else {
          FileReads(crc, kind, files, seg, contents[i]);
          ghost var n;
          var cut, note;
          cut, note, n := CutAfter(seg, files[seg.name], m, contents[i]);
          CutSegment(crc, kind, files, seg, contents[i], n);
          PassKeep(crc, kind, files, remaining, kept, segments, contents, i, cut, note, contents[i][..n]);
          FlattenSnoc(kept, contents[i][..n]);
          files, remaining, kept := files[seg.name := cut], remaining + [note], kept + [contents[i][..n]];
        }
        i := i + 1;
      }
      PassEnds(crc, kind, files, remaining, kept, segments, contents);
      assert contents[..i] == contents;
      dir, segments, contents := files, remaining, kept;
    }

    /** Scan one file for the first record above `m` and cut the file there. */
    method CutAfter(seg: Segment, file: seq<Byte>, m: nat, ghost whole: seq<Record>)
        returns (cut: seq<Byte>, note: Segment, ghost n: nat)
      requires AllStamped(crc, kind, whole) && file == Image(crc, kind, whole) && Increasing(kind, whole) && whole != []
      requires seg == NoteOf(crc, kind, whole) && seg.first <= m
      ensures 0 < n <= |whole| && cut == Image(crc, kind, whole[..n]) && note == NoteOf(crc, kind, whole[..n])
      ensures UpTo(kind, whole, m) == whole[..n]
      ensures AllStamped(crc, kind, UpTo(kind, whole, m)) && cut == Image(crc, kind, UpTo(kind, whole, m))
    {
      hide Stamped, AllStamped, Decode, ReadHeader, EncodeAll, DefaultHeader, Image, Next, UpTo, Body, Increasing;
      var header := ReadHeader(file, unversioned);
      CutStarts(crc, kind, whole, unversioned);
      var at: nat, count, first, last := header.value, 0, 0, 0;
      n := 0;
      while true
        invariant 0 <= n == count <= |whole|
        invariant AllStamped(crc, kind, whole[..n]) && at == |Image(crc, kind, whole[..n])| <= |file|
        invariant AllStamped(crc, kind, whole[n..]) && Body(file, at) == EncodeAll(crc, kind, whole[n..])
        invariant n > 0 ==> first == KeyOf(kind, whole[0]) && last == KeyOf(kind, whole[n - 1])
        invariant forall i | 0 <= i < n :: KeyOf(kind, whole[i]) <= m
        decreases |whole| - n
      {
        var d := Decode(crc, kind, Body(file, at));
        DecodeFirst(crc, kind, whole[n..]);
        if d.Err? || KeyOf(kind, d.value) > m {
          CutStops(kind, whole, n, m);
          break;
        }
        if count == 0 {
          first := KeyOf(kind, d.value);
        }
        last, count := KeyOf(kind, d.value), count + 1;
        CutStep(crc, kind, whole, n, file, at);
        at, n := at + Next(kind, d.value), n + 1;
      }
      UpToPrefix(kind, whole, m, n);
      cut := file[..at];
      note := seg.(size := at, count := count, first := first, last := last);
      CutImage(crc, kind, whole, n);
    }

    // ----- retention -----

    method SumSizes() returns (total: nat)
      ensures total == TotalSize(segments)
    {
      total := 0;
      var i := 0;
      while i < |segments|
        invariant 0 <= i <= |segments| && TotalSize(segments) == total + TotalSize(segments[i..])
      {
        assert segments[i..][1..] == segments[i + 1..];
        total := total + segments[i].size;
        i := i + 1;
      }
    }

    /** Retire flushed files until what is kept fits `maxBytes`. The `k` files that go are the oldest, hold
        nothing above `flushed`, and are no more than needed; the rest keep their records. */
    method DeleteSegmentsThrough(flushed: nat, maxBytes: int) returns (ghost k: nat)
      requires Valid()
      modifies `dir, `segments, `contents
      ensures Valid() && k <= |old(segments)| == |old(contents)|
      ensures old(All()) == Flatten(old(contents)[..k]) + All() && Below(kind, Flatten(old(contents)[..k]), flushed + 1)
      ensures segments == old(segments)[k..] && forall i | 0 <= i < k :: TotalSize(old(segments)[i..]) > maxBytes
      ensures TotalSize(segments) <= maxBytes || segments == [] || segments[0].last > flushed
              || active == Some(segments[0].name)
    {
      hide StoreOk, Flatten, Below, SegmentOk, TotalSize;
      var total := SumSizes();
      if total > maxBytes {
        k := RetireOldest(flushed, maxBytes, total);
      } else {
        k := 0;
        Lengths();
        Retired(0, flushed);
        assert segments[0..] == segments && contents[0..] == contents;
      }
    }

    method RetireOldest(flushed: nat, maxBytes: int, size: nat) returns (ghost k: nat)
      requires Valid() && size == TotalSize(segments)
      modifies `dir, `segments, `contents
      ensures Valid() && k <= |old(segments)| == |old(contents)|
      ensures old(All()) == Flatten(old(contents)[..k]) + All() && Below(kind, Flatten(old(contents)[..k]), flushed + 1)
      ensures segments == old(segments)[k..] && forall i | 0 <= i < k :: TotalSize(old(segments)[i..]) > maxBytes
      ensures TotalSize(segments) <= maxBytes || segments == [] || segments[0].last > flushed
              || active == Some(segments[0].name)
    {
      hide StoreOk, Passed, Flatten, Below, SegmentOk, TotalSize;
      var total, remaining, files, i := size, [], dir, 0;
      k := 0;
      ghost var kept := [];
      PassStarts(crc, kind, dir, segments, contents);
      Lengths();
      assert segments[0..] == segments;
      while i < |segments|
        invariant 0 <= k <= i <= |segments| == |contents|
        invariant Passed(crc, kind, files, remaining, kept, segments, contents, i)
        invariant remaining == segments[k..i] && kept == contents[k..i]
        invariant total == TotalSize(segments[k..])
        invariant forall j | 0 <= j < k ::
                    segments[j].last <= flushed && TotalSize(segments[j..]) > maxBytes
                    && active != Some(segments[j].name)
        invariant k < i ==> total <= maxBytes || segments[k].last > flushed || active == Some(segments[k].name)
        modifies {}
      {
        var seg := segments[i];
        SliceGrows(segments, k, i);
        SliceGrows(contents, k, i);
        if active == Some(seg.name) || seg.last > flushed || total <= maxBytes {
          KeepWhole(files, remaining, kept, i);
          remaining, kept := remaining + [seg], kept + [contents[i]];
        } else {
          Oldest(k, i);
          PassDrop(crc, kind, files, remaining, kept, segments, contents, i);
          TotalStep(segments, i);
          files := files - {seg.name};
          total := total - seg.size;
          k := k + 1;
        }
        i := i + 1;
      }
      Install(files, remaining, k, flushed);
    }

    /** The oldest `k` segments are gone; the store goes on with the rest. */
    method Install(files: Dir, remaining: seq<Segment>, ghost k: nat, ghost limit: nat)
      requires Valid() && |segments| == |contents| && k <= |segments| && remaining == segments[k..|segments|]
      requires Passed(crc, kind, files, remaining, contents[k..|segments|], segments, contents, |segments|)
      requires forall j | 0 <= j < k :: segments[j].last <= limit && active != Some(segments[j].name)
      modifies `dir, `segments, `contents
      ensures Valid() && segments == old(segments)[k..] && contents == old(contents)[k..]
      ensures old(All()) == Flatten(old(contents)[..k]) + All() && Below(kind, Flatten(old(contents)[..k]), limit + 1)
    {
      hide StoreOk, Passed, Flatten, Below, SegmentOk;
      Retired(k, limit);
      PassEnds(crc, kind, files, remaining, contents[k..|segments|], segments, contents);
      assert contents[k..|segments|] == contents[k..] && segments[k..|segments|] == segments[k..];
      assert k < |segments| ==> remaining[|remaining| - 1] == segments[|segments| - 1];
      dir, segments, contents := files, remaining, contents[k..];
    }

    lemma Lengths()
      requires Valid()
      ensures |segments| == |contents|
    {
      hide SegmentOk;
    }

    /** A segment before another ends before it, and is not the active one. */
    lemma Oldest(k: nat, i: nat)
      requires Valid() && k <= i < |segments|
      ensures k < i ==> segments[k].last < segments[i].last && active != Some(segments[k].name)
    {
      hide SegmentOk;
      if k < i {
        NameIsFirst(crc, kind, dir, segments[k], contents[k]);
        NameIsFirst(crc, kind, dir, segments[i], contents[i]);
        NameIsFirst(crc, kind, dir, segments[|segments| - 1], contents[|segments| - 1]);
      }
    }

    lemma KeepWhole(files: Dir, remaining: seq<Segment>, kept: seq<seq<Record>>, i: nat)
      requires Passed(crc, kind, files, remaining, kept, segments, contents, i) && i < |segments|
      ensures i < |contents|
              && Passed(crc, kind, files, remaining + [segments[i]], kept + [contents[i]], segments, contents, i + 1)
    {
      hide SegmentOk, SegmentsOk, Names;
      PassHead(crc, kind, files, remaining, kept, segments, contents, i);
      var seg := segments[i];
      SegmentMoved(crc, kind, files, map[seg.name := files[seg.name]], seg, contents[i]);
      PassKeep(crc, kind, files, remaining, kept, segments, contents, i, files[seg.name], seg, contents[i]);
      assert files[seg.name := files[seg.name]] == files;
    }

    /** The records of the first `k` segments, when none of those reaches above `limit`. */
    lemma Retired(k: nat, limit: nat)
      requires Valid() && k <= |segments| && forall j | 0 <= j < k :: segments[j].last <= limit
      ensures |segments| == |contents|
      ensures Flatten(contents) == Flatten(contents[..k]) + Flatten(contents[k..])
              && Below(kind, Flatten(contents[..k]), limit + 1)
    {
      hide SegmentOk, Below;
      assert contents == contents[..k] + contents[k..];
      FlattenConcat(contents[..k], contents[k..]);
      LargestKey(crc, kind, dir, segments[..k], contents[..k], limit + 1);
    }

    /** Retire the files whose records are all in permanent storage. They are the oldest, and hold nothing above
        `acked`; every other file stays, but for the active one, because it holds something above it. */
    method DeleteSegmentsBeforeAck(acked: nat) returns (ghost k: nat)
      requires Valid()
      modifies `dir, `segments, `contents
      ensures Valid() && k <= |old(segments)| == |old(contents)|
      ensures old(All()) == Flatten(old(contents)[..k]) + All() && Below(kind, Flatten(old(contents)[..k]), acked + 1)
      ensures segments == old(segments)[k..]
      ensures segments == [] || segments[0].last > acked || active == Some(segments[0].name)
    {
      hide StoreOk, Passed, Flatten, Below, SegmentOk;
      k := 0;
      var remaining, files, i := [], dir, 0;
      ghost var kept := [];
      PassStarts(crc, kind, dir, segments, contents);
      Lengths();
      while i < |segments|
        invariant 0 <= k <= i <= |segments| == |contents|
        invariant Passed(crc, kind, files, remaining, kept, segments, contents, i)
        invariant remaining == segments[k..i] && kept == contents[k..i]
        invariant forall j | 0 <= j < k :: segments[j].last <= acked && active != Some(segments[j].name)
        invariant k < i ==> segments[k].last > acked || active == Some(segments[k].name)
        modifies {}
      {
        var seg := segments[i];
        SliceGrows(segments, k, i);
        SliceGrows(contents, k, i);
        CountPositive(files, remaining, kept, i);
        if active != Some(seg.name) && seg.last <= acked && seg.count > 0 {
          Oldest(k, i);
          PassDrop(crc, kind, files, remaining, kept, segments, contents, i);
          files := files - {seg.name};
          k := k + 1;
        } else {
          KeepWhole(files, remaining, kept, i);
          remaining, kept := remaining + [seg], kept + [contents[i]];
        }
        i := i + 1;
      }
      Install(files, remaining, k, acked);
    }

    lemma CountPositive(files: Dir, remaining: seq<Segment>, kept: seq<seq<Record>>, i: nat)
      requires Passed(crc, kind, files, remaining, kept, segments, contents, i) && i < |segments|
      ensures segments[i].count > 0
    {
      hide SegmentOk, SegmentsOk, Names;
      PassHead(crc, kind, files, remaining, kept, segments, contents, i);
      KeysWithin(crc, kind, files, segments[i], contents[i]);
    }

    // ----- reopening -----

    /** Open the directory again after a crash that cut the last file to `cut` bytes: the files are scanned as a sorted
        listing has them, and those without records removed. When the names sort as the numbers in them and the cut left
        the header, every record is still there but those of the last file that reach past the cut. */
    method Reopen(cut: nat) returns (r: Result<seq<Record>>, ghost order: seq<nat>)
      requires Valid()
      modifies this
      ensures StartsListing(order, old(dir).Keys) && (r.Ok? ==> Listing(order, old(dir).Keys))
      ensures var o := OpenAll(crc, kind, unversioned, Unopened(TornDir(old(dir), old(segments), cut)), order);
              && r == (if o.failed.Some? then Err(o.failed.value) else Ok(o.records))
              && (r.Ok? ==> dir == o.files && segments == o.segments && !open && active == None)
      ensures NamesInOrder(old(segments)) && HeaderLeft(old(segments), cut) ==>
                Valid() && r == Ok(All()) && All() == AfterCut(crc, kind, old(contents), cut)
    {
      hide StoreOk, SegmentOk, Flatten, AfterCut, Names, TornDir, OpenOne, Listing, StartsListing, NamesInOrder,
          HeaderLeft;
      var files: Dir, todo, notes: seq<Segment>, all: seq<Record> := TornDir(dir, segments, cut), dir.Keys, [], [];
      order := [];
      ghost var start := Unopened(files);
      ListNothing(dir.Keys);
      while todo != {}
        invariant StartsListing(order, dir.Keys) && forall n :: n in todo <==> n in dir && n !in order
        invariant OpenAll(crc, kind, unversioned, start, order) == Opened(files, notes, all, None)
        modifies {}
        decreases |todo|
      {
        var name := FirstByName(todo);
        ListNext(order, todo, dir.Keys, name);
        OpenNext(crc, kind, unversioned, start, order, name);
        var failed;
        files, notes, all, failed := TakeFile(name, files, notes, all);
        order, todo := order + [name], todo - {name};
        if failed.Some? {
          NothingStops(crc, kind, unversioned, dir, segments, contents, cut, order);
          return Err(failed.value), order;
        }
      }
      ListDone(order, dir.Keys);
      ghost var kept: seq<seq<Record>> := contents;
      if NamesInOrder(segments) && HeaderLeft(segments, cut) {
        kept := OpensInOrder(crc, kind, unversioned, dir, segments, contents, cut, order);
      }
      open, active := false, None;
      dir, segments, contents := files, notes, kept;
      r := Ok(all);
    }

    /** Scan the next file; keep it if it has records, remove it if not. */
    method TakeFile(name: nat, files0: Dir, notes0: seq<Segment>, all0: seq<Record>)
        returns (files: Dir, notes: seq<Segment>, all: seq<Record>, failed: Option<Error>)
      ensures Opened(files, notes, all, failed) == OpenOne(crc, kind, unversioned, Opened(files0, notes0, all0, None),
                  name)
    {
      hide Retained, ReadHeader, Good, EncodeAll, Scanned, MetaOf, Stamped;
      files, notes, all, failed := files0, notes0, all0, None;
      if name in files {
        var scan, after := Scan(crc, kind, files[name], unversioned);
        if scan.Err? {
          failed := Some(scan.error);
        } else if scan.value.0 == [] {
          files := files - {name};
        } else {
          ScanHadHeader(crc, kind, files[name], unversioned);
          files := files[name := after];
          notes := notes + [NoteOfMeta(name, scan.value.1)];
          all := all + scan.value.0;
        }
      }
    }

    method Close()
      requires Valid()
      modifies `open
      ensures Valid() && All() == old(All())
    {
      hide StoreOk, Flatten;
      open := false;
    }
  }

  lemma ScanHadHeader(crc: Crc, kind: Kind, file: seq<Byte>, unversioned: bool)
    ensures var scan := Scanned(crc, kind, file, unversioned); scan.Ok? && scan.value != [] ==>
              ReadHeader(file, unversioned).Ok?
  {
    hide Good, ReadHeader;
  }

  // ----- cutting and reading -----

  lemma CutStarts(crc: Crc, kind: Kind, whole: seq<Record>, unversioned: bool)
    requires AllStamped(crc, kind, whole)
    ensures ReadHeader(Image(crc, kind, whole), unversioned) == Ok(SEGMENT_HEADER_SIZE)
    ensures AllStamped(crc, kind, whole[..0])
            && |Image(crc, kind, whole[..0])| == SEGMENT_HEADER_SIZE <= |Image(crc, kind, whole)|
    ensures whole[0..] == whole && Body(Image(crc, kind, whole), SEGMENT_HEADER_SIZE) == EncodeAll(crc, kind, whole)
  {
    hide Stamped, EncodeAll, ReadHeader;
    DefaultReads(EncodeAll(crc, kind, whole), unversioned);
    NoBytes(crc, kind);
    assert whole[..0] == [];
  }

  lemma CutStep(crc: Crc, kind: Kind, whole: seq<Record>, n: nat, file: seq<Byte>, at: nat)
    requires AllStamped(crc, kind, whole) && n < |whole| && AllStamped(crc, kind, whole[..n])
             && AllStamped(crc, kind, whole[n..])
    requires at == |Image(crc, kind, whole[..n])| && Body(file, at) == EncodeAll(crc, kind, whole[n..])
    ensures AllStamped(crc, kind, whole[..n + 1]) && AllStamped(crc, kind, whole[n + 1..])
    ensures at + Next(kind, whole[n]) == |Image(crc, kind, whole[..n + 1])| <= |file|
    ensures Body(file, at + Next(kind, whole[n])) == EncodeAll(crc, kind, whole[n + 1..])
  {
    hide AllStamped, EncodeAll, Next, Body, Image, Decode;
    StampedParts(crc, kind, whole, n + 1);
    assert whole[n..][1..] == whole[n + 1..] && whole[n..][0] == whole[n];
    DecodeFirst(crc, kind, whole[n..]);
    ImageGrows(crc, kind, whole, n);
    BodyStep(file, at, Next(kind, whole[n]));
  }

  lemma StampedParts(crc: Crc, kind: Kind, rs: seq<Record>, n: nat)
    requires AllStamped(crc, kind, rs) && n <= |rs|
    ensures AllStamped(crc, kind, rs[..n]) && AllStamped(crc, kind, rs[n..])
  {
    hide Stamped;
  }

  lemma CutStops(kind: Kind, whole: seq<Record>, n: nat, m: nat)
    requires Increasing(kind, whole) && n <= |whole| && (n < |whole| ==> KeyOf(kind, whole[n]) > m)
    ensures forall i | n <= i < |whole| :: KeyOf(kind, whole[i]) > m
  {
    hide KeyOf;
  }

  lemma UpToNothing(kind: Kind, m: nat)
    ensures Flatten([]) == [] && UpTo(kind, [], m) == []
  {
  }

  lemma UpToStep(kind: Kind, contents: seq<seq<Record>>, i: nat, m: nat)
    requires i < |contents|
    ensures UpTo(kind, Flatten(contents[..i + 1]), m) ==
            UpTo(kind, Flatten(contents[..i]), m) + UpTo(kind, contents[i], m)
  {
    assert contents[..i + 1] == contents[..i] + [contents[i]];
    FlattenSnoc(contents[..i], contents[i]);
    UpToConcat(kind, Flatten(contents[..i]), contents[i], m);
  }

  lemma NoneUpTo(crc: Crc, kind: Kind, dir: Dir, s: Segment, rs: seq<Record>, m: nat)
    requires SegmentOk(crc, kind, dir, s, rs) && s.first > m
    ensures UpTo(kind, rs, m) == []
  {
    hide UpTo, SegmentOk;
    KeysWithin(crc, kind, dir, s, rs);
    UpToPrefix(kind, rs, m, 0);
  }

  lemma WholeUpTo(crc: Crc, kind: Kind, dir: Dir, s: Segment, rs: seq<Record>, m: nat)
    requires SegmentOk(crc, kind, dir, s, rs) && s.last <= m
    ensures UpTo(kind, rs, m) == rs
  {
    hide UpTo, SegmentOk;
    KeysWithin(crc, kind, dir, s, rs);
    UpToPrefix(kind, rs, m, |rs|);
    assert rs[..|rs|] == rs;
  }

  lemma ImageGrows(crc: Crc, kind: Kind, rs: seq<Record>, n: nat)
    requires AllStamped(crc, kind, rs) && n < |rs|
    ensures AllStamped(crc, kind, rs[..n]) && AllStamped(crc, kind, rs[..n + 1])
    ensures |Image(crc, kind, rs[..n + 1])| == |Image(crc, kind, rs[..n])| + Next(kind, rs[n])
  {
    hide Stamped, Enc;
    assert rs[..n + 1] == rs[..n] + [rs[n]];
    EncodeAllConcat(crc, kind, rs[..n], [rs[n]]);
    EncodeAllFirst(crc, kind, rs[n], []);
    assert [rs[n]] == [rs[n]] + [];
  }

  lemma CutImage(crc: Crc, kind: Kind, rs: seq<Record>, n: nat)
    requires AllStamped(crc, kind, rs) && n <= |rs|
    ensures AllStamped(crc, kind, rs[..n]) && AllStamped(crc, kind, rs[n..])
    ensures Image(crc, kind, rs[..n]) <= Image(crc, kind, rs)
  {
    hide Stamped, EncodeAll;
    assert rs == rs[..n] + rs[n..];
    EncodeAllConcat(crc, kind, rs[..n], rs[n..]);
  }

  // ----- one file -----

  lemma FileReads(crc: Crc, kind: Kind, dir: Dir, s: Segment, rs: seq<Record>)
    requires SegmentOk(crc, kind, dir, s, rs)
    ensures s.name in dir && AllStamped(crc, kind, rs) && dir[s.name] == Image(crc, kind, rs)
    ensures Increasing(kind, rs) && rs != [] && s == NoteOf(crc, kind, rs)
  {
  }

  lemma SnocFrom(kind: Kind, contents: seq<seq<Record>>, i: nat, p: nat)
    requires i < |contents|
    ensures From(kind, Flatten(contents[..i + 1]), p) == From(kind, Flatten(contents[..i]), p) + From(kind, contents[i],
                p)
  {
    assert contents[..i + 1] == contents[..i] + [contents[i]];
    FlattenSnoc(contents[..i], contents[i]);
    FromConcat(kind, Flatten(contents[..i]), contents[i], p);
  }

  /** What reading a file's body yields: a record that is cut off ends it quietly, a corrupt one is an error. */
  function ReadBody(crc: Crc, kind: Kind, body: seq<Byte>, position: nat): Result<seq<Record>>
    decreases |body|
  {
    var d := Decode(crc, kind, body);
    if d.Err? then (if d.error == Eof || d.error == Truncated then Ok([]) else Err(d.error)) else
    var rest := ReadBody(crc, kind, body[Next(kind, d.value)..], position);
    if rest.Err? then rest else Ok((if KeyOf(kind, d.value) >= position then [d.value] else []) + rest.value)
  }

  function ReadFile(crc: Crc, kind: Kind, file: seq<Byte>, unversioned: bool, position: nat): Result<seq<Record>> {
    var header := ReadHeader(file, unversioned);
    if header.Ok? then ReadBody(crc, kind, Body(file, header.value), position)
    else if header.error == Eof then Ok([]) else Err(header.error)
  }

  function Prepended(rs: seq<Record>, r: Result<seq<Record>>): Result<seq<Record>> {
    if r.Err? then r else Ok(rs + r.value)
  }

  lemma Prepending(rs: seq<Record>, more: seq<Record>, r: Result<seq<Record>>)
    ensures Prepended(rs, Prepended(more, r)) == Prepended(rs + more, r)
    ensures Prepended([], r) == r && Prepended(rs, Ok([])) == Ok(rs) && (r.Err? ==> Prepended(rs, r) == r)
  {
    if r.Ok? {
      assert rs + (more + r.value) == (rs + more) + r.value;
      assert [] + r.value == r.value && rs + [] == rs;
    }
    assert rs + [] == rs;
  }

  /** The records of one file at or above `position`. */
  method ReadSegment(crc: Crc, kind: Kind, file: seq<Byte>, unversioned: bool, position: nat)
      returns (r: Result<seq<Record>>)
    ensures r == ReadFile(crc, kind, file, unversioned, position)
  {
    hide Decode, ReadHeader, ReadBody, Body, Next, Prepended;
    var header := ReadHeader(file, unversioned);
    if header.Err? && header.error != Eof {
      return Err(header.error);
    }
    var rs: seq<Record>, at: nat := [], if header.Ok? then header.value else 0;
    ghost var whole := ReadBody(crc, kind, Body(file, at), position);
    EofIsEmpty(crc, kind, file, unversioned, position);
    Prepending([], [], whole);
    while true
      invariant whole == Prepended(rs, ReadBody(crc, kind, Body(file, at), position))
      decreases |Body(file, at)|
    {
      var d := Decode(crc, kind, Body(file, at));
      ReadBodyStep(crc, kind, Body(file, at), position);
      if d.Err? {
        Prepending(rs, [], ReadBody(crc, kind, Body(file, at), position));
        if d.error != Eof && d.error != Truncated {
          return Err(d.error);
        }
        break;
      }
      var more := if KeyOf(kind, d.value) >= position then [d.value] else [];
      Prepending(rs, more, ReadBody(crc, kind, Body(file, at)[Next(kind, d.value)..], position));
      rs := rs + more;
      BodyStep(file, at, Next(kind, d.value));
      at := at + Next(kind, d.value);
    }
    r := Ok(rs);
  }

  lemma EofIsEmpty(crc: Crc, kind: Kind, file: seq<Byte>, unversioned: bool, position: nat)
    ensures ReadHeader(file, unversioned) == Err(Eof) ==> ReadBody(crc, kind, Body(file, 0), position) == Ok([])
  {
  }

  lemma ReadBodyStep(crc: Crc, kind: Kind, body: seq<Byte>, position: nat)
    ensures var d, r := Decode(crc, kind, body), ReadBody(crc, kind, body, position);
            if d.Err? then r == (if d.error == Eof || d.error == Truncated then Ok([]) else Err(d.error))
            else
              && 0 < Next(kind, d.value) <= |body|
              && r == Prepended(if KeyOf(kind, d.value) >= position then [d.value] else [],
                                ReadBody(crc, kind, body[Next(kind, d.value)..], position))
  {
    hide KeyOf;
  }

  /** A file that was written by the store is read back whole. */
  lemma ReadImage(crc: Crc, kind: Kind, rs: seq<Record>, unversioned: bool, position: nat)
    requires AllStamped(crc, kind, rs)
    ensures ReadFile(crc, kind, Image(crc, kind, rs), unversioned, position) == Ok(From(kind, rs, position))
  {
    hide EncodeAll, ReadHeader, DefaultHeader, From, Stamped;
    var b := EncodeAll(crc, kind, rs);
    DefaultReads(b, unversioned);
    assert Body(DefaultHeader() + b, SEGMENT_HEADER_SIZE) == b;
    ReadEncoded(crc, kind, rs, position);
  }

  lemma OneFrom(kind: Kind, r: Record, position: nat)
    ensures From(kind, [r], position) == if KeyOf(kind, r) >= position then [r] else []
  {
    assert [r][..0] == [];
    assert From(kind, [], position) == [];
  }

  lemma {:induction false} ReadEncoded(crc: Crc, kind: Kind, rs: seq<Record>, position: nat)
    requires AllStamped(crc, kind, rs)
    ensures ReadBody(crc, kind, EncodeAll(crc, kind, rs), position) == Ok(From(kind, rs, position))
    decreases |rs|
  {
    hide EncodeAll, Decode, ReadBody, Next, Stamped, From;
    DecodeFirst(crc, kind, rs);
    ReadBodyStep(crc, kind, EncodeAll(crc, kind, rs), position);
    FromNone(kind, [], position);
    if rs != [] {
      ReadEncoded(crc, kind, rs[1..], position);
      FromConcat(kind, [rs[0]], rs[1..], position);
      assert rs == [rs[0]] + rs[1..];
      OneFrom(kind, rs[0], position);
    }
  }

  /** The next record decodes until there is none. */
  lemma DecodeFirst(crc: Crc, kind: Kind, rs: seq<Record>)
    requires AllStamped(crc, kind, rs)
    ensures rs == [] ==> Decode(crc, kind, EncodeAll(crc, kind, rs)) == Err(Eof)
    ensures rs != [] ==>
              var b := EncodeAll(crc, kind, rs);
              && Decode(crc, kind, b) == Ok(rs[0])
              && 0 < Next(kind, rs[0]) <= |b| && b[Next(kind, rs[0])..] == EncodeAll(crc, kind, rs[1..])
  {
    hide Stamped, Enc, Decode, WellFormed;
    if rs == [] {
      EndsAtEof(crc, kind, []);
    } else {
      StampedDecode(crc, kind, rs[0], EncodeAll(crc, kind, rs[1..]));
    }
  }

  /** A file with one record more. */
  lemma NextRecord(crc: Crc, kind: Kind, dir: Dir, s: Segment, rs: seq<Record>, r: Record)
    requires SegmentOk(crc, kind, dir, s, rs) && Stamped(crc, kind, r) && s.last < KeyOf(kind, r)
    ensures s.name in dir
    ensures SegmentOk(crc, kind, map[s.name := dir[s.name] + Enc(crc, kind, r)],
                      s.(last := KeyOf(kind, r), size := s.size + |Enc(crc, kind, r)|, count := s.count + 1), rs + [r])
  {
    hide Stamped, Enc, DefaultHeader, KeyOf;
    KeysWithin(crc, kind, dir, s, rs);
    EncodeAllConcat(crc, kind, rs, [r]);
    EncodeAllFirst(crc, kind, r, []);
    assert [r] == [r] + [];
    assert (DefaultHeader() + EncodeAll(crc, kind, rs)) + Enc(crc, kind,
               r) == DefaultHeader() + (EncodeAll(crc, kind, rs) + Enc(crc, kind, r));
  }

  lemma LastFlattened(contents: seq<seq<Record>>, r: Record)
    requires contents != []
    ensures var n := |contents| - 1; Flatten(contents[..n] + [contents[n] + [r]]) == Flatten(contents) + [r]
  {
    var n := |contents| - 1;
    FlattenSnoc(contents[..n], contents[n] + [r]);
  }

  // ----- one more record -----

  /** A file just started, with its first record. */
  lemma FirstWritten(crc: Crc, kind: Kind, dir: Dir, segments: seq<Segment>, contents: seq<seq<Record>>, r: Record)
    requires StoreOk(crc, kind, dir, segments, contents) && KeyOf(kind, r) !in dir && Stamped(crc, kind, r)
    requires forall i | 0 <= i < |segments| :: segments[i].last < KeyOf(kind, r)
    ensures var key, enc := KeyOf(kind, r), Enc(crc, kind, r);
            && StoreOk(crc, kind, dir[key := DefaultHeader() + enc],
                       segments + [Longer(Segment(key, key, key, SEGMENT_HEADER_SIZE, 0), key, |enc|)],
                           contents + [[r]])
            && Flatten(contents + [[r]]) == Flatten(contents) + [r]
  {
    hide StoreOk, SegmentOk, Stamped, Enc, DefaultHeader, Flatten;
    var key, enc := KeyOf(kind, r), Enc(crc, kind, r);
    FirstRecord(crc, kind, r);
    AddLast(crc, kind, dir, segments, contents, DefaultHeader() + enc,
        Longer(Segment(key, key, key, SEGMENT_HEADER_SIZE, 0), key, |enc|), [r]);
    FlattenSnoc(contents, [r]);
  }

  /** The last file with one more. */
  lemma NextWritten(crc: Crc, kind: Kind, dir: Dir, segments: seq<Segment>, contents: seq<seq<Record>>, r: Record)
    requires StoreOk(crc, kind, dir, segments, contents) && segments != [] && |contents| == |segments|
             && Stamped(crc, kind, r)
    requires segments[|segments| - 1].last < KeyOf(kind, r)
    requires SegmentOk(crc, kind, dir, segments[|segments| - 1], contents[|segments| - 1])
    ensures var n := |segments| - 1;
            var s, more := segments[n], contents[..n] + [contents[n] + [r]];
            && s.name in dir
            && StoreOk(crc, kind, dir[s.name := dir[s.name] + Enc(crc, kind, r)],
                       segments[..n] + [Longer(s, KeyOf(kind, r), |Enc(crc, kind, r)|)], more)
            && Flatten(more) == Flatten(contents) + [r]
  {
    hide StoreOk, SegmentOk, Stamped, Enc, Flatten;
    var n := |segments| - 1;
    var s := segments[n];
    NextRecord(crc, kind, dir, s, contents[n], r);
    CountedOnce(crc, kind, dir, s, contents[n]);
    ReplaceLast(crc, kind, dir, segments, contents, dir[s.name] + Enc(crc, kind, r),
        Longer(s, KeyOf(kind, r), |Enc(crc, kind, r)|), contents[n] + [r]);
    LastFlattened(contents, r);
  }

  lemma CountedOnce(crc: Crc, kind: Kind, dir: Dir, s: Segment, rs: seq<Record>)
    requires SegmentOk(crc, kind, dir, s, rs)
    ensures s.count > 0
  {
  }

  lemma FirstLost(crc: Crc, kind: Kind, rec: Record)
    requires WellFormed(kind, rec) && |rec.payload| < 0x1_0000_0000 && Stamp(crc, kind, rec) != Checksum(crc, kind, rec)
    ensures forall rest ::
              Good(crc, kind, AfterHeader(DefaultHeader() + Encode(crc, kind, rec)) + rest) == Good(crc, kind,
                  AfterHeader([]))
  {
    hide WellFormed, Stamp, Checksum, Encode, Good, EncodeAll;
    NoBytes(crc, kind);
    GoodOfAll(crc, kind, []);
    forall rest: seq<Byte>
      ensures Good(crc, kind, AfterHeader(DefaultHeader() + Encode(crc, kind, rec)) + rest) == []
    {
      LostAfter(crc, kind, [], rec, rest);
    }
  }

  lemma NextLost(crc: Crc, kind: Kind, dir: Dir, s: Segment, rs: seq<Record>, rec: Record)
    requires WellFormed(kind, rec) && |rec.payload| < 0x1_0000_0000 && Stamp(crc, kind, rec) != Checksum(crc, kind, rec)
    requires SegmentOk(crc, kind, dir, s, rs)
    ensures s.name in dir
    ensures forall rest :: Good(crc, kind, AfterHeader(dir[s.name] + Encode(crc, kind, rec)) + rest) ==
                           Good(crc, kind, AfterHeader(dir[s.name]))
  {
    hide WellFormed, Stamp, Checksum, Encode, Good, EncodeAll, AllStamped;
    GoodOfAll(crc, kind, rs);
    assert AfterHeader(dir[s.name]) == EncodeAll(crc, kind, rs);
    forall rest: seq<Byte>
      ensures Good(crc, kind, AfterHeader(dir[s.name] + Encode(crc, kind, rec)) + rest) == rs
    {
      LostAfter(crc, kind, rs, rec, rest);
    }
  }

  lemma LostAfter(crc: Crc, kind: Kind, rs: seq<Record>, rec: Record, rest: seq<Byte>)
    requires WellFormed(kind, rec) && |rec.payload| < 0x1_0000_0000 && Stamp(crc, kind, rec) != Checksum(crc, kind, rec)
    requires AllStamped(crc, kind, rs)
    ensures Good(crc, kind,
                AfterHeader(DefaultHeader() + EncodeAll(crc, kind, rs) + Encode(crc, kind, rec)) + rest) == rs
    ensures rs == [] ==> Good(crc, kind, AfterHeader(DefaultHeader() + Encode(crc, kind, rec)) + rest) == rs
  {
    hide WellFormed, Stamp, Checksum, Encode, Good, EncodeAll, AllStamped;
    BigEndian.Widths();
    WrongStampEnds(crc, kind, rs, rec, rest);
    var body, enc := EncodeAll(crc, kind, rs), Encode(crc, kind, rec);
    assert AfterHeader(DefaultHeader() + body + enc) + rest == body + (enc + rest);
    NoBytes(crc, kind);
    assert rs == [] ==> AfterHeader(DefaultHeader() + enc) + rest == body + (enc + rest);
  }
}
