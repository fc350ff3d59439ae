/** Opening a directory of segment files: what a scan of every file, in the order of a sorted listing, makes of it. */
module WalOpen {
  import opened Bytes
  import opened WalCodec
  import opened WalNames
  import opened WalScan
  import opened WalStoreModel
  import opened Options
  import BigEndian

  // ----- opening file by file -----

  datatype Opened = Opened(files: Dir, segments: seq<Segment>, records: seq<Record>, failed: Option<Error>)

  function Unopened(files: Dir): Opened {
    Opened(files, [], [], None)
  }

  /** Scan one file: cut it after its last record and note it, remove it when it has none, stop if it is unreadable. */
  function OpenOne(crc: Crc, kind: Kind, unversioned: bool, o: Opened, name: nat): Opened {
    if o.failed.Some? || name !in o.files then o else
    var file := o.files[name];
    var scan := Scanned(crc, kind, file, unversioned);
    if scan.Err? then o.(failed := Some(scan.error))
    else if scan.value == [] then o.(files := o.files - {name})
    else Opened(o.files[name := Retained(crc, kind, file, unversioned)],
             o.segments + [NoteOfScan(crc, kind, file, unversioned, name)], o.records + scan.value, None)
  }

  function NoteOfScan(crc: Crc, kind: Kind, file: seq<Byte>, unversioned: bool, name: nat): Segment {
    var off, scan := ReadHeader(file, unversioned), Scanned(crc, kind, file, unversioned);
    if off.Err? || scan.Err? then Segment(name, 0, 0, 0, 0)
       else NoteOfMeta(name, MetaOf(kind, scan.value, off.value + |EncodeAll(crc, kind, scan.value)|))
  }

  function NoteOfMeta(name: nat, m: Meta): Segment {
    Segment(name, m.first, m.last, m.size, m.count)
  }

  function OpenAll(crc: Crc, kind: Kind, unversioned: bool, start: Opened, order: seq<nat>): Opened {
    if order == [] then start else
    OpenOne(crc, kind, unversioned, OpenAll(crc, kind, unversioned, start, order[..|order| - 1]), order[|order| - 1])
  }

  lemma OpenNext(crc: Crc, kind: Kind, unversioned: bool, start: Opened, order: seq<nat>, name: nat)
    ensures OpenAll(crc, kind, unversioned, start, order + [name]) ==
            OpenOne(crc, kind, unversioned, OpenAll(crc, kind, unversioned, start, order), name)
  {
    hide OpenOne;
    assert (order + [name])[..|order|] == order;
  }

  // ----- listings -----

  /** `order` is how a sorted listing of `names` starts. */
  ghost predicate StartsListing(order: seq<nat>, names: set<nat>) {
    && (forall i | 0 <= i < |order| :: order[i] in names)
    && (forall i, j | 0 <= i < j < |order| :: SortsBefore(Name(order[i]), Name(order[j])))
    && forall i, n | 0 <= i < |order| && n in names && n !in order :: SortsBefore(Name(order[i]), Name(n))
  }

  lemma ListNothing(names: set<nat>)
    ensures StartsListing([], names)
  {
  }

  lemma ListNext(order: seq<nat>, todo: set<nat>, names: set<nat>, name: nat)
    requires StartsListing(order, names) && (forall n :: n in todo <==> n in names && n !in order)
    requires name in todo && forall k | k in todo && k != name :: SortsBefore(Name(name), Name(k))
    ensures StartsListing(order + [name], names)
  {
    hide SortsBefore, Name;
  }

  lemma ListDone(order: seq<nat>, names: set<nat>)
    requires StartsListing(order, names) && forall n | n in names :: n in order
    ensures Listing(order, names)
  {
    hide SortsBefore, Name;
  }

  /** How a listing starts is how the listing starts. */
  lemma {:induction false} ListingStarts(order: seq<nat>, full: seq<nat>, names: set<nat>)
    requires StartsListing(order, names) && Listing(full, names)
    ensures order <= full
    decreases |order|
  {
    hide SortsBefore, Name;
    if order != [] {
      SameFirst(order, full, names);
      RestStarts(order, names);
      RestListed(full, names);
      ListingStarts(order[1..], full[1..], names - {order[0]});
      assert order == [order[0]] + order[1..] && full == [full[0]] + full[1..];
    }
  }

  lemma SameFirst(order: seq<nat>, full: seq<nat>, names: set<nat>)
    requires StartsListing(order, names) && Listing(full, names) && order != []
    ensures full != [] && order[0] == full[0]
  {
    hide SortsBefore, Name;
    assert order[0] in full;
    var j :| 0 <= j < |full| && full[j] == order[0];
    assert full[0] in names;
    OrderIsStrict(Name(order[0]), Name(full[0]));
    if full[0] in order {
      var k :| 0 <= k < |order| && order[k] == full[0];
    }
  }

  lemma RestStarts(order: seq<nat>, names: set<nat>)
    requires StartsListing(order, names) && order != []
    ensures StartsListing(order[1..], names - {order[0]})
  {
    hide SortsBefore, Name;
    forall i | 0 <= i < |order[1..]|
      ensures order[1..][i] in names - {order[0]}
    {
      assert SortsBefore(Name(order[0]), Name(order[i + 1]));
      OrderIsStrict(Name(order[0]), Name(order[i + 1]));
    }
    assert order == [order[0]] + order[1..];
  }

  /** The names sort as the numbers in them. */
  ghost predicate NamesInOrder(segments: seq<Segment>) {
    forall i, j | 0 <= i < j < |segments| :: SortsBefore(Name(segments[i].name), Name(segments[j].name))
  }

  function NameList(segments: seq<Segment>): (names: seq<nat>)
    ensures |names| == |segments| && forall i | 0 <= i < |names| :: names[i] == segments[i].name
  {
    seq(|segments|, i requires 0 <= i < |segments| => segments[i].name)
  }

  lemma InOrderIsListing(segments: seq<Segment>)
    requires NamesInOrder(segments)
    ensures Listing(NameList(segments), Names(segments))
  {
    hide SortsBefore, Name;
    forall n
      ensures n in NameList(segments) <==> n in Names(segments)
    {
      if n in Names(segments) {
        var i :| 0 <= i < |segments| && segments[i].name == n;
        assert NameList(segments)[i] == n;
      }
    }
  }

  /** The crash left at least the header of the last file. */
  predicate HeaderLeft(segments: seq<Segment>, cut: nat) {
    segments != [] ==> SEGMENT_HEADER_SIZE <= cut <= segments[|segments| - 1].size
  }

  // ----- a directory after a crash -----

  /** The directory with its last file cut to `cut` bytes. */
  function TornDir(dir: Dir, segments: seq<Segment>, cut: nat): Dir {
    if segments == [] then dir else
    var last := segments[|segments| - 1].name;
    if last in dir && cut <= |dir[last]| then dir[last := dir[last][..cut]] else dir
  }

  /** How many of a file's records its first `cut` bytes hold. */
  function CutAt(crc: Crc, kind: Kind, rs: seq<Record>, cut: nat): (m: nat)
    ensures m <= |rs|
  {
    if cut < SEGMENT_HEADER_SIZE || !AllStamped(crc, kind, rs) then 0
       else WholeBefore(crc, kind, rs, cut - SEGMENT_HEADER_SIZE)
  }

  /** The records left when the last file is cut to `cut` bytes. */
  function AfterCut(crc: Crc, kind: Kind, contents: seq<seq<Record>>, cut: nat): seq<Record> {
    if contents == [] then [] else
    var n := |contents| - 1;
    Flatten(contents[..n]) + contents[n][..CutAt(crc, kind, contents[n], cut)]
  }

  /** The directory is open up to file `i`; `whole` is what it would hold were the last file not cut. */
  ghost predicate Opening(crc: Crc, kind: Kind, segments: seq<Segment>, contents: seq<seq<Record>>, cut: nat,
                          files: Dir, whole: Dir, remaining: seq<Segment>, kept: seq<seq<Record>>, all: seq<Record>,
                              i: nat)
  {
    && Passed(crc, kind, whole, remaining, kept, segments, contents, i) && |segments| == |contents|
       && Flatten(kept) == all
        && i <= |segments|
    && files == (if i < |segments| then TornDir(whole, segments, cut) else whole)
    && all == if i < |segments| then Flatten(contents[..i]) else AfterCut(crc, kind, contents, cut)
  }

  lemma OpenStarts(crc: Crc, kind: Kind, dir: Dir, segments: seq<Segment>, contents: seq<seq<Record>>, cut: nat)
    requires StoreOk(crc, kind, dir, segments, contents)
    ensures Opening(crc, kind, segments, contents, cut, TornDir(dir, segments, cut), dir, [], [], [], 0)
            && dir.Keys == Names(segments[0..])
  {
    hide SegmentOk, Passed;
    PassStarts(crc, kind, dir, segments, contents);
    assert segments[0..] == segments;
  }

  lemma OpenEnds(crc: Crc, kind: Kind, segments: seq<Segment>, contents: seq<seq<Record>>, cut: nat,
                 files: Dir, whole: Dir, remaining: seq<Segment>, kept: seq<seq<Record>>, all: seq<Record>)
    requires Opening(crc, kind, segments, contents, cut, files, whole, remaining, kept, all, |segments|)
    ensures StoreOk(crc, kind, files, remaining, kept) && Flatten(kept) == all == AfterCut(crc, kind, contents, cut)
  {
    hide StoreOk, SegmentOk, Passed, AfterCut, Flatten;
    PassEnds(crc, kind, whole, remaining, kept, segments, contents);
  }

  /** The last file is another than the next one, unless the next is the last. */
  lemma LastFile(crc: Crc, kind: Kind, dir: Dir, remaining: seq<Segment>, kept: seq<seq<Record>>,
                 segments: seq<Segment>, contents: seq<seq<Record>>, i: nat)
    requires Passed(crc, kind, dir, remaining, kept, segments, contents, i) && i < |segments|
    ensures var n := |segments| - 1;
            && |segments| == |contents| && (i < n ==> segments[i].name != segments[n].name)
            && SegmentOk(crc, kind, dir, segments[i], contents[i])
               && SegmentOk(crc, kind, dir, segments[n], contents[n])
  {
    hide SegmentOk;
    var n := |segments| - 1;
    TailName(crc, kind, dir, segments, contents, i, n);
    assert segments[i..][n - i] == segments[n] && contents[i..][n - i] == contents[n];
    assert segments[i..][0] == segments[i] && contents[i..][0] == contents[i];
  }

  lemma SegmentFile(crc: Crc, kind: Kind, dir: Dir, s: Segment, rs: seq<Record>)
    requires SegmentOk(crc, kind, dir, s, rs)
    ensures AllStamped(crc, kind, rs) && rs != [] && s.name == KeyOf(kind, rs[0]) && s.name in dir
    ensures dir[s.name] == Image(crc, kind, rs) && s.size == |dir[s.name]| >= SEGMENT_HEADER_SIZE
  {
    hide AllStamped, EncodeAll;
  }

  /** What is left of the next file: all of it, or `cut` bytes when it is the last. */
  lemma TornFile(crc: Crc, kind: Kind, dir: Dir, remaining: seq<Segment>, kept: seq<seq<Record>>,
                 segments: seq<Segment>, contents: seq<seq<Record>>, i: nat, cut: nat)
      returns (k: nat)
    requires Passed(crc, kind, dir, remaining, kept, segments, contents, i) && i < |segments|
    requires SEGMENT_HEADER_SIZE <= cut <= segments[|segments| - 1].size
    ensures |segments| == |contents| && SegmentOk(crc, kind, dir, segments[i], contents[i])
            && AllStamped(crc, kind, contents[i])
    ensures contents[i] != [] && segments[i].name == KeyOf(kind, contents[i][0])
    ensures k == (if i == |segments| - 1 then cut else segments[i].size)
            && SEGMENT_HEADER_SIZE <= k <= |Image(crc, kind, contents[i])|
    ensures segments[i].name in TornDir(dir, segments, cut)
    ensures TornDir(dir, segments, cut)[segments[i].name] == Image(crc, kind, contents[i])[..k]
  {
    hide Passed, SegmentOk, Image, AllStamped;
    var n := |segments| - 1;
    k := if i == n then cut else segments[i].size;
    LastFile(crc, kind, dir, remaining, kept, segments, contents, i);
    SegmentFile(crc, kind, dir, segments[i], contents[i]);
    SegmentFile(crc, kind, dir, segments[n], contents[n]);
    assert dir[segments[i].name][..segments[i].size] == dir[segments[i].name];
  }

  /** What one file adds. */
  lemma OpenAdds(crc: Crc, kind: Kind, contents: seq<seq<Record>>, i: nat, cut: nat, records: seq<Record>)
    requires i < |contents|
    requires records == if i + 1 < |contents| then contents[i] else contents[i][..CutAt(crc, kind, contents[i], cut)]
    ensures Flatten(contents[..i]) + records == if i + 1 < |contents| then Flatten(contents[..i + 1])
            else AfterCut(crc, kind, contents, cut)
    ensures records == contents[i][..|records|]
  {
    hide Flatten, CutAt;
    assert contents[..i + 1] == contents[..i] + [contents[i]];
    FlattenSnoc(contents[..i], contents[i]);
  }

  lemma WholeSegment(crc: Crc, kind: Kind, dir: Dir, s: Segment, rs: seq<Record>)
    requires SegmentOk(crc, kind, dir, s, rs)
    ensures rs[..CutAt(crc, kind, rs, s.size)] == rs != []
  {
    hide EncodeAll, Stamped;
  }

  lemma TornUpdate(dir: Dir, segments: seq<Segment>, cut: nat, name: nat, file: seq<Byte>)
    requires segments != []
    ensures name != segments[|segments| - 1].name ==>
              TornDir(dir[name := file], segments, cut) == TornDir(dir, segments, cut)[name := file]
    ensures name == segments[|segments| - 1].name ==> TornDir(dir, segments, cut)[name := file] == dir[name := file]
    ensures name == segments[|segments| - 1].name ==> TornDir(dir, segments, cut) - {name} == dir - {name}
  {
  }

  lemma TailName(crc: Crc, kind: Kind, dir: Dir, segments: seq<Segment>, contents: seq<seq<Record>>, i: nat, j: nat)
    requires |segments| == |contents| && i <= j < |segments| && SegmentsOk(crc, kind, dir, segments[i..], contents[i..])
    ensures segments[i].name <= segments[j].name && (i < j ==> segments[i].name < segments[j].name)
  {
    hide SegmentOk;
    var s, c := segments[i..], contents[i..];
    assert s[0] == segments[i] && s[j - i] == segments[j];
    NameIsFirst(crc, kind, dir, s[0], c[0]);
    NameIsFirst(crc, kind, dir, s[j - i], c[j - i]);
  }

  lemma StampedNow(crc: Crc, kind: Kind, rec: Record)
    requires WellFormed(kind, rec) && |rec.payload| < 0x1_0000_0000 && Stamp(crc, kind, rec) == Checksum(crc, kind, rec)
    ensures var r := rec.(crc := Checksum(crc, kind, rec));
            Stamped(crc, kind, r) && Enc(crc, kind, r) == Encode(crc, kind, rec) && KeyOf(kind, r) == KeyOf(kind, rec)
  {
    BigEndian.Widths();
    ChecksumIgnoresCrc(crc, kind, rec, Checksum(crc, kind, rec));
  }

  /** A file with one record. */
  lemma FirstRecord(crc: Crc, kind: Kind, r: Record)
    requires Stamped(crc, kind, r)
    ensures var key := KeyOf(kind, r);
            SegmentOk(crc, kind, map[key := DefaultHeader() + Enc(crc, kind, r)],
                      Segment(key, key, key, SEGMENT_HEADER_SIZE + |Enc(crc, kind, r)|, 1), [r])
  {
    hide Stamped, Enc, DefaultHeader;
    assert [r] == [r] + [];
    EncodeAllFirst(crc, kind, r, []);
  }

  // ----- opening in order -----

  /** Scan one file that holds the first `k` bytes of a good one. */
  lemma OpensCut(crc: Crc, kind: Kind, unversioned: bool, o: Opened, name: nat, rs: seq<Record>, k: nat)
    requires o.failed.None? && name in o.files
    requires rs != [] && AllStamped(crc, kind, rs) && name == KeyOf(kind, rs[0])
    requires SEGMENT_HEADER_SIZE <= k <= |Image(crc, kind, rs)| && o.files[name] == Image(crc, kind, rs)[..k]
    ensures var records := rs[..CutAt(crc, kind, rs, k)];
            && AllStamped(crc, kind, records)
            && OpenOne(crc, kind, unversioned, o, name) ==
               if records == [] then o.(files := o.files - {name})
               else Opened(o.files[name := Image(crc, kind, records)], o.segments + [NoteOf(crc, kind, records)],
                        o.records + records, None)
  {
    hide Stamped, EncodeAll, WholeBefore, ReadHeader, DefaultHeader, Retained, Good;
    ScanOfCut(crc, kind, rs, k, unversioned);
    var file := o.files[name];
    assert file == DefaultHeader() + EncodeAll(crc, kind, rs)[..k - SEGMENT_HEADER_SIZE];
    DefaultReads(EncodeAll(crc, kind, rs)[..k - SEGMENT_HEADER_SIZE], unversioned);
  }

  /** One file of a directory opened in order. */
  lemma OpensNext(crc: Crc, kind: Kind, unversioned: bool, segments: seq<Segment>, contents: seq<seq<Record>>, cut: nat,
                  o: Opened, whole0: Dir, kept0: seq<seq<Record>>, i: nat)
      returns (whole: Dir, kept: seq<seq<Record>>)
    requires Opening(crc, kind, segments, contents, cut, o.files, whole0, o.segments, kept0, o.records, i)
             && o.failed.None?
    requires i < |segments| && HeaderLeft(segments, cut)
    ensures var p := OpenOne(crc, kind, unversioned, o, segments[i].name);
            p.failed.None?
            && Opening(crc, kind, segments, contents, cut, p.files, whole, p.segments, kept, p.records, i + 1)
  {
    hide StoreOk, SegmentOk, Flatten, AfterCut, Image, AllStamped, CutAt, Passed, Names, NoteOf, TornDir, Increasing,
        OpenOne;
    var name := segments[i].name;
    whole, kept := whole0, kept0;
    var k := TornFile(crc, kind, whole, o.segments, kept, segments, contents, i, cut);
    OpensCut(crc, kind, unversioned, o, name, contents[i], k);
    var records := contents[i][..CutAt(crc, kind, contents[i], k)];
    LastFile(crc, kind, whole, o.segments, kept, segments, contents, i);
    WholeSegment(crc, kind, whole, segments[i], contents[i]);
    OpenAdds(crc, kind, contents, i, cut, records);
    if records != [] {
      var after := Image(crc, kind, records);
      TornUpdate(whole, segments, cut, name, after);
      CutSegment(crc, kind, whole, segments[i], contents[i], |records|);
      PassKeep(crc, kind, whole, o.segments, kept, segments, contents, i, after, NoteOf(crc, kind, records), records);
      FlattenSnoc(kept, records);
      whole, kept := whole[name := after], kept + [records];
    } else {
      TornUpdate(whole, segments, cut, name, []);
      PassDrop(crc, kind, whole, o.segments, kept, segments, contents, i);
      whole := whole - {name};
    }
  }

  lemma {:induction false} OpensSoFar(crc: Crc, kind: Kind, unversioned: bool, dir: Dir, segments: seq<Segment>,
                                      contents: seq<seq<Record>>, cut: nat, i: nat)
      returns (whole: Dir, kept: seq<seq<Record>>)
    requires StoreOk(crc, kind, dir, segments, contents) && HeaderLeft(segments, cut) && i <= |segments|
    ensures var o := OpenAll(crc, kind, unversioned, Unopened(TornDir(dir, segments, cut)), NameList(segments)[..i]);
            o.failed.None?
            && Opening(crc, kind, segments, contents, cut, o.files, whole, o.segments, kept, o.records, i)
    decreases i
  {
    hide StoreOk, SegmentOk, TornDir, OpenOne, Opening, HeaderLeft;
    if i == 0 {
      OpenStarts(crc, kind, dir, segments, contents, cut);
      whole, kept := dir, [];
    } else {
      whole, kept := OpensSoFar(crc, kind, unversioned, dir, segments, contents, cut, i - 1);
      var start, names := Unopened(TornDir(dir, segments, cut)), NameList(segments);
      assert names[..i] == names[..i - 1] + [segments[i - 1].name];
      OpenNext(crc, kind, unversioned, start, names[..i - 1], segments[i - 1].name);
      whole, kept := OpensNext(crc, kind, unversioned, segments, contents, cut,
                               OpenAll(crc, kind, unversioned, start, names[..i - 1]), whole, kept, i - 1);
    }
  }

  /** When the names sort as their numbers, opening a store cut in its last file gives a store with the records before
      the cut. */
  lemma OpensInOrder(crc: Crc, kind: Kind, unversioned: bool, dir: Dir, segments: seq<Segment>,
                     contents: seq<seq<Record>>, cut: nat, order: seq<nat>)
      returns (kept: seq<seq<Record>>)
    requires StoreOk(crc, kind, dir, segments, contents) && HeaderLeft(segments, cut) && NamesInOrder(segments)
    requires Listing(order, dir.Keys)
    ensures var o := OpenAll(crc, kind, unversioned, Unopened(TornDir(dir, segments, cut)), order);
            && o.failed.None? && StoreOk(crc, kind, o.files, o.segments, kept)
            && Flatten(kept) == o.records == AfterCut(crc, kind, contents, cut)
  {
    hide SegmentOk, SegmentsOk, TornDir, OpenAll, Opening, HeaderLeft, Listing, NamesInOrder, Flatten, AfterCut;
    InOrderIsListing(segments);
    OneListing(order, NameList(segments), dir.Keys);
    assert NameList(segments)[..|segments|] == NameList(segments);
    var whole;
    whole, kept := OpensSoFar(crc, kind, unversioned, dir, segments, contents, cut, |segments|);
    var o := OpenAll(crc, kind, unversioned, Unopened(TornDir(dir, segments, cut)), order);
    OpenEnds(crc, kind, segments, contents, cut, o.files, whole, o.segments, kept, o.records);
  }

  /** And no file on the way stops it. */
  lemma NothingStops(crc: Crc, kind: Kind, unversioned: bool, dir: Dir, segments: seq<Segment>,
                     contents: seq<seq<Record>>, cut: nat, order: seq<nat>)
    requires StoreOk(crc, kind, dir, segments, contents) && StartsListing(order, dir.Keys)
    ensures NamesInOrder(segments) && HeaderLeft(segments, cut) ==>
              OpenAll(crc, kind, unversioned, Unopened(TornDir(dir, segments, cut)), order).failed.None?
  {
    hide SegmentOk, SegmentsOk, TornDir, OpenAll, Opening, HeaderLeft, Listing, StartsListing, NamesInOrder;
    if NamesInOrder(segments) && HeaderLeft(segments, cut) {
      InOrderIsListing(segments);
      ListingStarts(order, NameList(segments), dir.Keys);
      var whole, kept := OpensSoFar(crc, kind, unversioned, dir, segments, contents, cut, |order|);
      assert order == NameList(segments)[..|order|];
    }
  }

  // ----- opening out of order -----

  /** Opening a file of the store changes no file and adds its records. */
  lemma OpensWhole(crc: Crc, kind: Kind, unversioned: bool, o: Opened, segments: seq<Segment>,
                   contents: seq<seq<Record>>, j: nat)
    requires SegmentsOk(crc, kind, o.files, segments, contents) && o.failed.None? && j < |segments|
    ensures var p := OpenOne(crc, kind, unversioned, o, segments[j].name);
            p.files == o.files && p.failed.None? && p.records == o.records + contents[j] && contents[j] != []
  {
    hide Image, AllStamped, CutAt, NoteOf, Increasing, OpenOne, SegmentOk;
    var rs, name := contents[j], segments[j].name;
    SegmentFile(crc, kind, o.files, segments[j], rs);
    WholeSegment(crc, kind, o.files, segments[j], rs);
    var file := o.files[name];
    assert file[..|file|] == file;
    OpensCut(crc, kind, unversioned, o, name, rs, |file|);
    assert o.files[name := file] == o.files;
  }

  lemma {:induction false} OpensAny(crc: Crc, kind: Kind, unversioned: bool, dir: Dir, segments: seq<Segment>,
                                    contents: seq<seq<Record>>, order: seq<nat>)
    requires SegmentsOk(crc, kind, dir, segments, contents) && forall i | 0 <= i < |order| ::
               order[i] in Names(segments)
    ensures var o := OpenAll(crc, kind, unversioned, Unopened(dir), order); o.files == dir && o.failed.None?
  {
    hide SegmentOk, OpenOne;
    if order != [] {
      var n := |order| - 1;
      OpensAny(crc, kind, unversioned, dir, segments, contents, order[..n]);
      var j :| 0 <= j < |segments| && segments[j].name == order[n];
      OpensWhole(crc, kind, unversioned, OpenAll(crc, kind, unversioned, Unopened(dir), order[..n]), segments, contents,
          j);
    }
  }

  lemma LastRecord(crc: Crc, kind: Kind, dir: Dir, segments: seq<Segment>, contents: seq<seq<Record>>, j: nat)
    requires SegmentsOk(crc, kind, dir, segments, contents) && j < |segments|
    ensures contents[j] != [] && KeyOf(kind, contents[j][|contents[j]| - 1]) == segments[j].last
    ensures segments[j].last == segments[|segments| - 1].last ==> j == |segments| - 1
  {
    hide AllStamped, EncodeAll;
    var n := |segments| - 1;
    assert SegmentOk(crc, kind, dir, segments[n], contents[n]);
    if j < n {
      assert segments[j].last < segments[n].first <= segments[n].last;
    }
  }

  lemma SamePieces(a: seq<Record>, x: seq<Record>, b: seq<Record>, y: seq<Record>)
    requires a + x == b + y && x != [] && y != []
    ensures x[|x| - 1] == y[|y| - 1] && (x == y ==> a == b)
  {
    var z := a + x;
    assert z[|z| - 1] == x[|x| - 1] && z[|z| - 1] == y[|y| - 1];
    if x == y {
      assert z[..|z| - |x|] == a && z[..|z| - |x|] == b;
    }
  }

  /** The file opened last is the last segment's. */
  lemma LastOpened(crc: Crc, kind: Kind, unversioned: bool, dir: Dir, segments: seq<Segment>,
                   contents: seq<seq<Record>>, order: seq<nat>)
    requires SegmentsOk(crc, kind, dir, segments, contents)
             && (forall i | 0 <= i < |order| :: order[i] in Names(segments))
    requires order != [] && OpenAll(crc, kind, unversioned, Unopened(dir), order).records == Flatten(contents)
    ensures segments != [] && order[|order| - 1] == segments[|segments| - 1].name
    ensures OpenAll(crc, kind, unversioned, Unopened(dir),
                order[..|order| - 1]).records == Flatten(contents[..|contents| - 1])
  {
    hide SegmentOk, OpenOne, OpenAll, SegmentsOk, Flatten, KeyOf;
    var m, n := |order| - 1, |contents| - 1;
    assert order == order[..m] + [order[m]];
    OpenNext(crc, kind, unversioned, Unopened(dir), order[..m], order[m]);
    var before := OpenAll(crc, kind, unversioned, Unopened(dir), order[..m]);
    var j :| 0 <= j < |segments| && segments[j].name == order[m];
    OpensAny(crc, kind, unversioned, dir, segments, contents, order[..m]);
    SameCount(crc, kind, dir, segments, contents);
    OpensWhole(crc, kind, unversioned, before, segments, contents, j);
    LastRecord(crc, kind, dir, segments, contents, j);
    LastRecord(crc, kind, dir, segments, contents, n);
    assert contents == contents[..n] + [contents[n]];
    FlattenSnoc(contents[..n], contents[n]);
    SamePieces(before.records, contents[j], Flatten(contents[..n]), contents[n]);
  }

  lemma OneOk(crc: Crc, kind: Kind, dir: Dir, segments: seq<Segment>, contents: seq<seq<Record>>, j: nat)
    requires SegmentsOk(crc, kind, dir, segments, contents) && j < |segments|
    ensures |segments| == |contents| && SegmentOk(crc, kind, dir, segments[j], contents[j])
  {
    hide SegmentOk;
  }

  lemma SameCount(crc: Crc, kind: Kind, dir: Dir, segments: seq<Segment>, contents: seq<seq<Record>>)
    requires SegmentsOk(crc, kind, dir, segments, contents)
    ensures |segments| == |contents|
    ensures segments != [] ==> SegmentsOk(crc, kind, dir, segments[..|segments| - 1], contents[..|segments| - 1])
    ensures segments == [] <==> Flatten(contents) == []
  {
    hide SegmentOk;
    if segments != [] {
      LastRecord(crc, kind, dir, segments, contents, |segments| - 1);
    }
  }

  /** Files opened in any order give the records in order only if the order is the segments'. */
  lemma {:induction false} OrderIsForced(crc: Crc, kind: Kind, unversioned: bool, dir: Dir, segments: seq<Segment>,
                                         contents: seq<seq<Record>>, order: seq<nat>)
    requires SegmentsOk(crc, kind, dir, segments, contents)
             && (forall i | 0 <= i < |order| :: order[i] in Names(segments))
    requires forall i, j | 0 <= i < j < |order| :: order[i] != order[j]
    requires OpenAll(crc, kind, unversioned, Unopened(dir), order).records == Flatten(contents)
    ensures order == NameList(segments)
    decreases |order|
  {
    hide SegmentsOk, OpenOne, Flatten;
    SameCount(crc, kind, dir, segments, contents);
    if order != [] {
      var m, n := |order| - 1, |segments| - 1;
      LastOpened(crc, kind, unversioned, dir, segments, contents, order);
      forall i | 0 <= i < m
        ensures order[..m][i] in Names(segments[..n])
      {
        var k :| 0 <= k < |segments| && segments[k].name == order[i];
        assert segments[..n][k].name == order[i];
      }
      OrderIsForced(crc, kind, unversioned, dir, segments[..n], contents[..n], order[..m]);
      assert order == order[..m] + [order[m]] && segments == segments[..n] + [segments[n]];
    }
  }

  lemma ListingDistinct(order: seq<nat>, names: set<nat>)
    requires Listing(order, names)
    ensures forall i, j | 0 <= i < j < |order| :: order[i] != order[j]
  {
    hide SortsBefore, Name;
    forall i, j | 0 <= i < j < |order|
      ensures order[i] != order[j]
    {
      OrderIsStrict(Name(order[i]), Name(order[j]));
    }
  }

  /** A store reopens with its records in order if and only if the names of its files sort as the numbers in them. */
  lemma ReopensInOrderIff(crc: Crc, kind: Kind, unversioned: bool, dir: Dir, segments: seq<Segment>,
                          contents: seq<seq<Record>>, order: seq<nat>)
    requires StoreOk(crc, kind, dir, segments, contents) && Listing(order, dir.Keys)
    ensures OpenAll(crc, kind, unversioned, Unopened(dir), order).records == Flatten(contents) <==>
              NamesInOrder(segments)
  {
    hide SegmentOk, SegmentsOk, OpenAll, SortsBefore, Name, Flatten, AfterCut, TornDir;
    if NamesInOrder(segments) {
      var cut := Uncut(crc, kind, dir, segments, contents);
      var kept := OpensInOrder(crc, kind, unversioned, dir, segments, contents, cut, order);
    }
    if OpenAll(crc, kind, unversioned, Unopened(dir), order).records == Flatten(contents) {
      ListingDistinct(order, dir.Keys);
      OrderIsForced(crc, kind, unversioned, dir, segments, contents, order);
    }
  }

  /** The cut that cuts nothing. */
  lemma Uncut(crc: Crc, kind: Kind, dir: Dir, segments: seq<Segment>, contents: seq<seq<Record>>) returns (cut: nat)
    requires StoreOk(crc, kind, dir, segments, contents)
    ensures HeaderLeft(segments, cut) && TornDir(dir, segments, cut) == dir
            && AfterCut(crc, kind, contents, cut) == Flatten(contents)
  {
    hide SegmentOk, SegmentsOk, CutAt, Flatten, Names, Image, AllStamped;
    cut := 0;
    SameCount(crc, kind, dir, segments, contents);
    if segments != [] {
      var n := |segments| - 1;
      OneOk(crc, kind, dir, segments, contents, n);
      cut := segments[n].size;
      SegmentFile(crc, kind, dir, segments[n], contents[n]);
      WholeSegment(crc, kind, dir, segments[n], contents[n]);
      WholeFile(dir, segments[n].name);
      LastOf(contents);
    }
  }

  lemma WholeFile(dir: Dir, name: nat)
    requires name in dir
    ensures dir[name := dir[name][..|dir[name]|]] == dir
  {
    assert dir[name][..|dir[name]|] == dir[name];
  }

  lemma LastOf(contents: seq<seq<Record>>)
    requires contents != []
    ensures Flatten(contents) == Flatten(contents[..|contents| - 1]) + contents[|contents| - 1]
  {
  }

  /** For 64-bit numbers: unless a file of 19 digits meets one of 20 whose first 19 spell less. */
  lemma NamesInOrderIff(segments: seq<Segment>)
    requires forall i, j | 0 <= i < j < |segments| :: segments[i].name < segments[j].name < Pow10(20)
    ensures NamesInOrder(segments) <==>
            forall i, j | 0 <= i < j < |segments| ::
                     !(segments[i].name < Pow10(19) <= segments[j].name && segments[j].name / 10 < segments[i].name)
  {
    hide SortsBefore, Name, Pow10;
    forall i, j | 0 <= i < j < |segments|
      ensures SortsBefore(Name(segments[i].name), Name(segments[j].name)) <==>
              !(segments[i].name < Pow10(19) <= segments[j].name && segments[j].name / 10 < segments[i].name)
    {
      NamesSortIff(segments[i].name, segments[j].name);
    }
  }

  /** So always below 10^19. */
  lemma SmallNamesInOrder(segments: seq<Segment>)
    requires forall i, j | 0 <= i < j < |segments| :: segments[i].name < segments[j].name < Pow10(19)
    ensures NamesInOrder(segments)
  {
    hide SortsBefore, Name, Pow10;
    forall i, j | 0 <= i < j < |segments|
      ensures SortsBefore(Name(segments[i].name), Name(segments[j].name))
    {
      NamesSortAsNumbers(segments[i].name, segments[j].name);
    }
  }

  /** A record without payload under a key. */
  function Sample(crc: Crc, kind: Kind, key: nat): Record
    requires key < BigEndian.Pow256(8)
  {
    var r := if kind == Client then Record(0, Zeros(16), key, [], 0) else Record(key, Zeros(16), 0, [], 0);
    r.(crc := Checksum(crc, kind, r))
  }

  lemma SampleStamped(crc: Crc, kind: Kind, key: nat)
    requires key < BigEndian.Pow256(8)
    ensures Stamped(crc, kind, Sample(crc, kind, key)) && KeyOf(kind, Sample(crc, kind, key)) == key
  {
    hide BigEndian.Pow256;
    BigEndian.Widths();
    var r := if kind == Client then Record(0, Zeros(16), key, [], 0) else Record(key, Zeros(16), 0, [], 0);
    StampedNow(crc, kind, r);
  }

  lemma Sizes()
    ensures Pow10(18) < Pow10(19) < BigEndian.Pow256(8) && Pow10(19) == 10 * Pow10(18)
  {
    BigEndian.Widths();
    assert Pow10(4) == 10000;
    assert Pow10(8) == 10000 * Pow10(4);
    assert Pow10(12) == 10000 * Pow10(8);
    assert Pow10(16) == 10000 * Pow10(12);
    assert Pow10(19) == 1000 * Pow10(16);
  }

  /** Records under 2 * 10^18 and 10^19 ... */
  lemma Samples(crc: Crc, kind: Kind) returns (a: Record, b: Record)
    ensures Stamped(crc, kind, a) && KeyOf(kind, a) == 2 * Pow10(18)
    ensures Stamped(crc, kind, b) && KeyOf(kind, b) == Pow10(19)
  {
    hide BigEndian.Pow256, Pow10, Stamped, Sample;
    Sizes();
    SampleStamped(crc, kind, 2 * Pow10(18));
    SampleStamped(crc, kind, Pow10(19));
    a, b := Sample(crc, kind, 2 * Pow10(18)), Sample(crc, kind, Pow10(19));
  }

  /** ... in a file each make a good store that reopens with its records in the wrong order. */
  lemma ReopensOutOfOrder(crc: Crc, kind: Kind, unversioned: bool, a: Record, b: Record, dir: Dir,
                          segments: seq<Segment>)
    requires Stamped(crc, kind, a) && KeyOf(kind, a) == 2 * Pow10(18) && Stamped(crc, kind, b)
             && KeyOf(kind, b) == Pow10(19)
    requires dir == map[KeyOf(kind, a) := Image(crc, kind, [a]), KeyOf(kind, b) := Image(crc, kind, [b])]
    requires segments == [NoteOf(crc, kind, [a]), NoteOf(crc, kind, [b])]
    ensures StoreOk(crc, kind, dir, segments, [[a], [b]])
    ensures Listing([KeyOf(kind, b), KeyOf(kind, a)], dir.Keys)
    ensures OpenAll(crc, kind, unversioned, Unopened(dir), [KeyOf(kind, b), KeyOf(kind, a)]).records == [b, a]
  {
    hide BigEndian.Pow256, Pow10, Stamped, KeyOf, Image, SortsBefore, Name, OpenOne, OpenAll;
    Sizes();
    NamesBeyondNineteenDigits();
    assert SegmentOk(crc, kind, dir, segments[0], [a]) && SegmentOk(crc, kind, dir, segments[1], [b]);
    assert Names(segments) == {KeyOf(kind, a), KeyOf(kind, b)} by {
      assert segments[0].name == KeyOf(kind, a) && segments[1].name == KeyOf(kind, b);
    }
    OpensTwo(crc, kind, unversioned, dir, segments, [[a], [b]]);
  }

  lemma OpensTwo(crc: Crc, kind: Kind, unversioned: bool, dir: Dir, segments: seq<Segment>, contents: seq<seq<Record>>)
    requires SegmentsOk(crc, kind, dir, segments, contents) && |segments| == 2
    ensures OpenAll(crc, kind, unversioned, Unopened(dir),
                [segments[1].name, segments[0].name]).records == contents[1] + contents[0]
  {
    hide SegmentOk, OpenOne;
    var start, one, two := Unopened(dir), [segments[1].name], [segments[1].name, segments[0].name];
    assert one[..0] == [] && two[..1] == one;
    assert OpenAll(crc, kind, unversioned, start, []) == start;
    OpensWhole(crc, kind, unversioned, start, segments, contents, 1);
    OpensWhole(crc, kind, unversioned, OpenAll(crc, kind, unversioned, start, one), segments, contents, 0);
  }
}
