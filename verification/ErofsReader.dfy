/** Reading an image back: the tree it shows is the tree it was made from. */
module ErofsReader {
  import opened Bytes
  import opened ErofsInode
  import opened ErofsLayout
  import opened ErofsTree
  import opened XattrPlan
  import opened ErofsImage
  import opened ErofsWriter
  import Dir = ErofsDir
  import Xattr

  datatype Read<+T> = Got(value: T) | Bad

  // ----- the reader -----

  function OffsetOf(s: Super, nid: nat): nat {
    BLOCK * s.metaBlk + SLOT * nid
  }

  function NodeAt(image: seq<Byte>, s: Super, nid: nat): Read<Inode> {
    match InodeAt(image, OffsetOf(s, nid)) case Ok(i) => Got(i) case Err(_) => Bad
  }

  /** The image's bytes [from, to), as far as there are any. */
  function Section(image: seq<Byte>, from: nat, to: nat): seq<Byte>
    requires from <= to
  {
    image[Min(from, |image|)..Min(to, |image|)]
  }

  /** The data of a flat inode. One in blocks that has none reads empty whatever its size. */
  function DataAt(image: seq<Byte>, s: Super, nid: nat, i: Inode): Read<seq<Byte>> {
    if i.layout == FLAT_INLINE then InlineAt(image, s, nid, i)
    else if i.layout != 0 then Bad
    else if Blocks(i.size) == 0 || i.raw == 0 then Got([])
    else if i.raw + Blocks(i.size) > s.blocks then Bad
    else Got(Section(image, BLOCK * i.raw, BLOCK * i.raw + i.size))
  }

  const FLAT_INLINE: nat := 2

  /** Whole blocks, and the rest behind the inode and its attributes, where it may not leave the inode's block. */
  function InlineAt(image: seq<Byte>, s: Super, nid: nat, i: Inode): Read<seq<Byte>> {
    var whole, rest := i.size / BLOCK, i.size % BLOCK;
    if whole > 0 && i.raw + whole > s.blocks then Bad else
    var head := if whole > 0 then Section(image, BLOCK * i.raw, BLOCK * i.raw + BLOCK * whole) else [];
    if rest == 0 then Got(head) else
    var node := OffsetOf(s, nid);
    var from := node + HeaderSize(i.version) + if i.xattrCount > 0 then 8 + 4 * i.xattrCount else 0;
    if from + rest > node / BLOCK * BLOCK + BLOCK then Bad else
    var tail := Section(image, from, from + rest);
    Got(head + tail + Zeros(rest - |tail|))
  }

  function ListAt(utf8: Dir.Utf8, image: seq<Byte>, s: Super, nid: nat): Read<seq<Dir.Dirent>> {
    var i := NodeAt(image, s, nid);
    if i.Bad? || Kind(i.value.mode) != K_DIR then Bad
    else
      var data := DataAt(image, s, nid, i.value);
      if data.Bad? then Bad
      else match Dir.ListBlocks(utf8, data.value, BLOCK) case Ok(ds) => Got(ds) case Err(_) => Bad
  }

  function AttrsAt(image: seq<Byte>, s: Super, nid: nat): Read<Xattr.Attrs> {
    var i := NodeAt(image, s, nid);
    if i.Bad? then Bad
    else if i.value.xattrCount == 0 then Got(map[])
    else
      var from := OffsetOf(s, nid) + HeaderSize(i.value.version);
      var area := Section(image, from, from + 8 + 4 * i.value.xattrCount);
      match Xattr.Found(area, image[Min(BLOCK * s.xattrBlk, |image|)..], s.xattrBlk != 0)
      case Ok(attrs) => Got(Xattr.MapOf(attrs))
      case Err(_) => Bad
  }

  // ----- what an image shows -----

  /** Inode `nid` reads as node `t`, and its directory, if it is one, as `t`'s whole subtree. */
  ghost predicate Shows(utf8: Dir.Utf8, image: seq<Byte>, s: Super, nid: nat, parent: nat, t: Node)
    decreases t
  {
    var i := NodeAt(image, s, nid);
    && i.Got? && i.value.mode == ModeOf(t) && i.value.uid == t.uid && i.value.gid == t.gid
    && i.value.nlink == LinksOf(t) && i.value.ino == Low32(nid) && i.value.mtime == MtimeOf(t) && i.value.nsec == 0
    && AttrsAt(image, s, nid) == Got(Xattr.MapOf(t.attrs))
    && if t.isDir then
         var ds := ListAt(utf8, image, s, nid);
         && ds.Got? && |ds.value| == 2 + |t.children|
         && ds.value[0] == Dir.Dirent(nid, DOT, FT_DIR) && ds.value[1] == Dir.Dirent(parent, DOT_DOT, FT_DIR)
         && forall k | 0 <= k < |t.children| ::
              && ds.value[2 + k].name == t.children[k].name && ds.value[2 + k].fileType == FileTypeOf(t.children[k])
              && Shows(utf8, image, s, ds.value[2 + k].nid, nid, t.children[k])
       else
         && i.value.size == (if Special(t) then 0 else t.size) && DataAt(image, s, nid, i.value) == Got(Streamed(t))
         && (Kind(ModeOf(t)) in {K_CHR, K_BLK} ==> i.value.raw == t.rdev)
  }

  /** Values of the widths the writer's input has. */
  predicate InRange(t: Node) {
    && t.mode < 0x1_0000 && t.uid < 0x1_0000_0000 && t.gid < 0x1_0000_0000 && t.rdev < 0x1_0000_0000
    && t.size < 0x1_0000_0000_0000_0000 && t.mtime < 0x1_0000_0000_0000_0000
  }

  /** A mode that carries no kind but a directory's. */
  predicate PlainKind(t: Node) {
    Kind(t.mode) == 0 || Kind(t.mode) == K_DIR
  }

  ghost predicate AllVisible(t: Node) {
    forall i | 0 <= i < |t.attrs| :: Xattr.Visible(t.attrs[i])
  }

  /** A tree of values in range. */
  ghost predicate Ranged(t: Node)
    decreases t
  {
    && InRange(t) && Xattr.DistinctKeys(t.attrs)
    && (t.isDir ==> forall k | 0 <= k < |t.children| :: Ranged(t.children[k]))
  }

  /** No directory's mode has another kind, and no attribute is empty in both its stored name and its value. */
  ghost predicate Legible(t: Node)
    decreases t
  {
    AllVisible(t) && (t.isDir ==> PlainKind(t) && forall k | 0 <= k < |t.children| :: Legible(t.children[k]))
  }

  /** No two siblings have the same name. */
  ghost predicate NoTwins(t: Node)
    decreases t
  {
    t.isDir ==> DistinctNames(t.children) && forall k | 0 <= k < |t.children| :: NoTwins(t.children[k])
  }

  /** The tree as its numbers find it: siblings of the same name are all the first of them. */
  function Resolved(t: Node): Node
    decreases t
  {
    if !t.isDir then t
    else t.(children := seq(|t.children|, k requires 0 <= k < |t.children| =>
                            Resolved(t.children[FirstAt(t.children, t.children[k].name)])))
  }

  lemma {:induction false} NoTwinsResolved(t: Node)
    requires NoTwins(t)
    ensures Resolved(t) == t
    decreases t
  {
    if t.isDir {
      forall k | 0 <= k < |t.children|
        ensures Resolved(t).children[k] == t.children[k]
      {
        assert FirstAt(t.children, t.children[k].name) == k;
        NoTwinsResolved(t.children[k]);
      }
      assert Resolved(t).children == t.children;
    }
  }

  /** The image's numbers fit their fields: block numbers 32 bits, table offsets 34, and the size of a compact
      directory 32. */
  ghost predicate Small(l: Layout) {
    && l.super.blocks < 0x1_0000_0000 && |l.table| < 0x4_0000_0000 && |l.plans| < 0x1_0000_0000_0000_0000
    && forall i | 0 <= i < |l.plans| :: l.plans[i].info.node.isDir && VersionOf(l.plans[i].info.node) == 0
        ==> |l.plans[i].data| < 0x1_0000_0000
  }

  lemma {:induction false} RangedBelow(t: Node, parent: nat, name: seq<Byte>, auto: nat, first: bool)
    requires Ranged(t)
    ensures forall a | a in Visited(t, parent, name, auto, first).0 :: Ranged(a.node)
    decreases t
  {
    hide InRange;
    if t.isDir {
      var nid := NidOf(t, auto, first);
      RangedAllBelow(t.children, nid, Max(auto, nid + STRIDE));
    }
  }

  lemma {:induction false} RangedAllBelow(ts: seq<Node>, parent: nat, auto: nat)
    requires forall k | 0 <= k < |ts| :: Ranged(ts[k])
    ensures forall a | a in VisitedAll(ts, parent, auto).0 :: Ranged(a.node)
    decreases ts
  {
    hide Ranged;
    if ts != [] {
      RangedBelow(ts[0], parent, ts[0].name, auto, false);
      RangedAllBelow(ts[1..], parent, Visited(ts[0], parent, ts[0].name, auto, false).1);
    }
  }

  lemma {:induction false} LegibleBelow(t: Node, parent: nat, name: seq<Byte>, auto: nat, first: bool)
    requires Legible(t) && NoTwins(t)
    ensures forall a | a in Visited(t, parent, name, auto, first).0 :: Legible(a.node) && NoTwins(a.node)
    decreases t
  {
    hide AllVisible;
    if t.isDir {
      var nid := NidOf(t, auto, first);
      LegibleAllBelow(t.children, nid, Max(auto, nid + STRIDE));
    }
  }

  lemma {:induction false} LegibleAllBelow(ts: seq<Node>, parent: nat, auto: nat)
    requires forall k | 0 <= k < |ts| :: Legible(ts[k]) && NoTwins(ts[k])
    ensures forall a | a in VisitedAll(ts, parent, auto).0 :: Legible(a.node) && NoTwins(a.node)
    decreases ts
  {
    hide Legible, NoTwins;
    if ts != [] {
      LegibleBelow(ts[0], parent, ts[0].name, auto, false);
      LegibleAllBelow(ts[1..], parent, Visited(ts[0], parent, ts[0].name, auto, false).1);
    }
  }

  // ----- the parts in the image -----

  lemma {:induction false} DataListed(plans: seq<Plan>, dirs: bool, i: nat)
    requires i < |plans| && HasData(plans[i], dirs)
    ensures DataPatch(plans[i]) in DataPatches(plans, dirs)
    decreases |plans|
  {
    hide DataPatch, HasData;
    var last := |plans| - 1;
    if i < last {
      DataListed(plans[..last], dirs, i);
    }
  }

  lemma Held(crc: Crc, l: Layout, image: seq<Byte>, p: Patch)
    requires WellLaid(crc, l, image) && p in Patches(crc, l)
    ensures Holds(image, p) && p.off + |p.bytes| <= BLOCK * l.super.blocks
  {
    hide Patches, AllApart, Holds;
    var i :| 0 <= i < |Patches(crc, l)| && Patches(crc, l)[i] == p;
  }

  lemma SlotHeld(crc: Crc, l: Layout, image: seq<Byte>, i: nat)
    requires WellLaid(crc, l, image) && i < |l.plans|
    ensures Holds(image, SlotPatch(l.plans[i])) && SLOT * l.plans[i].info.nid < BLOCK * l.super.blocks
  {
    hide WellLaid, SlotPatch, DataPatches, TablePatches, SuperPatch, Holds;
    var p := SlotPatch(l.plans[i]);
    assert SlotPatches(l.plans)[i] == p;
    assert p in SlotPatches(l.plans);
    Held(crc, l, image, p);
    SlotStarts(l.plans[i]);
  }

  lemma SlotStarts(p: Plan)
    ensures SlotPatch(p).off == BLOCK + SLOT * p.info.nid
  {
  }

  lemma DataHeld(crc: Crc, l: Layout, image: seq<Byte>, i: nat)
    requires WellLaid(crc, l, image) && i < |l.plans| && |l.plans[i].data| > 0
    ensures Holds(image, DataPatch(l.plans[i]))
  {
    hide WellLaid, DataPatch, DataPatches, TablePatches, SuperPatch, SlotPatches, Holds;
    DataListed(l.plans, l.plans[i].info.node.isDir, i);
    Held(crc, l, image, DataPatch(l.plans[i]));
  }

  lemma TableHeld(crc: Crc, l: Layout, image: seq<Byte>)
    requires WellLaid(crc, l, image) && l.table != []
    ensures BLOCK * l.super.xattrBlk <= |image| && l.table <= image[BLOCK * l.super.xattrBlk..]
  {
    hide WellLaid, DataPatches, SuperPatch, SlotPatches, Padded;
    var p := Patch(BLOCK * l.super.xattrBlk, Padded(l.table));
    assert p in TablePatches(l.table, l.super.xattrBlk);
    Held(crc, l, image, p);
    var rest := image[p.off..];
    assert rest[..|p.bytes|] == p.bytes;
    assert rest[..|l.table|] == l.table;
  }

  lemma SuperHeld(crc: Crc, l: Layout, image: seq<Byte>)
    requires WellLaid(crc, l, image)
    ensures Holds(image, SuperPatch(crc, l.super))
  {
    hide WellLaid, DataPatches, SuperPatch, SlotPatches, TablePatches, Holds;
    Held(crc, l, image, SuperPatch(crc, l.super));
  }

  // ----- reading one inode -----

  /** What is known about inode `i` of the plan. */
  ghost predicate Ready(utf8: Dir.Utf8, crc: Crc, infos: seq<Info>, l: Layout, image: seq<Byte>, i: nat) {
    && i < |infos| == |l.plans| && PlanGood(utf8, infos, l, i) && WellLaid(crc, l, image) && SuperGood(infos, l)
       && Small(l)
    && InRange(infos[i].node)
  }

  lemma PlanFits(utf8: Dir.Utf8, crc: Crc, infos: seq<Info>, l: Layout, image: seq<Byte>, i: nat)
    requires Ready(utf8, crc, infos, l, image, i)
    ensures Fits(InodeOf(l.plans[i]))
    ensures var area := l.plans[i].area;
            (CountOf(area) == 0 <==> area == []) && (area != [] ==> 8 + 4 * CountOf(area) == |area|)
  {
    hide WellLaid, AreaGood, DataGood, SuperGood, SlotsOf, Blocks;
    var p := l.plans[i];
    SlotsInStride(p.info.node, p.area, l.table);
    KindRange(p.info.node);
    DataRange(utf8, infos, l, i);
  }

  lemma KindRange(t: Node)
    requires t.mode < 0x1_0000
    ensures ModeOf(t) < 0x1_0000
  {
    var k := Kind(t.mode);
    assert t.mode == 4096 * k + t.mode % 4096 && k < 16;
    assert k / 4 % 2 == 0 ==> k < 12;
  }

  lemma DataRange(utf8: Dir.Utf8, infos: seq<Info>, l: Layout, i: nat)
    requires i < |infos| == |l.plans| && PlanGood(utf8, infos, l, i) && Small(l)
    ensures |l.plans[i].data| > 0 ==> |l.plans[i].data| <= BLOCK * 0x1_0000_0000 && l.plans[i].blk < 0x1_0000_0000
  {
    hide AreaGood, DataGood;
  }

  lemma NodeReads(utf8: Dir.Utf8, crc: Crc, infos: seq<Info>, l: Layout, image: seq<Byte>, i: nat)
    requires Ready(utf8, crc, infos, l, image, i)
    ensures NodeAt(image, l.super, infos[i].nid) == Got(InodeOf(l.plans[i]))
  {
    hide WellLaid, AreaGood, DataGood, InodeAt, Fits, Pack, InodeFields, InodeOf, Small, SlotsOf;
    var p := l.plans[i];
    SlotHeld(crc, l, image, i);
    PlanFits(utf8, crc, infos, l, image, i);
    SlotLength(p);
    var off, b := BLOCK + SLOT * p.info.nid, HeaderBytes(p);
    SubSlice(image, off, off + |SlotBytes(p)|, off, off + |b|);
    assert SlotBytes(p)[0..|b|] == b;
    assert image[off..off + |b|] == b;
    InodeReads(image, off, InodeOf(p));
  }

  lemma DataReads(utf8: Dir.Utf8, crc: Crc, infos: seq<Info>, l: Layout, image: seq<Byte>, i: nat)
    requires Ready(utf8, crc, infos, l, image, i) && (infos[i].node.isDir ==> PlainKind(infos[i].node))
    ensures DataAt(image, l.super, infos[i].nid, InodeOf(l.plans[i])) == Got(l.plans[i].data)
  {
    hide WellLaid, AreaGood, Small, SuperGood, Padded, ModeOf;
    var p := l.plans[i];
    var t := p.info.node;
    if t.isDir {
      hide DataGood;
      DirectoryKindIff(t);
    }
    if |p.data| > 0 {
      DataHeld(crc, l, image, i);
      var from, b := BLOCK * p.blk, Padded(p.data);
      SubSlice(image, from, from + |b|, from, from + |p.data|);
      assert b[0..|p.data|] == p.data;
    }
  }

  /** An inode's attributes read back if and only if all of them are visible. */
  lemma AttrsReadIff(utf8: Dir.Utf8, crc: Crc, infos: seq<Info>, l: Layout, image: seq<Byte>, i: nat)
    requires Ready(utf8, crc, infos, l, image, i) && Xattr.DistinctKeys(infos[i].node.attrs)
    ensures AttrsAt(image, l.super, infos[i].nid).Got?
    ensures AttrsAt(image, l.super, infos[i].nid).value == Xattr.MapOf(infos[i].node.attrs) <==>
            AllVisible(infos[i].node)
  {
    hide WellLaid, DataGood, InodeAt, NodeAt, Fits, Pack, InodeFields, SlotsOf, AreaSpells, Xattr.Found, Xattr.MapOf,
        Xattr.Visible, AllVisible;
    var p := l.plans[i];
    var t := p.info.node;
    NodeReads(utf8, crc, infos, l, image, i);
    PlanFits(utf8, crc, infos, l, image, i);
    SlotsInStride(t, p.area, l.table);
    if p.area == [] {
      EmptyMap();
      NothingHidden(t);
    } else {
      AreaHeld(crc, l, image, i);
      var s, ids :| AreaSpells(t, p.area, l.table, s, ids);
      var rest := image[Min(BLOCK * l.super.xattrBlk, |image|)..];
      if l.table != [] {
        TableHeld(crc, l, image);
      }
      SpelledReads(t, p.area, l.table, s, ids, rest);
    }
  }

  lemma NothingHidden(t: Node)
    ensures t.attrs == [] ==> AllVisible(t)
  {
  }

  lemma EmptyMap()
    ensures Xattr.MapOf([]) == map[]
  {
  }

  lemma AreaHeld(crc: Crc, l: Layout, image: seq<Byte>, i: nat)
    requires WellLaid(crc, l, image) && i < |l.plans|
    ensures var p := l.plans[i];
            var from := BLOCK + SLOT * p.info.nid + HeaderOf(p.info.node);
            from + |p.area| <= |image| && image[from..from + |p.area|] == p.area
  {
    hide WellLaid, SlotsOf, HeaderBytes;
    var p := l.plans[i];
    SlotHeld(crc, l, image, i);
    SlotLength(p);
    var off, h := BLOCK + SLOT * p.info.nid, HeaderOf(p.info.node);
    SubSlice(image, off, off + |SlotBytes(p)|, off + h, off + h + |p.area|);
    assert SlotBytes(p)[h..h + |p.area|] == p.area;
  }

  lemma SpelledReads(t: Node, area: seq<Byte>, table: seq<Byte>, s: Split, ids: seq<nat>, rest: seq<Byte>)
    requires AreaSpells(t, area, table, s, ids) && t.attrs != [] && Xattr.DistinctKeys(t.attrs)
             && |table| < 0x4_0000_0000 && table <= rest
    ensures var f := Xattr.Found(area, rest, table != []);
            f.Ok? && (Xattr.MapOf(f.value) == Xattr.MapOf(t.attrs) <==> AllVisible(t))
  {
    hide SplitOf, SharedBy, AreaOf, Xattr.Found, Xattr.MapOf, Xattr.Visible, Xattr.DistinctKeys, SplitFits;
    AreaReadsIff(t.attrs, s, HeaderOf(t), ids, table, rest);
  }

  ghost predicate NidsBelow(infos: seq<Info>) {
    forall a | a in infos :: a.nid < 0x1_0000_0000_0000_0000 && a.parent < 0x1_0000_0000_0000_0000
  }

  /** A directory lists its children, each under the inode that was made for it. */
  lemma ListingReads(utf8: Dir.Utf8, crc: Crc, infos: seq<Info>, l: Layout, image: seq<Byte>, i: nat)
      returns (ds: seq<Dir.Dirent>)
    requires Ready(utf8, crc, infos, l, image, i) && infos[i].node.isDir && PlainKind(infos[i].node) && NidsBelow(infos)
    ensures ListAt(utf8, image, l.super, infos[i].nid) == Got(ds) && IsListing(infos, infos[i], ds)
            && Dir.GoodNames(utf8, ds)
  {
    hide WellLaid, AreaGood, SuperGood, Small, NodeAt, DataAt, Dir.ListBlocks, Dir.GoodNames, Find;
    NodeReads(utf8, crc, infos, l, image, i);
    DataReads(utf8, crc, infos, l, image, i);
    DirectoryKindIff(infos[i].node);
    ds :| IsListing(infos, infos[i], ds) && ListsAs(utf8, l.plans[i].data, ds);
    ListedBelow(infos, infos[i], ds);
  }

  /** A directory can be listed exactly when its mode carries no other kind. */
  lemma DirectoryListsIff(utf8: Dir.Utf8, crc: Crc, infos: seq<Info>, l: Layout, image: seq<Byte>, i: nat)
    requires Ready(utf8, crc, infos, l, image, i) && infos[i].node.isDir && NidsBelow(infos)
    ensures ListAt(utf8, image, l.super, infos[i].nid).Got? <==> PlainKind(infos[i].node)
  {
    hide WellLaid, AreaGood, DataGood, SuperGood, Small, NodeAt, DataAt, Dir.ListBlocks, Find;
    DirectoryKindIff(infos[i].node);
    NodeReads(utf8, crc, infos, l, image, i);
    if PlainKind(infos[i].node) {
      var ds := ListingReads(utf8, crc, infos, l, image, i);
    }
  }

  /** An empty directory with a block device's mode. */
  const DEVICE_DIRECTORY: Node := Node([], 0, 0x6000, 0, 0, 0, 0, true, false, 0, [], [], [])

  /** The writer accepts it, and no image made from it lists it. */
  lemma DeviceDirectory(utf8: Dir.Utf8, crc: Crc, l: Layout, image: seq<Byte>)
    requires utf8(DOT) && utf8(DOT_DOT)
    ensures Acceptable(utf8, Inodes(DEVICE_DIRECTORY))
    ensures Planned(utf8, Inodes(DEVICE_DIRECTORY), l) && SuperGood(Inodes(DEVICE_DIRECTORY), l)
            && WellLaid(crc, l, image)
            ==> ListAt(utf8, image, l.super, l.super.rootNid).Bad?
  {
    hide WellLaid, AreaGood, DataGood, DataAt, Dir.ListBlocks, InodeAt, Pack, CompactFields, SlotsOf, CountOf;
    var t := DEVICE_DIRECTORY;
    var infos := Inodes(t);
    assert infos == [Info(t, 0, 0, [])];
    AutomaticNumbersClear(t);
    if Planned(utf8, infos, l) && SuperGood(infos, l) && WellLaid(crc, l, image) {
      var p := l.plans[0];
      assert PlanGood(utf8, infos, l, 0);
      SlotHeld(crc, l, image, 0);
      SlotLength(p);
      var b := HeaderBytes(p);
      SubSlice(image, BLOCK, BLOCK + |SlotBytes(p)|, BLOCK, BLOCK + |b|);
      assert SlotBytes(p)[0..|b|] == b;
      CompactMode(image, BLOCK, InodeOf(p));
    }
  }

  lemma ListedBelow(infos: seq<Info>, n: Info, ds: seq<Dir.Dirent>)
    requires IsListing(infos, n, ds) && NidsBelow(infos) && n in infos
    ensures forall j | 0 <= j < |ds| :: ds[j].nid < 0x1_0000_0000_0000_0000
  {
    hide Find;
    forall j | 0 <= j < |ds|
      ensures ds[j].nid < 0x1_0000_0000_0000_0000
    {
      if j >= 2 {
        var k := j - 2;
        assert ds[2 + k] == EntryFor(Find(infos, n.nid, n.node.children[k].name).value);
      }
    }
  }

  // ----- reading the tree -----

  /** Everything the writer promises about an image. */
  ghost predicate Stored(utf8: Dir.Utf8, crc: Crc, root: Node, l: Layout, image: seq<Byte>) {
    && DistinctNids(Inodes(root)) && Planned(utf8, Inodes(root), l) && SuperGood(Inodes(root), l)
       && WellLaid(crc, l, image)
    && Ranged(root) && Small(l)
  }

  /** For a tree that reads back as it is. */
  ghost predicate Compiled(utf8: Dir.Utf8, crc: Crc, root: Node, l: Layout, image: seq<Byte>) {
    Stored(utf8, crc, root, l, image) && Legible(root) && NoTwins(root)
  }

  lemma StoredReady(utf8: Dir.Utf8, crc: Crc, root: Node, l: Layout, image: seq<Byte>, n: Info) returns (i: nat)
    requires Stored(utf8, crc, root, l, image) && n in Inodes(root)
    ensures Ready(utf8, crc, Inodes(root), l, image, i) && Inodes(root)[i] == n && Ranged(n.node)
  {
    hide Visited, PlanGood, WellLaid, SuperGood, Small, DistinctNids, InRange;
    RangedBelow(root, 0, [], 0, true);
    i :| 0 <= i < |Inodes(root)| && Inodes(root)[i] == n;
  }

  lemma CompiledReady(utf8: Dir.Utf8, crc: Crc, root: Node, l: Layout, image: seq<Byte>, n: Info) returns (i: nat)
    requires Compiled(utf8, crc, root, l, image) && n in Inodes(root)
    ensures Ready(utf8, crc, Inodes(root), l, image, i) && Inodes(root)[i] == n
    ensures Ranged(n.node) && Legible(n.node) && NoTwins(n.node)
  {
    hide Visited, Stored, Ready, Ranged, Legible, NoTwins;
    i := StoredReady(utf8, crc, root, l, image, n);
    LegibleBelow(root, 0, [], 0, true);
  }

  lemma StoredBelow(utf8: Dir.Utf8, crc: Crc, root: Node, l: Layout, image: seq<Byte>)
    requires Stored(utf8, crc, root, l, image)
    ensures NidsBelow(Inodes(root))
  {
    hide Visited, Planned, WellLaid, SuperGood, DistinctNids, Ranged;
    var infos := Inodes(root);
    forall a | a in infos
      ensures a.nid < 0x1_0000_0000_0000_0000
    {
      OneBelow(utf8, crc, root, l, image, a);
    }
    VisitedParents(root, 0, [], 0, true);
    forall a | a in infos
      ensures a.parent < 0x1_0000_0000_0000_0000
    {
      if a != infos[0] {
        var p :| p in infos && Child(p, a);
      }
    }
  }

  lemma OneBelow(utf8: Dir.Utf8, crc: Crc, root: Node, l: Layout, image: seq<Byte>, a: Info)
    requires Stored(utf8, crc, root, l, image) && a in Inodes(root)
    ensures a.nid < 0x1_0000_0000_0000_0000
  {
    hide Visited, WellLaid, SuperGood, DistinctNids, Ranged, AreaGood, DataGood;
    var i :| 0 <= i < |Inodes(root)| && Inodes(root)[i] == a;
    assert PlanGood(utf8, Inodes(root), l, i);
    SlotHeld(crc, l, image, i);
  }

  /** The inode found for a child is that of the first child with its name. */
  lemma ListedChild(root: Node, n: Info, ds: seq<Dir.Dirent>, k: nat) returns (a: Info)
    requires DistinctNids(Inodes(root)) && n in Inodes(root) && n.node.isDir && k < |n.node.children|
    requires IsListing(Inodes(root), n, ds) && forall j | 0 <= j < |ds| :: ds[j].name != []
    ensures a in Inodes(root) && a.parent == n.nid && ds[2 + k] == EntryFor(a) && a.name == n.node.children[k].name
    ensures a.node == n.node.children[FirstAt(n.node.children, a.name)]
  {
    hide Visited, Find, DistinctNids;
    var c := n.node.children[k];
    a := Find(Inodes(root), n.nid, c.name).value;
    assert ds[2 + k].name == c.name;
    FoundIn(root, 0, [], 0, true, n, c.name);
  }

  lemma NamesNotEmpty(utf8: Dir.Utf8, ds: seq<Dir.Dirent>)
    requires Dir.GoodNames(utf8, ds)
    ensures forall i | 0 <= i < |ds| :: ds[i].name != []
  {
  }

  /** What an inode shows of a node but for its children. */
  ghost predicate ShowsOwn(image: seq<Byte>, s: Super, nid: nat, t: Node) {
    var i := NodeAt(image, s, nid);
    && i.Got? && i.value.mode == ModeOf(t) && i.value.uid == t.uid && i.value.gid == t.gid
    && i.value.nlink == LinksOf(t) && i.value.ino == Low32(nid) && i.value.mtime == MtimeOf(t) && i.value.nsec == 0
    && (!t.isDir ==>
          && i.value.size == (if Special(t) then 0 else t.size) && DataAt(image, s, nid, i.value) == Got(Streamed(t))
          && (Kind(ModeOf(t)) in {K_CHR, K_BLK} ==> i.value.raw == t.rdev))
  }

  lemma OwnShows(utf8: Dir.Utf8, crc: Crc, infos: seq<Info>, l: Layout, image: seq<Byte>, i: nat)
    requires Ready(utf8, crc, infos, l, image, i)
    ensures ShowsOwn(image, l.super, infos[i].nid, infos[i].node)
  {
    hide WellLaid, SuperGood, Small, NodeAt, DataAt, AreaGood, InRange, Fits;
    NodeReads(utf8, crc, infos, l, image, i);
    PlanIs(utf8, infos, l, i);
    if !infos[i].node.isDir {
      DataReads(utf8, crc, infos, l, image, i);
    }
  }

  lemma ResolvedOwn(image: seq<Byte>, s: Super, nid: nat, t: Node)
    requires ShowsOwn(image, s, nid, t)
    ensures ShowsOwn(image, s, nid, Resolved(t)) && Resolved(t).isDir == t.isDir && Resolved(t).attrs == t.attrs
    ensures PlainKind(Resolved(t)) == PlainKind(t) && FileTypeOf(Resolved(t)) == FileTypeOf(t)
    ensures Resolved(t).name == t.name && |Resolved(t).children| == |t.children|
  {
    hide NodeAt, DataAt;
  }

  /** An inode and its directory. */
  lemma ShowsIs(utf8: Dir.Utf8, image: seq<Byte>, s: Super, nid: nat, parent: nat, t: Node)
    ensures Shows(utf8, image, s, nid, parent, t) <==>
            && ShowsOwn(image, s, nid, t) && AttrsAt(image, s, nid) == Got(Xattr.MapOf(t.attrs))
            && (t.isDir ==>
                  var ds := ListAt(utf8, image, s, nid);
                  ds.Got? && ShowsListing(utf8, image, s, nid, parent, t, ds.value))
  {
    hide NodeAt, DataAt, AttrsAt, ListAt, ModeOf, MtimeOf, Special, Streamed;
  }

  ghost predicate ShowsListing(utf8: Dir.Utf8, image: seq<Byte>, s: Super, nid: nat, parent: nat, t: Node,
                               ds: seq<Dir.Dirent>) {
    && |ds| == 2 + |t.children|
    && ds[0] == Dir.Dirent(nid, DOT, FT_DIR) && ds[1] == Dir.Dirent(parent, DOT_DOT, FT_DIR)
    && forall k | 0 <= k < |t.children| ::
         && ds[2 + k].name == t.children[k].name && ds[2 + k].fileType == FileTypeOf(t.children[k])
         && Shows(utf8, image, s, ds[2 + k].nid, nid, t.children[k])
  }

  /** Every inode of the image shows the subtree its number finds if and only if that subtree is legible. */
  lemma {:induction false} NodeShowsIff(utf8: Dir.Utf8, crc: Crc, root: Node, l: Layout, image: seq<Byte>, n: Info)
    requires Stored(utf8, crc, root, l, image) && n in Inodes(root)
    ensures Shows(utf8, image, l.super, n.nid, n.parent, Resolved(n.node)) <==> Legible(Resolved(n.node))
    decreases n.node
  {
    hide Visited, Stored, NodeAt, DataAt, ListAt, AttrsAt, Inodes, InRange, ShowsOwn, Ready, AllVisible, Shows,
        Xattr.MapOf, FileTypeOf, Find, PlainKind, Dir.GoodNames;
    var i := StoredReady(utf8, crc, root, l, image, n);
    OwnShows(utf8, crc, Inodes(root), l, image, i);
    ResolvedOwn(image, l.super, n.nid, n.node);
    AttrsReadIff(utf8, crc, Inodes(root), l, image, i);
    ShowsIs(utf8, image, l.super, n.nid, n.parent, Resolved(n.node));
    SameVisible(n.node);
    if n.node.isDir {
      DirectoryShowsIff(utf8, crc, root, l, image, n, i);
    }
  }

  lemma SameVisible(t: Node)
    ensures AllVisible(Resolved(t)) <==> AllVisible(t)
  {
  }

  lemma {:induction false} DirectoryShowsIff(utf8: Dir.Utf8, crc: Crc, root: Node, l: Layout, image: seq<Byte>, n: Info,
                                             i: nat)
    requires Stored(utf8, crc, root, l, image) && n in Inodes(root) && n.node.isDir
    requires Ready(utf8, crc, Inodes(root), l, image, i) && Inodes(root)[i] == n
    ensures var t, ds := Resolved(n.node), ListAt(utf8, image, l.super, n.nid);
            ds.Got? && ShowsListing(utf8, image, l.super, n.nid, n.parent, t, ds.value) <==>
            PlainKind(n.node) && forall k | 0 <= k < |t.children| :: Legible(t.children[k])
    decreases n.node, 0
  {
    hide Visited, Stored, NodeAt, DataAt, ListAt, AttrsAt, Inodes, InRange, ShowsOwn, Ready, AllVisible, Shows,
        Xattr.MapOf, Find, PlainKind, Dir.GoodNames, Legible;
    StoredBelow(utf8, crc, root, l, image);
    DirectoryListsIff(utf8, crc, Inodes(root), l, image, i);
    if PlainKind(n.node) {
      var ds := ListingReads(utf8, crc, Inodes(root), l, image, i);
      var t := Resolved(n.node);
      NamesNotEmpty(utf8, ds);
      DistinctStored(utf8, crc, root, l, image);
      forall k | 0 <= k < |t.children|
        ensures ds[2 + k].name == t.children[k].name && ds[2 + k].fileType == FileTypeOf(t.children[k])
        ensures Shows(utf8, image, l.super, ds[2 + k].nid, n.nid, t.children[k]) <==> Legible(t.children[k])
      {
        var a := ListedChild(root, n, ds, k);
        ResolvedKind(a.node);
        NodeShowsIff(utf8, crc, root, l, image, a);
      }
    }
  }

  lemma ResolvedKind(t: Node)
    ensures FileTypeOf(Resolved(t)) == FileTypeOf(t) && Resolved(t).name == t.name
  {
  }

  lemma DistinctStored(utf8: Dir.Utf8, crc: Crc, root: Node, l: Layout, image: seq<Byte>)
    requires Stored(utf8, crc, root, l, image)
    ensures DistinctNids(Inodes(root))
  {
    hide Visited, Planned, WellLaid;
  }

  lemma PlanIs(utf8: Dir.Utf8, infos: seq<Info>, l: Layout, i: nat)
    requires i < |infos| == |l.plans| && PlanGood(utf8, infos, l, i)
    ensures l.plans[i].info == infos[i] && (!infos[i].node.isDir ==> l.plans[i].data == Streamed(infos[i].node))
  {
  }

  // ----- siblings of the same name -----

  ghost predicate LooksSameOwn(t: Node, u: Node) {
    && ModeOf(t) == ModeOf(u) && t.uid == u.uid && t.gid == u.gid && t.isDir == u.isDir && MtimeOf(t) == MtimeOf(u)
    && Xattr.MapOf(t.attrs) == Xattr.MapOf(u.attrs)
    && (!t.isDir ==>
          && (if Special(t) then 0 else t.size) == (if Special(u) then 0 else u.size) && Streamed(t) == Streamed(u)
          && (Kind(ModeOf(t)) in {K_CHR, K_BLK} ==> t.rdev == u.rdev))
  }

  /** Nothing a reader sees tells the trees apart. */
  ghost predicate LooksSame(t: Node, u: Node)
    decreases t
  {
    && LooksSameOwn(t, u)
    && (t.isDir ==>
          && |t.children| == |u.children|
          && forall k | 0 <= k < |t.children| ::
               && t.children[k].name == u.children[k].name && FileTypeOf(t.children[k]) == FileTypeOf(u.children[k])
               && LooksSame(t.children[k], u.children[k]))
  }

  lemma OwnLook(image: seq<Byte>, s: Super, nid: nat, t: Node, u: Node)
    requires ShowsOwn(image, s, nid, t) && AttrsAt(image, s, nid) == Got(Xattr.MapOf(t.attrs))
    ensures ShowsOwn(image, s, nid, u) && AttrsAt(image, s, nid) == Got(Xattr.MapOf(u.attrs)) <==> LooksSameOwn(t, u)
  {
    hide NodeAt, DataAt, AttrsAt, ModeOf, MtimeOf, Special, Streamed, Xattr.MapOf;
  }

  /** An inode that shows one tree shows another if and only if they look the same. */
  lemma {:induction false} SameLook(utf8: Dir.Utf8, image: seq<Byte>, s: Super, nid: nat, parent: nat, t: Node, u: Node)
    requires Shows(utf8, image, s, nid, parent, t)
    ensures Shows(utf8, image, s, nid, parent, u) <==> LooksSame(t, u)
    decreases t
  {
    hide Shows, ShowsOwn, LooksSameOwn, AttrsAt, ListAt, Xattr.MapOf, FileTypeOf;
    ShowsIs(utf8, image, s, nid, parent, t);
    ShowsIs(utf8, image, s, nid, parent, u);
    OwnLook(image, s, nid, t, u);
    if LooksSameOwn(t, u) {
      SameKind(t, u);
      if t.isDir && |t.children| == |u.children| {
        var ds := ListAt(utf8, image, s, nid).value;
        forall k | 0 <= k < |t.children|
          ensures Shows(utf8, image, s, ds[2 + k].nid, nid, u.children[k]) <==> LooksSame(t.children[k], u.children[k])
        {
          SameLook(utf8, image, s, ds[2 + k].nid, nid, t.children[k], u.children[k]);
        }
      }
    }
  }

  lemma SameKind(t: Node, u: Node)
    requires LooksSameOwn(t, u)
    ensures t.isDir == u.isDir
  {
  }

  const TWIN: Node := Node([97], 0, 0, 0, 0, 0, 0, false, false, 0, [], [], [])

  /** A directory with two empty files of the same name and different owners. */
  const TWINS: Node := Node([], 0, 0, 0, 0, 0, 0, true, false, 0, [], [], [TWIN, TWIN.(uid := 1)])

  lemma TwinInodes()
    ensures Inodes(TWINS) == [Info(TWINS, 0, 0, []), Info(TWIN, 8, 0, [97]), Info(TWIN.(uid := 1), 16, 0, [97])]
  {
    var other := TWIN.(uid := 1);
    assert [TWIN, other][1..] == [other] && [other][1..] == [];
    VisitedLeaf(TWIN, 8);
    VisitedLeaf(other, 16);
    var both := [TWIN, other];
    assert VisitedAll([other], 0, 16) == ([Info(other, 16, 0, [97])], 24);
    assert both[1..] == [other] && both[0] == TWIN;
    assert VisitedAll(both, 0, 8) == ([Info(TWIN, 8, 0, [97])] + VisitedAll([other], 0, 16).0, 24);
  }

  lemma VisitedLeaf(t: Node, auto: nat)
    requires !t.isDir && t.ino == 0
    ensures Visited(t, 0, t.name, auto, false) == ([Info(t, auto, 0, t.name)], auto + STRIDE)
  {
    assert Visited(t, 0, t.name, auto, false).0 == [Info(t, auto, 0, t.name)];
  }

  lemma TwinsAccepted(utf8: Dir.Utf8)
    requires utf8(DOT) && utf8(DOT_DOT) && utf8([97])
    ensures Acceptable(utf8, Inodes(TWINS)) && Ranged(TWINS)
  {
    hide Visited, Overlapping, Distinct, Find;
    TwinInodes();
    var other := TWIN.(uid := 1);
    assert [TWIN, other][1..] == [other] && [other][1..] == [];
    assert Unnumbered(other) && AllUnnumbered([other]) && AllUnnumbered([TWIN, other]);
    AutomaticNumbersClear(TWINS);
  }

  lemma TwinsDiffer()
    ensures Legible(Resolved(TWINS)) && !LooksSame(Resolved(TWINS), TWINS)
  {
    hide Resolved;
    var found := Resolved(TWINS);
    ResolvedChild(TWINS, 0);
    ResolvedChild(TWINS, 1);
    assert FirstAt(TWINS.children, TWINS.children[0].name) == 0;
    assert FirstAt(TWINS.children, TWINS.children[1].name) == 0;
    ResolvedLeaf(TWIN);
    assert found.children[0] == TWIN && found.children[1] == TWIN;
    assert !LooksSameOwn(found.children[1], TWINS.children[1]);
  }

  lemma ResolvedLeaf(t: Node)
    requires !t.isDir
    ensures Resolved(t) == t
  {
  }

  lemma ResolvedChild(t: Node, k: nat)
    requires t.isDir && k < |t.children|
    ensures Resolved(t) == t.(children := Resolved(t).children) && |Resolved(t).children| == |t.children|
    ensures Resolved(t).children[k] == Resolved(t.children[FirstAt(t.children, t.children[k].name)])
  {
  }

  /** The writer accepts it, and no image made from it shows it: both entries lead to the first. */
  lemma TwinsShowFirst(utf8: Dir.Utf8, crc: Crc, l: Layout, image: seq<Byte>)
    requires utf8(DOT) && utf8(DOT_DOT) && utf8([97])
    ensures Acceptable(utf8, Inodes(TWINS)) && Ranged(TWINS)
    ensures Stored(utf8, crc, TWINS, l, image) ==> !Shows(utf8, image, l.super, l.super.rootNid, 0, TWINS)
  {
    hide Shows, Stored, Acceptable, Ranged, Legible, LooksSame, Resolved, Inodes, NoTwins;
    TwinsAccepted(utf8);
    TwinsDiffer();
    if Stored(utf8, crc, TWINS, l, image) {
      ImageShowsIff(utf8, crc, TWINS, l, image);
    }
  }

  /** Exactly what the image shows: the tree with the first of each name, if that is legible; the tree itself, if it
      looks the same; and without siblings of the same name the tree itself if and only if it is legible. */
  ghost predicate ShownExactly(utf8: Dir.Utf8, image: seq<Byte>, s: Super, root: Node) {
    var found := Resolved(root);
    && (Shows(utf8, image, s, s.rootNid, 0, found) <==> Legible(found))
    && (Legible(found) ==> (Shows(utf8, image, s, s.rootNid, 0, root) <==> LooksSame(found, root)))
    && (NoTwins(root) ==> (Shows(utf8, image, s, s.rootNid, 0, root) <==> Legible(root)))
  }

  /** An image reads back: its superblock, and from its root the whole tree. */
  lemma ImageShowsIff(utf8: Dir.Utf8, crc: Crc, root: Node, l: Layout, image: seq<Byte>)
    requires Stored(utf8, crc, root, l, image)
    ensures ReadSuper(crc, image) == Ok(l.super) && ShownExactly(utf8, image, l.super, root)
  {
    hide Visited, Planned, WellLaid, Small, DistinctNids, Ranged, Legible, NoTwins, LooksSame, Shows, ReadSuper,
        SuperBytes, Resolved;
    VisitedParents(root, 0, [], 0, true);
    var n := Inodes(root)[0];
    NodeShowsIff(utf8, crc, root, l, image, n);
    if Legible(Resolved(root)) {
      SameLook(utf8, image, l.super, l.super.rootNid, 0, Resolved(root), root);
    }
    if NoTwins(root) {
      NoTwinsResolved(root);
    }
    SuperHeld(crc, l, image);
    StoredBelow(utf8, crc, root, l, image);
    SuperInRange(utf8, crc, root, l, image);
    SuperReads(crc, image, l.super);
  }

  lemma SuperInRange(utf8: Dir.Utf8, crc: Crc, root: Node, l: Layout, image: seq<Byte>)
    requires Stored(utf8, crc, root, l, image) && NidsBelow(Inodes(root))
    ensures SuperFits(l.super)
  {
    hide Visited, WellLaid, DistinctNids, Ranged, PlanGood;
    assert Inodes(root)[0] in Inodes(root);
  }

  /** Compile a tree. It compiles exactly when the writer accepts it, and what comes out reads back as the tree. */
  method Compile(crc: Crc, utf8: Dir.Utf8, root: Node) returns (r: Step<seq<Byte>>, ghost l: Layout)
    ensures r.Next? <==> Acceptable(utf8, Inodes(root))
    ensures r.Next? ==> WellLaid(crc, l, r.value)
    ensures r.Next? && Ranged(root) && Small(l) ==>
              ReadSuper(crc, r.value) == Ok(l.super) && ShownExactly(utf8, r.value, l.super, root)
    ensures r.Refused? ==> Justified(utf8, Inodes(root), r.error)
  {
    hide Visited, Planned, SuperGood, WellLaid, Small, Ranged, ShownExactly, ReadSuper, Justified, Acceptable;
    r, l := WriteImage(crc, utf8, root);
    if r.Next? && Ranged(root) && Small(l) {
      ImageShowsIff(utf8, crc, root, l, r.value);
    }
  }
}
