/** The image writer, pass by pass. */
module ErofsWriter {
  import opened Bytes
  import opened BigEndian
  import opened ErofsInode
  import opened ErofsLayout
  import opened ErofsTree
  import opened XattrPlan
  import opened ErofsImage
  import opened Options
  import Dir = ErofsDir
  import Xattr
  import XattrSpill

  datatype Refusal = BadAttrs(cause: PlanError) | DuplicateNid | OverlappingSlots | ChildMissing
    | BadDirectory(reason: Dir.Error) | SizeMismatch

  datatype Step<+T> = Next(value: T) | Refused(error: Refusal)

  // ----- attributes -----

  ghost predicate AreaSpells(t: Node, area: seq<Byte>, table: seq<Byte>, s: Split, ids: seq<nat>) {
    && SplitOf(t.attrs, s) && SplitFits(s, HeaderOf(t)) && SharedBy(table, ids, s.shared)
    && |ids| <= 255 && area == AreaOf(ids, s.inline)
  }

  /** The area and the table hold the node's attributes between them. */
  ghost predicate AreaGood(t: Node, area: seq<Byte>, table: seq<Byte>) {
    exists s, ids :: AreaSpells(t, area, table, s, ids)
  }

  /** An attribute cannot be encoded, or the attributes cannot be divided so that the inode fits its slots. */
  ghost predicate AttrsRefused(t: Node) {
    || !Xattr.AllEncodable(t.attrs)
    || (t.attrs != [] && forall sizes, spilled | Sized(t.attrs, sizes) && spilled <= XattrSpill.All(sizes) ::
          !XattrSpill.FitsWith(sizes, ROOM - HeaderOf(t), spilled))
  }

  /** A division of a node's attributes as the writer makes it. */
  ghost predicate SplitGood(t: Node, s: Split) {
    SplitOf(t.attrs, s) && SplitFits(s, HeaderOf(t)) && Xattr.AllEncodable(s.inline)
    && Needs(t.attrs, HeaderOf(t), AreaBytes(s))
  }

  lemma Granted(t: Node, s: Split)
    requires SplitGood(t, s)
    ensures !AttrsRefused(t)
  {
    hide XattrSpill.FitsWith, Xattr.Encodable, SplitOf, SplitFits;
    if t.attrs != [] {
      var sizes, spilled :| NeedsWith(t.attrs, HeaderOf(t), AreaBytes(s), sizes, spilled);
    }
  }

  /** Divide one node's attributes. */
  method SplitOne(t: Node) returns (r: Step<Split>)
    ensures r.Next? ==> SplitGood(t, r.value) && !AttrsRefused(t)
    ensures r.Refused? ==> r.error.BadAttrs? && AttrsRefused(t)
  {
    hide SplitOf, Xattr.Encodable, XattrSpill.FitsWith, Needs;
    var s := SplitAttrs(t.attrs, HeaderOf(t));
    if s.Failed? {
      return Refused(BadAttrs(s.error));
    }
    Granted(t, s.value);
    r := Next(s.value);
  }

  method SplitEach(infos: seq<Info>) returns (r: Step<seq<Split>>)
    ensures r.Next? ==> |r.value| == |infos| && forall i | 0 <= i < |infos| :: SplitGood(infos[i].node, r.value[i])
    ensures r.Next? ==> forall i | 0 <= i < |infos| :: !AttrsRefused(infos[i].node)
    ensures r.Refused? ==> r.error.BadAttrs? && exists i :: 0 <= i < |infos| && AttrsRefused(infos[i].node)
  {
    hide SplitGood, AttrsRefused;
    var splits, i := [], 0;
    while i < |infos|
      invariant 0 <= i <= |infos| && |splits| == i
      invariant forall j | 0 <= j < i :: SplitGood(infos[j].node, splits[j])
      invariant forall j | 0 <= j < i :: !AttrsRefused(infos[j].node)
    {
      var s := SplitOne(infos[i].node);
      if s.Refused? {
        return Refused(s.error);
      }
      splits := splits + [s.value];
      i := i + 1;
    }
    r := Next(splits);
  }

  /** The attribute areas of all inodes and the table they share. */
  method PlanAreas(infos: seq<Info>, splits: seq<Split>) returns (areas: seq<seq<Byte>>, table: seq<Byte>)
    requires |splits| == |infos| && forall i | 0 <= i < |infos| :: SplitGood(infos[i].node, splits[i])
    ensures |areas| == |infos| && forall i | 0 <= i < |infos| :: AreaGood(infos[i].node, areas[i], table)
    ensures forall i | 0 <= i < |infos| :: Needs(infos[i].node.attrs, HeaderOf(infos[i].node), |areas[i]|)
  {
    hide SplitOf, SharedBy, AreaOf, Needs;
    var ids;
    ids, table := ShareAll(splits);
    areas := [];
    var i := 0;
    while i < |infos|
      invariant 0 <= i <= |infos| && |areas| == i && forall j | 0 <= j < i :: AreaGood(infos[j].node, areas[j], table)
      invariant forall j | 0 <= j < i :: Needs(infos[j].node.attrs, HeaderOf(infos[j].node), |areas[j]|)
    {
      SharedLength(table, ids[i], splits[i].shared);
      AreaLength(ids[i], splits[i], HeaderOf(infos[i].node));
      var area := AreaOf(ids[i], splits[i].inline);
      assert AreaSpells(infos[i].node, area, table, splits[i], ids[i]);
      areas := areas + [area];
      i := i + 1;
    }
  }

  lemma SharedLength(table: seq<Byte>, ids: seq<nat>, shared: seq<Xattr.Attr>)
    requires SharedBy(table, ids, shared)
    ensures |ids| == |shared|
  {
  }

  /** An inode never outgrows the stride between automatic numbers. */
  lemma SlotsInStride(t: Node, area: seq<Byte>, table: seq<Byte>)
    requires AreaGood(t, area, table)
    ensures SlotsOf(t, area) <= STRIDE && |area| % 4 == 0 && |area| <= ROOM && (area == [] <==> t.attrs == [])
            && (area != []
             ==> |area| >= 12)
  {
    hide AreaOf, SharedBy, SplitFits;
    var s, ids :| AreaSpells(t, area, table, s, ids);
    SharedLength(table, ids, s.shared);
    AreaLength(ids, s, HeaderOf(t));
    SplitNone(t.attrs, s);
  }

  lemma SplitNone(attrs: seq<Xattr.Attr>, s: Split)
    requires SplitOf(attrs, s)
    ensures attrs == [] <==> s.shared == [] && s.inline == []
  {
    if attrs != [] {
      assert attrs[0] in attrs;
    }
    if s.shared != [] {
      assert s.shared[0] in s.shared;
    }
    if s.inline != [] {
      assert s.inline[0] in s.inline;
    }
  }

  // ----- data -----

  /** A directory's entries: itself, its parent, then the inode found for each child. */
  ghost predicate IsListing(infos: seq<Info>, n: Info, ds: seq<Dir.Dirent>) {
    && |ds| == 2 + |n.node.children| && ds[0] == Dir.Dirent(n.nid, DOT, FT_DIR)
       && ds[1] == Dir.Dirent(n.parent, DOT_DOT, FT_DIR)
    && forall k | 0 <= k < |n.node.children| ::
         var a := Find(infos, n.nid, n.node.children[k].name); a.Some? && ds[2 + k] == EntryFor(a.value)
  }

  ghost predicate ListsAs(utf8: Dir.Utf8, data: seq<Byte>, ds: seq<Dir.Dirent>) {
    && Dir.GoodNames(utf8, ds) && data != []
    && ((forall i | 0 <= i < |ds| :: ds[i].nid < 0x1_0000_0000_0000_0000) ==>
           Dir.ListBlocks(utf8, data, BLOCK) == Dir.Ok(ds))
  }

  /** What a file streams into its blocks. */
  function Streamed(t: Node): seq<Byte> {
    if Special(t) || t.metadataOnly || t.size == 0 then [] else t.content
  }

  ghost predicate DataGood(utf8: Dir.Utf8, infos: seq<Info>, n: Info, data: seq<Byte>) {
    if n.node.isDir then exists ds :: IsListing(infos, n, ds) && ListsAs(utf8, data, ds)
    else data == Streamed(n.node)
  }

  /** A name no entry can have, or that no block can hold. */
  predicate NameRefused(utf8: Dir.Utf8, name: seq<Byte>) {
    !Dir.GoodName(utf8, name) || Dir.ENTRY_SIZE + |name| > BLOCK
  }

  ghost predicate NamesRefused(utf8: Dir.Utf8, t: Node) {
    NameRefused(utf8, DOT) || NameRefused(utf8, DOT_DOT) || exists k ::
      0 <= k < |t.children| && NameRefused(utf8, t.children[k].name)
  }

  /** Entries that cannot be packed have a name that is refused. */
  lemma BadEntries(utf8: Dir.Utf8, infos: seq<Info>, n: Info, ds: seq<Dir.Dirent>)
    requires IsListing(infos, n, ds)
    requires !(Dir.GoodNames(utf8, ds) && forall i | 0 <= i < |ds| :: Dir.ENTRY_SIZE + |ds[i].name| <= BLOCK)
    ensures NamesRefused(utf8, n.node)
  {
    hide Find, Dir.GoodName;
    var i :| 0 <= i < |ds| && NameRefused(utf8, ds[i].name);
    if i >= 2 {
      assert ds[2 + (i - 2)].name == n.node.children[i - 2].name;
    }
  }

  /** And entries that can be packed have none. */
  lemma GoodEntries(utf8: Dir.Utf8, infos: seq<Info>, n: Info, ds: seq<Dir.Dirent>)
    requires IsListing(infos, n, ds)
    requires Dir.GoodNames(utf8, ds) && forall i | 0 <= i < |ds| :: Dir.ENTRY_SIZE + |ds[i].name| <= BLOCK
    ensures !NamesRefused(utf8, n.node)
  {
    hide Find, Dir.GoodName;
    forall k | 0 <= k < |n.node.children|
      ensures !NameRefused(utf8, n.node.children[k].name)
    {
      assert ds[2 + k].name == n.node.children[k].name;
    }
    assert ds[0].name == DOT && ds[1].name == DOT_DOT;
  }

  ghost predicate ChildLost(infos: seq<Info>, n: Info) {
    exists k :: 0 <= k < |n.node.children| && Find(infos, n.nid, n.node.children[k].name).None?
  }

  method PlanDirectory(utf8: Dir.Utf8, infos: seq<Info>, n: Info) returns (r: Step<seq<Byte>>)
    requires n.node.isDir
    ensures r.Next? ==> DataGood(utf8, infos, n, r.value) && !NamesRefused(utf8, n.node)
    ensures r.Refused? ==>
              (r.error.ChildMissing? && ChildLost(infos, n)) || (r.error.BadDirectory? && NamesRefused(utf8, n.node))
  {
    hide Find, Dir.ListBlocks, Dir.GoodNames, NamesRefused;
    var ds := DirectoryEntries(infos, n);
    if ds.None? {
      return Refused(ChildMissing);
    }
    var data := Dir.BuildDirectoryData(utf8, ds.value, BLOCK);
    assert IsListing(infos, n, ds.value);
    if data.Err? {
      BadEntries(utf8, infos, n, ds.value);
      return Refused(BadDirectory(data.error));
    }
    GoodEntries(utf8, infos, n, ds.value);
    Widths();
    ghost var m: nat :| m > 0 && |data.value| == Start(BLOCK, m);
    StartMonotone(BLOCK, 0, m);
    assert ListsAs(utf8, data.value, ds.value);
    r := Next(data.value);
  }

  ghost predicate Unlistable(utf8: Dir.Utf8, infos: seq<Info>) {
    exists i :: 0 <= i < |infos| && infos[i].node.isDir && NamesRefused(utf8, infos[i].node)
  }

  method PlanData(utf8: Dir.Utf8, infos: seq<Info>) returns (r: Step<seq<seq<Byte>>>)
    ensures r.Next? ==> |r.value| == |infos| && forall i | 0 <= i < |infos| ::
              DataGood(utf8, infos, infos[i], r.value[i])
    ensures r.Next? ==> !Unlistable(utf8, infos)
    ensures r.Refused? ==> r.error.ChildMissing? || r.error.BadDirectory?
    ensures r.Refused? && r.error.ChildMissing? ==>
              exists i :: 0 <= i < |infos| && infos[i].node.isDir && ChildLost(infos, infos[i])
    ensures r.Refused? && r.error.BadDirectory? ==> Unlistable(utf8, infos)
  {
    hide IsListing, ListsAs, Find, NamesRefused, ChildLost;
    var datas, i := [], 0;
    while i < |infos|
      invariant 0 <= i <= |infos| && |datas| == i && forall j | 0 <= j < i :: DataGood(utf8, infos, infos[j], datas[j])
      invariant forall j | 0 <= j < i :: infos[j].node.isDir ==> !NamesRefused(utf8, infos[j].node)
    {
      if infos[i].node.isDir {
        var data := PlanDirectory(utf8, infos, infos[i]);
        if data.Refused? {
          return Refused(data.error);
        }
        datas := datas + [data.value];
      } else {
        datas := datas + [Streamed(infos[i].node)];
      }
      i := i + 1;
    }
    r := Next(datas);
  }

  /** Whether a file streams another number of bytes than its size says. */
  predicate Mismatched(t: Node) {
    !t.isDir && !Special(t) && !t.metadataOnly && t.size > 0 && |t.content| != t.size
  }

  method FindMismatch(infos: seq<Info>) returns (found: bool)
    ensures found <==> exists i :: 0 <= i < |infos| && Mismatched(infos[i].node)
  {
    var i := 0;
    while i < |infos|
      invariant 0 <= i <= |infos| && forall j | 0 <= j < i :: !Mismatched(infos[j].node)
    {
      if Mismatched(infos[i].node) {
        return true;
      }
      i := i + 1;
    }
    found := false;
  }

  // ----- the whole image -----

  /** Inode `i` of the tree is planned as plan `i`. */
  ghost predicate PlanGood(utf8: Dir.Utf8, infos: seq<Info>, l: Layout, i: nat)
    requires i < |infos| == |l.plans|
  {
    var p := l.plans[i];
    && p.info == infos[i] && AreaGood(p.info.node, p.area, l.table) && DataGood(utf8, infos, infos[i], p.data)
    && !Mismatched(p.info.node) && (|p.data| > 0 ==> 1 <= p.blk && p.blk + Blocks(|p.data|) <= l.super.blocks)
  }

  ghost predicate Planned(utf8: Dir.Utf8, infos: seq<Info>, l: Layout) {
    |l.plans| == |infos| && forall i | 0 <= i < |infos| :: PlanGood(utf8, infos, l, i)
  }

  ghost predicate SuperGood(infos: seq<Info>, l: Layout) {
    && infos != [] && l.super.rootNid == infos[0].nid && l.super.inodes == |infos| && l.super.metaBlk == 1
       && l.super.blocks > 1
    && (l.super.xattrBlk == 0 <==> l.table == []) && l.super.xattrBlk < l.super.blocks
  }

  /** Every part is in the image, inside the declared blocks, and clear of every other part. */
  ghost predicate WellLaid(crc: Crc, l: Layout, image: seq<Byte>) {
    && AllApart(Patches(crc, l)) && Within(Patches(crc, l), 0, BLOCK * l.super.blocks)
    && forall i | 0 <= i < |Patches(crc, l)| :: Holds(image, Patches(crc, l)[i])
  }

  /** Hand out the blocks. */
  method LayOut(utf8: Dir.Utf8, crc: Crc, infos: seq<Info>, areas: seq<seq<Byte>>, table: seq<Byte>,
      datas: seq<seq<Byte>>) returns (l: Layout)
    requires infos != [] && |areas| == |infos| == |datas| && AllClear(Nids(infos), Counts(infos, areas))
    requires forall i | 0 <= i < |infos| ::
               AreaGood(infos[i].node, areas[i], table) && DataGood(utf8, infos, infos[i], datas[i])
               && !Mismatched(infos[i].node)
    ensures Planned(utf8, infos, l) && SuperGood(infos, l) && l.table == table
    ensures AllApart(Patches(crc, l)) && Within(Patches(crc, l), 0, BLOCK * l.super.blocks)
  {
    hide AreaGood, DataGood, Mismatched, AllClear, Placed, Patches, AllApart, Within, Blocks, SlotsOf;
    var nids, counts, lens, kinds := Nids(infos), Counts(infos, areas), Lengths(datas), Kinds(infos);
    var slots := MaxSlot(nids, counts);
    var inodes := 1 + Blocks(SLOT * slots);
    var afterTable := inodes + Blocks(|table|);
    var blks: seq<nat> := seq(|infos|, _ => 0);
    var dirs, files;
    blks, dirs := AssignBlocks(lens, kinds, true, blks, afterTable);
    ghost var first := blks;
    blks, files := AssignBlocks(lens, kinds, false, blks, dirs);
    KeepsPlaced(lens, kinds, first, blks, afterTable, dirs);
    PlacedRises(lens, kinds, true, blks, afterTable, dirs);
    PlacedRises(lens, kinds, false, blks, dirs, files);
    var plans := Plans(infos, areas, datas, blks);
    var super := Super(infos[0].nid, |infos|, files, 1, if table == [] then 0 else inodes);
    l := Layout(plans, table, super);
    SomeSlots(infos, areas, slots);
    assert table != [] ==> Blocks(|table|) > 0;
    PartsApart(crc, l, nids, counts, lens, kinds, blks, Ends(slots, inodes, afterTable, dirs, files));
    forall i | 0 <= i < |infos|
      ensures PlanGood(utf8, infos, l, i)
    {
      BlocksOf(lens, kinds, blks, afterTable, dirs, files, i);
    }
  }

  lemma KeepsPlaced(lens: seq<nat>, kinds: seq<bool>, first: seq<nat>, blks: seq<nat>, from: nat, to: nat)
    requires Placed(lens, kinds, true, first, from, to, |lens|) && |blks| == |lens|
    requires forall i | 0 <= i < |lens| && !Chosen(lens, kinds, false, i) :: blks[i] == first[i]
    ensures Placed(lens, kinds, true, blks, from, to, |lens|)
  {
    hide Blocks;
  }

  lemma SomeSlots(infos: seq<Info>, areas: seq<seq<Byte>>, slots: nat)
    requires infos != [] && |areas| == |infos| && forall i | 0 <= i < |infos| ::
               Nids(infos)[i] + Counts(infos, areas)[i] <= slots
    ensures slots > 0 && Blocks(SLOT * slots) > 0
  {
    assert Counts(infos, areas)[0] > 0;
  }

  lemma BlocksOf(lens: seq<nat>, kinds: seq<bool>, blks: seq<nat>, from: nat, mid: nat, to: nat, i: nat)
    requires i < |lens| == |kinds| == |blks| && Placed(lens, kinds, true, blks, from, mid, |lens|)
             && Placed(lens, kinds, false, blks, mid, to, |lens|)
    ensures lens[i] > 0 ==> from <= blks[i] && blks[i] + Blocks(lens[i]) <= to
  {
    hide Blocks;
    assert lens[i] > 0 ==> Chosen(lens, kinds, kinds[i], i);
  }

  lemma {:induction false} PatchesFull(plans: seq<Plan>, dirs: bool)
    ensures forall i | 0 <= i < |DataPatches(plans, dirs)| :: DataPatches(plans, dirs)[i].bytes != []
  {
    hide Padded;
    if plans != [] {
      PatchesFull(plans[..|plans| - 1], dirs);
    }
  }

  /** Write what was planned. */
  method WriteParts(crc: Crc, l: Layout) returns (image: seq<Byte>)
    requires AllApart(Patches(crc, l)) && Within(Patches(crc, l), 0, BLOCK * l.super.blocks)
    ensures WellLaid(crc, l, image)
  {
    hide AllApart, Within, Holds, SlotPatches, TablePatches, DataPatches, SuperPatch;
    var disk := new Disk();
    var sb, slots, table, dirs, files := [SuperPatch(crc, l.super)], SlotPatches(l.plans),
        TablePatches(l.table, l.super.xattrBlk), DataPatches(l.plans, true), DataPatches(l.plans, false);
    ghost var all := Patches(crc, l);
    assert all == sb + slots + table + dirs + files;
    ApartPrefix(sb + slots + table + dirs, files);
    ApartPrefix(sb + slots + table, dirs);
    ApartPrefix(sb + slots, table);
    ApartPrefix(sb, slots);
    PartsFull(crc, l);
    assert [] + sb == sb;
    disk.WriteAll(sb);
    disk.WriteAll(slots);
    disk.WriteAll(table);
    disk.WriteAll(dirs);
    disk.WriteAll(files);
    image := disk.bytes;
  }

  lemma PartsFull(crc: Crc, l: Layout)
    ensures forall i | 0 <= i < |SlotPatches(l.plans)| :: SlotPatches(l.plans)[i].bytes != []
    ensures forall i | 0 <= i < |TablePatches(l.table, l.super.xattrBlk)| ::
              TablePatches(l.table, l.super.xattrBlk)[i].bytes != []
    ensures forall i | 0 <= i < |DataPatches(l.plans, true)| :: DataPatches(l.plans, true)[i].bytes != []
    ensures forall i | 0 <= i < |DataPatches(l.plans, false)| :: DataPatches(l.plans, false)[i].bytes != []
    ensures SuperPatch(crc, l.super).bytes != []
  {
    hide SlotBytes, SuperBytes, DataPatches, Padded;
    PatchesFull(l.plans, true);
    PatchesFull(l.plans, false);
    SuperApart(crc, l.super);
    forall i | 0 <= i < |l.plans|
      ensures SlotPatches(l.plans)[i].bytes != []
    {
      SlotLength(l.plans[i]);
    }
  }

  /** A node's inode takes `n` slots. */
  ghost predicate Occupies(t: Node, n: nat) {
    exists bytes: nat :: Needs(t.attrs, HeaderOf(t), bytes) && n == (HeaderOf(t) + bytes + SLOT - 1) / SLOT
  }

  ghost predicate SlotCounts(infos: seq<Info>, counts: seq<nat>) {
    |counts| == |infos| && forall i | 0 <= i < |infos| :: Occupies(infos[i].node, counts[i])
  }

  /** Two inodes take the same slot. */
  ghost predicate Overlapping(infos: seq<Info>) {
    exists counts :: SlotCounts(infos, counts) && !AllClear(Nids(infos), counts)
  }

  lemma OneCount(t: Node, area: seq<Byte>)
    requires Needs(t.attrs, HeaderOf(t), |area|)
    ensures Occupies(t, SlotsOf(t, area)) && forall n | Occupies(t, n) :: n == SlotsOf(t, area)
  {
    hide Needs;
    assert Needs(t.attrs, HeaderOf(t), |area|) && SlotsOf(t, area) == (HeaderOf(t) + |area| + SLOT - 1) / SLOT;
    forall n | Occupies(t, n)
      ensures n == SlotsOf(t, area)
    {
      var bytes: nat :| Needs(t.attrs, HeaderOf(t), bytes) && n == (HeaderOf(t) + bytes + SLOT - 1) / SLOT;
      OneNeed(t.attrs, HeaderOf(t), bytes, |area|);
    }
  }

  /** The slots overlap exactly when those of the planned areas do. */
  lemma OverlappingIff(infos: seq<Info>, areas: seq<seq<Byte>>)
    requires |areas| == |infos|
    requires forall i | 0 <= i < |infos| :: Needs(infos[i].node.attrs, HeaderOf(infos[i].node), |areas[i]|)
    ensures Overlapping(infos) <==> !AllClear(Nids(infos), Counts(infos, areas))
  {
    hide Needs, Occupies, SlotsOf, AllClear;
    var mine := Counts(infos, areas);
    forall i | 0 <= i < |infos|
      ensures Occupies(infos[i].node, mine[i]) && forall n | Occupies(infos[i].node, n) :: n == mine[i]
    {
      OneCount(infos[i].node, areas[i]);
    }
    assert SlotCounts(infos, mine);
    forall counts | SlotCounts(infos, counts)
      ensures counts == mine
    {
    }
  }

  /** What a refusal says of the tree. No child is ever missing. */
  ghost predicate Justified(utf8: Dir.Utf8, infos: seq<Info>, e: Refusal) {
    match e
    case BadAttrs(_) => exists i :: 0 <= i < |infos| && AttrsRefused(infos[i].node)
    case DuplicateNid => !Distinct(Nids(infos))
    case OverlappingSlots => Distinct(Nids(infos)) && Overlapping(infos)
    case ChildMissing => false
    case BadDirectory(_) => Unlistable(utf8, infos)
    case SizeMismatch => exists i :: 0 <= i < |infos| && Mismatched(infos[i].node)
  }

  /** Everything the writer asks of a tree. */
  ghost predicate Acceptable(utf8: Dir.Utf8, infos: seq<Info>) {
    && (forall i | 0 <= i < |infos| :: !AttrsRefused(infos[i].node))
    && Distinct(Nids(infos)) && !Overlapping(infos) && !Unlistable(utf8, infos)
    && forall i | 0 <= i < |infos| :: !Mismatched(infos[i].node)
  }

  /** Compile a tree into an image exactly when it is acceptable, or say what is wrong with it. */
  method WriteImage(crc: Crc, utf8: Dir.Utf8, root: Node) returns (r: Step<seq<Byte>>, ghost l: Layout)
    ensures r.Next? ==> DistinctNids(Inodes(root)) && Planned(utf8, Inodes(root), l) && SuperGood(Inodes(root), l)
    ensures r.Next? ==> WellLaid(crc, l, r.value)
    ensures r.Next? <==> Acceptable(utf8, Inodes(root))
    ensures r.Refused? ==> Justified(utf8, Inodes(root), r.error)
  {
    hide SplitGood, Needs, AreaGood, DataGood, Planned, SuperGood, WellLaid, Patches, AllApart, Within, Visited, Counts,
        Find, Distinct, DistinctNids, Permutation, Rising, AllClear, Whole, HasParent, AttrsRefused, Unlistable,
            Mismatched, Overlapping, ChildLost;
    l := Layout([], [], Super(0, 0, 0, 0, 0));
    var c := new Collector();
    c.Visit(root, 0, []);
    var infos := c.nodes;
    assert infos == Inodes(root);
    VisitedParents(root, 0, [], 0, true);
    var splits := SplitEach(infos);
    if splits.Refused? {
      return Refused(splits.error), l;
    }
    var nids := Nids(infos);
    var order := SortByNid(nids);
    var twice := HasDuplicate(nids, order);
    if twice {
      return Refused(DuplicateNid), l;
    }
    NidsDistinct(infos);
    var areas, table := PlanAreas(infos, splits.value);
    var overlap := HasOverlap(nids, Counts(infos, areas), order);
    OverlappingIff(infos, areas);
    if overlap {
      return Refused(OverlappingSlots), l;
    }
    NoChildMissing(root);
    var datas := PlanData(utf8, infos);
    if datas.Refused? {
      return Refused(datas.error), l;
    }
    var wrong := FindMismatch(infos);
    if wrong {
      return Refused(SizeMismatch), l;
    }
    var layout := LayOut(utf8, crc, infos, areas, table, datas.value);
    var image := WriteParts(crc, layout);
    l := layout;
    r := Next(image);
  }

  lemma NidsDistinct(infos: seq<Info>)
    ensures |Nids(infos)| == |infos|
    ensures Distinct(Nids(infos)) <==> DistinctNids(infos)
  {
    assert forall i | 0 <= i < |infos| :: Nids(infos)[i] == infos[i].nid;
  }

  /** Two inode numbers less than a stride apart. */
  ghost predicate Near(nids: seq<nat>) {
    exists i, j :: 0 <= i < |nids| && 0 <= j < |nids| && nids[i] < nids[j] < nids[i] + STRIDE
  }

  /** Only inode numbers closer than the stride can collide. */
  lemma OverlapIsNear(infos: seq<Info>)
    requires Distinct(Nids(infos)) && Overlapping(infos)
    ensures Near(Nids(infos))
  {
    hide Occupies;
    var nids := Nids(infos);
    var counts :| SlotCounts(infos, counts) && !AllClear(nids, counts);
    var i, j :| 0 <= i < j < |nids| && !Clear(nids, counts, i, j);
    InStride(infos[i].node, counts[i]);
    InStride(infos[j].node, counts[j]);
    assert nids[i] < nids[j] < nids[i] + STRIDE || nids[j] < nids[i] < nids[j] + STRIDE;
  }

  lemma InStride(t: Node, n: nat)
    requires Occupies(t, n)
    ensures n <= STRIDE
  {
    hide XattrSpill.Taken;
    var bytes: nat :| Needs(t.attrs, HeaderOf(t), bytes) && n == (HeaderOf(t) + bytes + SLOT - 1) / SLOT;
    if t.attrs != [] {
      var sizes, s :| NeedsWith(t.attrs, HeaderOf(t), bytes, sizes, s);
    }
  }

  lemma NoChildMissing(root: Node)
    ensures var infos := Inodes(root); forall i | 0 <= i < |infos| && infos[i].node.isDir :: !ChildLost(infos, infos[i])
  {
    hide Visited, Find;
    VisitedParents(root, 0, [], 0, true);
    var infos := Inodes(root);
    forall i, k | 0 <= i < |infos| && infos[i].node.isDir && 0 <= k < |infos[i].node.children|
      ensures Find(infos, infos[i].nid, infos[i].node.children[k].name).Some?
    {
      assert infos[i] in infos && infos[i].node.children[k] in infos[i].node.children;
      assert HasChild(infos, infos[i].nid, infos[i].node.children[k]);
    }
  }

  // ----- automatic numbers -----

  /** No node of the tree asks for an inode number. */
  predicate Unnumbered(t: Node)
    decreases t
  {
    t.ino == 0 && (t.isDir ==> AllUnnumbered(t.children))
  }

  predicate AllUnnumbered(ts: seq<Node>)
    decreases ts
  {
    ts == [] || (Unnumbered(ts[0]) && AllUnnumbered(ts[1..]))
  }

  /** The numbers given out, from `auto` on, are a stride apart. */
  ghost predicate Strided(infos: seq<Info>, auto: nat, next: nat) {
    next == auto + STRIDE * |infos| && forall i | 0 <= i < |infos| :: infos[i].nid == auto + STRIDE * i
  }

  lemma StridedJoin(a: seq<Info>, b: seq<Info>, auto: nat, mid: nat, next: nat)
    requires Strided(a, auto, mid) && Strided(b, mid, next)
    ensures Strided(a + b, auto, next)
  {
    forall i | 0 <= i < |a + b|
      ensures (a + b)[i].nid == auto + STRIDE * i
    {
      if i >= |a| {
        assert (a + b)[i] == b[i - |a|];
      }
    }
  }

  lemma {:induction false} VisitedStrided(t: Node, parent: nat, name: seq<Byte>, auto: nat, first: bool)
    requires Unnumbered(t) && (first ==> auto == 0)
    ensures var v := Visited(t, parent, name, auto, first); Strided(v.0, auto, v.1)
    decreases t
  {
    var mine := [Info(t, auto, parent, name)];
    if t.isDir {
      AllStrided(t.children, auto, auto + STRIDE);
      var below := VisitedAll(t.children, auto, auto + STRIDE);
      StridedJoin(mine, below.0, auto, auto + STRIDE, below.1);
    }
  }

  lemma {:induction false} AllStrided(ts: seq<Node>, parent: nat, auto: nat)
    requires AllUnnumbered(ts)
    ensures var v := VisitedAll(ts, parent, auto); Strided(v.0, auto, v.1)
    decreases ts
  {
    if ts != [] {
      VisitedStrided(ts[0], parent, ts[0].name, auto, false);
      var one := Visited(ts[0], parent, ts[0].name, auto, false);
      AllStrided(ts[1..], parent, one.1);
      StridedJoin(one.0, VisitedAll(ts[1..], parent, one.1).0, auto, one.1, VisitedAll(ts, parent, auto).1);
    }
  }

  /** A tree that asks for no inode numbers is never refused for the ones it gets. */
  lemma AutomaticNumbersClear(root: Node)
    requires Unnumbered(root)
    ensures Distinct(Nids(Inodes(root))) && !Overlapping(Inodes(root))
  {
    hide Visited, Overlapping;
    var infos := Inodes(root);
    VisitedStrided(root, 0, [], 0, true);
    if Overlapping(infos) {
      OverlapIsNear(infos);
      assert false;
    }
  }
}
