/** Building an EROFS image: plan every inode, lay the image out, write it. */
module ErofsImage {
  import opened Bytes
  import opened ErofsInode
  import opened ErofsLayout
  import opened ErofsTree

  // ----- one inode -----

  /** An inode with its attribute area, the bytes of its blocks, and the first of them. */
  datatype Plan = Plan(info: Info, area: seq<Byte>, data: seq<Byte>, blk: nat)

  predicate Special(t: Node) {
    !t.isDir && Kind(ModeOf(t)) in {K_CHR, K_BLK, K_FIFO, K_SOCK}
  }

  function VersionOf(t: Node): (v: nat)
    ensures v <= 1
  {
    if t.size >= 0x1_0000_0000 || t.uid > 0xFFFF || t.gid > 0xFFFF then 1 else 0
  }

  function SizeOf(p: Plan): nat {
    if p.info.node.isDir then |p.data| else if Special(p.info.node) then 0 else p.info.node.size
  }

  function RawOf(p: Plan): nat {
    if Kind(ModeOf(p.info.node)) in {K_CHR, K_BLK} then p.info.node.rdev else if |p.data| > 0 then p.blk else 0
  }

  function CountOf(area: seq<Byte>): nat {
    if |area| < 8 then 0 else (|area| - 8) / 4
  }

  function LinksOf(t: Node): nat {
    if t.isDir then 2 else 1
  }

  /** A compact inode has no modification time. */
  function MtimeOf(t: Node): nat {
    if VersionOf(t) == 0 then 0 else t.mtime
  }

  function InodeOf(p: Plan): Inode {
    var t := p.info.node;
    Inode(VersionOf(t), 0, CountOf(p.area), ModeOf(t), LinksOf(t), SizeOf(p), RawOf(p), Low32(p.info.nid), t.uid, t.gid,
          MtimeOf(t), 0)
  }

  function HeaderBytes(p: Plan): seq<Byte> {
    Pack(InodeFields(InodeOf(p)))
  }

  function HeaderOf(t: Node): nat {
    HeaderSize(VersionOf(t))
  }

  /** The slots of an inode with this attribute area. */
  function SlotsOf(t: Node, area: seq<Byte>): (n: nat)
    ensures HeaderOf(t) + |area| <= SLOT * n && n > 0
  {
    (HeaderOf(t) + |area| + SLOT - 1) / SLOT
  }

  /** Header, attributes and padding. */
  function SlotBytes(p: Plan): seq<Byte> {
    HeaderBytes(p) + p.area + Zeros(SLOT * SlotsOf(p.info.node, p.area) - HeaderOf(p.info.node) - |p.area|)
  }

  lemma SlotLength(p: Plan)
    ensures |SlotBytes(p)| == SLOT * SlotsOf(p.info.node, p.area) && |HeaderBytes(p)| == HeaderOf(p.info.node)
  {
    hide Pack, InodeFields;
    HeaderLength(InodeOf(p));
  }

  // ----- the image's parts -----

  datatype Layout = Layout(plans: seq<Plan>, table: seq<Byte>, super: Super)

  function SlotPatch(p: Plan): Patch {
    Patch(BLOCK + SLOT * p.info.nid, SlotBytes(p))
  }

  function SlotPatches(plans: seq<Plan>): seq<Patch> {
    seq(|plans|, i requires 0 <= i < |plans| => SlotPatch(plans[i]))
  }

  /** Bytes padded to whole blocks. */
  function Padded(data: seq<Byte>): (b: seq<Byte>)
    ensures |b| == BLOCK * Blocks(|data|) && data <= b
  {
    data + Zeros(BLOCK * Blocks(|data|) - |data|)
  }

  function TablePatches(table: seq<Byte>, blk: nat): seq<Patch> {
    if table == [] then [] else [Patch(BLOCK * blk, Padded(table))]
  }

  function DataPatch(p: Plan): Patch {
    Patch(BLOCK * p.blk, Padded(p.data))
  }

  predicate HasData(p: Plan, dirs: bool) {
    p.info.node.isDir == dirs && |p.data| > 0
  }

  /** The blocks of the directories, or of the files. */
  function DataPatches(plans: seq<Plan>, dirs: bool): seq<Patch> {
    if plans == [] then [] else
    var last := plans[|plans| - 1];
    DataPatches(plans[..|plans| - 1], dirs) + if HasData(last, dirs) then [DataPatch(last)] else []
  }

  function SuperPatch(crc: Crc, s: Super): Patch {
    Patch(SUPER_OFFSET, SuperBytes(crc, s))
  }

  /** Everything the writer writes, in order. */
  function Patches(crc: Crc, l: Layout): seq<Patch> {
    [SuperPatch(crc, l.super)] + SlotPatches(l.plans) + TablePatches(l.table, l.super.xattrBlk) + DataPatches(l.plans,
        true) + DataPatches(l.plans, false)
  }

  // ----- the parts do not meet -----

  function Nids(infos: seq<Info>): seq<nat> {
    seq(|infos|, i requires 0 <= i < |infos| => infos[i].nid)
  }

  function Counts(infos: seq<Info>, areas: seq<seq<Byte>>): (counts: seq<nat>)
    requires |areas| == |infos|
    ensures |counts| == |infos|
  {
    seq(|infos|, i requires 0 <= i < |infos| => SlotsOf(infos[i].node, areas[i]))
  }

  function Plans(infos: seq<Info>, areas: seq<seq<Byte>>, datas: seq<seq<Byte>>, blks: seq<nat>): seq<Plan>
    requires |infos| == |areas| == |datas| == |blks|
  {
    seq(|infos|, i requires 0 <= i < |infos| => Plan(infos[i], areas[i], datas[i], blks[i]))
  }

  function Lengths(datas: seq<seq<Byte>>): seq<nat> {
    seq(|datas|, i requires 0 <= i < |datas| => |datas[i]|)
  }

  function Kinds(infos: seq<Info>): seq<bool> {
    seq(|infos|, i requires 0 <= i < |infos| => infos[i].node.isDir)
  }

  /** Inodes whose slots are clear of each other make patches that are, below `end` slots. */
  lemma SlotsApart(plans: seq<Plan>, nids: seq<nat>, counts: seq<nat>, end: nat, hi: nat)
    requires |plans| == |nids| && AllClear(nids, counts)
    requires forall i | 0 <= i < |plans| ::
               nids[i] == plans[i].info.nid && counts[i] == SlotsOf(plans[i].info.node, plans[i].area)
               && nids[i] + counts[i] <= end
    requires BLOCK + SLOT * end <= hi
    ensures AllApart(SlotPatches(plans)) && Within(SlotPatches(plans), BLOCK, hi)
  {
    hide SlotBytes, SlotsOf;
    var ps := SlotPatches(plans);
    forall i | 0 <= i < |ps|
      ensures |ps[i].bytes| == SLOT * counts[i] && ps[i].off == BLOCK + SLOT * nids[i]
    {
      SlotLength(plans[i]);
    }
    forall i, j | 0 <= i < j < |ps|
      ensures Apart(ps[i], ps[j])
    {
      assert Clear(nids, counts, i, j);
    }
  }

  lemma {:induction false} DataApart(plans: seq<Plan>, dirs: bool, lens: seq<nat>, kinds: seq<bool>, blks: seq<nat>,
                                     from: nat, to: nat, n: nat)
    requires n <= |plans| == |lens| == |kinds| == |blks| && Placed(lens, kinds, dirs, blks, from, to, |lens|)
    requires forall i | 0 <= i < |plans| ::
               lens[i] == |plans[i].data| && kinds[i] == plans[i].info.node.isDir && blks[i] == plans[i].blk
    ensures var ps := DataPatches(plans[..n], dirs);
            && AllApart(ps) && Within(ps, BLOCK * from, BLOCK * to)
            && forall j | n <= j < |plans| && HasData(plans[j], dirs) :: Within(ps, BLOCK * from, BLOCK * plans[j].blk)
    decreases n
  {
    hide Blocks, Padded;
    if n > 0 {
      DataApart(plans, dirs, lens, kinds, blks, from, to, n - 1);
      assert plans[..n][..n - 1] == plans[..n - 1];
      var last, before := plans[n - 1], DataPatches(plans[..n - 1], dirs);
      if HasData(last, dirs) {
        assert Chosen(lens, kinds, dirs, n - 1);
        var p := DataPatch(last);
        assert |p.bytes| == BLOCK * Blocks(lens[n - 1]) && p.off == BLOCK * blks[n - 1];
        ApartJoin(before, [p], BLOCK * from, BLOCK * last.blk, BLOCK * to);
        forall j | n <= j < |plans| && HasData(plans[j], dirs)
          ensures Within(before + [p], BLOCK * from, BLOCK * plans[j].blk)
        {
          assert Chosen(lens, kinds, dirs, j);
        }
      }
    }
  }

  lemma TableApart(table: seq<Byte>, blk: nat)
    ensures AllApart(TablePatches(table, blk))
            && Within(TablePatches(table, blk), BLOCK * blk, BLOCK * (blk + Blocks(|table|)))
  {
  }

  lemma SuperApart(crc: Crc, s: Super)
    ensures AllApart([SuperPatch(crc, s)]) && Within([SuperPatch(crc, s)], 0, BLOCK) && SuperBytes(crc, s) != []
  {
    hide Pack, SuperFields;
    SuperOffsets(s, Low32(crc(Pack(SuperFields(s, 0)))));
  }

  /** Where the parts end. */
  datatype Ends = Ends(slots: nat, inodes: nat, table: nat, dirs: nat, files: nat)

  /** Super block, inode slots, shared attributes, directory blocks and file blocks follow each other. */
  lemma PartsApart(crc: Crc, l: Layout, nids: seq<nat>, counts: seq<nat>, lens: seq<nat>, kinds: seq<bool>,
                   blks: seq<nat>, e: Ends)
    requires |l.plans| == |nids| == |lens| == |kinds| == |blks| && AllClear(nids, counts)
    requires forall i | 0 <= i < |l.plans| ::
               nids[i] == l.plans[i].info.nid && counts[i] == SlotsOf(l.plans[i].info.node, l.plans[i].area)
               && nids[i] + counts[i] <= e.slots
    requires forall i | 0 <= i < |l.plans| ::
               lens[i] == |l.plans[i].data| && kinds[i] == l.plans[i].info.node.isDir && blks[i] == l.plans[i].blk
    requires e.inodes == 1 + Blocks(SLOT * e.slots) && e.table == e.inodes + Blocks(|l.table|)
    requires l.table != [] ==> l.super.xattrBlk == e.inodes
    requires Placed(lens, kinds, true, blks, e.table, e.dirs, |lens|)
             && Placed(lens, kinds, false, blks, e.dirs, e.files, |lens|)
    ensures AllApart(Patches(crc, l)) && Within(Patches(crc, l), 0, BLOCK * e.files)
  {
    hide SlotPatches, TablePatches, DataPatches, Blocks, SlotsOf, SuperPatch, AllApart, Within, Placed, AllClear;
    var sb, slots, table, dirs, files := [SuperPatch(crc, l.super)], SlotPatches(l.plans),
        TablePatches(l.table, l.super.xattrBlk), DataPatches(l.plans, true), DataPatches(l.plans, false);
    SuperApart(crc, l.super);
    SlotsApart(l.plans, nids, counts, e.slots, BLOCK * e.inodes);
    ApartJoin(sb, slots, 0, BLOCK, BLOCK * e.inodes);
    TableWithin(l, e);
    ApartJoin(sb + slots, table, 0, BLOCK * e.inodes, BLOCK * e.table);
    assert l.plans[..|l.plans|] == l.plans;
    PlacedRises(lens, kinds, true, blks, e.table, e.dirs);
    PlacedRises(lens, kinds, false, blks, e.dirs, e.files);
    DataApart(l.plans, true, lens, kinds, blks, e.table, e.dirs, |l.plans|);
    ApartJoin(sb + slots + table, dirs, 0, BLOCK * e.table, BLOCK * e.dirs);
    DataApart(l.plans, false, lens, kinds, blks, e.dirs, e.files, |l.plans|);
    ApartJoin(sb + slots + table + dirs, files, 0, BLOCK * e.dirs, BLOCK * e.files);
  }

  lemma PlacedRises(lens: seq<nat>, kinds: seq<bool>, dirs: bool, blks: seq<nat>, from: nat, to: nat)
    requires Placed(lens, kinds, dirs, blks, from, to, |lens|)
    ensures from <= to && |blks| == |lens|
  {
  }

  lemma TableWithin(l: Layout, e: Ends)
    requires e.table == e.inodes + Blocks(|l.table|) && (l.table != [] ==> l.super.xattrBlk == e.inodes)
    ensures AllApart(TablePatches(l.table, l.super.xattrBlk))
            && Within(TablePatches(l.table, l.super.xattrBlk), BLOCK * e.inodes, BLOCK * e.table)
    ensures e.inodes <= e.table
  {
    TableApart(l.table, l.super.xattrBlk);
  }
}
