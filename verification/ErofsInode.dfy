/** The fixed-layout records of an EROFS image: its superblock and its inodes. */
module ErofsInode {
  import opened Bytes
  import opened BigEndian
  import opened LittleEndian

  // ----- records as lists of little-endian fields -----

  datatype Field = Field(width: nat, value: nat)

  function Pack(fs: seq<Field>): seq<Byte> {
    if fs == [] then [] else Put(fs[0].value, fs[0].width) + Pack(fs[1..])
  }

  /** Where field `k` starts. */
  function Offset(fs: seq<Field>, k: nat): nat
    requires k <= |fs|
  {
    if k == 0 then 0 else Offset(fs, k - 1) + fs[k - 1].width
  }

  lemma {:induction false} OffsetShift(fs: seq<Field>, k: nat)
    requires 0 < k <= |fs|
    ensures Offset(fs, k) == fs[0].width + Offset(fs[1..], k - 1)
    decreases k
  {
    if k > 1 {
      OffsetShift(fs, k - 1);
    }
  }

  lemma {:induction false} PackLength(fs: seq<Field>)
    ensures |Pack(fs)| == Offset(fs, |fs|)
  {
    hide Put;
    if fs != [] {
      PackLength(fs[1..]);
      OffsetShift(fs, |fs|);
    }
  }

  /** A packed record holds each field at its offset. */
  lemma {:induction false} FieldBytes(fs: seq<Field>, k: nat)
    requires k < |fs|
    ensures Offset(fs, k) + fs[k].width <= |Pack(fs)|
    ensures Pack(fs)[Offset(fs, k)..Offset(fs, k) + fs[k].width] == Put(fs[k].value, fs[k].width)
    decreases |fs|
  {
    hide Put;
    var b, head, rest := Pack(fs), Put(fs[0].value, fs[0].width), Pack(fs[1..]);
    if k == 0 {
      assert b[0..|head|] == head;
    } else {
      FieldBytes(fs[1..], k - 1);
      OffsetShift(fs, k);
      var at := Offset(fs[1..], k - 1);
      assert b[|head|..|b|] == rest;
      SubSlice(b, |head|, |b|, |head| + at, |head| + at + fs[k].width);
    }
  }

  /** A field that fits its width reads back, wherever the record lies in the image. */
  lemma FieldReads(image: seq<Byte>, off: nat, fs: seq<Field>, k: nat)
    requires k < |fs| && off + |Pack(fs)| <= |image| && image[off..off + |Pack(fs)|] == Pack(fs)
    requires fs[k].value < Pow256(fs[k].width)
    ensures var at := off + Offset(fs, k);
            at + fs[k].width <= |image| && Get(image[at..at + fs[k].width]) == fs[k].value
  {
    hide Put, Get, Pack, Offset, Pow256;
    FieldBytes(fs, k);
    SubSlice(image, off, off + |Pack(fs)|, off + Offset(fs, k), off + Offset(fs, k) + fs[k].width);
    GetPut(fs[k].value, fs[k].width);
  }

  // ----- inodes -----

  datatype Error = Truncated | BadMagic | BadChecksum | BadField

  datatype Result<+T> = Ok(value: T) | Err(error: Error)

  /** What a reader learns of an inode. `version` is 0 for compact and 1 for extended ones; a compact one has no
      modification time. */
  datatype Inode = Inode(version: nat, layout: nat, xattrCount: nat, mode: nat, nlink: nat, size: nat, raw: nat,
                         ino: nat, uid: nat, gid: nat, mtime: nat, nsec: nat)

  function Low16(n: nat): nat {
    n % 0x1_0000
  }

  function Low32(n: nat): nat {
    n % 0x1_0000_0000
  }

  function CompactFields(i: Inode): seq<Field> {
    [Field(2, 0), Field(2, Low16(i.xattrCount)), Field(2, Low16(i.mode)), Field(2, i.nlink), Field(4, Low32(i.size)),
     Field(4, 0), Field(4, Low32(i.raw)), Field(4, Low32(i.ino)), Field(2, Low16(i.uid)), Field(2, Low16(i.gid)),
     Field(4, 0)]
  }

  function ExtendedFields(i: Inode): seq<Field> {
    [Field(2, 1), Field(2, Low16(i.xattrCount)), Field(2, Low16(i.mode)), Field(2, 0), Field(8, i.size),
     Field(4, Low32(i.raw)), Field(4, Low32(i.ino)), Field(4, Low32(i.uid)), Field(4, Low32(i.gid)),
     Field(8, i.mtime), Field(4, i.nsec), Field(4, i.nlink), Field(16, 0)]
  }

  function InodeFields(i: Inode): seq<Field> {
    if i.version == 0 then CompactFields(i) else ExtendedFields(i)
  }

  function HeaderSize(version: nat): nat {
    if version == 0 then 32 else 64
  }

  lemma CompactOffsets(i: Inode)
    ensures var fs := CompactFields(i);
            && Offset(fs, 0) == 0 && Offset(fs, 1) == 2 && Offset(fs, 2) == 4 && Offset(fs, 3) == 6
            && Offset(fs, 4) == 8 && Offset(fs, 6) == 16 && Offset(fs, 7) == 20 && Offset(fs, 8) == 24
            && Offset(fs, 9) == 26 && |Pack(fs)| == 32
  {
    var fs := CompactFields(i);
    assert Offset(fs, 1) == 2 && Offset(fs, 2) == 4 && Offset(fs, 3) == 6;
    assert Offset(fs, 4) == 8 && Offset(fs, 5) == 12 && Offset(fs, 6) == 16;
    assert Offset(fs, 7) == 20 && Offset(fs, 8) == 24 && Offset(fs, 9) == 26;
    assert Offset(fs, 10) == 28 && Offset(fs, 11) == 32;
    PackLength(fs);
  }

  lemma ExtendedOffsets(i: Inode)
    ensures var fs := ExtendedFields(i);
            && Offset(fs, 0) == 0 && Offset(fs, 1) == 2 && Offset(fs, 2) == 4 && Offset(fs, 4) == 8
            && Offset(fs, 5) == 16 && Offset(fs, 6) == 20 && Offset(fs, 7) == 24 && Offset(fs, 8) == 28
            && Offset(fs, 9) == 32 && Offset(fs, 10) == 40 && Offset(fs, 11) == 44 && |Pack(fs)| == 64
  {
    var fs := ExtendedFields(i);
    assert Offset(fs, 1) == 2 && Offset(fs, 2) == 4 && Offset(fs, 3) == 6;
    assert Offset(fs, 4) == 8 && Offset(fs, 5) == 16 && Offset(fs, 6) == 20;
    assert Offset(fs, 7) == 24 && Offset(fs, 8) == 28 && Offset(fs, 9) == 32;
    assert Offset(fs, 10) == 40 && Offset(fs, 11) == 44 && Offset(fs, 12) == 48 && Offset(fs, 13) == 64;
    PackLength(fs);
  }

  /** The number in the `n` bytes at `at`. */
  function Num(image: seq<Byte>, at: nat, n: nat): nat
    requires at + n <= |image|
  {
    Get(image[at..at + n])
  }

  /** The inode at byte `off` of an image. */
  function InodeAt(image: seq<Byte>, off: nat): Result<Inode> {
    if |image| < off + 32 then Err(Truncated)
    else
      var format := Num(image, off, 2);
      var version, layout := format % 2, format / 2 % 8;
      if version == 0 then
        Ok(Inode(version, layout, Num(image, off + 2, 2), Num(image, off + 4, 2), Num(image, off + 6, 2),
                 Num(image, off + 8, 4), Num(image, off + 16, 4), Num(image, off + 20, 4), Num(image, off + 24, 2),
                 Num(image, off + 26, 2), 0, 0))
      else if |image| < off + 64 then Err(Truncated)
      else
        Ok(Inode(version, layout, Num(image, off + 2, 2), Num(image, off + 4, 2), Num(image, off + 44, 4),
                 Num(image, off + 8, 8), Num(image, off + 16, 4), Num(image, off + 20, 4), Num(image, off + 24, 4),
                 Num(image, off + 28, 4), Num(image, off + 32, 8), Num(image, off + 40, 4)))
  }

  /** The values an inode of its version can hold. */
  predicate Fits(i: Inode) {
    && i.version <= 1 && i.layout == 0 && i.xattrCount < 0x1_0000 && i.mode < 0x1_0000 && i.raw < 0x1_0000_0000
    && i.ino < 0x1_0000_0000
    && if i.version == 0 then
         && i.nlink < 0x1_0000 && i.size < 0x1_0000_0000 && i.uid < 0x1_0000 && i.gid < 0x1_0000
         && i.mtime == 0 && i.nsec == 0
       else
         && i.nlink < 0x1_0000_0000 && i.size < 0x1_0000_0000_0000_0000 && i.uid < 0x1_0000_0000
         && i.gid < 0x1_0000_0000 && i.mtime < 0x1_0000_0000_0000_0000 && i.nsec < 0x1_0000_0000
  }

  /** Field `k` of a record in the image, if it fits its width. */
  lemma NumReads(image: seq<Byte>, off: nat, fs: seq<Field>, k: nat)
    requires k < |fs| && off + |Pack(fs)| <= |image| && image[off..off + |Pack(fs)|] == Pack(fs)
    requires fs[k].value < Pow256(fs[k].width)
    ensures var at := off + Offset(fs, k); at + fs[k].width <= |image| && Num(image, at, fs[k].width) == fs[k].value
  {
    hide Pack, Offset, Get, Pow256;
    FieldReads(image, off, fs, k);
  }

  lemma CompactReads(image: seq<Byte>, off: nat, i: Inode)
    requires Fits(i) && i.version == 0
    requires var b := Pack(CompactFields(i)); off + |b| <= |image| && image[off..off + |b|] == b
    ensures InodeAt(image, off) == Ok(i)
  {
    hide Pack, Offset, Num;
    Widths();
    var fs := CompactFields(i);
    CompactOffsets(i);
    NumReads(image, off, fs, 0);
    NumReads(image, off, fs, 1);
    NumReads(image, off, fs, 2);
    NumReads(image, off, fs, 3);
    NumReads(image, off, fs, 4);
    NumReads(image, off, fs, 6);
    NumReads(image, off, fs, 7);
    NumReads(image, off, fs, 8);
    NumReads(image, off, fs, 9);
  }

  lemma ExtendedReads(image: seq<Byte>, off: nat, i: Inode)
    requires Fits(i) && i.version == 1
    requires var b := Pack(ExtendedFields(i)); off + |b| <= |image| && image[off..off + |b|] == b
    ensures InodeAt(image, off) == Ok(i)
  {
    hide Pack, Offset, Num;
    Widths();
    var fs := ExtendedFields(i);
    ExtendedOffsets(i);
    NumReads(image, off, fs, 0);
    NumReads(image, off, fs, 1);
    NumReads(image, off, fs, 2);
    NumReads(image, off, fs, 4);
    NumReads(image, off, fs, 5);
    NumReads(image, off, fs, 6);
    NumReads(image, off, fs, 7);
    NumReads(image, off, fs, 8);
    NumReads(image, off, fs, 9);
    NumReads(image, off, fs, 10);
    NumReads(image, off, fs, 11);
  }

  /** An inode written anywhere in an image reads back, when its values fit its version. */
  lemma InodeReads(image: seq<Byte>, off: nat, i: Inode)
    requires Fits(i)
    requires var b := Pack(InodeFields(i)); off + |b| <= |image| && image[off..off + |b|] == b
    ensures InodeAt(image, off) == Ok(i)
  {
    hide Pack, CompactFields, ExtendedFields, InodeAt;
    if i.version == 0 {
      CompactReads(image, off, i);
    } else {
      ExtendedReads(image, off, i);
    }
  }

  /** The mode of a compact inode reads back whatever else it holds. */
  lemma CompactMode(image: seq<Byte>, off: nat, i: Inode)
    requires i.version == 0 && i.mode < 0x1_0000
    requires var b := Pack(CompactFields(i)); off + |b| <= |image| && image[off..off + |b|] == b
    ensures InodeAt(image, off).Ok? && InodeAt(image, off).value.mode == i.mode
  {
    hide Pack, Offset, Num;
    Widths();
    CompactOffsets(i);
    NumReads(image, off, CompactFields(i), 0);
    NumReads(image, off, CompactFields(i), 2);
  }

  lemma HeaderLength(i: Inode)
    ensures |Pack(InodeFields(i))| == HeaderSize(i.version)
  {
    hide Pack, Offset;
    CompactOffsets(i);
    ExtendedOffsets(i);
  }

  // ----- the superblock -----

  const SUPER_MAGIC: nat := 0xE0F5E1E2

  const SUPER_OFFSET: nat := 1024

  const SUPER_SIZE: nat := 128

  type Crc = seq<Byte> -> nat

  datatype Super = Super(rootNid: nat, inodes: nat, blocks: nat, metaBlk: nat, xattrBlk: nat)

  /** The superblock with `sum` in its checksum field. A root beyond 16 bits goes to the wide field as well. */
  function SuperFields(s: Super, sum: nat): seq<Field> {
    [Field(4, SUPER_MAGIC), Field(4, sum), Field(4, 0), Field(1, 12), Field(1, 0), Field(2, Low16(s.rootNid)),
     Field(8, s.inodes), Field(12, 0), Field(4, Low32(s.blocks)), Field(4, Low32(s.metaBlk)),
     Field(4, Low32(s.xattrBlk)), Field(62, 0), Field(8, if s.rootNid > 0xFFFF then s.rootNid else 0), Field(10, 0)]
  }

  function SuperBytes(crc: Crc, s: Super): seq<Byte> {
    Pack(SuperFields(s, Low32(crc(Pack(SuperFields(s, 0))))))
  }

  lemma SuperOffsets(s: Super, sum: nat)
    ensures var fs := SuperFields(s, sum);
            && Offset(fs, 0) == 0 && Offset(fs, 1) == 4 && Offset(fs, 3) == 12 && Offset(fs, 5) == 14
            && Offset(fs, 6) == 16 && Offset(fs, 8) == 36 && Offset(fs, 9) == 40 && Offset(fs, 10) == 44
            && Offset(fs, 12) == 110 && |Pack(fs)| == SUPER_SIZE
  {
    var fs := SuperFields(s, sum);
    assert Offset(fs, 1) == 4 && Offset(fs, 2) == 8 && Offset(fs, 3) == 12;
    assert Offset(fs, 4) == 13 && Offset(fs, 5) == 14 && Offset(fs, 6) == 16;
    assert Offset(fs, 7) == 24 && Offset(fs, 8) == 36 && Offset(fs, 9) == 40;
    assert Offset(fs, 10) == 44 && Offset(fs, 11) == 48 && Offset(fs, 12) == 110;
    assert Offset(fs, 13) == 118 && Offset(fs, 14) == 128;
    PackLength(fs);
  }

  /** Parse and verify the superblock. A zero checksum is not verified. */
  function ReadSuper(crc: Crc, image: seq<Byte>): Result<Super> {
    if |image| < SUPER_OFFSET + SUPER_SIZE then Err(Truncated)
    else
      var b := image[SUPER_OFFSET..SUPER_OFFSET + SUPER_SIZE];
      var sum := Get(b[4..8]);
      if Get(b[0..4]) != SUPER_MAGIC then Err(BadMagic)
      else if sum != 0 && sum != Low32(crc(b[..4] + Zeros(4) + b[8..])) then Err(BadChecksum)
      else if b[12] != 12 || Get(b[36..40]) == 0 || Get(b[16..24]) == 0 || Get(b[40..44]) == 0 then Err(BadField)
      else
        var wide := Get(b[110..118]);
        Ok(Super(if wide != 0 then wide else Get(b[14..16]), Get(b[16..24]), Get(b[36..40]), Get(b[40..44]),
                 Get(b[44..48])))
  }

  /** The values a superblock can hold. */
  predicate SuperFits(s: Super) {
    && s.rootNid < 0x1_0000_0000_0000_0000 && 0 < s.inodes < 0x1_0000_0000_0000_0000
    && 0 < s.blocks < 0x1_0000_0000
    && 0 < s.metaBlk < 0x1_0000_0000 && s.xattrBlk < 0x1_0000_0000
  }

  /** Clearing the checksum of a packed superblock gives the bytes the checksum was taken over. */
  lemma ClearedSum(s: Super, sum: nat)
    ensures var b := Pack(SuperFields(s, sum));
            |b| == SUPER_SIZE && b[..4] + Zeros(4) + b[8..] == Pack(SuperFields(s, 0))
  {
    hide Put, Offset;
    var fs, zs := SuperFields(s, sum), SuperFields(s, 0);
    SuperOffsets(s, sum);
    assert fs[1..][1..] == zs[1..][1..];
    var rest := Pack(fs[1..][1..]);
    assert Pack(fs) == Put(SUPER_MAGIC, 4) + (Put(sum, 4) + rest);
    assert Pack(zs) == Put(SUPER_MAGIC, 4) + (Put(0, 4) + rest);
    PutZero(4);
    assert Pack(fs)[..4] == Put(SUPER_MAGIC, 4) && Pack(fs)[8..] == rest;
  }

  lemma SuperStart(s: Super, sum: nat)
    requires SuperFits(s) && sum < 0x1_0000_0000
    ensures var b := Pack(SuperFields(s, sum));
            && |b| == SUPER_SIZE && Get(b[0..4]) == SUPER_MAGIC && Get(b[4..8]) == sum && b[12] == 12
            && Get(b[14..16]) == Low16(s.rootNid) && Get(b[16..24]) == s.inodes
  {
    hide Pack, Offset, Get, Put;
    var fs := SuperFields(s, sum);
    var b := Pack(fs);
    SuperOffsets(s, sum);
    Widths();
    assert b[0..SUPER_SIZE] == b;
    assert Pow256(1) == 256;
    FieldReads(b, 0, fs, 0);
    FieldReads(b, 0, fs, 1);
    FieldReads(b, 0, fs, 3);
    OneByte(b[12..13]);
    FieldReads(b, 0, fs, 5);
    FieldReads(b, 0, fs, 6);
  }

  lemma SuperEnd(s: Super, sum: nat)
    requires SuperFits(s)
    ensures var b := Pack(SuperFields(s, sum));
            && |b| == SUPER_SIZE && Get(b[36..40]) == s.blocks && Get(b[40..44]) == s.metaBlk
            && Get(b[44..48]) == s.xattrBlk
            && Get(b[110..118]) == if s.rootNid > 0xFFFF then s.rootNid else 0
  {
    hide Pack, Offset, Get, Put;
    var fs := SuperFields(s, sum);
    var b := Pack(fs);
    SuperOffsets(s, sum);
    Widths();
    assert b[0..SUPER_SIZE] == b;
    FieldReads(b, 0, fs, 8);
    FieldReads(b, 0, fs, 9);
    FieldReads(b, 0, fs, 10);
    FieldReads(b, 0, fs, 12);
  }

  /** A superblock written at its place reads back, checksum and all. */
  lemma SuperReads(crc: Crc, image: seq<Byte>, s: Super)
    requires SuperFits(s)
    requires var b := SuperBytes(crc, s);
             SUPER_OFFSET + |b| <= |image| && image[SUPER_OFFSET..SUPER_OFFSET + |b|] == b
    ensures ReadSuper(crc, image) == Ok(s)
  {
    hide Pack, Offset, Get, Put, SuperFields;
    var sum := Low32(crc(Pack(SuperFields(s, 0))));
    ClearedSum(s, sum);
    SuperStart(s, sum);
    SuperEnd(s, sum);
  }

  lemma OneByte(s: seq<Byte>)
    requires |s| == 1
    ensures Get(s) == s[0]
  {
    assert Get(s[1..]) == 0;
  }
}
